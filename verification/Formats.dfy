/** Portable format strings, and what Python's `struct` module reads in them.

    In the `<` and `>` modes every code has its standard size and nothing is aligned, so
    the writer spells out all padding. Characters after the byte-order mark are modelled.
 */
module Formats {
  import opened Types

  // ----- Units of a format -------------------------------------------------------------

  /** A code, or a code after a repeat count. */
  datatype Unit = One(code: char) | Many(count: nat, code: char)

  /** The standard sizes; `x` is a pad byte. */
  function CodeSize(code: char): Option<nat> {
    if code in "xbB" then Some(1)
    else if code in "hH" then Some(2)
    else if code in "iIf" then Some(4)
    else if code in "qQd" then Some(8)
    else None
  }

  predicate KnownCode(code: char) { CodeSize(code).Some? }

  predicate KnownUnits(us: seq<Unit>) {
    forall u | u in us :: KnownCode(u.code)
  }

  predicate IsDigit(c: char) { '0' <= c <= '9' }

  function ToString(n: nat): string {
    if n < 10 then ['0' + n as char] else ToString(n / 10) + ['0' + (n % 10) as char]
  }

  function Show(us: seq<Unit>): string {
    if us == [] then "" else ShowUnit(us[0]) + Show(us[1..])
  }

  function ShowUnit(u: Unit): string {
    match u
    case One(c) => [c]
    case Many(n, c) => ToString(n) + [c]
  }

  // ----- Reading -----------------------------------------------------------------------

  /** The decimal digits at the start, read onto `n`. */
  function ReadNumber(s: string, n: nat): (r: (nat, string))
    ensures |r.1| <= |s|
    decreases |s|
  {
    if s != [] && IsDigit(s[0]) then ReadNumber(s[1..], n * 10 + (s[0] as int - '0' as int)) else (n, s)
  }

  function ParseFormat(s: string): Option<seq<Unit>>
    decreases |s|
  {
    if s == [] then Some([])
    else
      var (n, rest) := ReadNumber(s, 0);
      if rest == [] || !KnownCode(rest[0]) then None
      else
        var u := if IsDigit(s[0]) then Many(n, rest[0]) else One(rest[0]);
        match ParseFormat(rest[1..])
        case Some(us) => Some([u] + us)
        case None => None
  }

  lemma ReadDigits(n: nat, rest: string)
    requires rest == [] || !IsDigit(rest[0])
    ensures ReadNumber(ToString(n) + rest, 0) == (n, rest)
  {
    var p := ReadDigitsBy(n, 0, rest);
  }

  /** Reading a number written in decimal appends its digits to those read before. */
  lemma {:induction false} ReadDigitsBy(n: nat, m: nat, rest: string) returns (p: nat)
    ensures p > 0
    ensures ReadNumber(ToString(n) + rest, m) == ReadNumber(rest, m * p + n)
    decreases n
  {
    hide ToString;
    hide ReadNumber;
    var last := ['0' + (n % 10) as char];
    ToStringSplits(n);
    if n < 10 {
      p := 10;
      assert [] + last == last;
      DigitRead(n, m, rest);
    } else {
      var q := ReadDigitsBy(n / 10, m, last + rest);
      assert ToString(n / 10) + last + rest == ToString(n / 10) + (last + rest);
      DigitRead(n % 10, m * q + n / 10, rest);
      p := q * 10;
      TimesTen(m, q, n);
    }
  }

  lemma ToStringSplits(n: nat)
    ensures ToString(n) == (if n < 10 then [] else ToString(n / 10)) + ['0' + (n % 10) as char]
  {
  }

  lemma TimesTen(m: nat, q: nat, n: nat)
    ensures (m * q + n / 10) * 10 + n % 10 == m * (q * 10) + n
  {
    assert m * (q * 10) == m * q * 10;
  }

  lemma DigitRead(d: nat, m: nat, rest: string)
    requires d < 10
    ensures ReadNumber(['0' + d as char] + rest, m) == ReadNumber(rest, m * 10 + d)
  {
    var s := ['0' + d as char] + rest;
    assert s[1..] == rest;
  }

  lemma UnitReads(u: Unit, rest: string)
    requires KnownCode(u.code)
    ensures ShowUnit(u) != []
    ensures ParseFormat(ShowUnit(u) + rest)
         == match ParseFormat(rest)
            case Some(us) => Some([u] + us)
            case None => None
  {
    hide ToString;
    var code := [u.code] + rest;
    assert !IsDigit(u.code) && code[1..] == rest;
    match u
    case One(_) =>
      assert ShowUnit(u) + rest == code;
      assert ReadNumber(code, 0) == (0, code);
    case Many(n, _) =>
      assert ShowUnit(u) + rest == ToString(n) + code;
      ReadDigits(n, code);
      StartsWithDigit(n);
  }

  /** Every written format is read as the units it was written from. */
  lemma {:induction false} ShowReads(us: seq<Unit>)
    requires KnownUnits(us)
    ensures ParseFormat(Show(us)) == Some(us)
  {
    hide ShowUnit;
    if us != [] {
      assert us[0] in us;
      ShowReads(us[1..]);
      UnitReads(us[0], Show(us[1..]));
      assert us == [us[0]] + us[1..];
    }
  }

  lemma {:induction false} StartsWithDigit(n: nat)
    ensures ToString(n) != [] && IsDigit(ToString(n)[0])
  {
    if n >= 10 {
      StartsWithDigit(n / 10);
    }
  }

  // ----- What a format describes ---------------------------------------------------------

  function UnitSize(u: Unit): nat
    requires KnownCode(u.code)
  {
    CodeSize(u.code).value * if u.Many? then u.count else 1
  }

  function TotalSize(us: seq<Unit>): nat
    requires KnownUnits(us)
  {
    if us == [] then 0 else UnitSize(us[0]) + TotalSize(us[1..])
  }

  /** A unit other than padding, with the offset at which it is unpacked. */
  datatype Item = Item(offset: nat, u: Unit)

  function ItemsAt(us: seq<Unit>, pos: nat): seq<Item>
    requires KnownUnits(us)
  {
    if us == [] then []
    else (if us[0].code == 'x' then [] else [Item(pos, us[0])]) + ItemsAt(us[1..], pos + UnitSize(us[0]))
  }

  lemma {:induction false} ShowConcat(a: seq<Unit>, b: seq<Unit>)
    ensures Show(a + b) == Show(a) + Show(b)
  {
    hide ShowUnit;
    if a == [] {
      assert a + b == b;
    } else {
      assert (a + b)[1..] == a[1..] + b;
      ShowConcat(a[1..], b);
    }
  }

  lemma UnitsConcat(a: seq<Unit>, b: seq<Unit>, pos: nat)
    requires KnownUnits(a) && KnownUnits(b)
    ensures KnownUnits(a + b) && TotalSize(a + b) == TotalSize(a) + TotalSize(b)
    ensures ItemsAt(a + b, pos) == ItemsAt(a, pos) + ItemsAt(b, pos + TotalSize(a))
  {
    hide TotalSize;
    hide ItemsAt;
    SizesConcat(a, b);
    ItemsConcat(a, b, pos);
  }

  lemma {:induction false} SizesConcat(a: seq<Unit>, b: seq<Unit>)
    requires KnownUnits(a) && KnownUnits(b)
    ensures KnownUnits(a + b) && TotalSize(a + b) == TotalSize(a) + TotalSize(b)
  {
    hide UnitSize;
    hide KnownCode;
    if a == [] {
      assert a + b == b;
    } else {
      assert (a + b)[1..] == a[1..] + b;
      SizesConcat(a[1..], b);
    }
  }

  /** The item of one unit, unless it is padding. */
  function ItemOf(u: Unit, pos: nat): seq<Item> {
    if u.code == 'x' then [] else [Item(pos, u)]
  }

  lemma ItemsCons(us: seq<Unit>, pos: nat)
    requires KnownUnits(us) && us != []
    ensures KnownUnits(us[1..]) && TotalSize(us) == UnitSize(us[0]) + TotalSize(us[1..])
    ensures ItemsAt(us, pos) == ItemOf(us[0], pos) + ItemsAt(us[1..], pos + UnitSize(us[0]))
  {
  }

  lemma NoItems(pos: nat)
    ensures TotalSize([]) == 0 && ItemsAt([], pos) == []
  {
  }

  lemma {:induction false} ItemsConcat(a: seq<Unit>, b: seq<Unit>, pos: nat)
    requires KnownUnits(a) && KnownUnits(b) && KnownUnits(a + b)
    ensures ItemsAt(a + b, pos) == ItemsAt(a, pos) + ItemsAt(b, pos + TotalSize(a))
  {
    hide UnitSize;
    hide KnownCode;
    hide ItemsAt;
    hide TotalSize;
    hide ItemOf;
    if a == [] {
      assert a + b == b;
      NoItems(pos);
    } else {
      assert (a + b)[1..] == a[1..] + b && (a + b)[0] == a[0];
      var next, head := pos + UnitSize(a[0]), ItemOf(a[0], pos);
      ItemsCons(a, pos);
      ItemsCons(a + b, pos);
      ItemsConcat(a[1..], b, next);
      var mid, last := ItemsAt(a[1..], next), ItemsAt(b, pos + TotalSize(a));
      assert head + (mid + last) == head + mid + last;
    }
  }

  function Pads(n: nat): (us: seq<Unit>)
    ensures KnownUnits(us)
  {
    seq(n, _ => One('x'))
  }

  lemma {:induction false} PadsSize(n: nat, pos: nat)
    ensures TotalSize(Pads(n)) == n && ItemsAt(Pads(n), pos) == []
  {
    if n > 0 {
      PadsSize(n - 1, pos + 1);
      assert Pads(n)[1..] == Pads(n - 1);
    }
  }

  // ----- The format of a type ------------------------------------------------------------

  predicate IsSigned(k: BasicKind) {
    k in {Char, SChar, Short, Int, Long, LongLong, Int128}
  }

  /** `getBTyPortableFormatDescriptor` on an LP64 host, where char is signed. */
  function BasicUnit(k: BasicKind): (u: Unit)
    ensures KnownCode(u.code)
  {
    match k
    case Float => One('f')
    case Double => One('d')
    case UChar => One('B')
    case SChar => One('b')
    case UShort => One('H')
    case Short => One('h')
    case UInt => One('I')
    case Int => One('i')
    case ULong => One('Q')
    case Long => One('q')
    case _ => SizedUnit(BasicSize(k), IsSigned(k))
  }

  function SizedUnit(size: nat, signed: bool): (u: Unit)
    ensures KnownCode(u.code)
  {
    if size == 1 then One(if signed then 'b' else 'B')
    else if size == 2 then One(if signed then 'h' else 'H')
    else if size == 4 then One(if signed then 'i' else 'I')
    else if size == 8 then One(if signed then 'q' else 'Q')
    else Many(size, 'B')
  }

  /** What a code unpacks to. */
  datatype Value = SignedInt | UnsignedInt | Floating

  /** As the documentation of Python's `struct` lists the codes. */
  function CodeValue(code: char): Option<Value> {
    if code in "bhiq" then Some(SignedInt)
    else if code in "BHIQ" then Some(UnsignedInt)
    else if code in "fd" then Some(Floating)
    else None
  }

  /** What C keeps in a basic type that a single code can hold. */
  function KindValue(k: BasicKind): Option<Value> {
    match k
    case Char => Some(SignedInt)
    case SChar => Some(SignedInt)
    case Short => Some(SignedInt)
    case Int => Some(SignedInt)
    case Long => Some(SignedInt)
    case LongLong => Some(SignedInt)
    case Bool => Some(UnsignedInt)
    case UChar => Some(UnsignedInt)
    case UShort => Some(UnsignedInt)
    case UInt => Some(UnsignedInt)
    case ULong => Some(UnsignedInt)
    case ULongLong => Some(UnsignedInt)
    case Float => Some(Floating)
    case Double => Some(Floating)
    case Int128 => None
    case UInt128 => None
    case LongDouble => None
    case ComplexFloat => None
    case ComplexDouble => None
    case ComplexLongDouble => None
  }

  /** The unit unpacks to one value of the kind and size of the type, or to its bytes. */
  ghost predicate Describes(u: Unit, k: BasicKind) {
    match KindValue(k)
    case Some(v) => u.One? && CodeValue(u.code) == Some(v) && CodeSize(u.code) == Some(BasicSize(k))
    case None => u == Many(BasicSize(k), 'B')
  }

  /** Every basic type is described, but for a complex number of two floats, which is taken
      for an unsigned integer of its size. */
  lemma BasicUnitMeans(k: BasicKind)
    ensures Describes(BasicUnit(k), k) <==> k != ComplexFloat
    ensures BasicUnit(ComplexFloat) == One('Q')
  {
  }

  /** Structs nest by value without cycles. */
  ghost predicate Nested(g: Graph, rank: Composite -> nat) {
    forall c, f | f in Fields(g, c) && f.ty.Comp? :: rank(f.ty.c) < rank(c)
  }

  predicate IsStruct(ty: Type) { ty.Comp? && ty.c.kind == Struct }

  ghost function Height(rank: Composite -> nat, ty: Type): nat {
    if ty.Comp? then rank(ty.c) + 1 else 0
  }

  /** The units of a type that is not a struct: unions, arrays and the rest are bytes. */
  function PlainUnits(g: Graph, ty: Type): (us: seq<Unit>)
    ensures KnownUnits(us)
  {
    match ty
    case Basic(k) => [BasicUnit(k)]
    case Enum(_) => [BasicUnit(Int)]
    case Pointer(_) => [SizedUnit(POINTER_SIZE, false)]
    case _ => [Many(SizeOf(g, ty), 'B')]
  }

  /** The units of a type: a struct is its fields with padding between and after them. */
  ghost function Units(g: Graph, rank: Composite -> nat, ty: Type): (us: seq<Unit>)
    requires Nested(g, rank)
    ensures KnownUnits(us)
    decreases Height(rank, ty), 1, 0
  {
    if IsStruct(ty) then StructUnits(g, rank, ty.c, Fields(g, ty.c), 0) else PlainUnits(g, ty)
  }

  ghost function StructUnits(g: Graph, rank: Composite -> nat, c: Composite, fields: seq<Field>, cur: nat): (us: seq<Unit>)
    requires Nested(g, rank) && forall f | f in fields :: f in Fields(g, c)
    ensures KnownUnits(us)
    decreases rank(c) + 1, 0, |fields|
  {
    if fields == [] then Pads(Less(SizeOf(g, Comp(c)), cur))
    else
      var f := fields[0];
      assert f in fields;
      Pads(Less(f.offset, cur)) + Units(g, rank, f.ty) + StructUnits(g, rank, c, fields[1..], f.offset + SizeOf(g, f.ty))
  }

  function Less(a: nat, b: nat): nat { if a < b then 0 else a - b }

  // ----- Sizes -----------------------------------------------------------------------------

  /** Fields in order of offset, none starting before the last one ended, at every level. */
  ghost predicate Packed(g: Graph, rank: Composite -> nat, ty: Type)
    requires Nested(g, rank)
    decreases Height(rank, ty), 1, 0
  {
    IsStruct(ty) ==> PackedFields(g, rank, ty.c, Fields(g, ty.c), 0)
  }

  ghost predicate PackedFields(g: Graph, rank: Composite -> nat, c: Composite, fields: seq<Field>, cur: nat)
    requires Nested(g, rank) && forall f | f in fields :: f in Fields(g, c)
    decreases rank(c) + 1, 0, |fields|
  {
    fields != [] ==>
      var f := fields[0];
      assert f in fields;
      cur <= f.offset && Packed(g, rank, f.ty) && PackedFields(g, rank, c, fields[1..], f.offset + SizeOf(g, f.ty))
  }

  lemma PlainSize(g: Graph, ty: Type)
    ensures TotalSize(PlainUnits(g, ty)) == SizeOf(g, ty)
  {
    hide BasicUnit;
    var us := PlainUnits(g, ty);
    assert us[1..] == [];
    assert TotalSize(us) == UnitSize(us[0]);
    BasicUnitSize(if ty.Basic? then ty.kind else Int);
  }

  lemma BasicUnitSize(k: BasicKind)
    ensures UnitSize(BasicUnit(k)) == BasicSize(k)
  {
  }

  /** The format never describes fewer bytes than the type has, and exactly as many just
      when the type is packed. */
  lemma {:induction false} FormatSize(g: Graph, rank: Composite -> nat, ty: Type)
    requires Nested(g, rank) && FieldsInside(g)
    ensures TotalSize(Units(g, rank, ty)) >= SizeOf(g, ty)
    ensures TotalSize(Units(g, rank, ty)) == SizeOf(g, ty) <==> Packed(g, rank, ty)
    decreases Height(rank, ty), 1, 0
  {
    hide PlainUnits;
    hide TotalSize;
    if IsStruct(ty) {
      StructSize(g, rank, ty.c, Fields(g, ty.c), 0);
    } else {
      PlainSize(g, ty);
    }
  }

  lemma {:induction false} StructSize(g: Graph, rank: Composite -> nat, c: Composite, fields: seq<Field>, cur: nat)
    requires Nested(g, rank) && FieldsInside(g) && forall f | f in fields :: f in Fields(g, c)
    requires cur <= SizeOf(g, Comp(c))
    ensures TotalSize(StructUnits(g, rank, c, fields, cur)) + cur >= SizeOf(g, Comp(c))
    ensures TotalSize(StructUnits(g, rank, c, fields, cur)) + cur == SizeOf(g, Comp(c))
       <==> PackedFields(g, rank, c, fields, cur)
    decreases rank(c) + 1, 0, |fields|
  {
    hide Units;
    hide Packed;
    hide SizeOf;
    hide TotalSize;
    hide ItemsAt;
    hide KnownUnits;
    if fields == [] {
      PadsSize(SizeOf(g, Comp(c)) - cur, 0);
    } else {
      var f := fields[0];
      assert f in fields;
      var pads, inner := Pads(Less(f.offset, cur)), Units(g, rank, f.ty);
      var rest := StructUnits(g, rank, c, fields[1..], f.offset + SizeOf(g, f.ty));
      PadsSize(Less(f.offset, cur), 0);
      FormatSize(g, rank, f.ty);
      StructSize(g, rank, c, fields[1..], f.offset + SizeOf(g, f.ty));
      UnitsConcat(pads, inner, 0);
      UnitsConcat(pads + inner, rest, 0);
    }
  }

  // ----- Offsets -----------------------------------------------------------------------------

  /** Every member that is not a struct itself, recursively, at its absolute offset. */
  ghost function Leaves(g: Graph, rank: Composite -> nat, ty: Type, base: nat): seq<Item>
    requires Nested(g, rank)
    decreases Height(rank, ty), 1, 0
  {
    if IsStruct(ty) then FieldLeaves(g, rank, ty.c, Fields(g, ty.c), base) else [Item(base, PlainUnits(g, ty)[0])]
  }

  ghost function FieldLeaves(g: Graph, rank: Composite -> nat, c: Composite, fields: seq<Field>, base: nat): seq<Item>
    requires Nested(g, rank) && forall f | f in fields :: f in Fields(g, c)
    decreases rank(c) + 1, 0, |fields|
  {
    if fields == [] then []
    else
      var f := fields[0];
      assert f in fields;
      Leaves(g, rank, f.ty, base + f.offset) + FieldLeaves(g, rank, c, fields[1..], base)
  }

  lemma PlainItem(g: Graph, ty: Type, base: nat)
    ensures ItemsAt(PlainUnits(g, ty), base) == [Item(base, PlainUnits(g, ty)[0])]
  {
    var us := PlainUnits(g, ty);
    assert us[0].code != 'x';
    assert us[1..] == [];
    assert ItemsAt(us[1..], base + UnitSize(us[0])) == [];
  }

  /** Unpacking a packed type finds every leaf at its offset, in order, and nothing else. */
  lemma {:induction false} FormatOffsets(g: Graph, rank: Composite -> nat, ty: Type, base: nat)
    requires Nested(g, rank) && FieldsInside(g) && Packed(g, rank, ty)
    ensures ItemsAt(Units(g, rank, ty), base) == Leaves(g, rank, ty, base)
    decreases Height(rank, ty), 1, 0
  {
    hide PlainUnits;
    hide ItemsAt;
    if IsStruct(ty) {
      StructOffsets(g, rank, ty.c, Fields(g, ty.c), 0, base);
    } else {
      PlainItem(g, ty, base);
    }
  }

  lemma {:induction false} StructOffsets(g: Graph, rank: Composite -> nat, c: Composite, fields: seq<Field>, cur: nat, base: nat)
    requires Nested(g, rank) && FieldsInside(g) && forall f | f in fields :: f in Fields(g, c)
    requires PackedFields(g, rank, c, fields, cur)
    ensures ItemsAt(StructUnits(g, rank, c, fields, cur), base + cur) == FieldLeaves(g, rank, c, fields, base)
    decreases rank(c) + 1, 0, |fields|
  {
    hide Units;
    hide Packed;
    hide SizeOf;
    hide TotalSize;
    hide ItemsAt;
    hide Leaves;
    if fields == [] {
      PadsSize(Less(SizeOf(g, Comp(c)), cur), base + cur);
    } else {
      var f := fields[0];
      assert f in fields;
      var pads, inner := Pads(Less(f.offset, cur)), Units(g, rank, f.ty);
      var end := f.offset + SizeOf(g, f.ty);
      var rest := StructUnits(g, rank, c, fields[1..], end);
      PadsSize(f.offset - cur, base + cur);
      FormatSize(g, rank, f.ty);
      FormatOffsets(g, rank, f.ty, base + f.offset);
      StructOffsets(g, rank, c, fields[1..], end, base);
      UnitsConcat(pads, inner, base + cur);
      UnitsConcat(pads + inner, rest, base + cur);
      assert [] + ItemsAt(inner, base + f.offset) == ItemsAt(inner, base + f.offset);
    }
  }

  lemma {:induction false} FieldIsPacked(g: Graph, rank: Composite -> nat, c: Composite, fields: seq<Field>, cur: nat, f: Field)
    requires Nested(g, rank) && (forall f | f in fields :: f in Fields(g, c)) && f in fields
    requires PackedFields(g, rank, c, fields, cur)
    ensures Packed(g, rank, f.ty)
    decreases |fields|
  {
    hide Packed;
    if f != fields[0] {
      FieldIsPacked(g, rank, c, fields[1..], fields[0].offset + SizeOf(g, fields[0].ty), f);
    }
  }

  lemma {:induction false} FieldIsLeaf(g: Graph, rank: Composite -> nat, c: Composite, fields: seq<Field>, base: nat, f: Field, it: Item)
    requires Nested(g, rank) && (forall f | f in fields :: f in Fields(g, c)) && f in fields
    requires it in Leaves(g, rank, f.ty, base + f.offset)
    ensures it in FieldLeaves(g, rank, c, fields, base)
    decreases |fields|
  {
    hide Leaves;
    if f != fields[0] {
      FieldIsLeaf(g, rank, c, fields[1..], base, f, it);
    }
  }

  /** Whatever a field of a packed struct unpacks to, the struct unpacks to at that field's
      offset. */
  lemma FieldIsUnpacked(g: Graph, rank: Composite -> nat, c: Composite, f: Field, base: nat, it: Item)
    requires Nested(g, rank) && FieldsInside(g) && c.kind == Struct && f in Fields(g, c) && Packed(g, rank, Comp(c))
    requires it in ItemsAt(Units(g, rank, f.ty), base + f.offset)
    ensures it in ItemsAt(Units(g, rank, Comp(c)), base)
  {
    hide ItemsAt;
    FieldIsPacked(g, rank, c, Fields(g, c), 0, f);
    FormatOffsets(g, rank, f.ty, base + f.offset);
    FormatOffsets(g, rank, Comp(c), base);
    FieldIsLeaf(g, rank, c, Fields(g, c), base, f, it);
  }

  /** Unions, arrays and functions are bytes, and everything else that is no struct is one
      value. */
  lemma OthersAreBytes(g: Graph, rank: Composite -> nat, ty: Type)
    requires Nested(g, rank)
    ensures (ty.Comp? && ty.c.kind == Union) || ty.Array? || ty.Function? ==>
              Show(Units(g, rank, ty)) == ToString(SizeOf(g, ty)) + "B"
    ensures ty.Basic? ==> Units(g, rank, ty) == [BasicUnit(ty.kind)]
    ensures ty.Enum? ==> Units(g, rank, ty) == [One('i')]
    ensures ty.Pointer? ==> Units(g, rank, ty) == [One('Q')]
  {
    var us := Units(g, rank, ty);
    assert |us| > 0 ==> Show(us) == ShowUnit(us[0]) + Show(us[1..]);
    assert Show([]) == "";
  }

  /** What Python reads in the portable format of a packed type: the type's size, and every
      leaf at its absolute offset. */
  lemma FormatTheorem(g: Graph, rank: Composite -> nat, ty: Type)
    requires Nested(g, rank) && FieldsInside(g)
    ensures var r := ParseFormat(Show(Units(g, rank, ty)));
            && r.Some? && KnownUnits(r.value)
            && (TotalSize(r.value) == SizeOf(g, ty) <==> Packed(g, rank, ty))
            && (Packed(g, rank, ty) ==> ItemsAt(r.value, 0) == Leaves(g, rank, ty, 0))
  {
    hide Units;
    hide Packed;
    hide Leaves;
    ShowReads(Units(g, rank, ty));
    FormatSize(g, rank, ty);
    if Packed(g, rank, ty) {
      FormatOffsets(g, rank, ty, 0);
    }
  }

  // ----- The writer --------------------------------------------------------------------------

  method AddPads(ret: string, n: nat) returns (s: string)
    ensures s == ret + Show(Pads(n))
  {
    s := ret;
    assert Show(Pads(0)) == [];
    hide Show;
    for i := 0 to n
      invariant s == ret + Show(Pads(i))
    {
      OnePadMore(i);
      assert ret + (Show(Pads(i)) + ['x']) == ret + Show(Pads(i)) + ['x'];
      s := s + ['x'];
    }
  }

  lemma OnePadMore(n: nat)
    ensures Show(Pads(n + 1)) == Show(Pads(n)) + ['x']
  {
    assert Pads(n + 1) == Pads(n) + [One('x')];
    ShowConcat(Pads(n), [One('x')]);
    assert [One('x')][1..] == [] && Show([One('x')]) == ['x'];
  }

  /** The characters are read as one code that is no padding and takes `size` bytes. */
  ghost predicate IsCode(s: string, size: nat) {
    match ParseFormat(s)
    case Some(us) => KnownUnits(us) && |us| == 1 && us[0].code != 'x' && TotalSize(us) == size
    case None => false
  }

  lemma UnitIsCode(u: Unit)
    requires KnownCode(u.code) && u.code != 'x'
    ensures ShowUnit(u) == Show([u]) && IsCode(ShowUnit(u), UnitSize(u))
  {
    assert [u][1..] == [];
    assert Show([u]) == ShowUnit(u) + Show([]);
    assert KnownUnits([u]);
    ShowReads([u]);
    assert TotalSize([u]) == UnitSize(u);
  }

  /** The switch over sizes that basic types and pointers share. */
  method SizedFormat(size: nat, signed: bool) returns (s: string)
    ensures s == ShowUnit(SizedUnit(size, signed)) && IsCode(s, size)
  {
    hide IsCode;
    UnitIsCode(SizedUnit(size, signed));
    if size == 1 {
      s := if signed then "b" else "B";
    } else if size == 2 {
      s := if signed then "h" else "H";
    } else if size == 4 {
      s := if signed then "i" else "I";
    } else if size == 8 {
      s := if signed then "q" else "Q";
    } else {
      s := ToString(size) + "B";
    }
  }

  /** `getBTyPortableFormatDescriptor`. */
  method BasicFormat(k: BasicKind) returns (s: string)
    ensures s == ShowUnit(BasicUnit(k)) && IsCode(s, BasicSize(k))
  {
    hide IsCode;
    hide Show;
    var size := BasicSize(k);
    BasicUnitSize(k);
    assert BasicUnit(k).code != 'x';
    UnitIsCode(BasicUnit(k));
    if k == Float || k == Double {
      return if size == 4 then "f" else "d";
    }
    match k {
      case UChar => return "B";
      case SChar => return "b";
      case UShort => return "H";
      case Short => return "h";
      case UInt => return "I";
      case Int => return "i";
      case ULong => return "Q";
      case Long => return "q";
      case _ => s := SizedFormat(size, IsSigned(k));
    }
  }

  /** The cases of `getFormatDescriptorImpl` other than structs. */
  method PlainFormat(g: Graph, ty: Type) returns (s: string)
    ensures s == Show(PlainUnits(g, ty)) && IsCode(s, SizeOf(g, ty))
  {
    hide IsCode;
    hide Show;
    hide BasicUnit;
    hide SizedUnit;
    PlainCode(g, ty);
    match ty {
      case Basic(k) => s := BasicFormat(k);
      case Enum(_) => s := BasicFormat(Int);
      case Pointer(_) => s := SizedFormat(POINTER_SIZE, false);
      case _ => s := ToString(SizeOf(g, ty)) + "B";
    }
  }

  lemma PlainCode(g: Graph, ty: Type)
    ensures var u := PlainUnits(g, ty)[0];
            PlainUnits(g, ty) == [u] && Show([u]) == ShowUnit(u) && IsCode(ShowUnit(u), SizeOf(g, ty))
  {
    hide IsCode;
    hide Show;
    var u := PlainUnits(g, ty)[0];
    assert u.code != 'x';
    UnitIsCode(u);
    PlainSize(g, ty);
    assert PlainUnits(g, ty) == [u] && [u][1..] == [];
    assert TotalSize([u]) == UnitSize(u);
  }

  lemma Regroup(a: string, b: string, c: string, d: string)
    ensures a + (b + c + d) == a + b + c + d
  {
  }

  lemma StructText(g: Graph, rank: Composite -> nat, c: Composite, fields: seq<Field>, cur: nat)
    requires Nested(g, rank) && forall f | f in fields :: f in Fields(g, c)
    ensures fields == [] ==> StructUnits(g, rank, c, fields, cur) == Pads(Less(SizeOf(g, Comp(c)), cur))
    ensures fields != [] ==>
              var f := fields[0];
              && (forall h | h in fields[1..] :: h in Fields(g, c))
              && Show(StructUnits(g, rank, c, fields, cur))
              == Show(Pads(Less(f.offset, cur))) + Show(Units(g, rank, f.ty))
               + Show(StructUnits(g, rank, c, fields[1..], f.offset + SizeOf(g, f.ty)))
  {
    hide Show;
    hide Units;
    hide SizeOf;
    if fields != [] {
      var f := fields[0];
      assert f in fields;
      var pads, inner := Pads(Less(f.offset, cur)), Units(g, rank, f.ty);
      ShowConcat(pads + inner, StructUnits(g, rank, c, fields[1..], f.offset + SizeOf(g, f.ty)));
      ShowConcat(pads, inner);
    }
  }

  /** `getFormatDescriptorImpl` with the portable codes. */
  method FormatDescriptor(g: Graph, ghost rank: Composite -> nat, ty: Type) returns (ret: string)
    requires Nested(g, rank) && FieldsInside(g)
    ensures ret == Show(Units(g, rank, ty))
    decreases Height(rank, ty), 1
  {
    if IsStruct(ty) {
      ret := StructFormat(g, rank, ty.c);
    } else {
      ret := PlainFormat(g, ty);
    }
  }

  method StructFormat(g: Graph, ghost rank: Composite -> nat, c: Composite) returns (ret: string)
    requires Nested(g, rank) && FieldsInside(g)
    ensures ret == Show(StructUnits(g, rank, c, Fields(g, c), 0))
    decreases rank(c) + 1, 0
  {
    hide SizeOf;
    hide Show;
    hide StructUnits;
    hide Pads;
    var fields := Fields(g, c);
    ghost var whole := Show(StructUnits(g, rank, c, fields, 0));
    ret := [];
    var cur: nat := 0;
    var i := 0;
    assert fields[0..] == fields;
    while i < |fields|
      invariant 0 <= i <= |fields| && cur <= SizeOf(g, Comp(c))
      invariant forall f | f in fields[i..] :: f in Fields(g, c)
      invariant whole == ret + Show(StructUnits(g, rank, c, fields[i..], cur))
    {
      var f := fields[i];
      assert f in fields && fields[i..][0] == f && fields[i..][1..] == fields[i + 1..];
      StructText(g, rank, c, fields[i..], cur);
      ghost var was, pads, text := ret, Show(Pads(Less(f.offset, cur))), Show(Units(g, rank, f.ty));
      ghost var rest := Show(StructUnits(g, rank, c, fields[i + 1..], f.offset + SizeOf(g, f.ty)));
      ret := AddPads(ret, if cur < f.offset then f.offset - cur else 0);
      var inner := FormatDescriptor(g, rank, f.ty);
      ret := ret + inner;
      Regroup(was, pads, text, rest);
      cur := f.offset + SizeOf(g, f.ty);
      i := i + 1;
    }
    assert fields[i..] == [];
    StructText(g, rank, c, fields[i..], cur);
    ret := AddPads(ret, SizeOf(g, Comp(c)) - cur);
  }
}
