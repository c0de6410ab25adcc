/** Memory safety of flattened members: where they lie, when two of them overlap, and what
    writing one does to the others.
 */
module FlatLayout {
  import opened Types
  import opened Inliner

  /** Bytes `[off, off + size)`. */
  predicate Overlap(off: nat, size: nat, off': nat, size': nat) {
    size > 0 && size' > 0 && off < off' + size' && off' < off + size
  }

  predicate FieldsOverlap(g: Graph, f: Field, h: Field) {
    Overlap(f.offset, SizeOf(g, f.ty), h.offset, SizeOf(g, h.ty))
  }

  /** What the compiler's layout guarantees: fields lie inside their composite, and those of
      a struct do not share bytes. */
  ghost predicate LaidOut(g: Graph) {
    && FieldsInside(g)
    && (forall c: Composite, f: Field, h: Field | c.kind == Struct && f in Fields(g, c) && h in Fields(g, c) && f != h ::
          !FieldsOverlap(g, f, h))
  }

  /** Two different ways into `c` part at a union. */
  ghost predicate PartAtUnion(c: Composite, p: seq<Field>, q: seq<Field>)
    decreases |p|
  {
    p != [] && q != [] &&
    if p[0] != q[0] then c.kind == Union
    else p[0].ty.Comp? && PartAtUnion(p[0].ty.c, p[1..], q[1..])
  }

  lemma {:induction false} PathInBounds(g: Graph, c: Composite, p: seq<Field>, f: Field)
    requires LaidOut(g) && Path(g, c, p, f)
    ensures Sum(p) + f.offset + SizeOf(g, f.ty) <= SizeOf(g, Comp(c))
    decreases |p|
  {
    if p != [] {
      PathInBounds(g, p[0].ty.c, p[1..], f);
      assert p[0].offset + SizeOf(g, p[0].ty) <= SizeOf(g, Comp(c));
    }
  }

  /** Every visible member lies inside its composite. */
  lemma VisibleInBounds(g: Graph, c: Composite, v: Field)
    requires LaidOut(g) && Visible(g, c, v)
    ensures v.offset + SizeOf(g, v.ty) <= SizeOf(g, Comp(c))
  {
    var p, f :| Path(g, c, p, f) && v == Shift(f, Sum(p));
    PathInBounds(g, c, p, f);
  }

  /** A path ends inside its first step. */
  lemma StepContains(g: Graph, c: Composite, p: seq<Field>, f: Field)
    requires LaidOut(g) && Path(g, c, p, f)
    ensures var first := (p + [f])[0];
            && first in Fields(g, c)
            && first.offset <= Sum(p) + f.offset
            && Sum(p) + f.offset + SizeOf(g, f.ty) <= first.offset + SizeOf(g, first.ty)
  {
    if p != [] {
      PathInBounds(g, p[0].ty.c, p[1..], f);
    }
  }

  /** Members share bytes only if the paths to them part at a union. */
  lemma {:induction false} OverlapPartsAtUnion(g: Graph, c: Composite, p: seq<Field>, f: Field, q: seq<Field>, h: Field)
    requires LaidOut(g) && Path(g, c, p, f) && Path(g, c, q, h) && (p, f) != (q, h)
    requires FieldsOverlap(g, Shift(f, Sum(p)), Shift(h, Sum(q)))
    ensures PartAtUnion(c, p + [f], q + [h])
    decreases |p|
  {
    var a, b := (p + [f])[0], (q + [h])[0];
    StepContains(g, c, p, f);
    StepContains(g, c, q, h);
    if a != b {
      assert FieldsOverlap(g, a, b);
    } else if p != [] && q != [] {
      assert p == [a] + p[1..] && q == [a] + q[1..];
      OverlapPartsAtUnion(g, a.ty.c, p[1..], f, q[1..], h);
      assert (p + [f])[1..] == p[1..] + [f] && (q + [h])[1..] == q[1..] + [h];
    }
  }

  // ----- Reading and writing members ---------------------------------------------------

  type Byte = bv8

  datatype Outcome = Stored | ConstError

  /** A struct or union object over `data`, which may be a view on const memory. */
  class CompositeObj {
    const g: Graph
    const c: Composite
    const isConst: bool
    const data: array<Byte>

    ghost predicate Valid()
    {
      LaidOut(g) && data.Length == SizeOf(g, Comp(c))
    }

    constructor (g: Graph, c: Composite, isConst: bool, data: array<Byte>)
      requires LaidOut(g) && data.Length == SizeOf(g, Comp(c))
      ensures Valid() && this.g == g && this.c == c && this.isConst == isConst && this.data == data
    {
      this.g, this.c, this.isConst, this.data := g, c, isConst, data;
    }

    /** The bytes of the member `v`. */
    ghost function BytesOf(v: Field): seq<Byte>
      requires Valid() && Visible(g, c, v)
      reads data
    {
      VisibleInBounds(g, c, v);
      data[v.offset..v.offset + SizeOf(g, v.ty)]
    }

    /** Stores a value of the field's size, unless the object is const. Members that share
        no byte with it keep theirs. */
    method SetValue(field: Field, value: seq<Byte>) returns (r: Outcome)
      requires Valid() && Visible(g, c, field) && |value| == SizeOf(g, field.ty)
      modifies data
      ensures r == if isConst then ConstError else Stored
      ensures r == Stored ==> BytesOf(field) == value
      ensures r == ConstError ==> data[..] == old(data[..])
      ensures forall k | 0 <= k < data.Length && !(field.offset <= k < field.offset + |value|) :: data[k] == old(data[k])
      ensures forall v | Visible(g, c, v) && !FieldsOverlap(g, field, v) :: BytesOf(v) == old(BytesOf(v))
    {
      if isConst {
        return ConstError;
      }
      VisibleInBounds(g, c, field);
      var ptr := field.offset;
      for i := 0 to |value|
        invariant forall k | 0 <= k < i :: data[ptr + k] == value[k]
        invariant forall k | 0 <= k < data.Length && !(ptr <= k < ptr + i) :: data[k] == old(data[k])
      {
        data[ptr + i] := value[i];
      }
      forall v | Visible(g, c, v) && !FieldsOverlap(g, field, v) ensures BytesOf(v) == old(BytesOf(v)) {
        VisibleInBounds(g, c, v);
      }
      return Stored;
    }

    method GetValue(field: Field) returns (value: seq<Byte>)
      requires Valid() && Visible(g, c, field)
      ensures value == BytesOf(field)
    {
      VisibleInBounds(g, c, field);
      value := data[field.offset..field.offset + SizeOf(g, field.ty)];
    }
  }

  /** Writing a member leaves every other member alone unless the two part at a union. */
  lemma OtherMembersAreSafe(g: Graph, c: Composite, p: seq<Field>, f: Field, q: seq<Field>, h: Field)
    requires LaidOut(g) && Path(g, c, p, f) && Path(g, c, q, h) && (p, f) != (q, h)
    requires !PartAtUnion(c, p + [f], q + [h])
    ensures !FieldsOverlap(g, Shift(f, Sum(p)), Shift(h, Sum(q)))
  {
    if FieldsOverlap(g, Shift(f, Sum(p)), Shift(h, Sum(q))) {
      OverlapPartsAtUnion(g, c, p, f, q, h);
    }
  }
}
