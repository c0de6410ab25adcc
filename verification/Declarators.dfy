/** C declarations as token sequences: what the type printer writes, and how C reads it.

    `Text` is the text `TypePrinter::print_def` produces for a type around a declarator
    that has been built so far. The reading side is a recursive-descent parser for
    declarations (sections 6.7.6 and 6.7.7 of ISO/IEC 9899:2011, with GNU attributes
    inside a parenthesised declarator), written without reference to the printer.
 */
module Declarators {
  import opened Types

  datatype Word =
    | WVoid | WBool | WChar | WSigned | WUnsigned | WShort | WInt | WLong
    | WInt128 | WUInt128 | WFloat | WDouble | WComplex

  /** The calling-convention attributes clang understands. */
  datatype Attribute =
    | Cdecl | Stdcall | Fastcall | Thiscall | Vectorcall | Pascal | MsAbi | SysvAbi | Regcall
    | Aapcs | AapcsVfp | IntelOclBicc | Swiftcall | PreserveMost | PreserveAll | Aarch64VectorPcs

  datatype Ident = FPtr | Ret | Args | FieldName(i: nat) | WrapperName(w: nat)

  datatype Token =
    | Kw(word: Word) | KwComposite(kind: CompositeKind) | Tag(tag: nat)
    | Attr(attr: Attribute) | Id(id: Ident) | Num(n: nat)
    | LParen | RParen | LBracket | RBracket | LBrace | RBrace
    | Star | Comma | Ellipsis | Semi | Assign

  // ----- Writing ---------------------------------------------------------------------

  type Names = map<Composite, nat>

  function TagOf(names: Names, c: Composite): nat {
    if c in names then names[c] else 0
  }

  function SpecWords(k: BasicKind): seq<Word> {
    match k
    case Bool => [WBool]
    case Char => [WChar]
    case SChar => [WSigned, WChar]
    case Short => [WShort]
    case Int => [WInt]
    case Long => [WLong]
    case LongLong => [WLong, WLong]
    case Int128 => [WInt128]
    case UChar => [WUnsigned, WChar]
    case UShort => [WUnsigned, WShort]
    case UInt => [WUnsigned, WInt]
    case ULong => [WUnsigned, WLong]
    case ULongLong => [WUnsigned, WLong, WLong]
    case UInt128 => [WUInt128]
    case Float => [WFloat]
    case Double => [WDouble]
    case LongDouble => [WLong, WDouble]
    case ComplexFloat => [WComplex, WFloat]
    case ComplexDouble => [WComplex, WDouble]
    case ComplexLongDouble => [WComplex, WLong, WDouble]
  }

  function Kws(ws: seq<Word>): seq<Token> {
    seq(|ws|, i requires 0 <= i < |ws| => Kw(ws[i]))
  }

  /** `CCToClangAttribute`: three conventions have no attribute. */
  function AttributeOf(cc: CallingConv): Option<Attribute> {
    match cc
    case CC_C => Some(Cdecl)
    case CC_X86StdCall => Some(Stdcall)
    case CC_X86FastCall => Some(Fastcall)
    case CC_X86ThisCall => Some(Thiscall)
    case CC_X86VectorCall => Some(Vectorcall)
    case CC_X86Pascal => Some(Pascal)
    case CC_Win64 => Some(MsAbi)
    case CC_X86_64SysV => Some(SysvAbi)
    case CC_X86RegCall => Some(Regcall)
    case CC_AAPCS => Some(Aapcs)
    case CC_AAPCS_VFP => Some(AapcsVfp)
    case CC_IntelOclBicc => Some(IntelOclBicc)
    case CC_AArch64VectorCall => Some(Aarch64VectorPcs)
    case CC_SpirFunction => None
    case CC_OpenCLKernel => None
    case CC_SwiftAsync => None
    case CC_Swift => Some(Swiftcall)
    case CC_PreserveMost => Some(PreserveMost)
    case CC_PreserveAll => Some(PreserveAll)
  }

  function AttrTokens(cc: CallingConv): seq<Token> {
    match AttributeOf(cc)
    case Some(a) => [Attr(a)]
    case None => []
  }

  /** The declarator of a pointer, an array and a function around the declarator `d`. */
  function PtrDecl(d: seq<Token>): seq<Token> { [LParen, Star] + d + [RParen] }

  function ArrDecl(d: seq<Token>, n: nat): seq<Token> { d + [LBracket, Num(n), RBracket] }

  function FunDecl(cc: CallingConv, d: seq<Token>, ps: seq<Token>): seq<Token> {
    [LParen] + AttrTokens(cc) + d + [RParen, LParen] + ps + [RParen]
  }

  /** The text of a declaration of type `ty` whose declarator so far is `d`; an empty `d`
      is the source's null name. */
  function Text(names: Names, ty: Type, d: seq<Token>): seq<Token>
    decreases ty, 1
  {
    match ty
    case Void => Kws([WVoid]) + d
    case Basic(k) => Kws(SpecWords(k)) + d
    case Enum(_) => Kws(SpecWords(Int)) + d
    case Pointer(p) => Text(names, p.ty, PtrDecl(d))
    case Array(e, n) => Text(names, e.ty, ArrDecl(d, n))
    case Function(ret, params, cc, variadic, _) =>
      Text(names, ret.ty, FunDecl(cc, d, ParamsText(names, params, variadic)))
    case Comp(c) => [KwComposite(c.kind), Tag(TagOf(names, c))] + d
  }

  function ParamsText(names: Names, params: seq<QualType>, variadic: bool): seq<Token>
    decreases params, 0
  {
    if params == [] then []
    else
      var p := params[0];
      assert p.ty < p;
      if |params| == 1 then
        Text(names, p.ty, []) + if variadic then [Comma, Ellipsis] else []
      else
        Text(names, p.ty, []) + [Comma] + ParamsText(names, params[1..], variadic)
  }

  // ----- Reading ---------------------------------------------------------------------

  datatype CType =
    | CVoid
    | CBasic(kind: BasicKind)
    | CTag(ckind: CompositeKind, tag: nat)
    | CPointer(pointee: CType)
    | CArray(elem: CType, count: nat)
    | CFunction(attr: Option<Attribute>, ret: CType, params: seq<CType>, variadic: bool)

  datatype Declarator =
    | DName(name: Option<Ident>)
    | DAttr(attr: Attribute, inner: Declarator)
    | DPtr(inner: Declarator)
    | DArr(inner: Declarator, count: nat)
    | DFun(inner: Declarator, params: seq<CType>, variadic: bool)

  function DeclaredName(d: Declarator): Option<Ident> {
    match d
    case DName(n) => n
    case DAttr(_, i) => DeclaredName(i)
    case DPtr(i) => DeclaredName(i)
    case DArr(i, _) => DeclaredName(i)
    case DFun(i, _, _) => DeclaredName(i)
  }

  /** A GNU attribute in a nested declarator belongs to the type built at that point. */
  function AddAttr(a: Attribute, t: CType): CType {
    if t.CFunction? then t.(attr := Some(a)) else t
  }

  /** The type a declarator gives to its identifier when the specifiers say `t`. */
  function Apply(d: Declarator, t: CType): CType {
    match d
    case DName(_) => t
    case DAttr(a, i) => Apply(i, AddAttr(a, t))
    case DPtr(i) => Apply(i, CPointer(t))
    case DArr(i, n) => Apply(i, CArray(t, n))
    case DFun(i, ps, v) => Apply(i, CFunction(None, t, ps, v))
  }

  /** The longest run of specifier keywords. */
  function LeadingWords(ts: seq<Token>): (ws: seq<Word>)
    ensures |ws| <= |ts|
  {
    if ts != [] && ts[0].Kw? then [ts[0].word] + LeadingWords(ts[1..]) else []
  }

  /** The specifier combinations of section 6.7.2 paragraph 2 that name the types the
      library knows; the order of the words does not matter for `unsigned`, `signed` and
      `_Complex` coming first only, which is how they are written here. */
  function TypeOfWords(ws: seq<Word>): Option<CType> {
    if ws == [WVoid] then Some(CVoid)
    else if ws == [WBool] then Some(CBasic(Bool))
    else if ws == [WChar] then Some(CBasic(Char))
    else if ws == [WSigned, WChar] then Some(CBasic(SChar))
    else if ws == [WUnsigned, WChar] then Some(CBasic(UChar))
    else if ws == [WShort] then Some(CBasic(Short))
    else if ws == [WUnsigned, WShort] then Some(CBasic(UShort))
    else if ws == [WInt] then Some(CBasic(Int))
    else if ws == [WUnsigned, WInt] || ws == [WUnsigned] then Some(CBasic(UInt))
    else if ws == [WLong] then Some(CBasic(Long))
    else if ws == [WUnsigned, WLong] then Some(CBasic(ULong))
    else if ws == [WLong, WLong] then Some(CBasic(LongLong))
    else if ws == [WUnsigned, WLong, WLong] then Some(CBasic(ULongLong))
    else if ws == [WInt128] then Some(CBasic(Int128))
    else if ws == [WUInt128] then Some(CBasic(UInt128))
    else if ws == [WFloat] then Some(CBasic(Float))
    else if ws == [WDouble] then Some(CBasic(Double))
    else if ws == [WLong, WDouble] then Some(CBasic(LongDouble))
    else if ws == [WComplex, WFloat] then Some(CBasic(ComplexFloat))
    else if ws == [WComplex, WDouble] then Some(CBasic(ComplexDouble))
    else if ws == [WComplex, WLong, WDouble] then Some(CBasic(ComplexLongDouble))
    else None
  }

  function ParseSpec(ts: seq<Token>): (r: Option<(CType, seq<Token>)>)
    ensures r.Some? ==> |r.value.1| < |ts|
  {
    if |ts| >= 2 && ts[0].KwComposite? && ts[1].Tag? then
      Some((CTag(ts[0].kind, ts[1].tag), ts[2..]))
    else
      var ws := LeadingWords(ts);
      match TypeOfWords(ws)
      case Some(t) => Some((t, ts[|ws|..]))
      case None => None
  }

  function SkipAttr(ts: seq<Token>): (r: seq<Token>)
    ensures |r| <= |ts|
  {
    if ts != [] && ts[0].Attr? then ts[1..] else ts
  }

  /** After an opening parenthesis and an optional attribute, only a token that can begin
      a declarator makes the parenthesis a grouping one; otherwise it opens a parameter
      list, which may be empty. */
  predicate Groups(ts: seq<Token>) {
    && ts != [] && ts[0] == LParen
    && var after := SkipAttr(ts[1..]);
       after != [] && (after[0].Star? || after[0].Id? || after[0].LParen? || after[0].LBracket?)
  }

  function ParseDeclarator(ts: seq<Token>): (r: Option<(Declarator, seq<Token>)>)
    ensures r.Some? ==> |r.value.1| <= |ts|
    decreases |ts|, 4
  {
    if ts != [] && ts[0] == Star then
      match ParseDeclarator(ts[1..])
      case Some((d, rest)) => Some((DPtr(d), rest))
      case None => None
    else
      ParseDirect(ts)
  }

  function ParseDirect(ts: seq<Token>): (r: Option<(Declarator, seq<Token>)>)
    ensures r.Some? ==> |r.value.1| <= |ts|
    decreases |ts|, 3
  {
    if ts != [] && ts[0].Id? then
      ParseSuffixes(DName(Some(ts[0].id)), ts[1..])
    else if Groups(ts) then
      match ParseDeclarator(SkipAttr(ts[1..]))
      case Some((d, rest)) =>
        if rest != [] && rest[0] == RParen then
          ParseSuffixes(if ts[1].Attr? then DAttr(ts[1].attr, d) else d, rest[1..])
        else None
      case None => None
    else
      ParseSuffixes(DName(None), ts)
  }

  /** A list that is `void` alone declares no parameters (section 6.7.6.3 paragraph 10). */
  function Prototype(ps: seq<CType>, variadic: bool): seq<CType> {
    if ps == [CVoid] && !variadic then [] else ps
  }

  function ParseSuffixes(d: Declarator, ts: seq<Token>): (r: Option<(Declarator, seq<Token>)>)
    ensures r.Some? ==> |r.value.1| <= |ts|
    decreases |ts|, 2
  {
    if |ts| >= 3 && ts[0] == LBracket && ts[1].Num? && ts[2] == RBracket then
      ParseSuffixes(DArr(d, ts[1].n), ts[3..])
    else if ts != [] && ts[0] == LParen then
      var after := SkipAttr(ts[1..]);
      if after != [] && after[0] == RParen then
        ParseSuffixes(DFun(d, [], false), after[1..])
      else
        match ParseParams(after)
        case Some((ps, v, rest)) => ParseSuffixes(DFun(d, Prototype(ps, v), v), rest)
        case None => None
    else
      Some((d, ts))
  }

  function ParseParams(ts: seq<Token>): (r: Option<(seq<CType>, bool, seq<Token>)>)
    ensures r.Some? ==> |r.value.2| < |ts|
    decreases |ts|, 1
  {
    match ParseDeclaration(ts)
    case None => None
    case Some((_, t, rest)) =>
      if rest == [] then None
      else if rest[0] == RParen then Some(([t], false, rest[1..]))
      else if rest[0] != Comma then None
      else if |rest| >= 3 && rest[1] == Ellipsis && rest[2] == RParen then Some(([t], true, rest[3..]))
      else
        match ParseParams(rest[1..])
        case Some((ps, v, rest')) => Some(([t] + ps, v, rest'))
        case None => None
  }

  /** Specifiers and one declarator, named or abstract: the name, the type, what follows. */
  function ParseDeclaration(ts: seq<Token>): (r: Option<(Option<Ident>, CType, seq<Token>)>)
    ensures r.Some? ==> |r.value.2| < |ts|
    decreases |ts|, 0
  {
    match ParseSpec(ts)
    case None => None
    case Some((t, rest)) =>
      match ParseDeclarator(rest)
      case None => None
      case Some((d, rest')) => Some((DeclaredName(d), Apply(d, t), rest'))
  }

  // ----- What the text means ---------------------------------------------------------

  /** The C type of `ty`: const is dropped, an enum is an int, a calling convention is its
      attribute, and a composite is its tag. */
  function View(names: Names, ty: Type): CType
    decreases ty, 1
  {
    match ty
    case Void => CVoid
    case Basic(k) => CBasic(k)
    case Enum(_) => CBasic(Int)
    case Pointer(p) => CPointer(View(names, p.ty))
    case Array(e, n) => CArray(View(names, e.ty), n)
    case Function(ret, params, cc, variadic, _) =>
      CFunction(AttributeOf(cc), View(names, ret.ty), ViewAll(names, params), variadic)
    case Comp(c) => CTag(c.kind, TagOf(names, c))
  }

  function ViewAll(names: Names, params: seq<QualType>): (r: seq<CType>)
    ensures |r| == |params|
    decreases params, 0
  {
    if params == [] then []
    else
      var p := params[0];
      assert p.ty < p;
      [View(names, p.ty)] + ViewAll(names, params[1..])
  }

  /** One parameter that is void. Import makes it where debug types give a function an
      unspecified parameter alone. */
  predicate LoneVoid(params: seq<QualType>, variadic: bool) {
    |params| == 1 && params[0].ty == Void && !variadic
  }

  /** The types that survive printing: no function type stands where no name is printed
      (directly as a parameter), no parameter list is `void` alone, and a variadic function
      has a parameter. */
  predicate Printable(ty: Type, nameless: bool)
    decreases ty, 1
  {
    match ty
    case Pointer(p) => Printable(p.ty, false)
    case Array(e, _) => Printable(e.ty, false)
    case Function(ret, params, _, variadic, _) =>
      && !nameless
      && (variadic ==> params != []) && !LoneVoid(params, variadic)
      && Printable(ret.ty, false)
      && AllPrintable(params)
    case _ => true
  }

  predicate AllPrintable(params: seq<QualType>)
    decreases params, 0
  {
    params != [] ==>
      var p := params[0];
      assert p.ty < p;
      Printable(p.ty, true) && AllPrintable(params[1..])
  }

  /** What C reads, for every type: a nameless function `T ( attr )(params)` is read as a
      function without parameters that returns a function, because its first parenthesis
      cannot be a grouping one; and a lone void parameter vanishes. */
  function Reading(names: Names, ty: Type, nameless: bool): CType
    decreases ty, 1
  {
    match ty
    case Pointer(p) => CPointer(Reading(names, p.ty, false))
    case Array(e, n) => CArray(Reading(names, e.ty, false), n)
    case Function(ret, params, cc, variadic, _) =>
      var f := CFunction(if nameless then None else AttributeOf(cc), Reading(names, ret.ty, false),
                         Prototype(ReadingAll(names, params), variadic), variadic && params != []);
      if nameless then CFunction(None, f, [], false) else f
    case _ => View(names, ty)
  }

  function ReadingAll(names: Names, params: seq<QualType>): (r: seq<CType>)
    ensures |r| == |params|
    decreases params, 0
  {
    if params == [] then []
    else
      var p := params[0];
      assert p.ty < p;
      [Reading(names, p.ty, true)] + ReadingAll(names, params[1..])
  }

  /** A token at which a declaration ends. */
  predicate Ends(s: seq<Token>) {
    s == [] || s[0] in {Comma, RParen, Semi}
  }

  /** `toks` is a finished piece of a declarator whose reading is `d`: whatever follows is
      read as further suffixes of `d`. */
  ghost predicate Reads(toks: seq<Token>, d: Declarator) {
    && toks != []
    && (toks[0].LParen? || toks[0].LBracket? || toks[0].Id?)
    && forall s: seq<Token> :: ParseDirect(toks + s) == ParseSuffixes(d, s)
  }

  ghost predicate Stands(toks: seq<Token>, d: Declarator) {
    (toks == [] && d == DName(None)) || Reads(toks, d)
  }

  ghost predicate ReadsParams(toks: seq<Token>, ps: seq<CType>, variadic: bool) {
    if toks == [] then ps == [] && !variadic
    else
      && (toks[0].Kw? || toks[0].KwComposite?)
      && forall s: seq<Token> :: ParseParams(toks + ([RParen] + s)) == Some((ps, variadic, s))
  }

  /** Wherever a declaration may end, `toks` is read as one that gives `name` the type `t`. */
  ghost predicate Declares(toks: seq<Token>, name: Option<Ident>, t: CType) {
    forall s: seq<Token> | Ends(s) :: ParseDeclaration(toks + s) == Some((name, t, s))
  }

  lemma NameReads(i: Ident)
    ensures Reads([Id(i)], DName(Some(i)))
  {
    forall s: seq<Token> ensures ParseDirect([Id(i)] + s) == ParseSuffixes(DName(Some(i)), s) {
      assert ([Id(i)] + s)[1..] == s;
    }
  }

  lemma DeclaratorEnds(toks: seq<Token>, d: Declarator, s: seq<Token>)
    requires Stands(toks, d) && Ends(s)
    ensures ParseDeclarator(toks + s) == Some((d, s))
  {
    if toks == [] {
      assert toks + s == s;
      assert ParseDirect(s) == ParseSuffixes(d, s);
    } else {
      assert ParseDirect(toks + s) == ParseSuffixes(d, s);
    }
    assert ParseSuffixes(d, s) == Some((d, s));
  }

  lemma PtrReads(toks: seq<Token>, d: Declarator)
    requires Stands(toks, d)
    ensures Reads(PtrDecl(toks), DPtr(d))
  {
    forall s: seq<Token> ensures ParseDirect(PtrDecl(toks) + s) == ParseSuffixes(DPtr(d), s) {
      var ts, close := PtrDecl(toks) + s, [RParen] + s;
      assert ts[1..] == [Star] + (toks + close);
      assert ts[1..][1..] == toks + close;
      DeclaratorEnds(toks, d, close);
      assert close[1..] == s;
    }
  }

  lemma ArrReads(toks: seq<Token>, d: Declarator, n: nat)
    requires Stands(toks, d)
    ensures Reads(ArrDecl(toks, n), DArr(d, n))
  {
    hide ParseDirect;
    hide ParseSuffixes;
    forall s: seq<Token> {
      ArrReadsAt(toks, d, n, s);
    }
  }

  lemma ArrReadsAt(toks: seq<Token>, d: Declarator, n: nat, s: seq<Token>)
    requires Stands(toks, d)
    ensures ParseDirect(ArrDecl(toks, n) + s) == ParseSuffixes(DArr(d, n), s)
  {
    var suffix := [LBracket, Num(n), RBracket] + s;
    assert ArrDecl(toks, n) + s == toks + suffix;
    if toks == [] {
      assert toks + suffix == suffix;
    }
    assert ParseDirect(toks + suffix) == ParseSuffixes(d, suffix);
    assert suffix[3..] == s;
  }

  /** The parameter list after a function's declarator is one suffix. */
  lemma ParamSuffix(d: Declarator, toks: seq<Token>, ps: seq<CType>, variadic: bool, s: seq<Token>)
    requires ReadsParams(toks, ps, variadic)
    ensures ParseSuffixes(d, [LParen] + (toks + ([RParen] + s))) == ParseSuffixes(DFun(d, Prototype(ps, variadic), variadic), s)
  {
    var rest := toks + ([RParen] + s);
    assert ([LParen] + rest)[1..] == rest;
    if toks == [] {
      assert rest == [RParen] + s;
      assert rest[1..] == s;
    }
  }

  function WithAttr(cc: CallingConv, d: Declarator): Declarator {
    match AttributeOf(cc)
    case Some(a) => DAttr(a, d)
    case None => d
  }

  /** A grouped declarator with its attribute. */
  lemma GroupReads(cc: CallingConv, toks: seq<Token>, d: Declarator, s: seq<Token>)
    requires Reads(toks, d)
    ensures ParseDirect([LParen] + (AttrTokens(cc) + (toks + ([RParen] + s)))) == ParseSuffixes(WithAttr(cc, d), s)
  {
    var close := [RParen] + s;
    var inner := AttrTokens(cc) + (toks + close);
    var ts := [LParen] + inner;
    assert ts[1..] == inner;
    assert SkipAttr(inner) == toks + close by {
      assert AttributeOf(cc).None? ==> inner == toks + close;
    }
    assert Groups(ts);
    DeclaratorEnds(toks, d, close);
    assert close[1..] == s;
    assert ts[1] == inner[0];
  }

  lemma FunReadsAt(cc: CallingConv, toks: seq<Token>, d: Declarator,
                   pt: seq<Token>, ps: seq<CType>, variadic: bool, s: seq<Token>)
    requires Reads(toks, d) && ReadsParams(pt, ps, variadic)
    ensures ParseDirect(FunDecl(cc, toks, pt) + s) == ParseSuffixes(DFun(WithAttr(cc, d), Prototype(ps, variadic), variadic), s)
  {
    hide ParseDirect;
    hide ParseSuffixes;
    hide WithAttr;
    hide AttrTokens;
    hide ReadsParams;
    hide Reads;
    var params := [LParen] + (pt + ([RParen] + s));
    assert FunDecl(cc, toks, pt) + s == [LParen] + (AttrTokens(cc) + (toks + ([RParen] + params)));
    GroupReads(cc, toks, d, params);
    ParamSuffix(WithAttr(cc, d), pt, ps, variadic, s);
  }

  lemma FunReads(cc: CallingConv, toks: seq<Token>, d: Declarator,
                 pt: seq<Token>, ps: seq<CType>, variadic: bool)
    requires Reads(toks, d) && ReadsParams(pt, ps, variadic)
    ensures Reads(FunDecl(cc, toks, pt), DFun(WithAttr(cc, d), Prototype(ps, variadic), variadic))
  {
    hide ParseDirect;
    hide ParseSuffixes;
    hide ReadsParams;
    forall s: seq<Token> {
      FunReadsAt(cc, toks, d, pt, ps, variadic, s);
    }
  }

  lemma NamelessFunReadsAt(cc: CallingConv, pt: seq<Token>, ps: seq<CType>, variadic: bool, s: seq<Token>)
    requires ReadsParams(pt, ps, variadic)
    ensures ParseDirect(FunDecl(cc, [], pt) + s) == ParseSuffixes(DFun(DFun(DName(None), [], false), Prototype(ps, variadic), variadic), s)
  {
    hide ParseDirect;
    hide ParseSuffixes;
    hide ReadsParams;
    var params := [LParen] + (pt + ([RParen] + s));
    var inner := AttrTokens(cc) + ([RParen] + params);
    var ts := FunDecl(cc, [], pt) + s;
    assert ts == [LParen] + inner && ts[1..] == inner;
    assert SkipAttr(inner) == [RParen] + params;
    assert ([RParen] + params)[1..] == params;
    EmptyParens(ts, params);
    ParamSuffix(DFun(DName(None), [], false), pt, ps, variadic, s);
  }

  /** A parenthesis closed at once, attribute or not, is an empty parameter list. */
  lemma EmptyParens(ts: seq<Token>, rest: seq<Token>)
    requires ts != [] && ts[0] == LParen && SkipAttr(ts[1..]) == [RParen] + rest
    ensures ParseDirect(ts) == ParseSuffixes(DFun(DName(None), [], false), rest)
  {
    assert !Groups(ts);
    assert ([RParen] + rest)[1..] == rest;
  }

  lemma NamelessFunReads(cc: CallingConv, pt: seq<Token>, ps: seq<CType>, variadic: bool)
    requires ReadsParams(pt, ps, variadic)
    ensures Reads(FunDecl(cc, [], pt), DFun(DFun(DName(None), [], false), Prototype(ps, variadic), variadic))
  {
    hide ParseDirect;
    hide ParseSuffixes;
    hide ReadsParams;
    forall s: seq<Token> {
      NamelessFunReadsAt(cc, pt, ps, variadic, s);
    }
  }

  lemma {:induction false} WordsRead(ws: seq<Word>, rest: seq<Token>)
    requires rest == [] || !rest[0].Kw?
    ensures LeadingWords(Kws(ws) + rest) == ws
  {
    if ws == [] {
      assert Kws(ws) + rest == rest;
    } else {
      WordsRead(ws[1..], rest);
      assert [ws[0]] + ws[1..] == ws;
      assert (Kws(ws) + rest)[1..] == Kws(ws[1..]) + rest;
    }
  }

  lemma {:induction false} TextStarts(names: Names, ty: Type, toks: seq<Token>)
    ensures Text(names, ty, toks) != []
    ensures Text(names, ty, toks)[0].Kw? || Text(names, ty, toks)[0].KwComposite?
    decreases ty
  {
    match ty
    case Pointer(p) => TextStarts(names, p.ty, PtrDecl(toks));
    case Array(e, n) => TextStarts(names, e.ty, ArrDecl(toks, n));
    case Function(ret, params, cc, v, _) =>
      TextStarts(names, ret.ty, FunDecl(cc, toks, ParamsText(names, params, v)));
    case _ =>
  }

  /** The accumulator law: printing `ty` around a declarator that reads as `d` is read as
      the type `d` builds from what is read for `ty`. */
  lemma {:induction false} TextReads(names: Names, ty: Type, toks: seq<Token>, d: Declarator)
    requires Stands(toks, d)
    ensures Declares(Text(names, ty, toks), DeclaredName(d), Apply(d, Reading(names, ty, toks == [])))
    decreases ty, 1
  {
    hide Declares;
    hide Reads;
    match ty
    case Void =>
      SpecThenDeclarator([WVoid], CVoid, toks, d);
    case Basic(k) =>
      SpecThenDeclarator(SpecWords(k), CBasic(k), toks, d);
    case Enum(_) =>
      SpecThenDeclarator(SpecWords(Int), CBasic(Int), toks, d);
    case Comp(c) =>
      TagThenDeclarator(c.kind, TagOf(names, c), toks, d);
    case Pointer(p) =>
      PtrReads(toks, d);
      TextReads(names, p.ty, PtrDecl(toks), DPtr(d));
    case Array(e, n) =>
      ArrReads(toks, d, n);
      TextReads(names, e.ty, ArrDecl(toks, n), DArr(d, n));
    case Function(_, _, _, _, _) =>
      FunctionReads(names, ty, toks, d);
  }

  lemma {:induction false} FunctionReads(names: Names, ty: Type, toks: seq<Token>, d: Declarator)
    requires ty.Function? && Stands(toks, d)
    ensures Declares(Text(names, ty, toks), DeclaredName(d), Apply(d, Reading(names, ty, toks == [])))
    decreases ty, 0
  {
    var Function(ret, params, cc, variadic, _) := ty;
    var pt, all, v := ParamsText(names, params, variadic), ReadingAll(names, params), variadic && params != [];
    var ps := Prototype(all, v);
    ParamsReads(names, params, variadic);
    assert ps == Prototype(all, variadic);
    if toks == [] {
      NamelessFunReads(cc, pt, all, v);
      var inner := CFunction(None, Reading(names, ret.ty, false), ps, v);
      assert Apply(DFun(DName(None), [], false), inner) == CFunction(None, inner, [], false);
      assert DeclaredName(DFun(DName(None), [], false)) == None;
      TextReads(names, ret.ty, FunDecl(cc, toks, pt), DFun(DFun(DName(None), [], false), ps, v));
    } else {
      FunReads(cc, toks, d, pt, all, v);
      WithAttrApplies(cc, d, Reading(names, ret.ty, false), ps, v);
      TextReads(names, ret.ty, FunDecl(cc, toks, pt), DFun(WithAttr(cc, d), ps, v));
    }
  }

  lemma WithAttrApplies(cc: CallingConv, d: Declarator, ret: CType, ps: seq<CType>, variadic: bool)
    ensures DeclaredName(DFun(WithAttr(cc, d), ps, variadic)) == DeclaredName(d)
    ensures Apply(DFun(WithAttr(cc, d), ps, variadic), ret) == Apply(d, CFunction(AttributeOf(cc), ret, ps, variadic))
  {
    assert DeclaredName(WithAttr(cc, d)) == DeclaredName(d);
    var f := CFunction(None, ret, ps, variadic);
    match AttributeOf(cc)
    case Some(a) => assert Apply(DAttr(a, d), f) == Apply(d, f.(attr := Some(a)));
    case None =>
  }

  lemma SpecThenDeclarator(ws: seq<Word>, t: CType, toks: seq<Token>, d: Declarator)
    requires TypeOfWords(ws) == Some(t)
    requires Stands(toks, d)
    ensures Declares(Kws(ws) + toks, DeclaredName(d), Apply(d, t))
  {
    forall s: seq<Token> | Ends(s) {
      SpecThenDeclaratorAt(ws, t, toks, d, s);
    }
  }

  lemma SpecThenDeclaratorAt(ws: seq<Word>, t: CType, toks: seq<Token>, d: Declarator, s: seq<Token>)
    requires TypeOfWords(ws) == Some(t)
    requires Stands(toks, d) && Ends(s)
    ensures ParseDeclaration(Kws(ws) + toks + s) == Some((DeclaredName(d), Apply(d, t), s))
  {
    assert Kws(ws) + toks + s == Kws(ws) + (toks + s);
    SpecReads(ws, t, toks + s);
    DeclaratorEnds(toks, d, s);
  }

  lemma SpecReads(ws: seq<Word>, t: CType, rest: seq<Token>)
    requires TypeOfWords(ws) == Some(t)
    requires rest == [] || !rest[0].Kw?
    ensures ParseSpec(Kws(ws) + rest) == Some((t, rest))
  {
    WordsRead(ws, rest);
    assert (Kws(ws) + rest)[|ws|..] == rest;
  }

  lemma TagThenDeclarator(kind: CompositeKind, tag: nat, toks: seq<Token>, d: Declarator)
    requires Stands(toks, d)
    ensures Declares([KwComposite(kind), Tag(tag)] + toks, DeclaredName(d), Apply(d, CTag(kind, tag)))
  {
    hide ParseDeclaration;
    hide Stands;
    forall s: seq<Token> | Ends(s) {
      TagThenDeclaratorAt(kind, tag, toks, d, s);
    }
  }

  lemma TagThenDeclaratorAt(kind: CompositeKind, tag: nat, toks: seq<Token>, d: Declarator, s: seq<Token>)
    requires Stands(toks, d) && Ends(s)
    ensures ParseDeclaration([KwComposite(kind), Tag(tag)] + toks + s)
         == Some((DeclaredName(d), Apply(d, CTag(kind, tag)), s))
  {
    hide ParseDeclarator;
    hide Stands;
    var ts := [KwComposite(kind), Tag(tag)] + toks + s;
    assert ts[2..] == toks + s;
    DeclaratorEnds(toks, d, s);
  }

  lemma LastParam(t: CType, toks: seq<Token>, variadic: bool, s: seq<Token>)
    requires Declares(toks, None, t)
    ensures ParseParams(toks + (if variadic then [Comma, Ellipsis] else []) + ([RParen] + s)) == Some(([t], variadic, s))
  {
    hide ParseDeclaration;
    var rest := (if variadic then [Comma, Ellipsis] else []) + ([RParen] + s);
    assert toks + (if variadic then [Comma, Ellipsis] else []) + ([RParen] + s) == toks + rest;
    assert ParseDeclaration(toks + rest) == Some((None, t, rest));
    assert rest[if variadic then 3 else 1..] == s;
  }

  lemma NextParam(t: CType, toks: seq<Token>, ps: seq<CType>, variadic: bool, more: seq<Token>, s: seq<Token>)
    requires Declares(toks, None, t)
    requires more != [] && ReadsParams(more, ps, variadic)
    ensures ParseParams(toks + [Comma] + more + ([RParen] + s)) == Some(([t] + ps, variadic, s))
  {
    hide ParseDeclaration;
    var tail := more + ([RParen] + s);
    var rest := [Comma] + tail;
    assert toks + [Comma] + more + ([RParen] + s) == toks + rest;
    assert ParseDeclaration(toks + rest) == Some((None, t, rest));
    assert rest[1..] == tail && rest[1] == more[0];
    assert ParseParams(tail) == Some((ps, variadic, s));
  }

  lemma {:induction false} ParamsReads(names: Names, params: seq<QualType>, variadic: bool)
    ensures ReadsParams(ParamsText(names, params, variadic), ReadingAll(names, params), variadic && params != [])
    decreases params, 0
  {
    if params != [] {
      assert params[0].ty < params[0];
      var toks, t := Text(names, params[0].ty, []), Reading(names, params[0].ty, true);
      TextStarts(names, params[0].ty, []);
      TextReads(names, params[0].ty, [], DName(None));
      if |params| == 1 {
        assert ReadingAll(names, params) == [t];
        forall s: seq<Token> {
          LastParam(t, toks, variadic, s);
        }
      } else {
        var more := ParamsText(names, params[1..], variadic);
        ParamsReads(names, params[1..], variadic);
        TextStarts(names, params[1].ty, []);
        forall s: seq<Token> {
          NextParam(t, toks, ReadingAll(names, params[1..]), variadic, more, s);
        }
      }
    }
  }

  // ----- The round trip --------------------------------------------------------------

  function Spine(t: CType): nat {
    match t
    case CPointer(p) => 1 + Spine(p)
    case CArray(e, _) => 1 + Spine(e)
    case CFunction(_, ret, _, _) => 1 + Spine(ret)
    case _ => 0
  }

  /** A misreading only ever adds a layer. */
  lemma {:induction false} ReadingIsNoShallower(names: Names, ty: Type, nameless: bool)
    ensures Spine(Reading(names, ty, nameless)) >= Spine(View(names, ty))
    decreases ty
  {
    match ty
    case Pointer(p) => ReadingIsNoShallower(names, p.ty, false);
    case Array(e, _) => ReadingIsNoShallower(names, e.ty, false);
    case Function(ret, _, _, _, _) => ReadingIsNoShallower(names, ret.ty, false);
    case _ =>
  }

  lemma {:induction false} ReadingIsView(names: Names, ty: Type, nameless: bool)
    ensures Reading(names, ty, nameless) == View(names, ty) <==> Printable(ty, nameless)
    decreases ty, 1
  {
    match ty
    case Pointer(p) => ReadingIsView(names, p.ty, false);
    case Array(e, _) => ReadingIsView(names, e.ty, false);
    case Function(ret, params, _, variadic, _) =>
      ReadingIsView(names, ret.ty, false);
      ReadingAllIsView(names, params);
      PrototypeIsView(names, params, variadic);
      ReadingIsNoShallower(names, ret.ty, false);
    case _ =>
  }

  /** Only a lone void parameter is lost. */
  lemma PrototypeIsView(names: Names, params: seq<QualType>, variadic: bool)
    ensures Prototype(ReadingAll(names, params), variadic) == ViewAll(names, params)
       <==> ReadingAll(names, params) == ViewAll(names, params) && !LoneVoid(params, variadic)
  {
    var r := ReadingAll(names, params);
    if |params| == 1 {
      assert r[0] == Reading(names, params[0].ty, true);
    }
  }

  lemma {:induction false} ReadingAllIsView(names: Names, params: seq<QualType>)
    ensures ReadingAll(names, params) == ViewAll(names, params) <==> AllPrintable(params)
    decreases params, 0
  {
    if params != [] {
      var p := params[0];
      assert p.ty < p;
      ReadingIsView(names, p.ty, true);
      ReadingAllIsView(names, params[1..]);
      var r, v := ReadingAll(names, params), ViewAll(names, params);
      assert r[0] == Reading(names, p.ty, true) && v[0] == View(names, p.ty);
      assert r[1..] == ReadingAll(names, params[1..]) && v[1..] == ViewAll(names, params[1..]);
    }
  }

  function NameTokens(name: Option<Ident>): seq<Token> {
    match name
    case Some(i) => [Id(i)]
    case None => []
  }

  /** Printing and then reading gives back the name and the type, for exactly the printable
      types; what is read for the others is `Reading`. */
  lemma RoundTrip(names: Names, ty: Type, name: Option<Ident>)
    ensures Declares(Text(names, ty, NameTokens(name)), name, Reading(names, ty, name.None?))
    ensures Declares(Text(names, ty, NameTokens(name)), name, View(names, ty)) <==> Printable(ty, name.None?)
  {
    if name.Some? {
      NameReads(name.value);
    }
    TextReads(names, ty, NameTokens(name), DName(name));
    ReadingIsView(names, ty, name.None?);
    var toks := Text(names, ty, NameTokens(name));
    assert ParseDeclaration(toks + []) == Some((name, Reading(names, ty, name.None?), []));
  }

  /** The convention an attribute stands for; the three without attribute become one. */
  function ConventionOf(a: Option<Attribute>): CallingConv {
    match a
    case None => CC_SpirFunction
    case Some(Cdecl) => CC_C
    case Some(Stdcall) => CC_X86StdCall
    case Some(Fastcall) => CC_X86FastCall
    case Some(Thiscall) => CC_X86ThisCall
    case Some(Vectorcall) => CC_X86VectorCall
    case Some(Pascal) => CC_X86Pascal
    case Some(MsAbi) => CC_Win64
    case Some(SysvAbi) => CC_X86_64SysV
    case Some(Regcall) => CC_X86RegCall
    case Some(Aapcs) => CC_AAPCS
    case Some(AapcsVfp) => CC_AAPCS_VFP
    case Some(IntelOclBicc) => CC_IntelOclBicc
    case Some(Swiftcall) => CC_Swift
    case Some(PreserveMost) => CC_PreserveMost
    case Some(PreserveAll) => CC_PreserveAll
    case Some(Aarch64VectorPcs) => CC_AArch64VectorCall
  }

  /** What the text keeps of a type: const, the last-error flag and the difference between
      conventions without attribute go, and an enum becomes an int. */
  function Erase(ty: Type): Type
    decreases ty, 1
  {
    match ty
    case Enum(_) => Basic(Int)
    case Pointer(p) => Pointer(Qual(Erase(p.ty), false))
    case Array(e, n) => Array(Qual(Erase(e.ty), false), n)
    case Function(ret, params, cc, v, _) =>
      Function(Qual(Erase(ret.ty), false), EraseAll(params),
               if cc in {CC_SpirFunction, CC_OpenCLKernel, CC_SwiftAsync} then CC_SpirFunction else cc, v, false)
    case _ => ty
  }

  function EraseAll(params: seq<QualType>): (r: seq<QualType>)
    ensures |r| == |params|
    decreases params, 0
  {
    if params == [] then []
    else
      var p := params[0];
      assert p.ty < p;
      [Qual(Erase(p.ty), false)] + EraseAll(params[1..])
  }

  /** The composites a type mentions. */
  function Mentions(ty: Type): set<Composite>
    decreases ty, 1
  {
    match ty
    case Pointer(p) => Mentions(p.ty)
    case Array(e, _) => Mentions(e.ty)
    case Function(ret, params, _, _, _) => MentionsAll(params) + Mentions(ret.ty)
    case Comp(c) => {c}
    case _ => {}
  }

  function MentionsAll(params: seq<QualType>): set<Composite>
    decreases params, 0
  {
    if params == [] then {}
    else
      var p := params[0];
      assert p.ty < p;
      Mentions(p.ty) + MentionsAll(params[1..])
  }

  ghost predicate Injective(names: Names) {
    forall a, b | a in names && b in names && names[a] == names[b] :: a == b
  }

  /** The library type a C type stands for, given the tags in use. */
  ghost function Recover(names: Names, t: CType): Type
    decreases t, 1
  {
    match t
    case CVoid => Void
    case CBasic(k) => Basic(k)
    case CTag(kind, tag) =>
      if exists c :: c in names && c.kind == kind && names[c] == tag then
        Comp(var c :| c in names && c.kind == kind && names[c] == tag; c)
      else Void
    case CPointer(p) => Pointer(Qual(Recover(names, p), false))
    case CArray(e, n) => Array(Qual(Recover(names, e), false), n)
    case CFunction(a, ret, ps, v) =>
      Function(Qual(Recover(names, ret), false), RecoverAll(names, ps), ConventionOf(a), v, false)
  }

  ghost function RecoverAll(names: Names, ps: seq<CType>): seq<QualType>
    decreases ps, 0
  {
    if ps == [] then [] else [Qual(Recover(names, ps[0]), false)] + RecoverAll(names, ps[1..])
  }

  lemma {:induction false} ViewRecovers(names: Names, ty: Type)
    requires Injective(names) && Mentions(ty) <= names.Keys
    ensures Recover(names, View(names, ty)) == Erase(ty)
    decreases ty, 1
  {
    match ty
    case Pointer(p) => ViewRecovers(names, p.ty);
    case Array(e, _) => ViewRecovers(names, e.ty);
    case Function(ret, params, cc, _, _) =>
      ViewRecovers(names, ret.ty);
      ViewAllRecovers(names, params);
    case _ =>
  }

  lemma {:induction false} ViewAllRecovers(names: Names, params: seq<QualType>)
    requires Injective(names) && MentionsAll(params) <= names.Keys
    ensures RecoverAll(names, ViewAll(names, params)) == EraseAll(params)
    decreases params, 0
  {
    if params != [] {
      var p := params[0];
      assert p.ty < p;
      ViewRecovers(names, p.ty);
      ViewAllRecovers(names, params[1..]);
      var v := ViewAll(names, params);
      assert v[0] == View(names, p.ty) && v[1..] == ViewAll(names, params[1..]);
    }
  }

  /** The text of a printable type is read back as the type itself up to `Erase`; so two
      printable types have the same text only if they are equal up to `Erase`. */
  lemma TextRecovers(names: Names, ty: Type, name: Option<Ident>)
    requires Injective(names) && Mentions(ty) <= names.Keys && Printable(ty, name.None?)
    ensures var r := ParseDeclaration(Text(names, ty, NameTokens(name)));
            r.Some? && r.value.0 == name && r.value.2 == [] && Recover(names, r.value.1) == Erase(ty)
  {
    RoundTrip(names, ty, name);
    ViewRecovers(names, ty);
    var toks := Text(names, ty, NameTokens(name));
    assert ParseDeclaration(toks + []) == Some((name, View(names, ty), []));
    assert toks + [] == toks;
  }
}
