/** Importing types from debug information.

    Debug types form a graph: a struct may refer to itself through pointers. Import never
    looks inside a struct, union or enum, so it terminates when every cycle goes through one
    of them, which `rank` witnesses.
 */
module Import {
  import opened Types

  datatype Qualifier = Typedef | Const | Volatile | Restrict

  /** A reference to a debug type; none is void. */
  type Ref = Option<nat>

  datatype Node =
    | Derived(q: Qualifier, base: Ref)
    | BasicNode(basic: Option<BasicKind>)
    | PointerNode(pointee: Ref)
    | ReferenceNode
    | CompositeNode(c: Composite)
    | EnumNode(id: nat)
    | ArrayNode(elem: Ref, count: Option<nat>)
    | FunctionNode(ret: Ref, params: seq<Ref>, cc: CallingConv)

  type DebugInfo = map<nat, Node>

  ghost predicate Below(rank: nat -> nat, r: Ref, n: nat) {
    r.Some? ==> rank(r.value) < n
  }

  /** References exist and lead down, except out of composites and enums. */
  ghost predicate WellFounded(d: DebugInfo, rank: nat -> nat) {
    forall i | i in d ::
      match d[i]
      case Derived(_, b) => Here(d, b) && Below(rank, b, rank(i))
      case PointerNode(p) => Here(d, p) && Below(rank, p, rank(i))
      case ArrayNode(e, _) => Here(d, e) && Below(rank, e, rank(i))
      case FunctionNode(ret, ps, _) =>
        && Here(d, ret) && Below(rank, ret, rank(i))
        && (forall p | p in ps :: Here(d, p) && Below(rank, p, rank(i)))
      case _ => true
  }

  predicate Here(d: DebugInfo, r: Ref) { r.Some? ==> r.value in d }

  ghost function Height(rank: nat -> nat, r: Ref): nat {
    match r
    case None => 0
    case Some(i) => rank(i) + 1
  }

  /** `s` is found from `r` in `n` steps through typedefs and qualifiers. */
  ghost predicate AlongIn(d: DebugInfo, n: nat, r: Ref, s: Ref) {
    if n == 0 then r == s
    else r.Some? && r.value in d && d[r.value].Derived? && AlongIn(d, n - 1, d[r.value].base, s)
  }

  ghost predicate Along(d: DebugInfo, r: Ref, s: Ref) {
    exists n: nat :: AlongIn(d, n, r, s)
  }

  lemma AlongNext(d: DebugInfo, r: Ref, s: Ref)
    requires r.Some? && r.value in d && d[r.value].Derived?
    ensures Along(d, r, s) <==> r == s || Along(d, d[r.value].base, s)
  {
    if n: nat :| AlongIn(d, n, r, s) {
      assert n > 0 ==> AlongIn(d, n - 1, d[r.value].base, s);
    }
    if n: nat :| AlongIn(d, n, d[r.value].base, s) {
      assert AlongIn(d, n + 1, r, s);
    }
    assert AlongIn(d, 0, r, r);
  }

  /** `getCanonicalDIType`: through typedefs and qualifiers. */
  function Canonical(d: DebugInfo, ghost rank: nat -> nat, r: Ref): (c: Ref)
    requires WellFounded(d, rank) && Here(d, r)
    ensures Here(d, c) && (c.Some? ==> !d[c.value].Derived?)
    ensures Height(rank, c) <= Height(rank, r)
    ensures Along(d, r, c)
    decreases Height(rank, r)
  {
    assert AlongIn(d, 0, r, r);
    if r.Some? && d[r.value].Derived? then
      var c := Canonical(d, rank, d[r.value].base);
      AlongNext(d, r, c);
      c
    else r
  }

  /** `getQualTypeFromDIType`: the same walk, but it notes const. */
  ghost function GetQualType(d: DebugInfo, rank: nat -> nat, r: Ref): QualType
    requires WellFounded(d, rank) && Here(d, r)
    decreases Height(rank, r), 1, 0
  {
    if r.Some? && d[r.value].Derived? then
      var q := GetQualType(d, rank, d[r.value].base);
      if d[r.value].q == Const then Qual(q.ty, true) else q
    else
      Qual(GetType(d, rank, r), false)
  }

  /** `getTypeFromDIType`: arrays without a constant length become pointers, C++ references
      and unknown basic types become void. */
  ghost function GetType(d: DebugInfo, rank: nat -> nat, r: Ref): Type
    requires WellFounded(d, rank) && Here(d, r)
    decreases Height(rank, r), 0, 0
  {
    var c := Canonical(d, rank, r);
    if c.None? then Void
    else
      match d[c.value]
      case BasicNode(Some(k)) => Basic(k)
      case BasicNode(None) => Void
      case ReferenceNode => Void
      case CompositeNode(comp) => Comp(comp)
      case EnumNode(id) => Enum(id)
      case PointerNode(p) => Pointer(GetQualType(d, rank, p))
      case ArrayNode(e, Some(n)) => Array(GetQualType(d, rank, e), n)
      case ArrayNode(e, None) => Pointer(GetQualType(d, rank, e))
      case FunctionNode(ret, ps, cc) => FunctionOf(GetQualType(d, rank, ret), GetAll(d, rank, ps, rank(c.value)), cc)
  }

  ghost function GetAll(d: DebugInfo, rank: nat -> nat, rs: seq<Ref>, bound: nat): (qs: seq<QualType>)
    requires WellFounded(d, rank) && forall r | r in rs :: Here(d, r) && Below(rank, r, bound)
    ensures |qs| == |rs|
    decreases bound, 2, |rs|
  {
    if rs == [] then []
    else
      var r := rs[0];
      assert r in rs;
      assert Here(d, r) && Below(rank, r, bound);
      [GetQualType(d, rank, r)] + GetAll(d, rank, rs[1..], bound)
  }

  /** The unspecified parameter at the end marks a variadic function, unless it is alone. */
  function FunctionOf(ret: QualType, params: seq<QualType>, cc: CallingConv): (f: Type)
    ensures f.Function? && f.ret == ret && f.cc == cc && !f.useLastError
    ensures f.variadic <==> |params| > 1 && params[|params| - 1].ty == Void
    ensures params == f.params + if f.variadic then [params[|params| - 1]] else []
    ensures f.variadic ==> f.params != []
  {
    var n := |params|;
    if n > 1 && params[n - 1].ty == Void then Function(ret, params[..n - 1], cc, true, false)
    else Function(ret, params, cc, false, false)
  }

  /** A const somewhere between the reference and its canonical type. */
  ghost predicate ChainHasConst(d: DebugInfo, r: Ref) {
    exists s: Ref :: Along(d, r, s) && s.Some? && s.value in d && d[s.value].Derived? && d[s.value].q == Const
  }

  lemma ChainNext(d: DebugInfo, r: Ref)
    requires r.Some? && r.value in d && d[r.value].Derived?
    ensures ChainHasConst(d, r) <==> d[r.value].q == Const || ChainHasConst(d, d[r.value].base)
  {
    forall s: Ref ensures Along(d, r, s) <==> r == s || Along(d, d[r.value].base, s) {
      AlongNext(d, r, s);
    }
  }

  lemma ChainEnds(d: DebugInfo, r: Ref)
    requires r.Some? ==> r.value !in d || !d[r.value].Derived?
    ensures !ChainHasConst(d, r)
  {
    forall s: Ref | Along(d, r, s) ensures s == r {
      var n: nat :| AlongIn(d, n, r, s);
    }
  }

  /** The two walks agree on the type, and the const bit is set exactly when the chain has
      a const, `const void` included. */
  lemma {:induction false} WalksAgree(d: DebugInfo, rank: nat -> nat, r: Ref)
    requires WellFounded(d, rank) && Here(d, r)
    ensures GetQualType(d, rank, r).ty == GetType(d, rank, r)
    ensures GetQualType(d, rank, r).isConst <==> ChainHasConst(d, r)
    decreases Height(rank, r)
  {
    if r.Some? && d[r.value].Derived? {
      WalksAgree(d, rank, d[r.value].base);
      ChainNext(d, r);
    } else {
      ChainEnds(d, r);
    }
  }

  // ----- What a debug type denotes --------------------------------------------------------

  /** The chain of typedefs and qualifiers from `r` ends at `c`. */
  ghost predicate EndsAt(d: DebugInfo, r: Ref, c: Ref) {
    Along(d, r, c) && (c.Some? ==> c.value in d && !d[c.value].Derived?)
  }

  /** No type, a C++ reference, or a basic type without counterpart. */
  ghost predicate IsVoid(d: DebugInfo, c: Ref) {
    c.Some? ==> c.value in d && (d[c.value].ReferenceNode? || d[c.value] == BasicNode(None))
  }

  ghost predicate DenotesVoid(d: DebugInfo, r: Ref) {
    exists c :: EndsAt(d, r, c) && IsVoid(d, c)
  }

  /** The debug type `r` stands for the C type `ty`. */
  ghost predicate Denotes(d: DebugInfo, r: Ref, ty: Type)
    decreases ty, 1
  {
    exists c :: EndsAt(d, r, c) && DenotedBy(d, c, ty)
  }

  ghost predicate DenotedBy(d: DebugInfo, c: Ref, ty: Type)
    decreases ty, 0
  {
    match ty
    case Void => IsVoid(d, c)
    case Basic(k) => c.Some? && c.value in d && d[c.value] == BasicNode(Some(k))
    case Enum(id) => c.Some? && c.value in d && d[c.value] == EnumNode(id)
    case Comp(comp) => c.Some? && c.value in d && d[c.value] == CompositeNode(comp)
    case Array(q, n) =>
      c.Some? && c.value in d && d[c.value].ArrayNode? && d[c.value].count == Some(n) && DenotesQual(d, d[c.value].elem, q)
    case Pointer(q) =>
      c.Some? && c.value in d &&
      if d[c.value].PointerNode? then DenotesQual(d, d[c.value].pointee, q)
      else d[c.value].ArrayNode? && d[c.value].count.None? && DenotesQual(d, d[c.value].elem, q)
    case Function(ret, params, cc, variadic, useLastError) =>
      c.Some? && c.value in d && d[c.value].FunctionNode? &&
      var f := d[c.value];
      && f.cc == cc && !useLastError && DenotesQual(d, f.ret, ret)
      && Listed(d, f.params, |params|, variadic) && DenotesAll(d, f.params[..|params|], params)
  }

  /** `n` of the listed parameters are fixed, and one that denotes void follows them exactly
      if the function is variadic. */
  ghost predicate Listed(d: DebugInfo, ps: seq<Ref>, n: nat, variadic: bool) {
    if variadic then 1 <= n && |ps| == n + 1 && DenotesVoid(d, ps[n])
    else |ps| == n && (n > 1 ==> !DenotesVoid(d, ps[n - 1]))
  }

  /** Const is the const of the chain. */
  ghost predicate DenotesQual(d: DebugInfo, r: Ref, q: QualType)
    decreases q, 2
  {
    (q.isConst <==> ChainHasConst(d, r)) && Denotes(d, r, q.ty)
  }

  ghost predicate DenotesAll(d: DebugInfo, rs: seq<Ref>, qs: seq<QualType>)
    decreases qs, 0
  {
    |rs| == |qs| && (qs != [] ==> DenotesQual(d, rs[0], qs[0]) && DenotesAll(d, rs[1..], qs[1..]))
  }

  lemma {:induction false} AlongEnds(d: DebugInfo, rank: nat -> nat, r: Ref, c: Ref)
    requires WellFounded(d, rank) && Here(d, r)
    ensures EndsAt(d, r, c) <==> c == Canonical(d, rank, r)
    decreases Height(rank, r)
  {
    if r.Some? && d[r.value].Derived? {
      AlongNext(d, r, c);
      AlongEnds(d, rank, d[r.value].base, c);
    } else {
      assert AlongIn(d, 0, r, r);
      forall s: Ref | Along(d, r, s) ensures s == r {
        var n: nat :| AlongIn(d, n, r, s);
      }
    }
  }

  lemma VoidIff(d: DebugInfo, rank: nat -> nat, r: Ref)
    requires WellFounded(d, rank) && Here(d, r)
    ensures DenotesVoid(d, r) <==> GetType(d, rank, r) == Void
  {
    hide EndsAt;
    var c := Canonical(d, rank, r);
    forall x ensures EndsAt(d, r, x) <==> x == c {
      AlongEnds(d, rank, r, x);
    }
    assert EndsAt(d, r, c);
    assert DenotesVoid(d, r) <==> IsVoid(d, c);
    if c.Some? {
      match d[c.value]
      case BasicNode(k) => assert k.None? || GetType(d, rank, r) == Basic(k.value);
      case ArrayNode(_, n) => assert GetType(d, rank, r) != Void;
      case _ =>
    }
  }

  lemma {:induction false} DenotesAllIff(d: DebugInfo, rank: nat -> nat, rs: seq<Ref>, bound: nat, qs: seq<QualType>)
    requires WellFounded(d, rank) && forall r | r in rs :: Here(d, r) && Below(rank, r, bound)
    ensures DenotesAll(d, rs, qs) <==> qs == GetAll(d, rank, rs, bound)
    decreases bound, 2, |rs|
  {
    hide DenotesQual;
    hide GetQualType;
    if rs != [] && qs != [] {
      var r := rs[0];
      assert r in rs;
      assert Here(d, r) && Below(rank, r, bound);
      QualIff(d, rank, r, qs[0]);
      DenotesAllIff(d, rank, rs[1..], bound, qs[1..]);
      assert qs == [qs[0]] + qs[1..];
    }
  }

  lemma {:induction false} QualIff(d: DebugInfo, rank: nat -> nat, r: Ref, q: QualType)
    requires WellFounded(d, rank) && Here(d, r)
    ensures DenotesQual(d, r, q) <==> q == GetQualType(d, rank, r)
    decreases Height(rank, r), 1, 0
  {
    hide GetQualType;
    hide GetType;
    hide Denotes;
    WalksAgree(d, rank, r);
    DenotesIff(d, rank, r, q.ty);
  }

  /** Import finds the one C type that a debug type denotes. */
  lemma {:induction false} DenotesIff(d: DebugInfo, rank: nat -> nat, r: Ref, ty: Type)
    requires WellFounded(d, rank) && Here(d, r)
    ensures Denotes(d, r, ty) <==> ty == GetType(d, rank, r)
    decreases Height(rank, r), 0, 0
  {
    hide DenotesQual;
    hide GetQualType;
    hide EndsAt;
    var c := Canonical(d, rank, r);
    forall x ensures EndsAt(d, r, x) <==> x == c {
      AlongEnds(d, rank, r, x);
    }
    assert Denotes(d, r, ty) <==> DenotedBy(d, c, ty);
    if c.Some? {
      match d[c.value] {
        case PointerNode(p) =>
          if ty.Pointer? {
            QualIff(d, rank, p, ty.pointee);
          }
        case ArrayNode(e, n) =>
          if ty.Pointer? {
            QualIff(d, rank, e, ty.pointee);
          } else if ty.Array? {
            QualIff(d, rank, e, ty.elem);
          }
        case FunctionNode(_, _, _) =>
          FunctionIff(d, rank, c.value, ty);
        case _ =>
      }
    }
  }

  lemma {:induction false} FunctionIff(d: DebugInfo, rank: nat -> nat, i: nat, ty: Type)
    requires WellFounded(d, rank) && i in d && d[i].FunctionNode?
    ensures DenotedBy(d, Some(i), ty)
       <==> ty == FunctionOf(GetQualType(d, rank, d[i].ret), GetAll(d, rank, d[i].params, rank(i)), d[i].cc)
    decreases rank(i), 3, 0
  {
    hide DenotesQual;
    hide DenotesAll;
    hide GetQualType;
    hide GetAll;
    hide DenotesVoid;
    var f := d[i];
    var ps, n := f.params, |f.params|;
    var all := GetAll(d, rank, ps, rank(i));
    if n > 0 {
      var last := ps[n - 1];
      assert last in ps;
      GetAllAt(d, rank, ps, rank(i), n - 1);
      WalksAgree(d, rank, last);
      VoidIff(d, rank, last);
    }
    if ty.Function? {
      var m := |ty.params|;
      QualIff(d, rank, f.ret, ty.ret);
      if m <= n {
        assert forall r | r in ps[..m] :: r in ps;
        DenotesAllIff(d, rank, ps[..m], rank(i), ty.params);
        GetAllPrefix(d, rank, ps, rank(i), m);
      }
    }
  }

  lemma {:induction false} GetAllAt(d: DebugInfo, rank: nat -> nat, rs: seq<Ref>, bound: nat, k: nat)
    requires WellFounded(d, rank) && (forall r | r in rs :: Here(d, r) && Below(rank, r, bound)) && k < |rs|
    ensures rs[k] in rs && GetAll(d, rank, rs, bound)[k] == GetQualType(d, rank, rs[k])
    decreases |rs|
  {
    hide GetQualType;
    if k > 0 {
      GetAllAt(d, rank, rs[1..], bound, k - 1);
    }
  }

  lemma GetAllPrefix(d: DebugInfo, rank: nat -> nat, rs: seq<Ref>, bound: nat, m: nat)
    requires WellFounded(d, rank) && (forall r | r in rs :: Here(d, r) && Below(rank, r, bound)) && m <= |rs|
    ensures GetAll(d, rank, rs[..m], bound) == GetAll(d, rank, rs, bound)[..m]
  {
    hide GetQualType;
    hide GetAll;
    var a, b := GetAll(d, rank, rs[..m], bound), GetAll(d, rank, rs, bound)[..m];
    forall k | 0 <= k < m ensures a[k] == b[k] {
      GetAllAt(d, rank, rs[..m], bound, k);
      GetAllAt(d, rank, rs, bound, k);
    }
  }

  /** Typedefs, and qualifiers other than const, are invisible. */
  lemma AliasesAreInvisible(d: DebugInfo, rank: nat -> nat, r: Ref, s: Ref)
    requires WellFounded(d, rank) && Here(d, r) && Here(d, s)
    requires Canonical(d, rank, r) == Canonical(d, rank, s)
    requires ChainHasConst(d, r) <==> ChainHasConst(d, s)
    ensures GetQualType(d, rank, r) == GetQualType(d, rank, s)
  {
    WalksAgree(d, rank, r);
    WalksAgree(d, rank, s);
  }
}
