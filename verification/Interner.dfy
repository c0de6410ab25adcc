/** Interning of pointer, array and function types, down to the tagged words the tables
    compare and hash.
 */
module Interner {
  import opened Types

  // ----- Qualified types as tagged words ----------------------------------------------------

  /** The address of a type object with the const qualifier in bit 0. */
  type Word = bv64

  predicate Aligned(p: Word) { p & 1 == 0 }

  function WithConst(q: Word): Word { q | 1 }

  function HasConst(q: Word): bool { q & 1 == 1 }

  function GetType(q: Word): Word { q & 0xFFFF_FFFF_FFFF_FFFE }

  lemma GetTypeLaws(q: Word)
    ensures Aligned(GetType(q))
    ensures Aligned(q) ==> GetType(q) == q && !HasConst(q)
  {
  }

  lemma Rebuild(q: Word)
    ensures q == if HasConst(q) then WithConst(GetType(q)) else GetType(q)
  {
  }

  /** The tag and the address determine the word, and neither disturbs the other. */
  lemma TagLaws(p: Word, q: Word)
    ensures p == q <==> GetType(p) == GetType(q) && HasConst(p) == HasConst(q)
  {
    hide GetType;
    hide HasConst;
    hide WithConst;
    Rebuild(p);
    Rebuild(q);
  }

  function Shift4(q: Word): Word { q >> 4 }

  function Shift9(q: Word): Word { q >> 9 }

  function HashWord(q: Word): Word { Shift4(q) ^ Shift9(q) }

  lemma Shift4OfType(q: Word)
    ensures Shift4(GetType(q)) == Shift4(q)
  {
  }

  lemma Shift9OfType(q: Word)
    ensures Shift9(GetType(q)) == Shift9(q)
  {
  }

  lemma HashOfType(q: Word)
    ensures HashWord(GetType(q)) == HashWord(q)
  {
    hide GetType;
    hide Shift4;
    hide Shift9;
    Shift4OfType(q);
    Shift9OfType(q);
  }

  /** The hash does not see the qualifier. */
  lemma HashIgnoresConst(p: Word, q: Word)
    requires GetType(p) == GetType(q)
    ensures HashWord(p) == HashWord(q)
  {
    hide GetType;
    hide HashWord;
    HashOfType(p);
    HashOfType(q);
  }

  // ----- Function keys ------------------------------------------------------------------------

  datatype FunKey = FunKey(ret: Word, params: seq<Word>, flags: bv8)

  /** Six bits of convention, one for variadic, one for the last-error flag. */
  function Pack(cc: bv8, variadic: bool, useLastError: bool): bv8 {
    (cc & 0x3F) | (if variadic then 0x40 else 0) | (if useLastError then 0x80 else 0)
  }

  lemma PackInjective(cc: bv8, v: bool, e: bool, cc': bv8, v': bool, e': bool)
    requires cc < 64 && cc' < 64
    ensures Pack(cc, v, e) == Pack(cc', v', e') <==> cc == cc' && v == v' && e == e'
  {
  }

  /** `operator==` of the key: return types are compared as plain pointers. */
  predicate FunKeyEq(a: FunKey, b: FunKey) {
    a.flags == b.flags && GetType(a.ret) == GetType(b.ret) && a.params == b.params
  }

  lemma ConstOfType(q: Word)
    ensures WithConst(GetType(q)) == WithConst(q)
  {
  }

  lemma TypeOfConst(q: Word)
    ensures GetType(WithConst(q)) == GetType(q)
  {
  }

  lemma TypeIsRest(p: Word, q: Word)
    ensures GetType(p) == GetType(q) <==> WithConst(p) == WithConst(q)
  {
    hide GetType;
    hide WithConst;
    ConstOfType(p);
    ConstOfType(q);
    TypeOfConst(p);
    TypeOfConst(q);
  }

  /** Two keys are equal exactly when nothing but the const of the result differs. */
  lemma EqualKeysAre(a: FunKey, b: FunKey)
    ensures FunKeyEq(a, b) <==> a.(ret := WithConst(a.ret)) == b.(ret := WithConst(b.ret))
  {
    hide GetType;
    hide WithConst;
    TypeIsRest(a.ret, b.ret);
  }

  function Low(w: Word): bv32 { (w & 0xFFFF_FFFF) as bv32 }

  function Mix(h: bv32, params: seq<Word>): bv32 {
    if params == [] then h
    else
      var n := |params| - 1;
      var g := Mix(h, params[..n]);
      ((g << 11) | (g >> 21)) ^ Low(HashWord(params[n]))
  }

  function Widen(b: bv8): bv32 { b as bv32 }

  /** `getHashValue`, with its loop over the parameters. */
  method HashFunKey(k: FunKey) returns (h: bv32)
    ensures h == Mix(Low(HashWord(k.ret)), k.params) ^ Widen(k.flags)
  {
    hide Low;
    hide HashWord;
    h := Low(HashWord(k.ret));
    for i := 0 to |k.params|
      invariant h == Mix(Low(HashWord(k.ret)), k.params[..i])
    {
      assert k.params[..i + 1][..i] == k.params[..i];
      h := (h << 11) | (h >> 21);
      h := h ^ Low(HashWord(k.params[i]));
    }
    assert k.params[..|k.params|] == k.params;
    h := h ^ Widen(k.flags);
  }

  /** Equal keys hash equal, which is what lets the hash tables be read as searches. */
  lemma EqualKeysHashEqual(a: FunKey, b: FunKey)
    requires FunKeyEq(a, b)
    ensures Mix(Low(HashWord(a.ret)), a.params) ^ Widen(a.flags) == Mix(Low(HashWord(b.ret)), b.params) ^ Widen(b.flags)
  {
    HashIgnoresConst(a.ret, b.ret);
  }

  // ----- The tables -----------------------------------------------------------------------------

  /** Interned objects are numbered in the order of their creation. */
  datatype PtrKey = PtrKey(pointee: Word)
  datatype ArrayEntry = ArrayEntry(elem: Word, count: nat, obj: nat)
  datatype FunEntry = FunEntry(key: FunKey, obj: nat)

  /** The stored array answers for the request: stored element types are read back without
      their qualifier, requested ones are not. */
  predicate ArrayMatches(e: ArrayEntry, elem: Word, count: nat) {
    GetType(e.elem) == elem && e.count == count
  }

  class Ctx {
    var pointers: map<PtrKey, nat>
    var arrays: seq<ArrayEntry>
    var functions: seq<FunEntry>
    var next: nat

    /** Objects belong to one entry each, and no two functions have equal keys. */
    ghost predicate Valid()
      reads this
    {
      && (forall q | q in pointers :: pointers[q] < next)
      && (forall q, r | q in pointers && r in pointers && pointers[q] == pointers[r] :: q == r)
      && (forall e | e in arrays :: e.obj < next && forall q | q in pointers :: pointers[q] != e.obj)
      && (forall i, j | 0 <= i < j < |arrays| :: arrays[i].obj != arrays[j].obj)
      && (forall e | e in functions :: e.obj < next && forall q | q in pointers :: pointers[q] != e.obj)
      && (forall e, a | e in functions && a in arrays :: e.obj != a.obj)
      && (forall i, j | 0 <= i < j < |functions| ::
            functions[i].obj != functions[j].obj && !FunKeyEq(functions[i].key, functions[j].key))
    }

    constructor ()
      ensures Valid() && pointers == map[] && arrays == [] && functions == [] && next == 0
    {
      pointers, arrays, functions, next := map[], [], [], 0;
    }

    lemma TablesDistinct()
      requires Valid()
      ensures forall q, r | q in pointers && r in pointers && pointers[q] == pointers[r] :: q == r
      ensures forall i, j | 0 <= i < j < |arrays| :: arrays[i].obj != arrays[j].obj
      ensures forall i, j | 0 <= i < j < |functions| ::
                functions[i].obj != functions[j].obj && !FunKeyEq(functions[i].key, functions[j].key)
    {
    }

    method GetPtrType(key: PtrKey) returns (obj: nat)
      requires Valid()
      modifies this
      ensures Valid() && arrays == old(arrays) && functions == old(functions)
      ensures next == old(next) + if obj == old(next) then 1 else 0
      ensures pointers == old(pointers)[key := obj]
      ensures key in old(pointers) ==> obj == old(pointers)[key]
      ensures key !in old(pointers) ==> obj == old(next)
    {
      if key in pointers {
        return pointers[key];
      }
      obj := next;
      next := next + 1;
      pointers := pointers[key := obj];
    }

    /** Any matching entry may be found. A request with a const element matches none. */
    method GetArrayType(elem: Word, count: nat) returns (obj: nat)
      requires Valid()
      modifies this
      ensures Valid() && pointers == old(pointers) && functions == old(functions)
      ensures next == old(next) + if obj == old(next) then 1 else 0
      ensures HasConst(elem) ==> obj == old(next)
      ensures obj == old(next) ==> arrays == old(arrays) + [ArrayEntry(elem, count, obj)]
      ensures obj != old(next) ==> arrays == old(arrays) && exists e :: e in arrays && e.obj == obj && ArrayMatches(e, elem, count)
      ensures (exists e :: e in old(arrays) && ArrayMatches(e, elem, count)) ==> obj != old(next)
    {
      hide GetType;
      hide HasConst;
      if i :| 0 <= i < |arrays| && ArrayMatches(arrays[i], elem, count) {
        ElementIsPlain(arrays[i].elem);
        return arrays[i].obj;
      }
      obj := next;
      next := next + 1;
      arrays := arrays + [ArrayEntry(elem, count, obj)];
    }

    method GetFunctionType(key: FunKey) returns (obj: nat)
      requires Valid()
      modifies this
      ensures Valid() && pointers == old(pointers) && arrays == old(arrays)
      ensures next == old(next) + if obj == old(next) then 1 else 0
      ensures functions == old(functions) + if obj == old(next) then [FunEntry(key, obj)] else []
      ensures exists e :: e in functions && e.obj == obj && FunKeyEq(e.key, key)
      ensures obj == old(next) <==> forall e | e in old(functions) :: !FunKeyEq(e.key, key)
    {
      hide GetType;
      if i :| 0 <= i < |functions| && FunKeyEq(functions[i].key, key) {
        return functions[i].obj;
      }
      obj := next;
      next := next + 1;
      var e := FunEntry(key, obj);
      functions := functions + [e];
      assert e in functions;
    }
  }

  lemma ElementIsPlain(q: Word)
    ensures !HasConst(GetType(q))
  {
    GetTypeLaws(q);
    GetTypeLaws(GetType(q));
  }

  // ----- Whole runs -------------------------------------------------------------------------------

  datatype Req = PtrReq(key: PtrKey) | ArrReq(elem: Word, count: nat) | FunReq(fun: FunKey)

  /** The tables hold the object that answered the request. */
  ghost predicate Answered(p: map<PtrKey, nat>, a: seq<ArrayEntry>, f: seq<FunEntry>, r: Req, obj: nat) {
    match r
    case PtrReq(k) => k in p && p[k] == obj
    case ArrReq(elem, n) => exists e :: e in a && e.obj == obj && GetType(e.elem) == GetType(elem) && e.count == n
    case FunReq(k) => exists e :: e in f && e.obj == obj && FunKeyEq(e.key, k)
  }

  predicate ConstElem(r: Req) { r.ArrReq? && HasConst(r.elem) }

  /** No array of const elements was stored, and no two arrays are alike. */
  ghost predicate PlainArrays(a: seq<ArrayEntry>) {
    && (forall e | e in a :: !HasConst(e.elem))
    && (forall i, j | 0 <= i < j < |a| :: a[i].elem != a[j].elem || a[i].count != a[j].count)
  }

  lemma PlainArraysAdds(a: seq<ArrayEntry>, e: ArrayEntry)
    requires PlainArrays(a) && !HasConst(e.elem) && forall x | x in a :: !ArrayMatches(x, e.elem, e.count)
    ensures PlainArrays(a + [e])
  {
    forall x | x in a ensures x.elem != e.elem || x.count != e.count {
      PlainIsType(x.elem);
    }
  }

  lemma PlainIsType(q: Word)
    requires !HasConst(q)
    ensures GetType(q) == q
  {
    Rebuild(q);
  }

  /** The entry is an array of the requested length, of elements of the requested type up to
      const. */
  ghost predicate Alike(e: ArrayEntry, elem: Word, count: nat) {
    GetType(e.elem) == GetType(elem) && e.count == count
  }

  /** How an array request is answered: a plain one by any entry alike, if there is one, and
      every other one by a new object. */
  ghost predicate ArrayServed(a: seq<ArrayEntry>, next: nat, elem: Word, count: nat, obj: nat, a': seq<ArrayEntry>) {
    if !HasConst(elem) && exists e :: e in a && Alike(e, elem, count) then
      a' == a && exists e :: e in a && Alike(e, elem, count) && e.obj == obj
    else
      obj == next && a' == a + [ArrayEntry(elem, count, obj)]
  }

  /** One request. */
  method Serve(c: Ctx, r: Req) returns (obj: nat)
    requires c.Valid()
    modifies c
    ensures c.Valid() && obj < c.next && old(c.next) <= c.next <= old(c.next) + 1
    ensures Answered(c.pointers, c.arrays, c.functions, r, obj)
    ensures forall q, x | Answered(old(c.pointers), old(c.arrays), old(c.functions), q, x) :: Answered(c.pointers, c.arrays, c.functions, q, x)
    ensures ConstElem(r) ==> obj >= old(c.next)
    ensures if r.ArrReq? then ArrayServed(old(c.arrays), old(c.next), r.elem, r.count, obj, c.arrays) else c.arrays == old(c.arrays)
    ensures old(PlainArrays(c.arrays)) && !ConstElem(r) ==> PlainArrays(c.arrays)
  {
    hide Answered;
    hide FunKeyEq;
    hide HasConst;
    hide PlainArrays;
    hide ArrayServed;
    ghost var p, a, f := c.pointers, c.arrays, c.functions;
    match r {
      case PtrReq(k) =>
        obj := c.GetPtrType(k);
        PointerAnswered(c.pointers, c.arrays, c.functions, k);
      case ArrReq(elem, n) =>
        obj := ServeArray(c, elem, n);
      case FunReq(k) =>
        obj := c.GetFunctionType(k);
        FunctionAnswered(c.pointers, c.arrays, c.functions, k, obj);
    }
    AnsweredMore(p, a, f, c.pointers, c.arrays, c.functions);
  }

  lemma PointerAnswered(p: map<PtrKey, nat>, a: seq<ArrayEntry>, f: seq<FunEntry>, k: PtrKey)
    requires k in p
    ensures Answered(p, a, f, PtrReq(k), p[k])
  {
  }

  lemma FunctionAnswered(p: map<PtrKey, nat>, a: seq<ArrayEntry>, f: seq<FunEntry>, k: FunKey, obj: nat)
    requires exists e :: e in f && e.obj == obj && FunKeyEq(e.key, k)
    ensures Answered(p, a, f, FunReq(k), obj)
  {
    hide FunKeyEq;
  }

  method ServeArray(c: Ctx, elem: Word, n: nat) returns (obj: nat)
    requires c.Valid()
    modifies c
    ensures c.Valid() && obj < c.next && old(c.next) <= c.next <= old(c.next) + 1
    ensures c.pointers == old(c.pointers) && c.functions == old(c.functions) && old(c.arrays) <= c.arrays
    ensures Answered(c.pointers, c.arrays, c.functions, ArrReq(elem, n), obj)
    ensures HasConst(elem) ==> obj == old(c.next)
    ensures ArrayServed(old(c.arrays), old(c.next), elem, n, obj, c.arrays)
    ensures old(PlainArrays(c.arrays)) && !HasConst(elem) ==> PlainArrays(c.arrays)
  {
    hide GetType;
    hide HasConst;
    hide PlainArrays;
    ghost var before := c.arrays;
    obj := c.GetArrayType(elem, n);
    if !HasConst(elem) {
      PlainIsType(elem);
      assert forall e :: Alike(e, elem, n) <==> ArrayMatches(e, elem, n);
    }
    if obj == old(c.next) {
      var e := ArrayEntry(elem, n, obj);
      assert e in c.arrays;
      if PlainArrays(before) && !HasConst(elem) {
        PlainArraysAdds(before, e);
      }
    } else {
      var e :| e in c.arrays && e.obj == obj && ArrayMatches(e, elem, n);
      ElementIsPlain(e.elem);
      PlainIsType(elem);
    }
  }

  /** Answers stay answers while the tables grow. */
  lemma AnsweredMore(p: map<PtrKey, nat>, a: seq<ArrayEntry>, f: seq<FunEntry>,
                     p': map<PtrKey, nat>, a': seq<ArrayEntry>, f': seq<FunEntry>)
    requires forall k | k in p :: k in p' && p'[k] == p[k]
    requires a <= a' && f <= f'
    ensures forall r, x | Answered(p, a, f, r, x) :: Answered(p', a', f', r, x)
  {
    hide GetType;
    hide FunKeyEq;
    assert forall e | e in a :: e in a';
    assert forall e | e in f :: e in f';
  }

  /** Two requests for arrays of the same length, of elements of the same type up to const. */
  ghost predicate SameArrayType(r: Req, s: Req) {
    r.ArrReq? && s.ArrReq? && GetType(r.elem) == GetType(s.elem) && r.count == s.count
  }

  /** An earlier request had the same answer. */
  ghost predicate Reused(answers: seq<nat>, j: nat)
    requires j < |answers|
  {
    exists i :: 0 <= i < j && answers[i] == answers[j]
  }

  ghost predicate AskedBefore(reqs: seq<Req>, j: nat)
    requires j < |reqs|
  {
    exists i :: 0 <= i < j && SameArrayType(reqs[i], reqs[j])
  }

  /** Every entry is the answer to a request, and array requests were given earlier objects
      exactly when they are plain and an array alike was asked for before. */
  ghost predicate History(reqs: seq<Req>, answers: seq<nat>, a: seq<ArrayEntry>) {
    && |answers| == |reqs|
    && (forall e | e in a :: exists i :: 0 <= i < |reqs| && reqs[i] == ArrReq(e.elem, e.count) && answers[i] == e.obj)
    && (forall j | 0 <= j < |reqs| && reqs[j].ArrReq? :: Reused(answers, j) <==> !ConstElem(reqs[j]) && AskedBefore(reqs, j))
  }

  lemma HistoryKeeps(reqs: seq<Req>, answers: seq<nat>, a: seq<ArrayEntry>, r: Req, obj: nat)
    requires History(reqs, answers, a)
    requires r.ArrReq? ==>
               ((exists i :: 0 <= i < |reqs| && answers[i] == obj)
                <==> (!ConstElem(r) && exists i :: 0 <= i < |reqs| && SameArrayType(reqs[i], r)))
    ensures History(reqs + [r], answers + [obj], a)
  {
    hide HasConst;
    hide GetType;
    hide SameArrayType;
    var all, ans, n := reqs + [r], answers + [obj], |reqs|;
    assert forall i | 0 <= i < n :: all[i] == reqs[i] && ans[i] == answers[i];
    forall j | 0 <= j < |all| && all[j].ArrReq?
      ensures Reused(ans, j) <==> !ConstElem(all[j]) && AskedBefore(all, j)
    {
      if j < n {
        assert Reused(ans, j) <==> Reused(answers, j);
        assert AskedBefore(all, j) <==> AskedBefore(reqs, j);
      }
    }
    forall e | e in a ensures exists i :: 0 <= i < |all| && all[i] == ArrReq(e.elem, e.count) && ans[i] == e.obj {
      var i :| 0 <= i < n && reqs[i] == ArrReq(e.elem, e.count) && answers[i] == e.obj;
      assert all[i] == ArrReq(e.elem, e.count) && ans[i] == e.obj;
    }
  }

  lemma HistoryAdds(reqs: seq<Req>, answers: seq<nat>, a: seq<ArrayEntry>, e: ArrayEntry)
    requires History(reqs, answers, a)
    requires exists i :: 0 <= i < |reqs| && reqs[i] == ArrReq(e.elem, e.count) && answers[i] == e.obj
    ensures History(reqs, answers, a + [e])
  {
    hide SameArrayType;
    hide HasConst;
  }

  lemma HistoryGrows(reqs: seq<Req>, answers: seq<nat>, a: seq<ArrayEntry>, next: nat, r: Req, obj: nat, a': seq<ArrayEntry>)
    requires History(reqs, answers, a) && r.ArrReq? && ArrayServed(a, next, r.elem, r.count, obj, a')
    requires forall i | 0 <= i < |reqs| :: answers[i] < next
    requires forall i | 0 <= i < |reqs| && reqs[i].ArrReq? :: exists e :: e in a && Alike(e, reqs[i].elem, reqs[i].count)
    ensures History(reqs + [r], answers + [obj], a')
  {
    hide HasConst;
    hide GetType;
    if exists i :: 0 <= i < |reqs| && SameArrayType(reqs[i], r) {
      var i :| 0 <= i < |reqs| && SameArrayType(reqs[i], r);
      var e :| e in a && Alike(e, reqs[i].elem, reqs[i].count);
      assert Alike(e, r.elem, r.count);
    }
    if e :| e in a && Alike(e, r.elem, r.count) {
      var i :| 0 <= i < |reqs| && reqs[i] == ArrReq(e.elem, e.count) && answers[i] == e.obj;
      assert SameArrayType(reqs[i], r);
    }
    if !HasConst(r.elem) && exists e :: e in a && Alike(e, r.elem, r.count) {
      var e :| e in a && Alike(e, r.elem, r.count) && e.obj == obj;
      var i :| 0 <= i < |reqs| && reqs[i] == ArrReq(e.elem, e.count) && answers[i] == e.obj;
      HistoryKeeps(reqs, answers, a, r, obj);
    } else {
      HistoryKeeps(reqs, answers, a, r, obj);
      var all, ans := reqs + [r], answers + [obj];
      assert all[|reqs|] == ArrReq(r.elem, r.count) && ans[|reqs|] == obj;
      HistoryAdds(all, ans, a, ArrayEntry(r.elem, r.count, obj));
    }
  }

  /** Over any sequence of requests: pointers are shared exactly for equal qualified
      pointees and functions exactly for equal keys. A request for an array gets an object
      given out before exactly when its elements are not const and an array alike, const or
      not, was asked for before; so as long as no array of const elements is asked for, arrays
      are shared exactly for equal element and length, but an array of const elements may be
      handed out later for one of plain elements. */
  method RunCtx(reqs: seq<Req>) returns (answers: seq<nat>)
    ensures |answers| == |reqs|
    ensures forall i, j | 0 <= i < |reqs| && 0 <= j < |reqs| && reqs[i].PtrReq? && reqs[j].PtrReq? ::
              answers[i] == answers[j] <==> reqs[i].key == reqs[j].key
    ensures forall i, j | 0 <= i < |reqs| && 0 <= j < |reqs| && reqs[i].FunReq? && reqs[j].FunReq? ::
              answers[i] == answers[j] <==> FunKeyEq(reqs[i].fun, reqs[j].fun)
    ensures forall i, j | 0 <= i < |reqs| && 0 <= j < |reqs| && reqs[i].ArrReq? && reqs[j].ArrReq? && answers[i] == answers[j] ::
              SameArrayType(reqs[i], reqs[j])
    ensures forall j | 0 <= j < |reqs| && reqs[j].ArrReq? ::
              Reused(answers, j) <==> !ConstElem(reqs[j]) && AskedBefore(reqs, j)
    ensures (forall r | r in reqs :: !ConstElem(r)) ==>
              forall i, j | 0 <= i < |reqs| && 0 <= j < |reqs| && reqs[i].ArrReq? && reqs[j].ArrReq? ::
                answers[i] == answers[j] <==> reqs[i] == reqs[j]
  {
    hide HasConst;
    hide FunKeyEq;
    hide Answered;
    assert PlainArrays([]);
    hide PlainArrays;
    hide ArrayServed;
    hide SameArrayType;
    assert History([], [], []);
    hide History;
    hide AllAnswered;
    hide Reused;
    hide AskedBefore;
    var c := new Ctx();
    answers := [];
    assert AllAnswered(c.pointers, c.arrays, c.functions, c.next, [], []) by { NoneAnswered(c.pointers, c.arrays, c.functions, c.next); }
    hide Ctx.Valid;
    ghost var plain := forall r | r in reqs :: !ConstElem(r);
    assert reqs[..0] == [];
    for n := 0 to |reqs|
      invariant fresh(c) && c.Valid() && |answers| == n
      invariant AllAnswered(c.pointers, c.arrays, c.functions, c.next, reqs[..n], answers)
      invariant plain ==> PlainArrays(c.arrays)
      invariant History(reqs[..n], answers, c.arrays)
    {
      assert reqs[n] in reqs && reqs[..n + 1] == reqs[..n] + [reqs[n]];
      ghost var p, a, f, next := c.pointers, c.arrays, c.functions, c.next;
      var obj := Serve(c, reqs[n]);
      HistoryStep(p, a, f, next, reqs[..n], answers, reqs[n], obj, c.arrays);
      AllAnsweredStep(p, a, f, next, reqs[..n], answers, c.pointers, c.arrays, c.functions, c.next, reqs[n], obj);
      answers := answers + [obj];
    }
    assert reqs[..|reqs|] == reqs;
    c.TablesDistinct();
    Shares(c.pointers, c.arrays, c.functions, c.next, reqs, answers);
    HistoryTells(reqs, answers, c.arrays);
    if plain {
      SharesPlain(c.pointers, c.arrays, c.functions, c.next, reqs, answers);
    }
  }

  lemma NoneAnswered(p: map<PtrKey, nat>, a: seq<ArrayEntry>, f: seq<FunEntry>, next: nat)
    ensures AllAnswered(p, a, f, next, [], [])
  {
  }

  lemma AllAnsweredStep(p: map<PtrKey, nat>, a: seq<ArrayEntry>, f: seq<FunEntry>, next: nat, reqs: seq<Req>, answers: seq<nat>,
                        p': map<PtrKey, nat>, a': seq<ArrayEntry>, f': seq<FunEntry>, next': nat, r: Req, obj: nat)
    requires AllAnswered(p, a, f, next, reqs, answers) && next <= next' && obj < next'
    requires forall q, x | Answered(p, a, f, q, x) :: Answered(p', a', f', q, x)
    requires Answered(p', a', f', r, obj)
    ensures AllAnswered(p', a', f', next', reqs + [r], answers + [obj])
  {
    hide Answered;
  }

  lemma SharesPlain(p: map<PtrKey, nat>, a: seq<ArrayEntry>, f: seq<FunEntry>, next: nat, reqs: seq<Req>, answers: seq<nat>)
    requires AllAnswered(p, a, f, next, reqs, answers) && PlainArrays(a) && forall r | r in reqs :: !ConstElem(r)
    requires forall i, j | 0 <= i < j < |a| :: a[i].obj != a[j].obj
    ensures forall i, j | 0 <= i < |reqs| && 0 <= j < |reqs| && reqs[i].ArrReq? && reqs[j].ArrReq? ::
              answers[i] == answers[j] <==> reqs[i] == reqs[j]
  {
    hide Answered;
    hide HasConst;
    hide PlainArrays;
    forall i, j | 0 <= i < |reqs| && 0 <= j < |reqs| && reqs[i].ArrReq? && reqs[j].ArrReq?
      ensures answers[i] == answers[j] <==> reqs[i] == reqs[j]
    {
      assert reqs[i] in reqs && reqs[j] in reqs;
      SameArray(p, a, f, reqs[i], answers[i], reqs[j], answers[j]);
    }
  }

  ghost predicate AllAnswered(p: map<PtrKey, nat>, a: seq<ArrayEntry>, f: seq<FunEntry>, next: nat, reqs: seq<Req>, answers: seq<nat>) {
    |answers| == |reqs| && forall i | 0 <= i < |reqs| :: answers[i] < next && Answered(p, a, f, reqs[i], answers[i])
  }

  lemma HistoryStep(p: map<PtrKey, nat>, a: seq<ArrayEntry>, f: seq<FunEntry>, next: nat, reqs: seq<Req>, answers: seq<nat>,
                    r: Req, obj: nat, a': seq<ArrayEntry>)
    requires AllAnswered(p, a, f, next, reqs, answers) && History(reqs, answers, a)
    requires if r.ArrReq? then ArrayServed(a, next, r.elem, r.count, obj, a') else a' == a
    ensures History(reqs + [r], answers + [obj], a')
  {
    hide History;
    hide Answered;
    hide ArrayServed;
    hide Alike;
    hide HasConst;
    hide SameArrayType;
    if r.ArrReq? {
      forall i | 0 <= i < |reqs| && reqs[i].ArrReq? ensures exists e :: e in a && Alike(e, reqs[i].elem, reqs[i].count) {
        AnsweredAlike(p, a, f, reqs[i], answers[i]);
      }
      HistoryGrows(reqs, answers, a, next, r, obj, a');
    } else {
      HistoryKeeps(reqs, answers, a, r, obj);
    }
  }

  lemma HistoryTells(reqs: seq<Req>, answers: seq<nat>, a: seq<ArrayEntry>)
    requires History(reqs, answers, a)
    ensures |answers| == |reqs|
    ensures forall j | 0 <= j < |reqs| && reqs[j].ArrReq? ::
              Reused(answers, j) <==> !ConstElem(reqs[j]) && AskedBefore(reqs, j)
  {
  }

  /** What the tables say about requests that were answered. */
  lemma Shares(p: map<PtrKey, nat>, a: seq<ArrayEntry>, f: seq<FunEntry>, next: nat, reqs: seq<Req>, answers: seq<nat>)
    requires AllAnswered(p, a, f, next, reqs, answers)
    requires forall q, r | q in p && r in p && p[q] == p[r] :: q == r
    requires forall i, j | 0 <= i < j < |a| :: a[i].obj != a[j].obj
    requires forall i, j | 0 <= i < j < |f| :: f[i].obj != f[j].obj && !FunKeyEq(f[i].key, f[j].key)
    ensures forall i, j | 0 <= i < |reqs| && 0 <= j < |reqs| && reqs[i].PtrReq? && reqs[j].PtrReq? ::
              answers[i] == answers[j] <==> reqs[i].key == reqs[j].key
    ensures forall i, j | 0 <= i < |reqs| && 0 <= j < |reqs| && reqs[i].FunReq? && reqs[j].FunReq? ::
              answers[i] == answers[j] <==> FunKeyEq(reqs[i].fun, reqs[j].fun)
    ensures forall i, j | 0 <= i < |reqs| && 0 <= j < |reqs| && reqs[i].ArrReq? && reqs[j].ArrReq? && answers[i] == answers[j] ::
              SameArrayType(reqs[i], reqs[j])
  {
    hide FunKeyEq;
    hide Answered;
    hide SameArrayType;
    forall i, j | 0 <= i < |reqs| && 0 <= j < |reqs| && reqs[i].PtrReq? && reqs[j].PtrReq?
      ensures answers[i] == answers[j] <==> reqs[i].key == reqs[j].key
    {
      SamePointer(p, a, f, reqs[i].key, answers[i], reqs[j].key, answers[j]);
    }
    forall i, j | 0 <= i < |reqs| && 0 <= j < |reqs| && reqs[i].FunReq? && reqs[j].FunReq?
      ensures answers[i] == answers[j] <==> FunKeyEq(reqs[i].fun, reqs[j].fun)
    {
      SameFunction(p, a, f, reqs[i].fun, answers[i], reqs[j].fun, answers[j]);
    }
    forall i, j | 0 <= i < |reqs| && 0 <= j < |reqs| && reqs[i].ArrReq? && reqs[j].ArrReq? && answers[i] == answers[j]
      ensures SameArrayType(reqs[i], reqs[j])
    {
      SameObject(p, a, f, reqs[i], reqs[j], answers[i]);
    }
  }

  lemma AnsweredAlike(p: map<PtrKey, nat>, a: seq<ArrayEntry>, f: seq<FunEntry>, r: Req, x: nat)
    requires r.ArrReq? && Answered(p, a, f, r, x)
    ensures exists e :: e in a && Alike(e, r.elem, r.count)
  {
    hide GetType;
    var e :| e in a && e.obj == x && GetType(e.elem) == GetType(r.elem) && e.count == r.count;
    assert Alike(e, r.elem, r.count);
  }

  lemma SameObject(p: map<PtrKey, nat>, a: seq<ArrayEntry>, f: seq<FunEntry>, r: Req, s: Req, x: nat)
    requires r.ArrReq? && s.ArrReq? && forall i, j | 0 <= i < j < |a| :: a[i].obj != a[j].obj
    requires Answered(p, a, f, r, x) && Answered(p, a, f, s, x)
    ensures SameArrayType(r, s)
  {
    hide GetType;
    var d :| d in a && d.obj == x && GetType(d.elem) == GetType(r.elem) && d.count == r.count;
    var e :| e in a && e.obj == x && GetType(e.elem) == GetType(s.elem) && e.count == s.count;
    var i :| 0 <= i < |a| && a[i] == d;
    var j :| 0 <= j < |a| && a[j] == e;
  }

  lemma SamePointer(p: map<PtrKey, nat>, a: seq<ArrayEntry>, f: seq<FunEntry>, k: PtrKey, x: nat, l: PtrKey, y: nat)
    requires forall q, r | q in p && r in p && p[q] == p[r] :: q == r
    requires Answered(p, a, f, PtrReq(k), x) && Answered(p, a, f, PtrReq(l), y)
    ensures x == y <==> k == l
  {
  }

  lemma SameFunction(p: map<PtrKey, nat>, a: seq<ArrayEntry>, f: seq<FunEntry>, k: FunKey, x: nat, l: FunKey, y: nat)
    requires forall i, j | 0 <= i < j < |f| :: f[i].obj != f[j].obj && !FunKeyEq(f[i].key, f[j].key)
    requires Answered(p, a, f, FunReq(k), x) && Answered(p, a, f, FunReq(l), y)
    ensures x == y <==> FunKeyEq(k, l)
  {
    hide GetType;
    var d :| d in f && d.obj == x && FunKeyEq(d.key, k);
    var e :| e in f && e.obj == y && FunKeyEq(e.key, l);
    var i :| 0 <= i < |f| && f[i] == d;
    var j :| 0 <= j < |f| && f[j] == e;
    assert i == j || FunKeyEq(d.key, e.key) ==> i == j by {
      assert i < j ==> !FunKeyEq(f[i].key, f[j].key);
      assert j < i ==> !FunKeyEq(f[j].key, f[i].key);
    }
  }

  lemma SameArray(p: map<PtrKey, nat>, a: seq<ArrayEntry>, f: seq<FunEntry>, r: Req, x: nat, s: Req, y: nat)
    requires r.ArrReq? && s.ArrReq? && !ConstElem(r) && !ConstElem(s) && PlainArrays(a)
    requires forall i, j | 0 <= i < j < |a| :: a[i].obj != a[j].obj
    requires Answered(p, a, f, r, x) && Answered(p, a, f, s, y)
    ensures x == y <==> r == s
  {
    hide GetType;
    hide HasConst;
    var d :| d in a && d.obj == x && GetType(d.elem) == GetType(r.elem) && d.count == r.count;
    var e :| e in a && e.obj == y && GetType(e.elem) == GetType(s.elem) && e.count == s.count;
    PlainIsType(d.elem);
    PlainIsType(e.elem);
    PlainIsType(r.elem);
    PlainIsType(s.elem);
    var i :| 0 <= i < |a| && a[i] == d;
    var j :| 0 <= j < |a| && a[j] == e;
  }
}
