/** Which function types share a wrapper: the interner gives out objects, and the wrapper
    caches compare them. Where a wrapper file is rejected the process stops, and there are
    answers up to that point only.
 */
module Sharing {
  import opened Types
  import opened DeclOrder
  import opened Wrappers
  import opened Compiles
  import opened Interner
  import opened WrapperCache

  /** The objects of function types. */
  method InternFunctions(keys: seq<FunKey>) returns (objs: seq<nat>)
    ensures |objs| == |keys|
    ensures forall i, j | 0 <= i < |keys| && 0 <= j < |keys| :: objs[i] == objs[j] <==> FunKeyEq(keys[i], keys[j])
  {
    hide FunKeyEq;
    var reqs := seq(|keys|, i requires 0 <= i < |keys| => FunReq(keys[i]));
    objs := RunCtx(reqs);
    forall i, j | 0 <= i < |keys| && 0 <= j < |keys| ensures objs[i] == objs[j] <==> FunKeyEq(keys[i], keys[j]) {
      assert reqs[i] == FunReq(keys[i]) && reqs[j] == FunReq(keys[j]);
    }
  }

  /** The wrappers of function objects. */
  method WrapObjects(g: Graph, tt: TypeTable, objs: seq<nat>) returns (wrappers: seq<nat>, engine: seq<Compiled>)
    requires forall o | o in objs :: tt(o).Function?
    ensures |wrappers| <= |objs|
    ensures Sortable(g) ==> (|wrappers| == |objs| <==> forall o | o in objs :: KeyUsable(g, tt, Plain(o)))
    ensures forall i, j | 0 <= i < |wrappers| && 0 <= j < |wrappers| :: wrappers[i] == wrappers[j] <==> objs[i] == objs[j]
    ensures forall i | 0 <= i < |wrappers| ::
              wrappers[i] < |engine| && engine[wrappers[i]].job == Job(wrappers[i], tt(objs[i]), [])
  {
    hide KeyUsable;
    hide Sortable;
    var ops := seq(|objs|, i requires 0 <= i < |objs| => Ask(Plain(objs[i])));
    forall op | op in ops ensures OpOk(tt, op) {
      var i :| 0 <= i < |objs| && op == ops[i];
      assert objs[i] in objs;
    }
    var files, stopped;
    wrappers, engine, files, stopped := RunCache(g, tt, ops);
    assert forall i | 0 <= i < |objs| :: ops[i] == Ask(Plain(objs[i])) && Wanted(tt, ops[i]) == Some(Plain(objs[i]));
    assert forall i | 0 <= i < |objs| :: Fine(g, tt, ops[..i], ops[i]) <==> KeyUsable(g, tt, Plain(objs[i]));
    assert forall i | 0 <= i < |wrappers| :: IsAnswer(tt, engine, ops[i], wrappers[i]);
  }

  /** Every object has the type of the first request that it answered. */
  method TableOf(keys: seq<FunKey>, objs: seq<nat>, describe: FunKey -> Type) returns (types: map<nat, Type>)
    requires |objs| == |keys|
    ensures forall i | 0 <= i < |keys| :: objs[i] in types
    ensures forall o | o in types :: exists i :: 0 <= i < |keys| && objs[i] == o && types[o] == describe(keys[i])
  {
    types := map[];
    for n := 0 to |keys|
      invariant forall i | 0 <= i < n :: objs[i] in types
      invariant forall o | o in types :: exists i :: 0 <= i < n && objs[i] == o && types[o] == describe(keys[i])
    {
      if objs[n] !in types {
        types := types[objs[n] := describe(keys[n])];
      }
    }
  }

  /** The job wraps the type of a request with an equal key. */
  ghost predicate MadeFor(keys: seq<FunKey>, describe: FunKey -> Type, k: FunKey, job: Job) {
    exists j :: 0 <= j < |keys| && FunKeyEq(keys[j], k) && job == Job(job.id, describe(keys[j]), [])
  }

  lemma MadeForKey(keys: seq<FunKey>, objs: seq<nat>, describe: FunKey -> Type, types: map<nat, Type>, i: nat, w: nat)
    requires |objs| == |keys| && i < |keys| && objs[i] in types
    requires forall i, j | 0 <= i < |keys| && 0 <= j < |keys| :: objs[i] == objs[j] <==> FunKeyEq(keys[i], keys[j])
    requires exists j :: 0 <= j < |keys| && objs[j] == objs[i] && types[objs[i]] == describe(keys[j])
    ensures MadeFor(keys, describe, keys[i], Job(w, types[objs[i]], []))
  {
    hide FunKeyEq;
    var j :| 0 <= j < |keys| && objs[j] == objs[i] && types[objs[i]] == describe(keys[j]);
    assert FunKeyEq(keys[j], keys[i]);
  }

  /** Wrappers asked for by function types, all of them if they are usable: two share a wrapper exactly when their keys are
      equal for the interner, which ignores the const of the result; and the wrapper was
      generated for a type with an equal key. */
  method WrapFunctions(g: Graph, keys: seq<FunKey>, describe: FunKey -> Type)
    returns (wrappers: seq<nat>, engine: seq<Compiled>)
    requires forall k :: describe(k).Function?
    ensures |wrappers| <= |keys|
    ensures Sortable(g) && (forall k | k in keys :: UsableAlone(g, Job(0, describe(k), []))) ==> |wrappers| == |keys|
    ensures forall i, j | 0 <= i < |wrappers| && 0 <= j < |wrappers| ::
              wrappers[i] == wrappers[j] <==> FunKeyEq(keys[i], keys[j])
    ensures forall i | 0 <= i < |wrappers| ::
              wrappers[i] < |engine| && MadeFor(keys, describe, keys[i], engine[wrappers[i]].job)
  {
    hide FunKeyEq;
    hide MadeFor;
    hide UsableAlone;
    hide Sortable;
    var objs := InternFunctions(keys);
    var types := TableOf(keys, objs, describe);
    var tt := (o: nat) => if o in types then types[o] else Void;
    forall o | o in objs ensures tt(o).Function? {
      assert o in types;
    }
    wrappers, engine := WrapObjects(g, tt, objs);
    if forall k | k in keys :: UsableAlone(g, Job(0, describe(k), [])) {
      forall o | o in objs ensures KeyUsable(g, tt, Plain(o)) {
        assert o in types;
      }
    }
    forall i | 0 <= i < |wrappers| ensures MadeFor(keys, describe, keys[i], engine[wrappers[i]].job) {
      MadeForKey(keys, objs, describe, types, i, wrappers[i]);
    }
  }

  /** A function that takes one parameter. */
  function OneParam(ret: Word, param: Word, flags: bv8): FunKey { FunKey(ret, [param], flags) }

  lemma OneParamEq(ret: Word, x: Word, y: Word, flags: bv8)
    ensures FunKeyEq(OneParam(ret, x, flags), OneParam(ret, y, flags)) <==> x == y
  {
    hide GetType;
    assert [x] == [y] <==> [x][0] == [y][0];
  }

  /** Two imports of a function that takes a pointer to an array give the same object exactly
      when the elements of the array are not const. */
  method ImportTwice(elem: Word, count: nat, ret: Word, flags: bv8, address: nat -> Word) returns (f: nat, h: nat)
    requires forall i, j | 0 <= i < 6 && 0 <= j < 6 && address(i) == address(j) :: i == j
    ensures f == h <==> !HasConst(elem)
  {
    hide GetType;
    hide HasConst;
    hide FunKeyEq;
    hide Answered;
    assert PlainArrays([]);
    hide PlainArrays;
    hide OneParam;
    var c := new Ctx();
    var arrays := ArrReq(elem, count);
    var a := Serve(c, arrays);
    var p := Serve(c, PtrReq(PtrKey(address(a))));
    f := Serve(c, FunReq(OneParam(ret, address(p), flags)));
    var b := Serve(c, arrays);
    var q := Serve(c, PtrReq(PtrKey(address(b))));
    h := Serve(c, FunReq(OneParam(ret, address(q), flags)));
    if !HasConst(elem) {
      SameArray(c.pointers, c.arrays, c.functions, arrays, a, arrays, b);
    }
    SamePointer(c.pointers, c.arrays, c.functions, PtrKey(address(a)), p, PtrKey(address(b)), q);
    SameFunction(c.pointers, c.arrays, c.functions, OneParam(ret, address(p), flags), f, OneParam(ret, address(q), flags), h);
    OneParamEq(ret, address(p), address(q), flags);
  }

  /** So two functions of the same signature that take a pointer to an array share their
      wrapper, if it is accepted, exactly when the elements of the array are not const. */
  method WrapTwice(g: Graph, elem: Word, count: nat, ret: Word, flags: bv8, address: nat -> Word, fty: Type)
    returns (wrappers: seq<nat>)
    requires fty.Function? && forall i, j | 0 <= i < 6 && 0 <= j < 6 && address(i) == address(j) :: i == j
    ensures |wrappers| <= 2 && (|wrappers| == 2 ==> (wrappers[0] == wrappers[1] <==> !HasConst(elem)))
    ensures Sortable(g) ==> (|wrappers| == 2 <==> UsableAlone(g, Job(0, fty, [])))
  {
    hide HasConst;
    hide UsableAlone;
    hide Sortable;
    var f, h := ImportTwice(elem, count, ret, flags, address);
    var engine;
    var tt := (o: nat) => fty;
    wrappers, engine := WrapObjects(g, tt, [f, h]);
    assert f in [f, h];
    assert forall o | o in [f, h] :: KeyUsable(g, tt, Plain(o)) <==> UsableAlone(g, Job(0, fty, []));
  }
}
