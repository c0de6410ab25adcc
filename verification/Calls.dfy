/** Calls from Python: the argument array that is built and the one the wrapper reads.
 */
module Calls {
  import opened Types
  import opened Declarators
  import opened Wrappers
  import opened Units
  import opened DeclOrder
  import opened Compiles
  import opened WrapperCache

  /** The function type of one call of a variadic function: its parameters without const,
      then the types of the variadic arguments. */
  method Specialise(fty: Type, varArgs: seq<Type>) returns (r: Option<Type>)
    requires fty.Function?
    ensures r.Some? <==> fty.variadic
    ensures r.Some? ==> r.value.Function? && !r.value.variadic && r.value.cc == fty.cc
    ensures r.Some? ==> r.value.ret == Qual(fty.ret.ty, false) && r.value.useLastError == fty.useLastError
    ensures r.Some? ==> Unqualified(r.value.params) == Unqualified(fty.params) + varArgs
  {
    if !fty.variadic {
      return None;
    }
    var types: seq<QualType> := [];
    for i := 0 to |fty.params|
      invariant Unqualified(types) == Unqualified(fty.params[..i])
    {
      assert Unqualified(fty.params[..i + 1]) == Unqualified(fty.params[..i]) + [fty.params[i].ty];
      assert Unqualified(types + [Qual(fty.params[i].ty, false)]) == Unqualified(types) + [fty.params[i].ty];
      types := types + [Qual(fty.params[i].ty, false)];
    }
    assert fty.params[..|fty.params|] == fty.params;
    for i := 0 to |varArgs|
      invariant Unqualified(types) == Unqualified(fty.params) + varArgs[..i]
    {
      assert Unqualified(types + [Qual(varArgs[i], false)]) == Unqualified(types) + [varArgs[i]];
      types := types + [Qual(varArgs[i], false)];
    }
    assert varArgs[..|varArgs|] == varArgs;
    r := Some(Function(Qual(fty.ret.ty, false), types, fty.cc, false, fty.useLastError));
  }

  /** `CFunction::call`: one pointer per argument, if their number is the function's. */
  method PreparePointers(fty: Type, args: seq<int>) returns (r: Option<seq<int>>)
    requires fty.Function?
    ensures r.Some? <==> |args| == |fty.params|
    ensures r.Some? ==> r.value == args
  {
    if |args| != |fty.params| {
      return None;
    }
    var ptrs := [];
    for i := 0 to |args|
      invariant ptrs == args[..i]
    {
      ptrs := ptrs + [args[i]];
    }
    r := Some(ptrs);
  }

  /** The wrapper of `j`, as C reads it, calls a pointer to the function's type with one
      argument for each of `tys`, which it takes from the entries of the argument array in
      turn, and nothing beyond, and stores the result unless there is none. */
  ghost predicate ReadsAs(names: Names, j: Job, tys: seq<Type>)
    requires JobOk(j)
  {
    var w := ParseWrapper(WrapperText(names, j));
    && w.Some? && |w.value.0.args| == |tys|
    && w.value.0.fptr == CPointer(Reading(names, j.fty, false))
    && w.value.0.ret == CPointer(Reading(names, j.fty.ret.ty, false))
    && (w.value.0.stores <==> j.fty.ret.ty != Void)
    && forall k | 0 <= k < |tys| :: w.value.0.args[k] == Arg(Reading(names, tys[k], false), k)
  }

  /** `tys` are the parameters of the function and then the given types. */
  ghost predicate TypesOfCall(fty: Type, varArgs: seq<Type>, tys: seq<Type>)
    requires fty.Function?
  {
    && |tys| == |fty.params| + |varArgs|
    && (forall k | 0 <= k < |fty.params| :: tys[k] == fty.params[k].ty)
    && (forall k | 0 <= k < |varArgs| :: tys[|fty.params| + k] == varArgs[k])
  }

  /** Entry k of the argument array is read as the k-th parameter, and those after the
      parameters as the variadic arguments in turn. */
  lemma ReadsExactly(names: Names, j: Job, tys: seq<Type>)
    requires JobOk(j) && TypesOfCall(j.fty, j.varArgs, tys)
    ensures ReadsAs(names, j, tys)
  {
    hide ParseWrapper;
    hide WrapperText;
    hide Reading;
    WrapperReads(names, j, []);
    assert WrapperText(names, j) + [] == WrapperText(names, j);
    assert forall k | 0 <= k < |tys| :: tys[k] == ArgTypes(j)[k];
  }

  /** `CFunction::call` with arguments at the given addresses, through the wrapper `addr` that
      the table gave for the function: an error exactly on a wrong count; otherwise the
      wrapper reads exactly the pointers that were prepared, each as its parameter's type. */
  method CallFixed(t: WrapperTable, f: Obj, addr: nat, args: seq<int>) returns (r: Option<seq<int>>)
    requires t.Valid() && t.tt(f).Function? && addr < |t.engine| && t.engine[addr].key == Plain(f)
    ensures r.Some? <==> |args| == |t.tt(f).params|
    ensures r.Some? ==> r.value == args && JobOk(t.engine[addr].job)
    ensures r.Some? ==>
              forall names: Names, tys: seq<Type> |
                |tys| == |r.value| && (forall k | 0 <= k < |tys| :: tys[k] == t.tt(f).params[k].ty) ::
                ReadsAs(names, t.engine[addr].job, tys)
  {
    hide ReadsAs;
    hide Accepted;
    r := PreparePointers(t.tt(f), args);
    if r.Some? {
      ghost var job := t.engine[addr].job;
      assert job == JobOf(t.tt, Plain(f), addr);
      forall names: Names, tys: seq<Type> |
        |tys| == |args| && (forall k | 0 <= k < |tys| :: tys[k] == t.tt(f).params[k].ty)
        ensures ReadsAs(names, job, tys)
      {
        ReadsExactly(names, job, tys);
      }
    }
  }

  /** The type entry k is to be read as: the parameter, or the type of the argument. */
  function Expected(tt: TypeTable, fty: Type, types: seq<Obj>, k: nat): Type
    requires fty.Function? && k < |types|
  {
    if k < |fty.params| then fty.params[k].ty else tt(types[k])
  }

  /** `CVarArgsFunction::call` with arguments of the given types at the given addresses: the
      wrapper the table gives for this call reads exactly the pointers it is passed, the fixed
      ones as their parameters' types and the others as the types of the arguments, unless
      the process stops because the wrapper is rejected. */
  method CallVariadic(t: WrapperTable, f: Obj, types: seq<Obj>, args: seq<int>) returns (addr: nat, ptrs: seq<int>, ok: bool)
    requires t.Valid() && var fty := t.tt(f); fty.Function? && fty.variadic && fty.params != []
    requires |types| == |args| && |args| >= |t.tt(f).params|
    modifies t
    ensures Sortable(t.g) ==> (ok <==> KeyUsable(t.g, t.tt, Variadic(f, types[|t.tt(f).params|..])))
    ensures ok ==> t.Valid() && addr < |t.engine| && t.engine[addr].key == Variadic(f, types[|t.tt(f).params|..])
    ensures ok ==> ptrs == args && JobOk(t.engine[addr].job)
    ensures ok ==>
              forall names: Names, tys: seq<Type> |
                |tys| == |ptrs| && (forall k | 0 <= k < |tys| :: tys[k] == Expected(t.tt, t.tt(f), types, k)) ::
                ReadsAs(names, t.engine[addr].job, tys)
  {
    hide ReadsAs;
    hide Accepted;
    hide KeyUsable;
    hide Sortable;
    hide Partition;
    var fty := t.tt(f);
    var n := |fty.params|;
    var count := |args| - n;
    var varArgs := [];
    for i := 0 to count
      invariant varArgs == types[n..n + i]
      invariant t.Valid()
    {
      varArgs := varArgs + [types[n + i]];
    }
    assert types[n..n + count] == types[n..];
    var k := Variadic(f, varArgs);
    ptrs := [];
    addr, ok := t.GetWrapperAddress(k);
    if ok {
      var special := Specialise(fty, JobOf(t.tt, k, addr).varArgs);
      assert |special.value.params| == |Unqualified(special.value.params)| == |args|;
      var r := PreparePointers(special.value, args);
      ptrs := r.value;
      ghost var job := t.engine[addr].job;
      forall names: Names, tys: seq<Type> |
        |tys| == |args| && (forall k | 0 <= k < |tys| :: tys[k] == Expected(t.tt, fty, types, k))
        ensures ReadsAs(names, job, tys)
      {
        assert forall i | 0 <= i < count :: tys[n + i] == t.tt(varArgs[i]);
        ReadsExactly(names, job, tys);
      }
    }
  }
}
