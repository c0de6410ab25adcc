/** The two wrapper caches and the wrappers compiled for them.

    The caches compare types by address, so types are object numbers here, and a `TypeTable`
    says what type an object is. Compiling a file adds its wrappers, in order, to what the JIT
    engine holds, if C accepts the file, and stops the process otherwise; a wrapper is found
    again by its number. The key of the variadic cache is taken by value.
 */
module WrapperCache {
  import opened Types
  import opened DeclOrder
  import opened Wrappers
  import opened Compiles

  type Obj = nat

  /** The type every object stands for; two objects may stand for the same type. */
  type TypeTable = Obj -> Type

  /** What a caller asks a wrapper for: a function type, or one call of a variadic type. */
  datatype Key = Plain(fty: Obj) | Variadic(fty: Obj, varArgs: seq<Obj>)

  function JobOf(tt: TypeTable, k: Key, id: nat): Job {
    match k
    case Plain(f) => Job(id, tt(f), [])
    case Variadic(f, v) => Job(id, tt(f), seq(|v|, i requires 0 <= i < |v| => tt(v[i])))
  }

  /** The job wraps the type of the request's object, with the types of its variadic arguments
      in order. */
  ghost predicate Wraps(tt: TypeTable, k: Key, job: Job) {
    job.fty == tt(k.fty) &&
    match k
    case Plain(_) => job.varArgs == []
    case Variadic(_, v) => |job.varArgs| == |v| && forall i | 0 <= i < |v| :: job.varArgs[i] == tt(v[i])
  }

  /** What `genFuncTypeWrapper` demands. */
  predicate KeyOk(tt: TypeTable, k: Key) { JobOk(JobOf(tt, k, 0)) }

  /** A compiled wrapper and the request it was made for. */
  datatype Compiled = Compiled(key: Key, job: Job)

  function JobsOf(ws: seq<Compiled>): seq<Job> {
    seq(|ws|, i requires 0 <= i < |ws| => ws[i].job)
  }

  /** Private source files: anonymous units and wrapper units, which hold the wrappers of some
      jobs, draw on one counter. */
  datatype File = AnonUnit(n: nat) | WrapperUnit(n: nat, jobs: seq<Job>)

  type PlainCache = map<Obj, nat>
  type VariadicCache = map<(Obj, seq<Obj>), nat>

  ghost predicate Cached(p: PlainCache, v: VariadicCache, k: Key, id: nat) {
    match k
    case Plain(f) => f in p && p[f] == id
    case Variadic(f, ts) => (f, ts) in v && v[(f, ts)] == id
  }

  /** The numbers below `next` are shared out between the caches, and `all` lists for each
      number the one wrapper that was generated for it. */
  ghost predicate Partition(tt: TypeTable, p: PlainCache, v: VariadicCache, next: nat, all: seq<Compiled>) {
    && |all| == next
    && (forall i | 0 <= i < |all| :: all[i].job == JobOf(tt, all[i].key, i) && Cached(p, v, all[i].key, i))
    && (forall k: Key, id: nat | Cached(p, v, k, id) :: id < |all| && all[id].key == k)
  }

  ghost predicate Grows(p: PlainCache, v: VariadicCache, p': PlainCache, v': VariadicCache) {
    forall k: Key, id: nat | Cached(p, v, k, id) :: Cached(p', v', k, id)
  }

  /** Distinct numbers, given out in order. */
  ghost predicate FilesOk(files: seq<File>, next: nat) {
    && (forall i | 0 <= i < |files| :: files[i].n < next)
    && (forall i, j | 0 <= i < j < |files| :: files[i].n < files[j].n)
  }

  lemma PartitionAdds(tt: TypeTable, p: PlainCache, v: VariadicCache, next: nat, all: seq<Compiled>, k: Key,
                      p': PlainCache, v': VariadicCache)
    requires Partition(tt, p, v, next, all) && forall id :: !Cached(p, v, k, id)
    requires forall k', id :: Cached(p', v', k', id) <==> Cached(p, v, k', id) || (k' == k && id == next)
    ensures Partition(tt, p', v', next + 1, all + [Compiled(k, JobOf(tt, k, next))])
  {
  }

  // ----- The files -------------------------------------------------------------------------

  /** What a wrapper file holds: wrappers of different names, and either one call or function
      types without variadic arguments. */
  ghost predicate Shaped(jobs: seq<Job>) {
    && (forall j | j in jobs :: JobOk(j)) && DistinctIds(jobs)
    && (|jobs| == 1 || forall j | j in jobs :: j.varArgs == [])
  }

  ghost predicate FilesShaped(files: seq<File>) {
    forall f | f in files && f.WrapperUnit? :: Shaped(f.jobs)
  }

  ghost predicate FilesAccepted(g: Graph, files: seq<File>) {
    forall f | f in files && f.WrapperUnit? :: Shaped(f.jobs) && Accepted(g, f.jobs)
  }

  /** On a sortable graph a wrapper file is accepted exactly when each of its wrappers would
      be in a file of its own. */
  lemma ShapedIsAccepted(g: Graph, jobs: seq<Job>)
    requires Sortable(g) && Shaped(jobs)
    ensures Accepted(g, jobs) <==> forall j | j in jobs :: UsableAlone(g, j)
  {
    hide Accepted;
    hide SortableAt;
    hide ArgsPlain;
    hide DistinctIds;
    hide Reached;
    SortableIsAccepted(g, jobs);
    if |jobs| == 1 {
      assert jobs == [jobs[0]] && jobs[0] in jobs;
      AloneIsUsable(g, jobs[0]);
    }
  }

  /** Whether C accepts the wrapper of a request. */
  ghost predicate KeyUsable(g: Graph, tt: TypeTable, k: Key) {
    KeyOk(tt, k) && UsableAlone(g, JobOf(tt, k, 0))
  }

  lemma UsableWithId(g: Graph, tt: TypeTable, k: Key, id: nat)
    requires KeyOk(tt, k)
    ensures JobOk(JobOf(tt, k, id)) && (UsableAlone(g, JobOf(tt, k, id)) <==> KeyUsable(g, tt, k))
  {
    hide Reached;
    hide Needs;
    var j, h := JobOf(tt, k, id), JobOf(tt, k, 0);
    assert j.fty == h.fty && j.varArgs == h.varArgs;
    assert ArgTypes(j) == ArgTypes(h) && CallEvents(j) == CallEvents(h);
  }

  ghost predicate AllKeysUsable(g: Graph, tt: TypeTable, ws: seq<Compiled>) {
    forall w | w in ws :: KeyUsable(g, tt, w.key)
  }

  /** The wrappers of a generated file, numbered from `n` on. */
  ghost predicate Generated(tt: TypeTable, ws: seq<Compiled>, n: nat) {
    && (forall i | 0 <= i < |ws| :: ws[i].job == JobOf(tt, ws[i].key, n + i) && KeyOk(tt, ws[i].key))
    && (|ws| == 1 || forall w | w in ws :: w.key.Plain?)
  }

  lemma GeneratedIsShaped(g: Graph, tt: TypeTable, ws: seq<Compiled>, n: nat)
    requires Generated(tt, ws, n)
    ensures Shaped(JobsOf(ws))
    ensures Sortable(g) ==> (Accepted(g, JobsOf(ws)) <==> AllKeysUsable(g, tt, ws))
  {
    hide UsableAlone;
    hide KeyUsable;
    hide KeyOk;
    hide Accepted;
    hide Sortable;
    var jobs := JobsOf(ws);
    forall i | 0 <= i < |ws|
      ensures JobOk(jobs[i]) && jobs[i].id == n + i && (UsableAlone(g, jobs[i]) <==> KeyUsable(g, tt, ws[i].key))
    {
      UsableWithId(g, tt, ws[i].key, n + i);
    }
    assert forall i | 0 <= i < |ws| :: ws[i] in ws;
    assert Shaped(jobs);
    if Sortable(g) {
      ShapedIsAccepted(g, jobs);
      assert forall i | 0 <= i < |ws| :: jobs[i] in jobs;
    }
  }

  // ----- The table ---------------------------------------------------------------------------

  class WrapperTable {
    const g: Graph
    const tt: TypeTable
    var funcTyWrappers: PlainCache
    var varArgsWrappers: VariadicCache
    var wrapperIdx: nat
    var cuIdx: nat
    var engine: seq<Compiled>
    var files: seq<File>

    /** Between public operations: every number has its wrapper in the engine, and every
        wrapper file was accepted. */
    ghost predicate Valid()
      reads this
    {
      && Partition(tt, funcTyWrappers, varArgsWrappers, wrapperIdx, engine)
      && FilesOk(files, cuIdx) && FilesAccepted(g, files)
      && (Sortable(g) ==> AllKeysUsable(g, tt, engine))
    }

    constructor (g: Graph, tt: TypeTable)
      ensures Valid() && engine == [] && files == [] && varArgsWrappers == map[] && this.g == g && this.tt == tt
    {
      this.g, this.tt := g, tt;
      funcTyWrappers, varArgsWrappers := map[], map[];
      wrapperIdx, cuIdx, engine, files := 0, 0, [], [];
    }

    /** `getFuncTypeWrapperId`, both overloads: find, or take the next number. */
    method GetWrapperId(k: Key, ghost all: seq<Compiled>) returns (id: nat, known: bool)
      requires Partition(tt, funcTyWrappers, varArgsWrappers, wrapperIdx, all)
      modifies this`funcTyWrappers, this`varArgsWrappers, this`wrapperIdx
      ensures Cached(funcTyWrappers, varArgsWrappers, k, id)
      ensures Grows(old(funcTyWrappers), old(varArgsWrappers), funcTyWrappers, varArgsWrappers)
      ensures Partition(tt, funcTyWrappers, varArgsWrappers, wrapperIdx, if known then all else all + [Compiled(k, JobOf(tt, k, id))])
      ensures known ==> id < |all| && all[id].key == k
      ensures known ==> funcTyWrappers == old(funcTyWrappers) && varArgsWrappers == old(varArgsWrappers)
      ensures !known ==> id == |all| && forall x :: !Cached(old(funcTyWrappers), old(varArgsWrappers), k, x)
      ensures varArgsWrappers.Keys == old(varArgsWrappers).Keys + if k.Variadic? then {(k.fty, k.varArgs)} else {}
      ensures if k.Plain? then varArgsWrappers == old(varArgsWrappers) else funcTyWrappers == old(funcTyWrappers)
    {
      hide Partition;
      ghost var p, v := funcTyWrappers, varArgsWrappers;
      id, known := wrapperIdx, false;
      match k {
        case Plain(f) =>
          if f in funcTyWrappers {
            PartitionFinds(tt, p, v, wrapperIdx, all, k, funcTyWrappers[f]);
            return funcTyWrappers[f], true;
          }
          funcTyWrappers := funcTyWrappers[f := id];
        case Variadic(f, ts) =>
          if (f, ts) in varArgsWrappers {
            PartitionFinds(tt, p, v, wrapperIdx, all, k, varArgsWrappers[(f, ts)]);
            return varArgsWrappers[(f, ts)], true;
          }
          varArgsWrappers := varArgsWrappers[(f, ts) := id];
      }
      PartitionAdds(tt, p, v, wrapperIdx, all, k, funcTyWrappers, varArgsWrappers);
      PartitionCount(tt, p, v, wrapperIdx, all);
      wrapperIdx := wrapperIdx + 1;
    }

    /** `compileWrappers`: the file is written; if C accepts it the generated wrappers reach
        the engine, and otherwise the process stops. */
    method CompileWrappers(wrappers: seq<Compiled>) returns (ok: bool)
      requires Partition(tt, funcTyWrappers, varArgsWrappers, wrapperIdx, engine + wrappers)
      requires FilesOk(files, cuIdx) && FilesAccepted(g, files) && (Sortable(g) ==> AllKeysUsable(g, tt, engine))
      requires Generated(tt, wrappers, |engine|)
      modifies this`engine, this`files, this`cuIdx
      ensures files == old(files) + [WrapperUnit(old(cuIdx), JobsOf(wrappers))] && cuIdx == old(cuIdx) + 1
      ensures FilesOk(files, cuIdx) && Shaped(JobsOf(wrappers)) && (ok <==> Accepted(g, JobsOf(wrappers)))
      ensures Sortable(g) ==> (ok <==> AllKeysUsable(g, tt, wrappers))
      ensures if ok then Valid() && engine == old(engine) + wrappers else engine == old(engine)
    {
      hide Partition;
      hide Accepted;
      hide Shaped;
      hide KeyUsable;
      hide Sortable;
      GeneratedIsShaped(g, tt, wrappers, |engine|);
      assert forall j | j in JobsOf(wrappers) :: JobOk(j) by { ShapedJobs(JobsOf(wrappers)); }
      files := files + [WrapperUnit(cuIdx, JobsOf(wrappers))];
      cuIdx := cuIdx + 1;
      ok := Accepted(g, JobsOf(wrappers));
      if ok {
        engine := engine + wrappers;
      }
    }

    /** `getWrapperAddress`, both overloads; the address is that of wrapper `addr`. */
    method GetWrapperAddress(k: Key) returns (addr: nat, ok: bool)
      requires Valid() && KeyOk(tt, k)
      modifies this
      ensures Sortable(g) ==> (ok <==> KeyUsable(g, tt, k))
      ensures FilesOk(files, cuIdx) && AllButLastAccepted(g, files)
      ensures varArgsWrappers.Keys == old(varArgsWrappers).Keys + if k.Variadic? then {(k.fty, k.varArgs)} else {}
      ensures if k.Plain? then varArgsWrappers == old(varArgsWrappers) else funcTyWrappers == old(funcTyWrappers)
      ensures ok ==> Valid() && Cached(funcTyWrappers, varArgsWrappers, k, addr)
      ensures ok ==> Grows(old(funcTyWrappers), old(varArgsWrappers), funcTyWrappers, varArgsWrappers)
      ensures ok ==> addr < |engine| && engine[addr] == Compiled(k, JobOf(tt, k, addr)) && Wraps(tt, k, engine[addr].job)
      ensures addr < |old(engine)| ==> ok && engine == old(engine) && files == old(files)
      ensures addr >= |old(engine)| ==>
                && files == old(files) + [WrapperUnit(old(cuIdx), [JobOf(tt, k, addr)])]
                && engine == old(engine) + if ok then [Compiled(k, JobOf(tt, k, addr))] else []
    {
      hide KeyUsable;
      hide KeyOk;
      hide Accepted;
      hide Sortable;
      hide Shaped;
      ghost var before := files;
      FilesAcceptedAreShaped(g, files);
      var id, known := GetWrapperId(k, engine);
      addr, ok := id, true;
      if !known {
        var w := Compiled(k, JobOf(tt, k, id));
        assert JobsOf([w]) == [w.job];
        ok := CompileWrappers([w]);
        assert files[..|files| - 1] == before;
      } else {
        assert engine[id] in engine;
      }
      ButLast(g, before, files);
    }

    /** `getWrapperLLVMFunc`: for a variadic type it makes sure of the plain wrapper only, so
        it finds the wrapper of this call, and keeps the caches sound, exactly if that call
        was wrapped before; otherwise an assertion fails, in builds that have it. */
    method GetWrapperLLVMFunc(fty: Obj, varArgs: seq<Obj>) returns (id: nat, found: bool, ok: bool)
      requires Valid() && tt(fty).Function? && (!tt(fty).variadic ==> varArgs == [])
      modifies this
      ensures Sortable(g) ==> (ok <==> KeyUsable(g, tt, Plain(fty)))
      ensures FilesOk(files, cuIdx) && AllButLastAccepted(g, files)
      ensures ok ==> (found <==> !tt(fty).variadic || old((fty, varArgs) in varArgsWrappers))
      ensures ok ==> (Valid() <==> found)
      ensures ok ==> old(engine) <= engine && Grows(old(funcTyWrappers), old(varArgsWrappers), funcTyWrappers, varArgsWrappers)
      ensures ok && found ==> varArgsWrappers == old(varArgsWrappers)
      ensures ok && found ==>
                var k := Inspected(tt, fty, varArgs);
                id < |engine| && engine[id] == Compiled(k, JobOf(tt, k, id)) && Cached(funcTyWrappers, varArgsWrappers, k, id)
    {
      hide KeyUsable;
      hide Accepted;
      hide Sortable;
      hide Shaped;
      found := true;
      id, ok := GetWrapperAddress(Plain(fty));
      if ok && tt(fty).variadic {
        ghost var v := varArgsWrappers;
        id, found := GetWrapperId(Variadic(fty, varArgs), engine);
        assert (fty, varArgs) in v ==> Cached(funcTyWrappers, v, Variadic(fty, varArgs), v[(fty, varArgs)]);
      }
    }

    /** `compile`: an anonymous unit takes a file number; if its code does not compile,
        nothing else happens; otherwise the functions it declares get their wrappers now,
        unless wrappers are made lazily. */
    method Compile(anonymous: bool, compiles: bool, lazyWrappers: bool, functions: seq<Obj>) returns (ok: bool)
      requires Valid() && forall f | f in functions :: tt(f).Function?
      modifies this
      ensures Sortable(g) ==> (ok <==> UnitUsable(g, tt, compiles, lazyWrappers, functions))
      ensures FilesOk(files, cuIdx) && AllButLastAccepted(g, files) && varArgsWrappers == old(varArgsWrappers)
      ensures ok ==> Valid()
      ensures ok ==> Grows(old(funcTyWrappers), old(varArgsWrappers), funcTyWrappers, varArgsWrappers)
      ensures old(engine) <= engine && (lazyWrappers || !compiles ==> engine == old(engine))
      ensures forall w | w in engine[|old(engine)|..] :: w.key.Plain? && w.key.fty in functions
      ensures var named := if anonymous then [AnonUnit(old(cuIdx))] else [];
              if compiles then
                && |files| == |old(files)| + |named| + 1
                && files[..|files| - 1] == old(files) + named
                && files[|files| - 1].n == old(cuIdx) + |named|
                && files[|files| - 1].WrapperUnit?
                && (ok ==> files[|files| - 1].jobs == JobsOf(engine[|old(engine)|..]))
              else files == old(files) + named
      ensures ok && compiles && !lazyWrappers ==> forall f | f in functions :: f in funcTyWrappers
    {
      hide Partition;
      hide UnitUsable;
      hide AllKeysUsable;
      hide Accepted;
      hide Sortable;
      hide Shaped;
      hide Grows;
      ghost var start := files;
      FilesAcceptedAreShaped(g, files);
      if anonymous {
        files := files + [AnonUnit(cuIdx)];
        cuIdx := cuIdx + 1;
      }
      ok := true;
      if compiles {
        ghost var named := files;
        ok := MakeWrappers(lazyWrappers, functions);
        assert files[..|files| - 1] == named;
      } else {
        assert UnitUsable(g, tt, compiles, lazyWrappers, functions) by { NothingToWrap(g, tt, compiles, lazyWrappers, functions); }
        GrowsSame(funcTyWrappers, varArgsWrappers);
        assert engine[|engine|..] == [];
      }
      ButLast(g, start, files);
    }

    /** What `compile` does once the unit itself has compiled. */
    method MakeWrappers(lazyWrappers: bool, functions: seq<Obj>) returns (ok: bool)
      requires Valid() && forall f | f in functions :: tt(f).Function?
      modifies this
      ensures Sortable(g) ==> (ok <==> UnitUsable(g, tt, true, lazyWrappers, functions))
      ensures FilesOk(files, cuIdx) && FilesShaped(files) && varArgsWrappers == old(varArgsWrappers)
      ensures ok ==> Valid()
      ensures ok ==> Grows(old(funcTyWrappers), old(varArgsWrappers), funcTyWrappers, varArgsWrappers)
      ensures old(engine) <= engine && (lazyWrappers ==> engine == old(engine))
      ensures forall w | w in engine[|old(engine)|..] :: w.key.Plain? && w.key.fty in functions
      ensures |files| == |old(files)| + 1 && files[..|old(files)|] == old(files)
      ensures var f := files[|old(files)|];
              f.WrapperUnit? && f.n == old(cuIdx) && (ok ==> f.jobs == JobsOf(engine[|old(engine)|..]))
      ensures ok && !lazyWrappers ==> forall f | f in functions :: f in funcTyWrappers
    {
      hide Partition;
      hide KeyUsable;
      hide Accepted;
      hide Sortable;
      hide Shaped;
      hide Generated;
      FilesAcceptedAreShaped(g, files);
      var wrappers := [];
      if !lazyWrappers {
        wrappers := GenerateAll(functions);
      } else {
        assert engine + [] == engine;
        NothingGenerated(tt, |engine|);
        GrowsSame(funcTyWrappers, varArgsWrappers);
      }
      ghost var was := engine;
      ok := CompileWrappers(wrappers);
      assert engine[|was|..] == if ok then wrappers else [];
    }

    /** The wrapper loop of `compile`. */
    method GenerateAll(functions: seq<Obj>) returns (wrappers: seq<Compiled>)
      requires Valid() && forall f | f in functions :: tt(f).Function?
      modifies this`funcTyWrappers, this`varArgsWrappers, this`wrapperIdx
      ensures Partition(tt, funcTyWrappers, varArgsWrappers, wrapperIdx, engine + wrappers)
      ensures Grows(old(funcTyWrappers), old(varArgsWrappers), funcTyWrappers, varArgsWrappers)
      ensures varArgsWrappers == old(varArgsWrappers) && Generated(tt, wrappers, |engine|)
      ensures forall f | f in functions :: f in funcTyWrappers
      ensures forall w | w in wrappers :: w.key.Plain? && w.key.fty in functions
      ensures Sortable(g) ==> (AllKeysUsable(g, tt, wrappers) <==> forall f | f in functions :: KeyUsable(g, tt, Plain(f)))
    {
      hide Partition;
      hide Accepted;
      hide KeyUsable;
      hide Sortable;
      wrappers := [];
      assert engine + [] == engine;
      for i := 0 to |functions|
        invariant Partition(tt, funcTyWrappers, varArgsWrappers, wrapperIdx, engine + wrappers)
        invariant Grows(old(funcTyWrappers), old(varArgsWrappers), funcTyWrappers, varArgsWrappers)
        invariant varArgsWrappers == old(varArgsWrappers) && Generated(tt, wrappers, |engine|)
        invariant forall f | f in functions[..i] :: f in funcTyWrappers
        invariant forall f | f in functions[..i] :: exists w :: w in engine + wrappers && w.key == Plain(f)
        invariant forall w | w in wrappers :: w.key.Plain? && w.key.fty in functions
      {
        var f := functions[i];
        ghost var p, v, all := funcTyWrappers, varArgsWrappers, engine + wrappers;
        var id, known := GetWrapperId(Plain(f), all);
        assert functions[..i + 1] == functions[..i] + [f];
        if !known {
          var w := Compiled(Plain(f), JobOf(tt, Plain(f), id));
          assert engine + (wrappers + [w]) == all + [w];
          wrappers := wrappers + [w];
          assert w in engine + wrappers && forall x | x in all :: x in engine + wrappers;
        } else {
          assert all[id] in all;
        }
        forall h | h in functions[..i + 1] ensures h in funcTyWrappers {
          if h in p {
            assert Cached(p, v, Plain(h), p[h]);
          }
        }
      }
      assert functions[..|functions|] == functions;
    }
  }

  lemma ShapedJobs(jobs: seq<Job>)
    requires Shaped(jobs)
    ensures forall j | j in jobs :: JobOk(j)
  {
  }

  lemma FilesAcceptedAreShaped(g: Graph, files: seq<File>)
    requires FilesAccepted(g, files)
    ensures FilesShaped(files)
  {
  }

  lemma GrowsSame(p: PlainCache, v: VariadicCache)
    ensures Grows(p, v, p, v)
  {
  }

  lemma NothingToWrap(g: Graph, tt: TypeTable, compiles: bool, lazyWrappers: bool, functions: seq<Obj>)
    requires !compiles || lazyWrappers
    ensures UnitUsable(g, tt, compiles, lazyWrappers, functions)
  {
  }

  lemma NothingGenerated(tt: TypeTable, n: nat)
    ensures Generated(tt, [], n)
  {
  }

  /** The key `getWrapperLLVMFunc` looks up. */
  function Inspected(tt: TypeTable, fty: Obj, varArgs: seq<Obj>): Key {
    var t := tt(fty);
    if t.Function? && t.variadic then Variadic(fty, varArgs) else Plain(fty)
  }

  ghost predicate UnitUsable(g: Graph, tt: TypeTable, compiles: bool, lazyWrappers: bool, functions: seq<Obj>) {
    compiles && !lazyWrappers ==> forall f | f in functions :: KeyUsable(g, tt, Plain(f))
  }

  lemma PartitionFinds(tt: TypeTable, p: PlainCache, v: VariadicCache, next: nat, all: seq<Compiled>, k: Key, id: nat)
    requires Partition(tt, p, v, next, all) && Cached(p, v, k, id)
    ensures id < |all| && all[id].key == k
  {
  }

  lemma PartitionCount(tt: TypeTable, p: PlainCache, v: VariadicCache, next: nat, all: seq<Compiled>)
    requires Partition(tt, p, v, next, all)
    ensures |all| == next
  {
  }

  // ----- Whole runs ------------------------------------------------------------------------

  datatype Op =
    | Ask(k: Key)
    | Unit(anonymous: bool, compiles: bool, lazyWrappers: bool, functions: seq<Obj>)
    | Inspect(fty: Obj, varArgs: seq<Obj>)

  predicate OpOk(tt: TypeTable, op: Op) {
    match op
    case Ask(k) => KeyOk(tt, k)
    case Unit(_, _, _, fs) => forall f | f in fs :: tt(f).Function?
    case Inspect(f, v) => var t := tt(f); t.Function? && (!t.variadic ==> v == [])
  }

  /** The wrapper an operation is answered with. */
  function Wanted(tt: TypeTable, op: Op): Option<Key> {
    match op
    case Ask(k) => Some(k)
    case Unit(_, _, _, _) => None
    case Inspect(f, v) => Some(Inspected(tt, f, v))
  }

  /** Whether an operation goes well after those before it, told from the types alone: what
      is wrapped is usable, and a variadic call is inspected only after it was asked for. */
  ghost predicate Fine(g: Graph, tt: TypeTable, before: seq<Op>, op: Op) {
    match op
    case Ask(k) => KeyUsable(g, tt, k)
    case Unit(_, compiles, lazyWrappers, fs) => UnitUsable(g, tt, compiles, lazyWrappers, fs)
    case Inspect(f, v) =>
      KeyUsable(g, tt, Plain(f)) && (Inspected(tt, f, v).Variadic? ==> Ask(Variadic(f, v)) in before)
  }

  /** The variadic cache holds the calls that were asked for. */
  ghost predicate Knows(v: VariadicCache, before: seq<Op>) {
    forall f: Obj, ts: seq<Obj> :: (f, ts) in v <==> Ask(Variadic(f, ts)) in before
  }

  lemma KnowsMore(v: VariadicCache, before: seq<Op>, op: Op, v': VariadicCache)
    requires Knows(v, before)
    requires v'.Keys == v.Keys + if op.Ask? && op.k.Variadic? then {(op.k.fty, op.k.varArgs)} else {}
    ensures Knows(v', before + [op])
  {
    forall f: Obj, ts: seq<Obj> ensures (f, ts) in v' <==> Ask(Variadic(f, ts)) in before + [op] {
      assert (f, ts) in v' <==> (f, ts) in v'.Keys;
      assert Ask(Variadic(f, ts)) in before + [op] <==> Ask(Variadic(f, ts)) in before || op == Ask(Variadic(f, ts));
    }
  }

  /** Wrapper files as they should be, of which only the last one may have been rejected. */
  ghost predicate AllButLastAccepted(g: Graph, files: seq<File>) {
    FilesShaped(files) && forall i | 0 <= i < |files| - 1 && files[i].WrapperUnit? :: Shaped(files[i].jobs) && Accepted(g, files[i].jobs)
  }

  lemma ButLast(g: Graph, before: seq<File>, files: seq<File>)
    requires FilesAccepted(g, before) && FilesShaped(files)
    requires |files| > 0 ==> forall f | f in files[..|files| - 1] :: f in before || f.AnonUnit?
    ensures AllButLastAccepted(g, files)
  {
    hide Accepted;
    hide Shaped;
    forall i | 0 <= i < |files| - 1 && files[i].WrapperUnit? ensures files[i] in before {
      assert files[..|files| - 1][i] == files[i];
    }
  }

  /** One operation. It fails where the process would stop. */
  method Execute(t: WrapperTable, op: Op, ghost before: seq<Op>) returns (answer: nat, ok: bool)
    requires t.Valid() && OpOk(t.tt, op) && Knows(t.varArgsWrappers, before)
    modifies t
    ensures FilesOk(t.files, t.cuIdx) && AllButLastAccepted(t.g, t.files)
    ensures Sortable(t.g) ==> (ok <==> Fine(t.g, t.tt, before, op))
    ensures ok ==> t.Valid() && Knows(t.varArgsWrappers, before + [op]) && old(t.engine) <= t.engine
    ensures ok && Wanted(t.tt, op).Some? ==>
              var k := Wanted(t.tt, op).value;
              && answer < |t.engine| && t.engine[answer] == Compiled(k, JobOf(t.tt, k, answer))
              && Wraps(t.tt, k, t.engine[answer].job)
  {
    hide Partition;
    hide KeyUsable;
    hide KeyOk;
    hide Accepted;
    hide Sortable;
    hide Shaped;
    hide Knows;
    hide JobOf;
    hide Wraps;
    ghost var v := t.varArgsWrappers;
    answer := 0;
    match op {
      case Ask(k) =>
        answer, ok := t.GetWrapperAddress(k);
      case Unit(anonymous, compiles, lazyWrappers, functions) =>
        ok := t.Compile(anonymous, compiles, lazyWrappers, functions);
      case Inspect(f, ts) =>
        var found;
        answer, found, ok := t.GetWrapperLLVMFunc(f, ts);
        assert (f, ts) in v <==> Ask(Variadic(f, ts)) in before by { KnowsAt(v, before, f, ts); }
        ok := ok && found;
        JobWraps(t.tt, Inspected(t.tt, f, ts), answer);
    }
    if ok {
      KnowsMore(v, before, op, t.varArgsWrappers);
    }
  }

  lemma JobWraps(tt: TypeTable, k: Key, id: nat)
    ensures Wraps(tt, k, JobOf(tt, k, id))
  {
  }

  lemma KnowsAt(v: VariadicCache, before: seq<Op>, f: Obj, ts: seq<Obj>)
    requires Knows(v, before)
    ensures (f, ts) in v <==> Ask(Variadic(f, ts)) in before
  {
  }

  /** Every wrapper in the engine belongs to one number and one request. */
  lemma EngineDistinct(tt: TypeTable, p: PlainCache, v: VariadicCache, next: nat, all: seq<Compiled>)
    requires Partition(tt, p, v, next, all)
    ensures forall i, j | 0 <= i < j < |all| :: all[i].job.id != all[j].job.id && all[i].key != all[j].key
  {
    forall i, j | 0 <= i < j < |all| ensures all[i].key != all[j].key {
      assert Cached(p, v, all[i].key, i) && Cached(p, v, all[j].key, j);
    }
  }

  ghost predicate IsAnswer(tt: TypeTable, engine: seq<Compiled>, op: Op, answer: nat) {
    match Wanted(tt, op)
    case Some(k) => answer < |engine| && engine[answer] == Compiled(k, JobOf(tt, k, answer)) && Wraps(tt, k, engine[answer].job)
    case None => true
  }

  /** Any mix of requests, compilations and inspections, up to the point where the process
      stops: two requests get the same wrapper exactly when they name the same objects, every
      answer is the wrapper generated for that request, no private file name is used twice,
      and every wrapper file has different wrapper names and is either one call or has no
      variadic arguments. On a sortable graph the process stops exactly when some operation
      is not fine. */
  method RunCache(g: Graph, tt: TypeTable, ops: seq<Op>)
    returns (answers: seq<nat>, engine: seq<Compiled>, files: seq<File>, stopped: bool)
    requires forall op | op in ops :: OpOk(tt, op)
    ensures |answers| <= |ops| && (stopped <==> |answers| < |ops|)
    ensures Sortable(g) ==> (stopped <==> exists i :: 0 <= i < |ops| && !Fine(g, tt, ops[..i], ops[i]))
    ensures forall i | 0 <= i < |answers| :: IsAnswer(tt, engine, ops[i], answers[i])
    ensures forall i, j | 0 <= i < |answers| && 0 <= j < |answers| && Wanted(tt, ops[i]).Some? && Wanted(tt, ops[j]).Some? ::
              answers[i] == answers[j] <==> Wanted(tt, ops[i]) == Wanted(tt, ops[j])
    ensures forall i, j | 0 <= i < j < |engine| :: engine[i].job.id != engine[j].job.id && engine[i].key != engine[j].key
    ensures forall i, j | 0 <= i < j < |files| :: files[i].n != files[j].n
    ensures AllButLastAccepted(g, files) && (!stopped ==> FilesAccepted(g, files))
  {
    hide KeyOk;
    hide Partition;
    hide Knows;
    hide Fine;
    hide Sortable;
    hide Accepted;
    hide Shaped;
    hide OpOk;
    hide JobOf;
    hide Wraps;
    hide KeyUsable;
    var t := new WrapperTable(g, tt);
    answers, stopped := [], false;
    assert Knows(t.varArgsWrappers, []) by { KnowsNothing(); }
    assert ops[..0] == [];
    for i := 0 to |ops|
      invariant fresh(t) && t.Valid() && t.g == g && t.tt == tt && |answers| == i
      invariant Knows(t.varArgsWrappers, ops[..i])
      invariant Sortable(g) ==> forall n | 0 <= n < i :: Fine(g, tt, ops[..n], ops[n])
      invariant forall n | 0 <= n < i :: IsAnswer(tt, t.engine, ops[n], answers[n])
    {
      assert ops[i] in ops && ops[..i + 1] == ops[..i] + [ops[i]];
      engine := t.engine;
      EngineDistinct(tt, t.funcTyWrappers, t.varArgsWrappers, t.wrapperIdx, engine);
      var a, ok := Execute(t, ops[i], ops[..i]);
      if !ok {
        files, stopped := t.files, true;
        return;
      }
      answers := answers + [a];
    }
    engine, files := t.engine, t.files;
    EngineDistinct(tt, t.funcTyWrappers, t.varArgsWrappers, t.wrapperIdx, engine);
    FilesAcceptedAreShaped(g, files);
    ButLast(g, files, files);
  }

  lemma KnowsNothing()
    ensures Knows(map[], [])
  {
  }
}
