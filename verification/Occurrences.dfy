/** Where composites occur in types, and what that means for the printer: a description of
    its output that does not mention the printer's own walk.
 */
module Occurrences {
  import opened Types
  import opened Declarators
  import opened DeclOrder

  // ----- Places in a type --------------------------------------------------------------

  /** One level down a type. */
  datatype Hop = Pointee | Element | Param(i: nat) | Result

  /** The type at a place. */
  function At(ty: Type, path: seq<Hop>): Option<Type>
    decreases |path|
  {
    if path == [] then Some(ty)
    else
      match path[0]
      case Pointee => if ty.Pointer? then At(ty.pointee.ty, path[1..]) else None
      case Element => if ty.Array? then At(ty.elem.ty, path[1..]) else None
      case Param(i) => if ty.Function? && i < |ty.params| then At(ty.params[i].ty, path[1..]) else None
      case Result => if ty.Function? then At(ty.ret.ty, path[1..]) else None
  }

  ghost predicate OccursAt(ty: Type, path: seq<Hop>, c: Composite) {
    At(ty, path) == Some(Comp(c))
  }

  /** A composite right below a pointer is declared forward, and one right below an array or
      a function is defined; a type that is a composite itself follows the caller. */
  function ModeAt(path: seq<Hop>, mode: DeclMode): DeclMode {
    if path == [] then mode else if path[|path| - 1] == Pointee then Forward else Full
  }

  lemma ModeBelow(hop: Hop, path: seq<Hop>, mode: DeclMode)
    ensures ModeAt([hop] + path, mode) == ModeAt(path, if hop == Pointee then Forward else Full)
  {
  }

  lemma AtBelow(ty: Type, hop: Hop, path: seq<Hop>)
    ensures At(ty, [hop] + path) ==
            match hop
            case Pointee => if ty.Pointer? then At(ty.pointee.ty, path) else None
            case Element => if ty.Array? then At(ty.elem.ty, path) else None
            case Param(i) => if ty.Function? && i < |ty.params| then At(ty.params[i].ty, path) else None
            case Result => if ty.Function? then At(ty.ret.ty, path) else None
  {
    assert ([hop] + path)[1..] == path;
  }

  // ----- The printer's walk ------------------------------------------------------------

  lemma {:induction false} ParamEventFrom(params: seq<QualType>, e: Event) returns (i: nat)
    requires e in ParamEvents(params)
    ensures i < |params| && e in Events(params[i].ty, Full)
  {
    hide Events;
    if e in Events(params[0].ty, Full) {
      i := 0;
    } else {
      var k := ParamEventFrom(params[1..], e);
      i := k + 1;
    }
  }

  lemma {:induction false} ParamEventIn(params: seq<QualType>, i: nat, e: Event)
    requires i < |params| && e in Events(params[i].ty, Full)
    ensures e in ParamEvents(params)
  {
    hide Events;
    if i > 0 {
      ParamEventIn(params[1..], i - 1, e);
    }
  }

  lemma {:induction false} EventHasPlace(ty: Type, mode: DeclMode, e: Event) returns (path: seq<Hop>)
    requires e in Events(ty, mode)
    ensures OccursAt(ty, path, e.c) && e.mode == ModeAt(path, mode)
    decreases ty
  {
    path := [];
    match ty {
      case Comp(c) =>
      case Pointer(p) =>
        var rest := EventHasPlace(p.ty, Forward, e);
        path := [Pointee] + rest;
        AtBelow(ty, Pointee, rest);
      case Array(el, _) =>
        var rest := EventHasPlace(el.ty, Full, e);
        path := [Element] + rest;
        AtBelow(ty, Element, rest);
      case Function(ret, params, _, _, _) =>
        if e in ParamEvents(params) {
          var i := ParamEventFrom(params, e);
          assert params[i].ty < params[i];
          var rest := EventHasPlace(params[i].ty, Full, e);
          path := [Param(i)] + rest;
          AtBelow(ty, Param(i), rest);
        } else {
          var rest := EventHasPlace(ret.ty, Full, e);
          path := [Result] + rest;
          AtBelow(ty, Result, rest);
        }
      case _ =>
        assert false;
    }
  }

  lemma {:induction false} PlaceHasEvent(ty: Type, mode: DeclMode, path: seq<Hop>, c: Composite)
    requires OccursAt(ty, path, c)
    ensures Event(c, ModeAt(path, mode)) in Events(ty, mode)
    decreases |path|
  {
    if path != [] {
      var hop, rest := path[0], path[1..];
      assert path == [hop] + rest;
      ModeBelow(hop, rest, mode);
      var below := if hop == Pointee then Forward else Full;
      match hop
      case Pointee => PlaceHasEvent(ty.pointee.ty, below, rest, c);
      case Element => PlaceHasEvent(ty.elem.ty, below, rest, c);
      case Result => PlaceHasEvent(ty.ret.ty, below, rest, c);
      case Param(i) =>
        PlaceHasEvent(ty.params[i].ty, below, rest, c);
        ParamEventIn(ty.params, i, Event(c, ModeAt(rest, below)));
    }
  }

  /** What the printer comes across in a type, and in which mode: every occurrence of a
      composite, in the mode of the last step to it. */
  lemma EventsAreOccurrences(ty: Type, mode: DeclMode, e: Event)
    ensures e in Events(ty, mode) <==> exists path :: OccursAt(ty, path, e.c) && e.mode == ModeAt(path, mode)
  {
    if e in Events(ty, mode) {
      var path := EventHasPlace(ty, mode, e);
    }
    if path :| OccursAt(ty, path, e.c) && e.mode == ModeAt(path, mode) {
      PlaceHasEvent(ty, mode, path, e.c);
    }
  }

  lemma {:induction false} FieldEventsAre(fields: seq<Field>, e: Event)
    ensures e in FieldEvents(fields) <==> exists f :: f in fields && e in Events(f.ty, Full)
  {
    hide Events;
    if fields != [] {
      FieldEventsAre(fields[1..], e);
      assert fields == [fields[0]] + fields[1..];
    }
  }

  // ----- By-value containment ----------------------------------------------------------

  /** C wants a composite complete where it is the type itself or the element of an array. */
  ghost predicate ValueAt(path: seq<Hop>, here: bool) {
    if path == [] then here else path[|path| - 1] == Element
  }

  lemma {:induction false} ParamNeedFrom(params: seq<QualType>, c: Composite) returns (i: nat)
    requires c in ParamNeeds(params)
    ensures i < |params| && c in Needs(params[i].ty, false)
  {
    hide Needs;
    if c in Needs(params[0].ty, false) {
      i := 0;
    } else {
      var k := ParamNeedFrom(params[1..], c);
      i := k + 1;
    }
  }

  lemma {:induction false} ParamNeedIn(params: seq<QualType>, i: nat, c: Composite)
    requires i < |params| && c in Needs(params[i].ty, false)
    ensures c in ParamNeeds(params)
  {
    hide Needs;
    if i > 0 {
      ParamNeedIn(params[1..], i - 1, c);
    }
  }

  lemma {:induction false} NeedHasPlace(ty: Type, here: bool, c: Composite) returns (path: seq<Hop>)
    requires c in Needs(ty, here)
    ensures OccursAt(ty, path, c) && ValueAt(path, here)
    decreases ty
  {
    path := [];
    match ty {
      case Comp(_) =>
      case Pointer(p) =>
        var rest := NeedHasPlace(p.ty, false, c);
        path := [Pointee] + rest;
        AtBelow(ty, Pointee, rest);
      case Array(el, _) =>
        var rest := NeedHasPlace(el.ty, true, c);
        path := [Element] + rest;
        AtBelow(ty, Element, rest);
      case Function(ret, params, _, _, _) =>
        if c in ParamNeeds(params) {
          var i := ParamNeedFrom(params, c);
          assert params[i].ty < params[i];
          var rest := NeedHasPlace(params[i].ty, false, c);
          path := [Param(i)] + rest;
          AtBelow(ty, Param(i), rest);
        } else {
          var rest := NeedHasPlace(ret.ty, false, c);
          path := [Result] + rest;
          AtBelow(ty, Result, rest);
        }
      case _ =>
        assert false;
    }
  }

  lemma {:induction false} PlaceIsNeeded(ty: Type, here: bool, path: seq<Hop>, c: Composite)
    requires OccursAt(ty, path, c) && ValueAt(path, here)
    ensures c in Needs(ty, here)
    decreases |path|
  {
    if path != [] {
      var hop, rest := path[0], path[1..];
      assert path == [hop] + rest;
      assert ValueAt(rest, hop == Element);
      match hop
      case Pointee => PlaceIsNeeded(ty.pointee.ty, false, rest, c);
      case Element => PlaceIsNeeded(ty.elem.ty, true, rest, c);
      case Result => PlaceIsNeeded(ty.ret.ty, false, rest, c);
      case Param(i) =>
        PlaceIsNeeded(ty.params[i].ty, false, rest, c);
        ParamNeedIn(ty.params, i, c);
    }
  }

  lemma {:induction false} FieldNeedsAre(fields: seq<Field>, c: Composite)
    ensures c in FieldNeeds(fields) <==> exists f :: f in fields && c in Needs(f.ty, true)
  {
    hide Needs;
    if fields != [] {
      FieldNeedsAre(fields[1..], c);
      assert fields == [fields[0]] + fields[1..];
    }
  }

  /** `a` holds `b` by value: as a member, or as the element of an array somewhere in one. */
  ghost predicate Holds(g: Graph, a: Composite, b: Composite) {
    exists f, path :: f in Fields(g, a) && OccursAt(f.ty, path, b) && ValueAt(path, true)
  }

  lemma NeedsAreHeld(g: Graph, a: Composite, b: Composite)
    ensures b in BodyNeeds(g, a) <==> Holds(g, a, b)
  {
    FieldNeedsAre(Fields(g, a), b);
    if f :| f in Fields(g, a) && b in Needs(f.ty, true) {
      var path := NeedHasPlace(f.ty, true, b);
      assert OccursAt(f.ty, path, b) && ValueAt(path, true);
    }
    if f, path :| f in Fields(g, a) && OccursAt(f.ty, path, b) && ValueAt(path, true) {
      PlaceIsNeeded(f.ty, true, path, b);
    }
  }

  // ----- Graphs without function types -------------------------------------------------

  /** No function type occurs. */
  ghost predicate FunctionFree(ty: Type) {
    forall path :: At(ty, path).Some? ==> !At(ty, path).value.Function?
  }

  ghost predicate GraphFunctionFree(g: Graph) {
    forall c, f | f in Fields(g, c) :: FunctionFree(f.ty)
  }

  /** Without functions, the last step to a place is to a pointee or to an element. */
  lemma {:induction false} FreePlaces(ty: Type, path: seq<Hop>)
    requires FunctionFree(ty) && At(ty, path).Some? && path != []
    ensures path[|path| - 1] in {Pointee, Element}
    decreases |path|
  {
    var hop, rest := path[0], path[1..];
    assert path == [hop] + rest;
    assert At(ty, []) == Some(ty);
    var below := if hop == Pointee then ty.pointee.ty else ty.elem.ty;
    forall p | At(below, p).Some? ensures !At(below, p).value.Function? {
      AtBelow(ty, hop, p);
    }
    if rest != [] {
      FreePlaces(below, rest);
    }
  }

  lemma FullIsHeld(g: Graph, a: Composite, b: Composite)
    requires GraphFunctionFree(g)
    ensures b in FullOf(BodyEvents(g, a)) <==> Holds(g, a, b)
  {
    hide FunctionFree;
    var e := Event(b, Full);
    assert b in FullOf(BodyEvents(g, a)) <==> e in BodyEvents(g, a);
    FieldEventsAre(Fields(g, a), e);
    if f :| f in Fields(g, a) && e in Events(f.ty, Full) {
      var path := EventHasPlace(f.ty, Full, e);
      if path != [] {
        FreePlaces(f.ty, path);
      }
      assert OccursAt(f.ty, path, b) && ValueAt(path, true);
    }
    if f, path :| f in Fields(g, a) && OccursAt(f.ty, path, b) && ValueAt(path, true) {
      PlaceHasEvent(f.ty, Full, path, b);
    }
  }

  /** `a` holds `b` through `n` composites. */
  ghost predicate HoldsIn(g: Graph, n: nat, a: Composite, b: Composite) {
    if n == 0 then a == b else exists m :: HoldsIn(g, n - 1, a, m) && Holds(g, m, b)
  }

  /** No composite holds itself, at any depth: what C demands of every program. */
  ghost predicate NoSelfContainment(g: Graph) {
    forall n: nat, a | HoldsIn(g, n, a, a) :: n == 0
  }

  lemma {:induction false} ReachesIsHolding(g: Graph, n: nat, a: Composite, b: Composite)
    requires GraphFunctionFree(g)
    ensures ReachesIn(g, n, a, b) <==> HoldsIn(g, n, a, b)
  {
    hide GraphFunctionFree;
    hide Holds;
    hide BodyEvents;
    if n > 0 {
      var k: nat := n - 1;
      forall m ensures ReachesIn(g, k, a, m) <==> HoldsIn(g, k, a, m) {
        ReachesIsHolding(g, k, a, m);
      }
      forall m ensures b in FullOf(BodyEvents(g, m)) <==> Holds(g, m, b) {
        FullIsHeld(g, m, b);
      }
    }
  }

  lemma SortableIsContainment(g: Graph)
    requires GraphFunctionFree(g)
    ensures Sortable(g) <==> NoSelfContainment(g)
  {
    hide GraphFunctionFree;
    hide Holds;
    hide BodyNeeds;
    hide ReachesIn;
    if !Sortable(g) {
      var a :| !SortableAt(g, a);
      var b :| b in BodyNeeds(g, a) && Reaches(g, b, a);
      var n: nat :| ReachesIn(g, n, b, a);
      ReachesIsHolding(g, n, b, a);
      NeedsAreHeld(g, a, b);
      assert HoldsIn(g, n + 1, b, b);
    }
    if !NoSelfContainment(g) {
      var n: nat, a :| HoldsIn(g, n, a, a) && n != 0;
      var m :| HoldsIn(g, n - 1, a, m) && Holds(g, m, a);
      ReachesIsHolding(g, n - 1, a, m);
      NeedsAreHeld(g, m, a);
      assert Reaches(g, a, m) && !SortableAt(g, m);
    }
  }

  /** On graphs without function types, every printing is in order exactly when no composite
      contains itself, whatever the pointers do. */
  lemma ContainmentOrder(g: Graph)
    requires GraphFunctionFree(g)
    ensures NoSelfContainment(g) <==> forall reqs: seq<Request> :: Ordered(g, Printed(g, reqs).decls)
  {
    hide GraphFunctionFree;
    hide NoSelfContainment;
    hide Sortable;
    hide Ordered;
    SortableIsContainment(g);
    OrderTheorem(g);
  }

  // ----- Forward declarations ----------------------------------------------------------

  /** The events, or the body of something they lead to, come across `c` in Forward mode. */
  ghost predicate MetForward(g: Graph, es: seq<Event>, c: Composite) {
    Event(c, Forward) in es || exists a :: Reached(g, es, a) && Event(c, Forward) in BodyEvents(g, a)
  }

  /** What is declared forward has its declaration written. */
  ghost predicate ForwardsWritten(st: State) {
    forall c | c in st.forwarded :: Fwd(c) in st.decls
  }

  lemma {:induction false} RunWrites(g: Graph, st: State, es: seq<Event>)
    requires ForwardsWritten(st)
    ensures ForwardsWritten(Run(g, st, es))
    decreases g.Keys - st.declared, |es|, 0
  {
    if es != [] {
      StepWrites(g, st, es[0]);
      RunWrites(g, Step(g, st, es[0]), es[1..]);
    }
  }

  lemma {:induction false} StepWrites(g: Graph, st: State, e: Event)
    requires ForwardsWritten(st)
    ensures ForwardsWritten(Step(g, st, e))
    decreases g.Keys - st.declared, 0, 1
  {
    if e.mode == Full && e.c !in st.declared {
      RunWrites(g, Started(st, e.c), BodyEvents(g, e.c));
    }
  }

  ghost predicate Covered(st: State, c: Composite) {
    c in st.declared || c in st.forwarded
  }

  /** Everything come across in Forward mode is declared, one way or the other. */
  ghost predicate CoversNew(g: Graph, st: State, es: seq<Event>, r: State) {
    && (forall c | Event(c, Forward) in es :: Covered(r, c))
    && (forall a, c | a in r.declared && a !in st.declared && Event(c, Forward) in BodyEvents(g, a) :: Covered(r, c))
  }

  lemma {:induction false} RunCovers(g: Graph, st: State, es: seq<Event>)
    requires Good(g, st)
    ensures CoversNew(g, st, es, Run(g, st, es))
    decreases g.Keys - st.declared, |es|, 0
  {
    hide Good;
    hide CoversNew;
    if es == [] {
      CoversNothing(g, st);
    } else {
      var mid := Step(g, st, es[0]);
      StepInvariant(g, st, es[0]);
      StepCovers(g, st, es[0]);
      RunInvariant(g, mid, es[1..]);
      RunCovers(g, mid, es[1..]);
      CoversCompose(g, st, es[0], mid, es[1..], Run(g, mid, es[1..]));
      assert es == [es[0]] + es[1..];
    }
  }

  lemma CoversNothing(g: Graph, st: State)
    ensures CoversNew(g, st, [], st)
  {
  }

  lemma CoversCompose(g: Graph, st: State, e: Event, mid: State, es: seq<Event>, r: State)
    requires CoversNew(g, st, [e], mid) && CoversNew(g, mid, es, r) && Later(mid, r)
    ensures CoversNew(g, st, [e] + es, r)
  {
    hide BodyEvents;
    assert forall c | Covered(mid, c) :: Covered(r, c);
    assert forall x | x in [e] + es :: x in [e] || x in es;
  }

  lemma {:induction false} StepCovers(g: Graph, st: State, e: Event)
    requires Good(g, st)
    ensures CoversNew(g, st, [e], Step(g, st, e))
    decreases g.Keys - st.declared, 0, 1
  {
    hide Good;
    assert e.c !in g ==> BodyEvents(g, e.c) == [];
    hide BodyEvents;
    if e.mode == Full && e.c !in st.declared {
      StartedGood(g, st, e.c);
      RunCovers(g, Started(st, e.c), BodyEvents(g, e.c));
    }
  }

  lemma {:induction false} RunMeets(g: Graph, st: State, es: seq<Event>, c: Composite)
    requires Fwd(c) in Run(g, st, es).decls && Fwd(c) !in st.decls
    ensures MetForward(g, es, c)
    decreases g.Keys - st.declared, |es|, 0
  {
    hide BodyEvents;
    hide Reaches;
    var mid, rest := Step(g, st, es[0]), es[1..];
    assert es == [es[0]] + rest;
    FullOfConcat([es[0]], rest);
    if Fwd(c) in mid.decls {
      StepMeets(g, st, es[0], c);
      if Event(c, Forward) !in [es[0]] {
        var a :| Reached(g, [es[0]], a) && Event(c, Forward) in BodyEvents(g, a);
        assert Reached(g, es, a);
      }
    } else {
      RunMeets(g, mid, rest, c);
      if Event(c, Forward) !in rest {
        var a :| Reached(g, rest, a) && Event(c, Forward) in BodyEvents(g, a);
        assert Reached(g, es, a);
      }
    }
  }

  lemma {:induction false} StepMeets(g: Graph, st: State, e: Event, c: Composite)
    requires Fwd(c) in Step(g, st, e).decls && Fwd(c) !in st.decls
    ensures MetForward(g, [e], c)
    decreases g.Keys - st.declared, 0, 1
  {
    assert e.c !in g ==> BodyEvents(g, e.c) == [];
    hide BodyEvents;
    hide Reaches;
    if e.mode == Full && e.c !in st.declared {
      var body := BodyEvents(g, e.c);
      RunMeets(g, Started(st, e.c), body, c);
      assert e in [e] && e.c in FullOf([e]);
      ReachesSelf(g, e.c);
      assert Reached(g, [e], e.c);
      if Event(c, Forward) !in body {
        var a :| Reached(g, body, a) && Event(c, Forward) in BodyEvents(g, a);
        var b :| b in FullOf(body) && Reaches(g, b, a);
        ReachesNext(g, e.c, e.c, b);
        ReachesThrough(g, e.c, b, a);
        assert Reached(g, [e], a);
      }
    } else {
      assert e == Event(c, Forward);
    }
  }

  /** Nothing is declared forward after its definition. */
  ghost predicate ForwardsFirst(decls: seq<Decl>) {
    forall i, j | 0 <= i < j < |decls| && decls[i].Define? :: decls[j] != Fwd(decls[i].c)
  }

  lemma {:induction false} RunForwardsFirst(g: Graph, st: State, es: seq<Event>)
    requires Good(g, st) && ForwardsFirst(st.decls)
    ensures ForwardsFirst(Run(g, st, es).decls)
    decreases g.Keys - st.declared, |es|, 0
  {
    hide Good;
    hide ForwardsFirst;
    if es != [] {
      StepInvariant(g, st, es[0]);
      StepForwardsFirst(g, st, es[0]);
      RunForwardsFirst(g, Step(g, st, es[0]), es[1..]);
    }
  }

  lemma {:induction false} StepForwardsFirst(g: Graph, st: State, e: Event)
    requires Good(g, st) && ForwardsFirst(st.decls)
    ensures ForwardsFirst(Step(g, st, e).decls)
    decreases g.Keys - st.declared, 0, 1
  {
    if e.mode == Full && e.c !in st.declared {
      StartedGood(g, st, e.c);
      RunForwardsFirst(g, Started(st, e.c), BodyEvents(g, e.c));
    }
  }

  /** A composite that is not defined is declared forward exactly when it was come across in
      Forward mode, and one that is defined is never declared forward afterwards. */
  lemma ForwardTheorem(g: Graph, es: seq<Event>, c: Composite)
    ensures var r := Run(g, INIT, es);
            && (Fwd(c) in r.decls ==> MetForward(g, es, c))
            && (MetForward(g, es, c) ==> Fwd(c) in r.decls || c in r.declared)
            && ForwardsFirst(r.decls)
  {
    hide Run;
    hide MetForward;
    hide ForwardsFirst;
    hide Good;
    InitGood(g);
    NothingWritten();
    RunForwardsFirst(g, INIT, es);
    if Fwd(c) in Run(g, INIT, es).decls {
      RunMeets(g, INIT, es, c);
    }
    if MetForward(g, es, c) {
      MetIsCovered(g, es, c);
    }
  }

  lemma NothingWritten()
    ensures ForwardsFirst(INIT.decls) && ForwardsWritten(INIT)
  {
  }

  lemma MetIsCovered(g: Graph, es: seq<Event>, c: Composite)
    requires MetForward(g, es, c)
    ensures var r := Run(g, INIT, es); Fwd(c) in r.decls || c in r.declared
  {
    hide Run;
    hide Reached;
    hide BodyEvents;
    hide Good;
    var r := Run(g, INIT, es);
    InitGood(g);
    NothingWritten();
    RunWrites(g, INIT, es);
    RunCovers(g, INIT, es);
    if Event(c, Forward) !in es {
      var a :| Reached(g, es, a) && Event(c, Forward) in BodyEvents(g, a);
      DefinedIsReached(g, es, a);
    }
    assert Covered(r, c);
  }

  /** `c` occurs in no type but right below a pointer. */
  ghost predicate OnlyPointedAt(g: Graph, reqs: seq<Request>, c: Composite) {
    && (forall r, path | r in reqs && OccursAt(r.ty, path, c) :: ModeAt(path, r.mode) == Forward)
    && (forall a, f, path | f in Fields(g, a) && OccursAt(f.ty, path, c) :: path != [] && path[|path| - 1] == Pointee)
  }

  lemma {:induction false} RequestEventsAre(reqs: seq<Request>, e: Event)
    ensures e in RequestEvents(reqs) <==> exists r :: r in reqs && e in Events(r.ty, r.mode)
  {
    hide Events;
    if reqs != [] {
      RequestEventsAre(reqs[1..], e);
      assert reqs == [reqs[0]] + reqs[1..];
    }
  }

  lemma {:induction false} NotReached(g: Graph, n: nat, a: Composite, b: Composite)
    requires ReachesIn(g, n, a, b) && a != b
    ensures exists m :: b in FullOf(BodyEvents(g, m))
  {
    var m :| ReachesIn(g, n - 1, a, m) && b in FullOf(BodyEvents(g, m));
  }

  /** A composite that occurs only right below pointers is never defined, and it is declared
      forward if a request mentions it. */
  lemma PointeesAreForward(g: Graph, reqs: seq<Request>, c: Composite)
    requires OnlyPointedAt(g, reqs, c)
    ensures var decls := Printed(g, reqs).decls;
            && Define(c) !in decls
            && ((exists r, path :: r in reqs && OccursAt(r.ty, path, c)) ==> Fwd(c) in decls)
  {
    hide Run;
    hide ReachesIn;
    hide BodyEvents;
    hide Events;
    var es, r := RequestEvents(reqs), Printed(g, reqs);
    var full := Event(c, Full);
    if full in es {
      RequestEventsAre(reqs, full);
      var q :| q in reqs && full in Events(q.ty, q.mode);
      var path := EventHasPlace(q.ty, q.mode, full);
      assert false;
    }
    forall m ensures c !in FullOf(BodyEvents(g, m)) {
      NeverFull(g, reqs, c, m);
    }
    DefinedIsReached(g, es, c);
    if Reached(g, es, c) {
      var a :| a in FullOf(es) && Reaches(g, a, c);
      var n: nat :| ReachesIn(g, n, a, c);
      assert a != c;
      NotReached(g, n, a, c);
      assert false;
    }
    assert Define(c) in r.decls ==> c in Defined(r.decls);
    ForwardTheorem(g, es, c);
    if q, path :| q in reqs && OccursAt(q.ty, path, c) {
      PlaceHasEvent(q.ty, q.mode, path, c);
      RequestEventsAre(reqs, Event(c, Forward));
    }
  }

  lemma NeverFull(g: Graph, reqs: seq<Request>, c: Composite, m: Composite)
    requires OnlyPointedAt(g, reqs, c)
    ensures c !in FullOf(BodyEvents(g, m))
  {
    hide Events;
    var full := Event(c, Full);
    FieldEventsAre(Fields(g, m), full);
    if full in BodyEvents(g, m) {
      var f :| f in Fields(g, m) && full in Events(f.ty, Full);
      var path := EventHasPlace(f.ty, Full, full);
      assert false;
    }
  }
}
