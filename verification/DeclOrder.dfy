/** The order in which the type printer declares composites.

    What `print_def` does to the printer's state depends only on the composites it comes
    across and on the mode in which it does, so a printing is a sequence of events. `Run`
    plays events: a Full event on a composite not seen yet plays the events of its fields
    and then emits its definition, a Forward event emits a forward declaration.
 */
module DeclOrder {
  import opened Types
  import opened Declarators

  datatype DeclMode = Full | Forward | NoDecl

  datatype Event = Event(c: Composite, mode: DeclMode)

  /** The composites `print_def` comes across, in order. Below a pointer the mode is
      Forward; array elements, parameters and return types are always Full. */
  function Events(ty: Type, mode: DeclMode): seq<Event>
    decreases ty, 1
  {
    match ty
    case Pointer(p) => Events(p.ty, Forward)
    case Array(e, _) => Events(e.ty, Full)
    case Function(ret, params, _, _, _) => ParamEvents(params) + Events(ret.ty, Full)
    case Comp(c) => [Event(c, mode)]
    case _ => []
  }

  function ParamEvents(params: seq<QualType>): seq<Event>
    decreases params, 0
  {
    if params == [] then []
    else
      var p := params[0];
      assert p.ty < p;
      Events(p.ty, Full) + ParamEvents(params[1..])
  }

  function FieldEvents(fields: seq<Field>): seq<Event> {
    if fields == [] then [] else Events(fields[0].ty, Full) + FieldEvents(fields[1..])
  }

  function BodyEvents(g: Graph, c: Composite): seq<Event> {
    FieldEvents(Fields(g, c))
  }

  // ----- The run ---------------------------------------------------------------------

  datatype Decl = Fwd(c: Composite) | Define(c: Composite)

  /** Tags given so far, composites whose definition was started, composites that were
      forward-declared, and the declarations emitted. */
  datatype State = State(names: Names, declared: set<Composite>, forwarded: set<Composite>, decls: seq<Decl>)

  const INIT := State(map[], {}, {}, [])

  /** A composite gets the number of tags in use as its tag when it is first printed. */
  function Named(st: State, c: Composite): State {
    if c in st.names then st else st.(names := st.names[c := |st.names|])
  }

  function Step(g: Graph, st: State, e: Event): (r: State)
    ensures st.declared <= r.declared
    decreases g.Keys - st.declared, 0, 1
  {
    var c := e.c;
    if e.mode == Full && c !in st.declared then
      var r := Run(g, Started(st, c), BodyEvents(g, c));
      r.(decls := r.decls + [Define(c)])
    else if e.mode == Forward && c !in st.declared && c !in st.forwarded then
      var r := Forwarded(st, c);
      r.(decls := r.decls + [Fwd(c)])
    else
      Named(st, c)
  }

  function Started(st: State, c: Composite): State {
    Named(st, c).(declared := st.declared + {c})
  }

  function Forwarded(st: State, c: Composite): State {
    Named(st, c).(forwarded := st.forwarded + {c})
  }

  function Run(g: Graph, st: State, es: seq<Event>): (r: State)
    ensures st.declared <= r.declared
    decreases g.Keys - st.declared, |es|, 0
  {
    if es == [] then st else Run(g, Step(g, st, es[0]), es[1..])
  }

  lemma {:induction false} RunConcat(g: Graph, st: State, es: seq<Event>, fs: seq<Event>)
    ensures Run(g, st, es + fs) == Run(g, Run(g, st, es), fs)
    decreases |es|
  {
    if es == [] {
      assert es + fs == fs;
    } else {
      assert (es + fs)[1..] == es[1..] + fs;
      RunConcat(g, Step(g, st, es[0]), es[1..], fs);
    }
  }

  // ----- What every run keeps --------------------------------------------------------

  ghost function Defined(decls: seq<Decl>): set<Composite> {
    set d | d in decls && d.Define? :: d.c
  }

  ghost function FullOf(es: seq<Event>): set<Composite> {
    set e | e in es && e.mode == Full :: e.c
  }

  ghost function AllOf(es: seq<Event>): set<Composite> {
    set e | e in es :: e.c
  }

  /** Started but not emitted yet. */
  ghost function Pending(st: State): set<Composite> {
    st.declared - Defined(st.decls)
  }

  ghost predicate Distinct<T>(s: seq<T>) {
    forall i, j | 0 <= i < j < |s| :: s[i] != s[j]
  }

  /** Every tag below the number of tags belongs to exactly one composite. */
  ghost predicate NamesOk(names: Names) {
    Injective(names) && forall c | c in names :: names[c] < |names|
  }

  ghost predicate Good(g: Graph, st: State) {
    && NamesOk(st.names)
    && Distinct(st.decls)
    && (forall d | d in st.decls :: d.c in st.names && d.c in if d.Define? then st.declared else st.forwarded)
    && (forall c | c in Defined(st.decls) :: AllOf(BodyEvents(g, c)) <= st.names.Keys)
  }

  ghost predicate Extends(names: Names, more: Names) {
    forall c | c in names :: c in more && more[c] == names[c]
  }

  /** `r` is a later state than `st`. */
  ghost predicate Later(st: State, r: State) {
    && Extends(st.names, r.names)
    && st.declared <= r.declared && st.forwarded <= r.forwarded
    && st.decls <= r.decls
  }

  lemma NamedGood(g: Graph, st: State, c: Composite)
    requires Good(g, st)
    ensures Good(g, Named(st, c)) && Later(st, Named(st, c)) && c in Named(st, c).names
    ensures Pending(Named(st, c)) == Pending(st)
  {
  }

  lemma StartedGood(g: Graph, st: State, c: Composite)
    requires Good(g, st) && c !in st.declared
    ensures Good(g, Started(st, c)) && Later(st, Started(st, c))
    ensures Pending(Started(st, c)) == Pending(st) + {c}
    ensures c in Started(st, c).names
  {
    NamedGood(g, st, c);
    assert c !in Defined(st.decls);
  }

  lemma EmitGood(g: Graph, st: State, d: Decl)
    requires Good(g, st) && d !in st.decls
    requires d.c in st.names && d.c in if d.Define? then st.declared else st.forwarded
    requires d.Define? ==> AllOf(BodyEvents(g, d.c)) <= st.names.Keys
    ensures var r := st.(decls := st.decls + [d]);
            && Good(g, r) && Later(st, r)
            && Defined(r.decls) == Defined(st.decls) + if d.Define? then {d.c} else {}
  {
  }

  /** What a run guarantees, whatever it plays. */
  ghost predicate RunKeeps(g: Graph, st: State, es: seq<Event>, r: State) {
    && Good(g, r) && Later(st, r)
    && Pending(r) == Pending(st)
    && FullOf(es) <= r.declared && AllOf(es) <= r.names.Keys
    && (forall c | c in r.declared && c !in st.declared :: FullOf(BodyEvents(g, c)) <= r.declared)
  }

  lemma KeepsNothing(g: Graph, st: State)
    requires Good(g, st)
    ensures RunKeeps(g, st, [], st)
  {
  }

  lemma KeepsCompose(g: Graph, st: State, e: Event, mid: State, es: seq<Event>, r: State)
    requires RunKeeps(g, st, [e], mid) && RunKeeps(g, mid, es, r)
    ensures RunKeeps(g, st, [e] + es, r)
  {
    assert e in [e];
    forall c | c in FullOf([e] + es) ensures c in r.declared {
      assert e.mode == Full && c == e.c ==> c in FullOf([e]);
    }
    forall c | c in AllOf([e] + es) ensures c in r.names {
      assert c == e.c ==> c in AllOf([e]);
    }
  }

  /** Emitting the definition of `c` after the events of its fields were played. */
  lemma DefineKeeps(g: Graph, st: State, c: Composite, r: State)
    requires Good(g, st) && c !in st.declared
    requires RunKeeps(g, Started(st, c), BodyEvents(g, c), r)
    ensures RunKeeps(g, st, [Event(c, Full)], r.(decls := r.decls + [Define(c)]))
  {
    StartedGood(g, st, c);
    assert c in Pending(r);
    EmitGood(g, r, Define(c));
  }

  lemma ForwardedGood(g: Graph, st: State, c: Composite)
    requires Good(g, st) && c !in st.forwarded
    ensures Good(g, Forwarded(st, c)) && Later(st, Forwarded(st, c))
    ensures Pending(Forwarded(st, c)) == Pending(st)
    ensures c in Forwarded(st, c).names && Fwd(c) !in st.decls
  {
    NamedGood(g, st, c);
  }

  lemma ForwardKeeps(g: Graph, st: State, c: Composite)
    requires Good(g, st) && c !in st.declared && c !in st.forwarded
    ensures var f := Forwarded(st, c);
            RunKeeps(g, st, [Event(c, Forward)], f.(decls := f.decls + [Fwd(c)]))
  {
    ForwardedGood(g, st, c);
    EmitGood(g, Forwarded(st, c), Fwd(c));
  }

  lemma {:induction false} RunInvariant(g: Graph, st: State, es: seq<Event>)
    requires Good(g, st)
    ensures RunKeeps(g, st, es, Run(g, st, es))
    decreases g.Keys - st.declared, |es|, 0
  {
    hide RunKeeps;
    if es == [] {
      KeepsNothing(g, st);
    } else {
      var mid := Step(g, st, es[0]);
      StepInvariant(g, st, es[0]);
      RunInvariant(g, mid, es[1..]);
      KeepsCompose(g, st, es[0], mid, es[1..], Run(g, mid, es[1..]));
      assert es == [es[0]] + es[1..];
    }
  }

  lemma {:induction false} StepInvariant(g: Graph, st: State, e: Event)
    requires Good(g, st)
    ensures RunKeeps(g, st, [e], Step(g, st, e))
    decreases g.Keys - st.declared, 0, 1
  {
    var c := e.c;
    if e.mode == Full && c !in st.declared {
      var s := Started(st, c);
      StartedGood(g, st, c);
      RunInvariant(g, s, BodyEvents(g, c));
      DefineKeeps(g, st, c, Run(g, s, BodyEvents(g, c)));
    } else if e.mode == Forward && c !in st.declared && c !in st.forwarded {
      ForwardKeeps(g, st, c);
    } else {
      NamedGood(g, st, c);
    }
  }

  // ----- The order -------------------------------------------------------------------

  /** The composites C wants complete where `ty` is declared: the type of a member itself
      (`here`), and the element type of any array in it (sections 6.7.2.1 paragraph 3 and
      6.7.6.2 paragraph 1 of ISO/IEC 9899:2011). */
  function Needs(ty: Type, here: bool): set<Composite>
    decreases ty, 1
  {
    match ty
    case Pointer(p) => Needs(p.ty, false)
    case Array(e, _) => Needs(e.ty, true)
    case Function(ret, params, _, _, _) => ParamNeeds(params) + Needs(ret.ty, false)
    case Comp(c) => if here then {c} else {}
    case _ => {}
  }

  function ParamNeeds(params: seq<QualType>): set<Composite>
    decreases params, 0
  {
    if params == [] then {}
    else
      var p := params[0];
      assert p.ty < p;
      Needs(p.ty, false) + ParamNeeds(params[1..])
  }

  function FieldNeeds(fields: seq<Field>): set<Composite> {
    if fields == [] then {} else Needs(fields[0].ty, true) + FieldNeeds(fields[1..])
  }

  function BodyNeeds(g: Graph, c: Composite): set<Composite> {
    FieldNeeds(Fields(g, c))
  }

  /** Each definition comes after the definitions of all it needs. */
  ghost predicate Ordered(g: Graph, decls: seq<Decl>) {
    forall i | 0 <= i < |decls| && decls[i].Define? ::
      BodyNeeds(g, decls[i].c) <= Defined(decls[..i])
  }

  /** Printing the body of `a` in Full mode leads to `b` in `n` composites. */
  ghost predicate ReachesIn(g: Graph, n: nat, a: Composite, b: Composite) {
    if n == 0 then a == b
    else exists m :: ReachesIn(g, n - 1, a, m) && b in FullOf(BodyEvents(g, m))
  }

  ghost predicate Reaches(g: Graph, a: Composite, b: Composite) {
    exists n: nat :: ReachesIn(g, n, a, b)
  }

  /** A Full event leads to `b`. */
  ghost predicate Reached(g: Graph, es: seq<Event>, b: Composite) {
    exists a :: a in FullOf(es) && Reaches(g, a, b)
  }

  /** Printing what `a` needs does not lead back to `a`. */
  ghost predicate SortableAt(g: Graph, a: Composite) {
    forall b | b in BodyNeeds(g, a) :: !Reaches(g, b, a)
  }

  /** No composite is needed by one that printing it leads to. */
  ghost predicate Sortable(g: Graph) {
    forall a :: SortableAt(g, a)
  }

  /** The same for the part of the graph that some events lead to. */
  ghost predicate SortableFrom(g: Graph, es: seq<Event>) {
    forall a | Reached(g, es, a) :: SortableAt(g, a)
  }

  lemma ReachesSelf(g: Graph, a: Composite)
    ensures Reaches(g, a, a)
  {
    assert ReachesIn(g, 0, a, a);
  }

  lemma ReachesNext(g: Graph, a: Composite, b: Composite, c: Composite)
    requires Reaches(g, a, b) && c in FullOf(BodyEvents(g, b))
    ensures Reaches(g, a, c)
  {
    var n: nat :| ReachesIn(g, n, a, b);
    assert ReachesIn(g, n + 1, a, c);
  }

  lemma {:induction false} ReachesStays(g: Graph, n: nat, a: Composite, b: Composite, s: set<Composite>)
    requires ReachesIn(g, n, a, b) && a in s
    requires forall c | c in s :: FullOf(BodyEvents(g, c)) <= s
    ensures b in s
  {
    if n > 0 {
      var m :| ReachesIn(g, n - 1, a, m) && b in FullOf(BodyEvents(g, m));
      ReachesStays(g, n - 1, a, m, s);
    }
  }

  lemma {:induction false} ReachesTrans(g: Graph, n: nat, a: Composite, b: Composite, c: Composite)
    requires Reaches(g, a, b) && ReachesIn(g, n, b, c)
    ensures Reaches(g, a, c)
  {
    if n > 0 {
      var m :| ReachesIn(g, n - 1, b, m) && c in FullOf(BodyEvents(g, m));
      ReachesTrans(g, n - 1, a, b, m);
      ReachesNext(g, a, m, c);
    }
  }

  lemma FullOfConcat(es: seq<Event>, fs: seq<Event>)
    ensures FullOf(es + fs) == FullOf(es) + FullOf(fs)
    ensures AllOf(es + fs) == AllOf(es) + AllOf(fs)
  {
  }

  lemma {:induction false} NeedsAreFull(ty: Type, here: bool, mode: DeclMode)
    requires here ==> mode == Full
    ensures Needs(ty, here) <= FullOf(Events(ty, mode))
    decreases ty, 1
  {
    match ty
    case Pointer(p) => NeedsAreFull(p.ty, false, Forward);
    case Array(e, _) => NeedsAreFull(e.ty, true, Full);
    case Function(ret, params, _, _, _) =>
      ParamNeedsAreFull(params);
      NeedsAreFull(ret.ty, false, Full);
      FullOfConcat(ParamEvents(params), Events(ret.ty, Full));
    case Comp(c) => assert Event(c, mode) in Events(ty, mode);
    case _ =>
  }

  lemma {:induction false} ParamNeedsAreFull(params: seq<QualType>)
    ensures ParamNeeds(params) <= FullOf(ParamEvents(params))
    decreases params, 0
  {
    if params != [] {
      var p := params[0];
      assert p.ty < p;
      NeedsAreFull(p.ty, false, Full);
      ParamNeedsAreFull(params[1..]);
      FullOfConcat(Events(p.ty, Full), ParamEvents(params[1..]));
    }
  }

  lemma {:induction false} FieldNeedsAreFull(fields: seq<Field>)
    ensures FieldNeeds(fields) <= FullOf(FieldEvents(fields))
  {
    if fields != [] {
      NeedsAreFull(fields[0].ty, true, Full);
      FieldNeedsAreFull(fields[1..]);
      FullOfConcat(Events(fields[0].ty, Full), FieldEvents(fields[1..]));
    }
  }

  /** The composites whose text is being built all lead to the composites played next. */
  ghost predicate PendingLeadTo(g: Graph, st: State, es: seq<Event>) {
    forall a, b | a in Pending(st) && b in FullOf(es) :: Reaches(g, a, b)
  }

  lemma {:induction false} RunOrdered(g: Graph, st: State, es: seq<Event>)
    requires SortableFrom(g, es) && Good(g, st) && Ordered(g, st.decls) && PendingLeadTo(g, st, es)
    ensures Ordered(g, Run(g, st, es).decls)
    decreases g.Keys - st.declared, |es|, 0
  {
    if es != [] {
      assert es == [es[0]] + es[1..];
      FullOfConcat([es[0]], es[1..]);
      SortableParts(g, [es[0]], es[1..]);
      StepOrdered(g, st, es[0]);
      StepInvariant(g, st, es[0]);
      RunOrdered(g, Step(g, st, es[0]), es[1..]);
    }
  }

  lemma {:induction false} StepOrdered(g: Graph, st: State, e: Event)
    requires SortableFrom(g, [e]) && Good(g, st) && Ordered(g, st.decls) && PendingLeadTo(g, st, [e])
    ensures Ordered(g, Step(g, st, e).decls)
    decreases g.Keys - st.declared, 0, 1
  {
    hide Good;
    hide Reaches;
    hide Ordered;
    var c := e.c;
    if e.mode == Full && c !in st.declared {
      var s, body := Started(st, c), BodyEvents(g, c);
      StartedGood(g, st, c);
      StartedLeadTo(g, st, c);
      SortableBelow(g, c);
      RunOrdered(g, s, body);
      RunInvariant(g, s, body);
      var r := Run(g, s, body);
      NeedsAreDefined(g, st, c, r);
      AppendOrdered(g, r.decls, Define(c));
    } else if e.mode == Forward && c !in st.declared && c !in st.forwarded {
      AppendOrdered(g, st.decls, Fwd(c));
    }
  }

  lemma SortableParts(g: Graph, es: seq<Event>, fs: seq<Event>)
    requires SortableFrom(g, es + fs)
    ensures SortableFrom(g, es) && SortableFrom(g, fs)
  {
    hide Reaches;
    hide SortableAt;
    FullOfConcat(es, fs);
    forall a | Reached(g, es, a) || Reached(g, fs, a) ensures SortableAt(g, a) {
      assert Reached(g, es + fs, a);
    }
  }

  lemma SortableBelow(g: Graph, c: Composite)
    requires SortableFrom(g, [Event(c, Full)])
    ensures SortableAt(g, c) && SortableFrom(g, BodyEvents(g, c))
  {
    hide Reaches;
    hide SortableAt;
    var e, body := Event(c, Full), BodyEvents(g, c);
    assert e in [e] && c in FullOf([e]);
    ReachesSelf(g, c);
    assert Reached(g, [e], c);
    forall b | Reached(g, body, b) ensures SortableAt(g, b) {
      var a :| a in FullOf(body) && Reaches(g, a, b);
      ReachesNext(g, c, c, a);
      ReachesThrough(g, c, a, b);
      assert Reached(g, [e], b);
    }
  }

  lemma ReachesThrough(g: Graph, a: Composite, b: Composite, c: Composite)
    requires Reaches(g, a, b) && Reaches(g, b, c)
    ensures Reaches(g, a, c)
  {
    var n: nat :| ReachesIn(g, n, b, c);
    ReachesTrans(g, n, a, b, c);
  }

  /** What `c` needs was started before, and by sortability not by anything still pending. */
  lemma NeedsAreDefined(g: Graph, st: State, c: Composite, r: State)
    requires SortableAt(g, c) && Good(g, st) && c !in st.declared && PendingLeadTo(g, st, [Event(c, Full)])
    requires RunKeeps(g, Started(st, c), BodyEvents(g, c), r)
    ensures BodyNeeds(g, c) <= Defined(r.decls)
  {
    hide Good;
    hide Reaches;
    StartedGood(g, st, c);
    FieldNeedsAreFull(Fields(g, c));
    ReachesSelf(g, c);
    var e := Event(c, Full);
    assert e in [e] && c in FullOf([e]);
    forall b | b in BodyNeeds(g, c) ensures b in Defined(r.decls) {
      assert b !in Pending(r) by {
        assert forall a | a in Pending(st) + {c} :: Reaches(g, a, c);
      }
    }
  }

  lemma StartedLeadTo(g: Graph, st: State, c: Composite)
    requires Good(g, st) && c !in st.declared && PendingLeadTo(g, st, [Event(c, Full)])
    ensures PendingLeadTo(g, Started(st, c), BodyEvents(g, c))
  {
    StartedGood(g, st, c);
    forall a, b | a in Pending(Started(st, c)) && b in FullOf(BodyEvents(g, c))
      ensures Reaches(g, a, b)
    {
      assert ReachesIn(g, 0, c, c);
      assert Event(c, Full) in [Event(c, Full)] && c in FullOf([Event(c, Full)]);
      assert Reaches(g, a, c);
      ReachesNext(g, a, c, b);
    }
  }

  lemma AppendOrdered(g: Graph, decls: seq<Decl>, d: Decl)
    requires Ordered(g, decls) && (d.Define? ==> BodyNeeds(g, d.c) <= Defined(decls))
    ensures Ordered(g, decls + [d])
  {
    forall i | 0 <= i <= |decls| ensures (decls + [d])[..i] == decls[..i] {
    }
    assert decls[..|decls|] == decls;
  }

  // ----- What is defined ---------------------------------------------------------------

  /** A run starts no composite that its Full events do not lead to. */
  lemma {:induction false} RunStartsReached(g: Graph, st: State, es: seq<Event>, b: Composite)
    requires b in Run(g, st, es).declared && b !in st.declared
    ensures Reached(g, es, b)
    decreases g.Keys - st.declared, |es|, 0
  {
    var mid := Step(g, st, es[0]);
    assert es == [es[0]] + es[1..];
    FullOfConcat([es[0]], es[1..]);
    if b in mid.declared {
      StepStartsReached(g, st, es[0], b);
      assert es[0] in [es[0]];
    } else {
      RunStartsReached(g, mid, es[1..], b);
    }
  }

  lemma {:induction false} StepStartsReached(g: Graph, st: State, e: Event, b: Composite)
    requires b in Step(g, st, e).declared && b !in st.declared
    ensures e.mode == Full && Reaches(g, e.c, b)
    decreases g.Keys - st.declared, 0, 1
  {
    ReachesSelf(g, e.c);
    if b != e.c {
      var body := BodyEvents(g, e.c);
      RunStartsReached(g, Started(st, e.c), body, b);
      var a :| a in FullOf(body) && Reaches(g, a, b);
      ReachesNext(g, e.c, e.c, a);
      ReachesThrough(g, e.c, a, b);
    }
  }

  /** From the beginning, what was started has been defined. */
  lemma DefinedIsDeclared(g: Graph, es: seq<Event>)
    ensures var r := Run(g, INIT, es); Defined(r.decls) == r.declared
  {
    hide Run;
    var r := Run(g, INIT, es);
    RunInvariant(g, INIT, es);
    assert Pending(INIT) == {};
    forall c | c in Defined(r.decls) ensures c in r.declared {
      assert Define(c) in r.decls;
    }
    forall c | c in r.declared ensures c in Defined(r.decls) {
      assert c !in Pending(r);
    }
  }

  /** What is started from the beginning is closed under Full printing. */
  lemma DeclaredIsClosed(g: Graph, es: seq<Event>)
    ensures var r := Run(g, INIT, es);
            FullOf(es) <= r.declared && forall c | c in r.declared :: FullOf(BodyEvents(g, c)) <= r.declared
  {
    hide Run;
    hide FullOf;
    hide BodyEvents;
    hide Good;
    InitGood(g);
    RunInvariant(g, INIT, es);
    assert INIT.declared == {};
  }

  lemma InitGood(g: Graph)
    ensures Good(g, INIT) && Pending(INIT) == {} && Ordered(g, INIT.decls)
  {
  }

  /** From the beginning, exactly what the Full events lead to is defined. */
  lemma DefinedIsReached(g: Graph, es: seq<Event>, b: Composite)
    ensures var r := Run(g, INIT, es);
            Defined(r.decls) == r.declared && (b in r.declared <==> Reached(g, es, b))
  {
    hide Run;
    hide ReachesIn;
    hide Defined;
    hide BodyEvents;
    hide FullOf;
    var r := Run(g, INIT, es);
    DefinedIsDeclared(g, es);
    DeclaredIsClosed(g, es);
    if b in r.declared {
      RunStartsReached(g, INIT, es, b);
    }
    if a :| a in FullOf(es) && Reaches(g, a, b) {
      var n: nat :| ReachesIn(g, n, a, b);
      ReachesStays(g, n, a, b, r.declared);
    }
  }

  // ----- Whole runs of the printer ---------------------------------------------------

  /** An outermost call of `print_def`. */
  datatype Request = Request(ty: Type, mode: DeclMode)

  function RequestEvents(reqs: seq<Request>): seq<Event> {
    if reqs == [] then [] else Events(reqs[0].ty, reqs[0].mode) + RequestEvents(reqs[1..])
  }

  function Printed(g: Graph, reqs: seq<Request>): State {
    Run(g, INIT, RequestEvents(reqs))
  }

  /** On every graph, cyclic or not, and after any outermost calls: exactly the composites
      that the calls lead to in Full mode are defined, once; nothing is declared forward
      twice; and no two composites share a tag. */
  lemma EveryPrinting(g: Graph, reqs: seq<Request>)
    ensures var r := Printed(g, reqs);
            && Distinct(r.decls)
            && Defined(r.decls) == r.declared
            && (forall b :: b in Defined(r.decls) <==> Reached(g, RequestEvents(reqs), b))
            && NamesOk(r.names)
  {
    hide Run;
    hide Reached;
    RunInvariant(g, INIT, RequestEvents(reqs));
    forall b ensures var r := Printed(g, reqs);
      Defined(r.decls) == r.declared && (b in r.declared <==> Reached(g, RequestEvents(reqs), b))
    {
      DefinedIsReached(g, RequestEvents(reqs), b);
    }
  }

  /** A tag never changes and a declaration is never withdrawn by later calls. */
  lemma LaterCallsOnlyAdd(g: Graph, reqs: seq<Request>, more: seq<Request>)
    ensures Later(Printed(g, reqs), Printed(g, reqs + more))
  {
    RequestEventsConcat(reqs, more);
    RunConcat(g, INIT, RequestEvents(reqs), RequestEvents(more));
    RunInvariant(g, INIT, RequestEvents(reqs));
    RunInvariant(g, Printed(g, reqs), RequestEvents(more));
  }

  lemma {:induction false} RequestEventsConcat(reqs: seq<Request>, more: seq<Request>)
    ensures RequestEvents(reqs + more) == RequestEvents(reqs) + RequestEvents(more)
  {
    if reqs == [] {
      assert reqs + more == more;
    } else {
      assert (reqs + more)[1..] == reqs[1..] + more;
      RequestEventsConcat(reqs[1..], more);
    }
  }

  /** Only the part of the graph that is printed matters. */
  lemma SortableIsOrdered(g: Graph, reqs: seq<Request>)
    requires SortableFrom(g, RequestEvents(reqs))
    ensures Ordered(g, Printed(g, reqs).decls)
  {
    assert Pending(INIT) == {};
    RunOrdered(g, INIT, RequestEvents(reqs));
  }

  /** If `a` needs `b` and printing `b` leads to `a`, asking for `b` first defines `a`
      before `b`. */
  lemma UnsortableIsDisordered(g: Graph, a: Composite, b: Composite)
    requires b in BodyNeeds(g, a) && Reaches(g, b, a)
    ensures !Ordered(g, Printed(g, [Request(Comp(b), Full)]).decls)
  {
    var reqs := [Request(Comp(b), Full)];
    hide Run;
    hide BodyNeeds;
    OneRequest(g, b);
    EveryPrinting(g, reqs);
    assert b in FullOf(RequestEvents(reqs)) && Reached(g, RequestEvents(reqs), a);
    DefinedLast(g, Printed(g, reqs).decls, a, b);
  }

  lemma OneRequest(g: Graph, b: Composite)
    ensures RequestEvents([Request(Comp(b), Full)]) == [Event(b, Full)]
    ensures FullOf([Event(b, Full)]) == {b}
    ensures var decls := Printed(g, [Request(Comp(b), Full)]).decls;
            decls != [] && decls[|decls| - 1] == Define(b)
  {
    var reqs, es := [Request(Comp(b), Full)], [Event(b, Full)];
    assert RequestEvents(reqs) == es by { assert reqs[1..] == []; }
    assert es[0] in es;
    assert Printed(g, reqs) == Run(g, Step(g, INIT, es[0]), es[1..]);
  }

  lemma DefinedLast(g: Graph, decls: seq<Decl>, a: Composite, b: Composite)
    requires Distinct(decls) && decls != [] && decls[|decls| - 1] == Define(b)
    requires Define(a) in decls && b in BodyNeeds(g, a)
    ensures !Ordered(g, decls)
  {
    var i :| 0 <= i < |decls| && decls[i] == Define(a);
    assert forall j | 0 <= j < i :: decls[j] != Define(b);
    assert b !in Defined(decls[..i]);
  }

  /** The printer emits every definition after all it needs, whatever it is asked, exactly
      on the sortable graphs. */
  lemma OrderTheorem(g: Graph)
    ensures Sortable(g) <==> forall reqs: seq<Request> :: Ordered(g, Printed(g, reqs).decls)
  {
    if Sortable(g) {
      forall reqs: seq<Request> ensures Ordered(g, Printed(g, reqs).decls) {
        SortableIsOrdered(g, reqs);
      }
    } else {
      var a :| !SortableAt(g, a);
      var b :| b in BodyNeeds(g, a) && Reaches(g, b, a);
      UnsortableIsDisordered(g, a, b);
    }
  }
}
