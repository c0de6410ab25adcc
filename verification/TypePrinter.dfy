/** The type printer: a recursive walk that writes the text of a type while it names
    composites and appends their declarations to a stream of its own.
 */
module TypePrinting {
  import opened Types
  import opened Declarators
  import opened DeclOrder

  // ----- The text of the declarations ------------------------------------------------

  function FieldsText(names: Names, fields: seq<Field>): seq<Token> {
    if fields == [] then []
    else
      var n := |fields| - 1;
      FieldsText(names, fields[..n]) + Text(names, fields[n].ty, [Id(FieldName(n))]) + [Semi]
  }

  function DeclText(g: Graph, names: Names, d: Decl): seq<Token> {
    var head := [KwComposite(d.c.kind), Tag(TagOf(names, d.c))];
    match d
    case Fwd(_) => head + [Semi]
    case Define(c) => head + [LBrace] + FieldsText(names, Fields(g, c)) + [RBrace, Semi]
  }

  function DeclsText(g: Graph, names: Names, decls: seq<Decl>): seq<Token> {
    if decls == [] then []
    else
      var n := |decls| - 1;
      DeclsText(g, names, decls[..n]) + DeclText(g, names, decls[n])
  }

  // ----- Text does not change when more composites are named ---------------------------

  lemma {:induction false} TextStable(names: Names, more: Names, ty: Type, d: seq<Token>)
    requires Extends(names, more) && Mentions(ty) <= names.Keys
    ensures Text(names, ty, d) == Text(more, ty, d)
    decreases ty, 1
  {
    match ty
    case Pointer(p) => TextStable(names, more, p.ty, PtrDecl(d));
    case Array(e, n) => TextStable(names, more, e.ty, ArrDecl(d, n));
    case Function(ret, params, cc, v, _) =>
      ParamsTextStable(names, more, params, v);
      TextStable(names, more, ret.ty, FunDecl(cc, d, ParamsText(names, params, v)));
    case _ =>
  }

  lemma {:induction false} ParamsTextStable(names: Names, more: Names, params: seq<QualType>, variadic: bool)
    requires Extends(names, more) && MentionsAll(params) <= names.Keys
    ensures ParamsText(names, params, variadic) == ParamsText(more, params, variadic)
    decreases params, 0
  {
    if params != [] {
      var p := params[0];
      assert p.ty < p;
      TextStable(names, more, p.ty, []);
      ParamsTextStable(names, more, params[1..], variadic);
    }
  }

  lemma {:induction false} EventsAreMentions(ty: Type, mode: DeclMode)
    ensures AllOf(Events(ty, mode)) == Mentions(ty)
    decreases ty, 1
  {
    match ty
    case Pointer(p) => EventsAreMentions(p.ty, Forward);
    case Array(e, _) => EventsAreMentions(e.ty, Full);
    case Function(ret, params, _, _, _) =>
      ParamEventsAreMentions(params);
      EventsAreMentions(ret.ty, Full);
      FullOfConcat(ParamEvents(params), Events(ret.ty, Full));
    case Comp(c) => assert Event(c, mode) in Events(ty, mode);
    case _ =>
  }

  lemma {:induction false} ParamEventsAreMentions(params: seq<QualType>)
    ensures AllOf(ParamEvents(params)) == MentionsAll(params)
    decreases params, 0
  {
    if params != [] {
      var p := params[0];
      assert p.ty < p;
      EventsAreMentions(p.ty, Full);
      ParamEventsAreMentions(params[1..]);
      FullOfConcat(Events(p.ty, Full), ParamEvents(params[1..]));
    }
  }

  lemma {:induction false} FieldEventsSnoc(fields: seq<Field>)
    requires fields != []
    ensures var n := |fields| - 1;
            FieldEvents(fields) == FieldEvents(fields[..n]) + Events(fields[n].ty, Full)
  {
    hide Events;
    var n := |fields| - 1;
    if n == 0 {
      assert fields[..n] == [] && fields[1..] == [];
    } else {
      var first, mid, last := Events(fields[0].ty, Full), FieldEvents(fields[..n][1..]), Events(fields[n].ty, Full);
      assert FieldEvents(fields[1..]) == mid + last by {
        FieldEventsSnoc(fields[1..]);
        assert fields[1..][..n - 1] == fields[..n][1..];
      }
      assert FieldEvents(fields[..n]) == first + mid;
    }
  }

  lemma {:induction false} FieldsTextStable(names: Names, more: Names, fields: seq<Field>)
    requires Extends(names, more) && AllOf(FieldEvents(fields)) <= names.Keys
    ensures FieldsText(names, fields) == FieldsText(more, fields)
  {
    if fields != [] {
      var n := |fields| - 1;
      FieldEventsSnoc(fields);
      FullOfConcat(FieldEvents(fields[..n]), Events(fields[n].ty, Full));
      EventsAreMentions(fields[n].ty, Full);
      FieldsTextStable(names, more, fields[..n]);
      TextStable(names, more, fields[n].ty, [Id(FieldName(n))]);
    }
  }

  /** Every declaration of the list can be written with `names`. */
  ghost predicate Writable(g: Graph, names: Names, decls: seq<Decl>) {
    forall d | d in decls :: d.c in names && (d.Define? ==> AllOf(BodyEvents(g, d.c)) <= names.Keys)
  }

  lemma {:induction false} DeclsTextStable(g: Graph, names: Names, more: Names, decls: seq<Decl>)
    requires Extends(names, more) && Writable(g, names, decls)
    ensures DeclsText(g, names, decls) == DeclsText(g, more, decls)
  {
    if decls != [] {
      var n := |decls| - 1;
      DeclsTextStable(g, names, more, decls[..n]);
      if decls[n].Define? {
        FieldsTextStable(names, more, Fields(g, decls[n].c));
      }
    }
  }

  /** A parameter list as the loop of `print_def` writes it: each but the last with a comma. */
  function CommaEach(names: Names, params: seq<QualType>): seq<Token> {
    if params == [] then []
    else
      var n := |params| - 1;
      CommaEach(names, params[..n]) + Text(names, params[n].ty, []) + [Comma]
  }

  lemma CommaEachNone(names: Names)
    ensures CommaEach(names, []) == []
  {
  }

  lemma CommaEachSnoc(names: Names, params: seq<QualType>)
    requires params != []
    ensures var n := |params| - 1;
            CommaEach(names, params) == CommaEach(names, params[..n]) + Text(names, params[n].ty, []) + [Comma]
  {
  }

  lemma Regroup(a: seq<Token>, b: seq<Token>, c: seq<Token>, d: seq<Token>)
    ensures a + b + c + d == a + (b + c + d)
  {
  }

  lemma {:induction false} CommaEachCons(names: Names, params: seq<QualType>)
    requires params != []
    ensures CommaEach(names, params) == Text(names, params[0].ty, []) + [Comma] + CommaEach(names, params[1..])
  {
    hide Text;
    hide CommaEach;
    var n, rest := |params| - 1, params[1..];
    CommaEachNone(names);
    CommaEachSnoc(names, params);
    if n == 0 {
      assert params[..0] == [] && rest == [];
    } else {
      CommaEachCons(names, params[..n]);
      assert params[..n][1..] == rest[..n - 1] && rest[n - 1] == params[n];
      CommaEachSnoc(names, rest);
      Regroup(Text(names, params[0].ty, []) + [Comma], CommaEach(names, rest[..n - 1]), Text(names, params[n].ty, []), [Comma]);
    }
  }

  lemma {:induction false} ParamsTextSplit(names: Names, params: seq<QualType>, variadic: bool)
    requires params != []
    ensures var n := |params| - 1;
            ParamsText(names, params, variadic) ==
            CommaEach(names, params[..n]) + Text(names, params[n].ty, []) + if variadic then [Comma, Ellipsis] else []
  {
    hide Text;
    var n := |params| - 1;
    if n == 0 {
      assert params[..n] == [];
    } else {
      var head, mid := Text(names, params[0].ty, []), CommaEach(names, params[1..][..n - 1]);
      var last := Text(names, params[n].ty, []);
      var dots: seq<Token> := if variadic then [Comma, Ellipsis] else [];
      var rest := ParamsText(names, params[1..], variadic);
      assert rest == mid + last + dots by { ParamsTextSplit(names, params[1..], variadic); }
      assert CommaEach(names, params[..n]) == head + [Comma] + mid by {
        CommaEachCons(names, params[..n]);
        assert params[..n][1..] == params[1..][..n - 1];
      }
      assert ParamsText(names, params, variadic) == head + [Comma] + rest;
    }
  }

  lemma ParamEventsCons(params: seq<QualType>)
    ensures ParamEvents(params) == if params == [] then [] else Events(params[0].ty, Full) + ParamEvents(params[1..])
  {
  }

  lemma {:induction false} ParamEventsSnoc(params: seq<QualType>)
    requires params != []
    ensures var n := |params| - 1;
            ParamEvents(params) == ParamEvents(params[..n]) + Events(params[n].ty, Full)
  {
    hide Events;
    hide ParamEvents;
    var n, rest := |params| - 1, params[1..];
    ParamEventsCons(params);
    ParamEventsCons(params[..n]);
    if n == 0 {
      assert params[..n] == [] && rest == [];
      ParamEventsCons(rest);
    } else {
      ParamEventsSnoc(rest);
      assert rest[..n - 1] == params[..n][1..] && rest[n - 1] == params[n];
      var first, mid, last := Events(params[0].ty, Full), ParamEvents(rest[..n - 1]), Events(params[n].ty, Full);
      assert first + (mid + last) == first + mid + last;
    }
  }

  lemma {:induction false} CommaEachStable(names: Names, more: Names, params: seq<QualType>)
    requires Extends(names, more) && AllOf(ParamEvents(params)) <= names.Keys
    ensures CommaEach(names, params) == CommaEach(more, params)
  {
    if params != [] {
      var n := |params| - 1;
      ParamEventsSnoc(params);
      FullOfConcat(ParamEvents(params[..n]), Events(params[n].ty, Full));
      EventsAreMentions(params[n].ty, Full);
      CommaEachStable(names, more, params[..n]);
      TextStable(names, more, params[n].ty, []);
    }
  }

  // ----- One call after another --------------------------------------------------------

  lemma RunOne(g: Graph, st: State, e: Event)
    ensures Run(g, st, [e]) == Step(g, st, e)
  {
    assert [e][1..] == [];
  }

  lemma ParamPrinted(g: Graph, st: State, ps: seq<QualType>, p: QualType)
    requires Good(g, st)
    ensures var mid := Run(g, st, ParamEvents(ps));
            var r := Run(g, mid, Events(p.ty, Full));
            && r == Run(g, st, ParamEvents(ps + [p]))
            && CommaEach(mid.names, ps) == CommaEach(r.names, ps)
            && CommaEach(r.names, ps + [p]) == CommaEach(mid.names, ps) + Text(r.names, p.ty, []) + [Comma]
  {
    var mid := Run(g, st, ParamEvents(ps));
    var all := ps + [p];
    ParamEventsSnoc(all);
    assert all[..|ps|] == ps && all[|ps|] == p;
    RunConcat(g, st, ParamEvents(ps), Events(p.ty, Full));
    RunInvariant(g, st, ParamEvents(ps));
    RunInvariant(g, mid, Events(p.ty, Full));
    CommaEachStable(mid.names, Run(g, mid, Events(p.ty, Full)).names, ps);
  }

  lemma ParamsPrinted(g: Graph, st: State, params: seq<QualType>, variadic: bool, es: seq<Event>)
    requires Good(g, st)
    ensures var mid := Run(g, st, ParamEvents(params));
            var r := Run(g, mid, es);
            && r == Run(g, st, ParamEvents(params) + es)
            && ParamsText(mid.names, params, variadic) == ParamsText(r.names, params, variadic)
  {
    var mid := Run(g, st, ParamEvents(params));
    RunConcat(g, st, ParamEvents(params), es);
    RunInvariant(g, st, ParamEvents(params));
    RunInvariant(g, mid, es);
    ParamEventsAreMentions(params);
    ParamsTextStable(mid.names, Run(g, mid, es).names, params, variadic);
  }

  lemma FieldPrinted(g: Graph, st: State, fs: seq<Field>, f: Field)
    requires Good(g, st)
    ensures var mid := Run(g, st, FieldEvents(fs));
            var r := Run(g, mid, Events(f.ty, Full));
            && r == Run(g, st, FieldEvents(fs + [f]))
            && Extends(mid.names, r.names)
            && FieldsText(r.names, fs + [f])
            == FieldsText(mid.names, fs) + Text(r.names, f.ty, [Id(FieldName(|fs|))]) + [Semi]
  {
    var mid := Run(g, st, FieldEvents(fs));
    var all := fs + [f];
    FieldEventsSnoc(all);
    assert all[..|fs|] == fs && all[|fs|] == f;
    RunConcat(g, st, FieldEvents(fs), Events(f.ty, Full));
    RunInvariant(g, st, FieldEvents(fs));
    RunInvariant(g, mid, Events(f.ty, Full));
    FieldsTextStable(mid.names, Run(g, mid, Events(f.ty, Full)).names, fs);
  }

  lemma DeclsTextSnoc(g: Graph, names: Names, decls: seq<Decl>, d: Decl)
    ensures DeclsText(g, names, decls + [d]) == DeclsText(g, names, decls) + DeclText(g, names, d)
  {
    assert (decls + [d])[..|decls|] == decls;
  }

  /** The state after the definition of `c` is appended. */
  lemma DefineStep(g: Graph, st: State, c: Composite)
    requires Good(g, st) && c !in st.declared
    ensures var s := st.(declared := st.declared + {c});
            var r := Run(g, Named(s, c), BodyEvents(g, c));
            var t := r.(decls := r.decls + [Define(c)]);
            && Good(g, s) && Good(g, t)
            && Step(g, st, Event(c, Full)) == t == Named(t, c)
            && DeclsText(g, s.names, s.decls) == DeclsText(g, st.names, st.decls)
            && DeclsText(g, t.names, t.decls) == DeclsText(g, r.names, r.decls) + DeclText(g, r.names, Define(c))
  {
    var s := st.(declared := st.declared + {c});
    assert Named(s, c) == Started(st, c);
    var r := Run(g, Started(st, c), BodyEvents(g, c));
    StepInvariant(g, st, Event(c, Full));
    DeclsTextSnoc(g, r.names, r.decls, Define(c));
    assert Event(c, Full) in [Event(c, Full)];
  }

  lemma ForwardStep(g: Graph, st: State, c: Composite)
    requires Good(g, st) && c !in st.declared && c !in st.forwarded
    ensures var s := st.(forwarded := st.forwarded + {c});
            var r := Named(s, c);
            var t := r.(decls := r.decls + [Fwd(c)]);
            && Good(g, s) && Good(g, t)
            && Step(g, st, Event(c, Forward)) == t == Named(t, c)
            && DeclsText(g, t.names, t.decls) == DeclsText(g, r.names, r.decls) + DeclText(g, r.names, Fwd(c))
  {
    var s := st.(forwarded := st.forwarded + {c});
    var r := Named(s, c);
    assert r == Forwarded(st, c);
    ForwardKeeps(g, st, c);
    DeclsTextSnoc(g, r.names, r.decls, Fwd(c));
  }

  // ----- The printer -----------------------------------------------------------------

  class TypePrinter {
    const g: Graph
    var namedTys: Names
    var declared: set<Composite>
    var forwardDeclared: set<Composite>
    var decls: seq<Token>
    /** The declarations written to `decls`. */
    ghost var order: seq<Decl>

    ghost function St(): State
      reads this
    {
      State(namedTys, declared, forwardDeclared, order)
    }

    /** The stream holds whole declarations, each written with the tags in use now. */
    ghost predicate Valid()
      reads this
    {
      Good(g, St()) && decls == DeclsText(g, namedTys, order)
    }

    constructor (g: Graph)
      ensures Valid() && St() == INIT && this.g == g
    {
      this.g := g;
      namedTys, declared, forwardDeclared, decls, order := map[], {}, {}, [], [];
    }

    /** Writes `ty` around the declarator `name`; an empty `name` is the source's null. */
    method PrintDef(ty: Type, mode: DeclMode, name: seq<Token>) returns (out: seq<Token>)
      requires Valid()
      modifies this
      ensures Valid()
      ensures St() == Run(g, old(St()), Events(ty, mode))
      ensures out == Text(namedTys, ty, name)
      decreases g.Keys - declared, ty, 4
    {
      hide Good;
      hide DeclsText;
      ghost var st := St();
      match ty
      case Void =>
        out := Kws([WVoid]) + name;
      case Basic(k) =>
        out := Kws(SpecWords(k)) + name;
      case Enum(_) =>
        out := Kws(SpecWords(Int)) + name;
      case Pointer(p) =>
        out := PrintDef(p.ty, Forward, [LParen, Star] + name + [RParen]);
      case Array(e, n) =>
        out := PrintDef(e.ty, Full, name + [LBracket, Num(n), RBracket]);
      case Function(ret, params, cc, variadic, _) =>
        var ps := PrintParams(params, variadic);
        out := PrintDef(ret.ty, Full, [LParen] + AttrTokens(cc) + name + [RParen, LParen] + ps + [RParen]);
        ParamsPrinted(g, st, params, variadic, Events(ret.ty, Full));
      case Comp(c) =>
        out := PrintComposite(c, mode);
        out := out + name;
        RunOne(g, st, Event(c, mode));
    }

    /** The struct and union case: declare it as the mode says, then write its tag. */
    method PrintComposite(c: Composite, mode: DeclMode) returns (out: seq<Token>)
      requires Valid()
      modifies this
      ensures Valid()
      ensures St() == Step(g, old(St()), Event(c, mode))
      ensures out == [KwComposite(c.kind), Tag(TagOf(namedTys, c))]
      decreases g.Keys - declared, Comp(c), 3
    {
      hide Good;
      hide DeclsText;
      if mode == Full {
        AddDecl(c);
      } else if mode == Forward {
        AddForwardDecl(c);
      }
      out := PrintTag(c);
    }

    /** What is left of `print_def` on a composite in mode None: its keyword and its tag,
        which is the next free one if it has none yet. */
    method PrintTag(c: Composite) returns (out: seq<Token>)
      requires Valid()
      modifies this`namedTys
      ensures Valid()
      ensures St() == Named(old(St()), c)
      ensures c in namedTys && out == [KwComposite(c.kind), Tag(namedTys[c])]
    {
      NamedGood(g, St(), c);
      DeclsTextStable(g, namedTys, Named(St(), c).names, order);
      if c !in namedTys {
        namedTys := namedTys[c := |namedTys|];
      }
      out := [KwComposite(c.kind), Tag(namedTys[c])];
    }

    method PrintParams(params: seq<QualType>, variadic: bool) returns (ss: seq<Token>)
      requires Valid()
      modifies this
      ensures Valid()
      ensures St() == Run(g, old(St()), ParamEvents(params))
      ensures ss == ParamsText(namedTys, params, variadic)
      decreases g.Keys - declared, params, 0
    {
      hide Good;
      hide DeclsText;
      hide CommaEach;
      hide Text;
      hide Events;
      ss := [];
      if |params| > 0 {
        CommaEachNone(namedTys);
        ghost var st := St();
        var last := |params| - 1;
        var i := 0;
        while i < last
          invariant 0 <= i <= last
          invariant Valid() && old(declared) <= declared
          invariant St() == Run(g, st, ParamEvents(params[..i]))
          invariant ss == CommaEach(namedTys, params[..i])
        {
          assert params[i] in params && params[i].ty < params[i];
          var t := PrintDef(params[i].ty, Full, []);
          ParamPrinted(g, st, params[..i], params[i]);
          assert params[..i] + [params[i]] == params[..i + 1];
          ss := ss + t + [Comma];
          i := i + 1;
        }
        assert params[last] in params && params[last].ty < params[last];
        var t := PrintDef(params[last].ty, Full, []);
        ParamPrinted(g, st, params[..last], params[last]);
        assert params[..last] + [params[last]] == params;
        ss := ss + t;
        if variadic {
          ss := ss + [Comma, Ellipsis];
        }
        ParamsTextSplit(namedTys, params, variadic);
      }
    }

    /** Defines `c` unless its definition was started before. The tag of a composite that
        was already there is the caller's business. */
    method AddDecl(c: Composite)
      requires Valid()
      modifies this
      ensures Valid()
      ensures Named(St(), c) == Step(g, old(St()), Event(c, Full))
      decreases g.Keys - declared, Comp(c), 2
    {
      hide Good;
      hide DeclsText;
      hide Run;
      if c in declared {
        return;
      }
      DefineStep(g, St(), c);
      declared := declared + {c};
      var ss := PrintDeclImpl(c);
      decls := decls + ss;
      order := order + [Define(c)];
    }

    method AddForwardDecl(c: Composite)
      requires Valid()
      modifies this
      ensures Valid()
      ensures Named(St(), c) == Step(g, old(St()), Event(c, Forward))
    {
      hide Good;
      hide DeclsText;
      if c in declared || c in forwardDeclared {
        return;
      }
      ForwardStep(g, St(), c);
      forwardDeclared := forwardDeclared + {c};
      var t := PrintTag(c);
      decls := decls + (t + [Semi]);
      order := order + [Fwd(c)];
    }

    /** The text of the definition of `c`; the definitions it needs go to the stream first. */
    method PrintDeclImpl(c: Composite) returns (ss: seq<Token>)
      requires Valid() && c in declared
      modifies this
      ensures Valid()
      ensures St() == Run(g, Named(old(St()), c), BodyEvents(g, c))
      ensures ss == DeclText(g, namedTys, Define(c))
      decreases g.Keys - (declared - {c}), Comp(c), 1
    {
      hide Good;
      hide DeclsText;
      hide Run;
      ss := PrintTag(c);
      RunInvariant(g, St(), BodyEvents(g, c));
      var body := PrintFields(c);
      ss := ss + [LBrace] + body + [RBrace, Semi];
    }

    /** The field loop of `print_decl_impl`. */
    method PrintFields(c: Composite) returns (ss: seq<Token>)
      requires Valid() && c in declared
      modifies this
      ensures Valid()
      ensures St() == Run(g, old(St()), BodyEvents(g, c))
      ensures ss == FieldsText(namedTys, Fields(g, c))
      decreases g.Keys - (declared - {c}), Comp(c), 0
    {
      hide Good;
      hide DeclsText;
      ghost var st := St();
      ss := [];
      var fields := Fields(g, c);
      var idx := 0;
      while idx < |fields|
        invariant 0 <= idx <= |fields|
        invariant Valid() && old(declared) <= declared
        invariant St() == Run(g, st, FieldEvents(fields[..idx]))
        invariant ss == FieldsText(namedTys, fields[..idx])
      {
        var t := PrintDef(fields[idx].ty, Full, [Id(FieldName(idx))]);
        FieldPrinted(g, st, fields[..idx], fields[idx]);
        assert fields[..idx] + [fields[idx]] == fields[..idx + 1];
        ss := ss + t + [Semi];
        idx := idx + 1;
      }
      assert fields[..idx] == fields;
    }
  }
}
