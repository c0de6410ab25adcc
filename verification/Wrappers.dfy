/** The generated call wrappers: what is written for a function type and the types of the
    variadic arguments of one call, and the generator that writes it.
 */
module Wrappers {
  import opened Types
  import opened Declarators
  import opened DeclOrder
  import opened TypePrinting

  /** A wrapper to generate: its number, the function type, and the types of the variadic
      arguments of this call. */
  datatype Job = Job(id: nat, fty: Type, varArgs: seq<Type>)

  /** What `genFuncTypeWrapper` demands: a function type, and variadic arguments only for a
      variadic function with a parameter. */
  predicate JobOk(j: Job) {
    && j.fty.Function?
    && (j.varArgs != [] ==> j.fty.variadic && j.fty.params != [])
  }

  function Ptr(ty: Type): Type { Pointer(Qual(ty, false)) }

  function Unqualified(params: seq<QualType>): seq<Type> {
    seq(|params|, i requires 0 <= i < |params| => params[i].ty)
  }

  function ArgTypes(j: Job): seq<Type>
    requires JobOk(j)
  {
    Unqualified(j.fty.params) + j.varArgs
  }

  // ----- Writing ---------------------------------------------------------------------

  function ArgText(names: Names, ty: Type, k: nat): seq<Token> {
    [Star, LParen, LParen] + Text(names, Ptr(ty), []) + [RParen, Id(Args), LBracket, Num(k), RBracket, RParen]
  }

  function ArgsText(names: Names, tys: seq<Type>, k: nat): seq<Token> {
    if tys == [] then []
    else if |tys| == 1 then ArgText(names, tys[0], k)
    else ArgText(names, tys[0], k) + [Comma] + ArgsText(names, tys[1..], k + 1)
  }

  function HeadText(names: Names, j: Job): seq<Token>
    requires JobOk(j)
  {
    [Kw(WVoid), Id(WrapperName(j.id)), LParen]
    + Text(names, Ptr(j.fty), [Id(FPtr)]) + [Comma]
    + Text(names, Ptr(j.fty.ret.ty), [Id(Ret)]) + [Comma]
    + [Kw(WVoid), Star, Star, Id(Args), RParen, LBrace]
    + (if j.fty.ret.ty != Void then [Star, Id(Ret), Assign] else [])
    + [LParen, Id(FPtr), RParen, LParen]
  }

  function WrapperText(names: Names, j: Job): seq<Token>
    requires JobOk(j)
  {
    HeadText(names, j) + ArgsText(names, ArgTypes(j), 0) + [RParen, Semi, RBrace]
  }

  function PtrEvents(tys: seq<Type>): seq<Event> {
    if tys == [] then []
    else
      var n := |tys| - 1;
      PtrEvents(tys[..n]) + Events(Ptr(tys[n]), Full)
  }

  function HeadEvents(j: Job): seq<Event>
    requires JobOk(j)
  {
    Events(Ptr(j.fty), Full) + Events(Ptr(j.fty.ret.ty), Full)
  }

  function JobEvents(j: Job): seq<Event>
    requires JobOk(j)
  {
    HeadEvents(j) + PtrEvents(ArgTypes(j))
  }

  lemma {:induction false} ArgsTextSnoc(names: Names, tys: seq<Type>, ty: Type, k: nat)
    ensures ArgsText(names, tys + [ty], k)
         == ArgsText(names, tys, k) + (if tys == [] then [] else [Comma]) + ArgText(names, ty, k + |tys|)
  {
    hide ArgText;
    if tys == [] {
      assert tys + [ty] == [ty];
    } else {
      ArgsTextSnoc(names, tys[1..], ty, k + 1);
      assert (tys + [ty])[1..] == tys[1..] + [ty];
      if |tys| == 1 {
        assert tys[1..] == [];
      }
    }
  }

  lemma {:induction false} ArgsTextStable(names: Names, more: Names, tys: seq<Type>)
    requires Extends(names, more) && AllOf(PtrEvents(tys)) <= names.Keys
    ensures ArgsText(names, tys, 0) == ArgsText(more, tys, 0)
  {
    hide Text;
    hide Events;
    hide Mentions;
    if tys != [] {
      var n := |tys| - 1;
      FullOfConcat(PtrEvents(tys[..n]), Events(Ptr(tys[n]), Full));
      ArgsTextStable(names, more, tys[..n]);
      EventsAreMentions(Ptr(tys[n]), Full);
      TextStable(names, more, Ptr(tys[n]), []);
      assert tys == tys[..n] + [tys[n]];
      ArgsTextSnoc(names, tys[..n], tys[n], 0);
      ArgsTextSnoc(more, tys[..n], tys[n], 0);
    }
  }

  lemma HeadTextStable(names: Names, more: Names, j: Job)
    requires JobOk(j) && Extends(names, more) && AllOf(HeadEvents(j)) <= names.Keys
    ensures HeadText(names, j) == HeadText(more, j)
  {
    FullOfConcat(Events(Ptr(j.fty), Full), Events(Ptr(j.fty.ret.ty), Full));
    EventsAreMentions(Ptr(j.fty), Full);
    EventsAreMentions(Ptr(j.fty.ret.ty), Full);
    TextStable(names, more, Ptr(j.fty), [Id(FPtr)]);
    TextStable(names, more, Ptr(j.fty.ret.ty), [Id(Ret)]);
  }

  lemma WrapperTextStable(names: Names, more: Names, j: Job)
    requires JobOk(j) && Extends(names, more) && AllOf(JobEvents(j)) <= names.Keys
    ensures WrapperText(names, j) == WrapperText(more, j)
  {
    FullOfConcat(HeadEvents(j), PtrEvents(ArgTypes(j)));
    HeadTextStable(names, more, j);
    ArgsTextStable(names, more, ArgTypes(j));
  }

  // ----- Generating ------------------------------------------------------------------

  /** One more argument: the text so far stays what it is. */
  lemma ArgPrinted(g: Graph, st: State, tys: seq<Type>, ty: Type)
    requires Good(g, st)
    ensures var mid := Run(g, st, PtrEvents(tys));
            var r := Run(g, mid, Events(Ptr(ty), Full));
            && r == Run(g, st, PtrEvents(tys + [ty])) && Good(g, mid)
            && ArgsText(r.names, tys + [ty], 0)
            == ArgsText(mid.names, tys, 0) + (if tys == [] then [] else [Comma]) + ArgText(r.names, ty, |tys|)
  {
    hide Run;
    hide Text;
    hide Good;
    hide Events;
    var mid := Run(g, st, PtrEvents(tys));
    var all := tys + [ty];
    assert all[..|tys|] == tys && all[|tys|] == ty;
    RunConcat(g, st, PtrEvents(tys), Events(Ptr(ty), Full));
    RunInvariant(g, st, PtrEvents(tys));
    RunInvariant(g, mid, Events(Ptr(ty), Full));
    ArgsTextStable(mid.names, Run(g, mid, Events(Ptr(ty), Full)).names, tys);
    ArgsTextSnoc(Run(g, mid, Events(Ptr(ty), Full)).names, tys, ty, 0);
  }

  lemma NoArgs(g: Graph, st: State)
    ensures Run(g, st, PtrEvents([])) == st && ArgsText(st.names, [], 0) == []
  {
  }

  method GenHead(p: TypePrinter, j: Job) returns (ss: seq<Token>)
    requires p.Valid() && JobOk(j)
    modifies p
    ensures p.Valid()
    ensures p.St() == Run(p.g, old(p.St()), HeadEvents(j))
    ensures ss == HeadText(p.namedTys, j)
  {
    hide Good;
    hide DeclsText;
    hide Run;
    hide Text;
    ghost var st := p.St();
    HeadPrinted(p.g, st, j);
    ss := [Kw(WVoid), Id(WrapperName(j.id)), LParen];
    var fptr := p.PrintDef(Ptr(j.fty), Full, [Id(FPtr)]);
    ss := ss + fptr + [Comma];
    var ret := p.PrintDef(Ptr(j.fty.ret.ty), Full, [Id(Ret)]);
    ss := ss + ret + [Comma];
    ss := ss + [Kw(WVoid), Star, Star, Id(Args), RParen, LBrace];
    if j.fty.ret.ty != Void {
      ss := ss + [Star, Id(Ret), Assign];
    }
    ss := ss + [LParen, Id(FPtr), RParen, LParen];
  }

  lemma HeadPrinted(g: Graph, st: State, j: Job)
    requires Good(g, st) && JobOk(j)
    ensures var mid := Run(g, st, Events(Ptr(j.fty), Full));
            var r := Run(g, mid, Events(Ptr(j.fty.ret.ty), Full));
            && r == Run(g, st, HeadEvents(j))
            && Text(mid.names, Ptr(j.fty), [Id(FPtr)]) == Text(r.names, Ptr(j.fty), [Id(FPtr)])
  {
    var mid := Run(g, st, Events(Ptr(j.fty), Full));
    RunConcat(g, st, Events(Ptr(j.fty), Full), Events(Ptr(j.fty.ret.ty), Full));
    RunInvariant(g, st, Events(Ptr(j.fty), Full));
    RunInvariant(g, mid, Events(Ptr(j.fty.ret.ty), Full));
    EventsAreMentions(Ptr(j.fty), Full);
    TextStable(mid.names, Run(g, mid, Events(Ptr(j.fty.ret.ty), Full)).names, Ptr(j.fty), [Id(FPtr)]);
  }

  /** One argument of the call: a dereferenced cast of an entry of the argument array. */
  method GenArg(p: TypePrinter, ty: Type, idx: nat) returns (ss: seq<Token>)
    requires p.Valid()
    modifies p
    ensures p.Valid()
    ensures p.St() == Run(p.g, old(p.St()), Events(Ptr(ty), Full))
    ensures ss == ArgText(p.namedTys, ty, idx)
  {
    ss := p.PrintDef(Ptr(ty), Full, []);
    ss := [Star, LParen, LParen] + ss + [RParen, Id(Args), LBracket, Num(idx), RBracket, RParen];
  }

  method GenArgs(p: TypePrinter, j: Job) returns (ss: seq<Token>)
    requires p.Valid() && JobOk(j)
    modifies p
    ensures p.Valid()
    ensures p.St() == Run(p.g, old(p.St()), PtrEvents(ArgTypes(j)))
    ensures ss == ArgsText(p.namedTys, ArgTypes(j), 0)
  {
    hide Good;
    hide DeclsText;
    hide Text;
    hide ArgText;
    hide ArgsText;
    hide Run;
    hide PtrEvents;
    ghost var st := p.St();
    var params := j.fty.params;
    ghost var all := ArgTypes(j);
    NoArgs(p.g, st);
    assert all[..0] == [];
    ss := [];
    var idx := 0;
    while idx < |params|
      invariant 0 <= idx <= |params|
      invariant p.Valid()
      invariant p.St() == Run(p.g, st, PtrEvents(all[..idx]))
      invariant ss == ArgsText(p.namedTys, all[..idx], 0) + if 0 < idx < |params| then [Comma] else []
    {
      ArgPrinted(p.g, st, all[..idx], params[idx].ty);
      assert all[..idx] + [params[idx].ty] == all[..idx + 1];
      var t := GenArg(p, params[idx].ty, idx);
      ss := ss + t;
      if idx < |params| - 1 {
        ss := ss + [Comma];
      }
      idx := idx + 1;
    }
    var n := idx;
    while idx < n + |j.varArgs|
      invariant n <= idx <= n + |j.varArgs|
      invariant p.Valid()
      invariant p.St() == Run(p.g, st, PtrEvents(all[..idx]))
      invariant ss == ArgsText(p.namedTys, all[..idx], 0)
    {
      ArgPrinted(p.g, st, all[..idx], j.varArgs[idx - n]);
      assert all[..idx] + [j.varArgs[idx - n]] == all[..idx + 1];
      var t := GenArg(p, j.varArgs[idx - n], idx);
      ss := ss + [Comma] + t;
      idx := idx + 1;
    }
    assert all[..idx] == all;
  }

  method GenFuncTypeWrapper(p: TypePrinter, j: Job) returns (ss: seq<Token>)
    requires p.Valid() && JobOk(j)
    modifies p
    ensures p.Valid()
    ensures p.St() == Run(p.g, old(p.St()), JobEvents(j))
    ensures ss == WrapperText(p.namedTys, j)
  {
    hide Good;
    hide DeclsText;
    hide Run;
    hide HeadText;
    hide ArgsText;
    JobPrinted(p.g, p.St(), j);
    ss := GenHead(p, j);
    var args := GenArgs(p, j);
    ss := ss + args + [RParen, Semi, RBrace];
  }

  lemma JobPrinted(g: Graph, st: State, j: Job)
    requires Good(g, st) && JobOk(j)
    ensures var mid := Run(g, st, HeadEvents(j));
            var r := Run(g, mid, PtrEvents(ArgTypes(j)));
            r == Run(g, st, JobEvents(j)) && HeadText(mid.names, j) == HeadText(r.names, j)
  {
    var mid := Run(g, st, HeadEvents(j));
    RunConcat(g, st, HeadEvents(j), PtrEvents(ArgTypes(j)));
    RunInvariant(g, st, HeadEvents(j));
    RunInvariant(g, mid, PtrEvents(ArgTypes(j)));
    HeadTextStable(mid.names, Run(g, mid, PtrEvents(ArgTypes(j))).names, j);
  }
}
