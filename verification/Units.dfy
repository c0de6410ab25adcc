/** Reading the generated text as C: what a wrapper does, and whether the whole text is
    accepted.
 */
module Units {
  import opened Types
  import opened Declarators
  import opened DeclOrder
  import opened TypePrinting
  import opened Wrappers

  // ----- Syntax ----------------------------------------------------------------------

  datatype Member = Member(name: Option<Ident>, ty: CType)

  /** The argument `*((ty*)__Args[index])`. */
  datatype Arg = Arg(ty: CType, index: nat)

  /** `void w(fptr __FPtr, ret __Ret, void** __Args)`, whose body calls `__FPtr` with the
      arguments and stores the result through `__Ret` if `stores`. */
  datatype Wrapper = Wrapper(id: nat, fptr: CType, ret: CType, stores: bool, args: seq<Arg>)

  datatype Item =
    | IFwd(kind: CompositeKind, tag: nat)
    | IDef(kind: CompositeKind, tag: nat, members: seq<Member>)
    | IWrapper(w: Wrapper)

  predicate Starts(ts: seq<Token>, prefix: seq<Token>) {
    |ts| >= |prefix| && ts[..|prefix|] == prefix
  }

  function ParseArg(ts: seq<Token>): (r: Option<(Arg, seq<Token>)>)
    ensures r.Some? ==> |r.value.1| < |ts|
  {
    if Starts(ts, [Star, LParen, LParen]) then
      match ParseDeclaration(ts[3..])
      case Some((None, CPointer(t), rest)) =>
        if |rest| >= 6 && rest[..3] == [RParen, Id(Args), LBracket] && rest[3].Num? && rest[4..6] == [RBracket, RParen]
        then Some((Arg(t, rest[3].n), rest[6..]))
        else None
      case _ => None
    else None
  }

  /** A comma-separated list of arguments up to the closing parenthesis. */
  function ParseArgs(ts: seq<Token>): (r: Option<(seq<Arg>, seq<Token>)>)
    ensures r.Some? ==> |r.value.1| < |ts|
    decreases |ts|
  {
    match ParseArg(ts)
    case None => None
    case Some((a, rest)) =>
      if rest == [] then None
      else if rest[0] == RParen then Some(([a], rest[1..]))
      else if rest[0] != Comma then None
      else
        match ParseArgs(rest[1..])
        case Some((more, rest')) => Some(([a] + more, rest'))
        case None => None
  }

  function ParseCall(ts: seq<Token>): (r: Option<(seq<Arg>, seq<Token>)>)
    ensures r.Some? ==> |r.value.1| < |ts|
  {
    if Starts(ts, [LParen, Id(FPtr), RParen, LParen, RParen]) then Some(([], ts[5..]))
    else if Starts(ts, [LParen, Id(FPtr), RParen, LParen]) then ParseArgs(ts[4..])
    else None
  }

  function ParseBody(id: nat, fptr: CType, ret: CType, ts: seq<Token>): (r: Option<(Wrapper, seq<Token>)>)
    ensures r.Some? ==> |r.value.1| < |ts|
  {
    var stores := Starts(ts, [Star, Id(Ret), Assign]);
    match ParseCall(if stores then ts[3..] else ts)
    case None => None
    case Some((args, rest)) =>
      if Starts(rest, [Semi, RBrace]) then Some((Wrapper(id, fptr, ret, stores, args), rest[2..])) else None
  }

  /** A parameter declared as `name`, followed by `close`. */
  function ParseParam(ts: seq<Token>, name: Ident, close: seq<Token>): (r: Option<(CType, seq<Token>)>)
    ensures r.Some? ==> |r.value.1| < |ts|
  {
    match ParseDeclaration(ts)
    case Some((n, t, rest)) => if n == Some(name) && Starts(rest, close) then Some((t, rest[|close|..])) else None
    case None => None
  }

  function ParseWrapper(ts: seq<Token>): (r: Option<(Wrapper, seq<Token>)>)
    ensures r.Some? ==> |r.value.1| < |ts|
  {
    if |ts| >= 3 && ts[0] == Kw(WVoid) && ts[1].Id? && ts[1].id.WrapperName? && ts[2] == LParen then
      match ParseParam(ts[3..], FPtr, [Comma])
      case None => None
      case Some((fptr, r1)) =>
        match ParseParam(r1, Ret, [Comma])
        case None => None
        case Some((ret, r2)) =>
          match ParseParam(r2, Args, [RParen, LBrace])
          case None => None
          case Some((args, r3)) =>
            if args == CPointer(CPointer(CVoid)) then ParseBody(ts[1].id.w, fptr, ret, r3) else None
    else None
  }

  function ParseMembers(ts: seq<Token>): (r: Option<(seq<Member>, seq<Token>)>)
    ensures r.Some? ==> |r.value.1| < |ts|
    decreases |ts|
  {
    if Starts(ts, [RBrace, Semi]) then Some(([], ts[2..]))
    else
      match ParseDeclaration(ts)
      case None => None
      case Some((name, t, rest)) =>
        if !Starts(rest, [Semi]) then None
        else
          match ParseMembers(rest[1..])
          case Some((ms, rest')) => Some(([Member(name, t)] + ms, rest'))
          case None => None
  }

  function ParseItem(ts: seq<Token>): (r: Option<(Item, seq<Token>)>)
    ensures r.Some? ==> |r.value.1| < |ts|
  {
    if |ts| >= 3 && ts[0].KwComposite? && ts[1].Tag? && ts[2] == Semi then
      Some((IFwd(ts[0].kind, ts[1].tag), ts[3..]))
    else if |ts| >= 3 && ts[0].KwComposite? && ts[1].Tag? && ts[2] == LBrace then
      match ParseMembers(ts[3..])
      case Some((ms, rest)) => Some((IDef(ts[0].kind, ts[1].tag, ms), rest))
      case None => None
    else
      match ParseWrapper(ts)
      case Some((w, rest)) => Some((IWrapper(w), rest))
      case None => None
  }

  function ParseUnit(ts: seq<Token>): Option<seq<Item>>
    decreases |ts|
  {
    if ts == [] then Some([])
    else
      match ParseItem(ts)
      case None => None
      case Some((item, rest)) => Before([item], ParseUnit(rest))
  }

  function Before(items: seq<Item>, more: Option<seq<Item>>): Option<seq<Item>> {
    match more
    case Some(m) => Some(items + m)
    case None => None
  }

  // ----- Reading the arguments -------------------------------------------------------

  lemma ArgReads(names: Names, ty: Type, k: nat, s: seq<Token>)
    ensures ParseArg(ArgText(names, ty, k) + s) == Some((Arg(Reading(names, ty, false), k), s))
  {
    hide ParseDeclaration;
    hide Text;
    hide Reading;
    var text, close := Text(names, Ptr(ty), []), [RParen, Id(Args), LBracket, Num(k), RBracket, RParen];
    var ts := ArgText(names, ty, k) + s;
    assert ts[..3] == [Star, LParen, LParen];
    assert ts[3..] == text + (close + s);
    PtrRoundTrip(names, ty, None);
    assert ParseDeclaration(text + (close + s)) == Some((None, CPointer(Reading(names, ty, false)), close + s));
    assert (close + s)[6..] == s;
  }

  lemma PtrRoundTrip(names: Names, ty: Type, name: Option<Ident>)
    ensures Declares(Text(names, Ptr(ty), NameTokens(name)), name, CPointer(Reading(names, ty, false)))
  {
    RoundTrip(names, Ptr(ty), name);
  }

  function ArgReadings(names: Names, tys: seq<Type>, k: nat): seq<Arg> {
    seq(|tys|, i requires 0 <= i < |tys| => Arg(Reading(names, tys[i], false), k + i))
  }

  lemma {:induction false} ArgsRead(names: Names, tys: seq<Type>, k: nat, s: seq<Token>)
    requires tys != []
    ensures ParseArgs(ArgsText(names, tys, k) + ([RParen] + s)) == Some((ArgReadings(names, tys, k), s))
    decreases |tys|
  {
    hide ParseArg;
    hide ArgText;
    hide Reading;
    var head := ArgText(names, tys[0], k);
    var arg := Arg(Reading(names, tys[0], false), k);
    if |tys| == 1 {
      ArgReads(names, tys[0], k, [RParen] + s);
      assert ([RParen] + s)[1..] == s;
      assert ArgReadings(names, tys, k) == [arg];
    } else {
      var tail := ArgsText(names, tys[1..], k + 1) + ([RParen] + s);
      assert ArgsText(names, tys, k) + ([RParen] + s) == head + ([Comma] + tail);
      ArgReads(names, tys[0], k, [Comma] + tail);
      assert ([Comma] + tail)[1..] == tail;
      ArgsRead(names, tys[1..], k + 1, s);
      assert ArgReadings(names, tys, k) == [arg] + ArgReadings(names, tys[1..], k + 1);
    }
  }

  lemma ArgsTextStarts(names: Names, tys: seq<Type>, k: nat)
    requires tys != []
    ensures Starts(ArgsText(names, tys, k), [Star])
  {
  }

  lemma CallReads(names: Names, tys: seq<Type>, s: seq<Token>)
    ensures ParseCall([LParen, Id(FPtr), RParen, LParen] + ArgsText(names, tys, 0) + ([RParen] + s))
         == Some((ArgReadings(names, tys, 0), s))
  {
    hide ParseArgs;
    hide Reading;
    var ts := [LParen, Id(FPtr), RParen, LParen] + ArgsText(names, tys, 0) + ([RParen] + s);
    if tys == [] {
      assert ts[..5] == [LParen, Id(FPtr), RParen, LParen, RParen];
      assert ts[5..] == s;
      assert ArgReadings(names, tys, 0) == [];
    } else {
      ArgsTextStarts(names, tys, 0);
      assert ts[..5][4] == Star;
      assert ts[..4] == [LParen, Id(FPtr), RParen, LParen];
      assert ts[4..] == ArgsText(names, tys, 0) + ([RParen] + s);
      ArgsRead(names, tys, 0, s);
    }
  }

  // ----- Reading a wrapper -----------------------------------------------------------

  /** What C reads in a wrapper: `__FPtr` has the function's type, and the k-th argument of
      the call is the k-th entry of `__Args` seen as the k-th argument type, parameters
      first, then the variadic arguments; the result is stored unless there is none. All
      types are as C reads them. */
  function Meaning(names: Names, j: Job): Wrapper
    requires JobOk(j)
  {
    Wrapper(j.id, CPointer(Reading(names, j.fty, false)), CPointer(Reading(names, j.fty.ret.ty, false)),
            j.fty.ret.ty != Void, ArgReadings(names, ArgTypes(j), 0))
  }

  lemma BodyReads(names: Names, j: Job, s: seq<Token>)
    requires JobOk(j)
    ensures var ts := Store(j) + ([LParen, Id(FPtr), RParen, LParen] + ArgsText(names, ArgTypes(j), 0) + ([RParen] + ([Semi, RBrace] + s)));
            var m := Meaning(names, j);
            ParseBody(j.id, m.fptr, m.ret, ts) == Some((m, s))
  {
    hide ParseCall;
    hide ArgsText;
    hide Reading;
    var call := [LParen, Id(FPtr), RParen, LParen] + ArgsText(names, ArgTypes(j), 0) + ([RParen] + ([Semi, RBrace] + s));
    CallReads(names, ArgTypes(j), [Semi, RBrace] + s);
    assert ([Semi, RBrace] + s)[..2] == [Semi, RBrace] && ([Semi, RBrace] + s)[2..] == s;
    if j.fty.ret.ty != Void {
      var ts := [Star, Id(Ret), Assign] + call;
      assert ts[..3] == [Star, Id(Ret), Assign] && ts[3..] == call;
    } else {
      assert [] + call == call;
      assert call[..3][0] == LParen;
    }
  }

  lemma ParamReads(toks: seq<Token>, name: Ident, t: CType, close: seq<Token>, s: seq<Token>)
    requires Declares(toks, Some(name), t) && close != [] && Ends(close)
    ensures ParseParam(toks + (close + s), name, close) == Some((t, s))
  {
    hide ParseDeclaration;
    assert ParseDeclaration(toks + (close + s)) == Some((Some(name), t, close + s));
    assert (close + s)[..|close|] == close && (close + s)[|close|..] == s;
  }

  const ARGS_PARAM: seq<Token> := [Kw(WVoid), Star, Star, Id(Args)]

  lemma ArgsDeclaratorReads(s: seq<Token>)
    requires Ends(s)
    ensures ParseDeclarator([Star] + ([Star] + ([Id(Args)] + s))) == Some((DPtr(DPtr(DName(Some(Args)))), s))
  {
    hide ParseDirect;
    var name := [Id(Args)] + s;
    NameReads(Args);
    DeclaratorEnds([Id(Args)], DName(Some(Args)), s);
    assert ([Star] + name)[1..] == name;
    assert ParseDeclarator([Star] + name) == Some((DPtr(DName(Some(Args))), s));
    assert ([Star] + ([Star] + name))[1..] == [Star] + name;
  }

  lemma ArgsParamReadsAt(s: seq<Token>)
    requires Ends(s)
    ensures ParseDeclaration(ARGS_PARAM + s) == Some((Some(Args), CPointer(CPointer(CVoid)), s))
  {
    hide ParseDeclarator;
    hide ParseSpec;
    hide Ends;
    var rest := [Star] + ([Star] + ([Id(Args)] + s));
    assert ARGS_PARAM + s == Kws([WVoid]) + rest;
    SpecReads([WVoid], CVoid, rest);
    ArgsDeclaratorReads(s);
    assert Apply(DPtr(DName(Some(Args))), CPointer(CVoid)) == CPointer(CPointer(CVoid));
    assert DeclaredName(DPtr(DName(Some(Args)))) == Some(Args);
  }

  lemma ArgsParamReads()
    ensures Declares(ARGS_PARAM, Some(Args), CPointer(CPointer(CVoid)))
  {
    hide ParseDeclaration;
    forall s: seq<Token> | Ends(s) {
      ArgsParamReadsAt(s);
    }
  }

  function Store(j: Job): seq<Token>
    requires JobOk(j)
  {
    if j.fty.ret.ty != Void then [Star, Id(Ret), Assign] else []
  }

  lemma Assoc(a: seq<Token>, b: seq<Token>, c: seq<Token>)
    ensures a + b + c == a + (b + c)
  {
  }

  /** The text of a wrapper, seen from its beginning. */
  lemma WrapperSplit(names: Names, j: Job, s: seq<Token>)
    requires JobOk(j)
    ensures var fptr, ret := Text(names, Ptr(j.fty), [Id(FPtr)]), Text(names, Ptr(j.fty.ret.ty), [Id(Ret)]);
            var call := [LParen, Id(FPtr), RParen, LParen] + ArgsText(names, ArgTypes(j), 0) + ([RParen] + ([Semi, RBrace] + s));
            WrapperText(names, j) + s ==
            [Kw(WVoid), Id(WrapperName(j.id)), LParen]
            + (fptr + ([Comma] + (ret + ([Comma] + (ARGS_PARAM + ([RParen, LBrace] + (Store(j) + call)))))))
  {
    hide Text;
    hide ArgsText;
    var fptr, ret := Text(names, Ptr(j.fty), [Id(FPtr)]), Text(names, Ptr(j.fty.ret.ty), [Id(Ret)]);
    var args := ArgsText(names, ArgTypes(j), 0);
    var h0, h1 := [Kw(WVoid), Id(WrapperName(j.id)), LParen], [Kw(WVoid), Star, Star, Id(Args), RParen, LBrace];
    var open, close := [LParen, Id(FPtr), RParen, LParen], [RParen] + ([Semi, RBrace] + s);
    var call := open + args + close;
    assert WrapperText(names, j) + s == HeadText(names, j) + (args + close);
    var x7 := Store(j) + call;
    var x6 := h1 + x7;
    assert x6 == ARGS_PARAM + ([RParen, LBrace] + x7);
    calc {
      HeadText(names, j) + (args + close);
      { Assoc(h0 + fptr + [Comma] + ret + [Comma] + h1 + Store(j), open, args + close); Assoc(open, args, close); }
      h0 + fptr + [Comma] + ret + [Comma] + h1 + Store(j) + call;
      { Assoc(h0 + fptr + [Comma] + ret + [Comma] + h1, Store(j), call); }
      h0 + fptr + [Comma] + ret + [Comma] + h1 + x7;
      { Assoc(h0 + fptr + [Comma] + ret + [Comma], h1, x7); }
      h0 + fptr + [Comma] + ret + [Comma] + x6;
      { Assoc(h0 + fptr + [Comma] + ret, [Comma], x6); }
      h0 + fptr + [Comma] + ret + ([Comma] + x6);
      { Assoc(h0 + fptr + [Comma], ret, [Comma] + x6); }
      h0 + fptr + [Comma] + (ret + ([Comma] + x6));
      { Assoc(h0 + fptr, [Comma], ret + ([Comma] + x6)); }
      h0 + fptr + ([Comma] + (ret + ([Comma] + x6)));
      { Assoc(h0, fptr, [Comma] + (ret + ([Comma] + x6))); }
      h0 + (fptr + ([Comma] + (ret + ([Comma] + x6))));
    }
  }

  /** Every generated wrapper is read as one call. */
  lemma WrapperReads(names: Names, j: Job, s: seq<Token>)
    requires JobOk(j)
    ensures ParseWrapper(WrapperText(names, j) + s) == Some((Meaning(names, j), s))
  {
    hide ParseParam;
    hide ParseBody;
    hide Text;
    hide WrapperText;
    hide ArgsText;
    hide Reading;
    hide Declares;
    var fptr, ret := Text(names, Ptr(j.fty), [Id(FPtr)]), Text(names, Ptr(j.fty.ret.ty), [Id(Ret)]);
    var call := [LParen, Id(FPtr), RParen, LParen] + ArgsText(names, ArgTypes(j), 0) + ([RParen] + ([Semi, RBrace] + s));
    var args := ARGS_PARAM + ([RParen, LBrace] + (Store(j) + call));
    var rets := ret + ([Comma] + args);
    var ts := WrapperText(names, j) + s;
    WrapperSplit(names, j, s);
    assert ts[3..] == fptr + ([Comma] + rets);
    PtrRoundTrip(names, j.fty, Some(FPtr));
    ParamReads(fptr, FPtr, CPointer(Reading(names, j.fty, false)), [Comma], rets);
    PtrRoundTrip(names, j.fty.ret.ty, Some(Ret));
    ParamReads(ret, Ret, CPointer(Reading(names, j.fty.ret.ty, false)), [Comma], args);
    ArgsParamReads();
    ParamReads(ARGS_PARAM, Args, CPointer(CPointer(CVoid)), [RParen, LBrace], Store(j) + call);
    BodyReads(names, j, s);
  }

  // ----- What was meant --------------------------------------------------------------

  /** The same wrapper with the types that were to be printed. */
  function Meant(names: Names, j: Job): Wrapper
    requires JobOk(j)
  {
    var tys := ArgTypes(j);
    Wrapper(j.id, CPointer(View(names, j.fty)), CPointer(View(names, j.fty.ret.ty)), j.fty.ret.ty != Void,
            seq(|tys|, i requires 0 <= i < |tys| => Arg(View(names, tys[i]), i)))
  }

  ghost predicate JobPrints(j: Job) {
    JobOk(j) && Printable(j.fty, false) && forall ty | ty in ArgTypes(j) :: Printable(ty, false)
  }

  lemma MeantIff(names: Names, j: Job)
    requires JobOk(j)
    ensures Meaning(names, j) == Meant(names, j) <==> JobPrints(j)
  {
    hide Reading;
    hide View;
    var tys, read, meant := ArgTypes(j), Meaning(names, j), Meant(names, j);
    ReadingIsView(names, j.fty, false);
    ReadingIsView(names, j.fty.ret.ty, false);
    forall i | 0 <= i < |tys| ensures read.args[i] == meant.args[i] <==> Printable(tys[i], false) {
      ReadingIsView(names, tys[i], false);
    }
    if read == meant {
      forall ty | ty in tys ensures Printable(ty, false) {
        var i :| 0 <= i < |tys| && tys[i] == ty;
      }
    }
    if JobPrints(j) {
      assert forall i | 0 <= i < |tys| :: tys[i] in tys;
      assert read.args == meant.args;
    }
  }

  /** C reads a wrapper as it was meant exactly when all its types are printable. */
  lemma WrapperIsMeant(names: Names, j: Job, s: seq<Token>)
    requires JobOk(j)
    ensures ParseWrapper(WrapperText(names, j) + s) == Some((Meant(names, j), s)) <==> JobPrints(j)
  {
    hide ParseWrapper;
    hide WrapperText;
    WrapperReads(names, j, s);
    MeantIff(names, j);
  }
}
