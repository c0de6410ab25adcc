/** The generated text as a translation unit: it parses, and on a sortable type graph, and
    on no other, acceptance can be told from the requests alone.
 */
module Compiles {
  import opened Types
  import opened Declarators
  import opened DeclOrder
  import opened TypePrinting
  import opened Wrappers
  import opened Units

  // ----- The C rules -----------------------------------------------------------------

  /** The tags of the composites that must be complete where a type is used: the type
      itself if `here`, and the element type of every array in it. */
  function CNeeds(t: CType, here: bool): set<(CompositeKind, nat)>
    decreases t, 1
  {
    match t
    case CTag(kind, tag) => if here then {(kind, tag)} else {}
    case CPointer(p) => CNeeds(p, false)
    case CArray(e, _) => CNeeds(e, true)
    case CFunction(_, ret, ps, _) => CNeedsAll(ps) + CNeeds(ret, false)
    case _ => {}
  }

  function CNeedsAll(ps: seq<CType>): set<(CompositeKind, nat)>
    decreases ps, 0
  {
    if ps == [] then {} else CNeeds(ps[0], false) + CNeedsAll(ps[1..])
  }

  predicate MembersOk(ms: seq<Member>, complete: set<(CompositeKind, nat)>) {
    forall m | m in ms :: CNeeds(m.ty, true) <= complete
  }

  /** As many arguments as parameters, or more for the ellipsis, each of its parameter's type
      (section 6.5.2.2 paragraph 2 of ISO/IEC 9899:2011, without conversions). */
  predicate TakesArgs(f: CType, args: seq<Arg>)
    requires f.CFunction?
  {
    && (if f.variadic then |args| >= |f.params| else |args| == |f.params|)
    && forall k | 0 <= k < |f.params| :: args[k].ty == f.params[k]
  }

  /** A call needs a complete return type and complete arguments, which void is not (section
      6.5.2.2 paragraphs 1 and 4 of ISO/IEC 9899:2011). */
  predicate CallOk(w: Wrapper, complete: set<(CompositeKind, nat)>) {
    && w.fptr.CPointer? && w.fptr.pointee.CFunction?
    && CNeeds(w.fptr, false) <= complete
    && CNeeds(w.fptr.pointee.ret, true) <= complete
    && TakesArgs(w.fptr.pointee, w.args)
    && (forall a | a in w.args :: a.ty != CVoid && CNeeds(a.ty, true) <= complete)
  }

  predicate ItemOk(item: Item, complete: set<(CompositeKind, nat)>) {
    match item
    case IFwd(_, _) => true
    case IDef(kind, tag, ms) => (kind, tag) !in complete && MembersOk(ms, complete)
    case IWrapper(w) => CallOk(w, complete)
  }

  function Completes(item: Item): set<(CompositeKind, nat)> {
    if item.IDef? then {(item.kind, item.tag)} else {}
  }

  function CompletesAll(items: seq<Item>): set<(CompositeKind, nat)> {
    if items == [] then {} else Completes(items[0]) + CompletesAll(items[1..])
  }

  /** One pass over the items with the set of tags that are complete so far. */
  predicate UnitOk(items: seq<Item>, complete: set<(CompositeKind, nat)>) {
    items != [] ==> ItemOk(items[0], complete) && UnitOk(items[1..], complete + Completes(items[0]))
  }

  /** A function is defined once. */
  predicate DefinedOnce(items: seq<Item>) {
    forall i, j | 0 <= i < j < |items| && items[i].IWrapper? && items[j].IWrapper? :: items[i].w.id != items[j].w.id
  }

  predicate Legal(items: seq<Item>) {
    UnitOk(items, {}) && DefinedOnce(items)
  }

  lemma {:induction false} UnitOkConcat(a: seq<Item>, b: seq<Item>, complete: set<(CompositeKind, nat)>)
    ensures UnitOk(a + b, complete) <==> UnitOk(a, complete) && UnitOk(b, complete + CompletesAll(a))
    ensures CompletesAll(a + b) == CompletesAll(a) + CompletesAll(b)
  {
    if a == [] {
      assert a + b == b;
      assert complete + CompletesAll(a) == complete;
    } else {
      assert (a + b)[1..] == a[1..] + b;
      UnitOkConcat(a[1..], b, complete + Completes(a[0]));
      assert complete + Completes(a[0]) + CompletesAll(a[1..]) == complete + CompletesAll(a);
    }
  }

  lemma UnitOkOne(item: Item, complete: set<(CompositeKind, nat)>)
    ensures UnitOk([item], complete) <==> ItemOk(item, complete)
    ensures CompletesAll([item]) == Completes(item)
  {
    assert [item][1..] == [];
  }

  // ----- The items of the text -------------------------------------------------------

  function MemberReadings(names: Names, fields: seq<Field>): seq<Member> {
    seq(|fields|, i requires 0 <= i < |fields| => Member(Some(FieldName(i)), Reading(names, fields[i].ty, false)))
  }

  function ItemOf(g: Graph, names: Names, d: Decl): Item {
    match d
    case Fwd(c) => IFwd(c.kind, TagOf(names, c))
    case Define(c) => IDef(c.kind, TagOf(names, c), MemberReadings(names, Fields(g, c)))
  }

  function Items(g: Graph, names: Names, decls: seq<Decl>): seq<Item> {
    seq(|decls|, i requires 0 <= i < |decls| => ItemOf(g, names, decls[i]))
  }

  lemma MemberStep(names: Names, ty: Type, name: Ident, s: seq<Token>)
    ensures ParseMembers(Text(names, ty, [Id(name)]) + ([Semi] + s))
         == match ParseMembers(s)
            case Some((ms, rest)) => Some(([Member(Some(name), Reading(names, ty, false))] + ms, rest))
            case None => None
  {
    hide ParseDeclaration;
    hide Text;
    hide Reading;
    var toks := Text(names, ty, [Id(name)]);
    RoundTrip(names, ty, Some(name));
    TextStarts(names, ty, [Id(name)]);
    var ts := toks + ([Semi] + s);
    assert ParseDeclaration(ts) == Some((Some(name), Reading(names, ty, false), [Semi] + s));
    assert ts[0] == toks[0] && !Starts(ts, [RBrace, Semi]) by {
      assert |ts| >= 2 ==> ts[..2][0] == toks[0];
    }
    assert ([Semi] + s)[..1] == [Semi] && ([Semi] + s)[1..] == s;
  }

  lemma {:induction false} MembersRead(names: Names, fields: seq<Field>, s: seq<Token>)
    ensures ParseMembers(FieldsText(names, fields) + s)
         == match ParseMembers(s)
            case Some((ms, rest)) => Some((MemberReadings(names, fields) + ms, rest))
            case None => None
    decreases |fields|
  {
    hide ParseMembers;
    hide Text;
    hide Reading;
    if fields == [] {
      assert FieldsText(names, fields) + s == s;
      assert forall ms: seq<Member> :: MemberReadings(names, fields) + ms == ms;
    } else {
      var n := |fields| - 1;
      var toks := Text(names, fields[n].ty, [Id(FieldName(n))]);
      assert FieldsText(names, fields) + s == FieldsText(names, fields[..n]) + (toks + ([Semi] + s));
      MembersRead(names, fields[..n], toks + ([Semi] + s));
      MemberStep(names, fields[n].ty, FieldName(n), s);
      var m := Member(Some(FieldName(n)), Reading(names, fields[n].ty, false));
      assert MemberReadings(names, fields) == MemberReadings(names, fields[..n]) + [m];
      assert forall ms: seq<Member> :: MemberReadings(names, fields) + ms == MemberReadings(names, fields[..n]) + ([m] + ms);
    }
  }

  lemma BodyTextReads(names: Names, fields: seq<Field>, s: seq<Token>)
    ensures ParseMembers(FieldsText(names, fields) + ([RBrace, Semi] + s)) == Some((MemberReadings(names, fields), s))
  {
    hide ParseDeclaration;
    hide FieldsText;
    hide Reading;
    var close := [RBrace, Semi] + s;
    assert close[..2] == [RBrace, Semi] && close[2..] == s;
    assert ParseMembers(close) == Some(([], s));
    MembersRead(names, fields, close);
    assert MemberReadings(names, fields) + [] == MemberReadings(names, fields);
  }

  lemma DeclReads(g: Graph, names: Names, d: Decl, s: seq<Token>)
    ensures ParseItem(DeclText(g, names, d) + s) == Some((ItemOf(g, names, d), s))
  {
    hide ParseItem;
    hide ParseMembers;
    hide FieldsText;
    hide MemberReadings;
    var kind, tag := d.c.kind, TagOf(names, d.c);
    match d
    case Fwd(c) =>
      ForwardReads(kind, tag, s);
      assert DeclText(g, names, d) + s == [KwComposite(kind), Tag(tag), Semi] + s;
    case Define(c) =>
      var fields := FieldsText(names, Fields(g, c));
      BodyTextReads(names, Fields(g, c), s);
      DefinitionReads(kind, tag, fields + ([RBrace, Semi] + s));
      DefinitionSplits([KwComposite(kind), Tag(tag)], fields, s);
      assert [KwComposite(kind), Tag(tag)] + [LBrace] == [KwComposite(kind), Tag(tag), LBrace];
  }

  lemma DefinitionSplits(head: seq<Token>, fields: seq<Token>, s: seq<Token>)
    ensures head + [LBrace] + fields + [RBrace, Semi] + s == head + [LBrace] + (fields + ([RBrace, Semi] + s))
  {
  }

  lemma ForwardReads(kind: CompositeKind, tag: nat, s: seq<Token>)
    ensures ParseItem([KwComposite(kind), Tag(tag), Semi] + s) == Some((IFwd(kind, tag), s))
  {
    assert ([KwComposite(kind), Tag(tag), Semi] + s)[3..] == s;
  }

  lemma DefinitionReads(kind: CompositeKind, tag: nat, body: seq<Token>)
    requires ParseMembers(body).Some?
    ensures var (ms, rest) := ParseMembers(body).value;
            ParseItem([KwComposite(kind), Tag(tag), LBrace] + body) == Some((IDef(kind, tag, ms), rest))
  {
    hide ParseMembers;
    hide ParseWrapper;
    assert ([KwComposite(kind), Tag(tag), LBrace] + body)[3..] == body;
  }

  lemma {:induction false} DeclsRead(g: Graph, names: Names, decls: seq<Decl>, s: seq<Token>)
    ensures ParseUnit(DeclsText(g, names, decls) + s) == Before(Items(g, names, decls), ParseUnit(s))
    decreases |decls|
  {
    hide ParseItem;
    hide ParseUnit;
    hide DeclText;
    hide ItemOf;
    if decls == [] {
      assert DeclsText(g, names, decls) + s == s;
      assert forall m: seq<Item> :: Items(g, names, decls) + m == m;
    } else {
      var n := |decls| - 1;
      var text := DeclText(g, names, decls[n]);
      assert DeclsText(g, names, decls) + s == DeclsText(g, names, decls[..n]) + (text + s);
      DeclsRead(g, names, decls[..n], text + s);
      DeclReads(g, names, decls[n], s);
      var item := ItemOf(g, names, decls[n]);
      DeclTextStarts(g, names, decls[n]);
      ItemThenUnit(text, item, s);
      assert forall m: seq<Item> :: Items(g, names, decls) + m == Items(g, names, decls[..n]) + ([item] + m);
    }
  }

  lemma ItemThenUnit(text: seq<Token>, item: Item, s: seq<Token>)
    requires text != [] && ParseItem(text + s) == Some((item, s))
    ensures ParseUnit(text + s) == Before([item], ParseUnit(s))
  {
    hide ParseItem;
  }

  lemma DeclTextStarts(g: Graph, names: Names, d: Decl)
    ensures DeclText(g, names, d) != []
  {
  }

  function WrappersText(names: Names, jobs: seq<Job>): seq<Token>
    requires forall j | j in jobs :: JobOk(j)
  {
    if jobs == [] then []
    else
      var n := |jobs| - 1;
      WrappersText(names, jobs[..n]) + WrapperText(names, jobs[n])
  }

  function WrapperItems(names: Names, jobs: seq<Job>): seq<Item>
    requires forall j | j in jobs :: JobOk(j)
  {
    seq(|jobs|, i requires 0 <= i < |jobs| => IWrapper(Meaning(names, jobs[i])))
  }

  lemma {:induction false} WrappersRead(names: Names, jobs: seq<Job>, s: seq<Token>)
    requires forall j | j in jobs :: JobOk(j)
    ensures ParseUnit(WrappersText(names, jobs) + s) == Before(WrapperItems(names, jobs), ParseUnit(s))
    decreases |jobs|
  {
    hide ParseUnit;
    hide ParseItem;
    hide WrapperText;
    hide Meaning;
    if jobs == [] {
      assert WrappersText(names, jobs) + s == s;
      assert forall m: seq<Item> :: WrapperItems(names, jobs) + m == m;
    } else {
      var n := |jobs| - 1;
      assert jobs[n] in jobs && forall j | j in jobs[..n] :: j in jobs;
      var text := WrapperText(names, jobs[n]);
      assert WrappersText(names, jobs) + s == WrappersText(names, jobs[..n]) + (text + s);
      WrappersRead(names, jobs[..n], text + s);
      var item := IWrapper(Meaning(names, jobs[n]));
      WrapperItemReads(names, jobs[n], s);
      ItemThenUnit(text, item, s);
      assert forall m: seq<Item> :: WrapperItems(names, jobs) + m == WrapperItems(names, jobs[..n]) + ([item] + m);
    }
  }

  lemma WrapperItemReads(names: Names, j: Job, s: seq<Token>)
    requires JobOk(j)
    ensures WrapperText(names, j) != []
    ensures ParseItem(WrapperText(names, j) + s) == Some((IWrapper(Meaning(names, j)), s))
  {
    hide ParseWrapper;
    hide WrapperText;
    hide Meaning;
    WrapperReads(names, j, s);
    WrapperTextStarts(names, j);
    assert (WrapperText(names, j) + s)[0] == Kw(WVoid);
  }

  lemma WrapperTextStarts(names: Names, j: Job)
    requires JobOk(j)
    ensures WrapperText(names, j) != [] && WrapperText(names, j)[0] == Kw(WVoid)
  {
  }

  // ----- Tags and composites ---------------------------------------------------------

  ghost function Tags(names: Names, s: set<Composite>): set<(CompositeKind, nat)> {
    set c | c in s :: (c.kind, TagOf(names, c))
  }

  lemma TagsSubset(names: Names, a: set<Composite>, b: set<Composite>)
    requires Injective(names) && a <= names.Keys && b <= names.Keys
    ensures Tags(names, a) <= Tags(names, b) <==> a <= b
  {
    if Tags(names, a) <= Tags(names, b) {
      forall c | c in a ensures c in b {
        assert (c.kind, TagOf(names, c)) in Tags(names, a);
      }
    }
  }

  lemma TagsUnion(names: Names, a: set<Composite>, b: set<Composite>)
    ensures Tags(names, a + b) == Tags(names, a) + Tags(names, b)
  {
  }

  lemma {:induction false} NeedsAreMentioned(ty: Type, here: bool)
    ensures Needs(ty, here) <= Mentions(ty)
    decreases ty, 1
  {
    match ty
    case Pointer(p) => NeedsAreMentioned(p.ty, false);
    case Array(e, _) => NeedsAreMentioned(e.ty, true);
    case Function(ret, params, _, _, _) =>
      NeedsAreMentioned(ret.ty, false);
      ParamNeedsAreMentioned(params);
    case _ =>
  }

  lemma {:induction false} ParamNeedsAreMentioned(params: seq<QualType>)
    ensures ParamNeeds(params) <= MentionsAll(params)
    decreases params, 0
  {
    if params != [] {
      var p := params[0];
      assert p.ty < p;
      NeedsAreMentioned(p.ty, false);
      ParamNeedsAreMentioned(params[1..]);
    }
  }

  /** Even a misreading needs the same composites. */
  lemma {:induction false} ReadingNeeds(names: Names, ty: Type, nameless: bool, here: bool)
    ensures CNeeds(Reading(names, ty, nameless), here) == Tags(names, Needs(ty, here))
    decreases ty, 1
  {
    match ty
    case Pointer(p) => ReadingNeeds(names, p.ty, false, false);
    case Array(e, _) => ReadingNeeds(names, e.ty, false, true);
    case Function(ret, params, _, variadic, _) =>
      ReadingNeeds(names, ret.ty, false, false);
      ReadingAllNeeds(names, params);
      PrototypeNeeds(ReadingAll(names, params), variadic);
      TagsUnion(names, ParamNeeds(params), Needs(ret.ty, false));
    case _ =>
  }

  lemma PrototypeNeeds(ps: seq<CType>, variadic: bool)
    ensures CNeedsAll(Prototype(ps, variadic)) == CNeedsAll(ps) && CNeedsAll([]) == {}
  {
    assert [CVoid][1..] == [];
  }

  lemma {:induction false} ReadingAllNeeds(names: Names, params: seq<QualType>)
    ensures CNeedsAll(ReadingAll(names, params)) == Tags(names, ParamNeeds(params))
    decreases params, 0
  {
    if params != [] {
      var p := params[0];
      assert p.ty < p;
      ReadingNeeds(names, p.ty, true, false);
      ReadingAllNeeds(names, params[1..]);
      TagsUnion(names, Needs(p.ty, false), ParamNeeds(params[1..]));
      var v := ReadingAll(names, params);
      assert v[0] == Reading(names, p.ty, true) && v[1..] == ReadingAll(names, params[1..]);
    }
  }

  /** A type is usable in C exactly when the composites it needs are defined. */
  lemma UsableIffDefined(names: Names, ty: Type, here: bool, defined: set<Composite>)
    requires Injective(names) && Mentions(ty) <= names.Keys && defined <= names.Keys
    ensures CNeeds(Reading(names, ty, false), here) <= Tags(names, defined) <==> Needs(ty, here) <= defined
  {
    ReadingNeeds(names, ty, false, here);
    NeedsAreMentioned(ty, here);
    TagsSubset(names, Needs(ty, here), defined);
  }

  lemma {:induction false} MembersOkIff(names: Names, fields: seq<Field>, defined: set<Composite>)
    requires Injective(names) && AllOf(FieldEvents(fields)) <= names.Keys && defined <= names.Keys
    ensures MembersOk(MemberReadings(names, fields), Tags(names, defined)) <==> FieldNeeds(fields) <= defined
    decreases |fields|
  {
    hide Reading;
    hide Events;
    hide CNeeds;
    hide Needs;
    hide Mentions;
    if fields != [] {
      var n := |fields| - 1;
      FieldEventsSnoc(fields);
      FullOfConcat(FieldEvents(fields[..n]), Events(fields[n].ty, Full));
      EventsAreMentions(fields[n].ty, Full);
      MembersOkIff(names, fields[..n], defined);
      UsableIffDefined(names, fields[n].ty, true, defined);
      FieldNeedsSnoc(fields);
      var m := Member(Some(FieldName(n)), Reading(names, fields[n].ty, false));
      MembersOkSnoc(MemberReadings(names, fields[..n]), m, Tags(names, defined));
      assert MemberReadings(names, fields) == MemberReadings(names, fields[..n]) + [m];
    }
  }

  lemma MembersOkSnoc(ms: seq<Member>, m: Member, complete: set<(CompositeKind, nat)>)
    ensures MembersOk(ms + [m], complete) <==> MembersOk(ms, complete) && CNeeds(m.ty, true) <= complete
  {
    hide CNeeds;
    assert m in ms + [m];
    assert forall x | x in ms :: x in ms + [m];
  }

  lemma {:induction false} FieldNeedsSnoc(fields: seq<Field>)
    requires fields != []
    ensures FieldNeeds(fields) == FieldNeeds(fields[..|fields| - 1]) + Needs(fields[|fields| - 1].ty, true)
  {
    hide Needs;
    var n := |fields| - 1;
    if n == 0 {
      assert fields[..n] == [] && fields[1..] == [];
    } else {
      FieldNeedsSnoc(fields[1..]);
      assert fields[1..][..n - 1] == fields[..n][1..];
    }
  }

  // ----- The declarations ------------------------------------------------------------

  lemma OrderedSnoc(g: Graph, decls: seq<Decl>, d: Decl)
    ensures Ordered(g, decls + [d]) <==> Ordered(g, decls) && (d.Define? ==> BodyNeeds(g, d.c) <= Defined(decls))
  {
    hide BodyNeeds;
    var all := decls + [d];
    assert all[..|decls|] == decls && all[|decls|] == d;
    assert forall i | 0 <= i < |decls| :: all[i] == decls[i] && all[..i] == decls[..i];
  }

  lemma DefinedSnoc(decls: seq<Decl>, d: Decl)
    ensures Defined(decls + [d]) == Defined(decls) + if d.Define? then {d.c} else {}
  {
  }

  lemma WritableNames(g: Graph, names: Names, decls: seq<Decl>)
    requires Writable(g, names, decls)
    ensures Defined(decls) <= names.Keys
  {
  }

  /** One declaration is accepted exactly when what it needs was defined before. */
  lemma DeclOk(g: Graph, names: Names, decls: seq<Decl>, d: Decl)
    requires Injective(names) && Writable(g, names, decls + [d]) && Distinct(decls + [d])
    ensures ItemOk(ItemOf(g, names, d), Tags(names, Defined(decls)))
       <==> (d.Define? ==> BodyNeeds(g, d.c) <= Defined(decls))
    ensures Completes(ItemOf(g, names, d)) == Tags(names, if d.Define? then {d.c} else {})
  {
    hide MemberReadings;
    hide MembersOk;
    hide FieldEvents;
    hide FieldNeeds;
    assert d in decls + [d];
    assert forall x | x in decls :: x in decls + [d];
    WritableNames(g, names, decls);
    if d.Define? {
      MembersOkIff(names, Fields(g, d.c), Defined(decls));
      var all := decls + [d];
      assert all[|decls|] == d && forall i | 0 <= i < |decls| :: all[i] == decls[i];
      assert d !in decls;
      TagsSubset(names, {d.c}, Defined(decls));
      assert Tags(names, {d.c}) == {(d.c.kind, TagOf(names, d.c))};
    }
  }

  lemma {:induction false} DeclsOk(g: Graph, names: Names, decls: seq<Decl>)
    requires Injective(names) && Writable(g, names, decls) && Distinct(decls)
    ensures UnitOk(Items(g, names, decls), {}) <==> Ordered(g, decls)
    ensures CompletesAll(Items(g, names, decls)) == Tags(names, Defined(decls))
    decreases |decls|
  {
    hide ItemOf;
    hide ItemOk;
    hide Completes;
    hide BodyNeeds;
    hide BodyEvents;
    if decls != [] {
      var n := |decls| - 1;
      var init, d := decls[..n], decls[n];
      assert decls == init + [d];
      assert Items(g, names, decls) == Items(g, names, init) + [ItemOf(g, names, d)];
      DeclsOk(g, names, init);
      DeclOk(g, names, init, d);
      UnitOkConcat(Items(g, names, init), [ItemOf(g, names, d)], {});
      UnitOkOne(ItemOf(g, names, d), {} + CompletesAll(Items(g, names, init)));
      assert {} + CompletesAll(Items(g, names, init)) == Tags(names, Defined(init));
      OrderedSnoc(g, init, d);
      DefinedSnoc(init, d);
      TagsUnion(names, Defined(init), if d.Define? then {d.c} else {});
    }
  }

  // ----- The wrappers ----------------------------------------------------------------

  lemma {:induction false} ParamIsFull(params: seq<QualType>, i: nat)
    requires i < |params|
    ensures Needs(params[i].ty, true) <= FullOf(ParamEvents(params))
  {
    hide Needs;
    hide Events;
    FullOfConcat(Events(params[0].ty, Full), ParamEvents(params[1..]));
    if i == 0 {
      NeedsAreFull(params[0].ty, true, Full);
    } else {
      ParamIsFull(params[1..], i - 1);
    }
  }

  lemma {:induction false} ArgIsNamed(tys: seq<Type>, i: nat)
    requires i < |tys|
    ensures Mentions(tys[i]) <= AllOf(PtrEvents(tys))
    decreases |tys|
  {
    hide Mentions;
    hide Events;
    var n := |tys| - 1;
    FullOfConcat(PtrEvents(tys[..n]), Events(Ptr(tys[n]), Full));
    if i == n {
      PtrMentions(tys[n]);
      EventsAreMentions(Ptr(tys[n]), Full);
    } else {
      ArgIsNamed(tys[..n], i);
    }
  }

  lemma PtrMentions(ty: Type)
    ensures Mentions(Ptr(ty)) == Mentions(ty)
  {
  }

  /** All that the fixed part of a call needs is printed in Full mode with it. */
  lemma FixedPartIsFull(j: Job)
    requires JobOk(j)
    ensures Needs(j.fty, false) <= FullOf(HeadEvents(j))
    ensures Needs(j.fty.ret.ty, true) <= FullOf(HeadEvents(j))
    ensures FullOf(ParamEvents(j.fty.params)) <= FullOf(HeadEvents(j))
    ensures Mentions(j.fty) <= AllOf(HeadEvents(j)) && Mentions(j.fty.ret.ty) <= AllOf(HeadEvents(j))
  {
    hide Needs;
    hide Mentions;
    var ret, params := j.fty.ret.ty, j.fty.params;
    assert Events(Ptr(j.fty), Full) == Events(j.fty, Forward) == ParamEvents(params) + Events(ret, Full);
    FullOfConcat(Events(Ptr(j.fty), Full), Events(Ptr(ret), Full));
    FullOfConcat(ParamEvents(params), Events(ret, Full));
    NeedsAreFull(j.fty, false, Forward);
    NeedsAreFull(ret, true, Full);
    EventsAreMentions(j.fty, Forward);
    EventsAreMentions(ret, Full);
  }

  // ----- Arguments and parameters ------------------------------------------------------

  /** No argument is void, and no parameter is a bare function type. */
  ghost predicate ArgsPlain(j: Job)
    requires JobOk(j)
  {
    Void !in ArgTypes(j) && forall p | p in j.fty.params :: !p.ty.Function?
  }

  ghost predicate ArgsUsable(j: Job, defined: set<Composite>)
    requires JobOk(j)
  {
    ArgsPlain(j) && forall t | t in j.varArgs :: Needs(t, true) <= defined
  }

  lemma {:induction false} ReadingAllAt(names: Names, params: seq<QualType>, k: nat)
    requires k < |params|
    ensures ReadingAll(names, params)[k] == Reading(names, params[k].ty, true)
  {
    hide Reading;
    if k > 0 {
      ReadingAllAt(names, params[1..], k - 1);
    }
  }

  /** Only a function type is read differently without a name. */
  lemma NamelessIsSame(names: Names, ty: Type)
    ensures Reading(names, ty, true) == Reading(names, ty, false) <==> !ty.Function?
  {
    if ty.Function? {
      var f := Reading(names, ty, false);
      var n := Reading(names, ty, true);
      assert Spine(n) == 1 + Spine(n.ret) == 2 + Spine(f.ret) == 1 + Spine(f);
    }
  }

  /** The arguments fit the prototype unless a void parameter stands alone or a parameter is
      a bare function type. */
  lemma TakesArgsIff(names: Names, j: Job)
    requires JobOk(j)
    ensures var m := Meaning(names, j);
            m.fptr.pointee.CFunction? &&
            (TakesArgs(m.fptr.pointee, m.args)
             <==> !LoneVoid(j.fty.params, j.fty.variadic) && forall p | p in j.fty.params :: !p.ty.Function?)
  {
    var params, m := j.fty.params, Meaning(names, j);
    var all := ReadingAll(names, params);
    var f := Reading(names, j.fty, false);
    assert m.fptr.pointee == f && f.params == Prototype(all, j.fty.variadic);
    assert f.variadic <==> j.fty.variadic && params != [];
    hide Reading;
    forall k | 0 <= k < |params|
      ensures m.args[k].ty == all[k] <==> !params[k].ty.Function?
    {
      ReadingAllAt(names, params, k);
      NamelessIsSame(names, params[k].ty);
    }
    LoneVoidVanishes(names, params, j.fty.variadic);
    if !LoneVoid(params, j.fty.variadic) && TakesArgs(f, m.args) {
      forall p | p in params ensures !p.ty.Function? {
        var k :| 0 <= k < |params| && params[k] == p;
        assert m.args[k].ty == f.params[k];
      }
    }
  }

  lemma LoneVoidVanishes(names: Names, params: seq<QualType>, variadic: bool)
    ensures Prototype(ReadingAll(names, params), variadic)
         == if LoneVoid(params, variadic) then [] else ReadingAll(names, params)
  {
    if |params| == 1 {
      ReadingAllAt(names, params, 0);
      VoidReading(names, params[0].ty, true);
    }
  }

  /** A wrapper's call is accepted exactly when its arguments are plain and the composites its
      variadic arguments need are defined; those of the fixed part always are. */
  lemma CallOkIff(names: Names, j: Job, defined: set<Composite>)
    requires JobOk(j) && Injective(names)
    requires AllOf(JobEvents(j)) <= names.Keys && defined <= names.Keys
    requires FullOf(JobEvents(j)) <= defined
    ensures CallOk(Meaning(names, j), Tags(names, defined)) <==> ArgsUsable(j, defined)
  {
    hide CNeeds;
    hide Needs;
    hide Mentions;
    hide PtrEvents;
    hide HeadEvents;
    hide ParamEvents;
    hide Events;
    hide FullOf;
    hide AllOf;
    var tys, tags := ArgTypes(j), Tags(names, defined);
    FullOfConcat(HeadEvents(j), PtrEvents(tys));
    FixedPartIsFull(j);
    UsableIffDefined(names, j.fty, false, defined);
    UsableIffDefined(names, j.fty.ret.ty, true, defined);
    FunctionPointerNeeds(names, j);
    forall i | 0 <= i < |tys|
      ensures CNeeds(Reading(names, tys[i], false), true) <= tags <==> Needs(tys[i], true) <= defined
      ensures i < |j.fty.params| ==> Needs(tys[i], true) <= defined
    {
      ArgIsNamed(tys, i);
      UsableIffDefined(names, tys[i], true, defined);
      if i < |j.fty.params| {
        ParamIsFull(j.fty.params, i);
      }
    }
    TakesArgsIff(names, j);
    assert LoneVoid(j.fty.params, j.fty.variadic) ==> tys[0] == Void;
    ArgsOkIff(names, j, defined);
  }

  lemma FunctionPointerNeeds(names: Names, j: Job)
    requires JobOk(j)
    ensures var m := Meaning(names, j);
            && m.fptr.CPointer? && m.fptr.pointee.CFunction?
            && CNeeds(m.fptr, false) == CNeeds(Reading(names, j.fty, false), false)
            && m.fptr.pointee.ret == Reading(names, j.fty.ret.ty, false)
  {
  }

  lemma ArgsOkIff(names: Names, j: Job, defined: set<Composite>)
    requires JobOk(j)
    requires var tys := ArgTypes(j);
             forall i | 0 <= i < |tys| ::
               && (CNeeds(Reading(names, tys[i], false), true) <= Tags(names, defined) <==> Needs(tys[i], true) <= defined)
               && (i < |j.fty.params| ==> Needs(tys[i], true) <= defined)
    ensures (forall a | a in Meaning(names, j).args :: a.ty != CVoid && CNeeds(a.ty, true) <= Tags(names, defined))
       <==> Void !in ArgTypes(j) && forall t | t in j.varArgs :: Needs(t, true) <= defined
  {
    hide CNeeds;
    hide Needs;
    hide Reading;
    var tys, args, n := ArgTypes(j), Meaning(names, j).args, |j.fty.params|;
    assert forall i | 0 <= i < |tys| :: args[i] == Arg(Reading(names, tys[i], false), i);
    forall i | 0 <= i < |tys| ensures args[i].ty == CVoid <==> tys[i] == Void {
      VoidReading(names, tys[i], false);
    }
    if forall a | a in args :: a.ty != CVoid && CNeeds(a.ty, true) <= Tags(names, defined) {
      forall t | t in j.varArgs ensures Needs(t, true) <= defined {
        var k :| 0 <= k < |j.varArgs| && j.varArgs[k] == t;
        assert tys[n + k] == t && args[n + k] in args;
      }
      forall i | 0 <= i < |tys| ensures tys[i] != Void {
        assert args[i] in args;
      }
    }
    if Void !in tys && forall t | t in j.varArgs :: Needs(t, true) <= defined {
      forall a | a in args ensures a.ty != CVoid && CNeeds(a.ty, true) <= Tags(names, defined) {
        var i :| 0 <= i < |args| && args[i] == a;
        assert tys[i] in tys;
        assert i >= n ==> tys[i] == j.varArgs[i - n] && tys[i] in j.varArgs;
      }
    }
  }

  lemma VoidReading(names: Names, ty: Type, nameless: bool)
    ensures Reading(names, ty, nameless) == CVoid <==> ty == Void
  {
  }

  lemma {:induction false} WrappersOk(names: Names, jobs: seq<Job>, complete: set<(CompositeKind, nat)>)
    requires forall j | j in jobs :: JobOk(j)
    ensures UnitOk(WrapperItems(names, jobs), complete)
       <==> forall j | j in jobs :: CallOk(Meaning(names, j), complete)
    decreases |jobs|
  {
    hide CallOk;
    hide Meaning;
    if jobs != [] {
      var items := WrapperItems(names, jobs);
      assert items[0] == IWrapper(Meaning(names, jobs[0]));
      assert items[1..] == WrapperItems(names, jobs[1..]);
      assert complete + Completes(items[0]) == complete;
      WrappersOk(names, jobs[1..], complete);
      assert jobs == [jobs[0]] + jobs[1..];
    }
  }

  // ----- The whole text --------------------------------------------------------------

  function JobsEvents(jobs: seq<Job>): seq<Event>
    requires forall j | j in jobs :: JobOk(j)
  {
    if jobs == [] then []
    else
      var n := |jobs| - 1;
      JobsEvents(jobs[..n]) + JobEvents(jobs[n])
  }

  function Final(g: Graph, jobs: seq<Job>): State
    requires forall j | j in jobs :: JobOk(j)
  {
    Run(g, INIT, JobsEvents(jobs))
  }

  function UnitText(g: Graph, jobs: seq<Job>): seq<Token>
    requires forall j | j in jobs :: JobOk(j)
  {
    var r := Final(g, jobs);
    DeclsText(g, r.names, r.decls) + WrappersText(r.names, jobs)
  }

  lemma {:induction false} JobIsPlayed(jobs: seq<Job>, j: Job)
    requires (forall j | j in jobs :: JobOk(j)) && j in jobs
    ensures FullOf(JobEvents(j)) <= FullOf(JobsEvents(jobs)) && AllOf(JobEvents(j)) <= AllOf(JobsEvents(jobs))
    decreases |jobs|
  {
    hide JobEvents;
    var n := |jobs| - 1;
    FullOfConcat(JobsEvents(jobs[..n]), JobEvents(jobs[n]));
    if j != jobs[n] {
      JobIsPlayed(jobs[..n], j);
    }
  }

  /** Whether the wrapper of `j` is legal among `jobs`: its arguments are plain, and what its
      variadic arguments need is reached by what some wrapper passes or returns. */
  ghost predicate CallUsable(g: Graph, jobs: seq<Job>, j: Job)
    requires JobOk(j) && forall i | i in jobs :: JobOk(i)
  {
    ArgsPlain(j) && forall t, b | t in j.varArgs && b in Needs(t, true) :: Reached(g, JobsEvents(jobs), b)
  }

  lemma UsableIsReached(g: Graph, jobs: seq<Job>, j: Job)
    requires JobOk(j) && forall i | i in jobs :: JobOk(i)
    ensures ArgsUsable(j, Final(g, jobs).declared) <==> CallUsable(g, jobs, j)
  {
    hide Run;
    hide Reached;
    hide Needs;
    hide ArgsPlain;
    var declared := Final(g, jobs).declared;
    forall b ensures b in declared <==> Reached(g, JobsEvents(jobs), b) {
      DefinedIsReached(g, JobsEvents(jobs), b);
    }
  }

  /** Two lists of the same declarations, each once. */
  ghost predicate Reordering(a: seq<Decl>, b: seq<Decl>) {
    Distinct(a) && Distinct(b) && forall d :: d in a <==> d in b
  }

  ghost predicate DistinctIds(jobs: seq<Job>) {
    forall i, j | 0 <= i < j < |jobs| :: jobs[i].id != jobs[j].id
  }

  /** Wrappers of different names, and every call usable. */
  ghost predicate AllUsable(g: Graph, jobs: seq<Job>)
    requires forall j | j in jobs :: JobOk(j)
  {
    DistinctIds(jobs) && forall j | j in jobs :: CallUsable(g, jobs, j)
  }

  lemma DefinedOnceIff(g: Graph, names: Names, decls: seq<Decl>, jobs: seq<Job>)
    requires forall j | j in jobs :: JobOk(j)
    ensures DefinedOnce(Items(g, names, decls) + WrapperItems(names, jobs)) <==> DistinctIds(jobs)
  {
    var n, items := |decls|, Items(g, names, decls) + WrapperItems(names, jobs);
    assert forall i | 0 <= i < n :: !items[i].IWrapper?;
    assert forall i | n <= i < |items| :: items[i].IWrapper? && items[i].w.id == jobs[i - n].id;
    if DefinedOnce(items) {
      forall i, j | 0 <= i < j < |jobs| ensures jobs[i].id != jobs[j].id {
        assert items[n + i].w.id == jobs[i].id && items[n + j].w.id == jobs[j].id;
      }
    }
  }

  /** In whatever order the declarations are put, what is needed is that they are in order,
      that the wrappers have different names, and that every call is usable. */
  lemma ReorderedOk(g: Graph, jobs: seq<Job>, decls: seq<Decl>)
    requires (forall j | j in jobs :: JobOk(j)) && Reordering(decls, Final(g, jobs).decls)
    ensures Legal(Items(g, Final(g, jobs).names, decls) + WrapperItems(Final(g, jobs).names, jobs))
       <==> Ordered(g, decls) && AllUsable(g, jobs)
  {
    hide Run;
    hide UnitOk;
    hide DefinedOnce;
    hide DistinctIds;
    hide CallOk;
    hide Meaning;
    hide ArgsUsable;
    hide CallUsable;
    hide Ordered;
    var r := Final(g, jobs);
    var items, wrappers := Items(g, r.names, decls), WrapperItems(r.names, jobs);
    FinalState(g, jobs);
    assert Defined(decls) == Defined(r.decls);
    DeclsOk(g, r.names, decls);
    UnitOkConcat(items, wrappers, {});
    DefinedOnceIff(g, r.names, decls, jobs);
    assert {} + CompletesAll(items) == Tags(r.names, r.declared);
    WrappersOk(r.names, jobs, Tags(r.names, r.declared));
    forall j | j in jobs
      ensures CallOk(Meaning(r.names, j), Tags(r.names, r.declared)) <==> CallUsable(g, jobs, j)
    {
      JobIsPlayed(jobs, j);
      CallOkIff(r.names, j, r.declared);
      UsableIsReached(g, jobs, j);
    }
  }

  /** The text of any jobs is a translation unit: the declarations, then one wrapper per
      job. It is accepted exactly when the declarations are in order, the wrappers have
      different names, and every call is usable. */
  lemma UnitTheorem(g: Graph, jobs: seq<Job>)
    requires forall j | j in jobs :: JobOk(j)
    ensures var r := Final(g, jobs);
            var items := Items(g, r.names, r.decls) + WrapperItems(r.names, jobs);
            && ParseUnit(UnitText(g, jobs)) == Some(items)
            && (Legal(items) <==> Ordered(g, r.decls) && AllUsable(g, jobs))
  {
    hide ParseUnit;
    hide Run;
    hide DeclsText;
    hide WrappersText;
    hide Legal;
    hide Meaning;
    hide AllUsable;
    var r := Final(g, jobs);
    FinalState(g, jobs);
    DeclsRead(g, r.names, r.decls, WrappersText(r.names, jobs));
    WrappersRead(r.names, jobs, []);
    NothingMore(WrappersText(r.names, jobs), WrapperItems(r.names, jobs));
    ReorderedOk(g, jobs, r.decls);
  }

  lemma NothingMore(ts: seq<Token>, items: seq<Item>)
    ensures ts + [] == ts && ParseUnit([]) == Some([]) && Before(items, Some([])) == Some(items)
  {
    assert items + [] == items;
  }

  lemma FinalState(g: Graph, jobs: seq<Job>)
    requires forall j | j in jobs :: JobOk(j)
    ensures var r := Final(g, jobs);
            && Injective(r.names) && Writable(g, r.names, r.decls) && Distinct(r.decls)
            && Defined(r.decls) == r.declared <= r.names.Keys
            && FullOf(JobsEvents(jobs)) <= r.declared && AllOf(JobsEvents(jobs)) <= r.names.Keys
  {
    hide Run;
    var r := Final(g, jobs);
    InitGood(g);
    RunInvariant(g, INIT, JobsEvents(jobs));
    forall c | c in Defined(r.decls) ensures c in r.declared && c in r.names {
      assert Define(c) in r.decls;
    }
    forall c | c in r.declared ensures c in Defined(r.decls) {
      assert c !in Pending(r);
    }
    forall d | d in r.decls && d.Define? ensures AllOf(BodyEvents(g, d.c)) <= r.names.Keys {
      assert d.c in Defined(r.decls);
    }
  }

  predicate Accepted(g: Graph, jobs: seq<Job>)
    requires forall j | j in jobs :: JobOk(j)
  {
    var items := ParseUnit(UnitText(g, jobs));
    items.Some? && Legal(items.value)
  }

  /** If the part of the graph that the jobs print is sortable, their text is accepted exactly
      when the wrappers have different names and every call is usable. */
  lemma SortableIsAccepted(g: Graph, jobs: seq<Job>)
    requires (forall j | j in jobs :: JobOk(j)) && SortableFrom(g, JobsEvents(jobs))
    ensures Accepted(g, jobs) <==> AllUsable(g, jobs)
  {
    hide Run;
    hide ParseUnit;
    hide SortableFrom;
    hide AllUsable;
    InitGood(g);
    RunOrdered(g, INIT, JobsEvents(jobs));
    UnitTheorem(g, jobs);
  }

  lemma DisorderIsRejected(g: Graph, a: Composite, b: Composite)
    requires b in BodyNeeds(g, a) && Reaches(g, b, a)
    ensures JobOk(Returning(b)) && AllUsable(g, [Returning(b)]) && !Accepted(g, [Returning(b)])
  {
    hide Run;
    hide ParseUnit;
    hide BodyNeeds;
    hide Reaches;
    ReturningDisorders(g, a, b);
    UnitTheorem(g, [Returning(b)]);
  }

  /** Acceptance can be told from the requests alone, exactly on the sortable graphs. */
  lemma CompilesTheorem(g: Graph)
    ensures Sortable(g) <==>
            forall jobs: seq<Job> | (forall j | j in jobs :: JobOk(j)) :: Accepted(g, jobs) <==> AllUsable(g, jobs)
  {
    hide Run;
    hide Accepted;
    hide AllUsable;
    if Sortable(g) {
      forall jobs: seq<Job> | forall j | j in jobs :: JobOk(j) ensures Accepted(g, jobs) <==> AllUsable(g, jobs) {
        SortableIsAccepted(g, jobs);
      }
    } else {
      var a :| !SortableAt(g, a);
      var b :| b in BodyNeeds(g, a) && Reaches(g, b, a);
      DisorderIsRejected(g, a, b);
      var jobs := [Returning(b)];
      assert forall j | j in jobs :: JobOk(j);
    }
  }

  function Returning(b: Composite): Job {
    Job(0, Function(Qual(Comp(b), false), [], CC_C, false, false), [])
  }

  lemma ReturningEvents(b: Composite)
    ensures JobOk(Returning(b)) && JobsEvents([Returning(b)]) == [Event(b, Full)] + [Event(b, Forward)]
  {
    var j, full, fwd := Returning(b), Event(b, Full), Event(b, Forward);
    assert PtrEvents(ArgTypes(j)) == [];
    assert Events(j.fty, Forward) == ParamEvents([]) + Events(Comp(b), Full) == [full];
    assert Events(Ptr(Comp(b)), Full) == Events(Comp(b), Forward) == [fwd];
    assert JobEvents(j) == [full] + [fwd];
    assert [j][..0] == [] && JobsEvents([]) == [];
  }

  lemma ReturningDisorders(g: Graph, a: Composite, b: Composite)
    requires b in BodyNeeds(g, a) && Reaches(g, b, a)
    ensures !Ordered(g, Final(g, [Returning(b)]).decls)
  {
    hide Ordered;
    hide Reaches;
    hide BodyNeeds;
    hide Needs;
    var j, full, fwd := Returning(b), Event(b, Full), Event(b, Forward);
    var reqs := [Request(Comp(b), Full)];
    UnsortableIsDisordered(g, a, b);
    EveryPrinting(g, reqs);
    assert RequestEvents(reqs) == [full] by { assert reqs[1..] == []; }
    ReturningEvents(b);
    RunConcat(g, INIT, [full], [fwd]);
    RunOne(g, Printed(g, reqs), fwd);
    assert full in [full] && b in FullOf([full]);
  }

  // ----- What was meant --------------------------------------------------------------

  /** The items with the types that were to be printed. */
  function MeantItem(g: Graph, names: Names, d: Decl): Item {
    match d
    case Fwd(c) => IFwd(c.kind, TagOf(names, c))
    case Define(c) =>
      var fs := Fields(g, c);
      IDef(c.kind, TagOf(names, c),
           seq(|fs|, i requires 0 <= i < |fs| => Member(Some(FieldName(i)), View(names, fs[i].ty))))
  }

  function MeantItems(g: Graph, names: Names, decls: seq<Decl>, jobs: seq<Job>): seq<Item>
    requires forall j | j in jobs :: JobOk(j)
  {
    seq(|decls|, i requires 0 <= i < |decls| => MeantItem(g, names, decls[i]))
    + seq(|jobs|, i requires 0 <= i < |jobs| => IWrapper(Meant(names, jobs[i])))
  }

  ghost predicate FieldsPrint(g: Graph, c: Composite) {
    forall f | f in Fields(g, c) :: Printable(f.ty, false)
  }

  lemma ItemIsMeant(g: Graph, names: Names, d: Decl)
    ensures ItemOf(g, names, d) == MeantItem(g, names, d) <==> (d.Define? ==> FieldsPrint(g, d.c))
  {
    hide Reading;
    hide View;
    hide Printable;
    if d.Define? {
      var fs, read, meant := Fields(g, d.c), ItemOf(g, names, d).members, MeantItem(g, names, d).members;
      forall i | 0 <= i < |fs| ensures read[i] == meant[i] <==> Printable(fs[i].ty, false) {
        ReadingIsView(names, fs[i].ty, false);
      }
      assert FieldsPrint(g, d.c) ==> read == meant by {
        assert forall i | 0 <= i < |fs| :: fs[i] in fs;
      }
    }
  }

  lemma ItemsAreMeant(g: Graph, names: Names, decls: seq<Decl>, jobs: seq<Job>)
    requires forall j | j in jobs :: JobOk(j)
    ensures Items(g, names, decls) + WrapperItems(names, jobs) == MeantItems(g, names, decls, jobs)
       <==> (forall c | Define(c) in decls :: FieldsPrint(g, c)) && forall j | j in jobs :: JobPrints(j)
  {
    hide FieldsPrint;
    hide JobPrints;
    hide ItemOf;
    hide MeantItem;
    hide Meaning;
    hide Meant;
    var read, meant := Items(g, names, decls) + WrapperItems(names, jobs), MeantItems(g, names, decls, jobs);
    var n := |decls|;
    forall i | 0 <= i < n ensures read[i] == meant[i] <==> (decls[i].Define? ==> FieldsPrint(g, decls[i].c)) {
      ItemIsMeant(g, names, decls[i]);
    }
    forall i | 0 <= i < |jobs| ensures read[n + i] == meant[n + i] <==> JobPrints(jobs[i]) {
      MeantIff(names, jobs[i]);
      assert read[n + i] == IWrapper(Meaning(names, jobs[i])) && meant[n + i] == IWrapper(Meant(names, jobs[i]));
    }
    AllMeant(g, decls, jobs, read, meant);
  }

  lemma FinalDefines(g: Graph, jobs: seq<Job>, c: Composite)
    requires forall j | j in jobs :: JobOk(j)
    ensures Define(c) in Final(g, jobs).decls <==> Reached(g, JobsEvents(jobs), c)
  {
    hide Run;
    hide Reached;
    DefinedIsReached(g, JobsEvents(jobs), c);
    assert Define(c) in Final(g, jobs).decls <==> c in Defined(Final(g, jobs).decls);
  }

  /** The whole text is read as it was meant exactly when everything it prints is printable. */
  lemma UnitIsMeant(g: Graph, jobs: seq<Job>)
    requires forall j | j in jobs :: JobOk(j)
    ensures var r := Final(g, jobs);
            ParseUnit(UnitText(g, jobs)) == Some(MeantItems(g, r.names, r.decls, jobs))
            <==> (forall c | Reached(g, JobsEvents(jobs), c) :: FieldsPrint(g, c)) && forall j | j in jobs :: JobPrints(j)
  {
    hide ParseUnit;
    hide Final;
    hide UnitText;
    hide Reached;
    hide FieldsPrint;
    hide JobPrints;
    hide Items;
    hide WrapperItems;
    hide MeantItems;
    hide Legal;
    hide Ordered;
    hide CallUsable;
    var r := Final(g, jobs);
    UnitTheorem(g, jobs);
    ItemsAreMeant(g, r.names, r.decls, jobs);
    forall c ensures Define(c) in r.decls <==> Reached(g, JobsEvents(jobs), c) {
      FinalDefines(g, jobs, c);
    }
  }

  /** Two lists of items are the same if they are, one by one. */
  lemma AllMeant(g: Graph, decls: seq<Decl>, jobs: seq<Job>, read: seq<Item>, meant: seq<Item>)
    requires |read| == |meant| == |decls| + |jobs|
    requires forall i | 0 <= i < |decls| :: read[i] == meant[i] <==> (decls[i].Define? ==> FieldsPrint(g, decls[i].c))
    requires forall i | 0 <= i < |jobs| :: read[|decls| + i] == meant[|decls| + i] <==> JobPrints(jobs[i])
    ensures read == meant <==>
            (forall c | Define(c) in decls :: FieldsPrint(g, c)) && forall j | j in jobs :: JobPrints(j)
  {
    hide FieldsPrint;
    hide JobPrints;
    var n := |decls|;
    if read == meant {
      forall c | Define(c) in decls ensures FieldsPrint(g, c) {
        var i :| 0 <= i < n && decls[i] == Define(c);
      }
      forall j | j in jobs ensures JobPrints(j) {
        var i :| 0 <= i < |jobs| && jobs[i] == j;
        assert read[n + i] == meant[n + i];
      }
    } else {
      var i :| 0 <= i < |read| && read[i] != meant[i];
      if i < n {
        assert decls[i] == Define(decls[i].c) && decls[i] in decls;
      } else {
        assert !JobPrints(jobs[i - n]) && jobs[i - n] in jobs;
      }
    }
  }

  // ----- The code that writes it -----------------------------------------------------

  lemma {:induction false} WrappersTextStable(names: Names, more: Names, jobs: seq<Job>)
    requires forall j | j in jobs :: JobOk(j)
    requires Extends(names, more) && AllOf(JobsEvents(jobs)) <= names.Keys
    ensures WrappersText(names, jobs) == WrappersText(more, jobs)
    decreases |jobs|
  {
    hide WrapperText;
    hide JobEvents;
    if jobs != [] {
      var n := |jobs| - 1;
      FullOfConcat(JobsEvents(jobs[..n]), JobEvents(jobs[n]));
      WrappersTextStable(names, more, jobs[..n]);
      WrapperTextStable(names, more, jobs[n]);
    }
  }

  lemma WrapperAdded(g: Graph, jobs: seq<Job>, j: Job)
    requires (forall k | k in jobs :: JobOk(k)) && JobOk(j)
    ensures forall k | k in jobs + [j] :: JobOk(k)
    ensures var mid := Final(g, jobs);
            var r := Run(g, mid, JobEvents(j));
            && Good(g, mid) && r == Final(g, jobs + [j])
            && WrappersText(r.names, jobs + [j]) == WrappersText(mid.names, jobs) + WrapperText(r.names, j)
  {
    hide WrapperText;
    hide JobEvents;
    var mid := Final(g, jobs);
    var all := jobs + [j];
    assert all[..|jobs|] == jobs && all[|jobs|] == j;
    InitGood(g);
    RunConcat(g, INIT, JobsEvents(jobs), JobEvents(j));
    RunInvariant(g, INIT, JobsEvents(jobs));
    RunInvariant(g, mid, JobEvents(j));
    WrappersTextStable(mid.names, Run(g, mid, JobEvents(j)).names, jobs);
  }

  /** The wrapper loop of `compile` and the text `compileWrappers` hands over: one printer
      for all the jobs, its declarations first. */
  method WrapperCode(g: Graph, jobs: seq<Job>) returns (code: seq<Token>)
    requires forall j | j in jobs :: JobOk(j)
    ensures code == UnitText(g, jobs)
  {
    hide Good;
    hide DeclsText;
    hide Run;
    hide JobEvents;
    hide WrapperText;
    var printer := new TypePrinter(g);
    var wrappers: seq<Token> := [];
    NoJobs(g);
    var i := 0;
    while i < |jobs|
      invariant 0 <= i <= |jobs| && fresh(printer) && printer.g == g
      invariant printer.Valid()
      invariant printer.St() == Final(g, jobs[..i])
      invariant wrappers == WrappersText(printer.namedTys, jobs[..i])
    {
      WrapperAdded(g, jobs[..i], jobs[i]);
      assert jobs[..i] + [jobs[i]] == jobs[..i + 1];
      var w := GenFuncTypeWrapper(printer, jobs[i]);
      wrappers := wrappers + w;
      i := i + 1;
    }
    assert jobs[..i] == jobs;
    code := printer.decls + wrappers;
  }

  lemma NoJobs(g: Graph)
    ensures Final(g, []) == INIT && WrappersText(INIT.names, []) == []
  {
  }

  // ----- Where it fails --------------------------------------------------------------

  const OUTER := Composite(Struct, 0)
  const INNER := Composite(Struct, 1)
  const CALLBACK := Function(Qual(Void, false), [Qual(Comp(OUTER), false)], CC_C, false, false)

  /** `struct Outer { struct Inner b; }; struct Inner { void (*f)(struct Outer); };` */
  const CALLBACK_GRAPH: Graph :=
    map[OUTER := Body([Field("b", Comp(INNER), 0)], 8), INNER := Body([Field("f", Ptr(CALLBACK), 0)], 8)]

  lemma OuterBody()
    ensures BodyNeeds(CALLBACK_GRAPH, OUTER) == {INNER} && BodyEvents(CALLBACK_GRAPH, OUTER) == [Event(INNER, Full)]
  {
    var fs := Fields(CALLBACK_GRAPH, OUTER);
    assert fs == [Field("b", Comp(INNER), 0)] && fs[1..] == [];
    assert FieldNeeds(fs) == Needs(fs[0].ty, true) + FieldNeeds(fs[1..]);
    assert FieldEvents(fs) == Events(fs[0].ty, Full) + FieldEvents(fs[1..]);
  }

  lemma InnerBody()
    ensures BodyNeeds(CALLBACK_GRAPH, INNER) == {} && BodyEvents(CALLBACK_GRAPH, INNER) == [Event(OUTER, Full)]
  {
    var fs := Fields(CALLBACK_GRAPH, INNER);
    assert fs == [Field("f", Ptr(CALLBACK), 0)] && fs[1..] == [] && CALLBACK.params[1..] == [];
    assert ParamEvents(CALLBACK.params) == Events(Comp(OUTER), Full) + ParamEvents(CALLBACK.params[1..]);
    assert ParamNeeds(CALLBACK.params) == Needs(Comp(OUTER), false) + ParamNeeds(CALLBACK.params[1..]);
    assert Events(Ptr(CALLBACK), Full) == Events(CALLBACK, Forward) == [Event(OUTER, Full)];
    assert Needs(Ptr(CALLBACK), true) == Needs(CALLBACK, false) == {};
    assert FieldEvents(fs) == Events(fs[0].ty, Full) + FieldEvents(fs[1..]);
    assert FieldNeeds(fs) == Needs(fs[0].ty, true) + FieldNeeds(fs[1..]);
  }

  lemma InnerReachesOuter()
    ensures Reaches(CALLBACK_GRAPH, INNER, OUTER)
  {
    hide Reaches;
    InnerBody();
    assert Event(OUTER, Full) in BodyEvents(CALLBACK_GRAPH, INNER);
    ReachesSelf(CALLBACK_GRAPH, INNER);
    ReachesNext(CALLBACK_GRAPH, INNER, INNER, OUTER);
  }

  /** The outer struct is defined while the text of the inner one is being built. */
  lemma CallbackDecls()
    ensures JobOk(Returning(INNER)) && Final(CALLBACK_GRAPH, [Returning(INNER)]).decls == [Define(OUTER), Define(INNER)]
  {
    hide Started;
    hide Named;
    hide BodyEvents;
    var g, full := CALLBACK_GRAPH, Event(INNER, Full);
    InnerBody();
    OuterBody();
    ReturningEvents(INNER);
    var s := Started(INIT, INNER);
    var t := Started(s, OUTER);
    StartedIs(INIT, INNER);
    StartedIs(s, OUTER);
    RunOne(g, t, full);
    assert Run(g, t, [full]).decls == [] by { NamedIs(t, INNER); }
    RunOne(g, s, Event(OUTER, Full));
    assert Run(g, s, [Event(OUTER, Full)]).decls == [Define(OUTER)];
    RunOne(g, INIT, full);
    var r := Run(g, INIT, [full]);
    assert r.decls == [Define(OUTER)] + [Define(INNER)];
    RunConcat(g, INIT, [full], [Event(INNER, Forward)]);
    RunOne(g, r, Event(INNER, Forward));
    NamedIs(r, INNER);
  }

  lemma StartedIs(st: State, c: Composite)
    ensures var s := Started(st, c); s.decls == st.decls && s.declared == st.declared + {c}
  {
  }

  lemma NamedIs(st: State, c: Composite)
    ensures Named(st, c).decls == st.decls
  {
  }

  /** A struct that holds another by value, which in turn holds a callback that takes the
      first one by value: legal C, since the same declarations are accepted in another order,
      but printed in an order no compiler accepts. */
  lemma CallbackCycle()
    ensures !Sortable(CALLBACK_GRAPH) && JobOk(Returning(INNER)) && !Accepted(CALLBACK_GRAPH, [Returning(INNER)])
    ensures var r := Final(CALLBACK_GRAPH, [Returning(INNER)]);
            var decls := [Define(INNER), Define(OUTER)];
            && Reordering(decls, r.decls)
            && Legal(Items(CALLBACK_GRAPH, r.names, decls) + WrapperItems(r.names, [Returning(INNER)]))
  {
    hide Reaches;
    hide BodyNeeds;
    hide Run;
    hide Accepted;
    hide Legal;
    hide CallUsable;
    var g, jobs, decls := CALLBACK_GRAPH, [Returning(INNER)], [Define(INNER), Define(OUTER)];
    OuterBody();
    InnerBody();
    InnerReachesOuter();
    assert !SortableAt(g, OUTER);
    DisorderIsRejected(g, OUTER, INNER);
    CallbackDecls();
    assert Reordering(decls, Final(g, jobs).decls);
    assert decls[..0] == [] && decls[..1] == [Define(INNER)];
    assert Define(INNER) in decls[..1] && INNER in Defined(decls[..1]);
    ReorderedOk(g, jobs, decls);
  }

  // ----- Variadic calls ----------------------------------------------------------------

  /** What the wrapper of one call prints in Full mode comes from its parameters, from its
      result, and from inside its variadic arguments. */
  function CallEvents(j: Job): seq<Event>
    requires JobOk(j)
  {
    ParamEvents(j.fty.params) + Events(j.fty.ret.ty, Full) + PtrEvents(j.varArgs)
  }

  lemma ForwardIsLess(ty: Type)
    ensures FullOf(Events(Ptr(ty), Full)) <= FullOf(Events(ty, Full))
  {
    assert Events(Ptr(ty), Full) == Events(ty, Forward);
  }

  lemma {:induction false} ParamIsPrinted(params: seq<QualType>, i: nat)
    requires i < |params|
    ensures FullOf(Events(params[i].ty, Full)) <= FullOf(ParamEvents(params))
  {
    hide Events;
    FullOfConcat(Events(params[0].ty, Full), ParamEvents(params[1..]));
    if i > 0 {
      ParamIsPrinted(params[1..], i - 1);
    }
  }

  lemma {:induction false} ParamsBehindPointers(params: seq<QualType>, n: nat)
    requires n <= |params|
    ensures FullOf(PtrEvents(Unqualified(params)[..n])) <= FullOf(ParamEvents(params))
  {
    hide Events;
    var tys := Unqualified(params);
    if n > 0 {
      var k := n - 1;
      ParamsBehindPointers(params, k);
      assert tys[..n][..k] == tys[..k] && tys[..n][k] == params[k].ty;
      FullOfConcat(PtrEvents(tys[..k]), Events(Ptr(params[k].ty), Full));
      ForwardIsLess(params[k].ty);
      ParamIsPrinted(params, k);
    }
  }

  lemma {:induction false} PtrEventsConcat(a: seq<Type>, b: seq<Type>)
    ensures PtrEvents(a + b) == PtrEvents(a) + PtrEvents(b)
    decreases |b|
  {
    hide Events;
    if b == [] {
      assert a + b == a;
    } else {
      var n := |b| - 1;
      assert (a + b)[..|a| + n] == a + b[..n] && (a + b)[|a| + n] == b[n];
      PtrEventsConcat(a, b[..n]);
      var last := Events(Ptr(b[n]), Full);
      assert PtrEvents(a + b) == PtrEvents(a) + PtrEvents(b[..n]) + last;
      assert PtrEvents(b) == PtrEvents(b[..n]) + last;
    }
  }

  lemma CallEventsAreFull(j: Job)
    requires JobOk(j)
    ensures FullOf(JobsEvents([j])) == FullOf(CallEvents(j))
  {
    hide PtrEvents;
    hide ParamEvents;
    hide FullOf;
    var ret, params := j.fty.ret.ty, j.fty.params;
    assert [j][..0] == [] && JobsEvents([]) == [];
    assert JobsEvents([j]) == JobEvents(j);
    assert Events(Ptr(j.fty), Full) == Events(j.fty, Forward) == ParamEvents(params) + Events(ret, Full);
    PtrEventsConcat(Unqualified(params), j.varArgs);
    FullOfConcat(HeadEvents(j), PtrEvents(ArgTypes(j)));
    FullOfConcat(Events(Ptr(j.fty), Full), Events(Ptr(ret), Full));
    FullOfConcat(ParamEvents(params), Events(ret, Full));
    FullOfConcat(PtrEvents(Unqualified(params)), PtrEvents(j.varArgs));
    FullOfConcat(ParamEvents(params) + Events(ret, Full), PtrEvents(j.varArgs));
    ForwardIsLess(ret);
    ParamsBehindPointers(params, |params|);
    assert Unqualified(params)[..|params|] == Unqualified(params);
  }

  /** Whether the wrapper of `j` is legal in a file of its own. */
  ghost predicate UsableAlone(g: Graph, j: Job)
    requires JobOk(j)
  {
    ArgsPlain(j) && forall t, b | t in j.varArgs && b in Needs(t, true) :: Reached(g, CallEvents(j), b)
  }

  lemma SameFull(g: Graph, es: seq<Event>, fs: seq<Event>)
    requires FullOf(es) == FullOf(fs)
    ensures SortableFrom(g, es) <==> SortableFrom(g, fs)
    ensures forall b :: Reached(g, es, b) <==> Reached(g, fs, b)
  {
    hide Reaches;
    hide SortableAt;
    hide FullOf;
    assert forall b :: Reached(g, es, b) <==> Reached(g, fs, b);
  }

  lemma AloneIsUsable(g: Graph, j: Job)
    requires JobOk(j)
    ensures AllUsable(g, [j]) <==> UsableAlone(g, j)
  {
    hide Reached;
    hide Needs;
    hide CallEvents;
    hide JobsEvents;
    hide ArgsPlain;
    CallEventsAreFull(j);
    SameFull(g, JobsEvents([j]), CallEvents(j));
    assert j in [j];
  }

  /** The wrapper of one call in a file of its own, which is how variadic calls are wrapped:
      accepted only if the composites passed as variadic arguments are reached from the
      call's own types, and exactly then if that part of the graph is sortable. */
  lemma AloneIsAccepted(g: Graph, j: Job)
    requires JobOk(j)
    ensures Accepted(g, [j]) ==> UsableAlone(g, j)
    ensures SortableFrom(g, CallEvents(j)) ==> (Accepted(g, [j]) <==> UsableAlone(g, j))
  {
    hide Run;
    hide ParseUnit;
    hide Legal;
    hide Ordered;
    hide AllUsable;
    hide UsableAlone;
    hide CallEvents;
    hide JobsEvents;
    hide SortableFrom;
    AloneIsUsable(g, j);
    UnitTheorem(g, [j]);
    CallEventsAreFull(j);
    SameFull(g, JobsEvents([j]), CallEvents(j));
    if SortableFrom(g, CallEvents(j)) {
      SortableIsAccepted(g, [j]);
    }
  }

  /** `int f(int, ...)` */
  const LOGGER := Function(Qual(Basic(Int), false), [Qual(Basic(Int), false)], CC_C, true, false)

  /** `void f(struct c, ...)` */
  function Taking(c: Composite): Type {
    Function(Qual(Void, false), [Qual(Comp(c), false)], CC_C, true, false)
  }

  lemma StructEvents(c: Composite)
    ensures JobOk(Job(0, LOGGER, [Comp(c)])) && CallEvents(Job(0, LOGGER, [Comp(c)])) == [Event(c, Forward)]
    ensures JobOk(Job(0, Taking(c), [Comp(c)]))
    ensures CallEvents(Job(0, Taking(c), [Comp(c)])) == [Event(c, Full), Event(c, Forward)]
  {
    assert LOGGER.params[1..] == [] && Taking(c).params[1..] == [] && [Comp(c)][..0] == [];
    assert PtrEvents([Comp(c)]) == PtrEvents([Comp(c)][..0]) + Events(Ptr(Comp(c)), Full);
    assert Events(Ptr(Comp(c)), Full) == Events(Comp(c), Forward) == [Event(c, Forward)];
    assert ParamEvents(Taking(c).params) == Events(Comp(c), Full) + ParamEvents(Taking(c).params[1..]);
    assert ParamEvents(LOGGER.params) == Events(Basic(Int), Full) + ParamEvents(LOGGER.params[1..]);
  }

  /** On every graph, a struct passed as a variadic argument of `int f(int, ...)` is only
      declared forward, so the wrapper dereferences a pointer to an incomplete type. */
  lemma VariadicStruct(g: Graph, c: Composite)
    ensures JobOk(Job(0, LOGGER, [Comp(c)])) && !Accepted(g, [Job(0, LOGGER, [Comp(c)])])
  {
    hide Accepted;
    hide CallEvents;
    var j := Job(0, LOGGER, [Comp(c)]);
    StructEvents(c);
    AloneIsAccepted(g, j);
    assert FullOf([Event(c, Forward)]) == {};
    assert Comp(c) in j.varArgs && c in Needs(Comp(c), true);
    assert !Reached(g, CallEvents(j), c);
  }

  /** It is accepted if the function takes the same struct as a parameter. */
  lemma VariadicStructOfParam(g: Graph, c: Composite)
    requires SortableFrom(g, [Event(c, Full)])
    ensures JobOk(Job(0, Taking(c), [Comp(c)])) && Accepted(g, [Job(0, Taking(c), [Comp(c)])])
  {
    hide Accepted;
    hide CallEvents;
    hide SortableFrom;
    hide Reaches;
    var j := Job(0, Taking(c), [Comp(c)]);
    StructEvents(c);
    AloneIsAccepted(g, j);
    var es := CallEvents(j);
    assert Event(c, Full) in es && c in FullOf(es);
    assert FullOf(es) == FullOf([Event(c, Full)]);
    SameFull(g, es, [Event(c, Full)]);
    ReachesSelf(g, c);
    assert Reached(g, es, c);
    assert ArgTypes(j) == [Comp(c), Comp(c)];
    assert forall t, b | t in j.varArgs && b in Needs(t, true) :: b == c;
  }

  /** On every graph, a wrapper of a function type whose one parameter is void is rejected,
      together with all others of its file. */
  lemma LoneVoidIsRejected(g: Graph, jobs: seq<Job>, j: Job)
    requires (forall i | i in jobs :: JobOk(i)) && j in jobs && JobOk(j) && LoneVoid(j.fty.params, j.fty.variadic)
    ensures !Accepted(g, jobs)
  {
    hide ParseUnit;
    hide Legal;
    hide Run;
    assert ArgTypes(j)[0] == Void;
    assert !CallUsable(g, jobs, j);
    UnitTheorem(g, jobs);
  }
}
