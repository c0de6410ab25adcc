/** Flattening anonymous members.

    After inlining, the field map of a composite should answer as C does: the members of an
    anonymous struct or union are members of the structure that contains it (section
    6.7.2.1 paragraph 13 of ISO/IEC 9899:2011), at any depth. The reference is lookup
    along a path of anonymous members.
 */
module Inliner {
  import opened Types

  const ANONYMOUS := "__dffi_anon_"

  /** Anonymous members are recognised by the name they were given at import. */
  predicate Inlinable(f: Field) {
    ANONYMOUS <= f.name && f.ty.Comp?
  }

  // ----- Lookup through anonymous members ----------------------------------------------

  /** `p` leads from `c` through anonymous members to the composite that declares `f`. */
  ghost predicate Path(g: Graph, c: Composite, p: seq<Field>, f: Field)
    decreases |p|
  {
    if p == [] then f in Fields(g, c) && !Inlinable(f)
    else p[0] in Fields(g, c) && Inlinable(p[0]) && Path(g, p[0].ty.c, p[1..], f)
  }

  function Sum(p: seq<Field>): nat {
    if p == [] then 0 else p[0].offset + Sum(p[1..])
  }

  function Shift(f: Field, base: nat): Field {
    f.(offset := base + f.offset)
  }

  /** `c` has the member `v`, whose offset counts from the start of `c`. */
  ghost predicate Visible(g: Graph, c: Composite, v: Field) {
    exists p, f :: Path(g, c, p, f) && v == Shift(f, Sum(p))
  }

  /** No member that can be named is ambiguous. */
  ghost predicate UniqueNames(g: Graph) {
    && (forall c, f, h | f in Fields(g, c) && h in Fields(g, c) && f.name == h.name :: f == h)
    && (forall c, p, f, q, h | Path(g, c, p, f) && Path(g, c, q, h) && f.name == h.name :: p == q && f == h)
  }

  /** No composite contains itself through anonymous members. */
  ghost predicate Acyclic(g: Graph, rank: Composite -> nat) {
    forall c, f | f in Fields(g, c) && Inlinable(f) :: rank(f.ty.c) < rank(c)
  }

  lemma VisibleHere(g: Graph, c: Composite, f: Field)
    requires f in Fields(g, c) && !Inlinable(f)
    ensures Visible(g, c, f)
  {
    assert Path(g, c, [], f) && f == Shift(f, Sum([]));
  }

  lemma VisibleBelow(g: Graph, c: Composite, f: Field, v: Field)
    requires f in Fields(g, c) && Inlinable(f) && Visible(g, f.ty.c, v)
    ensures Visible(g, c, Shift(v, f.offset))
  {
    var p, h :| Path(g, f.ty.c, p, h) && v == Shift(h, Sum(p));
    assert ([f] + p)[1..] == p;
    assert Path(g, c, [f] + p, h) && Shift(v, f.offset) == Shift(h, Sum([f] + p));
  }

  /** A visible member is a member of `c` itself or one of an anonymous member of `c`. */
  lemma VisibleCases(g: Graph, c: Composite, v: Field) returns (here: bool, f: Field, below: Field)
    requires Visible(g, c, v)
    ensures f in Fields(g, c)
    ensures here ==> v == f && !Inlinable(f)
    ensures !here ==> Inlinable(f) && Visible(g, f.ty.c, below) && v == Shift(below, f.offset)
  {
    var p, h :| Path(g, c, p, h) && v == Shift(h, Sum(p));
    if p == [] {
      here, f, below := true, h, h;
    } else {
      here, f, below := false, p[0], Shift(h, Sum(p[1..]));
      assert Path(g, f.ty.c, p[1..], h);
    }
  }

  /** A struct or union member whose name is one of those given to members without name. */
  ghost predicate Nameless(f: Field) {
    f.ty.Comp? && exists s: string :: f.name == "__dffi_anon_" + s
  }

  lemma NamelessIsInlinable(f: Field)
    ensures Nameless(f) <==> Inlinable(f)
  {
    if Inlinable(f) {
      assert f.name == "__dffi_anon_" + f.name[|ANONYMOUS|..];
    }
  }

  /** `f` is a nameless struct or union with the member `w`. */
  ghost predicate NamelessOver(g: Graph, f: Field, w: Field) {
    Nameless(f) && Visible(g, f.ty.c, w)
  }

  /** The members of `c` are its own, but for nameless structs and unions, and those of the
      nameless ones, moved by the offset of these. */
  lemma VisibleMeans(g: Graph, c: Composite, v: Field)
    ensures Visible(g, c, v) <==>
            || (v in Fields(g, c) && !Nameless(v))
            || exists f, w :: f in Fields(g, c) && NamelessOver(g, f, w) && v == Field(w.name, w.ty, f.offset + w.offset)
  {
    hide Visible;
    hide Path;
    forall f: Field ensures Nameless(f) <==> Inlinable(f) {
      NamelessIsInlinable(f);
    }
    if Visible(g, c, v) {
      var here, f, below := VisibleCases(g, c, v);
      assert here || (NamelessOver(g, f, below) && v == Field(below.name, below.ty, f.offset + below.offset));
    }
    if v in Fields(g, c) && !Nameless(v) {
      VisibleHere(g, c, v);
    }
    if f, w :| f in Fields(g, c) && NamelessOver(g, f, w) && v == Field(w.name, w.ty, f.offset + w.offset) {
      VisibleBelow(g, c, f, w);
    }
  }

  /** Two anonymous members of `c`, or one and a member of `c` itself, never show the same
      name. */
  lemma BelowIsUnique(g: Graph, c: Composite, f: Field, v: Field, h: Field, w: Field)
    requires UniqueNames(g)
    requires f in Fields(g, c) && Inlinable(f) && Visible(g, f.ty.c, v)
    requires h in Fields(g, c) && Inlinable(h) && Visible(g, h.ty.c, w)
    requires v.name == w.name
    ensures f == h && v == w
  {
    var p, a :| Path(g, f.ty.c, p, a) && v == Shift(a, Sum(p));
    var q, b :| Path(g, h.ty.c, q, b) && w == Shift(b, Sum(q));
    assert ([f] + p)[1..] == p && ([h] + q)[1..] == q;
    assert Path(g, c, [f] + p, a) && Path(g, c, [h] + q, b);
    assert [f] + p == [h] + q;
    assert ([f] + p)[0] == ([h] + q)[0];
  }

  lemma HereNotBelow(g: Graph, c: Composite, f: Field, h: Field, w: Field)
    requires UniqueNames(g)
    requires f in Fields(g, c) && !Inlinable(f)
    requires h in Fields(g, c) && Inlinable(h) && Visible(g, h.ty.c, w)
    ensures f.name != w.name
  {
    var q, b :| Path(g, h.ty.c, q, b) && w == Shift(b, Sum(q));
    assert ([h] + q)[1..] == q;
    assert Path(g, c, [], f) && Path(g, c, [h] + q, b);
    assert [] != [h] + q;
  }

  // ----- Field maps --------------------------------------------------------------------

  type FieldMap = map<string, Field>

  /** The map `setBody` fills: a later field of the same name wins. */
  function Initial(fields: seq<Field>): FieldMap {
    if fields == [] then map[]
    else
      var n := |fields| - 1;
      Initial(fields[..n])[fields[n].name := fields[n]]
  }

  lemma {:induction false} InitialHolds(fields: seq<Field>)
    requires forall f, h | f in fields && h in fields && f.name == h.name :: f == h
    ensures forall n | n in Initial(fields) :: Initial(fields)[n] in fields && Initial(fields)[n].name == n
    ensures forall f | f in fields :: f.name in Initial(fields) && Initial(fields)[f.name] == f
  {
    if fields != [] {
      var n := |fields| - 1;
      InitialHolds(fields[..n]);
      assert fields == fields[..n] + [fields[n]];
    }
  }

  lemma InitialIs(g: Graph, c: Composite)
    requires UniqueNames(g)
    ensures var m := Initial(Fields(g, c));
            && (forall n | n in m :: m[n] in Fields(g, c) && m[n].name == n)
            && (forall f | f in Fields(g, c) :: f.name in m && m[f.name] == f)
  {
    hide Path;
    InitialHolds(Fields(g, c));
  }

  lemma InlinableNames(g: Graph, c: Composite, names: set<string>)
    requires UniqueNames(g)
    requires var m := Initial(Fields(g, c)); forall n :: n in names <==> n in m && Inlinable(m[n])
    ensures names != {} <==> exists f :: f in Fields(g, c) && Inlinable(f)
  {
    hide UniqueNames;
    hide Initial;
    InitialIs(g, c);
    var m := Initial(Fields(g, c));
    if n :| n in names {
      assert m[n] in Fields(g, c) && Inlinable(m[n]);
    }
    if f :| f in Fields(g, c) && Inlinable(f) {
      assert f.name in names;
    }
  }

  /** The map shows exactly the visible members. */
  ghost predicate Shows(g: Graph, c: Composite, m: FieldMap) {
    && (forall n | n in m :: m[n].name == n && Visible(g, c, m[n]))
    && (forall v | Visible(g, c, v) :: v.name in m && m[v.name] == v)
  }

  /** What inlining must produce from `c`'s own fields and its anonymous members' maps. */
  ghost predicate Merged(g: Graph, c: Composite, maps: map<Composite, FieldMap>, m: FieldMap) {
    && (forall n | n in m :: m[n].name == n &&
          ((m[n] in Fields(g, c) && !Inlinable(m[n])) || FromBelow(g, c, maps, m[n])))
    && (forall f | f in Fields(g, c) && !Inlinable(f) :: f.name in m && m[f.name] == f)
    && (forall f, n | f in Fields(g, c) && Inlinable(f) && f.ty.c in maps && n in maps[f.ty.c] ::
          n in m && m[n] == Shift(maps[f.ty.c][n], f.offset))
  }

  ghost predicate FromBelow(g: Graph, c: Composite, maps: map<Composite, FieldMap>, v: Field) {
    exists f, n :: f in Fields(g, c) && Inlinable(f) && f.ty.c in maps && n in maps[f.ty.c]
                   && v == Shift(maps[f.ty.c][n], f.offset)
  }

  lemma MergedShows(g: Graph, c: Composite, maps: map<Composite, FieldMap>, m: FieldMap)
    requires UniqueNames(g) && Merged(g, c, maps, m)
    requires forall f | f in Fields(g, c) && Inlinable(f) :: f.ty.c in maps && Shows(g, f.ty.c, maps[f.ty.c])
    ensures Shows(g, c, m)
  {
    hide Visible;
    hide UniqueNames;
    forall n | n in m ensures m[n].name == n && Visible(g, c, m[n]) {
      if m[n] in Fields(g, c) && !Inlinable(m[n]) {
        VisibleHere(g, c, m[n]);
      } else {
        var f, k :| f in Fields(g, c) && Inlinable(f) && f.ty.c in maps && k in maps[f.ty.c]
                    && m[n] == Shift(maps[f.ty.c][k], f.offset);
        VisibleBelow(g, c, f, maps[f.ty.c][k]);
      }
    }
    forall v | Visible(g, c, v) ensures v.name in m && m[v.name] == v {
      var here, f, below := VisibleCases(g, c, v);
      if !here {
        assert below.name in maps[f.ty.c];
      }
    }
  }

  // ----- The inliner ---------------------------------------------------------------------

  /** The anonymous members of `c` have been inlined themselves. */
  ghost predicate Ready(g: Graph, c: Composite, maps: map<Composite, FieldMap>) {
    forall f | f in Fields(g, c) && Inlinable(f) :: f.ty.c in maps && Shows(g, f.ty.c, maps[f.ty.c])
  }

  /** The members of `f`'s composite as members of the composite that contains `f`. */
  ghost predicate Collected(f: Field, m: FieldMap, inlined: seq<Field>) {
    forall n | n in m :: Shift(m[n], f.offset) in inlined
  }

  lemma CollectedStays(f: Field, m: FieldMap, before: seq<Field>, after: seq<Field>)
    requires Collected(f, m, before) && before <= after
    ensures Collected(f, m, after)
  {
    assert forall v | v in before :: v in after;
  }

  function InsertAll(m: FieldMap, fs: seq<Field>): FieldMap {
    if fs == [] then m
    else
      var n := |fs| - 1;
      InsertAll(m, fs[..n])[fs[n].name := fs[n]]
  }

  lemma {:induction false} InsertAllHolds(m: FieldMap, fs: seq<Field>)
    requires forall f, h | f in fs && h in fs && f.name == h.name :: f == h
    requires forall f | f in fs :: f.name !in m
    ensures forall n | n in m :: n in InsertAll(m, fs) && InsertAll(m, fs)[n] == m[n]
    ensures forall f | f in fs :: f.name in InsertAll(m, fs) && InsertAll(m, fs)[f.name] == f
    ensures forall n | n in InsertAll(m, fs) :: n in m || (InsertAll(m, fs)[n] in fs && InsertAll(m, fs)[n].name == n)
  {
    if fs != [] {
      var n := |fs| - 1;
      InsertAllHolds(m, fs[..n]);
      assert fs == fs[..n] + [fs[n]];
    }
  }

  /** Keeping the named fields and adding what was collected merges. */
  lemma InsertMerges(g: Graph, c: Composite, maps: map<Composite, FieldMap>, kept: FieldMap, inlined: seq<Field>)
    requires UniqueNames(g) && Ready(g, c, maps)
    requires forall n | n in kept :: kept[n].name == n && kept[n] in Fields(g, c) && !Inlinable(kept[n])
    requires forall f | f in Fields(g, c) && !Inlinable(f) :: f.name in kept && kept[f.name] == f
    requires forall v | v in inlined :: FromBelow(g, c, maps, v)
    requires forall f | f in Fields(g, c) && Inlinable(f) :: Collected(f, maps[f.ty.c], inlined)
    ensures Merged(g, c, maps, InsertAll(kept, inlined))
  {
    hide Visible;
    hide UniqueNames;
    hide InsertAll;
    forall v, w | v in inlined && w in inlined && v.name == w.name ensures v == w {
      var f, n :| f in Fields(g, c) && Inlinable(f) && f.ty.c in maps && n in maps[f.ty.c] && v == Shift(maps[f.ty.c][n], f.offset);
      var h, k :| h in Fields(g, c) && Inlinable(h) && h.ty.c in maps && k in maps[h.ty.c] && w == Shift(maps[h.ty.c][k], h.offset);
      BelowIsUnique(g, c, f, maps[f.ty.c][n], h, maps[h.ty.c][k]);
    }
    forall v | v in inlined ensures v.name !in kept {
      var h, k :| h in Fields(g, c) && Inlinable(h) && h.ty.c in maps && k in maps[h.ty.c] && v == Shift(maps[h.ty.c][k], h.offset);
      if v.name in kept {
        HereNotBelow(g, c, kept[v.name], h, maps[h.ty.c][k]);
      }
    }
    InsertAllHolds(kept, inlined);
    var m := InsertAll(kept, inlined);
    forall f, n | f in Fields(g, c) && Inlinable(f) && f.ty.c in maps && n in maps[f.ty.c]
      ensures n in m && m[n] == Shift(maps[f.ty.c][n], f.offset)
    {
      assert Collected(f, maps[f.ty.c], inlined);
      assert Shift(maps[f.ty.c][n], f.offset) in inlined;
    }
  }

  lemma NothingToInline(g: Graph, c: Composite)
    requires UniqueNames(g) && forall f | f in Fields(g, c) :: !Inlinable(f)
    ensures Shows(g, c, Initial(Fields(g, c)))
  {
    InitialIs(g, c);
    assert Merged(g, c, map[], Initial(Fields(g, c)));
    MergedShows(g, c, map[], Initial(Fields(g, c)));
  }

  /** Composites not visited are as `setBody` left them, and every anonymous member has a
      composite of the table. */
  ghost predicate Untouched(g: Graph, maps: map<Composite, FieldMap>, visited: set<Composite>) {
    && (forall c | c in maps && c !in visited :: maps[c] == Initial(Fields(g, c)))
    && (forall c, f | c in maps && f in Fields(g, c) && Inlinable(f) :: f.ty.c in maps)
  }

  /** A visited composite is finished, unless it is being worked on above rank `r`. */
  ghost predicate FinishedBelow(g: Graph, maps: map<Composite, FieldMap>, visited: set<Composite>,
                                rank: Composite -> nat, r: nat) {
    forall d | d in visited :: d in maps && (Shows(g, d, maps[d]) || rank(d) >= r)
  }

  /** From one state of the recursion to a later one. */
  ghost predicate Advances(g: Graph, maps: map<Composite, FieldMap>, visited: set<Composite>,
                           maps': map<Composite, FieldMap>, visited': set<Composite>) {
    && maps'.Keys == maps.Keys && visited <= visited'
    && (forall d | d in visited && d in maps :: maps'[d] == maps[d])
    && (forall d | d in visited' && d !in visited :: d in maps' && Shows(g, d, maps'[d]))
  }

  lemma AdvancesTrans(g: Graph, m0: map<Composite, FieldMap>, v0: set<Composite>, m1: map<Composite, FieldMap>,
                      v1: set<Composite>, m2: map<Composite, FieldMap>, v2: set<Composite>)
    requires Advances(g, m0, v0, m1, v1) && Advances(g, m1, v1, m2, v2)
    ensures Advances(g, m0, v0, m2, v2)
  {
    hide Shows;
  }

  /** While `c` is worked on, a member of lower rank may be started. */
  lemma FinishedForMember(g: Graph, m0: map<Composite, FieldMap>, visited: set<Composite>, c: Composite,
                          maps: map<Composite, FieldMap>, visited': set<Composite>, rank: Composite -> nat, f: Field)
    requires Acyclic(g, rank) && f in Fields(g, c) && Inlinable(f) && c in m0
    requires FinishedBelow(g, m0, visited, rank, rank(c) + 1) && Advances(g, m0, visited + {c}, maps, visited')
    ensures FinishedBelow(g, maps, visited', rank, rank(f.ty.c) + 1)
  {
    hide Shows;
    assert rank(f.ty.c) < rank(c);
    forall d | d in visited' ensures d in maps && (Shows(g, d, maps[d]) || rank(d) >= rank(f.ty.c) + 1) {
      if d in visited {
        assert d in m0 && maps[d] == m0[d];
      }
    }
  }

  /** Once its members were visited, `c` can be inlined. */
  lemma ReadyNow(g: Graph, m0: map<Composite, FieldMap>, visited: set<Composite>, c: Composite,
                 maps: map<Composite, FieldMap>, visited': set<Composite>, rank: Composite -> nat)
    requires Acyclic(g, rank) && c in m0
    requires FinishedBelow(g, m0, visited, rank, rank(c) + 1) && Advances(g, m0, visited + {c}, maps, visited')
    requires forall f | f in Fields(g, c) && Inlinable(f) :: f.ty.c in visited'
    ensures Ready(g, c, maps)
  {
    hide Shows;
    forall f | f in Fields(g, c) && Inlinable(f) ensures f.ty.c in maps && Shows(g, f.ty.c, maps[f.ty.c]) {
      assert rank(f.ty.c) < rank(c);
      if f.ty.c in visited {
        assert f.ty.c in m0 && maps[f.ty.c] == m0[f.ty.c];
      }
    }
  }

  lemma FinishVisit(g: Graph, m0: map<Composite, FieldMap>, visited: set<Composite>, c: Composite,
                    mid: map<Composite, FieldMap>, visited': set<Composite>, maps: map<Composite, FieldMap>)
    requires c in m0 && c !in visited && Advances(g, m0, visited + {c}, mid, visited') && Untouched(g, mid, visited')
    requires maps.Keys == mid.Keys && Shows(g, c, maps[c])
    requires forall d | d in maps && d != c :: maps[d] == mid[d]
    ensures Advances(g, m0, visited, maps, visited') && Untouched(g, maps, visited')
  {
    hide Shows;
    forall d | d in visited' && d !in visited ensures d in maps && Shows(g, d, maps[d]) {
      assert d != c ==> d in mid && Shows(g, d, mid[d]);
    }
  }

  class CompositeTable {
    const g: Graph
    var fieldsMap: map<Composite, FieldMap>

    /** All composites of the unit, each with the field map `setBody` filled. */
    constructor (g: Graph, all: set<Composite>)
      ensures this.g == g && fieldsMap.Keys == all
      ensures forall c | c in all :: fieldsMap[c] == Initial(Fields(g, c))
    {
      this.g := g;
      fieldsMap := map c | c in all :: Initial(Fields(g, c));
    }

    /** Erases the anonymous members from the map and lists their members, in the arbitrary
        order of the hash maps. */
    method Collect(c: Composite) returns (kept: FieldMap, inlined: seq<Field>)
      requires c in fieldsMap && fieldsMap[c] == Initial(Fields(g, c))
      requires UniqueNames(g) && Ready(g, c, fieldsMap)
      ensures forall n | n in kept :: kept[n].name == n && kept[n] in Fields(g, c) && !Inlinable(kept[n])
      ensures forall f | f in Fields(g, c) && !Inlinable(f) :: f.name in kept && kept[f.name] == f
      ensures forall v | v in inlined :: FromBelow(g, c, fieldsMap, v)
      ensures forall f | f in Fields(g, c) && Inlinable(f) :: Collected(f, fieldsMap[f.ty.c], inlined)
    {
      hide Shows;
      hide FromBelow;
      hide Collected;
      hide Initial;
      hide UniqueNames;
      var start := fieldsMap[c];
      InitialIs(g, c);
      kept, inlined := start, [];
      var todo := set n | n in start && Inlinable(start[n]);
      while todo != {}
        invariant todo <= start.Keys
        invariant forall n | n in todo :: Inlinable(start[n])
        invariant forall n | n in kept :: n in start && kept[n] == start[n]
        invariant forall n | n in start :: n in kept <==> n in todo || !Inlinable(start[n])
        invariant forall v | v in inlined :: FromBelow(g, c, fieldsMap, v)
        invariant forall f | f in Fields(g, c) && Inlinable(f) && f.name !in todo :: Collected(f, fieldsMap[f.ty.c], inlined)
        decreases |todo|
      {
        var n :| n in todo;
        var cf := start[n];
        ghost var before := inlined;
        kept := kept - {n};
        todo := todo - {n};
        inlined := CollectOne(c, cf, inlined);
        forall f | f in Fields(g, c) && Inlinable(f) && f.name !in todo
          ensures Collected(f, fieldsMap[f.ty.c], inlined)
        {
          if f.name != n {
            CollectedStays(f, fieldsMap[f.ty.c], before, inlined);
          }
        }
      }
    }

    method CollectOne(c: Composite, cf: Field, before: seq<Field>) returns (inlined: seq<Field>)
      requires cf in Fields(g, c) && Inlinable(cf) && cf.ty.c in fieldsMap
      ensures before <= inlined && Collected(cf, fieldsMap[cf.ty.c], inlined)
      ensures forall v | v in inlined :: v in before || FromBelow(g, c, fieldsMap, v)
    {
      inlined := before;
      var inner := fieldsMap[cf.ty.c];
      var keys := inner.Keys;
      while keys != {}
        invariant keys <= inner.Keys && before <= inlined
        invariant forall k | k in inner && k !in keys :: Shift(inner[k], cf.offset) in inlined
        invariant forall v | v in inlined :: v in before || FromBelow(g, c, fieldsMap, v)
        decreases |keys|
      {
        var k :| k in keys;
        keys := keys - {k};
        inlined := inlined + [Field(inner[k].name, inner[k].ty, cf.offset + inner[k].offset)];
        assert FromBelow(g, c, fieldsMap, Shift(inner[k], cf.offset));
      }
    }

    method InlineAnonymousMembers(c: Composite)
      requires c in fieldsMap && fieldsMap[c] == Initial(Fields(g, c))
      requires UniqueNames(g) && Ready(g, c, fieldsMap)
      modifies this
      ensures fieldsMap.Keys == old(fieldsMap).Keys
      ensures forall d | d in fieldsMap && d != c :: fieldsMap[d] == old(fieldsMap)[d]
      ensures Shows(g, c, fieldsMap[c])
    {
      hide Shows;
      hide UniqueNames;
      hide Merged;
      hide Inlinable;
      hide Collected;
      hide FromBelow;
      var m, inlined := Collect(c);
      InsertMerges(g, c, fieldsMap, m, inlined);
      MergedShows(g, c, fieldsMap, InsertAll(m, inlined));
      ghost var kept := m;
      var i := 0;
      while i < |inlined|
        invariant 0 <= i <= |inlined|
        invariant m == InsertAll(kept, inlined[..i])
      {
        assert inlined[..i + 1][..i] == inlined[..i];
        m := m[inlined[i].name := inlined[i]];
        i := i + 1;
      }
      assert inlined[..i] == inlined;
      fieldsMap := fieldsMap[c := m];
    }

    /** Depth first: the anonymous members of `c` before `c` itself. */
    method InlineImpl(visited: set<Composite>, c: Composite, ghost rank: Composite -> nat)
      returns (visited': set<Composite>)
      requires c in fieldsMap && UniqueNames(g) && Acyclic(g, rank)
      requires Untouched(g, fieldsMap, visited) && FinishedBelow(g, fieldsMap, visited, rank, rank(c) + 1)
      modifies this
      ensures Untouched(g, fieldsMap, visited') && c in visited'
      ensures Advances(g, old(fieldsMap), visited, fieldsMap, visited')
      decreases fieldsMap.Keys - visited, 1
    {
      hide Shows;
      hide UniqueNames;
      hide Initial;
      hide FinishedBelow;
      hide Acyclic;
      visited' := visited;
      if c in visited {
        return;
      }
      ghost var m0 := fieldsMap;
      var any;
      visited', any := VisitMembers(visited, c, rank);
      ghost var mid := fieldsMap;
      if any {
        ReadyNow(g, m0, visited, c, mid, visited', rank);
        InlineAnonymousMembers(c);
      } else {
        NothingToInline(g, c);
      }
      FinishVisit(g, m0, visited, c, mid, visited', fieldsMap);
    }

    /** Marks `c` and visits the composites of its anonymous members, in any order. */
    method VisitMembers(visited: set<Composite>, c: Composite, ghost rank: Composite -> nat)
      returns (visited': set<Composite>, any: bool)
      requires c in fieldsMap && UniqueNames(g) && Acyclic(g, rank) && c !in visited
      requires Untouched(g, fieldsMap, visited) && FinishedBelow(g, fieldsMap, visited, rank, rank(c) + 1)
      modifies this
      ensures Untouched(g, fieldsMap, visited') && c in visited' && c in fieldsMap
      ensures Advances(g, old(fieldsMap), visited + {c}, fieldsMap, visited')
      ensures fieldsMap[c] == Initial(Fields(g, c))
      ensures any <==> exists f :: f in Fields(g, c) && Inlinable(f)
      ensures forall f | f in Fields(g, c) && Inlinable(f) :: f.ty.c in visited'
      decreases fieldsMap.Keys - visited, 0
    {
      hide Shows;
      hide UniqueNames;
      hide Initial;
      hide FinishedBelow;
      hide Acyclic;
      ghost var m0 := fieldsMap;
      visited' := visited + {c};
      var start := fieldsMap[c];
      InitialIs(g, c);
      var ctys := set n | n in start && Inlinable(start[n]);
      any := ctys != {};
      assert start == Initial(Fields(g, c));
      InlinableNames(g, c, ctys);
      while ctys != {}
        invariant ctys <= start.Keys && forall n | n in ctys :: Inlinable(start[n])
        invariant Untouched(g, fieldsMap, visited') && c in visited'
        invariant Advances(g, m0, visited + {c}, fieldsMap, visited')
        invariant forall f | f in Fields(g, c) && Inlinable(f) && f.name !in ctys :: f.ty.c in visited'
        decreases |ctys|
      {
        var n :| n in ctys;
        ctys := ctys - {n};
        ghost var m1, v1 := fieldsMap, visited';
        assert start[n] in Fields(g, c) && start[n].ty.c in m1;
        FinishedForMember(g, m0, visited, c, m1, v1, rank, start[n]);
        visited' := InlineImpl(visited', start[n].ty.c, rank);
        AdvancesTrans(g, m0, visited + {c}, m1, v1, fieldsMap, visited');
      }
    }

    /** Whatever the order in which the type table lists the composites, each ends with
        exactly its visible members. */
    method InlineCompositesAnonymousMembers(order: seq<Composite>, ghost rank: Composite -> nat)
      requires UniqueNames(g) && Acyclic(g, rank) && Untouched(g, fieldsMap, {})
      requires forall c | c in order :: c in fieldsMap
      modifies this
      ensures fieldsMap.Keys == old(fieldsMap).Keys
      ensures forall c | c in order :: Shows(g, c, fieldsMap[c])
    {
      hide Shows;
      hide UniqueNames;
      var visited: set<Composite> := {};
      for i := 0 to |order|
        invariant fieldsMap.Keys == old(fieldsMap).Keys
        invariant Untouched(g, fieldsMap, visited)
        invariant forall d | d in visited :: d in fieldsMap && Shows(g, d, fieldsMap[d])
        invariant forall c | c in order[..i] :: c in visited
      {
        assert order[..i + 1] == order[..i] + [order[i]];
        visited := InlineImpl(visited, order[i], rank);
      }
      assert order[..|order|] == order;
    }

    /** Field lookup after inlining is lookup through anonymous members. */
    method GetField(c: Composite, name: string) returns (r: Option<Field>)
      requires c in fieldsMap && Shows(g, c, fieldsMap[c])
      ensures r.Some? ==> r.value.name == name && Visible(g, c, r.value)
      ensures r.Some? ==> forall v | Visible(g, c, v) && v.name == name :: v == r.value
      ensures r.None? ==> forall v | Visible(g, c, v) :: v.name != name
    {
      hide Visible;
      if name in fieldsMap[c] {
        r := Some(fieldsMap[c][name]);
      } else {
        r := None;
      }
    }
  }

  // ----- Whole runs ------------------------------------------------------------------------

  /** A field is asked for. */
  datatype Query = Query(c: Composite, name: string)

  ghost predicate Answers(g: Graph, q: Query, r: Option<Field>) {
    match r
    case Some(f) => f.name == q.name && Visible(g, q.c, f) && forall v | Visible(g, q.c, v) && v.name == q.name :: v == f
    case None => forall v | Visible(g, q.c, v) :: v.name != q.name
  }

  /** An answer finds the members of nameless structs and unions at their summed offset, and
      every other field under its own name. */
  lemma AnswerFinds(g: Graph, q: Query, r: Option<Field>)
    requires Answers(g, q, r)
    ensures forall f | f in Fields(g, q.c) && !Nameless(f) && f.name == q.name :: r == Some(f)
    ensures forall f, w | f in Fields(g, q.c) && NamelessOver(g, f, w) && w.name == q.name ::
              r == Some(Field(w.name, w.ty, f.offset + w.offset))
  {
    hide Visible;
    hide Nameless;
    hide NamelessOver;
    forall v ensures Visible(g, q.c, v) <==>
      || (v in Fields(g, q.c) && !Nameless(v))
      || exists f, w :: f in Fields(g, q.c) && NamelessOver(g, f, w) && v == Field(w.name, w.ty, f.offset + w.offset)
    {
      VisibleMeans(g, q.c, v);
    }
  }

  /** Sets the bodies of all composites, inlines them in the order given, and then looks
      fields up: every answer is what lookup through anonymous members gives. */
  method RunLookups(g: Graph, order: seq<Composite>, queries: seq<Query>, ghost rank: Composite -> nat)
    returns (answers: seq<Option<Field>>)
    requires UniqueNames(g) && Acyclic(g, rank)
    requires forall c, f | c in order && f in Fields(g, c) && Inlinable(f) :: f.ty.c in order
    requires forall q | q in queries :: q.c in order
    ensures |answers| == |queries|
    ensures forall i | 0 <= i < |queries| :: Answers(g, queries[i], answers[i])
  {
    hide Visible;
    hide UniqueNames;
    hide Acyclic;
    hide Shows;
    var all := set c | c in order;
    var t := new CompositeTable(g, all);
    t.InlineCompositesAnonymousMembers(order, rank);
    ghost var done := t.fieldsMap;
    answers := [];
    for n := 0 to |queries|
      invariant |answers| == n && t.fieldsMap == done
      invariant forall i | 0 <= i < n :: Answers(g, queries[i], answers[i])
    {
      var q := queries[n];
      assert q in queries;
      var r := t.GetField(q.c, q.name);
      answers := answers + [r];
    }
  }
}
