/** Ownership of memory blocks by `Data<void>` objects.

    Objects live in numbered slots. `free` is recorded, so freeing twice, freeing viewed
    memory and losing a block are all visible.
 */
module Ownership {
  import opened Types

  type Block = nat
  type Slot = nat

  datatype Data = Data(ptr: Option<Block>, owned: bool)

  const EMPTY := Data(None, false)

  /** The objects that exist, and the blocks freed so far, in order. */
  datatype World = World(slots: map<Slot, Data>, freed: seq<Block>)

  datatype Op =
    | Adopt(s: Slot, b: Block)      // Data::owned_free
    | View(s: Slot, b: Block)       // Data::view
    | Default(s: Slot)
    | Move(s: Slot, from: Slot)     // Data(Data&&)
    | Assign(s: Slot, from: Slot)   // operator=(Data&&)
    | Destroy(s: Slot)

  /** What the language and the callers guarantee: objects are created in free slots and used
      while they live, and only blocks never adopted before are adopted. */
  predicate Allowed(op: Op, w: World, adopted: set<Block>) {
    match op
    case Adopt(s, b) => s !in w.slots && b !in adopted
    case View(s, _) => s !in w.slots
    case Default(s) => s !in w.slots
    case Move(s, f) => s !in w.slots && f in w.slots
    case Assign(s, f) => s in w.slots && f in w.slots
    case Destroy(s) => s in w.slots
  }

  /** `clear`: only an owner frees. */
  function Freed(d: Data, freed: seq<Block>): seq<Block> {
    if d.owned && d.ptr.Some? then freed + [d.ptr.value] else freed
  }

  /** Taking over from another object leaves it an empty view (`release`). */
  function Step(op: Op, w: World): World {
    match op
    case Adopt(s, b) => w.(slots := w.slots[s := Data(Some(b), true)])
    case View(s, b) => w.(slots := w.slots[s := Data(Some(b), false)])
    case Default(s) => w.(slots := w.slots[s := EMPTY])
    case Move(s, f) => if f in w.slots then w.(slots := w.slots[s := w.slots[f]][f := EMPTY]) else w
    case Assign(s, f) =>
      if s == f || s !in w.slots || f !in w.slots then w
      else World(w.slots[s := w.slots[f]][f := EMPTY], Freed(w.slots[s], w.freed))
    case Destroy(s) => if s in w.slots then World(w.slots - {s}, Freed(w.slots[s], w.freed)) else w
  }

  function Adopts(op: Op): set<Block> {
    if op.Adopt? then {op.b} else {}
  }

  ghost predicate Owns(w: World, s: Slot, b: Block) {
    s in w.slots && w.slots[s] == Data(Some(b), true)
  }

  /** Every adopted block has exactly one owner or has been freed exactly once, not both;
      nothing else is owned or freed. */
  ghost predicate Sound(w: World, adopted: set<Block>) {
    && (forall b | b in adopted :: b in w.freed <==> !exists s :: Owns(w, s, b))
    && (forall s, t, b | Owns(w, s, b) && Owns(w, t, b) :: s == t)
    && (forall s, b | Owns(w, s, b) :: b in adopted)
    && (forall i | 0 <= i < |w.freed| :: w.freed[i] in adopted)
    && (forall i, j | 0 <= i < j < |w.freed| :: w.freed[i] != w.freed[j])
  }

  lemma AdoptSound(s: Slot, b: Block, w: World, adopted: set<Block>)
    requires Sound(w, adopted) && s !in w.slots && b !in adopted
    ensures Sound(w.(slots := w.slots[s := Data(Some(b), true)]), adopted + {b})
  {
    var v := w.(slots := w.slots[s := Data(Some(b), true)]);
    assert forall t, c | c != b :: Owns(v, t, c) <==> Owns(w, t, c);
    assert Owns(v, s, b);
    assert forall t | Owns(v, t, b) && t != s :: Owns(w, t, b);
    assert b !in w.freed;
    forall c | c in adopted + {b} ensures c in v.freed <==> !exists t :: Owns(v, t, c) {
      if c != b {
        if t :| Owns(w, t, c) { assert Owns(v, t, c); }
      }
    }
  }

  lemma FillSound(s: Slot, d: Data, w: World, adopted: set<Block>)
    requires Sound(w, adopted) && s !in w.slots && !d.owned
    ensures Sound(w.(slots := w.slots[s := d]), adopted)
  {
    var v := w.(slots := w.slots[s := d]);
    assert forall t, c :: Owns(v, t, c) <==> Owns(w, t, c);
    forall c | c in adopted ensures c in v.freed <==> !exists t :: Owns(v, t, c) {
      if t :| Owns(w, t, c) { assert Owns(v, t, c); }
    }
  }

  /** Moving renames the owner. */
  lemma MoveSound(s: Slot, f: Slot, w: World, adopted: set<Block>)
    requires Sound(w, adopted) && s !in w.slots && f in w.slots
    ensures Sound(Step(Move(s, f), w), adopted)
  {
    var v := Step(Move(s, f), w);
    assert forall c :: Owns(v, s, c) <==> Owns(w, f, c);
    assert forall t, c | t != s :: Owns(v, t, c) <==> t != f && Owns(w, t, c);
    forall c | c in adopted ensures c in v.freed <==> !exists t :: Owns(v, t, c) {
      if t :| Owns(w, t, c) { assert Owns(v, if t == f then s else t, c); }
      if t :| Owns(v, t, c) { assert Owns(w, if t == s then f else t, c); }
    }
  }

  /** Destroying an owner frees its block, which nothing else owns. */
  lemma ClearSound(s: Slot, w: World, adopted: set<Block>)
    requires Sound(w, adopted) && s in w.slots
    ensures Sound(Step(Destroy(s), w), adopted)
  {
    var v := Step(Destroy(s), w);
    assert forall t, c :: Owns(v, t, c) <==> t != s && Owns(w, t, c);
    var d := w.slots[s];
    if d.owned && d.ptr.Some? {
      assert Owns(w, s, d.ptr.value);
      assert v.freed == w.freed + [d.ptr.value];
      assert d.ptr.value !in w.freed;
    }
    forall c | c in adopted ensures c in v.freed <==> !exists t :: Owns(v, t, c) {
      if t :| Owns(w, t, c) {
        if t != s { assert Owns(v, t, c); }
      }
    }
  }

  lemma StepSound(op: Op, w: World, adopted: set<Block>)
    requires Sound(w, adopted) && Allowed(op, w, adopted)
    ensures Sound(Step(op, w), adopted + Adopts(op))
  {
    match op
    case Adopt(s, b) => AdoptSound(s, b, w, adopted);
    case View(s, b) => FillSound(s, Data(Some(b), false), w, adopted);
    case Default(s) => FillSound(s, EMPTY, w, adopted);
    case Move(s, f) => MoveSound(s, f, w, adopted);
    case Assign(s, f) =>
      if s != f {
        ClearSound(s, w, adopted);
        var cleared := World(w.slots - {s}, Freed(w.slots[s], w.freed));
        MoveSound(s, f, cleared, adopted);
        assert Step(op, w) == Step(Move(s, f), cleared);
      }
    case Destroy(s) => ClearSound(s, w, adopted);
  }

  const START := World(map[], [])

  ghost function After(ops: seq<Op>): World {
    if ops == [] then START else Step(ops[|ops| - 1], After(ops[..|ops| - 1]))
  }

  ghost function Adopted(ops: seq<Op>): set<Block> {
    if ops == [] then {} else Adopted(ops[..|ops| - 1]) + Adopts(ops[|ops| - 1])
  }

  /** Every operation was allowed when it ran. */
  ghost predicate Legal(ops: seq<Op>) {
    forall i | 0 <= i < |ops| :: Allowed(ops[i], After(ops[..i]), Adopted(ops[..i]))
  }

  /** Over any run, every adopted block has one owner until it is freed, once; other memory
      is never freed. When no object is left, every adopted block has been freed once. */
  lemma {:induction false} OwnershipTheorem(ops: seq<Op>)
    requires Legal(ops)
    ensures Sound(After(ops), Adopted(ops))
    ensures After(ops).slots == map[] ==> multiset(After(ops).freed) == multiset(Adopted(ops))
  {
    if ops != [] {
      var n := |ops| - 1;
      var before := ops[..n];
      assert forall i | 0 <= i < n :: before[..i] == ops[..i];
      OwnershipTheorem(before);
      StepSound(ops[n], After(before), Adopted(before));
    }
    var w, adopted := After(ops), Adopted(ops);
    if w.slots == map[] {
      assert forall s, b :: !Owns(w, s, b);
      forall b ensures multiset(w.freed)[b] == multiset(adopted)[b] {
        DistinctCount(w.freed, b);
      }
    }
  }

  lemma {:induction false} DistinctCount(s: seq<Block>, b: Block)
    requires forall i, j | 0 <= i < j < |s| :: s[i] != s[j]
    ensures multiset(s)[b] == if b in s then 1 else 0
  {
    if s != [] {
      var n := |s| - 1;
      assert s == s[..n] + [s[n]];
      DistinctCount(s[..n], b);
    }
  }

  /** The C heap, which records what it is told to free. */
  class Heap {
    var freed: seq<Block>

    constructor ()
      ensures freed == []
    { freed := []; }

    /** `free`; the null pointer is ignored. */
    method Free(p: Option<Block>)
      modifies this
      ensures freed == Freed(Data(p, true), old(freed))
    {
      if p.Some? { freed := freed + [p.value]; }
    }
  }

  /** `Data<void>`. */
  class DataObj {
    var ptr: Option<Block>
    var owned: bool

    constructor (p: Option<Block>, o: bool)
      ensures Value() == Data(p, o)
    { ptr, owned := p, o; }

    function Value(): Data
      reads this
    { Data(ptr, owned) }

    /** The move constructor; the kind is copied before the source is emptied. */
    constructor MoveFrom(o: DataObj)
      modifies o
      ensures Value() == old(o.Value()) && o.Value() == EMPTY
    {
      var kind := o.owned;
      var p := o.Release();
      ptr, owned := p, kind;
    }

    method Release() returns (p: Option<Block>)
      modifies this
      ensures p == old(ptr) && Value() == EMPTY
    {
      p := ptr;
      owned, ptr := false, None;
    }

    /** The pointer stays in place: only destruction and assignment call this. */
    method Clear(heap: Heap)
      modifies heap
      ensures heap.freed == Freed(Value(), old(heap.freed))
    {
      if owned { heap.Free(ptr); }
    }

    /** `operator=(Data&&)`. Assigning an object to itself changes nothing. */
    method Assign(o: DataObj, heap: Heap)
      modifies this, o, heap
      ensures o == this ==> Value() == old(Value()) && heap.freed == old(heap.freed)
      ensures o != this ==> Value() == old(o.Value()) && o.Value() == EMPTY
      ensures o != this ==> heap.freed == Freed(old(Value()), old(heap.freed))
    {
      if o != this {
        this.Clear(heap);
        owned := o.owned;
        ptr := o.Release();
      }
    }
  }

  /** The objects of a running program. */
  class Program {
    var objs: map<Slot, DataObj>
    const heap: Heap

    constructor ()
      ensures Valid() && fresh(heap) && objs == map[] && Now() == START
    {
      objs := map[];
      heap := new Heap();
    }

    ghost predicate Valid()
      reads this
    {
      forall s, t | s in objs && t in objs && objs[s] == objs[t] :: s == t
    }

    ghost function Now(): World
      reads this, heap, objs.Values
    {
      World(map s | s in objs :: objs[s].Value(), heap.freed)
    }

    method Execute(op: Op, ghost adopted: set<Block>)
      requires Valid() && Allowed(op, Now(), adopted)
      modifies this, heap, objs.Values
      ensures Valid() && Now() == Step(op, old(Now()))
      ensures fresh(objs.Values - old(objs.Values))
    {
      match op {
        case Adopt(s, b) => Create(s, Some(b), true);
        case View(s, b) => Create(s, Some(b), false);
        case Default(s) => Create(s, None, false);
        case Move(s, f) => MoveInto(s, f);
        case Assign(s, f) => objs[s].Assign(objs[f], heap);
        case Destroy(s) =>
          objs[s].Clear(heap);
          objs := objs - {s};
      }
    }

    method Create(s: Slot, p: Option<Block>, owned: bool)
      requires Valid() && s !in objs
      modifies this
      ensures Valid() && Now() == old(Now()).(slots := old(Now()).slots[s := Data(p, owned)])
      ensures fresh(objs.Values - old(objs.Values))
    {
      var d := new DataObj(p, owned);
      objs := objs[s := d];
    }

    method MoveInto(s: Slot, f: Slot)
      requires Valid() && s !in objs && f in objs
      modifies this, objs[f]
      ensures Valid() && Now() == Step(Move(s, f), old(Now()))
      ensures fresh(objs.Values - old(objs.Values))
    {
      var d := new DataObj.MoveFrom(objs[f]);
      objs := objs[s := d];
    }
  }

  /** A program of such operations is sound whenever it stops. */
  method RunProgram(ops: seq<Op>) returns (freed: seq<Block>)
    requires Legal(ops)
    ensures freed == After(ops).freed && Sound(After(ops), Adopted(ops))
  {
    var p := new Program();
    for i := 0 to |ops|
      invariant p.Valid() && p.Now() == After(ops[..i])
      invariant fresh(p) && fresh(p.heap) && fresh(p.objs.Values)
    {
      assert ops[..i + 1][..i] == ops[..i];
      p.Execute(ops[i], Adopted(ops[..i]));
    }
    assert ops[..|ops|] == ops;
    OwnershipTheorem(ops);
    freed := p.heap.freed;
  }
}
