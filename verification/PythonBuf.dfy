/** The stream buffer that hands bytes to a Python text stream without cutting characters.
 */
module PythonBuffer {
  import opened Types
  import opened Utf8

  predicate IsAscii(b: Byte) { b & 0x80 == 0x00 }

  predicate IsLeading(b: Byte) { b & 0xC0 == 0xC0 }

  /** How many bytes at the end of a non-empty buffer `utf8_remainder` holds back. */
  function Remainder(s: seq<Byte>): nat
    requires s != []
  {
    var n := |s|;
    if IsAscii(s[n - 1]) then 0
    else if IsLeading(s[n - 1]) then 1
    else if n >= 2 && IsLeading(s[n - 2]) then (if s[n - 2] <= 0xDF then 0 else 2)
    else if n >= 3 && IsLeading(s[n - 3]) then (if s[n - 3] <= 0xEF then 0 else 3)
    else 0
  }

  lemma LeadClass(b: Byte)
    requires CharLen(b) > 0
    ensures CharLen(b) <= 4
    ensures if CharLen(b) == 1 then IsAscii(b) else !IsAscii(b) && IsLeading(b)
    ensures b <= 0xDF <==> CharLen(b) <= 2
    ensures b <= 0xEF <==> CharLen(b) <= 3
  {
  }

  lemma TailClass(b: Byte)
    requires IsTail(b)
    ensures !IsAscii(b) && !IsLeading(b)
  {
  }

  lemma RemainderBound(s: seq<Byte>)
    requires s != []
    ensures Remainder(s) <= 3 && Remainder(s) <= |s|
  {
  }

  /** How many bytes a leading byte announces, itself included. */
  function Announced(b: Byte): nat {
    if b <= 0xDF then 2 else if b <= 0xEF then 3 else 4
  }

  /** On any bytes, `k` are held back exactly when the last leading byte is `k` from the end,
      announces more than that, and no ASCII byte comes last. */
  lemma RemainderMeans(s: seq<Byte>, k: nat)
    requires 1 <= k <= 3 && k <= |s|
    ensures var n := |s|;
            Remainder(s) == k <==>
            && !IsAscii(s[n - 1]) && IsLeading(s[n - k]) && (forall i | n - k < i < n :: !IsLeading(s[i]))
            && Announced(s[n - k]) > k
  {
    hide IsAscii;
    hide IsLeading;
    var n := |s|;
    if k >= 2 {
      assert (forall i | n - k < i < n :: !IsLeading(s[i])) <==> !IsLeading(s[n - 1]) && (k == 3 ==> !IsLeading(s[n - 2]));
    }
  }

  /** On a stream of characters the remainder is its incomplete tail. */
  lemma RemainderIsTail(s: seq<Byte>)
    requires s != [] && ValidSoFar(s)
    ensures Remainder(s) == |Tail(s)|
  {
    hide IsAscii;
    hide IsLeading;
    hide IsTail;
    hide CharLen;
    hide ValidSoFar;
    hide Tail;
    var k := LastChar(s);
    var c := s[k..];
    LeadClass(c[0]);
    forall i | 1 <= i < |c| ensures !IsAscii(c[i]) && !IsLeading(c[i]) {
      TailClass(c[i]);
    }
    assert forall i | 0 <= i < |c| :: c[i] == s[k + i];
  }

  /** What `_sync` keeps of the buffered bytes. */
  function Kept(s: seq<Byte>): (k: seq<Byte>)
    ensures |k| <= 3 && |k| <= |s|
  {
    if s == [] then [] else RemainderBound(s); s[|s| - Remainder(s)..]
  }

  function Flat(chunks: seq<seq<Byte>>): seq<Byte> {
    if chunks == [] then []
    else
      var n := |chunks| - 1;
      Flat(chunks[..n]) + chunks[n]
  }

  lemma FlatSnoc(chunks: seq<seq<Byte>>, c: seq<Byte>)
    ensures Flat(chunks + [c]) == Flat(chunks) + c
  {
    assert (chunks + [c])[..|chunks|] == chunks;
  }

  lemma {:induction false} FlatIsValid(chunks: seq<seq<Byte>>)
    requires forall c | c in chunks :: Valid(c)
    ensures Valid(Flat(chunks))
  {
    if chunks != [] {
      var n := |chunks| - 1;
      FlatIsValid(chunks[..n]);
      AfterWhole(Flat(chunks[..n]), chunks[n]);
    }
  }

  /** `pythonbuf`: `buf[..pptr]` is buffered, `written` is what Python's `write` was called
      with. The last byte of `buf` is kept for `overflow`, which needs it free. */
  class PythonBuf {
    const buf: array<Byte>
    var pptr: nat
    var written: seq<seq<Byte>>

    ghost predicate Safe()
      reads this
    {
      pptr <= buf.Length
    }

    ghost function Held(): seq<Byte>
      requires Safe()
      reads this, buf
    {
      buf[..pptr]
    }

    /** All bytes fed so far. */
    ghost function Fed(): seq<Byte>
      requires Safe()
      reads this, buf
    {
      Flat(written) + Held()
    }

    /** Nothing written cuts a character, and the buffer starts with one. */
    ghost predicate Aligned()
      requires Safe()
      reads this, buf
    {
      (forall c | c in written :: Valid(c)) && ValidSoFar(Held())
    }

    constructor (capacity: nat)
      ensures Safe() && Held() == [] && Fed() == [] && Aligned() && fresh(buf) && buf.Length == capacity
    {
      buf := new Byte[capacity](_ => 0);
      pptr, written := 0, [];
    }

    /** Searches at most three bytes back for a leading byte. */
    method Utf8Remainder() returns (r: nat)
      requires 0 < pptr <= buf.Length
      ensures r == Remainder(buf[..pptr])
    {
      ghost var s := buf[..pptr];
      if IsAscii(buf[pptr - 1]) {
        return 0;
      }
      var window := if pptr >= 3 then 3 else pptr;
      var dist := 0;
      while dist < window && !IsLeading(buf[pptr - 1 - dist])
        invariant 0 <= dist <= window
        invariant forall i | pptr - dist <= i < pptr :: !IsLeading(s[i])
      {
        dist := dist + 1;
      }
      if dist == pptr {
        return 0;
      }
      if dist == 0 {
        r := 1;
      } else if dist == 1 {
        r := if buf[pptr - 1 - dist] <= 0xDF then 0 else dist + 1;
      } else if dist == 2 {
        r := if buf[pptr - 1 - dist] <= 0xEF then 0 else dist + 1;
      } else {
        r := 0;
      }
    }

    /** `_sync`: writes all but the remainder and moves that to the front. */
    method Sync()
      requires Safe()
      modifies this, buf
      ensures Safe() && Fed() == old(Fed()) && Held() == Kept(old(Held()))
      ensures written == old(written) || exists c: seq<Byte> :: c != [] && written == old(written) + [c]
      ensures old(Aligned()) ==> Aligned() && Held() == Tail(Fed())
    {
      hide ValidSoFar;
      hide Tail;
      hide Valid;
      hide Remainder;
      hide Flat;
      if pptr == 0 {
        if old(Aligned()) {
          AllWritten(written, []);
        }
        return;
      }
      ghost var s, before := buf[..pptr], written;
      RemainderBound(s);
      var size := pptr;
      var remainder := Utf8Remainder();
      ghost var head, tail := s[..size - remainder], s[size - remainder..];
      if size > remainder {
        assert buf[..size - remainder] == head;
        written := written + [buf[..size - remainder]];
        FlatSnoc(before, head);
        assert Flat(before) + head + tail == Flat(before) + s;
      } else {
        assert tail == s;
      }
      assert Flat(written) + tail == Flat(before) + s;
      MoveToFront(remainder);
      pptr := remainder;
      assert s == head + tail && buf[..pptr] == tail;
      if old(Aligned()) {
        SyncAligned(before, s, head, tail);
      }
    }

    /** The `memmove` of the remainder to the start of the buffer. */
    method MoveToFront(n: nat)
      requires n <= pptr <= buf.Length
      modifies buf
      ensures buf[..n] == old(buf[pptr - n..pptr])
    {
      for i := 0 to n
        invariant forall k | 0 <= k < i :: buf[k] == old(buf[pptr - n + k])
        invariant forall k | i <= k < pptr :: buf[k] == old(buf[k])
      {
        buf[i] := buf[pptr - n + i];
      }
    }

    /** `sputc`: into the buffer if there is room, otherwise `overflow`. Either way the byte
        is stored at `pptr`, which must be inside the buffer. */
    method Put(c: Byte)
      requires pptr < buf.Length
      modifies this, buf
      ensures Safe() && Fed() == old(Fed()) + [c]
      ensures Some(Held()) == Next(buf.Length, old(Held()), Write(c))
      ensures old(Aligned()) && ValidSoFar(Fed()) ==> Aligned()
      ensures old(pptr) + 1 < buf.Length ==> written == old(written)
    {
      hide ValidSoFar;
      hide Valid;
      hide Kept;
      ghost var s := Held();
      if pptr < buf.Length - 1 {
        buf[pptr] := c;
        pptr := pptr + 1;
        assert Held() == s + [c];
        if old(Aligned()) && ValidSoFar(Fed()) {
          BufferValidSoFar(written, s + [c]);
        }
      } else {
        Overflow(c);
      }
    }

    method Overflow(c: Byte)
      requires pptr < buf.Length
      modifies this, buf
      ensures Safe() && Fed() == old(Fed()) + [c] && Held() == Kept(old(Held()) + [c])
      ensures old(Aligned()) && ValidSoFar(Fed()) ==> Aligned() && Held() == Tail(Fed())
    {
      hide ValidSoFar;
      hide Valid;
      hide Tail;
      hide Kept;
      ghost var s := buf[..pptr];
      buf[pptr] := c;
      pptr := pptr + 1;
      assert buf[..pptr] == s + [c];
      if old(Aligned()) && ValidSoFar(Fed()) {
        BufferValidSoFar(written, s + [c]);
        assert Aligned();
      }
      Sync();
    }
  }

  lemma AllWritten(chunks: seq<seq<Byte>>, rest: seq<Byte>)
    requires (forall c | c in chunks :: Valid(c))
    ensures Tail(Flat(chunks) + rest) == Tail(rest) && Tail([]) == []
    ensures ValidSoFar(Flat(chunks) + rest) <==> ValidSoFar(rest)
  {
    FlatIsValid(chunks);
    AfterWhole(Flat(chunks), rest);
  }

  lemma BufferValidSoFar(chunks: seq<seq<Byte>>, s: seq<Byte>)
    requires (forall c | c in chunks :: Valid(c)) && ValidSoFar(Flat(chunks) + s)
    ensures ValidSoFar(s)
  {
    AllWritten(chunks, s);
  }

  /** What `_sync` writes ends a character, and what it keeps begins one. */
  lemma SyncAligned(before: seq<seq<Byte>>, s: seq<Byte>, head: seq<Byte>, tail: seq<Byte>)
    requires (forall c | c in before :: Valid(c)) && s != [] && ValidSoFar(s)
    requires s == head + tail && |tail| == Remainder(s)
    ensures Valid(head) && ValidSoFar(tail)
    ensures Tail(Flat(before) + s) == tail
  {
    RemainderIsTail(s);
    TailSplits(s);
    assert head == s[..|s| - |Tail(s)|] && tail == s[|s| - |Tail(s)|..];
    AllWritten(before, s);
    AfterWhole(head, tail);
  }

  // ----- Whole runs ----------------------------------------------------------------------

  datatype Op = Write(b: Byte) | Flush

  function Bytes(ops: seq<Op>): seq<Byte> {
    if ops == [] then []
    else
      var n := |ops| - 1;
      Bytes(ops[..n]) + if ops[n].Write? then [ops[n].b] else []
  }

  lemma {:induction false} BytesPrefix(ops: seq<Op>, i: nat)
    requires i <= |ops|
    ensures Bytes(ops[..i]) <= Bytes(ops)
    decreases |ops|
  {
    if i == |ops| {
      assert ops[..i] == ops;
    } else {
      var n := |ops| - 1;
      BytesPrefix(ops[..n], i);
      assert ops[..n][..i] == ops[..i];
    }
  }

  lemma EarlierBytes(ops: seq<Op>, i: nat)
    requires i <= |ops| && ValidSoFar(Bytes(ops))
    ensures ValidSoFar(Bytes(ops[..i]))
  {
    BytesPrefix(ops, i);
    EarlierIsValidSoFar(Bytes(ops), |Bytes(ops[..i])|);
    assert Bytes(ops)[..|Bytes(ops[..i])|] == Bytes(ops[..i]);
  }

  /** The bytes buffered after one more operation on a buffer that holds `h`; none if it
      stores outside the buffer. */
  function Next(capacity: nat, h: seq<Byte>, op: Op): Option<seq<Byte>> {
    match op
    case Flush => Some(Kept(h))
    case Write(b) =>
      if |h| >= capacity then None
      else if |h| + 1 < capacity then Some(h + [b])
      else Some(Kept(h + [b]))
  }

  /** The bytes buffered after `ops`; none if the buffer was overrun. */
  function HeldAfter(capacity: nat, ops: seq<Op>): Option<seq<Byte>> {
    if ops == [] then Some([])
    else
      var n := |ops| - 1;
      match HeldAfter(capacity, ops[..n])
      case Some(h) => Next(capacity, h, ops[n])
      case None => None
  }

  // ----- Which buffers are large enough ----------------------------------------------------

  lemma {:induction false} FourBytesSuffice(capacity: nat, ops: seq<Op>)
    requires capacity >= 4
    ensures HeldAfter(capacity, ops).Some? && |HeldAfter(capacity, ops).value| < capacity
  {
    hide Kept;
    if ops != [] {
      FourBytesSuffice(capacity, ops[..|ops| - 1]);
    }
  }

  function Writes(s: seq<Byte>): seq<Op> {
    seq(|s|, i requires 0 <= i < |s| => Write(s[i]))
  }

  lemma {:induction false} WritesBytes(s: seq<Byte>)
    ensures Bytes(Writes(s)) == s
  {
    if s != [] {
      var n := |s| - 1;
      assert Writes(s)[..n] == Writes(s[..n]);
      WritesBytes(s[..n]);
      assert s == s[..n] + [s[n]];
    }
  }

  /** All of an incomplete character is kept. */
  lemma IncompleteIsKept(c: seq<Byte>, k: nat)
    requires IsChar(c) && 0 < k < |c|
    ensures Kept(c[..k]) == c[..k]
  {
    hide Remainder;
    var s := c[..k];
    assert CharPrefix(s) && CharLen(s[0]) > |s|;
    RemainderIsTail(s);
  }

  /** A character longer than the buffer fills it, as far as it goes. */
  lemma {:induction false} CharFills(capacity: nat, c: seq<Byte>, k: nat)
    requires IsChar(c) && k <= capacity < |c|
    ensures HeldAfter(capacity, Writes(c[..k])) == Some(c[..k])
  {
    hide Kept;
    hide IsChar;
    if k > 0 {
      CharFills(capacity, c, k - 1);
      assert Writes(c[..k])[..k - 1] == Writes(c[..k - 1]);
      assert c[..k] == c[..k - 1] + [c[k - 1]];
      IncompleteIsKept(c, k);
    }
  }

  lemma {:induction false} OverrunStays(capacity: nat, ops: seq<Op>, i: nat)
    requires i <= |ops| && HeldAfter(capacity, ops[..i]).None?
    ensures HeldAfter(capacity, ops).None?
    decreases |ops|
  {
    if i == |ops| {
      assert ops[..i] == ops;
    } else {
      assert ops[..|ops| - 1][..i] == ops[..i];
      OverrunStays(capacity, ops[..|ops| - 1], i);
    }
  }

  lemma WritesPrefix(c: seq<Byte>, k: nat)
    requires k <= |c|
    ensures Writes(c)[..k] == Writes(c[..k])
  {
  }

  /** A character longer than the buffer overruns it. */
  lemma LongCharOverruns(capacity: nat, c: seq<Byte>)
    requires IsChar(c) && |c| > capacity
    ensures HeldAfter(capacity, Writes(c)).None?
  {
    hide IsChar;
    hide Kept;
    hide Writes;
    CharFills(capacity, c, capacity);
    WritesPrefix(c, capacity);
    WritesLength(c);
    var all := Writes(c);
    assert all[..capacity + 1][..capacity] == all[..capacity];
    OverrunStays(capacity, all, capacity + 1);
  }

  lemma WritesLength(c: seq<Byte>)
    ensures |Writes(c)| == |c| && forall i | 0 <= i < |c| :: Writes(c)[i] == Write(c[i])
  {
  }

  /** The text U+1F600. */
  const SMILE: seq<Byte> := [0xF0, 0x9F, 0x98, 0x80]

  lemma SmileIsValid()
    ensures IsChar(SMILE) && Valid(SMILE)
  {
    assert CharLen(SMILE[0]) == 4 && SMILE[..4] == SMILE && SMILE[4..] == [];
  }

  /** Exactly the buffers of four bytes or more are never overrun, be it by any bytes or by
      valid text. */
  lemma CapacityTheorem(capacity: nat)
    ensures capacity >= 4 <==> forall ops :: HeldAfter(capacity, ops).Some?
    ensures capacity >= 4 <==> forall ops | Valid(Bytes(ops)) :: HeldAfter(capacity, ops).Some?
  {
    if capacity >= 4 {
      forall ops ensures HeldAfter(capacity, ops).Some? {
        FourBytesSuffice(capacity, ops);
      }
    } else {
      hide Valid;
      SmileIsValid();
      LongCharOverruns(capacity, SMILE);
      WritesBytes(SMILE);
    }
  }

  /** Any writes and flushes on a buffer of any size, up to an overrun, which a buffer of four
      bytes never has: no byte is lost, changed or reordered. If they begin a valid text,
      every chunk is whole characters, and right after a flush only the incomplete character
      at the end is held back. */
  method RunStream(capacity: nat, ops: seq<Op>) returns (chunks: seq<seq<Byte>>, held: seq<Byte>, overrun: bool)
    ensures overrun <==> HeldAfter(capacity, ops).None?
    ensures capacity >= 4 ==> !overrun
    ensures !overrun ==> Flat(chunks) + held == Bytes(ops) && Some(held) == HeldAfter(capacity, ops)
    ensures !overrun ==> forall more | Valid(Bytes(ops) + more) :: forall c | c in chunks :: Valid(c)
    ensures !overrun ==> forall more | Valid(Bytes(ops) + more) ::
              ops != [] && ops[|ops| - 1] == Flush ==> held == Tail(Bytes(ops))
  {
    hide ValidSoFar;
    hide Valid;
    hide Tail;
    hide Flat;
    hide Kept;
    var p := new PythonBuf(capacity);
    CapacityTheorem(capacity);
    for i := 0 to |ops|
      invariant fresh(p) && fresh(p.buf) && p.Safe() && p.buf.Length == capacity
      invariant p.Fed() == Bytes(ops[..i]) && Some(p.Held()) == HeldAfter(capacity, ops[..i])
      invariant ValidSoFar(Bytes(ops)) ==> p.Aligned()
      invariant ValidSoFar(Bytes(ops)) && i > 0 && ops[i - 1] == Flush ==> p.Held() == Tail(Bytes(ops[..i]))
    {
      assert ops[..i + 1][..i] == ops[..i];
      if ValidSoFar(Bytes(ops)) {
        EarlierBytes(ops, i + 1);
      }
      if ops[i].Flush? {
        p.Sync();
      } else if p.pptr < capacity {
        p.Put(ops[i].b);
      } else {
        OverrunStays(capacity, ops, i + 1);
        return p.written, p.buf[..p.pptr], true;
      }
    }
    assert ops[..|ops|] == ops;
    forall more | Valid(Bytes(ops) + more) ensures ValidSoFar(Bytes(ops)) {
      PrefixIsValidSoFar(Bytes(ops), more);
    }
    chunks, held, overrun := p.written, p.buf[..p.pptr], false;
  }
}
