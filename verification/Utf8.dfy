/** UTF-8 as section 4 of RFC 3629 defines it, and the incomplete tail of a stream. */
module Utf8 {
  type Byte = bv8

  /** The length of the character a byte begins; 0 if it begins none. */
  function CharLen(b: Byte): nat {
    if b <= 0x7F then 1
    else if 0xC2 <= b <= 0xDF then 2
    else if 0xE0 <= b <= 0xEF then 3
    else if 0xF0 <= b <= 0xF4 then 4
    else 0
  }

  predicate IsTail(b: Byte) { 0x80 <= b <= 0xBF }

  /** The second bytes RFC 3629 allows after a leading byte. */
  predicate SecondOk(lead: Byte, second: Byte) {
    && IsTail(second)
    && (lead == 0xE0 ==> second >= 0xA0)
    && (lead == 0xED ==> second <= 0x9F)
    && (lead == 0xF0 ==> second >= 0x90)
    && (lead == 0xF4 ==> second <= 0x8F)
  }

  /** A non-empty beginning of a character, possibly all of it. */
  predicate CharPrefix(s: seq<Byte>) {
    && s != [] && |s| <= CharLen(s[0])
    && (|s| >= 2 ==> SecondOk(s[0], s[1]))
    && (forall i | 2 <= i < |s| :: IsTail(s[i]))
  }

  predicate IsChar(s: seq<Byte>) {
    CharPrefix(s) && |s| == CharLen(s[0])
  }

  predicate Valid(s: seq<Byte>)
    decreases |s|
  {
    s == [] ||
    var n := CharLen(s[0]);
    0 < n <= |s| && IsChar(s[..n]) && Valid(s[n..])
  }

  /** Whole characters and then at most the beginning of one. */
  predicate ValidSoFar(s: seq<Byte>)
    decreases |s|
  {
    s == [] ||
    var n := CharLen(s[0]);
    if 0 < n <= |s| then IsChar(s[..n]) && ValidSoFar(s[n..]) else CharPrefix(s)
  }

  /** The beginning of a character at the end of a stream. */
  function Tail(s: seq<Byte>): (t: seq<Byte>)
    ensures |t| <= |s|
    decreases |s|
  {
    if s == [] then []
    else
      var n := CharLen(s[0]);
      if 0 < n <= |s| then Tail(s[n..]) else s
  }

  /** A stream is whole characters followed by its tail. */
  lemma TailSplits(s: seq<Byte>)
    requires ValidSoFar(s)
    ensures var k := |s| - |Tail(s)|;
            s[k..] == Tail(s) && Valid(s[..k]) && (Tail(s) != [] ==> CharPrefix(Tail(s)) && !IsChar(Tail(s)))
  {
    TailEnds(s);
    RestIsValid(s);
  }

  lemma {:induction false} TailEnds(s: seq<Byte>)
    requires ValidSoFar(s)
    ensures s[|s| - |Tail(s)|..] == Tail(s) && (Tail(s) != [] ==> CharPrefix(Tail(s)) && !IsChar(Tail(s)))
    decreases |s|
  {
    hide CharPrefix;
    hide CharLen;
    if s != [] {
      var n := CharLen(s[0]);
      if 0 < n <= |s| {
        TailEnds(s[n..]);
      }
    }
  }

  lemma {:induction false} RestIsValid(s: seq<Byte>)
    requires ValidSoFar(s)
    ensures Valid(s[..|s| - |Tail(s)|])
    decreases |s|
  {
    hide CharPrefix;
    if s != [] {
      var n, k := CharLen(s[0]), |s| - |Tail(s)|;
      if 0 < n <= |s| {
        RestIsValid(s[n..]);
        var w := s[..k];
        assert w[..n] == s[..n] && w[n..] == s[n..][..k - n];
      }
    }
  }

  /** Every beginning of valid text is whole characters and the beginning of one. */
  lemma {:induction false} PrefixIsValidSoFar(s: seq<Byte>, rest: seq<Byte>)
    requires Valid(s + rest)
    ensures ValidSoFar(s)
    decreases |s|
  {
    if s != [] {
      var n := CharLen(s[0]);
      assert (s + rest)[0] == s[0];
      var first := (s + rest)[..n];
      if n <= |s| {
        assert first == s[..n] && (s + rest)[n..] == s[n..] + rest;
        PrefixIsValidSoFar(s[n..], rest);
      } else {
        assert s == first[..|s|];
      }
    }
  }

  lemma {:induction false} AfterWhole(a: seq<Byte>, b: seq<Byte>)
    requires Valid(a)
    ensures ValidSoFar(a + b) <==> ValidSoFar(b)
    ensures Tail(a + b) == Tail(b)
    ensures Valid(b) ==> Valid(a + b)
    decreases |a|
  {
    if a == [] {
      assert a + b == b;
    } else {
      var n := CharLen(a[0]);
      assert (a + b)[..n] == a[..n] && (a + b)[n..] == a[n..] + b;
      AfterWhole(a[n..], b);
    }
  }

  lemma {:induction false} EarlierIsValidSoFar(s: seq<Byte>, k: nat)
    requires ValidSoFar(s) && k <= |s|
    ensures ValidSoFar(s[..k])
    decreases |s|
  {
    if s != [] && k > 0 {
      var n, t := CharLen(s[0]), s[..k];
      if 0 < n <= |s| {
        if n <= k {
          EarlierIsValidSoFar(s[n..], k - n);
          assert t[..n] == s[..n] && t[n..] == s[n..][..k - n];
        } else {
          assert t == s[..n][..k];
        }
      }
    }
  }

  /** The last character of a stream, whole or not. */
  lemma {:induction false} LastChar(s: seq<Byte>) returns (k: nat)
    requires ValidSoFar(s) && s != []
    ensures k < |s| && CharPrefix(s[k..]) && Tail(s) == if IsChar(s[k..]) then [] else s[k..]
    decreases |s|
  {
    var n := CharLen(s[0]);
    if 0 < n < |s| {
      var j := LastChar(s[n..]);
      k := n + j;
      assert s[n..][j..] == s[k..];
    } else {
      k := 0;
      assert s[0..] == s;
      if n == |s| {
        assert s[..n] == s && s[n..] == [];
      }
    }
  }
}
