/** Multi-dimensional indices: a shape is a mixed radix, an index vector its digits, and a
    stride vector gives each digit its weight.
 */
module Radix {

  ghost predicate IsShape(shape: seq<int>) {
    forall i | 0 <= i < |shape| :: shape[i] >= 0
  }

  function Prod(shape: seq<int>): int {
    if shape == [] then 1 else shape[0] * Prod(shape[1..])
  }

  function Dot(index: seq<int>, weights: seq<int>): int
    requires |index| == |weights|
  {
    if index == [] then 0 else index[0] * weights[0] + Dot(index[1..], weights[1..])
  }

  ghost predicate InShape(index: seq<int>, shape: seq<int>) {
    |index| == |shape| && forall i | 0 <= i < |shape| :: 0 <= index[i] < shape[i]
  }

  /** The position of an index in row-major order. */
  function Linear(shape: seq<int>, index: seq<int>): int
    requires |index| == |shape|
  {
    if shape == [] then 0 else index[0] * Prod(shape[1..]) + Linear(shape[1..], index[1..])
  }

  /** The position of an index in column-major order. */
  function LinearF(shape: seq<int>, index: seq<int>): int
    requires |index| == |shape|
  {
    if shape == [] then 0 else index[0] + shape[0] * LinearF(shape[1..], index[1..])
  }

  /** The `k`-th index in row-major order. */
  function Digits(shape: seq<int>, k: int): (r: seq<int>)
    ensures |r| == |shape|
  {
    if shape == [] then []
    else
      var p := Prod(shape[1..]);
      if p == 0 then [0] + Digits(shape[1..], 0) else [k / p] + Digits(shape[1..], k % p)
  }

  lemma {:induction false} ProdNat(shape: seq<int>)
    requires IsShape(shape)
    ensures Prod(shape) >= 0
  {
    if shape != [] {
      ProdNat(shape[1..]);
    }
  }

  lemma {:induction false} LinearBound(shape: seq<int>, index: seq<int>)
    requires IsShape(shape) && InShape(index, shape)
    ensures 0 <= Linear(shape, index) < Prod(shape)
  {
    if shape != [] {
      LinearBound(shape[1..], index[1..]);
      var p := Prod(shape[1..]);
      assert (index[0] + 1) * p <= shape[0] * p;
      assert (index[0] + 1) * p == index[0] * p + p;
    }
  }

  lemma {:induction false} LinearInjective(shape: seq<int>, a: seq<int>, b: seq<int>)
    requires IsShape(shape) && InShape(a, shape) && InShape(b, shape) && Linear(shape, a) == Linear(shape, b)
    ensures a == b
  {
    if shape != [] {
      var p, x, y := Prod(shape[1..]), Linear(shape[1..], a[1..]), Linear(shape[1..], b[1..]);
      LinearBound(shape[1..], a[1..]);
      LinearBound(shape[1..], b[1..]);
      FirstDigit(a[0], b[0], x, y, p);
      LinearInjective(shape[1..], a[1..], b[1..]);
      assert a == [a[0]] + a[1..] && b == [b[0]] + b[1..];
    }
  }

  lemma FirstDigit(i: int, j: int, x: int, y: int, p: int)
    requires 0 <= x < p && 0 <= y < p && i * p + x == j * p + y
    ensures i == j && x == y
  {
    LowDigit(i, j, x, y, p);
    LowDigit(j, i, y, x, p);
  }

  lemma LowDigit(i: int, j: int, x: int, y: int, p: int)
    requires 0 <= x < p && 0 <= y < p && i * p + x == j * p + y
    ensures i >= j
  {
    var d := j - i;
    assert d * p == x - y by { assert d * p == j * p - i * p; }
    assert d >= 1 ==> d * p >= p;
  }

  lemma {:induction false} DigitsCount(shape: seq<int>, k: int)
    requires IsShape(shape) && 0 <= k < Prod(shape)
    ensures InShape(Digits(shape, k), shape) && Linear(shape, Digits(shape, k)) == k
  {
    if shape != [] {
      ProdNat(shape[1..]);
      var p := Prod(shape[1..]);
      assert p > 0;
      DigitsCount(shape[1..], k % p);
      QuotientBound(k, shape[0], p);
      assert Digits(shape, k)[1..] == Digits(shape[1..], k % p);
    }
  }

  lemma QuotientBound(k: int, n: int, p: int)
    requires 0 <= k < n * p && p > 0
    ensures 0 <= k / p < n && k / p * p + k % p == k
  {
  }

  // ----- Splitting an index ------------------------------------------------------------

  lemma {:induction false} ProdConcat(a: seq<int>, b: seq<int>)
    ensures Prod(a + b) == Prod(a) * Prod(b)
  {
    if a == [] {
      assert a + b == b;
    } else {
      assert (a + b)[1..] == a[1..] + b;
      ProdConcat(a[1..], b);
      assert a[0] * (Prod(a[1..]) * Prod(b)) == a[0] * Prod(a[1..]) * Prod(b);
    }
  }

  lemma {:induction false} DotConcat(i: seq<int>, s: seq<int>, j: seq<int>, t: seq<int>)
    requires |i| == |s| && |j| == |t|
    ensures Dot(i + j, s + t) == Dot(i, s) + Dot(j, t)
  {
    if i == [] {
      assert i + j == j && s + t == t;
    } else {
      assert (i + j)[1..] == i[1..] + j && (s + t)[1..] == s[1..] + t;
      DotConcat(i[1..], s[1..], j, t);
    }
  }

  lemma {:induction false} LinearConcat(s: seq<int>, i: seq<int>, t: seq<int>, j: seq<int>)
    requires |i| == |s| && |j| == |t|
    ensures Linear(s + t, i + j) == Linear(s, i) * Prod(t) + Linear(t, j)
  {
    if s == [] {
      assert i + j == j && s + t == t;
    } else {
      assert (i + j)[1..] == i[1..] + j && (s + t)[1..] == s[1..] + t;
      LinearConcat(s[1..], i[1..], t, j);
      ProdConcat(s[1..], t);
      assert i[0] * (Prod(s[1..]) * Prod(t)) + Linear(s[1..], i[1..]) * Prod(t)
          == (i[0] * Prod(s[1..]) + Linear(s[1..], i[1..])) * Prod(t);
    }
  }

  function Zeros(n: nat): seq<int> { seq(n, _ => 0) }

  /** The largest index of a shape. */
  function Tops(shape: seq<int>): (r: seq<int>)
    ensures |r| == |shape|
  {
    seq(|shape|, i requires 0 <= i < |shape| => shape[i] - 1)
  }

  lemma {:induction false} LinearEnds(shape: seq<int>)
    ensures Linear(shape, Zeros(|shape|)) == 0
    ensures Linear(shape, Tops(shape)) == Prod(shape) - 1
  {
    if shape != [] {
      LinearEnds(shape[1..]);
      assert Zeros(|shape|)[1..] == Zeros(|shape[1..]|);
      assert Tops(shape)[1..] == Tops(shape[1..]);
      assert (shape[0] - 1) * Prod(shape[1..]) == shape[0] * Prod(shape[1..]) - Prod(shape[1..]);
    }
  }

  lemma {:induction false} DotZeros(weights: seq<int>)
    ensures Dot(Zeros(|weights|), weights) == 0
  {
    if weights != [] {
      DotZeros(weights[1..]);
      assert Zeros(|weights|)[1..] == Zeros(|weights[1..]|);
    }
  }

  // ----- Contiguous weights ------------------------------------------------------------

  /** The weights of row-major storage of items of `item` bytes. */
  function CStrides(shape: seq<int>, item: int): (r: seq<int>)
    ensures |r| == |shape|
  {
    seq(|shape|, i requires 0 <= i < |shape| => item * Prod(shape[i + 1..]))
  }

  /** The weights of column-major storage. */
  function FStrides(shape: seq<int>, item: int): (r: seq<int>)
    ensures |r| == |shape|
  {
    seq(|shape|, i requires 0 <= i < |shape| => item * Prod(shape[..i]))
  }

  lemma {:induction false} CStridesDot(shape: seq<int>, index: seq<int>, item: int)
    requires |index| == |shape|
    ensures Dot(index, CStrides(shape, item)) == item * Linear(shape, index)
  {
    if shape != [] {
      CStridesDot(shape[1..], index[1..], item);
      CStridesTail(shape, item);
      Factor(item, index[0], Prod(shape[1..]), Linear(shape[1..], index[1..]));
    }
  }

  lemma Factor(item: int, i: int, p: int, l: int)
    ensures i * (item * p) + item * l == item * (i * p + l)
  {
  }

  lemma CStridesTail(shape: seq<int>, item: int)
    requires shape != []
    ensures CStrides(shape, item)[0] == item * Prod(shape[1..])
    ensures CStrides(shape, item)[1..] == CStrides(shape[1..], item)
  {
    hide Prod;
    forall i | 0 <= i < |shape| - 1 ensures CStrides(shape, item)[1..][i] == CStrides(shape[1..], item)[i] {
      assert shape[1..][i + 1..] == shape[i + 2..];
    }
  }

  lemma {:induction false} FStridesDot(shape: seq<int>, index: seq<int>, item: int)
    requires |index| == |shape|
    ensures Dot(index, FStrides(shape, item)) == item * LinearF(shape, index)
  {
    if shape != [] {
      var n := shape[0];
      FStridesDot(shape[1..], index[1..], item * n);
      FStridesTail(shape, item);
      Distribute(item, index[0], n, LinearF(shape[1..], index[1..]));
    }
  }

  lemma Distribute(item: int, i: int, n: int, l: int)
    ensures i * item + item * n * l == item * (i + n * l)
  {
  }

  lemma FStridesTail(shape: seq<int>, item: int)
    requires shape != []
    ensures FStrides(shape, item)[0] == item
    ensures FStrides(shape, item)[1..] == FStrides(shape[1..], item * shape[0])
  {
    assert shape[..0] == [] && Prod([]) == 1;
    hide Prod;
    forall i | 0 <= i < |shape| - 1
      ensures item * Prod(shape[..i + 1]) == item * shape[0] * Prod(shape[1..][..i])
    {
      ProdUncons(shape, i);
      Associate(item, shape[0], Prod(shape[1..][..i]));
    }
  }

  lemma ProdUncons(shape: seq<int>, i: nat)
    requires i < |shape|
    ensures Prod(shape[..i + 1]) == shape[0] * Prod(shape[1..][..i])
  {
    assert shape[..i + 1][1..] == shape[1..][..i];
  }

  lemma ProdUnsnoc(shape: seq<int>, i: nat)
    requires i < |shape|
    ensures Prod(shape[..i + 1]) == Prod(shape[..i]) * shape[i]
  {
    assert shape[..i + 1] == shape[..i] + [shape[i]];
    ProdConcat(shape[..i], [shape[i]]);
    assert [shape[i]][1..] == [];
  }

  lemma ProdFrom(shape: seq<int>, i: nat)
    requires i < |shape|
    ensures Prod(shape[i..]) == Prod(shape[i + 1..]) * shape[i]
  {
    assert shape[i..][1..] == shape[i + 1..];
  }

  lemma Associate(a: int, b: int, c: int)
    ensures a * (b * c) == a * b * c
  {
  }
}
