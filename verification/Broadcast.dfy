/** The broadcasting iterator and its fast path.

    A vectorised call visits every element of the broadcast shape. The general path walks
    all buffers with an iterator that adds one precomputed step per element; the trivial
    path bumps each pointer by the item size. Addresses are integers.
 */
module Broadcast {
  import opened Types
  import opened Radix

  datatype Buffer = Buffer(ptr: int, itemsize: int, shape: seq<int>, strides: seq<int>)

  /** What `buffer_info` guarantees of itself. */
  ghost predicate BufferOk(b: Buffer) {
    |b.strides| == |b.shape| && IsShape(b.shape)
  }

  /** The total-size loop of `buffer_info`. */
  method TotalSize(shape: seq<int>) returns (size: int)
    ensures size == Prod(shape)
  {
    size := 1;
    for i := 0 to |shape|
      invariant size == Prod(shape[..i])
    {
      ProdConcat(shape[..i], [shape[i]]);
      assert shape[..i + 1] == shape[..i] + [shape[i]];
      assert Prod([shape[i]]) == shape[i];
      size := size * shape[i];
    }
    assert shape[..|shape|] == shape;
  }

  /** `c_strides`: filled from the right. */
  method ComputeCStrides(shape: seq<int>, itemsize: int) returns (strides: array<int>)
    ensures fresh(strides) && strides[..] == CStrides(shape, itemsize)
  {
    var ndim := |shape|;
    strides := new int[ndim](_ => itemsize);
    if ndim > 0 {
      assert shape[ndim..] == [];
      var i := ndim - 1;
      while i > 0
        invariant 0 <= i < ndim
        invariant forall k | i <= k < ndim :: strides[k] == itemsize * Prod(shape[k + 1..])
      {
        ProdFrom(shape, i);
        Associate(itemsize, Prod(shape[i + 1..]), shape[i]);
        strides[i - 1] := strides[i] * shape[i];
        i := i - 1;
      }
    }
  }

  // ----- One buffer --------------------------------------------------------------------

  /** The weights of a buffer's dimensions in the broadcast shape: dimensions are aligned on
      the right, and one that does not have the full size is not moved along. */
  function Weights(b: Buffer, shape: seq<int>): (w: seq<int>)
    requires |b.strides| == |b.shape| <= |shape|
    ensures |w| == |shape|
  {
    var skip := |shape| - |b.shape|;
    seq(|shape|, i requires 0 <= i < |shape| =>
      if i < skip || shape[i] != b.shape[i - skip] then 0 else b.strides[i - skip])
  }

  /** The address of a buffer's element for an index of the broadcast shape. */
  function Address(b: Buffer, shape: seq<int>, index: seq<int>): int
    requires |b.strides| == |b.shape| <= |shape| == |index|
  {
    b.ptr + Dot(index, Weights(b, shape))
  }

  /** The step when dimension `d` advances and all later ones wrap from top to zero. */
  function Carry(weights: seq<int>, shape: seq<int>, d: nat): int
    requires |weights| == |shape| && d < |shape|
  {
    weights[d] - Dot(Tops(shape[d + 1..]), weights[d + 1..])
  }

  datatype CommonIterator = CommonIterator(ptr: int, steps: seq<int>)

  ghost predicate StepsOk(steps: seq<int>, weights: seq<int>, shape: seq<int>) {
    |steps| == |shape| == |weights| && forall d | 0 <= d < |shape| :: steps[d] == Carry(weights, shape, d)
  }

  lemma CarryBack(weights: seq<int>, shape: seq<int>, i: nat)
    requires |weights| == |shape| && 0 < i < |shape|
    ensures Carry(weights, shape, i - 1) == weights[i - 1] + Carry(weights, shape, i) - weights[i] * shape[i]
  {
    var t, w := Tops(shape[i..]), weights[i..];
    assert t[0] == shape[i] - 1 && t[1..] == Tops(shape[i + 1..]) && w[1..] == weights[i + 1..];
    assert (shape[i] - 1) * weights[i] == shape[i] * weights[i] - weights[i];
  }

  /** The constructor of `common_iterator`: the steps, computed from the right. */
  method MakeIterator(ptr: int, weights: seq<int>, shape: seq<int>) returns (r: CommonIterator)
    requires |weights| == |shape| > 0
    ensures r.ptr == ptr && StepsOk(r.steps, weights, shape)
  {
    var n := |weights|;
    var steps := new int[n];
    steps[n - 1] := weights[n - 1];
    assert shape[n..] == [] && weights[n..] == [];
    var i := n - 1;
    while i != 0
      invariant 0 <= i < n
      invariant forall d | i <= d < n :: steps[d] == Carry(weights, shape, d)
    {
      CarryBack(weights, shape, i);
      steps[i - 1] := weights[i - 1] + steps[i] - weights[i] * shape[i];
      i := i - 1;
    }
    r := CommonIterator(ptr, steps[..]);
  }

  /** `init_common_iterator`: fills the weights from the right. */
  method InitCommonIterator(b: Buffer, shape: seq<int>) returns (r: CommonIterator)
    requires BufferOk(b) && |b.shape| <= |shape| && shape != []
    ensures r.ptr == b.ptr && StepsOk(r.steps, Weights(b, shape), shape)
  {
    var n, m := |shape|, |b.shape|;
    var weights := new int[n];
    var k := 0;
    while k < m
      invariant 0 <= k <= m
      invariant forall i | n - k <= i < n :: weights[i] == Weights(b, shape)[i]
    {
      if shape[n - 1 - k] == b.shape[m - 1 - k] {
        weights[n - 1 - k] := b.strides[m - 1 - k];
      } else {
        weights[n - 1 - k] := 0;
      }
      k := k + 1;
    }
    while k < n
      invariant m <= k <= n
      invariant forall i | n - k <= i < n :: weights[i] == Weights(b, shape)[i]
    {
      weights[n - 1 - k] := 0;
      k := k + 1;
    }
    assert weights[..] == Weights(b, shape);
    r := MakeIterator(b.ptr, weights[..], shape);
  }

  // ----- Advancing an index --------------------------------------------------------------

  /** The index after `index` when dimension `d` is the last one not at its top. */
  function Advance(index: seq<int>, d: nat): seq<int>
    requires d < |index|
  {
    index[..d] + [index[d] + 1] + Zeros(|index| - d - 1)
  }

  ghost predicate TopsAfter(shape: seq<int>, index: seq<int>, d: nat) {
    |index| == |shape| && d < |shape| && index[d + 1..] == Tops(shape[d + 1..])
  }

  lemma AdvanceLinear(shape: seq<int>, index: seq<int>, d: nat)
    requires TopsAfter(shape, index, d)
    ensures Linear(shape, Advance(index, d)) == Linear(shape, index) + 1
  {
    hide Linear;
    hide Prod;
    var s, t := shape[..d + 1], shape[d + 1..];
    var i, j := index[..d + 1], index[..d] + [index[d] + 1];
    assert shape == s + t && index == i + index[d + 1..];
    LinearConcat(s, i, t, Tops(t));
    LinearConcat(s, j, t, Zeros(|t|));
    LinearEnds(t);
    LastDigit(s, index[..d], index[d]);
    assert i == index[..d] + [index[d]];
    OneMore(Linear(s, i), Prod(t));
    assert Advance(index, d) == j + Zeros(|t|);
  }

  lemma OneMore(l: int, p: int)
    ensures (l + 1) * p == l * p + p
  {
  }

  lemma LastDigit(s: seq<int>, i: seq<int>, x: int)
    requires |s| == |i| + 1
    ensures Linear(s, i + [x + 1]) == Linear(s, i + [x]) + 1
  {
    hide Linear;
    hide Prod;
    var n := |i|;
    assert s == s[..n] + [s[n]];
    LinearConcat(s[..n], i, [s[n]], [x]);
    LinearConcat(s[..n], i, [s[n]], [x + 1]);
    LinearOne(s[n], x);
    LinearOne(s[n], x + 1);
  }

  lemma LinearOne(n: int, x: int)
    ensures Linear([n], [x]) == x && Prod([n]) == n
  {
    assert [n][1..] == [] && [x][1..] == [];
  }

  lemma AdvanceDot(weights: seq<int>, shape: seq<int>, index: seq<int>, d: nat)
    requires |weights| == |shape| && TopsAfter(shape, index, d)
    ensures Dot(Advance(index, d), weights) == Dot(index, weights) + Carry(weights, shape, d)
  {
    var w, v := weights[..d + 1], weights[d + 1..];
    var t := shape[d + 1..];
    assert weights == w + v && w == weights[..d] + [weights[d]];
    assert index == index[..d] + [index[d]] + Tops(t);
    DotConcat(index[..d] + [index[d]], w, Tops(t), v);
    DotConcat(index[..d] + [index[d] + 1], w, Zeros(|t|), v);
    DotZeros(v);
    DotConcat(index[..d], weights[..d], [index[d]], [weights[d]]);
    DotConcat(index[..d], weights[..d], [index[d] + 1], [weights[d]]);
    assert Dot([index[d]], [weights[d]]) == index[d] * weights[d];
    assert Dot([index[d] + 1], [weights[d]]) == (index[d] + 1) * weights[d];
  }

  lemma AdvanceInShape(shape: seq<int>, index: seq<int>, d: nat)
    requires IsShape(shape) && InShape(index, shape) && TopsAfter(shape, index, d) && index[d] + 1 < shape[d]
    ensures InShape(Advance(index, d), shape)
  {
    assert forall m | d < m < |shape| :: index[m] == index[d + 1..][m - d - 1];
  }

  // ----- The iterator over all buffers ---------------------------------------------------

  ghost predicate Fits(buffers: seq<Buffer>, shape: seq<int>) {
    forall b | b in buffers :: BufferOk(b) && |b.shape| <= |shape|
  }

  class MultiArrayIterator {
    const buffers: seq<Buffer>
    const shape: seq<int>
    const index: array<int>
    const iters: array<CommonIterator>

    ghost predicate Sized()
    {
      && shape != [] && (forall i | 0 <= i < |shape| :: shape[i] > 0) && Fits(buffers, shape)
      && index.Length == |shape| && iters.Length == |buffers|
    }

    ghost predicate Points(at: seq<int>)
      requires Sized() && |at| == |shape|
      reads iters
    {
      forall x | 0 <= x < |buffers| ::
        && StepsOk(iters[x].steps, Weights(buffers[x], shape), shape)
        && iters[x].ptr == Address(buffers[x], shape, at)
    }

    /** After `k` steps the index vector is the `k`-th index, and every buffer's pointer is
        at that element. */
    ghost predicate At(k: int)
      reads index, iters
    {
      Sized() && InShape(index[..], shape) && Linear(shape, index[..]) == k && Points(index[..])
    }

    constructor (buffers: seq<Buffer>, shape: seq<int>)
      requires shape != [] && (forall i | 0 <= i < |shape| :: shape[i] > 0) && Fits(buffers, shape)
      ensures At(0) && this.buffers == buffers && this.shape == shape && fresh(index) && fresh(iters)
    {
      this.buffers, this.shape := buffers, shape;
      index := new int[|shape|](_ => 0);
      iters := new CommonIterator[|buffers|](_ => CommonIterator(0, []));
      new;
      assert index[..] == Zeros(|shape|);
      for x := 0 to |buffers|
        invariant index[..] == Zeros(|shape|)
        invariant forall y | 0 <= y < x ::
          && StepsOk(iters[y].steps, Weights(buffers[y], shape), shape)
          && iters[y].ptr == Address(buffers[y], shape, Zeros(|shape|))
      {
        DotZeros(Weights(buffers[x], shape));
        iters[x] := InitCommonIterator(buffers[x], shape);
      }
      LinearEnds(shape);
    }

    /** `operator++`: one carry through the index, one step for every pointer. */
    method Next(ghost k: int)
      requires At(k)
      modifies index, iters
      ensures k + 1 < Prod(shape) ==> At(k + 1)
      ensures k + 1 >= Prod(shape) ==> k + 1 == Prod(shape) && index[..] == Zeros(|shape|)
    {
      hide Linear;
      hide Dot;
      hide Prod;
      hide Carry;
      ghost var was := index[..];
      LinearBound(shape, was);
      var n, j := |shape|, |shape|;
      while j != 0
        invariant 0 <= j <= n
        invariant forall m | 0 <= m < j :: index[m] == was[m]
        invariant forall m | j <= m < n :: was[m] == shape[m] - 1 && index[m] == 0
        invariant iters[..] == old(iters[..])
      {
        var i := j - 1;
        index[i] := index[i] + 1;
        if index[i] != shape[i] {
          assert index[..] == Advance(was, i);
          assert TopsAfter(shape, was, i);
          AdvanceInShape(shape, was, i);
          AdvanceLinear(shape, was, i);
          IncrementAll(i, was);
          LinearBound(shape, index[..]);
          return;
        }
        index[i] := 0;
        j := i;
      }
      assert was == Tops(shape) && index[..] == Zeros(n);
      LinearEnds(shape);
    }

    method IncrementAll(dim: nat, ghost was: seq<int>)
      requires Sized() && dim < |shape| && TopsAfter(shape, was, dim) && Points(was)
      modifies iters
      ensures Points(Advance(was, dim))
    {
      hide Dot;
      hide Carry;
      for x := 0 to iters.Length
        invariant forall y | 0 <= y < x ::
          && StepsOk(iters[y].steps, Weights(buffers[y], shape), shape)
          && iters[y].ptr == Address(buffers[y], shape, Advance(was, dim))
        invariant forall y | x <= y < iters.Length :: iters[y] == old(iters[y])
      {
        AdvanceDot(Weights(buffers[x], shape), shape, was, dim);
        iters[x] := iters[x].(ptr := iters[x].ptr + iters[x].steps[dim]);
      }
    }
  }

  // ----- The two ways to apply -----------------------------------------------------------

  /** The addresses the vectorised function is called with, for each element in turn. */
  type Calls = seq<seq<int>>

  method ApplyBroadcast(buffers: seq<Buffer>, shape: seq<int>, size: int) returns (calls: Calls)
    requires shape != [] && (forall i | 0 <= i < |shape| :: shape[i] > 0) && Fits(buffers, shape)
    requires size == Prod(shape)
    ensures |calls| == size
    ensures forall k | 0 <= k < size :: |calls[k]| == |buffers| &&
              forall x | 0 <= x < |buffers| :: calls[k][x] == Address(buffers[x], shape, Digits(shape, k))
  {
    hide Linear;
    hide Prod;
    hide Digits;
    calls := [];
    ProdNat(shape);
    var it := new MultiArrayIterator(buffers, shape);
    for k := 0 to size
      invariant |calls| == k && it.buffers == buffers && it.shape == shape && fresh(it.index) && fresh(it.iters)
      invariant k < size ==> it.At(k)
      invariant forall j | 0 <= j < k :: |calls[j]| == |buffers| &&
                  forall x | 0 <= x < |buffers| :: calls[j][x] == Address(buffers[x], shape, Digits(shape, j))
    {
      DigitsCount(shape, k);
      LinearInjective(shape, it.index[..], Digits(shape, k));
      var params := seq(it.iters.Length, x requires 0 <= x < it.iters.Length reads it.iters => it.iters[x].ptr);
      calls := calls + [params];
      it.Next(k);
    }
  }

  function Bump(b: Buffer): int { if Prod(b.shape) == 1 then 0 else b.itemsize }

  method ApplyTrivial(buffers: seq<Buffer>, size: nat) returns (calls: Calls)
    ensures |calls| == size
    ensures forall k | 0 <= k < size :: |calls[k]| == |buffers| &&
              forall x | 0 <= x < |buffers| :: calls[k][x] == buffers[x].ptr + k * Bump(buffers[x])
  {
    hide Prod;
    calls := [];
    var params := new int[|buffers|];
    for x := 0 to |buffers|
      invariant forall y | 0 <= y < x :: params[y] == buffers[y].ptr
    {
      params[x] := buffers[x].ptr;
    }
    for k := 0 to size
      invariant |calls| == k
      invariant forall x | 0 <= x < |buffers| :: params[x] == buffers[x].ptr + k * Bump(buffers[x])
      invariant forall j | 0 <= j < k :: |calls[j]| == |buffers| &&
                  forall x | 0 <= x < |buffers| :: calls[j][x] == buffers[x].ptr + j * Bump(buffers[x])
    {
      calls := calls + [params[..]];
      for x := 0 to |buffers|
        invariant forall y | 0 <= y < x :: params[y] == buffers[y].ptr + (k + 1) * Bump(buffers[y])
        invariant forall y | x <= y < |buffers| :: params[y] == buffers[y].ptr + k * Bump(buffers[y])
      {
        params[x] := params[x] + Bump(buffers[x]);
      }
    }
  }

  // ----- The broadcast shape -------------------------------------------------------------

  /** The size of a buffer along dimension `i` of `n`, aligned on the right. */
  function DimAt(b: Buffer, n: nat, i: nat): int
    requires |b.shape| <= n && i < n
  {
    if i < n - |b.shape| then 1 else b.shape[i - (n - |b.shape|)]
  }

  ghost predicate Conforms(b: Buffer, shape: seq<int>) {
    |b.shape| <= |shape| &&
    forall i | 0 <= i < |shape| :: DimAt(b, |shape|, i) == 1 || DimAt(b, |shape|, i) == shape[i]
  }

  /** Every size comes from some buffer, unless it is 1. */
  ghost predicate Tight(buffers: seq<Buffer>, shape: seq<int>) {
    forall i | 0 <= i < |shape| ::
      shape[i] == 1 || exists b :: b in buffers && |b.shape| <= |shape| && DimAt(b, |shape|, i) == shape[i]
  }

  /** Two buffers disagree on a dimension that neither broadcasts. */
  ghost predicate Conflict(buffers: seq<Buffer>, n: nat) {
    exists a, b, i :: a in buffers && b in buffers && |a.shape| <= n && |b.shape| <= n && 0 <= i < n
      && DimAt(a, n, i) != 1 && DimAt(b, n, i) != 1 && DimAt(a, n, i) != DimAt(b, n, i)
  }

  method MaxDim(buffers: seq<Buffer>) returns (n: nat)
    ensures forall b | b in buffers :: |b.shape| <= n
    ensures n == 0 || exists b :: b in buffers && |b.shape| == n
  {
    n := 0;
    for x := 0 to |buffers|
      invariant forall y | 0 <= y < x :: |buffers[y].shape| <= n
      invariant n == 0 || exists b :: b in buffers && |b.shape| == n
    {
      if |buffers[x].shape| > n {
        n := |buffers[x].shape|;
        assert buffers[x] in buffers;
      }
    }
  }

  /** The shape part of `broadcast`; `None` is its failure. */
  method BroadcastShape(buffers: seq<Buffer>) returns (r: Option<seq<int>>, ghost n: nat)
    requires forall b | b in buffers :: BufferOk(b)
    ensures forall b | b in buffers :: |b.shape| <= n
    ensures n == 0 || exists b :: b in buffers && |b.shape| == n
    ensures r.None? ==> Conflict(buffers, n)
    ensures r.Some? ==> |r.value| == n && IsShape(r.value) && Tight(buffers, r.value)
    ensures r.Some? ==> forall b | b in buffers :: Conforms(b, r.value)
  {
    var ndim := MaxDim(buffers);
    n := ndim;
    var shape: seq<int> := seq(ndim, _ => 1);
    for x := 0 to |buffers|
      invariant |shape| == ndim && IsShape(shape) && Tight(buffers, shape)
      invariant forall y | 0 <= y < x :: Conforms(buffers[y], shape)
    {
      var next := WidenTo(buffers, x, shape);
      if next.None? {
        return None, ndim;
      }
      shape := next.value;
    }
    r := Some(shape);
  }

  /** Takes the dimensions of buffer `x` into account, from the right. */
  method WidenTo(buffers: seq<Buffer>, x: nat, start: seq<int>) returns (r: Option<seq<int>>)
    requires (forall b | b in buffers :: BufferOk(b)) && x < |buffers|
    requires |buffers[x].shape| <= |start| && IsShape(start) && Tight(buffers, start)
    requires forall y | 0 <= y < x :: Conforms(buffers[y], start)
    ensures r.None? ==> Conflict(buffers, |start|)
    ensures r.Some? ==> |r.value| == |start| && IsShape(r.value) && Tight(buffers, r.value)
    ensures r.Some? ==> forall y | 0 <= y <= x :: Conforms(buffers[y], r.value)
  {
    var b, n, shape := buffers[x], |start|, start;
    var m := |b.shape|;
    for k := 0 to m
      invariant |shape| == n && IsShape(shape) && Tight(buffers, shape)
      invariant forall y | 0 <= y < x :: Conforms(buffers[y], shape)
      invariant forall i | n - k <= i < n :: DimAt(b, n, i) == 1 || DimAt(b, n, i) == shape[i]
    {
      var dimIn, i := b.shape[m - 1 - k], n - 1 - k;
      assert DimAt(b, n, i) == dimIn && b in buffers;
      if shape[i] == 1 {
        WidenOne(buffers, b, x, shape, i);
        shape := shape[i := dimIn];
      } else if dimIn != 1 && dimIn != shape[i] {
        var a :| a in buffers && |a.shape| <= n && DimAt(a, n, i) == shape[i];
        assert DimAt(a, n, i) != 1 && DimAt(b, n, i) != 1 && DimAt(a, n, i) != DimAt(b, n, i);
        return None;
      }
    }
    r := Some(shape);
  }

  lemma WidenOne(buffers: seq<Buffer>, b: Buffer, x: nat, shape: seq<int>, i: nat)
    requires b in buffers && |b.shape| <= |shape| && i < |shape| && x <= |buffers| && shape[i] == 1
    requires Tight(buffers, shape) && forall y | 0 <= y < x :: Conforms(buffers[y], shape)
    ensures var s := shape[i := DimAt(b, |shape|, i)];
            Tight(buffers, s) && forall y | 0 <= y < x :: Conforms(buffers[y], s)
  {
  }

  // ----- The trivial cases ---------------------------------------------------------------

  datatype Trivial = NonTrivial | CTrivial | FTrivial

  ghost predicate InC(b: Buffer, shape: seq<int>) {
    Prod(b.shape) == 1 || (b.shape == shape && b.strides == CStrides(shape, b.itemsize))
  }

  ghost predicate InF(b: Buffer, shape: seq<int>) {
    Prod(b.shape) == 1 || (b.shape == shape && b.strides == FStrides(shape, b.itemsize))
  }

  method IsCContiguous(b: Buffer) returns (r: bool)
    requires BufferOk(b)
    ensures r <==> b.strides == CStrides(b.shape, b.itemsize)
  {
    var n, stride := |b.shape|, b.itemsize;
    assert b.shape[n..] == [];
    for k := 0 to n
      invariant stride == b.itemsize * Prod(b.shape[n - k..])
      invariant forall i | n - k <= i < n :: b.strides[i] == b.itemsize * Prod(b.shape[i + 1..])
    {
      var i := n - 1 - k;
      if stride != b.strides[i] {
        assert CStrides(b.shape, b.itemsize)[i] == stride;
        return false;
      }
      ProdFrom(b.shape, i);
      Associate(b.itemsize, Prod(b.shape[i + 1..]), b.shape[i]);
      stride := stride * b.shape[i];
    }
    r := true;
  }

  method IsFContiguous(b: Buffer) returns (r: bool)
    requires BufferOk(b)
    ensures r <==> b.strides == FStrides(b.shape, b.itemsize)
  {
    var n, stride := |b.shape|, b.itemsize;
    for i := 0 to n
      invariant stride == b.itemsize * Prod(b.shape[..i])
      invariant forall k | 0 <= k < i :: b.strides[k] == b.itemsize * Prod(b.shape[..k])
    {
      if stride != b.strides[i] {
        assert FStrides(b.shape, b.itemsize)[i] == stride;
        return false;
      }
      ProdUnsnoc(b.shape, i);
      Associate(b.itemsize, Prod(b.shape[..i]), b.shape[i]);
      stride := stride * b.shape[i];
    }
    r := true;
  }

  /** The second part of `broadcast`. */
  method Classify(buffers: seq<Buffer>, shape: seq<int>) returns (r: Trivial)
    requires forall b | b in buffers :: BufferOk(b)
    ensures r == CTrivial <==> forall b | b in buffers :: InC(b, shape)
    ensures r == FTrivial ==> forall b | b in buffers :: InF(b, shape)
    ensures r == NonTrivial ==> !forall b | b in buffers :: InF(b, shape)
  {
    hide CStrides;
    hide FStrides;
    hide Prod;
    var c, f := true, true;
    var x := 0;
    while x < |buffers| && (c || f)
      invariant 0 <= x <= |buffers|
      invariant c ==> forall y | 0 <= y < x :: InC(buffers[y], shape)
      invariant f ==> forall y | 0 <= y < x :: InF(buffers[y], shape)
      invariant !c ==> exists b :: b in buffers && !InC(b, shape)
      invariant !f ==> exists b :: b in buffers && !InF(b, shape)
    {
      var b := buffers[x];
      assert b in buffers;
      var size := TotalSize(b.shape);
      if size != 1 {
        if b.shape != shape {
          return NonTrivial;
        }
        if c {
          c := IsCContiguous(b);
        }
        if f {
          f := IsFContiguous(b);
        }
      }
      x := x + 1;
    }
    r := if c then CTrivial else if f then FTrivial else NonTrivial;
  }

  // ----- The fast path is the slow path --------------------------------------------------

  lemma {:induction false} ProdOne(shape: seq<int>, i: nat)
    requires IsShape(shape) && Prod(shape) == 1 && i < |shape|
    ensures shape[i] == 1
  {
    ProdNat(shape[1..]);
    UnitFactors(shape[0], Prod(shape[1..]));
    if i > 0 {
      ProdOne(shape[1..], i - 1);
    }
  }

  lemma UnitFactors(a: int, b: int)
    requires a >= 0 && b >= 0 && a * b == 1
    ensures a == 1 && b == 1
  {
    assert b >= 1 ==> a * b >= a;
    assert a >= 1 ==> a * b >= b;
  }

  lemma {:induction false} DotNothing(index: seq<int>, weights: seq<int>)
    requires |index| == |weights| && forall i | 0 <= i < |index| :: index[i] == 0 || weights[i] == 0
    ensures Dot(index, weights) == 0
  {
    if index != [] {
      DotNothing(index[1..], weights[1..]);
    }
  }

  /** A singleton buffer stays where it is. */
  lemma SingletonStays(b: Buffer, shape: seq<int>, index: seq<int>)
    requires BufferOk(b) && |b.shape| <= |shape| && InShape(index, shape) && Prod(b.shape) == 1
    ensures Address(b, shape, index) == b.ptr
  {
    var w, skip := Weights(b, shape), |shape| - |b.shape|;
    forall i | 0 <= i < |shape| ensures index[i] == 0 || w[i] == 0 {
      if i >= skip {
        ProdOne(b.shape, i - skip);
      }
    }
    DotNothing(index, w);
  }

  /** The address of an element in row-major storage, as the fast path computes it. */
  lemma CTrivialAddress(b: Buffer, shape: seq<int>, index: seq<int>)
    requires BufferOk(b) && |b.shape| <= |shape| && InC(b, shape) && InShape(index, shape)
    ensures Address(b, shape, index) == b.ptr + Linear(shape, index) * Bump(b)
  {
    if Prod(b.shape) == 1 {
      SingletonStays(b, shape, index);
    } else {
      assert Weights(b, shape) == CStrides(shape, b.itemsize);
      CStridesDot(shape, index, b.itemsize);
      assert b.itemsize * Linear(shape, index) == Linear(shape, index) * b.itemsize;
    }
  }

  lemma FTrivialAddress(b: Buffer, shape: seq<int>, index: seq<int>)
    requires BufferOk(b) && |b.shape| <= |shape| && InF(b, shape) && InShape(index, shape)
    ensures Address(b, shape, index) == b.ptr + LinearF(shape, index) * Bump(b)
  {
    if Prod(b.shape) == 1 {
      SingletonStays(b, shape, index);
    } else {
      assert Weights(b, shape) == FStrides(shape, b.itemsize);
      FStridesDot(shape, index, b.itemsize);
      assert b.itemsize * LinearF(shape, index) == LinearF(shape, index) * b.itemsize;
    }
  }

  /** Whenever all buffers are C-trivial, the two ways make the same calls. */
  lemma FastRefinesSlow(buffers: seq<Buffer>, shape: seq<int>, k: int, x: nat)
    requires Fits(buffers, shape) && IsShape(shape) && x < |buffers| && 0 <= k < Prod(shape)
    requires forall b | b in buffers :: InC(b, shape)
    ensures buffers[x].ptr + k * Bump(buffers[x]) == Address(buffers[x], shape, Digits(shape, k))
  {
    DigitsCount(shape, k);
    CTrivialAddress(buffers[x], shape, Digits(shape, k));
  }

  lemma RowBound(n: nat, l: nat, p: int)
    requires l < p
    ensures 0 <= n * l && n * l + n <= n * p
  {
    assert n * (p - l - 1) >= 0;
    assert n * (p - l - 1) == n * p - n * l - n;
  }

  lemma {:induction false} LinearFBound(shape: seq<int>, index: seq<int>)
    requires IsShape(shape) && InShape(index, shape)
    ensures 0 <= LinearF(shape, index) < Prod(shape)
  {
    if shape != [] {
      LinearFBound(shape[1..], index[1..]);
      RowBound(shape[0], LinearF(shape[1..], index[1..]), Prod(shape[1..]));
    }
  }

  /** The calls put every element of the result at the place of its index, row-major unless
      the result was created column-major, and read every buffer where the iterator is. */
  ghost predicate AtAddresses(buffers: seq<Buffer>, shape: seq<int>, calls: Calls, columns: bool) {
    |calls| == Prod(shape) &&
    forall index | InShape(index, shape) ::
      var at := if columns then LinearF(shape, index) else Linear(shape, index);
      0 <= at < |calls| && |calls[at]| == |buffers| &&
      forall x | 0 <= x < |buffers| :: |buffers[x].strides| == |buffers[x].shape| <= |shape| &&
        calls[at][x] == Address(buffers[x], shape, index)
  }

  /** The application in `vectorize_helper::run`, for results with an element: by whichever
      way, element `index` of the result is computed from the elements `index`
      of the broadcast arguments. */
  method Vectorize(buffers: seq<Buffer>, shape: seq<int>) returns (calls: Calls, columns: bool)
    requires shape != [] && (forall i | 0 <= i < |shape| :: shape[i] > 0) && Fits(buffers, shape)
    ensures AtAddresses(buffers, shape, calls, columns)
  {
    hide Linear;
    hide LinearF;
    hide Prod;
    hide Digits;
    var size := TotalSize(shape);
    ProdNat(shape);
    var trivial := Classify(buffers, shape);
    columns := trivial == FTrivial;
    if trivial == NonTrivial {
      calls := ApplyBroadcast(buffers, shape, size);
      forall index | InShape(index, shape) ensures 0 <= Linear(shape, index) < size && Digits(shape, Linear(shape, index)) == index {
        LinearBound(shape, index);
        DigitsCount(shape, Linear(shape, index));
        LinearInjective(shape, index, Digits(shape, Linear(shape, index)));
      }
    } else {
      calls := ApplyTrivial(buffers, size);
      forall index, x | InShape(index, shape) && 0 <= x < |buffers|
        ensures var at := if columns then LinearF(shape, index) else Linear(shape, index);
                0 <= at < size && calls[at][x] == Address(buffers[x], shape, index)
      {
        LinearBound(shape, index);
        LinearFBound(shape, index);
        assert buffers[x] in buffers;
        if columns {
          FTrivialAddress(buffers[x], shape, index);
        } else {
          CTrivialAddress(buffers[x], shape, index);
        }
      }
      forall index | InShape(index, shape) ensures 0 <= (if columns then LinearF(shape, index) else Linear(shape, index)) < size {
        LinearBound(shape, index);
        LinearFBound(shape, index);
      }
    }
  }

  // ----- The buffer's own elements -------------------------------------------------------

  /** The index of the buffer's own element for an index of the broadcast shape: the last
      coordinates, and the only one there is along a dimension of size one. */
  function Own(b: Buffer, index: seq<int>): (own: seq<int>)
    requires |b.shape| <= |index|
    ensures |own| == |b.shape|
  {
    var skip := |index| - |b.shape|;
    seq(|b.shape|, i requires 0 <= i < |b.shape| => if b.shape[i] == 1 then 0 else index[skip + i])
  }

  /** The address of a buffer's own element. */
  function OwnAddress(b: Buffer, own: seq<int>): int
    requires |own| == |b.strides|
  {
    b.ptr + Dot(own, b.strides)
  }

  lemma OwnIsInside(b: Buffer, shape: seq<int>, index: seq<int>)
    requires BufferOk(b) && Conforms(b, shape) && InShape(index, shape)
    ensures InShape(Own(b, index), b.shape)
  {
    var skip := |shape| - |b.shape|;
    forall i | 0 <= i < |b.shape| ensures 0 <= Own(b, index)[i] < b.shape[i] {
      assert DimAt(b, |shape|, skip + i) == b.shape[i];
    }
  }

  lemma {:induction false} SameProducts(i: seq<int>, v: seq<int>, j: seq<int>, w: seq<int>)
    requires |i| == |v| == |j| == |w| && forall k | 0 <= k < |i| :: i[k] * v[k] == j[k] * w[k]
    ensures Dot(i, v) == Dot(j, w)
  {
    if i != [] {
      SameProducts(i[1..], v[1..], j[1..], w[1..]);
    }
  }

  /** Broadcasting reads the buffer's own element for the index. */
  lemma AddressIsOwn(b: Buffer, shape: seq<int>, index: seq<int>)
    requires BufferOk(b) && Conforms(b, shape) && InShape(index, shape)
    ensures Address(b, shape, index) == OwnAddress(b, Own(b, index))
  {
    var w, skip := Weights(b, shape), |shape| - |b.shape|;
    var head, tail := index[..skip], index[skip..];
    assert index == head + tail && w == w[..skip] + w[skip..];
    DotConcat(head, w[..skip], tail, w[skip..]);
    DotNothing(head, w[..skip]);
    forall k | 0 <= k < |b.shape| ensures tail[k] * w[skip..][k] == Own(b, index)[k] * b.strides[k] {
      assert DimAt(b, |shape|, skip + k) == b.shape[k];
      assert w[skip..][k] == w[skip + k] && tail[k] == index[skip + k];
      if b.shape[k] == 1 {
        assert w[skip + k] == 0 || index[skip + k] == 0;
      }
    }
    SameProducts(tail, w[skip..], Own(b, index), b.strides);
  }

  /** Every element of the result is computed once, at the place of its index, from the own
      elements of the buffers for that index. */
  ghost predicate Elementwise(buffers: seq<Buffer>, shape: seq<int>, calls: Calls, columns: bool) {
    |calls| == Prod(shape) &&
    forall index | InShape(index, shape) ::
      var at := if columns then LinearF(shape, index) else Linear(shape, index);
      0 <= at < |calls| && |calls[at]| == |buffers| &&
      forall x | 0 <= x < |buffers| ::
        && |buffers[x].strides| == |buffers[x].shape| <= |shape|
        && InShape(Own(buffers[x], index), buffers[x].shape)
        && calls[at][x] == OwnAddress(buffers[x], Own(buffers[x], index))
  }

  lemma AddressesAreOwn(buffers: seq<Buffer>, shape: seq<int>, calls: Calls, columns: bool)
    requires (forall b | b in buffers :: BufferOk(b) && Conforms(b, shape)) && AtAddresses(buffers, shape, calls, columns)
    ensures Elementwise(buffers, shape, calls, columns)
  {
    hide Linear;
    hide LinearF;
    hide Prod;
    hide Address;
    hide OwnAddress;
    hide Own;
    hide Conforms;
    forall index, x | InShape(index, shape) && 0 <= x < |buffers|
      ensures |buffers[x].strides| == |buffers[x].shape| <= |shape|
      ensures InShape(Own(buffers[x], index), buffers[x].shape)
      ensures Address(buffers[x], shape, index) == OwnAddress(buffers[x], Own(buffers[x], index))
    {
      var b := buffers[x];
      assert b in buffers;
      ConformsFits(b, shape);
      OwnIsInside(b, shape, index);
      AddressIsOwn(b, shape, index);
    }
  }

  lemma ConformsFits(b: Buffer, shape: seq<int>)
    requires Conforms(b, shape)
    ensures |b.shape| <= |shape|
  {
  }

  // ----- The whole call ------------------------------------------------------------------

  lemma {:induction false} ProdZero(shape: seq<int>)
    requires IsShape(shape)
    ensures Prod(shape) == 0 <==> exists i :: 0 <= i < |shape| && shape[i] == 0
  {
    if shape != [] {
      ProdZero(shape[1..]);
      ProdNat(shape[1..]);
      ZeroFactor(shape[0], Prod(shape[1..]));
      if i :| 0 <= i < |shape| && shape[i] == 0 {
        assert i > 0 ==> shape[1..][i - 1] == 0;
      }
    }
  }

  lemma ZeroFactor(a: int, b: int)
    ensures a * b == 0 <==> a == 0 || b == 0
  {
  }

  lemma ScalarCall(buffers: seq<Buffer>, call: seq<int>)
    requires Fits(buffers, []) && |call| == |buffers| && forall x | 0 <= x < |buffers| :: call[x] == buffers[x].ptr
    ensures AtAddresses(buffers, [], [call], false)
  {
  }

  /** What a vectorised call does: it fails, or it makes calls for a result of some shape. */
  datatype Outcome = Incompatible | Result(shape: seq<int>, calls: Calls, columns: bool)

  /** `vectorize_helper::run`. It fails exactly when two arguments disagree on a dimension.
      Otherwise the shape is the smallest that all arguments broadcast to, and each of its
      elements, if it has any, is computed once, from the elements of the same index. */
  method RunVectorized(buffers: seq<Buffer>) returns (r: Outcome)
    requires forall b | b in buffers :: BufferOk(b)
    ensures r.Incompatible? <==> exists n: nat :: (forall b | b in buffers :: |b.shape| <= n) && Conflict(buffers, n)
    ensures r.Result? ==> forall b | b in buffers :: Conforms(b, r.shape)
    ensures r.Result? ==> forall s: seq<int> | (forall b | b in buffers :: Conforms(b, s)) :: WidensTo(r.shape, s)
    ensures r.Result? ==> Elementwise(buffers, r.shape, r.calls, r.columns)
  {
    hide Prod;
    hide AtAddresses;
    hide Elementwise;
    hide Conflict;
    hide Conforms;
    hide Tight;
    hide WidensTo;
    var shape, n := BroadcastShape(buffers);
    if shape.None? {
      return Incompatible;
    }
    NeverConflict(buffers, shape.value);
    forall s: seq<int> | forall b | b in buffers :: Conforms(b, s) ensures WidensTo(shape.value, s) {
      TightIsSmallest(buffers, shape.value, s);
    }
    assert Fits(buffers, shape.value);
    var size := TotalSize(shape.value);
    if size == 1 && shape.value == [] {
      var call := seq(|buffers|, x requires 0 <= x < |buffers| => buffers[x].ptr);
      ScalarCall(buffers, call);
      AddressesAreOwn(buffers, [], [call], false);
      return Result([], [call], false);
    }
    ProdZero(shape.value);
    if size == 0 {
      var trivial := Classify(buffers, shape.value);
      NoElements(buffers, shape.value, trivial == FTrivial);
      AddressesAreOwn(buffers, shape.value, [], trivial == FTrivial);
      return Result(shape.value, [], trivial == FTrivial);
    }
    EmptyProd();
    var calls, columns := Vectorize(buffers, shape.value);
    AddressesAreOwn(buffers, shape.value, calls, columns);
    r := Result(shape.value, calls, columns);
  }

  /** The shape `a`, aligned on the right, broadcasts to `b`. */
  ghost predicate WidensTo(a: seq<int>, b: seq<int>) {
    |a| <= |b| && forall i | 0 <= i < |a| :: a[i] == 1 || a[i] == b[|b| - |a| + i]
  }

  /** A tight shape broadcasts to every shape to which all arguments broadcast. */
  lemma TightIsSmallest(buffers: seq<Buffer>, shape: seq<int>, s: seq<int>)
    requires Tight(buffers, shape) && forall b | b in buffers :: Conforms(b, s)
    requires shape == [] || exists b :: b in buffers && |b.shape| == |shape|
    ensures WidensTo(shape, s)
  {
    forall i | 0 <= i < |shape| && shape[i] != 1
      ensures |shape| <= |s| && shape[i] == s[|s| - |shape| + i]
    {
      var b :| b in buffers && |b.shape| <= |shape| && DimAt(b, |shape|, i) == shape[i];
      ConformsAt(b, s, |shape|, i);
    }
  }

  lemma EmptyProd()
    ensures Prod([]) == 1
  {
  }

  lemma NoElements(buffers: seq<Buffer>, shape: seq<int>, columns: bool)
    requires IsShape(shape) && Prod(shape) == 0
    ensures AtAddresses(buffers, shape, [], columns)
  {
    ProdZero(shape);
  }

  /** A dimension that is not broadcast has the size of the shape. */
  lemma ConformsAt(b: Buffer, shape: seq<int>, n: nat, i: nat)
    requires Conforms(b, shape) && |b.shape| <= n && i < n && DimAt(b, n, i) != 1
    ensures 0 <= i - n + |shape| && DimAt(b, n, i) == shape[i - n + |shape|]
  {
    assert DimAt(b, |shape|, i - n + |shape|) == DimAt(b, n, i);
  }

  /** Where the arguments conform to a shape, they conflict in no number of dimensions. */
  lemma NeverConflict(buffers: seq<Buffer>, shape: seq<int>)
    requires forall b | b in buffers :: Conforms(b, shape)
    ensures forall n: nat | (forall b | b in buffers :: |b.shape| <= n) :: !Conflict(buffers, n)
  {
    forall n: nat, a, b, i | a in buffers && b in buffers && |a.shape| <= n && |b.shape| <= n && 0 <= i < n
      && DimAt(a, n, i) != 1 && DimAt(b, n, i) != 1
      ensures DimAt(a, n, i) == DimAt(b, n, i)
    {
      ConformsAt(a, shape, n, i);
      ConformsAt(b, shape, n, i);
    }
  }
}
