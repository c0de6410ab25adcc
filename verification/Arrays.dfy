/** Nested C arrays seen as one multi-dimensional buffer.
 */
module Arrays {
  import opened Types
  import opened Radix
  import opened Broadcast

  /** The lengths of a nested array type, outermost first. */
  function Shape(ty: Type): seq<int> {
    match ty
    case Array(e, n) => [n] + Shape(e.ty)
    case _ => []
  }

  /** The element type below all arrays. */
  function Leaf(ty: Type): Type {
    match ty
    case Array(e, _) => Leaf(e.ty)
    case _ => ty
  }

  /** `CArrayObj::GEP`. */
  function Gep(g: Graph, ty: Type, data: int, i: int): int
    requires ty.Array?
  {
    data + i * SizeOf(g, ty.elem.ty)
  }

  /** One GEP per level of the type. */
  function GepAll(g: Graph, ty: Type, data: int, index: seq<int>): int
    requires |index| == |Shape(ty)|
  {
    if ty.Array? then GepAll(g, ty.elem.ty, Gep(g, ty, data, index[0]), index[1..]) else data
  }

  /** `MDArray::fromArrayTy`. Every level drops the const of its elements, so the element
      type found is never const. */
  method FromArrayTy(ty: Type) returns (shape: seq<int>, elem: QualType)
    requires ty.Array?
    ensures shape == Shape(ty) && elem == Qual(Leaf(ty), false)
  {
    elem := Qual(ty.elem.ty, false);
    shape := [ty.count];
    while elem.ty.Array?
      invariant Shape(ty) == shape + Shape(elem.ty) && Leaf(ty) == Leaf(elem.ty) && !elem.isConst
      decreases elem.ty
    {
      assert elem.ty.elem.ty < elem.ty.elem;
      shape := shape + [elem.ty.count];
      elem := Qual(elem.ty.elem.ty, false);
    }
  }

  /** The buffer an array object exports: all its dimensions, or its bytes if it has no
      element type. With an element type the buffer is writable even if the object is
      const. */
  method GetBufferInfo(g: Graph, ty: Type, data: int, isConst: bool) returns (b: Buffer, readonly: bool)
    requires ty.Array?
    ensures BufferOk(b) && b.ptr == data && Prod(b.shape) * b.itemsize == SizeOf(g, ty)
    ensures readonly <==> isConst && Leaf(ty) == Void
    ensures Leaf(ty) != Void ==>
              b.shape == Shape(ty) && b.itemsize == SizeOf(g, Leaf(ty)) && b.strides == CStrides(b.shape, b.itemsize)
    ensures Leaf(ty) == Void ==> b.shape == [SizeOf(g, ty)] && b.itemsize == 1 && b.strides == [1]
  {
    hide SizeOf;
    var shape, elem := FromArrayTy(ty);
    SizeIsProduct(g, ty);
    ShapeIsShape(ty);
    if elem.ty != Void {
      var size := SizeOf(g, elem.ty);
      var strides := StridesLoop(shape, size);
      b := Buffer(data, size, shape, strides);
      readonly := elem.isConst;
    } else {
      var size := SizeOf(g, ty);
      b := Buffer(data, 1, [size], [1]);
      OneDim(size);
      readonly := isConst;
    }
  }

  lemma OneDim(n: nat)
    ensures Prod([n]) * 1 == n && IsShape([n])
  {
    assert [n][1..] == [];
  }

  /** The stride loop of `CArrayObj::getBufferInfo`. */
  method StridesLoop(shape: seq<int>, size: nat) returns (r: seq<int>)
    ensures r == CStrides(shape, size)
  {
    var n := |shape|;
    var strides := new int[n];
    var cur := size;
    var i := n - 1;
    assert shape[n..] == [];
    while i >= 0
      invariant -1 <= i < n
      invariant cur == size * Prod(shape[i + 1..])
      invariant forall k | i < k < n :: strides[k] == size * Prod(shape[k + 1..])
    {
      strides[i] := cur;
      assert shape[i..] == [shape[i]] + shape[i + 1..];
      Regroup(size, Prod(shape[i + 1..]), shape[i]);
      cur := cur * shape[i];
      i := i - 1;
    }
    r := strides[..];
  }

  lemma Regroup(a: int, b: int, c: int)
    ensures a * b * c == a * (c * b) == c * b * a
  {
  }

  lemma {:induction false} ShapeIsShape(ty: Type)
    ensures IsShape(Shape(ty))
  {
    if ty.Array? {
      ShapeIsShape(ty.elem.ty);
    }
  }

  lemma SizeOfArray(g: Graph, ty: Type)
    requires ty.Array?
    ensures SizeOf(g, ty) == SizeOf(g, ty.elem.ty) * ty.count
  {
  }

  lemma {:induction false} SizeIsProduct(g: Graph, ty: Type)
    ensures SizeOf(g, ty) == Prod(Shape(ty)) * SizeOf(g, Leaf(ty))
  {
    hide SizeOf;
    if ty.Array? {
      SizeIsProduct(g, ty.elem.ty);
      SizeOfArray(g, ty);
      assert Shape(ty)[1..] == Shape(ty.elem.ty);
      Regroup(Prod(Shape(ty.elem.ty)), SizeOf(g, Leaf(ty)), ty.count);
      Regroup(SizeOf(g, Leaf(ty)), Prod(Shape(ty.elem.ty)), ty.count);
    }
  }

  /** Weighting an index with the exported strides is indexing level by level. */
  lemma {:induction false} StridesAreGeps(g: Graph, ty: Type, data: int, index: seq<int>)
    requires |index| == |Shape(ty)|
    ensures GepAll(g, ty, data, index) == data + Dot(index, CStrides(Shape(ty), SizeOf(g, Leaf(ty))))
  {
    hide SizeOf;
    if ty.Array? {
      var shape, size := Shape(ty), SizeOf(g, Leaf(ty));
      StridesAreGeps(g, ty.elem.ty, Gep(g, ty, data, index[0]), index[1..]);
      SizeIsProduct(g, ty.elem.ty);
      assert shape[1..] == Shape(ty.elem.ty);
      CStridesTail(shape, size);
      Regroup(1, size, Prod(shape[1..]));
      assert CStrides(shape, size)[0] == SizeOf(g, ty.elem.ty);
    }
  }

  /** An element lies inside the array. */
  lemma ElementInBounds(g: Graph, ty: Type, data: int, index: seq<int>)
    requires InShape(index, Shape(ty))
    ensures data <= GepAll(g, ty, data, index)
    ensures GepAll(g, ty, data, index) + SizeOf(g, Leaf(ty)) <= data + SizeOf(g, ty)
  {
    var shape, size := Shape(ty), SizeOf(g, Leaf(ty));
    StridesAreGeps(g, ty, data, index);
    CStridesDot(shape, index, size);
    ShapeIsShape(ty);
    LinearBound(shape, index);
    SizeIsProduct(g, ty);
    RowBound(size, Linear(shape, index), Prod(shape));
    assert size * Prod(shape) == Prod(shape) * size;
  }

  /** Different elements have different, and hence disjoint, places. */
  lemma ElementsAreApart(g: Graph, ty: Type, data: int, a: seq<int>, b: seq<int>)
    requires InShape(a, Shape(ty)) && InShape(b, Shape(ty)) && a != b
    ensures var x, y, size := GepAll(g, ty, data, a), GepAll(g, ty, data, b), SizeOf(g, Leaf(ty));
            x + size <= y || y + size <= x
  {
    var shape, size := Shape(ty), SizeOf(g, Leaf(ty));
    StridesAreGeps(g, ty, data, a);
    StridesAreGeps(g, ty, data, b);
    CStridesDot(shape, a, size);
    CStridesDot(shape, b, size);
    ShapeIsShape(ty);
    LinearBound(shape, a);
    LinearBound(shape, b);
    var i, j := Linear(shape, a), Linear(shape, b);
    if i == j {
      LinearInjective(shape, a, b);
    } else if i < j {
      RowBound(size, i, j);
    } else {
      RowBound(size, j, i);
    }
  }
}
