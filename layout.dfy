/**
 * Column-major layout of a rank-N array: the number of elements, the strides
 * and backstrides that jltensor recomputes from its shape on every
 * construction path, and what those strides mean for element addressing.
 *
 * The adapter calls xtensor's compute_strides with layout_type::column_major.
 * That routine belongs to xtensor and is not part of this model; it is taken
 * to follow xtensor's rule: walking the dimensions from the first, each
 * stride is the number of elements spanned by the dimensions before it, a
 * dimension of extent 1 gets stride 0 (so that it broadcasts), and the
 * backstride of a dimension is its stride times (extent - 1), in signed
 * arithmetic.
 */
module Layout {

  /** The number of elements of an array with these extents (1 for rank 0). */
  function Product(shape: seq<nat>): nat
  {
    if shape == [] then 1 else shape[0] * Product(shape[1..])
  }

  /** The shape of N ones, the default shape of a jltensor. */
  function Ones(n: nat): (r: seq<nat>)
    ensures |r| == n
    ensures forall i :: 0 <= i < n ==> r[i] == 1
  {
    seq(n, _ => 1)
  }

  lemma {:induction false} ProductOfOnes(n: nat)
    ensures Product(Ones(n)) == 1
  {
    if n > 0 {
      assert Ones(n)[1..] == Ones(n - 1);
      ProductOfOnes(n - 1);
    }
  }

  /**
   * The strides of the remaining dimensions when every step along the first
   * of them spans `unit` elements: the running data size of compute_strides.
   */
  function StridesFrom(shape: seq<nat>, unit: nat): (r: seq<int>)
    ensures |r| == |shape|
  {
    if shape == [] then []
    else [if shape[0] == 1 then 0 else unit] + StridesFrom(shape[1..], unit * shape[0])
  }

  lemma {:induction false} StridesFromAt(shape: seq<nat>, unit: nat, i: nat)
    requires i < |shape|
    ensures StridesFrom(shape, unit)[i] == if shape[i] == 1 then 0 else unit * Product(shape[..i])
  {
    if i > 0 {
      var prefix := Product(shape[1..][..i - 1]);
      StridesFromAt(shape[1..], unit * shape[0], i - 1);
      assert StridesFrom(shape, unit)[i] == StridesFrom(shape[1..], unit * shape[0])[i - 1];
      assert shape[..i][1..] == shape[1..][..i - 1];
      assert Product(shape[..i]) == shape[0] * prefix;
      MulAssoc(unit, shape[0], prefix);
    }
  }

  /**
   * Column-major strides: dimension i steps over all the elements of the
   * dimensions before it, so the first index varies fastest; a dimension of
   * extent 1 has stride 0.
   */
  function ColumnMajorStrides(shape: seq<nat>): (r: seq<int>)
    ensures |r| == |shape|
    ensures forall i :: 0 <= i < |shape| ==> r[i] == if shape[i] == 1 then 0 else Product(shape[..i])
  {
    var r := StridesFrom(shape, 1);
    assert forall i :: 0 <= i < |shape| ==> r[i] == if shape[i] == 1 then 0 else Product(shape[..i]) by {
      forall i | 0 <= i < |shape|
        ensures r[i] == if shape[i] == 1 then 0 else Product(shape[..i])
      {
        StridesFromAt(shape, 1, i);
      }
    }
    r
  }

  /** Backstrides: stride times (extent - 1), per dimension. */
  function BackstridesOf(shape: seq<nat>, strides: seq<int>): (r: seq<int>)
    requires |strides| == |shape|
    ensures |r| == |shape|
    ensures forall i :: 0 <= i < |shape| ==> r[i] == strides[i] * (shape[i] as int - 1)
  {
    if shape == [] then []
    else [strides[0] * (shape[0] as int - 1)] + BackstridesOf(shape[1..], strides[1..])
  }

  function ColumnMajorBackstrides(shape: seq<nat>): (r: seq<int>)
    ensures |r| == |shape|
    ensures forall i :: 0 <= i < |shape| ==> r[i] == ColumnMajorStrides(shape)[i] * (shape[i] as int - 1)
  {
    BackstridesOf(shape, ColumnMajorStrides(shape))
  }

  function Sum(s: seq<int>): int
  {
    if s == [] then 0 else s[0] + Sum(s[1..])
  }

  /** True when `index` addresses an element of an array with these extents. */
  predicate InBounds(index: seq<int>, shape: seq<nat>)
  {
    |index| == |shape| && forall i :: 0 <= i < |index| ==> 0 <= index[i] < shape[i]
  }

  predicate AllPositive(shape: seq<nat>)
  {
    forall i :: 0 <= i < |shape| ==> shape[i] > 0
  }

  /** The position in the buffer of the element at `index`: the dot product of index and strides. */
  function Offset(index: seq<int>, strides: seq<int>): int
    requires |index| == |strides|
  {
    if index == [] then 0 else index[0] * strides[0] + Offset(index[1..], strides[1..])
  }

  /** Column-major rank of an index, counted with the first index fastest. */
  function Linear(index: seq<int>, shape: seq<nat>): int
    requires |index| == |shape|
  {
    if index == [] then 0 else index[0] + shape[0] * Linear(index[1..], shape[1..])
  }

  /** The index whose column-major rank is k: the inverse of Linear. */
  function Unravel(k: nat, shape: seq<nat>): (r: seq<int>)
    requires k < Product(shape)
    ensures |r| == |shape|
    decreases shape
  {
    if shape == [] then []
    else
      DivBelow(k, shape[0], Product(shape[1..]));
      [k % shape[0]] + Unravel(k / shape[0], shape[1..])
  }

  lemma {:induction false} LinearUnravel(k: nat, shape: seq<nat>)
    requires k < Product(shape)
    decreases shape
    ensures InBounds(Unravel(k, shape), shape)
    ensures Linear(Unravel(k, shape), shape) == k
  {
    if shape != [] {
      DivBelow(k, shape[0], Product(shape[1..]));
      DivMod(k, shape[0]);
      var q := k / shape[0];
      LinearUnravel(q, shape[1..]);
      var r := Unravel(k, shape);
      assert r[1..] == Unravel(q, shape[1..]);
    }
  }

  /** The index of the last element: extent - 1 in every dimension. */
  function LastIndex(shape: seq<nat>): (r: seq<int>)
    ensures |r| == |shape|
  {
    if shape == [] then [] else [shape[0] as int - 1] + LastIndex(shape[1..])
  }

  lemma DivBelow(k: nat, a: nat, b: nat)
    requires k < a * b
    ensures a > 0 && k / a < b
  {
  }

  lemma DivMod(k: nat, a: nat)
    requires a > 0
    ensures k == a * (k / a) + k % a && 0 <= k % a < a
  {
  }

  lemma DivModUnique(x: int, a: nat, q: int, r: int)
    requires a > 0 && 0 <= r < a && x == a * q + r
    ensures x / a == q && x % a == r
  {
    var q', r' := x / a, x % a;
    assert x == a * q' + r';
    MulSub(a, q, q');
    NoSmallMultiple(a, q - q');
  }

  lemma MulSub(a: int, b: int, c: int)
    ensures a * (b - c) == a * b - a * c
  {
  }

  lemma NoSmallMultiple(a: int, d: int)
    requires a > 0 && -a < a * d < a
    ensures d == 0
  {
  }

  lemma MulAssoc(a: int, b: int, c: int)
    ensures (a * b) * c == a * (b * c)
  {
  }

  lemma MulDistrib(a: int, b: int, c: int)
    ensures a * (b + c) == a * b + a * c
  {
  }

  lemma MulLeftMono(c: nat, x: int, y: int)
    requires x <= y
    ensures c * x <= c * y
  {
  }

  /** With column-major strides scaled by `unit`, an offset is `unit` times the column-major rank. */
  lemma {:induction false} OffsetIsScaledLinear(index: seq<int>, shape: seq<nat>, unit: nat)
    requires InBounds(index, shape)
    ensures Offset(index, StridesFrom(shape, unit)) == unit * Linear(index, shape)
  {
    if index != [] {
      var s := StridesFrom(shape, unit);
      assert s[1..] == StridesFrom(shape[1..], unit * shape[0]);
      assert InBounds(index[1..], shape[1..]);
      OffsetIsScaledLinear(index[1..], shape[1..], unit * shape[0]);
      var rest := Linear(index[1..], shape[1..]);
      assert index[0] * s[0] == unit * index[0] by {
        if shape[0] == 1 { assert index[0] == 0; }
      }
      assert Offset(index, s) == unit * index[0] + (unit * shape[0]) * rest;
      MulAssoc(unit, shape[0], rest);
      MulDistrib(unit, index[0], shape[0] * rest);
    }
  }

  lemma {:induction false} LinearBelowProduct(index: seq<int>, shape: seq<nat>)
    requires InBounds(index, shape)
    ensures 0 <= Linear(index, shape) < Product(shape)
  {
    if index != [] {
      assert InBounds(index[1..], shape[1..]);
      LinearBelowProduct(index[1..], shape[1..]);
      var s0, rest, p := shape[0], Linear(index[1..], shape[1..]), Product(shape[1..]);
      assert Linear(index, shape) == index[0] + s0 * rest;
      assert Product(shape) == s0 * p;
      MulLeftMono(s0, 0, rest);
      MulLeftMono(s0, rest, p - 1);
      MulSub(s0, p, 1);
    }
  }

  lemma {:induction false} UnravelLinear(index: seq<int>, shape: seq<nat>)
    requires InBounds(index, shape)
    ensures 0 <= Linear(index, shape) < Product(shape)
    ensures Unravel(Linear(index, shape), shape) == index
  {
    LinearBelowProduct(index, shape);
    if index != [] {
      assert InBounds(index[1..], shape[1..]);
      var rest := Linear(index[1..], shape[1..]);
      LinearBelowProduct(index[1..], shape[1..]);
      DivModUnique(Linear(index, shape), shape[0], rest, index[0]);
      UnravelLinear(index[1..], shape[1..]);
      assert index == [index[0]] + index[1..];
    }
  }

  lemma {:induction false} InBoundsLast(shape: seq<nat>)
    requires AllPositive(shape)
    ensures InBounds(LastIndex(shape), shape)
    ensures Linear(LastIndex(shape), shape) == Product(shape) - 1
  {
    if shape != [] {
      assert AllPositive(shape[1..]);
      InBoundsLast(shape[1..]);
      var last := LastIndex(shape);
      assert last[1..] == LastIndex(shape[1..]);
      assert shape[0] * (Product(shape[1..]) - 1) == Product(shape) - shape[0];
    }
  }

  lemma {:induction false} SumBackstridesIsOffsetOfLast(shape: seq<nat>, strides: seq<int>)
    requires |strides| == |shape|
    ensures Sum(BackstridesOf(shape, strides)) == Offset(LastIndex(shape), strides)
  {
    if shape != [] {
      SumBackstridesIsOffsetOfLast(shape[1..], strides[1..]);
      assert LastIndex(shape)[1..] == LastIndex(shape[1..]);
      assert BackstridesOf(shape, strides)[1..] == BackstridesOf(shape[1..], strides[1..]);
    }
  }

  // Properties of the column-major layout the adapter relies on.

  /** Every in-bounds index lands inside a buffer of Product(shape) elements. */
  lemma OffsetInStorage(index: seq<int>, shape: seq<nat>)
    requires InBounds(index, shape)
    ensures 0 <= Offset(index, ColumnMajorStrides(shape)) < Product(shape)
  {
    OffsetIsScaledLinear(index, shape, 1);
    LinearBelowProduct(index, shape);
  }

  /** The same, for all indices at once. */
  lemma OffsetsInStorage(shape: seq<nat>)
    ensures forall index :: InBounds(index, shape) ==> 0 <= Offset(index, ColumnMajorStrides(shape)) < Product(shape)
  {
    forall index | InBounds(index, shape)
      ensures 0 <= Offset(index, ColumnMajorStrides(shape)) < Product(shape)
    {
      OffsetInStorage(index, shape);
    }
  }

  /** Distinct in-bounds indices address distinct elements. */
  lemma OffsetInjective(i1: seq<int>, i2: seq<int>, shape: seq<nat>)
    requires InBounds(i1, shape) && InBounds(i2, shape)
    requires Offset(i1, ColumnMajorStrides(shape)) == Offset(i2, ColumnMajorStrides(shape))
    ensures i1 == i2
  {
    OffsetIsScaledLinear(i1, shape, 1);
    OffsetIsScaledLinear(i2, shape, 1);
    UnravelLinear(i1, shape);
    UnravelLinear(i2, shape);
  }

  /** Every element of the buffer is addressed by some in-bounds index. */
  lemma OffsetCoversStorage(k: nat, shape: seq<nat>)
    requires k < Product(shape)
    ensures InBounds(Unravel(k, shape), shape)
    ensures Offset(Unravel(k, shape), ColumnMajorStrides(shape)) == k
  {
    LinearUnravel(k, shape);
    OffsetIsScaledLinear(Unravel(k, shape), shape, 1);
  }

  /** Column-major: stepping the first index by one moves to the next element of the buffer. */
  lemma FirstIndexVariesFastest(index: seq<int>, shape: seq<nat>)
    requires InBounds(index, shape) && |shape| > 0 && index[0] + 1 < shape[0]
    ensures InBounds(index[0 := index[0] + 1], shape)
    ensures Offset(index[0 := index[0] + 1], ColumnMajorStrides(shape))
         == Offset(index, ColumnMajorStrides(shape)) + 1
  {
  }

  /** The backstrides add up to the offset of the last element, Product(shape) - 1. */
  lemma BackstridesReachLast(shape: seq<nat>)
    requires AllPositive(shape)
    ensures Sum(ColumnMajorBackstrides(shape)) == Product(shape) - 1
  {
    SumBackstridesIsOffsetOfLast(shape, ColumnMajorStrides(shape));
    InBoundsLast(shape);
    OffsetIsScaledLinear(LastIndex(shape), shape, 1);
  }
}
