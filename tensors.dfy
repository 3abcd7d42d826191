/**
 * The typed tensor container of pkg/tfutil: a flat value buffer read in
 * row-major order through a shape. Go's unbounded-looking `int` is an
 * unbounded integer here; the one place where the 64-bit wrap-around of the
 * element count changes an outcome is modelled separately (NumElementsAsWritten).
 */
module Tensors {
  import opened Wrappers

  /** The errors of the container operations; IndexOutOfRange stands for Go's slice-index panic. */
  datatype TensorError =
    | NonPositiveDimension
    | LengthMismatch
    | IndexCount(expected: nat, got: nat)
    | IndexTooLarge(position: nat, index: int, bound: int)
    | IndexOutOfRange(offset: int)
    | ShapeMismatch
    | NilInput
    | RankMismatch
    | DimensionMismatch
    | ValueLengthMismatch

  // ---------------------------------------------------------------------
  // Shapes and element counts

  predicate Positive(shape: seq<int>)
  {
    forall i :: 0 <= i < |shape| ==> shape[i] > 0
  }

  /** The product of the dimensions; 1 for no dimensions. */
  function Product(shape: seq<int>): int
  {
    if shape == [] then 1 else shape[0] * Product(shape[1..])
  }

  lemma {:induction false} ProductPositive(shape: seq<int>)
    requires Positive(shape)
    ensures Product(shape) > 0
  {
    if shape != [] {
      assert Positive(shape[1..]) by {
        forall i | 0 <= i < |shape[1..]| ensures shape[1..][i] > 0 {
          assert shape[1..][i] == shape[i + 1];
        }
      }
      ProductPositive(shape[1..]);
    }
  }

  /** The product grows one dimension at a time, as the running product of numElements does. */
  lemma {:induction false} ProductSnoc(shape: seq<int>, d: int)
    ensures Product(shape + [d]) == Product(shape) * d
  {
    if shape == [] {
      assert [] + [d] == [d];
      assert [d][1..] == [];
    } else {
      assert (shape + [d])[1..] == shape[1..] + [d];
      ProductSnoc(shape[1..], d);
      calc {
        Product(shape + [d]);
        shape[0] * Product(shape[1..] + [d]);
        shape[0] * (Product(shape[1..]) * d);
        (shape[0] * Product(shape[1..])) * d;
      }
    }
  }

  /**
   * numElements (tensor.go and util.go hold the same code): 0 for the empty
   * shape, an error when a dimension is not positive, and otherwise the
   * product of the dimensions, which is then positive.
   */
  method NumElementsOf(shape: seq<int>) returns (r: Result<int, TensorError>)
    ensures |shape| == 0 ==> r == Success(0)
    ensures |shape| > 0 && !Positive(shape) ==> r == Failure(NonPositiveDimension)
    ensures |shape| > 0 && Positive(shape) ==> r == Success(Product(shape))
    ensures |shape| > 0 && r.Success? ==> r.value > 0
  {
    if |shape| == 0 {
      return Success(0);
    }
    var n := shape[0];
    if n <= 0 {
      return Failure(NonPositiveDimension);
    }
    assert shape[..1] == [n];
    assert [n][1..] == [];
    if |shape| == 1 {
      assert shape == shape[..1];
      ProductPositive(shape);
      return Success(n);
    }
    for i := 1 to |shape|
      invariant n == Product(shape[..i])
      invariant Positive(shape[..i])
    {
      if shape[i] <= 0 {
        return Failure(NonPositiveDimension);
      }
      assert shape[..i + 1] == shape[..i] + [shape[i]];
      ProductSnoc(shape[..i], shape[i]);
      n := n * shape[i];
    }
    assert shape[..|shape|] == shape;
    ProductPositive(shape);
    return Success(n);
  }

  // ---------------------------------------------------------------------
  // numElements with 64-bit arithmetic, as the Go code computes it

  const Int64Modulus: int := 0x1_0000_0000_0000_0000

  /** A Go int (64-bit platform): the two's-complement value congruent to x. */
  function Wrap64(x: int): (r: int)
    ensures -0x8000_0000_0000_0000 <= r < 0x8000_0000_0000_0000
    ensures (x - r) % Int64Modulus == 0
  {
    var m := x % Int64Modulus;
    if m >= 0x8000_0000_0000_0000 then m - Int64Modulus else m
  }

  /** The running product `n *= shape[i]`, wrapping at every step. */
  function WrappedProduct(shape: seq<int>): int
  {
    if shape == [] then 1 else Wrap64(WrappedProduct(shape[..|shape| - 1]) * shape[|shape| - 1])
  }

  /** numElements exactly as written, with Go's 64-bit multiplication. */
  function NumElementsAsWritten(shape: seq<int>): (r: Result<int, TensorError>)
    ensures |shape| > 0 && !Positive(shape) ==> r == Failure(NonPositiveDimension)
    ensures |shape| > 0 && r.Success? ==> -0x8000_0000_0000_0000 <= r.value < 0x8000_0000_0000_0000
  {
    if |shape| == 0 then Success(0)
    else if !Positive(shape) then Failure(NonPositiveDimension)
    else Success(WrappedProduct(shape))
  }

  /** A multiple of 2^64 leaves no remainder. */
  lemma MultipleOfModulus(c: int)
    ensures (c * Int64Modulus) % Int64Modulus == 0
  {
  }

  /** The wrapped running product is the true product modulo 2^64. */
  lemma {:induction false} WrappedProductCongruent(shape: seq<int>)
    ensures (WrappedProduct(shape) - Product(shape)) % Int64Modulus == 0
  {
    if shape != [] {
      var init, d := shape[..|shape| - 1], shape[|shape| - 1];
      assert init + [d] == shape;
      WrappedProductCongruent(init);
      ProductSnoc(init, d);
      var w, p := WrappedProduct(init), Product(init);
      var k := (w - p) / Int64Modulus;
      assert w - p == k * Int64Modulus;
      var x := w * d;
      assert x - p * d == (k * d) * Int64Modulus by {
        assert x - p * d == (w - p) * d;
      }
      var j := (x - Wrap64(x)) / Int64Modulus;
      assert x - Wrap64(x) == j * Int64Modulus;
      assert WrappedProduct(shape) == Wrap64(x);
      assert WrappedProduct(shape) - Product(shape) == (k * d - j) * Int64Modulus;
      MultipleOfModulus(k * d - j);
    }
  }

  /**
   * numElements as written computes the element count modulo 2^64 (as a
   * signed 64-bit int), and the exact count whenever that fits in an int64.
   */
  lemma NumElementsAsWrittenCount(shape: seq<int>)
    ensures |shape| > 0 && Positive(shape) ==>
      && NumElementsAsWritten(shape).Success?
      && (NumElementsAsWritten(shape).value - Product(shape)) % Int64Modulus == 0
    ensures |shape| > 0 && Positive(shape) && Product(shape) < 0x8000_0000_0000_0000 ==>
      NumElementsAsWritten(shape) == Success(Product(shape))
  {
    if |shape| > 0 && Positive(shape) {
      WrappedProductCongruent(shape);
      ProductPositive(shape);
      var v, p := WrappedProduct(shape), Product(shape);
      if p < 0x8000_0000_0000_0000 {
        var c := (v - p) / Int64Modulus;
        assert v - p == c * Int64Modulus;
        assert -Int64Modulus < v - p < Int64Modulus;
        assert c == 0;
      }
    }
  }

  /**
   * The wrapped count of [2^32, 2^32] is 0, so NewTensor as written accepts an
   * empty value for a shape that describes 2^64 elements; the exact count,
   * which NumElementsOf returns, refuses it.
   */
  lemma WrappedCountAcceptsEmptyValue()
    ensures NumElementsAsWritten([0x1_0000_0000, 0x1_0000_0000]) == Success(0)
    ensures Product([0x1_0000_0000, 0x1_0000_0000]) == Int64Modulus
    ensures ShapeCheck(0, [0x1_0000_0000, 0x1_0000_0000]) == Some(LengthMismatch)
  {
    var s := [0x1_0000_0000, 0x1_0000_0000];
    assert s[..1] == [0x1_0000_0000] && s[..1][..0] == [];
    assert WrappedProduct(s[..1]) == 0x1_0000_0000;
    assert s[1..] == [0x1_0000_0000] && s[1..][1..] == [];
    assert Wrap64(Int64Modulus) == 0;
  }

  // ---------------------------------------------------------------------
  // NewTensor

  /** The shape NewTensor stores: the given one, or [n] when none is given. */
  function EffectiveShape(n: nat, shape: seq<int>): (s: seq<int>)
    ensures |s| > 0
  {
    if |shape| == 0 then [n] else shape
  }

  /** What NewTensor reports for a value of length n; None when it accepts. */
  function ShapeCheck(n: nat, shape: seq<int>): Option<TensorError>
  {
    var s := EffectiveShape(n, shape);
    if !Positive(s) then Some(NonPositiveDimension)
    else if Product(s) != n then Some(LengthMismatch)
    else None
  }

  /** A vector without an explicit shape is accepted exactly when it is not empty. */
  lemma VectorShape(n: nat)
    ensures ShapeCheck(n, []) == None <==> n > 0
    ensures n == 0 ==> ShapeCheck(n, []) == Some(NonPositiveDimension)
  {
    var s: seq<int> := [n];
    assert EffectiveShape(n, []) == s;
    assert s[1..] == [];
    assert Product(s) == n;
    assert Positive(s) <==> s[0] > 0;
  }

  /** An accepted shape describes exactly the buffer: positive dimensions whose product is its length. */
  lemma AcceptedShape(n: nat, shape: seq<int>)
    requires ShapeCheck(n, shape) == None
    ensures |EffectiveShape(n, shape)| > 0
    ensures Positive(EffectiveShape(n, shape)) && Product(EffectiveShape(n, shape)) == n
    ensures n > 0
  {
    ProductPositive(EffectiveShape(n, shape));
  }

  /**
   * A tensor: a value buffer (shared with whoever handed it over, as a Go
   * slice is) and a shape.
   */
  class Tensor<T(0)> {
    var value: array<T>
    var shape: seq<int>

    /** What NewTensor establishes. */
    ghost predicate Valid()
      reads this
    {
      ShapeCheck(value.Length, shape) == None && |shape| > 0
    }

    constructor (value: array<T>, shape: seq<int>)
      ensures this.value == value && this.shape == shape
    {
      this.value := value;
      this.shape := shape;
    }

    function Value(): array<T>
      reads this
    {
      value
    }

    function Shape(): seq<int>
      reads this
    {
      shape
    }

    /** NumElements: the buffer length, which for a valid tensor is the product of its shape. */
    function NumElements(): (n: nat)
      reads this
      ensures Valid() ==> n == Product(shape)
    {
      value.Length
    }

    /** indicesToIndex: the offset Locate specifies, computed through a table of weights. */
    method IndicesToIndex(indices: seq<int>) returns (r: Result<int, TensorError>)
      ensures r == Locate(shape, indices)
    {
      if |indices| != |shape| {
        return Failure(IndexCount(|shape|, |indices|));
      }
      var weights := new int[|shape|];
      for i := |shape| downto 0
        invariant forall j :: i <= j < |shape| ==> weights[j] == Product(shape[j + 1..])
      {
        weights[i] := 1;
        if i < |shape| - 1 {
          assert shape[i + 1..][1..] == shape[i + 2..];
          weights[i] := shape[i + 1] * weights[i + 1];
        } else {
          assert shape[i + 1..] == [];
        }
      }
      var index := 0;
      for i := 0 to |indices|
        invariant forall j :: 0 <= j < i ==> indices[j] < shape[j]
        invariant index + Offset(shape[i..], indices[i..]) == Offset(shape, indices)
      {
        if indices[i] >= shape[i] {
          return Failure(IndexTooLarge(i, indices[i], shape[i]));
        }
        assert shape[i..][1..] == shape[i + 1..];
        assert indices[i..][1..] == indices[i + 1..];
        index := index + indices[i] * weights[i];
      }
      return Success(index);
    }

    /** GetElement: the element at the located slot, or the error that stops the lookup. */
    method GetElement(indices: seq<int>) returns (r: Result<T, TensorError>)
      ensures r == ElementAt(value[..], shape, indices)
    {
      var index := IndicesToIndex(indices);
      if index.Failure? {
        return Failure(index.error);
      }
      if !(0 <= index.value < value.Length) {
        return Failure(IndexOutOfRange(index.value));
      }
      return Success(value[index.value]);
    }

    /** SetElement: overwrites the one slot GetElement reads; on an error nothing changes. */
    method SetElement(x: T, indices: seq<int>) returns (err: Option<TensorError>)
      modifies value
      ensures Slot(old(value.Length), shape, indices).Failure? ==>
        err == Some(Slot(old(value.Length), shape, indices).error) && value[..] == old(value[..])
      ensures Slot(old(value.Length), shape, indices).Success? ==>
        err == None && value[..] == old(value[..])[Slot(old(value.Length), shape, indices).value := x]
    {
      var index := IndicesToIndex(indices);
      if index.Failure? {
        return Some(index.error);
      }
      if !(0 <= index.value < value.Length) {
        return Some(IndexOutOfRange(index.value));
      }
      value[index.value] := x;
      return None;
    }

    /** Clone: copies of the buffer and the shape, passed through NewTensor. */
    method Clone() returns (r: Result<Tensor<T>, TensorError>)
      ensures r.Failure? <==> ShapeCheck(value.Length, shape).Some?
      ensures r.Failure? ==> r.error == ShapeCheck(value.Length, shape).value
      ensures r.Success? ==>
        && fresh(r.value) && fresh(r.value.value)
        && r.value.value[..] == value[..]
        && r.value.shape == EffectiveShape(value.Length, shape)
        && r.value.Valid()
      ensures Valid() ==> r.Success? && r.value.shape == shape
    {
      var v := new T[value.Length];
      for i := 0 to value.Length
        invariant forall j :: 0 <= j < i ==> v[j] == value[j]
      {
        v[i] := value[i];
      }
      var s := [];
      for i := 0 to |shape|
        invariant s == shape[..i]
      {
        assert shape[..i + 1] == shape[..i] + [shape[i]];
        s := s + [shape[i]];
      }
      assert s == shape;
      assert v[..] == value[..];
      r := NewTensor(v, s);
    }
  }

  /**
   * NewTensor: stores exactly the given buffer and shape (a vector shape
   * [len] when none is given) once the shape is accepted.
   */
  method NewTensor<T(0)>(value: array<T>, shape: seq<int>) returns (r: Result<Tensor<T>, TensorError>)
    ensures r.Failure? <==> ShapeCheck(value.Length, shape).Some?
    ensures r.Failure? ==> r.error == ShapeCheck(value.Length, shape).value
    ensures r.Success? ==>
      && fresh(r.value) && r.value.value == value
      && r.value.shape == EffectiveShape(value.Length, shape) && r.value.Valid()
  {
    var s := shape;
    if |s| == 0 {
      s := [value.Length];
    }
    var n := NumElementsOf(s);
    if n.Failure? {
      return Failure(n.error);
    }
    if value.Length != n.value {
      return Failure(LengthMismatch);
    }
    var t := new Tensor(value, s);
    return Success(t);
  }

  // ---------------------------------------------------------------------
  // Row-major addressing

  /** The row-major offset: each index weighted by the product of the later dimensions. */
  function Offset(shape: seq<int>, indices: seq<int>): int
    requires |shape| == |indices|
  {
    if shape == [] then 0 else indices[0] * Product(shape[1..]) + Offset(shape[1..], indices[1..])
  }

  /** The first position whose index reaches its dimension. */
  function FirstTooLarge(shape: seq<int>, indices: seq<int>): (k: nat)
    requires |shape| == |indices|
    requires exists i :: 0 <= i < |indices| && indices[i] >= shape[i]
    ensures k < |indices| && indices[k] >= shape[k]
    ensures forall j :: 0 <= j < k ==> indices[j] < shape[j]
  {
    if indices[0] >= shape[0] then 0
    else
      var i :| 0 <= i < |indices| && indices[i] >= shape[i];
      assert indices[1..][i - 1] >= shape[1..][i - 1];
      var k := FirstTooLarge(shape[1..], indices[1..]);
      assert forall j :: 0 < j <= k ==> indices[j] == indices[1..][j - 1] && shape[j] == shape[1..][j - 1];
      1 + k
  }

  /**
   * What indicesToIndex computes: an error when the number of indices is not
   * the rank or when an index reaches its dimension (the first such), and
   * otherwise the row-major offset. Negative indices are not refused.
   */
  function Locate(shape: seq<int>, indices: seq<int>): Result<int, TensorError>
  {
    if |indices| != |shape| then Failure(IndexCount(|shape|, |indices|))
    else if exists i :: 0 <= i < |indices| && indices[i] >= shape[i] then
      var k := FirstTooLarge(shape, indices);
      Failure(IndexTooLarge(k, indices[k], shape[k]))
    else Success(Offset(shape, indices))
  }

  /** The buffer slot the indices address, or why there is none (an index error or a Go panic). */
  function Slot(n: nat, shape: seq<int>, indices: seq<int>): (r: Result<int, TensorError>)
    ensures r.Success? ==> 0 <= r.value < n
  {
    match Locate(shape, indices)
    case Failure(e) => Failure(e)
    case Success(offset) => if 0 <= offset < n then Success(offset) else Failure(IndexOutOfRange(offset))
  }

  /** What GetElement returns for a buffer with these contents. */
  function ElementAt<T>(contents: seq<T>, shape: seq<int>, indices: seq<int>): Result<T, TensorError>
  {
    match Slot(|contents|, shape, indices)
    case Failure(e) => Failure(e)
    case Success(k) => Success(contents[k])
  }

  /** Indices below their dimensions never address past the buffer, whatever their sign. */
  lemma {:induction false} OffsetBelow(shape: seq<int>, indices: seq<int>)
    requires |shape| == |indices| && Positive(shape)
    requires forall i :: 0 <= i < |indices| ==> indices[i] < shape[i]
    ensures Offset(shape, indices) < Product(shape)
  {
    if shape != [] {
      assert Positive(shape[1..]) by {
        forall i | 0 <= i < |shape[1..]| ensures shape[1..][i] > 0 {
          assert shape[1..][i] == shape[i + 1];
        }
      }
      forall i | 0 <= i < |indices[1..]| ensures indices[1..][i] < shape[1..][i] {
        assert indices[1..][i] == indices[i + 1];
      }
      OffsetBelow(shape[1..], indices[1..]);
      ProductPositive(shape[1..]);
      var p, o := Product(shape[1..]), Offset(shape[1..], indices[1..]);
      assert Offset(shape, indices) == indices[0] * p + o;
      assert Product(shape) == shape[0] * p;
      MulMonotone(indices[0], shape[0] - 1, p);
      assert (shape[0] - 1) * p + p == shape[0] * p;
    }
  }

  lemma MulMonotone(a: int, b: int, p: int)
    requires a <= b && p > 0
    ensures a * p <= b * p
  {
    assert b * p - a * p == (b - a) * p;
  }

  /** Indices that are also not negative address a slot at or after the start. */
  lemma {:induction false} OffsetNonNegative(shape: seq<int>, indices: seq<int>)
    requires |shape| == |indices| && Positive(shape)
    requires forall i :: 0 <= i < |indices| ==> 0 <= indices[i]
    ensures 0 <= Offset(shape, indices)
  {
    if shape != [] {
      assert Positive(shape[1..]) by {
        forall i | 0 <= i < |shape[1..]| ensures shape[1..][i] > 0 {
          assert shape[1..][i] == shape[i + 1];
        }
      }
      forall i | 0 <= i < |indices[1..]| ensures 0 <= indices[1..][i] {
        assert indices[1..][i] == indices[i + 1];
      }
      OffsetNonNegative(shape[1..], indices[1..]);
      ProductPositive(shape[1..]);
    }
  }

  /**
   * For a valid tensor, indices that are in range for their dimensions
   * always address an element: the offset is below the buffer length.
   */
  lemma InRangeIndicesAddressElements(n: nat, shape: seq<int>, indices: seq<int>)
    requires ShapeCheck(n, shape) == None && |shape| > 0
    requires |indices| == |shape|
    requires forall i :: 0 <= i < |indices| ==> 0 <= indices[i] < shape[i]
    ensures Locate(shape, indices) == Success(Offset(shape, indices))
    ensures Slot(n, shape, indices) == Success(Offset(shape, indices))
    ensures 0 <= Offset(shape, indices) < n
  {
    AcceptedShape(n, shape);
    OffsetBelow(shape, indices);
    OffsetNonNegative(shape, indices);
  }

  /** For a valid tensor the only slot failure besides the index errors is a negative offset. */
  lemma OnlyNegativeOffsetsPanic(n: nat, shape: seq<int>, indices: seq<int>)
    requires ShapeCheck(n, shape) == None && |shape| > 0
    requires Locate(shape, indices).Success?
    ensures Slot(n, shape, indices).Failure? <==> Locate(shape, indices).value < 0
  {
    AcceptedShape(n, shape);
    OffsetBelow(shape, indices);
  }

  /** GetElement(i, j) on a 3x3 tensor reads value[3i+j]. */
  lemma MatrixOffsets(i: int, j: int)
    requires 0 <= i < 3 && 0 <= j < 3
    ensures Locate([3, 3], [i, j]) == Success(3 * i + j)
  {
    assert [3, 3][1..] == [3] && [i, j][1..] == [j];
    assert [3][1..] == [] && [j][1..] == [];
    assert Product([3]) == 3;
    assert Offset([3], [j]) == j;
  }

  /** GetElement(i, j, k, l) on a 2x3x4x5 tensor reads value[60i + 20j + 5k + l]. */
  lemma FourDimOffsets(i: int, j: int, k: int, l: int)
    requires 0 <= i < 2 && 0 <= j < 3 && 0 <= k < 4 && 0 <= l < 5
    ensures Locate([2, 3, 4, 5], [i, j, k, l]) == Success(60 * i + 20 * j + 5 * k + l)
  {
    assert [2, 3, 4, 5][1..] == [3, 4, 5] && [i, j, k, l][1..] == [j, k, l];
    assert [3, 4, 5][1..] == [4, 5] && [j, k, l][1..] == [k, l];
    assert [4, 5][1..] == [5] && [k, l][1..] == [l];
    assert [5][1..] == [] && [l][1..] == [];
    assert Offset([5], [l]) == l;
    assert Offset([4, 5], [k, l]) == 5 * k + l;
    assert Offset([3, 4, 5], [j, k, l]) == 20 * j + 5 * k + l;
  }

  /** Negative indices are not refused: on a 3x3 tensor, (1, -1) reads the slot of (0, 2). */
  lemma NegativeIndexAliases()
    ensures Locate([3, 3], [1, -1]) == Locate([3, 3], [0, 2]) == Success(2)
  {
    assert [3, 3][1..] == [3] && [1, -1][1..] == [-1] && [0, 2][1..] == [2];
    assert [3][1..] == [] && [-1][1..] == [] && [2][1..] == [];
  }

  /**
   * Go's `index += v * weights[i]` is 64-bit: on a 3x3 tensor the tuple
   * (-6148914691236517205, 0) has the offset 1 - 2^64, which Go wraps to 1 and
   * so reads slot 1, while the unbounded offset is out of the value.
   */
  lemma WrappedOffsetAliases()
    ensures Locate([3, 3], [-6148914691236517205, 0]) == Success(1 - Int64Modulus)
    ensures Wrap64(1 - Int64Modulus) == 1
    ensures Slot(9, [3, 3], [-6148914691236517205, 0]) == Failure(IndexOutOfRange(1 - Int64Modulus))
  {
    assert [3, 3][1..] == [3] && [-6148914691236517205, 0][1..] == [0];
    assert [3][1..] == [] && [0][1..] == [];
  }

  /** After SetElement, GetElement with the same indices reads the new element, and other slots keep theirs. */
  lemma SetThenGet<T>(contents: seq<T>, shape: seq<int>, indices: seq<int>, x: T, other: seq<int>)
    requires Slot(|contents|, shape, indices).Success?
    ensures ElementAt(contents[Slot(|contents|, shape, indices).value := x], shape, indices) == Success(x)
    ensures Slot(|contents|, shape, other) != Slot(|contents|, shape, indices) ==>
      ElementAt(contents[Slot(|contents|, shape, indices).value := x], shape, other) == ElementAt(contents, shape, other)
  {
  }

  // ---------------------------------------------------------------------
  // shapeToint64Shape

  newtype Int64 = x: int | -0x8000_0000_0000_0000 <= x < 0x8000_0000_0000_0000

  /** shapeToint64Shape: the same dimensions, entry by entry, as 64-bit integers. */
  method ShapeToInt64Shape(shape: seq<int>) returns (r: seq<Int64>)
    requires forall i :: 0 <= i < |shape| ==> -0x8000_0000_0000_0000 <= shape[i] < 0x8000_0000_0000_0000
    ensures |r| == |shape|
    ensures forall i :: 0 <= i < |shape| ==> r[i] as int == shape[i]
  {
    var newShape := new Int64[|shape|];
    for i := 0 to |shape|
      invariant forall j :: 0 <= j < i ==> newShape[j] as int == shape[j]
    {
      newShape[i] := shape[i] as Int64;
    }
    r := newShape[..];
  }

  // ---------------------------------------------------------------------
  // DotApply

  /** The i-th element of every buffer, in order. */
  function Column<T>(rows: seq<seq<T>>, i: nat): (c: seq<T>)
    requires forall k :: 0 <= k < |rows| ==> i < |rows[k]|
    ensures |c| == |rows| && forall k :: 0 <= k < |rows| ==> c[k] == rows[k][i]
  {
    seq(|rows|, k requires 0 <= k < |rows| => rows[k][i])
  }

  /** The first n results of f over the columns. */
  function Combine<T>(f: seq<T> -> T, rows: seq<seq<T>>, n: nat): (r: seq<T>)
    requires forall k :: 0 <= k < |rows| ==> n <= |rows[k]|
    ensures |r| == n && forall i :: 0 <= i < n ==> r[i] == f(Column(rows, i))
  {
    seq(n, i requires 0 <= i < n => f(Column(rows, i)))
  }

  /** The buffers' contents, in order. */
  ghost function Contents<T(0)>(tensors: seq<Tensor<T>>): (r: seq<seq<T>>)
    reads set k | 0 <= k < |tensors| :: tensors[k]
    reads set k | 0 <= k < |tensors| :: tensors[k].value
    ensures |r| == |tensors| && forall k :: 0 <= k < |tensors| ==> r[k] == tensors[k].value[..]
  {
    if tensors == [] then [] else [tensors[0].value[..]] + Contents(tensors[1..])
  }

  /** Every shape equals the first one. */
  ghost predicate SameShapes<T(0)>(tensors: seq<Tensor<T>>)
    reads set k | 0 <= k < |tensors| :: tensors[k]
  {
    forall k :: 0 <= k < |tensors| ==> tensors[k].shape == tensors[0].shape
  }

  /** Valid tensors of one shape hold buffers of one length, so DotApply never reads past one. */
  lemma ValidTensorsFit<T(0)>(tensors: seq<Tensor<T>>)
    requires forall k :: 0 <= k < |tensors| ==> tensors[k].Valid()
    requires SameShapes(tensors)
    ensures forall k :: 0 <= k < |tensors| ==> tensors[k].value.Length == tensors[0].value.Length
  {
    forall k | 0 <= k < |tensors|
      ensures tensors[k].value.Length == tensors[0].value.Length
    {
      AcceptedShape(tensors[k].value.Length, tensors[k].shape);
      AcceptedShape(tensors[0].value.Length, tensors[0].shape);
    }
  }

  /** Whether every tensor has the given shape. */
  method HaveShape<T(0)>(tensors: seq<Tensor<T>>, shape: seq<int>) returns (same: bool)
    ensures same <==> forall k :: 0 <= k < |tensors| ==> tensors[k].shape == shape
  {
    for k := 0 to |tensors|
      invariant forall j :: 0 <= j < k ==> tensors[j].shape == shape
    {
      if shape != tensors[k].shape {
        return false;
      }
    }
    return true;
  }

  /** The i-th element of every tensor, in argument order. */
  method ColumnOf<T(0)>(tensors: seq<Tensor<T>>, i: nat) returns (values: seq<T>)
    requires forall k :: 0 <= k < |tensors| ==> i < tensors[k].value.Length
    ensures |values| == |tensors|
    ensures forall k :: 0 <= k < |tensors| ==> values[k] == tensors[k].value[i]
  {
    values := [];
    for j := 0 to |tensors|
      invariant |values| == j
      invariant forall k :: 0 <= k < j ==> values[k] == tensors[k].value[i]
    {
      values := values + [tensors[j].value[i]];
    }
  }

  /**
   * A fresh buffer of the first n results of f over the tensors' columns;
   * rows names the tensors' contents.
   */
  method CombineAll<T(0)>(f: seq<T> -> T, tensors: seq<Tensor<T>>, n: nat, ghost rows: seq<seq<T>>)
    returns (value: array<T>)
    requires |rows| == |tensors|
    requires forall k :: 0 <= k < |tensors| ==> tensors[k].value[..] == rows[k] && n <= |rows[k]|
    ensures fresh(value)
    ensures value[..] == Combine(f, rows, n)
  {
    value := new T[n];
    for i := 0 to n
      invariant forall k :: 0 <= k < |tensors| ==> tensors[k].value != value
      invariant forall k :: 0 <= k < |tensors| ==> tensors[k].value[..] == rows[k]
      invariant forall j :: 0 <= j < i ==> value[j] == f(Column(rows, j))
    {
      var values := ColumnOf(tensors, i);
      assert values == Column(rows, i);
      value[i] := f(values);
    }
    assert value[..] == Combine(f, rows, n);
  }

  /**
   * DotApply: nothing for no tensors; an error unless every shape is the
   * first one's; otherwise a fresh tensor of that shape whose i-th element is
   * f of the tensors' i-th elements, in argument order. The requires is what
   * keeps the Go loop from indexing past a buffer.
   */
  method DotApply<T(0)>(f: seq<T> -> T, tensors: seq<Tensor<T>>) returns (r: Result<Option<Tensor<T>>, TensorError>)
    requires |tensors| > 0 && SameShapes(tensors) ==>
      forall k :: 0 <= k < |tensors| ==> tensors[0].value.Length <= tensors[k].value.Length
    ensures |tensors| == 0 ==> r == Success(None)
    ensures |tensors| > 0 && !SameShapes(tensors) ==> r == Failure(ShapeMismatch)
    ensures |tensors| > 0 && SameShapes(tensors) ==>
      var n, shape := tensors[0].value.Length, tensors[0].shape;
      && (r.Failure? <==> ShapeCheck(n, shape).Some?)
      && (r.Failure? ==> r.error == ShapeCheck(n, shape).value)
      && (r.Success? ==>
        && r.value.Some? && fresh(r.value.value) && r.value.value.Valid()
        && r.value.value.shape == EffectiveShape(n, shape)
        && r.value.value.value[..] == Combine(f, Contents(tensors), n))
  {
    if |tensors| == 0 {
      return Success(None);
    }
    ghost var rows := Contents(tensors);
    var shape := tensors[0].shape;
    var same := HaveShape(tensors, shape);
    if !same {
      return Failure(ShapeMismatch);
    }
    var value := CombineAll(f, tensors, tensors[0].value.Length, rows);
    var t := NewTensor(value, shape);
    if t.Failure? {
      return Failure(t.error);
    }
    return Success(Some(t.value));
  }
}

/** The element-wise sum of pkg/tfutil/dot_test.go, over the value level of DotApply. */
module DotSum {
  import Tensors

  function Sum(s: seq<int>): int
  {
    if s == [] then 0 else Sum(s[..|s| - 1]) + s[|s| - 1]
  }

  /** The combining function of the test: the sum of its arguments. */
  function Total(values: seq<int>): int
  {
    Sum(values)
  }

  /** 1 + c, 2 + c, ..., m + c. */
  function Shifted(m: nat, c: int): (s: seq<int>)
    ensures |s| == m && forall i :: 0 <= i < m ==> s[i] == i + 1 + c
  {
    if m == 0 then [] else Shifted(m - 1, c) + [m + c]
  }

  /** 1 + c, 2 + c, ..., m + c add up to m(m+1)/2 + mc (stated doubled). */
  lemma {:induction false} SumShifted(m: nat, c: int)
    ensures 2 * Sum(Shifted(m, c)) == m * (m + 1) + 2 * m * c
  {
    if m > 0 {
      var s := Shifted(m, c);
      assert s[..m - 1] == Shifted(m - 1, c);
      SumShifted(m - 1, c);
      var p := Sum(Shifted(m - 1, c));
      assert Sum(s) == p + (m + c);
      assert 2 * p == (m - 1) * m + 2 * (m - 1) * c;
      assert 2 * Sum(s) == (m - 1) * m + 2 * (m - 1) * c + 2 * m + 2 * c;
      assert (m - 1) * m + 2 * m == m * (m + 1);
      assert 2 * (m - 1) * c + 2 * c == 2 * m * c;
    }
  }

  /**
   * Ten 3x4 buffers, the t-th (t = 1..10) holding t + j at position j, summed
   * element-wise give 55, 65, ..., 165.
   */
  lemma TenTensorSum()
    ensures Tensors.Combine(Total, seq(10, t => seq(12, j => t + 1 + j)), 12)
      == [55, 65, 75, 85, 95, 105, 115, 125, 135, 145, 155, 165]
  {
    var rows := seq(10, t => seq(12, j => t + 1 + j));
    var expected := [55, 65, 75, 85, 95, 105, 115, 125, 135, 145, 155, 165];
    forall j | 0 <= j < 12
      ensures Tensors.Combine(Total, rows, 12)[j] == expected[j]
    {
      assert Tensors.Column(rows, j) == Shifted(10, j);
      SumShifted(10, j);
    }
  }
}
