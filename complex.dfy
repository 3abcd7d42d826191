/**
 * Packing two real tensors into one complex tensor and taking one apart
 * again (pkg/tfutil/func.go). Complex128 and Complex64 are the same code over
 * float64 and float32 parts, and so are Real64/Real32 and Imag64/Imag32; each
 * pair is one generic member here, with F standing for the part type.
 */
module Complex {
  import opened Wrappers
  import opened Tensors
  import Numbers

  /**
   * The checks made before pairing, in order: equal ranks, equal
   * dimensions, equal buffer lengths. None when all pass.
   */
  function PairCheck(realShape: seq<int>, imagShape: seq<int>, realLength: nat, imagLength: nat): (r: Option<TensorError>)
    ensures r.None? <==> realShape == imagShape && realLength == imagLength
  {
    if |realShape| != |imagShape| then Some(RankMismatch)
    else if exists i :: 0 <= i < |realShape| && realShape[i] != imagShape[i] then Some(DimensionMismatch)
    else if realLength != imagLength then Some(ValueLengthMismatch)
    else None
  }

  /** Element i is complex(re[i], im[i]). */
  function Zip<F>(re: seq<F>, im: seq<F>): (c: seq<Numbers.Complex<F>>)
    requires |re| == |im|
    ensures |c| == |re| && forall i :: 0 <= i < |c| ==> c[i] == Numbers.Complex(re[i], im[i])
  {
    seq(|re|, i requires 0 <= i < |re| => Numbers.Complex(re[i], im[i]))
  }

  function RealParts<F>(c: seq<Numbers.Complex<F>>): (re: seq<F>)
    ensures |re| == |c| && forall i :: 0 <= i < |c| ==> re[i] == c[i].re
  {
    seq(|c|, i requires 0 <= i < |c| => c[i].re)
  }

  function ImagParts<F>(c: seq<Numbers.Complex<F>>): (im: seq<F>)
    ensures |im| == |c| && forall i :: 0 <= i < |c| ==> im[i] == c[i].im
  {
    seq(|c|, i requires 0 <= i < |c| => c[i].im)
  }

  /** Taking a packed buffer apart gives back the two buffers packed. */
  lemma PartsOfZip<F>(re: seq<F>, im: seq<F>)
    requires |re| == |im|
    ensures RealParts(Zip(re, im)) == re
    ensures ImagParts(Zip(re, im)) == im
  {
  }

  /** Packing the parts of a complex buffer gives the buffer back. */
  lemma ZipOfParts<F>(c: seq<Numbers.Complex<F>>)
    ensures Zip(RealParts(c), ImagParts(c)) == c
  {
  }

  /**
   * Complex128 (and Complex64): an error when either tensor is missing or
   * the two disagree in shape or length; otherwise a fresh tensor of the real
   * tensor's shape pairing the elements position by position.
   */
  method Pack<F(0)>(realT: Tensor?<F>, imagT: Tensor?<F>) returns (r: Result<Tensor<Numbers.Complex<F>>, TensorError>)
    ensures realT == null || imagT == null ==> r == Failure(NilInput)
    ensures realT != null && imagT != null ==>
      var check := PairCheck(realT.shape, imagT.shape, realT.value.Length, imagT.value.Length);
      && (check.Some? ==> r == Failure(check.value))
      && (check.None? && ShapeCheck(realT.value.Length, realT.shape).Some? ==>
            r == Failure(ShapeCheck(realT.value.Length, realT.shape).value))
      && (check.None? && ShapeCheck(realT.value.Length, realT.shape).None? ==> r.Success?)
      && (r.Success? ==>
            && check.None? && fresh(r.value) && fresh(r.value.value) && r.value.Valid()
            && r.value.shape == EffectiveShape(realT.value.Length, realT.shape)
            && r.value.value[..] == Zip(realT.value[..], imagT.value[..]))
    ensures (realT != null && imagT != null && realT.Valid() && realT.shape == imagT.shape
      && realT.value.Length == imagT.value.Length) ==> r.Success? && r.value.shape == realT.shape
  {
    if realT == null || imagT == null {
      return Failure(NilInput);
    }
    if |realT.shape| != |imagT.shape| {
      return Failure(RankMismatch);
    }
    for i := 0 to |realT.shape|
      invariant forall j :: 0 <= j < i ==> realT.shape[j] == imagT.shape[j]
    {
      if realT.shape[i] != imagT.shape[i] {
        return Failure(DimensionMismatch);
      }
    }
    if realT.value.Length != imagT.value.Length {
      return Failure(ValueLengthMismatch);
    }
    var c := new Numbers.Complex<F>[realT.value.Length];
    for i := 0 to realT.value.Length
      invariant forall j :: 0 <= j < i ==> c[j] == Numbers.Complex(realT.value[j], imagT.value[j])
    {
      c[i] := Numbers.Complex(realT.value[i], imagT.value[i]);
    }
    assert c[..] == Zip(realT.value[..], imagT.value[..]);
    r := NewTensor(c, realT.shape);
  }

  /**
   * Real64 (and Real32): a fresh tensor of the same shape holding the real
   * part of each element; nothing (Go's nil) when NewTensor refuses the shape.
   */
  method RealPart<F(0)>(complexT: Tensor<Numbers.Complex<F>>) returns (r: Option<Tensor<F>>)
    ensures r.Some? <==> ShapeCheck(complexT.value.Length, complexT.shape).None?
    ensures r.Some? ==>
      && fresh(r.value) && fresh(r.value.value) && r.value.Valid()
      && r.value.shape == EffectiveShape(complexT.value.Length, complexT.shape)
      && r.value.value[..] == RealParts(complexT.value[..])
    ensures complexT.Valid() ==> r.Some? && r.value.shape == complexT.shape
  {
    var values := new F[complexT.value.Length];
    for i := 0 to values.Length
      invariant forall j :: 0 <= j < i ==> values[j] == complexT.value[j].re
    {
      values[i] := complexT.value[i].re;
    }
    assert values[..] == RealParts(complexT.value[..]);
    var t := NewTensor(values, complexT.shape);
    if t.Failure? {
      return None;
    }
    return Some(t.value);
  }

  /**
   * Imag64 (and Imag32): a fresh tensor of the same shape holding the
   * imaginary part of each element; nothing when NewTensor refuses the shape.
   */
  method ImagPart<F(0)>(complexT: Tensor<Numbers.Complex<F>>) returns (r: Option<Tensor<F>>)
    ensures r.Some? <==> ShapeCheck(complexT.value.Length, complexT.shape).None?
    ensures r.Some? ==>
      && fresh(r.value) && fresh(r.value.value) && r.value.Valid()
      && r.value.shape == EffectiveShape(complexT.value.Length, complexT.shape)
      && r.value.value[..] == ImagParts(complexT.value[..])
    ensures complexT.Valid() ==> r.Some? && r.value.shape == complexT.shape
  {
    var values := new F[complexT.value.Length];
    for i := 0 to values.Length
      invariant forall j :: 0 <= j < i ==> values[j] == complexT.value[j].im
    {
      values[i] := complexT.value[i].im;
    }
    assert values[..] == ImagParts(complexT.value[..]);
    var t := NewTensor(values, complexT.shape);
    if t.Failure? {
      return None;
    }
    return Some(t.value);
  }
}
