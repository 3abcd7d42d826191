/**
 * Attribute values attached to graph nodes (pkg/proto/attr): the generic
 * key/value representation of data types, shapes and embedded tensors, and
 * the two builders that turn an engine tensor or a data type into such a map.
 */
module Attr {
  import opened Wrappers

  type byte = bv8

  /** Operation tags that the tooling treats specially. */
  const Constant: string := "Const"
  const Placeholder: string := "Placeholder"

  /** A data type of the engine, by its enumeration code. */
  datatype DataType = DataType(code: int)

  /** One dimension of a shape: a signed size and an optional name. */
  datatype Dim = Dim(size: int, name: string)

  datatype TensorShapeProto = TensorShapeProto(dim: seq<Dim>, unknownRank: bool)

  /**
   * A serialised tensor. The typed value lists of the wire schema are not
   * part of this model; the builder below leaves all of them empty.
   */
  datatype TensorProto = TensorProto(
    dtype: DataType,
    tensorShape: TensorShapeProto,
    versionNumber: int,
    tensorContent: seq<byte>)

  /** The tagged union an attribute can hold. */
  datatype AttrValue =
    | TypeAttr(dataType: DataType)
    | TensorAttr(tensor: TensorProto)
    | ShapeAttr(shape: TensorShapeProto)
    | BoolAttr(b: bool)
    | StringAttr(s: string)
    | OtherAttr(tag: string)

  type AttrMap = map<string, AttrValue>

  /** The wrapper the node builders pass around (attr.Value). */
  datatype Value = Value(attr: AttrMap)

  /** NewAttrValue: a value that holds no attribute at all. */
  function NewAttrValue(): (v: Value)
    ensures forall k :: k !in v.attr
  {
    Value(map[])
  }

  /** An engine tensor, seen only through its data type, shape and content bytes. */
  datatype TfTensor = TfTensor(dataType: DataType, shape: seq<int>, contents: seq<byte>)

  /**
   * What happened when the tensor's contents were written to the buffer:
   * writing and flushing are calls into the engine and the I/O library.
   */
  datatype WriteOutcome = Written | WriteFailed | FlushFailed

  datatype Error = SerializeFailed | FlushError

  /** The shape descriptor recorded for a tensor: one unnamed dimension per entry. */
  function ShapeProto(shape: seq<int>): (p: TensorShapeProto)
    ensures |p.dim| == |shape| && !p.unknownRank
    ensures forall i :: 0 <= i < |shape| ==> p.dim[i] == Dim(shape[i], "")
  {
    TensorShapeProto(seq(|shape|, i requires 0 <= i < |shape| => Dim(shape[i], "")), false)
  }

  /** The dimension sizes a shape descriptor records. */
  function Sizes(p: TensorShapeProto): (s: seq<int>)
    ensures |s| == |p.dim|
    ensures forall i :: 0 <= i < |s| ==> s[i] == p.dim[i].size
  {
    seq(|p.dim|, i requires 0 <= i < |p.dim| => p.dim[i].size)
  }

  /** The embedded shape gives back the tensor's dimensions, in order. */
  lemma ShapeProtoRoundTrip(shape: seq<int>)
    ensures Sizes(ShapeProto(shape)) == shape
  {
  }

  /**
   * NewValueFromTensor: a map with exactly the keys "value" and "dtype";
   * the tensor entry and the standalone dtype entry carry the same type.
   */
  function NewValueFromTensor(t: TfTensor, sink: WriteOutcome): (r: Result<Value, Error>)
    ensures sink == WriteFailed ==> r == Failure(SerializeFailed)
    ensures sink == FlushFailed ==> r == Failure(FlushError)
    ensures sink == Written <==> r.Success?
    ensures r.Success? ==>
      && r.value.attr.Keys == {"value", "dtype"}
      && r.value.attr["dtype"] == TypeAttr(t.dataType)
      && r.value.attr["value"].TensorAttr?
      && var p := r.value.attr["value"].tensor;
         && p.dtype == t.dataType
         && Sizes(p.tensorShape) == t.shape
         && (forall d :: d in p.tensorShape.dim ==> d.name == "")
         && !p.tensorShape.unknownRank
         && p.tensorContent == t.contents
         && p.versionNumber == 0
  {
    match sink
    case WriteFailed => Failure(SerializeFailed)
    case FlushFailed => Failure(FlushError)
    case Written =>
      var value := TensorProto(t.dataType, ShapeProto(t.shape), 0, t.contents);
      Success(Value(map["value" := TensorAttr(value), "dtype" := TypeAttr(t.dataType)]))
  }

  /** NewValueFromDataType: a single "dtype" entry carrying the given type. */
  function NewValueFromDataType(dt: DataType): (v: Value)
    ensures v.attr.Keys == {"dtype"}
    ensures v.attr["dtype"] == TypeAttr(dt)
  {
    Value(map["dtype" := TypeAttr(dt)])
  }
}
