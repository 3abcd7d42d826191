# tfutil graph and tensor core, modelled in Dafny

This project models the parts of the `tfutil` Go repository that are plain
data manipulation, with no TensorFlow engine call involved:

- **Graph document editing** (`pkg/proto/graph/graphdef.go`). `Graph.Def` is a
  class holding an ordered sequence of node handles (`Node.Def` objects). Its
  methods change the sequence in place, or a node's fields, as the Go methods
  do:
  - lookup: `GetNode`, `GetNodes`;
  - deletion: `DeleteNodes`, `DeleteNode`;
  - upsert: `SetNodes`;
  - merge: `Append`;
  - rename: `RenameNode`;
  - filtering: `ListNodes`;
  - Graphviz DOT export: `PrintDotNotation`.

  Node names are not assumed to be unique. Lookups take the first node of a
  name, and the name-keyed maps the Go code builds keep the last one.
  Module `GraphSpec` holds the value-level specifications (first index, last
  index, selection, DOT lines) that the methods are proved against.
- **Nodes and attributes** (`pkg/proto/node`, `pkg/proto/attr`).
  - The node handle is a class with name, op, inputs, device and attribute map.
  - It has getters and setters, plus attribute filtering by key.
  - Constant and placeholder nodes are built from the attribute builders.
  - An engine tensor is abstract: a data type, a shape and its serialised
    content bytes. The outcome of writing those bytes is a parameter.
- **The node-selector parser** of the `node list` command
  (`cmd/tf-graph-tool/run/nodeList.go`). It turns `key=value` tokens into
  `ListNodes` options, with canonicalisation of `const`/`placeholder` values
  and its two error cases.
- **The tensor container** (`pkg/tfutil/tensor.go`, `util.go`, `dot.go`,
  `func.go`).
  - `Tensors.Tensor` is a class over an `array` of elements and a shape.
  - Shapes are validated, and elements are addressed in row-major order.
  - Elements are read and written in place, and tensors are cloned.
  - Equal-shaped tensors are combined element-wise (`DotApply`).
  - Two real tensors are zipped into a complex tensor, and a component is
    split back out. Element values are opaque; no floating-point arithmetic
    is modelled.
- **Scalar JSON envelopes** (`pkg/tfutil/scalar.go`). These are the field
  rules that `UnmarshalJSON` checks and `MarshalJSON` produces for complex128,
  complex64 and every other element kind. They work on an already-decoded
  envelope of optional fields.

Go's `int` is modelled as an unbounded integer. The 64-bit wrap-around
changes the outcome in two places: in the element count of a shape, recorded
under "Findings", and in the row-major offset of `IndicesToIndex`, described
under "Left out".

## Model

| member | source | states |
|---|---|---|
| Attr.NewAttrValue | pkg/proto/attr/attr.go:14-16 | the new value holds no attribute |
| Attr.ShapeProtoRoundTrip | pkg/proto/attr/nodeattr.go:22-32 | the shape descriptor records one unnamed dimension per tensor dimension, and reading its sizes gives back the shape in order |
| Attr.NewValueFromTensor | pkg/proto/attr/nodeattr.go:20-81 | a write failure gives SerializeFailed and a flush failure gives FlushError, and no value; success exactly when both succeed; on success the keys are exactly "value" and "dtype", and the dtype entry and the embedded tensor carry the tensor's type; the embedded tensor also has the tensor's sizes in order, empty dimension names, a known rank, version 0 and the content bytes |
| Attr.NewValueFromDataType | pkg/proto/attr/nodeattr.go:83-93 | exactly one key, "dtype", carrying the given type |
| Node.Restrict | pkg/proto/node/node.go:34-46 | the keys are those of the map that were asked for (unknown keys dropped), with the map's values |
| Node.Def.NewDef | pkg/proto/node/node.go:13-25 | the node has the given name, op, inputs and attribute map, and an empty device |
| Node.Def.GetAttr | pkg/proto/node/node.go:27-47 | no keys: the node's own map; otherwise the node's map restricted to the requested keys; never fails |
| Node.Def.SetAttr | pkg/proto/node/node.go:49-51 | the attribute map is replaced and every other field is unchanged |
| Node.Def.GetDevice | pkg/proto/node/node.go:53-55 | the node's device field |
| Node.Def.SetDevice | pkg/proto/node/node.go:57-59 | GetDevice afterwards returns the new device, and no other field changes |
| Node.ConstantRecord | pkg/proto/node/op.go:16-31 | fails exactly when the attribute builder fails, with its error; otherwise op "Const", no inputs, empty device and exactly the builder's map |
| Node.PlaceholderRecord | pkg/proto/node/op.go:35-47 | op "Placeholder", no inputs, empty device, and a single "dtype" attribute with the given type |
| Node.NewConstantNode | pkg/proto/node/op.go:16-31 | a fresh node holding ConstantRecord when the builder succeeds; the builder's error otherwise |
| Node.NewPlaceholderNode | pkg/proto/node/op.go:35-47 | always a fresh node holding PlaceholderRecord |
| GraphSpec.IndexOf | pkg/proto/graph/graphdef.go:487-495 | the first position holding the name |
| GraphSpec.LastIndexOf | pkg/proto/graph/graphdef.go:370-373 | the last position holding the name, which is the one the name-to-index map keeps |
| GraphSpec.FirstNotIn | pkg/proto/graph/graphdef.go:245-250 | the first requested name that is absent; every name before it is present |
| GraphSpec.FirstBadDelete | pkg/proto/graph/graphdef.go:282-288 | the first requested name that is absent or was requested before; every name before it is a fine first request |
| GraphSpec.WithInputsIsContainment | pkg/proto/graph/graphdef.go:327-347 | the with-inputs predicate holds exactly when every given input occurs in the node's inputs, so the empty-list special case changes nothing |
| GraphSpec.SelectedWithoutOptions | pkg/proto/graph/graphdef.go:302-315 | with no options, the listing is every node name in document order |
| GraphSpec.SelectedMembers | pkg/proto/graph/graphdef.go:302-347 | a name is listed exactly when some node of that name satisfies every option |
| GraphSpec.DotTextSnoc | pkg/proto/graph/graphdef.go:76-92 | one more node adds its declaration line and then its edge lines to the end of the DOT text |
| GraphSpec.DotTextAppend | pkg/proto/graph/graphdef.go:76-92 | the DOT text of concatenated node lists is the concatenation of their DOT texts |
| GraphSpec.DotLineCount | pkg/proto/graph/graphdef.go:76-92 | the DOT output has one line per node plus one per input |
| GraphSpec.DotTextLineCount | pkg/proto/graph/graphdef.go:76-92 | when names and inputs contain no newline, the DOT text has exactly nodes-plus-total-inputs newline characters |
| GraphSpec.Edges | pkg/proto/graph/graphdef.go:87-91 | one edge line per input, in input order, duplicates included |
| DotExample.NormGraphDot | pkg/proto/graph/dot_test.go:146-160 | the DOT lines of the seven-node norm graph are exactly the expected fourteen lines, coloured for Placeholder and Const |
| Graph.Def.GetNode | pkg/proto/graph/graphdef.go:223-232 | succeeds exactly when some node has the name, returning the first such node; NotFound(name) otherwise |
| Graph.Def.GetNodes | pkg/proto/graph/graphdef.go:237-260 | fails exactly when some requested name is absent, naming the first (in argument order); otherwise exactly the document's nodes whose name was requested, in document order, with repeats collapsed |
| Graph.PickMembers | pkg/proto/graph/graphdef.go:252-257 | a node is picked exactly when it is in the document and its name was requested |
| Graph.Def.DeleteNodes | pkg/proto/graph/graphdef.go:268-297 | no names empties the document; it fails exactly when some name is absent or requested twice, naming the first, and then changes nothing; on success the names are distinct and are exactly the old ones minus the requested ones, each kept node being the last old node of its name |
| Graph.Def.DeleteNode | pkg/proto/graph/graphdef.go:350-365 | removes only the first node of that name, keeping the others in order; an absent name changes nothing |
| Graph.Def.SetNodes | pkg/proto/graph/graphdef.go:369-393 | a given node overwrites the last node of its name in place, and among given nodes sharing a name the latest wins; other positions keep their nodes; the nodes of new names are appended once each; the length grows by the number of distinct new names; distinct names stay distinct |
| Graph.MergeLength | pkg/proto/graph/graphdef.go:381-392 | the merged list grows by the number of distinct new names |
| Graph.MergeKeepsDistinct | pkg/proto/graph/graphdef.go:369-393 | merging keeps the document's names distinct when they were |
| Graph.Def.Append | pkg/proto/graph/graphdef.go:397-411 | fails exactly when some node of the other document has a name the receiver has, naming the first such node and changing nothing; otherwise the receiver's nodes followed by the other's in order; distinct names stay distinct when both documents had them |
| Graph.Def.RenameNode | pkg/proto/graph/graphdef.go:438-456 | NotFound when the old name is absent; AlreadyExists when the new name is in use, including when it equals the old one; otherwise only the first node of the old name changes, and only its name; no input list or other node changes |
| Graph.Def.ListNodes | pkg/proto/graph/graphdef.go:302-315 | the names of the nodes satisfying every option, in document order |
| Graph.Def.PrintDotNotation | pkg/proto/graph/graphdef.go:67-99 | the text is the DOT declaration of each node (coloured for Const and Placeholder) followed by its edge lines, node by node in document order |
| NodeList.SplitJoin | cmd/tf-graph-tool/run/nodeList.go:35 | splitting on '=' and joining back gives the selector |
| NodeList.SplitCount | cmd/tf-graph-tool/run/nodeList.go:35-38 | a selector splits into one more piece than it has '=' characters, so exactly one '=' makes it well-formed |
| NodeList.Canon | cmd/tf-graph-tool/run/nodeList.go:42-47 | "const" and "constant" in any case become "Const", "placeholder" in any case becomes "Placeholder", and any other value is kept |
| NodeList.LowerCharToAscii | cmd/tf-graph-tool/run/nodeList.go:42-56 | a rune lower-cases to an ASCII letter exactly when it is that letter, its capital, U+0130 (for 'i') or U+212A (for 'k'), as Go's unicode.ToLower maps them, so keyword comparisons after lower-casing are exact |
| NodeList.Classify | cmd/tf-graph-tool/run/nodeList.go:35-56 | Malformed exactly when the selector does not contain exactly one '=' (so it does not split into two pieces); otherwise an op key (in any case, U+0130 for 'i' included) selects the canonical value as op, an input key selects it as input, and any other key is BadKey |
| NodeList.ParseMeaning | cmd/tf-graph-tool/run/nodeList.go:31-61 | the parsed options accept a node exactly when its op equals every op value and its inputs contain every input value |
| NodeList.ParseFromErrors | cmd/tf-graph-tool/run/nodeList.go:34-57 | parsing fails exactly when some selector is refused, and the error is that of the first refused selector |
| NodeList.ParseSelectors | cmd/tf-graph-tool/run/nodeList.go:31-61 | the loop computes the parse of the selectors |
| NodeList.NodeList | cmd/tf-graph-tool/run/nodeList.go:31-63 | fails exactly when some selector is refused, with the first refusal's error; otherwise the names the parsed options select, in document order |
| NodeList.NodeListMembers | cmd/tf-graph-tool/run/nodeList.go:31-63 | a name is listed exactly when some node of that name has every op value as op and every input value among its inputs |
| NodeList.NoSelectorsListAll | cmd/tf-graph-tool/run/nodeList.go:31-63 | no selectors lists every node name in document order |
| SelectorExamples.MalformedSelectors | cmd/tf-graph-tool/run/nodeList.go:35-38 | "op" (no '=') and "op=Const=x" (two) are refused as malformed |
| SelectorExamples.UnknownKey | cmd/tf-graph-tool/run/nodeList.go:49-56 | an unknown key aborts the parse even after a good selector |
| SelectorExamples.CanonicalInputs | cmd/tf-graph-tool/run/nodeList.go:42-60 | "OPERATION=placeholder", "Input=CONST" parse to an op option for "Placeholder" followed by a with-inputs option for ["Const"] |
| SelectorExamples.DottedCapitalIKey | cmd/tf-graph-tool/run/nodeList.go:49-53 | the key "İnput" (capital I with dot above) lower-cases to "input", so "İnput=x" parses to a with-inputs option for ["x"] |
| Tensors.ProductPositive | pkg/tfutil/util.go:22-38 | the product of positive dimensions is positive |
| Tensors.NumElementsOf | pkg/tfutil/tensor.go:526-548 | 0 for an empty shape; NonPositiveDimension when any dimension is not positive; otherwise the product of the dimensions, which is positive |
| Tensors.Wrap64 | pkg/tfutil/util.go:31-36 | the result is in the int64 range and congruent to the input modulo 2^64 |
| Tensors.NumElementsAsWritten | pkg/tfutil/util.go:17-39 | numElements with the running product wrapping at 64 bits: 0 for an empty shape, NonPositiveDimension when a dimension is not positive, and otherwise a result in the int64 range |
| Tensors.NumElementsAsWrittenCount | pkg/tfutil/util.go:17-39 | for a non-empty positive shape the wrapped count succeeds and is the true product modulo 2^64, and it is exactly the product whenever the product is below 2^63 |
| Tensors.WrappedCountAcceptsEmptyValue | pkg/tfutil/tensor.go:123-135 | the shape [2^32, 2^32] wraps to the count 0 and so matches an empty value, while its true product is 2^64 |
| Tensors.VectorShape | pkg/tfutil/tensor.go:119-126 | without a shape, NewTensor accepts exactly the non-empty values; an empty one fails with NonPositiveDimension |
| Tensors.AcceptedShape | pkg/tfutil/tensor.go:118-136 | an accepted shape is non-empty and positive, with a product equal to the value's length |
| Tensors.NewTensor | pkg/tfutil/tensor.go:118-136 | fails exactly when the shape check fails, with its error; otherwise a fresh tensor holding the given array and the given shape (or [len] when none is given) |
| Tensors.Tensor.NumElements | pkg/tfutil/tensor.go:182-184 | for a valid tensor, the product of its shape |
| Tensors.Tensor.IndicesToIndex | pkg/tfutil/tensor.go:448-479 | IndexCount when the number of indices differs from the rank; IndexTooLarge for the first index not below its dimension; otherwise the row-major offset (negative indices are not rejected) |
| Tensors.OffsetBelow | pkg/tfutil/tensor.go:448-479 | indices below their dimensions give an offset below the product |
| Tensors.InRangeIndicesAddressElements | pkg/tfutil/tensor.go:186-208 | for a valid tensor, in-range non-negative indices address a slot inside the value |
| Tensors.OnlyNegativeOffsetsPanic | pkg/tfutil/tensor.go:186-208 | for a valid tensor, an accepted index tuple is out of the value exactly when its offset is negative |
| Tensors.Tensor.GetElement | pkg/tfutil/tensor.go:199-208 | the element at the row-major slot of the indices, or the addressing error |
| Tensors.Tensor.SetElement | pkg/tfutil/tensor.go:186-194 | on an addressing error the value is unchanged and the error is returned; otherwise exactly the slot GetElement reads is overwritten |
| Tensors.SetThenGet | pkg/tfutil/tensor.go:186-208 | reading after a write returns the written element, and reading other slots is unaffected |
| Tensors.MatrixOffsets | pkg/tfutil/tensor_test.go:186-241 | element (i, j) of a 3×3 tensor is at 3i+j |
| Tensors.FourDimOffsets | pkg/tfutil/tensor_test.go:186-241 | element (i, j, k, l) of a 2×3×4×5 tensor is at 60i+20j+5k+l |
| Tensors.NegativeIndexAliases | pkg/tfutil/tensor.go:448-479 | on a 3×3 tensor the indices (1, -1) address the same slot as (0, 2) |
| Tensors.WrappedOffsetAliases | pkg/tfutil/tensor.go:468-478 | on a 3x3 tensor, the indices (-6148914691236517205, 0) pass the bound test; the unbounded offset 1 - 2^64 is out of the value, and its 64-bit wrap is slot 1 |
| Tensors.Tensor.Clone | pkg/tfutil/tensor.go:503-521 | fails exactly when the shape check fails; otherwise a fresh tensor in fresh storage with equal contents and shape; a valid tensor always clones |
| Tensors.ShapeToInt64Shape | pkg/tfutil/util.go:5-12 | same length and the same entries |
| Tensors.Combine | pkg/tfutil/dot.go:21-29 | output element i is f applied to the i-th elements of the inputs, in argument order |
| Tensors.DotApply | pkg/tfutil/dot.go:9-32 | no tensors gives no tensor and no error; ShapeMismatch when some shape differs from the first; otherwise a fresh tensor of the common shape whose element i is f applied to the inputs' i-th elements |
| DotSum.SumShifted | pkg/tfutil/dot_test.go:18-33 | twice the sum of m consecutive integers starting at c+1 is m(m+1) + 2mc |
| DotSum.TenTensorSum | pkg/tfutil/dot_test.go:18-33 | summing the ten test tensors element-wise gives 55, 65, …, 165 |
| Complex.PairCheck | pkg/tfutil/func.go:193-205 | no error exactly when the shapes and the lengths agree |
| Complex.PartsOfZip | pkg/tfutil/func.go:207-212 | taking the real and the imaginary components of the zip gives back the two inputs |
| Complex.ZipOfParts | pkg/tfutil/func.go:245-289 | zipping the real and imaginary components gives back the complex sequence |
| Complex.Pack | pkg/tfutil/func.go:188-241 | NilInput when either input is nil; rank, dimension and length mismatches in that order; NewTensor's shape error next; when all these checks pass it succeeds, with a fresh tensor of the real tensor's (effective) shape whose element i pairs the real and imaginary elements i |
| Complex.RealPart | pkg/tfutil/func.go:245-253 | a fresh tensor of the real components with the same shape; for a valid input it always exists |
| Complex.ImagPart | pkg/tfutil/func.go:257-265 | a fresh tensor of the imaginary components with the same shape; for a valid input it always exists |
| Scalars.Decode | pkg/tfutil/scalar.go:95-131 | NotScalar unless the type is "scalar"; a type-name mismatch next; complex128 needs exactly real64 and imag64, complex64 exactly real32 and imag32, and other kinds need value; the decoded element is built from those fields |
| Scalars.Encode | pkg/tfutil/scalar.go:45-86 | type "scalar", the two type names, and exactly the fields Decode demands for the element's kind |
| Scalars.DecodeEncode | pkg/tfutil/scalar.go:45-131 | decoding what MarshalJSON produces gives back the element, when the Go type name MarshalJSON writes is the one UnmarshalJSON expects |
| Scalars.EncodeDecode | pkg/tfutil/scalar.go:45-131 | an accepted envelope that carries exactly its kind's value fields re-encodes to itself |
| Scalars.PlainIgnoresParts | pkg/tfutil/scalar.go:124-130 | for a non-complex element type, an envelope that also carries complex parts is accepted, and it does not re-encode to itself |
| Scalars.Scalar.NewScalar | pkg/tfutil/scalar.go:28-30 | the new scalar's value is the argument |
| Scalars.Scalar.Clone | pkg/tfutil/scalar.go:158-160 | a fresh scalar with the same value |
| Scalars.Scalar.UnmarshalJSON | pkg/tfutil/scalar.go:89-134 | a JSON decode error or a failed check leaves the value unchanged and returns the error; success stores the decoded element |

## Left out

- The TensorFlow engine bridge is not modelled, because its behaviour lives in the engine. That means `ApplyPrefix`, `Import`, `Export`, `NewGraphDef`, `NewNodesFromTfOp`, and every session-based tensor operation (reshape, multiply, transpose, cast, matrix inverse, operators, expand-dims).
- Loading and saving files, protobuf and JSON codecs, `String`, pretty printing and the CLI layer are not modelled: they are I/O and library calls. `node list`'s JSON output of the names is not modelled either.
- JSON byte decoding in `Scalar.UnmarshalJSON` is a parameter. The model receives either a decode error or an envelope of optional fields.
- The serialisation of a tensor's contents in `NewValueFromTensor` is a foreign call. Its outcome (`Written`, `WriteFailed`, `FlushFailed`) is a parameter, and the content bytes are part of the abstract tensor.
- The write errors inside `PrintDotNotation`'s loop come from writes into an in-memory buffer. The model treats those writes as always succeeding.
- The engine's data-type names, and `tf.NewTensor`'s error in `Scalar.MarshalJSON`, are not modelled. Both type names are parameters of `Scalars.Encode`.
- Scalars.Decode: `UnmarshalJSON` compares `goDataType` with `fmt.Sprintf("%T", zeroValue)`, Go's own name for the element type T, with no engine call. The model takes that name as the parameter `goName`.
- Scalars.DecodeEncode: `MarshalJSON` writes `fmt.Sprintf("%T", tfTensor.Value())`, the name of the type of the value the engine hands back. The lemma passes one `goName` to both `Encode` and `Decode`, so it assumes that the engine returns a value of Go type T. The model takes this to hold for every member of `PrimitiveTypes`; it does not check it, because the engine is not modelled.
- Go map iteration order is not modelled. `DeleteNodes` and `SetNodes` choose an arbitrary order, and their contracts state only what holds in every order.
- `strings.ToLower` is modelled only where it can change a comparison with an ASCII keyword: ASCII capitals, U+0130 and U+212A are lower-cased as Go does. Other runes are kept, although Go maps some of them to other non-ASCII runes. The lower-cased string is only compared with ASCII keywords, so the outcome is the same either way.
- Node.Def.GetAttr: the attribute map, and the input list, are values in the model. Go shares the map with the caller: `GetAttr()` without keys returns the node's own map, and `NewDef` and `SetAttr` keep the caller's map (and `NewDef` the caller's input slice). Later writes through a shared map or slice are not modelled.
- Complex.RealPart, Complex.ImagPart: the argument is a non-null tensor. Go's `Real64(nil)` and the like dereference nil and panic, which the model does not represent.
- Tensors.NumElementsOf: treats dimensions and their product as unbounded integers. The 64-bit wrap of the Go loop is modelled separately, as written, in `Tensors.NumElementsAsWritten`.
- Tensors.Tensor.IndicesToIndex, Tensors.Tensor.GetElement, Tensors.Tensor.SetElement, Tensors.OnlyNegativeOffsetsPanic: the offset arithmetic is unbounded, whereas Go's `index += v * weights[i]` wraps at 64 bits. For a huge negative index the wrapped offset can land inside the value. Go then reads or overwrites that slot silently, while the model reports `IndexOutOfRange`. On a 3x3 tensor the tuple (-6148914691236517205, 0) has the offset 1 - 2^64, which Go wraps to slot 1 (`Tensors.WrappedOffsetAliases`). These members' contracts therefore hold for the unbounded offset only.
- Go's index-out-of-range panic (for a negative row-major offset) is modelled in `GetElement` and `SetElement` as the error `IndexOutOfRange`.
- Tensors.DotApply: the tensors are non-null (`seq<Tensor<T>>`). Go reads `tensors[0].shape` and `tensor.shape` and panics on a nil tensor, which the model does not represent.
- Tensors.DotApply: its precondition rules out the input the Go code would panic on. That input is tensors of equal shape whose values are shorter than the first tensor's, which a tensor built by NewTensor cannot have.
- Tensors.DotApply: f is modelled as a pure function of the column of elements.
- The shape slice of a tensor is a value (`seq<int>`). Aliasing between the caller's shape slice and the tensor's is not modelled. The value array is an `array`, and it is aliased exactly as in Go.
- `Tensor.Value()` and `Tensor.Shape()` are plain field reads and carry no contract.
- `Abs` and all floating-point or complex arithmetic are not modelled. Components are opaque values.
- Only one copy of each duplicated definition is modelled: the `Scalar` type also defined in tensor.go, `numElements` in util.go and tensor.go, and the tests duplicated in mat_test.go.

## Findings

| source | as written | input that shows it | evidently intended | confidence | as-written member | corrected member |
|---|---|---|---|---|---|---|
| pkg/tfutil/tensor.go:526-548 (also pkg/tfutil/util.go:17-39) | the running product of dimensions is a 64-bit `int` and wraps silently, so NewTensor compares the value's length against a wrapped count | shape [4294967296, 4294967296] with an empty value: the count wraps to 0, so the shape check passes although the shape describes 2^64 elements | reject shapes whose element count does not fit (or compare against the true product), so that a tensor's shape always describes its value | not executed | Tensors.NumElementsAsWritten, Tensors.NumElementsAsWrittenCount, Tensors.WrappedCountAcceptsEmptyValue | Tensors.NumElementsOf |
