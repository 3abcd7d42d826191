/**
 * A graph node (pkg/proto/node): a handle on one node definition with its
 * name, operation tag, ordered inputs, device and attribute map. Handles are
 * references: a node fetched from a graph document is the document's own
 * node, so changing it changes the document.
 */
module Node {
  import opened Wrappers
  import Attr

  /** A value snapshot of a node's fields. */
  datatype Record = Record(
    name: string,
    op: string,
    input: seq<string>,
    device: string,
    attr: Attr.AttrMap)

  /** The restriction of an attribute map to a set of keys. */
  function Restrict(m: Attr.AttrMap, keys: set<string>): (r: Attr.AttrMap)
    ensures r.Keys == m.Keys * keys
    ensures forall k :: k in r ==> r[k] == m[k]
  {
    map k | k in m && k in keys :: m[k]
  }

  class Def {
    var name: string
    var op: string
    var input: seq<string>
    var device: string
    var attr: Attr.AttrMap

    function Snapshot(): (r: Record)
      reads this
    {
      Record(name, op, input, device, attr)
    }

    /** NewDef: the given identity, tag, attributes and inputs; no device. It cannot fail. */
    constructor NewDef(name: string, op: string, attrValue: Attr.Value, inputs: seq<string>)
      ensures Snapshot() == Record(name, op, inputs, "", attrValue.attr)
    {
      this.name := name;
      this.op := op;
      this.input := inputs;
      this.device := "";
      this.attr := attrValue.attr;
    }

    /** A handle on a node with the given fields, as the builders in op.go make. */
    constructor FromRecord(r: Record)
      ensures Snapshot() == r
    {
      name, op, input, device, attr := r.name, r.op, r.input, r.device, r.attr;
    }

    /**
     * GetAttr: with no keys, the node's own attribute map; otherwise the
     * entries whose key was asked for, unknown keys being skipped. It never fails.
     */
    method GetAttr(keys: seq<string>) returns (v: Attr.Value)
      ensures |keys| == 0 ==> v.attr == attr
      ensures |keys| > 0 ==> v.attr == Restrict(attr, set k | k in keys)
    {
      if |keys| == 0 {
        return Attr.Value(attr);
      }
      var keysMap: set<string> := {};
      for i := 0 to |keys|
        invariant keysMap == set k | k in keys[..i]
      {
        keysMap := keysMap + {keys[i]};
      }
      assert keys[..|keys|] == keys;
      var attrValues: Attr.AttrMap := map[];
      var todo := attr.Keys;
      while todo != {}
        invariant todo <= attr.Keys
        invariant attrValues == Restrict(attr, keysMap) - todo
        decreases todo
      {
        var k :| k in todo;
        if k in keysMap {
          attrValues := attrValues[k := attr[k]];
        }
        todo := todo - {k};
      }
      v := Attr.Value(attrValues);
    }

    /** SetAttr: replaces the whole attribute map and nothing else. */
    method SetAttr(attrValue: Attr.Value)
      modifies this
      ensures Snapshot() == old(Snapshot()).(attr := attrValue.attr)
    {
      attr := attrValue.attr;
    }

    function GetDevice(): (d: string)
      reads this
      ensures d == Snapshot().device
    {
      device
    }

    /** SetDevice: the device reads back as given; no other field changes. */
    method SetDevice(d: string)
      modifies this
      ensures GetDevice() == d
      ensures Snapshot() == old(Snapshot()).(device := d)
    {
      device := d;
    }
  }

  /**
   * The record NewConstantNode builds: tag "Const", no inputs, no device and
   * exactly the codec's attribute map; a codec failure is passed on.
   */
  function ConstantRecord(name: string, tensor: Attr.TfTensor, sink: Attr.WriteOutcome): (r: Result<Record, Attr.Error>)
    ensures r.Success? <==> Attr.NewValueFromTensor(tensor, sink).Success?
    ensures r.Failure? ==> r.error == Attr.NewValueFromTensor(tensor, sink).error
    ensures r.Success? ==>
      && r.value.name == name && r.value.op == Attr.Constant
      && r.value.input == [] && r.value.device == ""
      && r.value.attr == Attr.NewValueFromTensor(tensor, sink).value.attr
      && r.value.attr.Keys == {"value", "dtype"}
  {
    match Attr.NewValueFromTensor(tensor, sink)
    case Failure(e) => Failure(e)
    case Success(v) => Success(Record(name, Attr.Constant, [], "", v.attr))
  }

  /** The record NewPlaceholderNode builds: tag "Placeholder" and a lone "dtype" entry. */
  function PlaceholderRecord(name: string, dt: Attr.DataType): (r: Record)
    ensures r.name == name && r.op == Attr.Placeholder
    ensures r.input == [] && r.device == ""
    ensures r.attr.Keys == {"dtype"} && r.attr["dtype"] == Attr.TypeAttr(dt)
  {
    Record(name, Attr.Placeholder, [], "", Attr.NewValueFromDataType(dt).attr)
  }

  /** NewConstantNode: a fresh handle on the constant record, or the codec's error. */
  method NewConstantNode(name: string, tensor: Attr.TfTensor, sink: Attr.WriteOutcome)
    returns (r: Result<Def, Attr.Error>)
    ensures r.Success? <==> ConstantRecord(name, tensor, sink).Success?
    ensures r.Failure? ==> r.error == ConstantRecord(name, tensor, sink).error
    ensures r.Success? ==> fresh(r.value) && r.value.Snapshot() == ConstantRecord(name, tensor, sink).value
  {
    var rec := ConstantRecord(name, tensor, sink);
    if rec.Failure? {
      return Failure(rec.error);
    }
    var d := new Def.FromRecord(rec.value);
    r := Success(d);
  }

  /** NewPlaceholderNode: always succeeds with a fresh handle on the placeholder record. */
  method NewPlaceholderNode(name: string, dt: Attr.DataType) returns (d: Def)
    ensures fresh(d) && d.Snapshot() == PlaceholderRecord(name, dt)
  {
    d := new Def.FromRecord(PlaceholderRecord(name, dt));
  }
}
