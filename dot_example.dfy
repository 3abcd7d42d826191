/**
 * The DOT export of the tf.linalg.norm graph that pkg/proto/graph/dot_test.go
 * checks, line by line.
 */
module DotExample {
  import Attr
  import Node
  import opened GraphSpec

  // Each quoted name on its own: several literal strings in one proof cost
  // the solver far more than one at a time.

  lemma QuoteTensor()
    ensures Quote("tensor") == "\"tensor\""
  {
  }

  lemma QuoteMul()
    ensures Quote("norm/mul") == "\"norm/mul\""
  {
  }

  lemma QuoteConst()
    ensures Quote("norm/Const") == "\"norm/Const\""
  {
  }

  lemma QuoteSum()
    ensures Quote("norm/Sum") == "\"norm/Sum\""
  {
  }

  lemma QuoteSqrt()
    ensures Quote("norm/Sqrt") == "\"norm/Sqrt\""
  {
  }

  lemma QuoteSqueeze()
    ensures Quote("norm/Squeeze") == "\"norm/Squeeze\""
  {
  }

  lemma QuoteIdentity()
    ensures Quote("Identity") == "\"Identity\""
  {
  }

  lemma QuoteAntiquewhite3()
    ensures Quote("antiquewhite3") == "\"antiquewhite3\""
  {
  }

  lemma QuoteAquamarine3()
    ensures Quote("aquamarine3") == "\"aquamarine3\""
  {
  }

  lemma BlockTensor()
    ensures NodeLines(Node.Record("tensor", Attr.Placeholder, [], "", map[]))
      == ["\"tensor\"" + " [fillcolor=" + "\"antiquewhite3\"" + ", style=\"filled\", label=" + "\"tensor\"" + "]"]
  {
    QuoteTensor();
    QuoteAntiquewhite3();
    assert ColorOf(Attr.Placeholder) == "antiquewhite3";
  }

  lemma BlockMul()
    ensures NodeLines(Node.Record("norm/mul", "Mul", ["tensor", "tensor"], "", map[]))
      == ["\"norm/mul\"" + " [label=" + "\"norm/mul\"" + "]",
         "\"tensor\"" + " -> " + "\"norm/mul\"",
         "\"tensor\"" + " -> " + "\"norm/mul\""]
  {
    PlainBlock2(Node.Record("norm/mul", "Mul", ["tensor", "tensor"], "", map[]));
    QuoteMul();
    QuoteTensor();
  }

  lemma BlockConst()
    ensures NodeLines(Node.Record("norm/Const", Attr.Constant, [], "", map[]))
      == ["\"norm/Const\"" + " [fillcolor=" + "\"aquamarine3\"" + ", style=\"filled\", label=" + "\"norm/Const\"" + "]"]
  {
    QuoteConst();
    QuoteAquamarine3();
    assert ColorOf(Attr.Constant) == "aquamarine3";
  }

  lemma BlockSum()
    ensures NodeLines(Node.Record("norm/Sum", "Sum", ["norm/mul", "norm/Const"], "", map[]))
      == ["\"norm/Sum\"" + " [label=" + "\"norm/Sum\"" + "]",
         "\"norm/mul\"" + " -> " + "\"norm/Sum\"",
         "\"norm/Const\"" + " -> " + "\"norm/Sum\""]
  {
    PlainBlock2(Node.Record("norm/Sum", "Sum", ["norm/mul", "norm/Const"], "", map[]));
    QuoteSum();
    QuoteMul();
    QuoteConst();
  }

  lemma BlockSqrt()
    ensures NodeLines(Node.Record("norm/Sqrt", "Sqrt", ["norm/Sum"], "", map[]))
      == ["\"norm/Sqrt\"" + " [label=" + "\"norm/Sqrt\"" + "]",
         "\"norm/Sum\"" + " -> " + "\"norm/Sqrt\""]
  {
    PlainBlock1(Node.Record("norm/Sqrt", "Sqrt", ["norm/Sum"], "", map[]));
    QuoteSqrt();
    QuoteSum();
  }

  lemma BlockSqueeze()
    ensures NodeLines(Node.Record("norm/Squeeze", "Squeeze", ["norm/Sqrt"], "", map[]))
      == ["\"norm/Squeeze\"" + " [label=" + "\"norm/Squeeze\"" + "]",
         "\"norm/Sqrt\"" + " -> " + "\"norm/Squeeze\""]
  {
    PlainBlock1(Node.Record("norm/Squeeze", "Squeeze", ["norm/Sqrt"], "", map[]));
    QuoteSqueeze();
    QuoteSqrt();
  }

  lemma BlockIdentity()
    ensures NodeLines(Node.Record("Identity", "Identity", ["norm/Squeeze"], "", map[]))
      == ["\"Identity\"" + " [label=" + "\"Identity\"" + "]",
         "\"norm/Squeeze\"" + " -> " + "\"Identity\""]
  {
    PlainBlock1(Node.Record("Identity", "Identity", ["norm/Squeeze"], "", map[]));
    QuoteIdentity();
    QuoteSqueeze();
  }

  /**
   * The export of the graph of tf.linalg.norm, block by block, as
   * pkg/proto/graph/dot_test.go expects it: a placeholder, a constant and
   * four other operations, one reading the same input twice. Each line is
   * written as the pieces its format joins.
   */
  lemma NormGraphDot()
    ensures DotLines([
      Node.Record("tensor", Attr.Placeholder, [], "", map[]),
      Node.Record("norm/mul", "Mul", ["tensor", "tensor"], "", map[]),
      Node.Record("norm/Const", Attr.Constant, [], "", map[]),
      Node.Record("norm/Sum", "Sum", ["norm/mul", "norm/Const"], "", map[]),
      Node.Record("norm/Sqrt", "Sqrt", ["norm/Sum"], "", map[]),
      Node.Record("norm/Squeeze", "Squeeze", ["norm/Sqrt"], "", map[]),
      Node.Record("Identity", "Identity", ["norm/Squeeze"], "", map[])])
    == ["\"tensor\"" + " [fillcolor=" + "\"antiquewhite3\"" + ", style=\"filled\", label=" + "\"tensor\"" + "]"]
     + ["\"norm/mul\"" + " [label=" + "\"norm/mul\"" + "]",
        "\"tensor\"" + " -> " + "\"norm/mul\"",
        "\"tensor\"" + " -> " + "\"norm/mul\""]
     + ["\"norm/Const\"" + " [fillcolor=" + "\"aquamarine3\"" + ", style=\"filled\", label=" + "\"norm/Const\"" + "]"]
     + ["\"norm/Sum\"" + " [label=" + "\"norm/Sum\"" + "]",
        "\"norm/mul\"" + " -> " + "\"norm/Sum\"",
        "\"norm/Const\"" + " -> " + "\"norm/Sum\""]
     + ["\"norm/Sqrt\"" + " [label=" + "\"norm/Sqrt\"" + "]",
        "\"norm/Sum\"" + " -> " + "\"norm/Sqrt\""]
     + ["\"norm/Squeeze\"" + " [label=" + "\"norm/Squeeze\"" + "]",
        "\"norm/Sqrt\"" + " -> " + "\"norm/Squeeze\""]
     + ["\"Identity\"" + " [label=" + "\"Identity\"" + "]",
        "\"norm/Squeeze\"" + " -> " + "\"Identity\""]
  {
    var r0 := Node.Record("tensor", Attr.Placeholder, [], "", map[]);
    var r1 := Node.Record("norm/mul", "Mul", ["tensor", "tensor"], "", map[]);
    var r2 := Node.Record("norm/Const", Attr.Constant, [], "", map[]);
    var r3 := Node.Record("norm/Sum", "Sum", ["norm/mul", "norm/Const"], "", map[]);
    var r4 := Node.Record("norm/Sqrt", "Sqrt", ["norm/Sum"], "", map[]);
    var r5 := Node.Record("norm/Squeeze", "Squeeze", ["norm/Sqrt"], "", map[]);
    var r6 := Node.Record("Identity", "Identity", ["norm/Squeeze"], "", map[]);
    assert DotLines([r0]) == NodeLines(r0) by { DotLinesSnoc([], r0); }
    assert [r0] + [r1] == [r0, r1];
    assert [r0, r1] + [r2] == [r0, r1, r2];
    assert [r0, r1, r2] + [r3] == [r0, r1, r2, r3];
    assert [r0, r1, r2, r3] + [r4] == [r0, r1, r2, r3, r4];
    assert [r0, r1, r2, r3, r4] + [r5] == [r0, r1, r2, r3, r4, r5];
    assert [r0, r1, r2, r3, r4, r5] + [r6] == [r0, r1, r2, r3, r4, r5, r6];
    DotLinesSnoc([r0], r1);
    DotLinesSnoc([r0, r1], r2);
    DotLinesSnoc([r0, r1, r2], r3);
    DotLinesSnoc([r0, r1, r2, r3], r4);
    DotLinesSnoc([r0, r1, r2, r3, r4], r5);
    DotLinesSnoc([r0, r1, r2, r3, r4, r5], r6);
    BlockTensor();
    BlockMul();
    BlockConst();
    BlockSum();
    BlockSqrt();
    BlockSqueeze();
    BlockIdentity();
  }
}
