/**
 * Selector lists from the command line, worked through the parser of
 * cmd/tf-graph-tool/run/nodeList.go: the malformed and unknown-key refusals
 * and the canonicalisation of values.
 */
module SelectorExamples {
  import opened Wrappers
  import Attr
  import opened GraphSpec
  import opened NodeList

  /** A selector needs exactly one '='. */
  lemma MalformedSelectors()
    ensures Parse(["op"]) == Failure(Malformed("op"))
    ensures Parse(["op=Const=x"]) == Failure(Malformed("op=Const=x"))
  {
    SplitWhole("op", '=');
    assert "op=Const=x" == "op" + ['='] + ("Const" + ['='] + "x");
    SplitFirst("op", "Const" + ['='] + "x", '=');
    SplitFirst("Const", "x", '=');
    SplitWhole("x", '=');
  }

  /** An unknown key is refused even after a well-formed selector. */
  lemma UnknownKey()
    ensures Parse(["op=Mul", "size=3"]) == Failure(BadKey("size"))
  {
    ClassifyOpMul();
    ClassifySize();
    var sels := ["op=Mul", "size=3"];
    assert sels[1..] == ["size=3"];
    assert Parse(sels) == ParseFrom(["size=3"], [OptionOp("Mul")], []);
  }

  lemma ClassifyOpMul()
    ensures Classify("op=Mul") == Success(OpSelector("Mul"))
  {
    OpMulPieces();
    SplitPair("op", "Mul", '=');
    LowerOp();
    LowerMul();
  }

  lemma OpMulPieces()
    ensures "op=Mul" == "op" + ['='] + "Mul"
    ensures '=' !in "op" && '=' !in "Mul"
  {
  }

  lemma LowerOp()
    ensures Lower("op") == "op"
  {
  }

  lemma LowerMul()
    ensures Lower("Mul") == "mul"
  {
  }

  lemma ClassifySize()
    ensures Classify("size=3") == Failure(BadKey("size"))
  {
    SizePieces();
    SplitPair("size", "3", '=');
    LowerSize();
  }

  lemma SizePieces()
    ensures "size=3" == "size" + ['='] + "3"
    ensures '=' !in "size" && '=' !in "3"
  {
  }

  lemma LowerSize()
    ensures Lower("size") == "size"
  {
  }

  /** Canonicalisation comes before the key is read, so it also rewrites inputs. */
  lemma CanonicalInputs()
    ensures Parse(["OPERATION=placeholder", "Input=CONST"])
      == Success([OptionOp(Attr.Placeholder), OptionWithInputs([Attr.Constant])])
  {
    ClassifyOperationPlaceholder();
    ClassifyInputConst();
    ParseOpThenInput("OPERATION=placeholder", "Input=CONST", Attr.Placeholder, Attr.Constant);
  }

  /** An operation selector followed by an input selector gives one option each. */
  lemma ParseOpThenInput(a: string, b: string, op: string, input: string)
    requires Classify(a) == Success(OpSelector(op))
    requires Classify(b) == Success(InputSelector(input))
    ensures Parse([a, b]) == Success([OptionOp(op), OptionWithInputs([input])])
  {
    assert [a, b][0] == a && [a, b][1..] == [b];
    assert [] + [OptionOp(op)] == [OptionOp(op)];
    assert Parse([a, b]) == ParseFrom([b], [OptionOp(op)], []);
    assert [b][0] == b && [b][1..] == [];
    assert [] + [input] == [input];
    assert [OptionOp(op)] + [OptionWithInputs([input])] == [OptionOp(op), OptionWithInputs([input])];
    assert ParseFrom([b], [OptionOp(op)], []) == ParseFrom([], [OptionOp(op), OptionWithInputs([input])], [input]);
  }

  lemma ClassifyOperationPlaceholder()
    ensures Classify("OPERATION=placeholder") == Success(OpSelector(Attr.Placeholder))
  {
    SplitOperationPlaceholder();
    LowerOperation();
    CanonPlaceholder();
  }

  lemma CanonPlaceholder()
    ensures Canon("placeholder") == Attr.Placeholder
  {
    assert Lower("placeholder") == "placeholder";
  }

  lemma SplitOperationPlaceholder()
    ensures Split("OPERATION=placeholder", '=') == ["OPERATION", "placeholder"]
  {
    OperationPlaceholderPieces();
    SplitPair("OPERATION", "placeholder", '=');
  }

  lemma OperationPlaceholderPieces()
    ensures "OPERATION=placeholder" == "OPERATION" + ['='] + "placeholder"
    ensures '=' !in "OPERATION" && '=' !in "placeholder"
  {
  }

  lemma LowerOperation()
    ensures Lower("OPERATION") == "operation"
  {
    var l := Lower("OPERATION");
    assert l[0] == 'o' && l[1] == 'p' && l[2] == 'e' && l[3] == 'r' && l[4] == 'a';
    assert l[5] == 't' && l[6] == 'i' && l[7] == 'o' && l[8] == 'n';
  }

  lemma ClassifyInputConst()
    ensures Classify("Input=CONST") == Success(InputSelector(Attr.Constant))
  {
    SplitInputConst();
    LowerInput();
    LowerConst();
  }

  lemma SplitInputConst()
    ensures Split("Input=CONST", '=') == ["Input", "CONST"]
  {
    InputConstPieces();
    SplitPair("Input", "CONST", '=');
  }

  lemma InputConstPieces()
    ensures "Input=CONST" == "Input" + ['='] + "CONST"
    ensures '=' !in "Input" && '=' !in "CONST"
  {
  }

  lemma LowerInput()
    ensures Lower("Input") == "input"
  {
  }

  lemma LowerConst()
    ensures Lower("CONST") == "const"
  {
  }

  /** A key spelled with U+0130 lower-cases to "input", so Go accepts it. */
  lemma DottedCapitalIKey()
    ensures Parse(["\U{0130}nput=x"]) == Success([OptionWithInputs(["x"])])
  {
    ClassifyDottedInput();
    var sels := ["\U{0130}nput=x"];
    assert sels[0] == "\U{0130}nput=x" && sels[1..] == [];
    assert [] + ["x"] == ["x"];
    assert [] + [OptionWithInputs(["x"])] == [OptionWithInputs(["x"])];
  }

  lemma ClassifyDottedInput()
    ensures Classify("\U{0130}nput=x") == Success(InputSelector("x"))
  {
    DottedInputPieces();
    SplitPair("\U{0130}nput", "x", '=');
    LowerDottedInput();
    assert Lower("x") == "x";
  }

  lemma DottedInputPieces()
    ensures "\U{0130}nput=x" == "\U{0130}nput" + ['='] + "x"
    ensures '=' !in "\U{0130}nput" && '=' !in "x"
  {
  }

  lemma LowerDottedInput()
    ensures Lower("\U{0130}nput") == "input"
  {
    var l := Lower("\U{0130}nput");
    assert l[0] == 'i' && l[1] == 'n' && l[2] == 'p' && l[3] == 'u' && l[4] == 't';
  }
}
