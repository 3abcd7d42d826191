/**
 * The node selector of the graph tool's node listing
 * (cmd/tf-graph-tool/run/nodeList.go): `key=value` tokens become listing
 * options. A value naming a constant or a placeholder (in any letter case)
 * is canonicalised first; `op`/`operation` keys select on the operation and
 * `input` keys accumulate inputs, each selector after the first input adding
 * a containment option over every input seen so far.
 */
module NodeList {
  import opened Wrappers
  import Attr
  import opened GraphSpec
  import Graph
  import Node

  /** Why a list of selectors is refused. */
  datatype SelectorError = Malformed(selector: string) | BadKey(key: string)

  // ---------------------------------------------------------------------
  // strings.Split with a one-character separator

  function Count(s: string, c: char): nat
  {
    if s == [] then 0 else (if s[0] == c then 1 else 0) + Count(s[1..], c)
  }

  /** The pieces between the separators, which strings.Split returns. */
  function Split(s: string, sep: char): (parts: seq<string>)
    ensures |parts| >= 1
  {
    if s == [] then [""]
    else
      var rest := Split(s[1..], sep);
      if s[0] == sep then [""] + rest
      else [[s[0]] + rest[0]] + rest[1..]
  }

  /** The pieces glued back together with the separator. */
  function Join(parts: seq<string>, sep: char): string
    requires |parts| >= 1
  {
    if |parts| == 1 then parts[0] else parts[0] + [sep] + Join(parts[1..], sep)
  }

  /** One piece per separator, plus one. */
  lemma {:induction false} SplitCount(s: string, sep: char)
    ensures |Split(s, sep)| == Count(s, sep) + 1
  {
    if s != [] {
      SplitCount(s[1..], sep);
    }
  }

  /** No piece contains the separator. */
  lemma {:induction false} SplitPiecesClean(s: string, sep: char)
    ensures forall i :: 0 <= i < |Split(s, sep)| ==> sep !in Split(s, sep)[i]
  {
    if s != [] {
      SplitPiecesClean(s[1..], sep);
      var rest := Split(s[1..], sep);
      if s[0] != sep {
        assert sep !in rest[0];
        assert sep !in [s[0]] + rest[0];
        forall i | 0 <= i < |Split(s, sep)| ensures sep !in Split(s, sep)[i] {
          if i > 0 {
            assert Split(s, sep)[i] == rest[i];
          }
        }
      }
    }
  }

  /** Splitting loses nothing: joining the pieces gives the string back. */
  lemma {:induction false} SplitJoin(s: string, sep: char)
    ensures Join(Split(s, sep), sep) == s
  {
    if s != [] {
      SplitJoin(s[1..], sep);
      var rest := Split(s[1..], sep);
      if s[0] == sep {
        assert ([""] + rest)[1..] == rest;
      } else {
        var parts := [[s[0]] + rest[0]] + rest[1..];
        if |rest| == 1 {
          assert parts == [[s[0]] + rest[0]];
        } else {
          assert parts[1..] == rest[1..];
          assert Join(rest, sep) == rest[0] + [sep] + Join(rest[1..], sep);
        }
      }
    }
  }

  /** A string without the separator is one piece. */
  lemma {:induction false} SplitWhole(s: string, sep: char)
    requires sep !in s
    ensures Split(s, sep) == [s]
  {
    if s != [] {
      assert sep !in s[1..];
      SplitWhole(s[1..], sep);
      assert [s[0]] + s[1..] == s;
    }
  }

  /** A string with one separator splits into the two sides. */
  lemma SplitPair(a: string, b: string, sep: char)
    requires sep !in a && sep !in b
    ensures Split(a + [sep] + b, sep) == [a, b]
  {
    SplitFirst(a, b, sep);
    SplitWhole(b, sep);
  }

  /** The first piece ends at the first separator; the rest is split on. */
  lemma {:induction false} SplitFirst(a: string, b: string, sep: char)
    requires sep !in a
    ensures Split(a + [sep] + b, sep) == [a] + Split(b, sep)
  {
    var s := a + [sep] + b;
    if a == [] {
      assert s[1..] == b;
    } else {
      assert s[1..] == a[1..] + [sep] + b;
      assert sep !in a[1..];
      SplitFirst(a[1..], b, sep);
      assert [a[0]] + a[1..] == a;
    }
  }

  // ---------------------------------------------------------------------
  // Letter case

  /**
   * unicode.ToLower, as far as it can matter for a comparison with an ASCII
   * keyword: the upper-case ASCII letters, U+0130 (capital I with dot above,
   * lower-cased to 'i') and U+212A (Kelvin sign, lower-cased to 'k') are the
   * only runes whose lower case is ASCII. Every other rune is kept; Go maps
   * some of them to other non-ASCII runes, which no ASCII keyword equals
   * either way.
   */
  function LowerChar(c: char): char
  {
    if 'A' <= c <= 'Z' then (c as int + 32) as char
    else if c == '\U{0130}' then 'i'
    else if c == '\U{212A}' then 'k'
    else c
  }

  /**
   * The runes that lower-case to an ASCII lower-case letter: the letter, its
   * capital, and U+0130 for 'i' and U+212A for 'k'.
   */
  lemma LowerCharToAscii(c: char, l: char)
    requires 'a' <= l <= 'z'
    ensures LowerChar(c) == l <==>
      || c == l
      || c as int == l as int - 32
      || (l == 'i' && c == '\U{0130}')
      || (l == 'k' && c == '\U{212A}')
  {
  }

  /** The string lower-cased rune by rune, as strings.ToLower does. */
  function Lower(s: string): (r: string)
    ensures |r| == |s|
    ensures forall i :: 0 <= i < |s| ==> r[i] == LowerChar(s[i])
  {
    seq(|s|, i requires 0 <= i < |s| => LowerChar(s[i]))
  }

  /** A value naming a constant or a placeholder, in any case, becomes the operation tag. */
  function Canon(value: string): (v: string)
    ensures Lower(value) in {"const", "constant"} ==> v == Attr.Constant
    ensures Lower(value) == "placeholder" ==> v == Attr.Placeholder
    ensures Lower(value) !in {"const", "constant", "placeholder"} ==> v == value
  {
    var lv := Lower(value);
    if lv == "const" || lv == "constant" then Attr.Constant
    else if lv == "placeholder" then Attr.Placeholder
    else value
  }

  // ---------------------------------------------------------------------
  // Selectors

  /** What a well-formed selector asks for. */
  datatype Selector = OpSelector(op: string) | InputSelector(input: string)

  /** One selector read on its own: the split, the canonical value, the key. */
  function Classify(selector: string): (r: Result<Selector, SelectorError>)
    ensures Count(selector, '=') != 1 <==> r == Failure(Malformed(selector))
    ensures |Split(selector, '=')| != 2 <==> r == Failure(Malformed(selector))
    ensures |Split(selector, '=')| == 2 ==>
      var key, value := Split(selector, '=')[0], Canon(Split(selector, '=')[1]);
      && (Lower(key) in {"op", "operation"} ==> r == Success(OpSelector(value)))
      && (Lower(key) == "input" ==> r == Success(InputSelector(value)))
      && (Lower(key) !in {"op", "operation", "input"} ==> r == Failure(BadKey(key)))
  {
    SplitCount(selector, '=');
    var parts := Split(selector, '=');
    if |parts| != 2 then Failure(Malformed(selector))
    else
      var key, value := parts[0], Canon(parts[1]);
      var lk := Lower(key);
      if lk == "op" || lk == "operation" then Success(OpSelector(value))
      else if lk == "input" then Success(InputSelector(value))
      else Failure(BadKey(key))
  }

  /**
   * The options the selector loop builds from the remaining selectors, given
   * the options and the inputs it has gathered so far.
   */
  function ParseFrom(sels: seq<string>, opts: seq<ListNodesOption>, inputs: seq<string>)
    : Result<seq<ListNodesOption>, SelectorError>
  {
    if sels == [] then Success(opts)
    else
      match Classify(sels[0])
      case Failure(e) => Failure(e)
      case Success(OpSelector(v)) =>
        var opts' := opts + [OptionOp(v)];
        ParseFrom(sels[1..], if |inputs| > 0 then opts' + [OptionWithInputs(inputs)] else opts', inputs)
      case Success(InputSelector(v)) =>
        var inputs' := inputs + [v];
        ParseFrom(sels[1..], opts + [OptionWithInputs(inputs')], inputs')
  }

  function Parse(sels: seq<string>): Result<seq<ListNodesOption>, SelectorError>
  {
    ParseFrom(sels, [], [])
  }

  /** The operations the selectors ask for, in order (for well-formed selectors). */
  function OpsOf(sels: seq<string>): seq<string>
  {
    if sels == [] then []
    else
      (match Classify(sels[0]) case Success(OpSelector(v)) => [v] case _ => []) + OpsOf(sels[1..])
  }

  /** The inputs the selectors ask for, in order (for well-formed selectors). */
  function InputsOf(sels: seq<string>): seq<string>
  {
    if sels == [] then []
    else
      (match Classify(sels[0]) case Success(InputSelector(v)) => [v] case _ => []) + InputsOf(sels[1..])
  }

  ghost predicate AllIn(xs: seq<string>, ys: seq<string>)
  {
    forall x :: x in xs ==> x in ys
  }

  /** The loop's standing fact: once there are inputs, the options already demand them all. */
  ghost predicate InputsDemanded(opts: seq<ListNodesOption>, inputs: seq<string>)
  {
    |inputs| > 0 ==> OptionWithInputs(inputs) in opts
  }

  lemma AcceptsAllAppend(a: seq<ListNodesOption>, b: seq<ListNodesOption>, n: Node.Record)
    ensures AcceptsAll(a + b, n) <==> AcceptsAll(a, n) && AcceptsAll(b, n)
  {
    if AcceptsAll(a, n) && AcceptsAll(b, n) {
      forall o | o in a + b ensures Accepts(o, n) {
        if o in a {
        } else {
          assert o in b;
        }
      }
    }
  }

  /** Every asked-for operation is the node's operation. */
  ghost predicate OpsHold(ops: seq<string>, n: Node.Record)
  {
    forall v :: v in ops ==> n.op == v
  }

  /** What the selectors ask of a node: every operation, every input. */
  ghost predicate Wanted(sels: seq<string>, n: Node.Record)
  {
    OpsHold(OpsOf(sels), n) && AllIn(InputsOf(sels), n.input)
  }

  lemma AcceptsAllOne(o: ListNodesOption, n: Node.Record)
    ensures AcceptsAll([o], n) <==> Accepts(o, n)
  {
    assert o in [o];
  }

  lemma OpsHoldCons(v: string, ops: seq<string>, n: Node.Record)
    ensures OpsHold([v] + ops, n) <==> n.op == v && OpsHold(ops, n)
  {
    assert v in [v] + ops;
    forall w | w in ops ensures w in [v] + ops {
    }
  }

  lemma AllInCons(v: string, xs: seq<string>, ys: seq<string>)
    ensures AllIn([v] + xs, ys) <==> v in ys && AllIn(xs, ys)
  {
    assert v in [v] + xs;
    forall w | w in xs ensures w in [v] + xs {
    }
  }

  /**
   * What the options built from the remaining selectors accept: what the
   * options so far accepted, with each asked-for operation and every
   * asked-for input.
   */
  lemma {:induction false} ParseFromMeaning(sels: seq<string>, opts: seq<ListNodesOption>, inputs: seq<string>,
                                             n: Node.Record)
    requires InputsDemanded(opts, inputs)
    requires ParseFrom(sels, opts, inputs).Success?
    ensures AcceptsAll(ParseFrom(sels, opts, inputs).value, n) <==> AcceptsAll(opts, n) && Wanted(sels, n)
  {
    if sels != [] {
      var rest := sels[1..];
      match Classify(sels[0])
      case Success(OpSelector(v)) =>
        var opts' := opts + [OptionOp(v)];
        var opts'' := if |inputs| > 0 then opts' + [OptionWithInputs(inputs)] else opts';
        assert InputsDemanded(opts'', inputs);
        ParseFromMeaning(rest, opts'', inputs, n);
        AcceptsAllAppend(opts, [OptionOp(v)], n);
        AcceptsAllOne(OptionOp(v), n);
        assert AcceptsAll(opts', n) <==> AcceptsAll(opts, n) && n.op == v;
        if |inputs| > 0 {
          AcceptsAllAppend(opts', [OptionWithInputs(inputs)], n);
          AcceptsAllOne(OptionWithInputs(inputs), n);
          assert AcceptsAll(opts, n) ==> Accepts(OptionWithInputs(inputs), n);
        }
        assert AcceptsAll(opts'', n) <==> AcceptsAll(opts, n) && n.op == v;
        assert OpsOf(sels) == [v] + OpsOf(rest);
        assert InputsOf(sels) == InputsOf(rest);
        OpsHoldCons(v, OpsOf(rest), n);
      case Success(InputSelector(v)) =>
        var inputs' := inputs + [v];
        var opts' := opts + [OptionWithInputs(inputs')];
        assert InputsDemanded(opts', inputs');
        ParseFromMeaning(rest, opts', inputs', n);
        AcceptsAllAppend(opts, [OptionWithInputs(inputs')], n);
        AcceptsAllOne(OptionWithInputs(inputs'), n);
        WithInputsIsContainment(inputs', n);
        if AcceptsAll(opts, n) && |inputs| > 0 {
          assert Accepts(OptionWithInputs(inputs), n);
          WithInputsIsContainment(inputs, n);
        }
        assert AcceptsAll(opts', n) <==> AcceptsAll(opts, n) && v in n.input;
        assert OpsOf(sels) == OpsOf(rest);
        assert InputsOf(sels) == [v] + InputsOf(rest);
        AllInCons(v, InputsOf(rest), n.input);
    }
  }

  /**
   * The options a successful parse yields accept a node exactly when its
   * operation is every asked-for operation and its inputs include every
   * asked-for input.
   */
  lemma ParseMeaning(sels: seq<string>, n: Node.Record)
    requires Parse(sels).Success?
    ensures AcceptsAll(Parse(sels).value, n) <==> Wanted(sels, n)
  {
    ParseFromMeaning(sels, [], [], n);
  }

  /** Whether selector i is refused on its own. */
  predicate Refused(sels: seq<string>, i: int)
    requires 0 <= i < |sels|
  {
    Classify(sels[i]).Failure?
  }

  /**
   * Parsing fails exactly when some selector is refused; the error is the
   * first refused selector's.
   */
  lemma {:induction false} ParseFromErrors(sels: seq<string>, opts: seq<ListNodesOption>, inputs: seq<string>)
    ensures ParseFrom(sels, opts, inputs).Failure? <==> exists i :: 0 <= i < |sels| && Refused(sels, i)
    ensures ParseFrom(sels, opts, inputs).Failure? ==>
      exists i :: 0 <= i < |sels| && Refused(sels, i) &&
        (forall j :: 0 <= j < i ==> !Refused(sels, j)) &&
        ParseFrom(sels, opts, inputs).error == Classify(sels[i]).error
  {
    if sels != [] {
      var rest := sels[1..];
      match Classify(sels[0])
      case Failure(e) =>
        assert Refused(sels, 0);
      case Success(OpSelector(v)) =>
        var opts' := opts + [OptionOp(v)];
        var opts'' := if |inputs| > 0 then opts' + [OptionWithInputs(inputs)] else opts';
        ParseFromErrors(rest, opts'', inputs);
        FirstRefusedShift(sels, ParseFrom(rest, opts'', inputs));
      case Success(InputSelector(v)) =>
        ParseFromErrors(rest, opts + [OptionWithInputs(inputs + [v])], inputs + [v]);
        FirstRefusedShift(sels, ParseFrom(rest, opts + [OptionWithInputs(inputs + [v])], inputs + [v]));
    }
  }

  /**
   * When the first selector is accepted, what the rest's parse says about
   * the rest's first refusal holds of the whole list, one position later.
   */
  lemma FirstRefusedShift(sels: seq<string>, r: Result<seq<ListNodesOption>, SelectorError>)
    requires sels != [] && !Refused(sels, 0)
    requires r.Failure? <==> exists i :: 0 <= i < |sels[1..]| && Refused(sels[1..], i)
    requires r.Failure? ==>
      exists i :: 0 <= i < |sels[1..]| && Refused(sels[1..], i) &&
        (forall j :: 0 <= j < i ==> !Refused(sels[1..], j)) &&
        r.error == Classify(sels[1..][i]).error
    ensures r.Failure? <==> exists i :: 0 <= i < |sels| && Refused(sels, i)
    ensures r.Failure? ==>
      exists i :: 0 <= i < |sels| && Refused(sels, i) &&
        (forall j :: 0 <= j < i ==> !Refused(sels, j)) &&
        r.error == Classify(sels[i]).error
  {
    var rest := sels[1..];
    forall i | 0 <= i < |rest| ensures Refused(rest, i) == Refused(sels, i + 1) {
      assert rest[i] == sels[i + 1];
    }
    if exists i :: 0 <= i < |sels| && Refused(sels, i) {
      var i :| 0 <= i < |sels| && Refused(sels, i);
      assert i > 0 && Refused(rest, i - 1);
    }
    if r.Failure? {
      var i :| 0 <= i < |rest| && Refused(rest, i) && (forall j :: 0 <= j < i ==> !Refused(rest, j)) &&
        r.error == Classify(rest[i]).error;
      assert rest[i] == sels[i + 1];
      forall j | 0 <= j < i + 1 ensures !Refused(sels, j) {
        if j > 0 {
          assert !Refused(rest, j - 1);
        }
      }
    }
  }

  /**
   * The selector loop of NodeList: stops at the first malformed selector or
   * unknown key, otherwise returns the options it gathered.
   */
  method ParseSelectors(selectors: seq<string>) returns (r: Result<seq<ListNodesOption>, SelectorError>)
    ensures r == Parse(selectors)
  {
    var opts: seq<ListNodesOption> := [];
    var inputs: seq<string> := [];
    for i := 0 to |selectors|
      invariant Parse(selectors) == ParseFrom(selectors[i..], opts, inputs)
    {
      assert selectors[i..][1..] == selectors[i + 1..];
      var selector := selectors[i];
      var parts := Split(selector, '=');
      if |parts| != 2 {
        return Failure(Malformed(selector));
      }
      var key, value := parts[0], parts[1];
      var lv := Lower(value);
      if lv == "const" || lv == "constant" {
        value := Attr.Constant;
      } else if lv == "placeholder" {
        value := Attr.Placeholder;
      }
      var lk := Lower(key);
      if lk == "op" || lk == "operation" {
        opts := opts + [OptionOp(value)];
      } else if lk == "input" {
        inputs := inputs + [value];
      } else {
        return Failure(BadKey(key));
      }
      if |inputs| > 0 {
        opts := opts + [OptionWithInputs(inputs)];
      }
    }
    assert selectors[|selectors|..] == [];
    r := Success(opts);
  }

  /** NodeList after the graph is read: the names the parsed selectors select. */
  method NodeList(g: Graph.Def, selectors: seq<string>) returns (r: Result<seq<string>, SelectorError>)
    ensures r.Failure? <==> Parse(selectors).Failure?
    ensures r.Failure? <==> exists i :: 0 <= i < |selectors| && Refused(selectors, i)
    ensures r.Failure? ==> r == Failure(Parse(selectors).error)
    ensures r.Success? ==> r.value == Selected(g.Records(), Parse(selectors).value)
  {
    ParseFromErrors(selectors, [], []);
    var opts := ParseSelectors(selectors);
    if opts.Failure? {
      return Failure(opts.error);
    }
    var names := g.ListNodes(opts.value);
    r := Success(names);
  }

  /**
   * A name is listed exactly when a node of that name has every asked-for
   * operation and every asked-for input.
   */
  lemma NodeListMembers(recs: seq<Node.Record>, sels: seq<string>, x: string)
    requires Parse(sels).Success?
    ensures x in Selected(recs, Parse(sels).value) <==>
      exists k :: 0 <= k < |recs| && recs[k].name == x && Wanted(sels, recs[k])
  {
    var opts := Parse(sels).value;
    SelectedMembers(recs, opts, x);
    forall k | 0 <= k < |recs| ensures AcceptsAll(opts, recs[k]) <==> Wanted(sels, recs[k]) {
      ParseMeaning(sels, recs[k]);
    }
  }

  /** Without selectors every node name is listed, in document order. */
  lemma NoSelectorsListAll(recs: seq<Node.Record>)
    ensures Parse([]) == Success([])
    ensures Selected(recs, Parse([]).value) == NamesOf(recs)
  {
    SelectedWithoutOptions(recs);
  }
}
