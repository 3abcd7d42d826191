/**
 * Value-level definitions behind the graph document (pkg/proto/graph):
 * name lookups over the ordered node list, the node-listing predicates and
 * the Graphviz DOT text the document exports.
 */
module GraphSpec {
  import Attr
  import Node

  /** The failures a document operation reports. */
  datatype Error = NotFound(name: string) | AlreadyExists(name: string)

  // ---------------------------------------------------------------------
  // Names

  function Elems(s: seq<string>): set<string>
  {
    set x | x in s
  }

  ghost predicate Distinct(s: seq<string>)
  {
    forall i, j :: 0 <= i < j < |s| ==> s[i] != s[j]
  }

  lemma {:induction false} DistinctCard(s: seq<string>)
    requires Distinct(s)
    ensures |Elems(s)| == |s|
  {
    if s != [] {
      var init := s[..|s| - 1];
      DistinctCard(init);
      assert Elems(s) == Elems(init) + {s[|s| - 1]};
      assert s[|s| - 1] !in Elems(init);
    }
  }

  /** The first position holding x. */
  function IndexOf(s: seq<string>, x: string): (i: nat)
    requires x in s
    ensures i < |s| && s[i] == x && x !in s[..i]
  {
    if s[0] == x then 0
    else
      var j := IndexOf(s[1..], x);
      assert s[..j + 1] == [s[0]] + s[1..][..j];
      1 + j
  }

  /** The last position holding x. */
  function LastIndexOf(s: seq<string>, x: string): (i: nat)
    requires x in s
    ensures i < |s| && s[i] == x && x !in s[i + 1..]
  {
    if s[|s| - 1] == x then |s| - 1
    else
      var j := LastIndexOf(s[..|s| - 1], x);
      assert s[j + 1..] == s[..|s| - 1][j + 1..] + [s[|s| - 1]];
      j
  }

  lemma LastIndexOfPrefix(s: seq<string>, i: nat, x: string)
    requires i < |s| && x in s[..i + 1]
    ensures LastIndexOf(s[..i + 1], x) == if s[i] == x then i else LastIndexOf(s[..i], x)
  {
    if s[i] != x {
      assert s[..i + 1][..i] == s[..i];
    }
  }

  /** Two lists of distinct names with no name in common join into one. */
  lemma DistinctAppend(a: seq<string>, b: seq<string>)
    requires Distinct(a) && Distinct(b)
    requires Elems(a) !! Elems(b)
    ensures Distinct(a + b)
  {
    var s := a + b;
    forall i, j | 0 <= i < j < |s| ensures s[i] != s[j] {
      if i < |a| <= j {
        assert s[i] in Elems(a) && s[j] in Elems(b);
      } else if |a| <= i {
        assert s[i] == b[i - |a|] && s[j] == b[j - |a|];
      }
    }
  }

  /** The first requested name that is not among the names. */
  function FirstNotIn(req: seq<string>, names: seq<string>): (k: nat)
    requires exists i :: 0 <= i < |req| && req[i] !in names
    ensures k < |req| && req[k] !in names
    ensures forall j :: 0 <= j < k ==> req[j] in names
  {
    if req[0] !in names then 0
    else
      assert exists i :: 0 <= i < |req[1..]| && req[1..][i] !in names by {
        var i :| 0 <= i < |req| && req[i] !in names;
        assert req[1..][i - 1] == req[i];
      }
      1 + FirstNotIn(req[1..], names)
  }

  /** The first name of the list that is already among the names. */
  function FirstIn(s: seq<string>, names: seq<string>): (k: nat)
    requires exists i :: 0 <= i < |s| && s[i] in names
    ensures k < |s| && s[k] in names
    ensures forall j :: 0 <= j < k ==> s[j] !in names
  {
    if s[0] in names then 0
    else
      assert exists i :: 0 <= i < |s[1..]| && s[1..][i] in names by {
        var i :| 0 <= i < |s| && s[i] in names;
        assert s[1..][i - 1] == s[i];
      }
      1 + FirstIn(s[1..], names)
  }

  /**
   * A deletion request fails at position k when that name is absent or was
   * already deleted by an earlier position of the same request.
   */
  ghost predicate BadDelete(req: seq<string>, names: seq<string>, k: int)
    requires 0 <= k < |req|
  {
    req[k] !in names || req[k] in req[..k]
  }

  function FirstBadDeleteFrom(req: seq<string>, names: seq<string>, from: nat): (k: nat)
    requires from <= |req|
    requires exists i :: from <= i < |req| && BadDelete(req, names, i)
    ensures from <= k < |req| && BadDelete(req, names, k)
    ensures forall j :: from <= j < k ==> !BadDelete(req, names, j)
    decreases |req| - from
  {
    if req[from] !in names || req[from] in req[..from] then from
    else FirstBadDeleteFrom(req, names, from + 1)
  }

  function FirstBadDelete(req: seq<string>, names: seq<string>): (k: nat)
    requires exists i :: 0 <= i < |req| && BadDelete(req, names, i)
    ensures k < |req| && BadDelete(req, names, k)
    ensures forall j :: 0 <= j < k ==> !BadDelete(req, names, j)
  {
    FirstBadDeleteFrom(req, names, 0)
  }

  /** The names of node records, in order. */
  function NamesOf(recs: seq<Node.Record>): (r: seq<string>)
    ensures |r| == |recs|
    ensures forall i :: 0 <= i < |recs| ==> r[i] == recs[i].name
  {
    seq(|recs|, i requires 0 <= i < |recs| => recs[i].name)
  }

  // ---------------------------------------------------------------------
  // Listing predicates

  /** The two node-listing options the library offers. */
  datatype ListNodesOption =
    | OptionOp(op: string)
    | OptionWithInputs(inputs: seq<string>)

  /** What an option answers on a node. */
  predicate Accepts(o: ListNodesOption, n: Node.Record)
  {
    match o
    case OptionOp(op) => n.op == op
    case OptionWithInputs(inputs) =>
      (|inputs| == 0 && |n.input| == 0) || forall x :: x in inputs ==> x in n.input
  }

  predicate AcceptsAll(opts: seq<ListNodesOption>, n: Node.Record)
  {
    forall o :: o in opts ==> Accepts(o, n)
  }

  /** The special case for an empty input list adds nothing: it is plain containment. */
  lemma WithInputsIsContainment(inputs: seq<string>, n: Node.Record)
    ensures Accepts(OptionWithInputs(inputs), n) <==> forall x :: x in inputs ==> x in n.input
  {
  }

  /** The names ListNodes reports: those of the nodes every option accepts, in order. */
  function Selected(recs: seq<Node.Record>, opts: seq<ListNodesOption>): (r: seq<string>)
  {
    if recs == [] then []
    else
      var last := recs[|recs| - 1];
      Selected(recs[..|recs| - 1], opts) + (if AcceptsAll(opts, last) then [last.name] else [])
  }

  /** With no options every node name is listed, in document order. */
  lemma {:induction false} SelectedWithoutOptions(recs: seq<Node.Record>)
    ensures Selected(recs, []) == NamesOf(recs)
  {
    if recs != [] {
      SelectedWithoutOptions(recs[..|recs| - 1]);
    }
  }

  /** A name is listed exactly when some node carrying it passes every option. */
  lemma {:induction false} SelectedMembers(recs: seq<Node.Record>, opts: seq<ListNodesOption>, x: string)
    ensures x in Selected(recs, opts) <==>
      exists k :: 0 <= k < |recs| && recs[k].name == x && AcceptsAll(opts, recs[k])
  {
    if recs != [] {
      var init := recs[..|recs| - 1];
      SelectedMembers(init, opts, x);
      if x in Selected(init, opts) {
        var k :| 0 <= k < |init| && init[k].name == x && AcceptsAll(opts, init[k]);
        assert recs[k] == init[k];
      }
      if exists k :: 0 <= k < |recs| && recs[k].name == x && AcceptsAll(opts, recs[k]) {
        var k :| 0 <= k < |recs| && recs[k].name == x && AcceptsAll(opts, recs[k]);
        if k < |init| {
          assert init[k] == recs[k];
        }
      }
    }
  }

  // ---------------------------------------------------------------------
  // DOT export

  function Quote(s: string): string
  {
    "\"" + s + "\""
  }

  /** The fill colours of the two well-known operation kinds. */
  function ColorOf(op: string): (c: string)
    requires op in {Attr.Constant, Attr.Placeholder}
  {
    map[Attr.Constant := "aquamarine3", Attr.Placeholder := "antiquewhite3"][op]
  }

  /** The declaration line of a node. */
  function Declaration(n: Node.Record): string
  {
    if n.op in {Attr.Constant, Attr.Placeholder} then
      Quote(n.name) + " [fillcolor=" + Quote(ColorOf(n.op)) + ", style=\"filled\", label=" + Quote(n.name) + "]"
    else
      Quote(n.name) + " [label=" + Quote(n.name) + "]"
  }

  function EdgeLine(input: string, name: string): string
  {
    Quote(input) + " -> " + Quote(name)
  }

  /** The edge lines of a node, one per input, in input order. */
  function Edges(inputs: seq<string>, name: string): (r: seq<string>)
    ensures |r| == |inputs|
    ensures forall j :: 0 <= j < |inputs| ==> r[j] == EdgeLine(inputs[j], name)
  {
    seq(|inputs|, j requires 0 <= j < |inputs| => EdgeLine(inputs[j], name))
  }

  /** A node's block: its declaration, then its edges. */
  function NodeLines(n: Node.Record): seq<string>
  {
    [Declaration(n)] + Edges(n.input, n.name)
  }

  /** All lines, node by node in document order. */
  function DotLines(recs: seq<Node.Record>): seq<string>
  {
    if recs == [] then []
    else DotLines(recs[..|recs| - 1]) + NodeLines(recs[|recs| - 1])
  }

  /** Lines joined, each ended by a newline. */
  function Text(lines: seq<string>): string
  {
    if lines == [] then ""
    else Text(lines[..|lines| - 1]) + lines[|lines| - 1] + "\n"
  }

  function DotText(recs: seq<Node.Record>): string
  {
    Text(DotLines(recs))
  }

  function TotalInputs(recs: seq<Node.Record>): nat
  {
    if recs == [] then 0
    else TotalInputs(recs[..|recs| - 1]) + |recs[|recs| - 1].input|
  }

  lemma {:induction false} TextAppend(a: seq<string>, b: seq<string>)
    ensures Text(a + b) == Text(a) + Text(b)
  {
    if b == [] {
      assert a + b == a;
    } else {
      var b' := b[..|b| - 1];
      assert (a + b)[..|a + b| - 1] == a + b';
      assert (a + b)[|a + b| - 1] == b[|b| - 1];
      TextAppend(a, b');
    }
  }

  /** One more line adds that line and a newline to the text. */
  lemma TextSnoc(lines: seq<string>, line: string)
    ensures Text(lines + [line]) == Text(lines) + line + "\n"
  {
    assert (lines + [line])[..|lines|] == lines;
  }

  /** The DOT text of a document extended by one node extends by that node's block. */
  lemma DotTextSnoc(recs: seq<Node.Record>, n: Node.Record)
    ensures DotText(recs + [n]) == DotText(recs) + Text([Declaration(n)]) + Text(Edges(n.input, n.name))
  {
    assert (recs + [n])[..|recs|] == recs;
    TextAppend(DotLines(recs), NodeLines(n));
    TextAppend([Declaration(n)], Edges(n.input, n.name));
  }

  /** The export of two documents side by side is the export of one, then the other's. */
  lemma {:induction false} DotLinesAppend(a: seq<Node.Record>, b: seq<Node.Record>)
    ensures DotLines(a + b) == DotLines(a) + DotLines(b)
  {
    if b == [] {
      assert a + b == a;
    } else {
      var b', n := b[..|b| - 1], b[|b| - 1];
      assert (a + b)[..|a + b| - 1] == a + b';
      assert (a + b)[|a + b| - 1] == n;
      DotLinesAppend(a, b');
      calc {
        DotLines(a + b);
        DotLines(a + b') + NodeLines(n);
        DotLines(a) + DotLines(b') + NodeLines(n);
        DotLines(a) + (DotLines(b') + NodeLines(n));
        DotLines(a) + DotLines(b);
      }
    }
  }

  /** The export of an appended document is the receiver's export, then the other's. */
  lemma DotTextAppend(a: seq<Node.Record>, b: seq<Node.Record>)
    ensures DotText(a + b) == DotText(a) + DotText(b)
  {
    DotLinesAppend(a, b);
    TextAppend(DotLines(a), DotLines(b));
  }

  /** One line per node plus one line per input. */
  lemma {:induction false} DotLineCount(recs: seq<Node.Record>)
    ensures |DotLines(recs)| == |recs| + TotalInputs(recs)
  {
    if recs != [] {
      DotLineCount(recs[..|recs| - 1]);
    }
  }

  function CountNewlines(s: string): nat
  {
    if s == [] then 0
    else CountNewlines(s[..|s| - 1]) + (if s[|s| - 1] == '\n' then 1 else 0)
  }

  lemma {:induction false} CountNewlinesAppend(a: string, b: string)
    ensures CountNewlines(a + b) == CountNewlines(a) + CountNewlines(b)
  {
    if b == [] {
      assert a + b == a;
    } else {
      var b' := b[..|b| - 1];
      assert (a + b)[..|a + b| - 1] == a + b';
      assert (a + b)[|a + b| - 1] == b[|b| - 1];
      CountNewlinesAppend(a, b');
    }
  }

  lemma {:induction false} NoNewlineCount(s: string)
    requires '\n' !in s
    ensures CountNewlines(s) == 0
  {
    if s != [] {
      NoNewlineCount(s[..|s| - 1]);
    }
  }

  ghost predicate NoNewlineIn(lines: seq<string>)
  {
    forall i :: 0 <= i < |lines| ==> '\n' !in lines[i]
  }

  lemma {:induction false} TextNewlines(lines: seq<string>)
    requires NoNewlineIn(lines)
    ensures CountNewlines(Text(lines)) == |lines|
  {
    if lines != [] {
      var init := lines[..|lines| - 1];
      TextNewlines(init);
      NoNewlineCount(lines[|lines| - 1]);
      CountNewlinesAppend(Text(init), lines[|lines| - 1]);
      CountNewlinesAppend(Text(init) + lines[|lines| - 1], "\n");
    }
  }

  /** No node name or input contains a line break. */
  ghost predicate SingleLineNames(recs: seq<Node.Record>)
  {
    forall k :: 0 <= k < |recs| ==>
      '\n' !in recs[k].name && forall j :: 0 <= j < |recs[k].input| ==> '\n' !in recs[k].input[j]
  }

  lemma {:induction false} DotLinesSingle(recs: seq<Node.Record>)
    requires SingleLineNames(recs)
    ensures NoNewlineIn(DotLines(recs))
  {
    if recs != [] {
      var init := recs[..|recs| - 1];
      DotLinesSingle(init);
      var n := recs[|recs| - 1];
      DeclarationSingle(n);
      forall j | 0 <= j < |n.input| ensures '\n' !in EdgeLine(n.input[j], n.name) {
        EdgeSingle(n.input[j], n.name);
      }
    }
  }

  lemma DeclarationSingle(n: Node.Record)
    requires '\n' !in n.name
    ensures '\n' !in Declaration(n)
  {
  }

  lemma EdgeSingle(input: string, name: string)
    requires '\n' !in input && '\n' !in name
    ensures '\n' !in EdgeLine(input, name)
  {
  }

  /**
   * Read as text, the export has exactly one line per node plus one per
   * input, when no name contains a line break.
   */
  lemma DotTextLineCount(recs: seq<Node.Record>)
    requires SingleLineNames(recs)
    ensures CountNewlines(DotText(recs)) == |recs| + TotalInputs(recs)
  {
    DotLinesSingle(recs);
    TextNewlines(DotLines(recs));
    DotLineCount(recs);
  }

  /** The block of a node of any other operation with one input. */
  lemma PlainBlock1(n: Node.Record)
    requires n.op != Attr.Constant && n.op != Attr.Placeholder && |n.input| == 1
    ensures NodeLines(n) == [Quote(n.name) + " [label=" + Quote(n.name) + "]", EdgeLine(n.input[0], n.name)]
  {
    assert Edges(n.input, n.name) == [EdgeLine(n.input[0], n.name)];
  }

  /** The block of a node of any other operation with two inputs. */
  lemma PlainBlock2(n: Node.Record)
    requires n.op != Attr.Constant && n.op != Attr.Placeholder && |n.input| == 2
    ensures NodeLines(n) == [Quote(n.name) + " [label=" + Quote(n.name) + "]",
                             EdgeLine(n.input[0], n.name), EdgeLine(n.input[1], n.name)]
  {
    assert Edges(n.input, n.name) == [EdgeLine(n.input[0], n.name), EdgeLine(n.input[1], n.name)];
  }

  /** One more node adds its block to the end of the export. */
  lemma DotLinesSnoc(rs: seq<Node.Record>, n: Node.Record)
    ensures DotLines(rs + [n]) == DotLines(rs) + NodeLines(n)
  {
    assert (rs + [n])[..|rs|] == rs;
  }
}
