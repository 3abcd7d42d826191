/**
 * The graph document (pkg/proto/graph/graphdef.go): an ordered list of node
 * handles edited in place. Node names are not forced to be unique; lookups
 * take the first node of a name, the name-keyed maps the operations build
 * keep the last.
 */
module Graph {
  import opened Wrappers
  import opened GraphSpec
  import Attr
  import Node

  class Def {
    var nodes: seq<Node.Def>

    /** A document holding the given nodes (as loading one from a file would). */
    constructor FromNodes(ns: seq<Node.Def>)
      ensures nodes == ns
    {
      nodes := ns;
    }

    function Names(): (r: seq<string>)
      reads this, nodes
      ensures |r| == |nodes|
      ensures forall i :: 0 <= i < |nodes| ==> r[i] == nodes[i].name
    {
      NamesOfDefs(nodes)
    }

    function Records(): (r: seq<Node.Record>)
      reads this, nodes
      ensures |r| == |nodes|
      ensures forall i :: 0 <= i < |nodes| ==> r[i] == nodes[i].Snapshot()
      ensures NamesOf(r) == Names()
    {
      seq(|nodes|, i requires 0 <= i < |nodes| reads this, nodes => nodes[i].Snapshot())
    }

    ghost predicate DistinctNames()
      reads this, nodes
    {
      Distinct(Names())
    }

    /** GetNode: the first node of that name, or NotFound. */
    method GetNode(name: string) returns (r: Result<Node.Def, Error>)
      ensures r.Success? <==> name in Names()
      ensures r.Success? ==> r.value == nodes[IndexOf(Names(), name)]
      ensures r.Failure? ==> r.error == NotFound(name)
    {
      for i := 0 to |nodes|
        invariant name !in Names()[..i]
      {
        if nodes[i].name == name {
          assert Names()[..i + 1] == Names()[..i] + [name];
          return Success(nodes[i]);
        }
        assert Names()[..i + 1] == Names()[..i] + [nodes[i].name];
      }
      assert Names()[..|nodes|] == Names();
      r := Failure(NotFound(name));
    }

    /**
     * GetNodes: fails on the first requested name (in argument order) that is
     * absent; otherwise the document's nodes whose name was requested, in
     * document order.
     */
    method GetNodes(req: seq<string>) returns (r: Result<seq<Node.Def>, Error>)
      ensures r.Failure? <==> exists k :: 0 <= k < |req| && req[k] !in Names()
      ensures r.Failure? ==> r.error == NotFound(req[FirstNotIn(req, Names())])
      ensures r.Success? ==> r.value == Pick(nodes, Elems(req))
    {
      var existingNames: set<string> := {};
      for i := 0 to |nodes|
        invariant existingNames == Elems(Names()[..i])
      {
        assert Names()[..i + 1] == Names()[..i] + [nodes[i].name];
        existingNames := existingNames + {nodes[i].name};
      }
      assert Names()[..|nodes|] == Names();
      var newNames: set<string> := {};
      for k := 0 to |req|
        invariant newNames == Elems(req[..k])
        invariant forall j :: 0 <= j < k ==> req[j] in Names()
      {
        assert req[..k + 1] == req[..k] + [req[k]];
        newNames := newNames + {req[k]};
        if req[k] !in existingNames {
          return Failure(NotFound(req[k]));
        }
      }
      assert req[..|req|] == req;
      var picked: seq<Node.Def> := [];
      for i := 0 to |nodes|
        invariant picked == Pick(nodes[..i], newNames)
      {
        assert nodes[..i + 1][..i] == nodes[..i];
        if nodes[i].name in newNames {
          picked := picked + [nodes[i]];
        }
      }
      assert nodes[..|nodes|] == nodes;
      r := Success(picked);
    }

    /**
     * DeleteNodes: no names empties the document. A name that is absent, or
     * requested a second time, fails without change. Otherwise the document
     * keeps one node per distinct surviving name (the last of that name) in
     * an unspecified order.
     */
    method DeleteNodes(req: seq<string>) returns (r: Option<Error>)
      modifies this
      ensures |req| == 0 ==> r == None && nodes == []
      ensures |req| > 0 ==>
        (r.Some? <==> exists k :: 0 <= k < |req| && BadDelete(req, old(Names()), k))
      ensures r.Some? ==>
        nodes == old(nodes) && r.value == NotFound(req[FirstBadDelete(req, old(Names()))])
      ensures |req| > 0 && r.None? ==>
        && Distinct(Names())
        && Elems(Names()) == Elems(old(Names())) - Elems(req)
        && forall j :: 0 <= j < |nodes| ==>
             nodes[j].name in old(Names()) &&
             nodes[j] == old(nodes)[LastIndexOf(old(Names()), nodes[j].name)]
    {
      if |req| == 0 {
        nodes := [];
        return None;
      }
      r := None;
      var survivors := Survivors(nodes, req);
      assert NamesOfDefs(nodes) == old(Names());
      if survivors.Failure? {
        return Some(survivors.error);
      }
      nodes := survivors.value;
    }

    /** DeleteNode: removes the first node of that name, keeping the others in order. */
    method DeleteNode(name: string)
      modifies this
      ensures name !in old(Names()) ==> nodes == old(nodes)
      ensures name in old(Names()) ==>
        var i := IndexOf(old(Names()), name);
        nodes == old(nodes[..i] + nodes[i + 1..])
    {
      var index := -1;
      for i := 0 to |nodes|
        invariant name !in Names()[..i]
      {
        if nodes[i].name == name {
          index := i;
          break;
        }
        assert Names()[..i + 1] == Names()[..i] + [nodes[i].name];
      }
      if index >= 0 {
        assert IndexOf(Names(), name) == index;
        nodes := nodes[..index] + nodes[index + 1..];
      } else {
        assert Names()[..|nodes|] == Names();
      }
    }

    /**
     * SetNodes: a given node whose name already occurs overwrites the last
     * node of that name in place; among given nodes sharing a name the later
     * wins; the nodes of new names are appended, in an unspecified order.
     */
    method SetNodes(defs: seq<Node.Def>)
      modifies this
      ensures MergeSpec(old(nodes), defs, nodes)
      ensures |nodes| == |old(nodes)| + |Elems(NamesOfDefs(defs)) - Elems(NamesOfDefs(old(nodes)))|
      ensures forall i :: 0 <= i < |old(nodes)| ==> nodes[i].name == old(nodes)[i].name
      ensures Distinct(NamesOfDefs(old(nodes))) ==> Distinct(NamesOfDefs(nodes))
      ensures old(DistinctNames()) ==> DistinctNames()
    {
      ghost var ns := nodes;
      nodes := Merge(nodes, defs);
      MergeLength(ns, defs, nodes);
      MergeKeepsNames(ns, defs, nodes);
      MergeKeepsDistinct(ns, defs, nodes);
    }

    /**
     * Append: fails on the first node of the other document whose name the
     * receiver already has, changing nothing; otherwise the receiver's nodes
     * are followed by the other's, in order (duplicates within the other
     * document are not checked).
     */
    method Append(other: Def) returns (r: Option<Error>)
      modifies this
      ensures r.Some? <==> exists k :: 0 <= k < |old(other.nodes)| && old(other.nodes)[k].name in old(Names())
      ensures r.Some? ==>
        && nodes == old(nodes)
        && r.value == AlreadyExists(old(other.Names())[FirstIn(old(other.Names()), old(Names()))])
      ensures r.None? ==> nodes == old(nodes) + old(other.nodes)
      ensures r.None? && old(DistinctNames()) && old(other.DistinctNames()) ==> DistinctNames()
    {
      var existingNames := NameSet(nodes);
      ghost var names := Names();
      ghost var otherNames := other.Names();
      for k := 0 to |other.nodes|
        invariant forall j :: 0 <= j < k ==> otherNames[j] !in names
      {
        if other.nodes[k].name in existingNames {
          assert FirstIn(otherNames, names) == k;
          return Some(AlreadyExists(other.nodes[k].name));
        }
      }
      nodes := nodes + other.nodes;
      r := None;
      assert Names() == names + otherNames;
      if Distinct(names) && Distinct(otherNames) {
        DistinctAppend(names, otherNames);
      }
    }

    /**
     * RenameNode: renames the first node of that name, in place, without
     * touching any input list. Fails with NotFound when no node has the name,
     * and with AlreadyExists when some node already has the new one (so also
     * when both names are equal).
     */
    method RenameNode(name: string, newName: string) returns (r: Option<Error>)
      modifies nodes
      ensures nodes == old(nodes)
      ensures r.None? <==> name in old(Names()) && newName !in old(Names())
      ensures name !in old(Names()) ==> r == Some(NotFound(name))
      ensures name in old(Names()) && newName in old(Names()) ==> r == Some(AlreadyExists(newName))
      ensures r.Some? ==> Records() == old(Records())
      ensures r.None? ==>
        var target := nodes[IndexOf(old(Names()), name)];
        forall k :: 0 <= k < |nodes| ==>
          Records()[k] == if nodes[k] == target then old(Records()[k]).(name := newName) else old(Records()[k])
    {
      var names := NameSet(nodes);
      for i := 0 to |nodes|
        invariant name !in Names()[..i]
      {
        if nodes[i].name == name {
          assert Names()[..i + 1] == Names()[..i] + [name];
          assert IndexOf(Names(), name) == i;
          if newName in names {
            return Some(AlreadyExists(newName));
          }
          nodes[i].name := newName;
          return None;
        }
        assert Names()[..i + 1] == Names()[..i] + [nodes[i].name];
      }
      assert Names()[..|nodes|] == Names();
      r := Some(NotFound(name));
    }

    /** ListNodes: the names of the nodes every option accepts, in document order. */
    method ListNodes(opts: seq<ListNodesOption>) returns (names: seq<string>)
      ensures names == Selected(Records(), opts)
    {
      names := [];
      for i := 0 to |nodes|
        invariant names == Selected(Records()[..i], opts)
      {
        var rec := nodes[i].Snapshot();
        var j := 0;
        while j < |opts| && Accepts(opts[j], rec)
          invariant j <= |opts|
          invariant forall k :: 0 <= k < j ==> Accepts(opts[k], rec)
        {
          j := j + 1;
        }
        assert Records()[..i + 1][..i] == Records()[..i];
        assert AcceptsAll(opts, rec) <==> j == |opts| by {
          if j < |opts| {
            assert !Accepts(opts[j], rec);
          }
        }
        if j == |opts| {
          names := names + [nodes[i].name];
        }
      }
      assert Records()[..|nodes|] == Records();
    }

    /**
     * PrintDotNotation: the Graphviz DOT lines of the document, node by node
     * in document order, each declaration followed by its edges.
     */
    method PrintDotNotation() returns (out: string)
      ensures out == DotText(Records())
    {
      ghost var recs := Records();
      out := "";
      for i := 0 to |nodes|
        invariant out == DotText(recs[..i])
      {
        var decl := DeclarationLine(nodes[i]);
        var edges := EdgeLines(nodes[i]);
        assert recs[..i + 1] == recs[..i] + [recs[i]];
        DotTextSnoc(recs[..i], recs[i]);
        out := out + decl + edges;
      }
      assert recs[..|nodes|] == recs;
    }
  }

  /**
   * The node list DeleteNodes leaves for a non-empty request: the last node
   * of each surviving name, one per name, or NotFound for the first name that
   * is absent or requested twice.
   */
  method Survivors(ns: seq<Node.Def>, req: seq<string>) returns (r: Result<seq<Node.Def>, Error>)
    ensures r.Failure? <==> exists k :: 0 <= k < |req| && BadDelete(req, NamesOfDefs(ns), k)
    ensures r.Failure? ==> r.error == NotFound(req[FirstBadDelete(req, NamesOfDefs(ns))])
    ensures r.Success? ==>
      && Distinct(NamesOfDefs(r.value))
      && Elems(NamesOfDefs(r.value)) == Elems(NamesOfDefs(ns)) - Elems(req)
      && forall j :: 0 <= j < |r.value| ==>
           r.value[j].name in NamesOfDefs(ns) &&
           r.value[j] == ns[LastIndexOf(NamesOfDefs(ns), r.value[j].name)]
  {
    var existingNames := LastByName(ns);
    var names := NamesOfDefs(ns);
    var remaining := RemoveRequested(existingNames, names, req);
    if remaining.Failure? {
      ghost var k := FirstBadDelete(req, names);
      assert BadDelete(req, NamesOfDefs(ns), k);
      return Failure(remaining.error);
    }
    var survivors := MapValues(remaining.value);
    r := Success(survivors);
  }

  /**
   * The second loop of DeleteNodes: each requested name is removed from the
   * name-keyed map; a name no longer in it (absent, or already removed) fails.
   */
  method RemoveRequested(m: map<string, Node.Def>, names: seq<string>, req: seq<string>)
    returns (r: Result<map<string, Node.Def>, Error>)
    requires m.Keys == Elems(names)
    ensures r.Failure? <==> exists k :: 0 <= k < |req| && BadDelete(req, names, k)
    ensures r.Failure? ==> r.error == NotFound(req[FirstBadDelete(req, names)])
    ensures r.Success? ==> r.value.Keys == Elems(names) - Elems(req)
    ensures r.Success? ==> forall n :: n in r.value ==> n in m && r.value[n] == m[n]
  {
    var cur := m;
    for k := 0 to |req|
      invariant cur.Keys == Elems(names) - Elems(req[..k])
      invariant forall n :: n in cur ==> n in m && cur[n] == m[n]
      invariant forall j :: 0 <= j < k ==> !BadDelete(req, names, j)
    {
      assert Elems(req[..k + 1]) == Elems(req[..k]) + {req[k]} by {
        assert req[..k + 1] == req[..k] + [req[k]];
      }
      if req[k] !in cur {
        assert BadDelete(req, names, k);
        assert FirstBadDelete(req, names) == k;
        return Failure(NotFound(req[k]));
      }
      assert !BadDelete(req, names, k);
      cur := cur - {req[k]};
    }
    assert req[..|req|] == req;
    r := Success(cur);
  }

  /**
   * The old nodes after SetNodes's first loop: the last old node of a name
   * that is also given is replaced by the last given node of that name.
   */
  ghost function OverwrittenBy(ns: seq<Node.Def>, defs: seq<Node.Def>): (r: seq<Node.Def>)
    reads ns, defs
    ensures |r| == |ns|
  {
    seq(|ns|, i requires 0 <= i < |ns| reads ns, defs =>
      if Overwritten(NamesOfDefs(ns), NamesOfDefs(defs), i)
      then defs[LastIndexOf(NamesOfDefs(defs), ns[i].name)]
      else ns[i])
  }

  /**
   * The nodes SetNodes appends: each given name absent from the old nodes
   * once, with the last given node of that name.
   */
  ghost predicate AppendsNew(ns: seq<Node.Def>, defs: seq<Node.Def>, tail: seq<Node.Def>)
    reads ns, defs, tail
  {
    && Distinct(NamesOfDefs(tail))
    && Elems(NamesOfDefs(tail)) == Elems(NamesOfDefs(defs)) - Elems(NamesOfDefs(ns))
    && forall j :: 0 <= j < |tail| ==>
         tail[j].name in NamesOfDefs(defs) &&
         tail[j] == defs[LastIndexOf(NamesOfDefs(defs), tail[j].name)]
  }

  /** What SetNodes leaves: the overwritten old nodes, then the new ones. */
  ghost predicate MergeSpec(ns: seq<Node.Def>, defs: seq<Node.Def>, res: seq<Node.Def>)
    reads ns, defs, res
  {
    |ns| <= |res| && res[..|ns|] == OverwrittenBy(ns, defs) && AppendsNew(ns, defs, res[|ns|..])
  }

  /** SetNodes grows the list by the number of new names. */
  lemma MergeLength(ns: seq<Node.Def>, defs: seq<Node.Def>, res: seq<Node.Def>)
    requires MergeSpec(ns, defs, res)
    ensures |res| == |ns| + |Elems(NamesOfDefs(defs)) - Elems(NamesOfDefs(ns))|
  {
    DistinctCard(NamesOfDefs(res[|ns|..]));
  }

  /** Overwriting keeps every old position's name. */
  lemma MergeKeepsNames(ns: seq<Node.Def>, defs: seq<Node.Def>, res: seq<Node.Def>)
    requires MergeSpec(ns, defs, res)
    ensures forall i :: 0 <= i < |ns| ==> res[i].name == ns[i].name
  {
    forall i | 0 <= i < |ns| ensures res[i].name == ns[i].name {
      assert res[i] == res[..|ns|][i] == OverwrittenBy(ns, defs)[i];
    }
  }

  /** SetNodes keeps the document's names distinct when they were. */
  lemma MergeKeepsDistinct(ns: seq<Node.Def>, defs: seq<Node.Def>, res: seq<Node.Def>)
    requires MergeSpec(ns, defs, res)
    ensures Distinct(NamesOfDefs(ns)) ==> Distinct(NamesOfDefs(res))
  {
    MergeKeepsNames(ns, defs, res);
    var names := NamesOfDefs(ns);
    var tail := NamesOfDefs(res[|ns|..]);
    assert NamesOfDefs(res) == names + tail;
    SetNodesNames(names, NamesOfDefs(defs), tail);
  }

  /**
   * The node list SetNodes leaves: a given node whose name already occurs
   * overwrites the last node of that name in place (among given nodes sharing
   * a name the later wins), and the nodes of new names are appended in the
   * unspecified order of Go's map iteration.
   */
  method Merge(ns: seq<Node.Def>, defs: seq<Node.Def>) returns (res: seq<Node.Def>)
    ensures MergeSpec(ns, defs, res)
  {
    var nodeMap := LastIndexByName(ns);
    var newNodeMap := LastByName(defs);
    var overwritten, nodeNamesToAppend := OverwriteLast(ns, nodeMap, newNodeMap);
    OverwrittenByMap(ns, defs, newNodeMap, overwritten);
    res := AppendNamed(overwritten, nodeNamesToAppend, newNodeMap);
    AppendedTail(ns, defs, newNodeMap, nodeNamesToAppend, res[|ns|..]);
  }

  /** The appended nodes are the new names' last given nodes, once each. */
  lemma AppendedTail(ns: seq<Node.Def>, defs: seq<Node.Def>, newNodeMap: map<string, Node.Def>,
                     toAppend: seq<string>, tail: seq<Node.Def>)
    requires newNodeMap.Keys == Elems(NamesOfDefs(defs))
    requires forall n :: n in newNodeMap ==>
      newNodeMap[n].name == n && newNodeMap[n] == defs[LastIndexOf(NamesOfDefs(defs), n)]
    requires Distinct(toAppend)
    requires Elems(toAppend) == Elems(NamesOfDefs(defs)) - Elems(NamesOfDefs(ns))
    requires |tail| == |toAppend|
    requires forall j :: 0 <= j < |toAppend| ==> toAppend[j] in newNodeMap
    requires forall j :: 0 <= j < |tail| ==> tail[j] == newNodeMap[toAppend[j]]
    ensures AppendsNew(ns, defs, tail)
  {
    assert NamesOfDefs(tail) == toAppend;
  }

  /**
   * The first loop of SetNodes: every new name that already occurs overwrites
   * the node at its recorded (last) position; the other new names are
   * collected for appending, in iteration order.
   */
  method OverwriteLast(ns: seq<Node.Def>, nodeMap: map<string, nat>, newNodeMap: map<string, Node.Def>)
    returns (res: seq<Node.Def>, toAppend: seq<string>)
    requires nodeMap.Keys == Elems(NamesOfDefs(ns))
    requires forall n :: n in nodeMap ==> nodeMap[n] == LastIndexOf(NamesOfDefs(ns), n)
    ensures |res| == |ns|
    ensures forall i :: 0 <= i < |ns| ==>
      res[i] == (if ns[i].name in newNodeMap && i == LastIndexOf(NamesOfDefs(ns), ns[i].name)
                 then newNodeMap[ns[i].name] else ns[i])
    ensures Distinct(toAppend)
    ensures Elems(toAppend) == newNodeMap.Keys - Elems(NamesOfDefs(ns))
    ensures forall j :: 0 <= j < |toAppend| ==> toAppend[j] in newNodeMap
  {
    ghost var names := NamesOfDefs(ns);
    res := ns;
    toAppend := [];
    var todo := newNodeMap.Keys;
    ghost var done: set<string> := {};
    while todo != {}
      invariant done + todo == newNodeMap.Keys && done !! todo
      invariant FirstLoopState(ns, names, newNodeMap, done, res, toAppend)
      decreases todo
    {
      var name :| name in todo;
      if name in nodeMap {
        OverwriteStep(ns, names, newNodeMap, done, res, toAppend, name, nodeMap[name]);
        res := res[nodeMap[name] := newNodeMap[name]];
      } else {
        SkipStep(ns, names, newNodeMap, done, res, toAppend, name);
        toAppend := toAppend + [name];
      }
      done := done + {name};
      todo := todo - {name};
    }
    FirstLoopDone(ns, names, newNodeMap, res, toAppend);
  }

  /**
   * What the first loop of SetNodes has done after visiting the names in
   * done: the old list with, at the last position of every visited name that
   * occurs, that name's new node; and the visited names that do not occur,
   * once each.
   */
  ghost predicate FirstLoopState(ns: seq<Node.Def>, names: seq<string>, m: map<string, Node.Def>,
                                 done: set<string>, res: seq<Node.Def>, toAppend: seq<string>)
  {
    && |names| == |ns| == |res|
    && (forall i :: 0 <= i < |ns| ==>
          res[i] == (if names[i] in done && names[i] in m && i == LastIndexOf(names, names[i])
                     then m[names[i]] else ns[i]))
    && Distinct(toAppend)
    && Elems(toAppend) == done - Elems(names)
  }

  /** Overwriting the last position of an existing name extends done by that name. */
  lemma OverwriteStep(ns: seq<Node.Def>, names: seq<string>, m: map<string, Node.Def>,
                      done: set<string>, res: seq<Node.Def>, toAppend: seq<string>, name: string, p: nat)
    requires FirstLoopState(ns, names, m, done, res, toAppend)
    requires name in m && name in names && p == LastIndexOf(names, name)
    ensures FirstLoopState(ns, names, m, done + {name}, res[p := m[name]], toAppend)
  {
    assert name in Elems(names);
  }

  /** A name absent from the list extends done and is queued for appending. */
  lemma SkipStep(ns: seq<Node.Def>, names: seq<string>, m: map<string, Node.Def>,
                 done: set<string>, res: seq<Node.Def>, toAppend: seq<string>, name: string)
    requires FirstLoopState(ns, names, m, done, res, toAppend)
    requires name !in names && name !in done
    ensures FirstLoopState(ns, names, m, done + {name}, res, toAppend + [name])
  {
    assert Elems(toAppend + [name]) == Elems(toAppend) + {name};
  }

  /** After visiting every new name, the first loop's results are as OverwriteLast states. */
  lemma FirstLoopDone(ns: seq<Node.Def>, names: seq<string>, m: map<string, Node.Def>,
                      res: seq<Node.Def>, toAppend: seq<string>)
    requires names == NamesOfDefs(ns)
    requires FirstLoopState(ns, names, m, m.Keys, res, toAppend)
    ensures |res| == |ns|
    ensures forall i :: 0 <= i < |ns| ==>
      res[i] == (if ns[i].name in m && i == LastIndexOf(NamesOfDefs(ns), ns[i].name)
                 then m[ns[i].name] else ns[i])
    ensures Distinct(toAppend)
    ensures Elems(toAppend) == m.Keys - Elems(NamesOfDefs(ns))
    ensures forall j :: 0 <= j < |toAppend| ==> toAppend[j] in m
  {
    assert forall j :: 0 <= j < |toAppend| ==> toAppend[j] in Elems(toAppend);
  }

  /** The first loop's result, stated through the given map, is OverwrittenBy. */
  lemma OverwrittenByMap(ns: seq<Node.Def>, defs: seq<Node.Def>, newNodeMap: map<string, Node.Def>,
                         res: seq<Node.Def>)
    requires newNodeMap.Keys == Elems(NamesOfDefs(defs))
    requires forall n :: n in newNodeMap ==> newNodeMap[n] == defs[LastIndexOf(NamesOfDefs(defs), n)]
    requires |res| == |ns|
    requires forall i :: 0 <= i < |ns| ==>
      res[i] == (if ns[i].name in newNodeMap && i == LastIndexOf(NamesOfDefs(ns), ns[i].name)
                 then newNodeMap[ns[i].name] else ns[i])
    ensures res == OverwrittenBy(ns, defs)
  {
    forall i | 0 <= i < |ns| ensures res[i] == OverwrittenBy(ns, defs)[i] {
      if Overwritten(NamesOfDefs(ns), NamesOfDefs(defs), i) {
        assert res[i] == newNodeMap[ns[i].name];
      }
    }
  }

  /** The second loop of SetNodes: the nodes of the collected names, appended in order. */
  method AppendNamed(ns: seq<Node.Def>, toAppend: seq<string>, newNodeMap: map<string, Node.Def>)
    returns (res: seq<Node.Def>)
    requires forall j :: 0 <= j < |toAppend| ==> toAppend[j] in newNodeMap
    ensures |res| == |ns| + |toAppend|
    ensures res[..|ns|] == ns
    ensures forall j :: 0 <= j < |toAppend| ==> res[|ns| + j] == newNodeMap[toAppend[j]]
  {
    res := ns;
    for k := 0 to |toAppend|
      invariant |res| == |ns| + k
      invariant res[..|ns|] == ns
      invariant forall j :: 0 <= j < k ==> res[|ns| + j] == newNodeMap[toAppend[j]]
    {
      res := res + [newNodeMap[toAppend[k]]];
    }
  }

  /** The declaration a node's block of DOT text opens with, coloured by op. */
  method DeclarationLine(nodeDef: Node.Def) returns (decl: string)
    ensures decl == Text([Declaration(nodeDef.Snapshot())])
  {
    var colorMap := map[Attr.Constant := "aquamarine3", Attr.Placeholder := "antiquewhite3"];
    var line;
    if nodeDef.op in colorMap {
      line := Quote(nodeDef.name) + " [fillcolor=" + Quote(colorMap[nodeDef.op]) + ", style=\"filled\", label=" + Quote(nodeDef.name) + "]";
    } else {
      line := Quote(nodeDef.name) + " [label=" + Quote(nodeDef.name) + "]";
    }
    assert [line][..0] == [];
    decl := line + "\n";
  }

  /** The edge lines of a node's block of DOT text, one per input in input order. */
  method EdgeLines(nodeDef: Node.Def) returns (out: string)
    ensures out == Text(Edges(nodeDef.input, nodeDef.name))
  {
    ghost var lines := Edges(nodeDef.input, nodeDef.name);
    out := "";
    for j := 0 to |nodeDef.input|
      invariant out == Text(lines[..j])
    {
      var line := Quote(nodeDef.input[j]) + " -> " + Quote(nodeDef.name);
      assert line == lines[j];
      assert lines[..j + 1] == lines[..j] + [line];
      TextSnoc(lines[..j], line);
      out := out + line + "\n";
    }
    assert lines[..|nodeDef.input|] == lines;
  }

  /** The set of names of a node list, as the Go loops build it. */
  method NameSet(ns: seq<Node.Def>) returns (s: set<string>)
    ensures s == Elems(NamesOfDefs(ns))
  {
    s := {};
    for i := 0 to |ns|
      invariant s == Elems(NamesOfDefs(ns)[..i])
    {
      assert NamesOfDefs(ns)[..i + 1] == NamesOfDefs(ns)[..i] + [ns[i].name];
      s := s + {ns[i].name};
    }
    assert NamesOfDefs(ns)[..|ns|] == NamesOfDefs(ns);
  }

  /** Name to last handle of that name, as the Go loops over the node list build it. */
  method LastByName(ns: seq<Node.Def>) returns (m: map<string, Node.Def>)
    ensures m.Keys == Elems(NamesOfDefs(ns))
    ensures forall n :: n in m ==> m[n].name == n && m[n] == ns[LastIndexOf(NamesOfDefs(ns), n)]
  {
    ghost var names := NamesOfDefs(ns);
    m := map[];
    for i := 0 to |ns|
      invariant m.Keys == Elems(names[..i])
      invariant forall n :: n in m ==> m[n] == ns[LastIndexOf(names[..i], n)]
    {
      assert names[..i + 1] == names[..i] + [names[i]];
      forall n | n in Elems(names[..i + 1])
        ensures LastIndexOf(names[..i + 1], n) == if names[i] == n then i else LastIndexOf(names[..i], n)
      {
        LastIndexOfPrefix(names, i, n);
      }
      m := m[ns[i].name := ns[i]];
    }
    assert names[..|ns|] == names;
  }

  /** Name to last position of that name. */
  method LastIndexByName(ns: seq<Node.Def>) returns (m: map<string, nat>)
    ensures m.Keys == Elems(NamesOfDefs(ns))
    ensures forall n :: n in m ==> m[n] == LastIndexOf(NamesOfDefs(ns), n)
  {
    ghost var names := NamesOfDefs(ns);
    m := map[];
    for i := 0 to |ns|
      invariant m.Keys == Elems(names[..i])
      invariant forall n :: n in m ==> m[n] == LastIndexOf(names[..i], n)
    {
      assert names[..i + 1] == names[..i] + [names[i]];
      forall n | n in Elems(names[..i + 1])
        ensures LastIndexOf(names[..i + 1], n) == if names[i] == n then i else LastIndexOf(names[..i], n)
      {
        LastIndexOfPrefix(names, i, n);
      }
      m := m[ns[i].name := i];
    }
    assert names[..|ns|] == names;
  }

  /** The values of a name-keyed map, in the unspecified order of Go's map iteration. */
  method MapValues(m: map<string, Node.Def>) returns (vs: seq<Node.Def>)
    requires forall n :: n in m ==> m[n].name == n
    ensures Distinct(NamesOfDefs(vs))
    ensures Elems(NamesOfDefs(vs)) == m.Keys
    ensures forall j :: 0 <= j < |vs| ==> vs[j].name in m && vs[j] == m[vs[j].name]
  {
    vs := [];
    var todo := m.Keys;
    while todo != {}
      invariant todo <= m.Keys
      invariant Distinct(NamesOfDefs(vs))
      invariant Elems(NamesOfDefs(vs)) == m.Keys - todo
      invariant forall j :: 0 <= j < |vs| ==> vs[j].name in m && vs[j] == m[vs[j].name]
      decreases todo
    {
      var n :| n in todo;
      assert NamesOfDefs(vs + [m[n]]) == NamesOfDefs(vs) + [n];
      assert Elems(NamesOfDefs(vs) + [n]) == Elems(NamesOfDefs(vs)) + {n};
      vs := vs + [m[n]];
      todo := todo - {n};
    }
  }

  /** The name facts SetNodes ends with: old names kept, new distinct names appended. */
  lemma SetNodesNames(names: seq<string>, newNames: seq<string>, appended: seq<string>)
    requires Distinct(appended)
    requires Elems(appended) == Elems(newNames) - Elems(names)
    ensures |appended| == |Elems(newNames) - Elems(names)|
    ensures Distinct(names) ==> Distinct(names + appended)
    ensures (names + appended)[|names|..] == appended
  {
    DistinctCard(appended);
    assert (names + appended)[|names|..] == appended;
    if Distinct(names) {
      var s := names + appended;
      forall i, j | 0 <= i < j < |s| ensures s[i] != s[j] {
        if i < |names| <= j {
          assert s[j] in Elems(appended);
          assert s[i] in Elems(names);
        } else if |names| <= i {
          assert s[i] == appended[i - |names|] && s[j] == appended[j - |names|];
        }
      }
    }
  }

  /** The names of a list of handles, in order. */
  function NamesOfDefs(defs: seq<Node.Def>): (r: seq<string>)
    reads defs
    ensures |r| == |defs|
    ensures forall i :: 0 <= i < |defs| ==> r[i] == defs[i].name
  {
    seq(|defs|, i requires 0 <= i < |defs| reads defs => defs[i].name)
  }

  /** The handles whose name is wanted, in order. */
  function Pick(ns: seq<Node.Def>, wanted: set<string>): (r: seq<Node.Def>)
    reads ns
  {
    if ns == [] then []
    else Pick(ns[..|ns| - 1], wanted) + (if ns[|ns| - 1].name in wanted then [ns[|ns| - 1]] else [])
  }

  /** A handle is picked exactly when it is in the list and its name is wanted. */
  lemma {:induction false} PickMembers(ns: seq<Node.Def>, wanted: set<string>, x: Node.Def)
    ensures x in Pick(ns, wanted) <==> x in ns && x.name in wanted
  {
    if ns != [] {
      var init := ns[..|ns| - 1];
      PickMembers(init, wanted, x);
      assert ns == init + [ns[|ns| - 1]];
    }
  }

  /** Picking with every name of the list wanted keeps the whole list, in order. */
  lemma {:induction false} PickAll(ns: seq<Node.Def>, wanted: set<string>)
    requires forall i :: 0 <= i < |ns| ==> ns[i].name in wanted
    ensures Pick(ns, wanted) == ns
  {
    if ns != [] {
      PickAll(ns[..|ns| - 1], wanted);
    }
  }

  /** SetNodes overwrites position i when a given node bears its name and i is that name's last position. */
  ghost predicate Overwritten(names: seq<string>, newNames: seq<string>, i: int)
    requires 0 <= i < |names|
  {
    names[i] in newNames && i == LastIndexOf(names, names[i])
  }
}
