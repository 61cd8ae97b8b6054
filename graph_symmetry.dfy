/**
 * The store-level promise of an undirected graph: whenever row a holds an
 * entry with id b, row b holds one with id a. Counted by id, since the
 * labels an entry carries can be a caller's (a phantom, or the Sentinel's
 * ""), while the ids are what the pushes pair up. Every primitive and every
 * list operation keeps it on an undirected store.
 */
module GraphSymmetry {
  import opened GraphState
  import opened GraphPaths

  /** How many entries of a row carry the given id. */
  function CountId(row: seq<Node>, id: int): (c: nat)
    ensures c <= |row|
  {
    if row == [] then 0 else (if row[0].id == id then 1 else 0) + CountId(row[1..], id)
  }

  /**
   * For any ids i and j, row i holds as many entries with id j as row j holds
   * with id i (a row past the end of the store counts as empty).
   */
  ghost predicate SymmetricById(g: seq<seq<Node>>) {
    forall i: int, j: int :: CountId(Row(g, i), j) == CountId(Row(g, j), i)
  }

  /** Counting over a concatenation adds the counts of the parts. */
  lemma {:induction false} CountIdAppend(a: seq<Node>, b: seq<Node>, id: int)
    ensures CountId(a + b, id) == CountId(a, id) + CountId(b, id)
  {
    if a == [] {
      assert a + b == b;
    } else {
      assert (a + b)[1..] == a[1..] + b;
      CountIdAppend(a[1..], b, id);
    }
  }

  /** Adding empty rows changes no count. */
  lemma GrownSymmetric(a: seq<seq<Node>>, b: seq<seq<Node>>)
    requires Grown(a, b) && SymmetricById(a)
    ensures SymmetricById(b)
  {
    forall i: int, j: int ensures CountId(Row(b, i), j) == CountId(Row(b, j), i) {
      assert Row(b, i) == Row(a, i);
      assert Row(b, j) == Row(a, j);
    }
  }

  /** An undirected push adds one entry with id b to row a, and one with id a to row b. */
  lemma CountRowAppended(before: seq<seq<Node>>, after: seq<seq<Node>>, node1: Node, node2: Node, i: int, j: int)
    requires RowsAppended(before, after, node1, node2, false)
    requires 0 <= node1.id < |after| && 0 <= node2.id < |after|
    ensures CountId(Row(after, i), j)
         == CountId(Row(before, i), j) + (if i == node1.id && j == node2.id then 1 else 0)
                                       + (if i == node2.id && j == node1.id then 1 else 0)
  {
    if 0 <= i < |after| {
      var x := if i == node1.id then [node2] else [];
      var y := if i == node2.id then [node1] else [];
      assert after[i] == Row(before, i) + x + y;
      CountIdAppend(Row(before, i) + x, y, j);
      CountIdAppend(Row(before, i), x, j);
    } else {
      assert Row(before, i) == [];
    }
  }

  /** The two appends of an undirected edge keep the store symmetric. */
  lemma AppendedSymmetric(before: seq<seq<Node>>, after: seq<seq<Node>>, node1: Node, node2: Node)
    requires SymmetricById(before) && RowsAppended(before, after, node1, node2, false)
    requires 0 <= node1.id < |after| && 0 <= node2.id < |after|
    ensures SymmetricById(after)
  {
    forall i: int, j: int ensures CountId(Row(after, i), j) == CountId(Row(after, j), i) {
      CountRowAppended(before, after, node1, node2, i, j);
      CountRowAppended(before, after, node1, node2, j, i);
    }
  }

  /** A new or cleared store has no entries. */
  lemma EmptySymmetric(directed: bool)
    ensures SymmetricById(Empty(directed).graph)
  {
  }

  /** add_node and operator[] add at most an empty row. */
  lemma AddNodeSymmetric(s: State, name: string)
    requires Valid(s) && SymmetricById(s.graph)
    ensures SymmetricById(AddNode(s, name).state.graph)
    ensures SymmetricById(Index(s, name).0.graph)
  {
    AddNodeGrown(s, name);
    GrownSymmetric(s.graph, AddNode(s, name).state.graph);
  }

  /** Registering a missing label adds at most an empty row. */
  lemma RegisterMissingSymmetric(s: State, name: string)
    requires Valid(s) && SymmetricById(s.graph)
    ensures SymmetricById(RegisterMissing(s, name).graph)
  {
    if name !in s.labels {
      AddNodeSymmetric(s, name);
    }
  }

  /** add_edge(label1, label2) on an undirected store keeps it symmetric, whatever the labels. */
  lemma AddEdgeSymmetric(s: State, label1: string, label2: string)
    requires Valid(s) && !s.directed && SymmetricById(s.graph)
    ensures SymmetricById(AddEdge(s, label1, label2).graph)
  {
    var t := Prepared(s, label1, label2);
    var r := AddEdge(s, label1, label2);
    assert r == Link(t, label1, label2);
    AddEdgeRows(s, label1, label2);
    AppendedSymmetric(s.graph, r.graph, Node(r.identities[label1], label1), Node(r.identities[label2], label2));
  }

  /** add_edge(node1, node2), where defined, keeps an undirected store symmetric, whatever the Nodes. */
  lemma AddEdgeNodesSymmetric(s: State, node1: Node, node2: Node)
    requires Valid(s) && !s.directed && SymmetricById(s.graph) && AddEdgeNodes(s, node1, node2).Some?
    ensures SymmetricById(AddEdgeNodes(s, node1, node2).value.graph)
  {
    var e := ResolveEnds(s, node1, node2);
    AddEdgeNodesState(s, node1, node2);
    ResolveEndsFacts(s, node1, node2);
    AddEdgeNodesFacts(s, node1, node2);
    assert CanPush(e.state, e.first, e.second);
    AppendedSymmetric(s.graph, AddEdgeNodes(s, node1, node2).value.graph, e.first, e.second);
  }

  /** One turn of the label path loop keeps an undirected store undirected and symmetric. */
  lemma PathStepSymmetric(s: State, labelsList: seq<string>, i: nat)
    requires Valid(s) && !s.directed && SymmetricById(s.graph) && i < |labelsList|
    ensures !PathStep(s, labelsList, i).directed && SymmetricById(PathStep(s, labelsList, i).graph)
  {
    var t := RegisterMissing(s, labelsList[i]);
    RegisterMissingSymmetric(s, labelsList[i]);
    if i > 0 {
      AddEdgeSymmetric(t, labelsList[i - 1], labelsList[i]);
    }
  }

  /** add_path and add_cycle over labels keep an undirected store symmetric. */
  lemma LabelListSymmetric(s: State, labelsList: seq<string>)
    requires Valid(s) && !s.directed && SymmetricById(s.graph)
    ensures SymmetricById(AddPath(s, labelsList).graph)
    ensures SymmetricById(AddCycle(s, labelsList).graph)
  {
    forall x: State, j: nat | Valid(x) && j < |labelsList| && !x.directed && SymmetricById(x.graph)
      ensures !PathStep(x, labelsList, j).directed && SymmetricById(PathStep(x, labelsList, j).graph)
    {
      PathStepSymmetric(x, labelsList, j);
    }
    PathFromInduction((x: State, j: nat) => !x.directed && SymmetricById(x.graph), s, labelsList, 0);
    var p := AddPath(s, labelsList);
    assert !p.directed && SymmetricById(p.graph);
    if |labelsList| > 0 {
      AddEdgeSymmetric(p, labelsList[|labelsList| - 1], labelsList[0]);
    }
  }

  /** A defined turn of the Node path loop keeps an undirected store undirected and symmetric. */
  lemma PathNodesStepSymmetric(s: State, nodesList: seq<Node>, i: nat)
    requires Valid(s) && !s.directed && SymmetricById(s.graph) && i < |nodesList|
    requires PathNodesStep(s, nodesList, i).Some?
    ensures !PathNodesStep(s, nodesList, i).value.directed && SymmetricById(PathNodesStep(s, nodesList, i).value.graph)
  {
    var t := Resolve(s, nodesList[i]).state;
    assert PathNodesStep(s, nodesList, i) == if i > 0 then AddEdgeNodes(t, nodesList[i - 1], nodesList[i]) else Some(t);
    ResolveFacts(s, nodesList[i]);
    GrownSymmetric(s.graph, t.graph);
    if i > 0 {
      AddEdgeNodesFacts(t, nodesList[i - 1], nodesList[i]);
      AddEdgeNodesSymmetric(t, nodesList[i - 1], nodesList[i]);
    }
  }

  /** The remaining Node turns, where defined, keep an undirected store undirected and symmetric. */
  lemma PathNodesFromSymmetric(s: State, nodesList: seq<Node>, i: nat)
    requires Valid(s) && !s.directed && SymmetricById(s.graph) && i <= |nodesList|
    ensures PathNodesFrom(s, nodesList, i).Some? ==>
              !PathNodesFrom(s, nodesList, i).value.directed && SymmetricById(PathNodesFrom(s, nodesList, i).value.graph)
  {
    forall x: State, j: nat | Valid(x) && j < |nodesList| && !x.directed && SymmetricById(x.graph) && PathNodesStep(x, nodesList, j).Some?
      ensures !PathNodesStep(x, nodesList, j).value.directed && SymmetricById(PathNodesStep(x, nodesList, j).value.graph)
    {
      PathNodesStepSymmetric(x, nodesList, j);
    }
    PathNodesFromInductionWhereDefined((x: State, j: nat) => !x.directed && SymmetricById(x.graph), s, nodesList, i);
  }

  /** add_path and add_cycle over Nodes, where defined, keep an undirected store symmetric. */
  lemma NodeListSymmetric(s: State, nodesList: seq<Node>)
    requires Valid(s) && !s.directed && SymmetricById(s.graph)
    ensures AddPathNodes(s, nodesList).Some? ==> SymmetricById(AddPathNodes(s, nodesList).value.graph)
    ensures AddCycleNodes(s, nodesList).Some? ==> SymmetricById(AddCycleNodes(s, nodesList).value.graph)
  {
    PathNodesFromSymmetric(s, nodesList, 0);
    if |nodesList| > 0 && AddPathNodes(s, nodesList).Some? {
      var p := AddPathNodes(s, nodesList).value;
      assert AddCycleNodes(s, nodesList) == AddEdgeNodes(p, nodesList[|nodesList| - 1], nodesList[0]);
      if AddCycleNodes(s, nodesList).Some? {
        AddEdgeNodesSymmetric(p, nodesList[|nodesList| - 1], nodesList[0]);
      }
    }
  }
}
