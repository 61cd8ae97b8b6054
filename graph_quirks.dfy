/**
 * Two concrete runs of the Node overload of `add_edge` that show what the
 * existence test does with ids it does not expect.
 */
module GraphQuirks {
  import opened Decimal
  import opened GraphState
  import opened GraphPaths

  /** Nodes "a" (id 0) and "b" (id 1) on an undirected store. */
  function TwoNodes(): (s: State)
    ensures Valid(s)
    ensures s.graph == [[], []] && s.labels == {"a", "b"} && s.identities == map["a" := 0, "b" := 1]
    ensures s.edges == 0 && !s.directed
  {
    var s1 := AddNode(Empty(false), "a").state;
    assert "a" in s1.labels && |s1.graph| == 1;
    AddNode(s1, "b").state
  }

  /**
   * `add_edge({1, "a"}, {1, "b"})` with "a" registered under id 0: the first
   * end fails the existence test, `add_node("a")` refuses the duplicate and
   * hands back {0, ""}, and that Sentinel is what lands in row 1, while "b"
   * is appended to row 0, the Sentinel's id.
   */
  lemma SentinelReachesAdjacency()
    ensures var r := AddEdgeNodes(TwoNodes(), Node(1, "a"), Node(1, "b"));
      && r.Some?
      && r.value.graph == [[Node(1, "b")], [Sentinel]]
      && r.value.labels == {"a", "b"} && r.value.edges == 1
  {
    var s := TwoNodes();
    assert s.identities["a"] == 0 && s.identities["b"] == 1;
    AddEdgeNodesRegistered(s, Node(1, "a"), Node(1, "b"));
    var r := AddEdgeNodes(s, Node(1, "a"), Node(1, "b")).value;
    SentinelEndRows(s.graph, r.graph);
  }

  /** The rows of SentinelReachesAdjacency: "b" appended to row 0, the Sentinel to row 1. */
  lemma SentinelEndRows(before: seq<seq<Node>>, after: seq<seq<Node>>)
    requires before == [[], []] && |after| == 2
    requires RowsAppended(before, after, Sentinel, Node(1, "b"), false)
    ensures after == [[Node(1, "b")], [Sentinel]]
  {
    var e: seq<Node> := [];
    assert after[0] == Row(before, 0) + [Node(1, "b")] + e;
    assert after[1] == Row(before, 1) + e + [Sentinel];
    assert after[0] == [Node(1, "b")] && after[1] == [Sentinel];
  }

  /**
   * `add_edge({0, "1"}, {1, "2"})` on an empty undirected store: operator[]
   * reads the unregistered "1" as id 0, so {0, "1"} "exists" without being
   * added; "2" is added as node 0, and row 0 receives both ends. The table
   * keeps the phantom entry "1" -> 0 although "1" is no label.
   */
  lemma PhantomEntry()
    ensures var r := AddEdgeNodes(Empty(false), Node(0, "1"), Node(1, "2"));
      && r.Some?
      && r.value.graph == [[Node(0, "2"), Node(0, "1")]]
      && r.value.labels == {"2"}
      && r.value.identities == map["1" := 0, "2" := 0]
      && r.value.edges == 1
  {
    var s := Empty(false);
    var n1, n2 := Node(0, "1"), Node(1, "2");
    var s0 := s.(edges := s.edges + 1);
    ResolveUnregistered(s0, n1);
    var t1 := s0.(identities := s0.identities[n1.name := 0]);
    ResolveUnregistered(t1, n2);
    ResolveFacts(t1, n2);
    var a2 := Resolve(t1, n2);
    assert a2.node == Node(0, "2") && a2.state.labels == {"2"};
    assert a2.state.identities == map["1" := 0, "2" := 0];
    assert a2.state.graph == [[]] by {
      assert |a2.state.graph| == 1 && a2.state.graph[0] == Row(t1.graph, 0) == [];
    }
    ResolveEndsState(s, n1, n2);
    AddEdgeNodesState(s, n1, n2);
    var e := ResolveEnds(s, n1, n2);
    assert e == Ends(a2.state, n1, a2.node);
    assert CanPush(e.state, e.first, e.second);
    assert !e.state.directed;
    var row: seq<Node> := [];
    assert row + [Node(0, "2")] == [Node(0, "2")];
    assert [Node(0, "2")] + [Node(0, "1")] == [Node(0, "2"), Node(0, "1")];
    var g := e.state.graph[0 := e.state.graph[0] + [Node(0, "2")]];
    assert g == [[Node(0, "2")]];
    assert Push(e.state, e.first, e.second).graph == g[0 := g[0] + [Node(0, "1")]];
  }

  /**
   * `add_edge("", "x")` on the store of TwoNodes: the empty label1 is not
   * registered, so add_node defaults it to "2" (the next id) and adds that
   * node; "x" is added as node 3; but node1 is then read as
   * `{identities[""], ""}`, which operator[] makes the phantom {0, ""}. Row 0
   * receives "x" and row 3 the phantom, while row 2 of the node just added
   * stays empty.
   */
  lemma EmptyLabelEdge()
    ensures var r := AddEdge(TwoNodes(), "", "x");
      && r.graph == [[Node(3, "x")], [], [], [Node(0, "")]]
      && r.labels == {"a", "b", "2", "x"}
      && r.identities == map["a" := 0, "b" := 1, "2" := 2, "x" := 3, "" := 0]
      && r.edges == 1
  {
    var s := TwoNodes();
    var u := State([[], [], [], []], {"a", "b", "2", "x"}, map["a" := 0, "b" := 1, "2" := 2, "x" := 3], 1, false);
    EmptyLabelPrepared();
    assert AddEdge(s, "", "x") == Link(u, "", "x");
    var i1 := Index(u, "");
    var i2 := Index(i1.0, "x");
    assert i1.1 == 0 && i2.1 == 3;
    var r := AddEdge(s, "", "x");
    assert r == Push(i2.0, Node(0, ""), Node(3, "x"));
    assert r.identities == map["a" := 0, "b" := 1, "2" := 2, "x" := 3, "" := 0];
    AddEdgeRows(s, "", "x");
    PhantomEndRows(s.graph, r.graph);
  }

  /** The first half of EmptyLabelEdge: the empty label registers as "2", then "x" as 3. */
  lemma EmptyLabelPrepared()
    ensures Prepared(TwoNodes(), "", "x")
         == State([[], [], [], []], {"a", "b", "2", "x"}, map["a" := 0, "b" := 1, "2" := 2, "x" := 3], 1, false)
  {
    var s := TwoNodes();
    var u1 := State([[], [], []], {"a", "b", "2"}, map["a" := 0, "b" := 1, "2" := 2], 1, false);
    EmptyLabelRegistered(s.(edges := s.edges + 1));
    LabelXRegistered(u1);
    PreparedState(s, "", "x");
  }

  /** add_node("") on TwoNodes: the label becomes "2", the next id. */
  lemma EmptyLabelRegistered(s0: State)
    requires s0 == State([[], []], {"a", "b"}, map["a" := 0, "b" := 1], 1, false)
    ensures RegisterMissing(s0, "") == State([[], [], []], {"a", "b", "2"}, map["a" := 0, "b" := 1, "2" := 2], 1, false)
  {
    assert NatToString(2) == "2";
    assert DefaultLabel(s0, "") == "2";
  }

  /** add_node("x") next: id 3. */
  lemma LabelXRegistered(u1: State)
    requires u1 == State([[], [], []], {"a", "b", "2"}, map["a" := 0, "b" := 1, "2" := 2], 1, false)
    ensures RegisterMissing(u1, "x") == State([[], [], [], []], {"a", "b", "2", "x"}, map["a" := 0, "b" := 1, "2" := 2, "x" := 3], 1, false)
  {
  }

  /** The rows of EmptyLabelEdge: "x" appended to row 0, the phantom {0, ""} to row 3. */
  lemma PhantomEndRows(before: seq<seq<Node>>, after: seq<seq<Node>>)
    requires before == [[], []] && |after| == 4
    requires RowsAppended(before, after, Node(0, ""), Node(3, "x"), false)
    ensures after == [[Node(3, "x")], [], [], [Node(0, "")]]
  {
    var e: seq<Node> := [];
    assert after[0] == Row(before, 0) + [Node(3, "x")] + e;
    assert after[1] == Row(before, 1) + e + e;
    assert after[2] == Row(before, 2) + e + e;
    assert after[3] == Row(before, 3) + e + [Node(0, "")];
    assert after[0] == [Node(3, "x")] && after[1] == e && after[2] == e && after[3] == [Node(0, "")];
  }

  /**
   * `add_path` over the three Nodes {0, "0"}, {1, "1"}, {2, "2"} on an empty
   * undirected store, the pattern of the repository's own tests: operator[]
   * reads "0" as id 0, so {0, "0"} passes the existence test unregistered and
   * is never added; "1" and "2" are added under ids 0 and 1, one below the
   * ids the list gives them, so every later test fails and add_node hands
   * back the Sentinel. Two nodes, not three, and row 0 takes every append.
   */
  lemma PhantomPath()
    ensures var r := AddPathNodes(Empty(false), [Node(0, "0"), Node(1, "1"), Node(2, "2")]);
      && r.Some?
      && r.value.graph == [[Sentinel, Node(0, "0"), Sentinel, Sentinel], []]
      && r.value.labels == {"1", "2"}
      && r.value.edges == 2
  {
    var ns := [Node(0, "0"), Node(1, "1"), Node(2, "2")];
    var x0 := Empty(false);
    var x1 := State([], {}, map["0" := 0], 0, false);
    var x2 := State([[Sentinel, Node(0, "0")]], {"1"}, map["0" := 0, "1" := 0], 1, false);
    var x3 := State([[Sentinel, Node(0, "0"), Sentinel, Sentinel], []], {"1", "2"}, map["0" := 0, "1" := 0, "2" := 1], 2, false);
    PhantomTurn0(ns);
    PhantomTurn1(ns, x1);
    PhantomTurn2(ns, x2);
    PathNodesFromUnfold(x0, ns, 0);
    PathNodesFromUnfold(x1, ns, 1);
    PathNodesFromUnfold(x2, ns, 2);
    assert PathNodesFrom(x3, ns, 3) == Some(x3);
  }

  /** Turn 0 of PhantomPath: {0, "0"} "exists"; only the phantom table entry appears. */
  lemma PhantomTurn0(ns: seq<Node>)
    requires ns == [Node(0, "0"), Node(1, "1"), Node(2, "2")]
    ensures PathNodesStep(Empty(false), ns, 0) == Some(State([], {}, map["0" := 0], 0, false))
  {
    ResolveUnregistered(Empty(false), ns[0]);
  }

  /** Turn 1 of PhantomPath: "1" is added as node 0, then add_edge({0, "0"}, {1, "1"}) pushes onto row 0 twice. */
  lemma PhantomTurn1(ns: seq<Node>, x1: State)
    requires ns == [Node(0, "0"), Node(1, "1"), Node(2, "2")]
    requires x1 == State([], {}, map["0" := 0], 0, false)
    ensures PathNodesStep(x1, ns, 1) == Some(State([[Sentinel, Node(0, "0")]], {"1"}, map["0" := 0, "1" := 0], 1, false))
  {
    assert PathNodesStep(x1, ns, 1) == AddEdgeNodes(Resolve(x1, ns[1]).state, ns[0], ns[1]);
    var t1 := State([[]], {"1"}, map["0" := 0, "1" := 0], 0, false);
    PhantomAdded(x1, ns[1], t1);
    PhantomEdge(t1, ns[0], ns[1]);
  }

  /** add_edge({0, "0"}, {1, "1"}) of turn 1: the phantom {0, "0"} and the Sentinel both land in row 0. */
  lemma PhantomEdge(t1: State, node1: Node, node2: Node)
    requires t1 == State([[]], {"1"}, map["0" := 0, "1" := 0], 0, false)
    requires node1 == Node(0, "0") && node2 == Node(1, "1")
    ensures AddEdgeNodes(t1, node1, node2) == Some(State([[Sentinel, Node(0, "0")]], {"1"}, map["0" := 0, "1" := 0], 1, false))
  {
    var c0 := t1.(edges := 1);
    PhantomEnds(t1, node1, node2);
    AddEdgeNodesState(t1, node1, node2);
    assert CanPush(c0, node1, Sentinel);
    PhantomPush(c0, node1);
  }

  /** The ends of turn 1's add_edge: the phantom {0, "0"} passes the test, {1, "1"} becomes the Sentinel. */
  lemma PhantomEnds(t1: State, node1: Node, node2: Node)
    requires t1 == State([[]], {"1"}, map["0" := 0, "1" := 0], 0, false)
    requires node1 == Node(0, "0") && node2 == Node(1, "1")
    ensures ResolveEnds(t1, node1, node2) == Ends(t1.(edges := 1), node1, Sentinel)
  {
    var c0 := t1.(edges := 1);
    ResolveUnregistered(c0, node1);
    assert c0.identities["0" := 0] == c0.identities;
    assert Resolve(c0, node1) == Added(c0, node1);
    ResolveRegistered(c0, node2);
    ResolveEndsState(t1, node1, node2);
  }

  /** Pushing {0, "0"} and the Sentinel on an undirected single empty row. */
  lemma PhantomPush(c0: State, node1: Node)
    requires c0 == State([[]], {"1"}, map["0" := 0, "1" := 0], 1, false) && node1 == Node(0, "0")
    ensures Push(c0, node1, Sentinel) == c0.(graph := [[Sentinel, Node(0, "0")]])
  {
    var row: seq<Node> := [];
    assert row + [Sentinel] == [Sentinel];
    assert [Sentinel] + [Node(0, "0")] == [Sentinel, Node(0, "0")];
    var g := c0.graph[0 := c0.graph[0] + [Sentinel]];
    assert g == [[Sentinel]];
    assert Push(c0, node1, Sentinel).graph == g[0 := g[0] + [Node(0, "0")]];
  }

  /** The existence test of turn 1: "1" is read as the phantom id 0, not 1, so add_node registers it as node 0. */
  lemma PhantomAdded(x1: State, node: Node, t1: State)
    requires x1 == State([], {}, map["0" := 0], 0, false) && node == Node(1, "1")
    requires t1 == State([[]], {"1"}, map["0" := 0, "1" := 0], 0, false)
    ensures Resolve(x1, node).state == t1
  {
    ResolveUnregistered(x1, node);
    ResolveFacts(x1, node);
    var t := Resolve(x1, node).state;
    assert t.graph == [[]] by {
      assert |t.graph| == 1 && t.graph[0] == Row(x1.graph, 0);
    }
  }

  /** Turn 2 of PhantomPath: "2" is added as node 1; both ends then fail the test and row 0 takes two Sentinels. */
  lemma PhantomTurn2(ns: seq<Node>, x2: State)
    requires ns == [Node(0, "0"), Node(1, "1"), Node(2, "2")]
    requires x2 == State([[Sentinel, Node(0, "0")]], {"1"}, map["0" := 0, "1" := 0], 1, false)
    ensures PathNodesStep(x2, ns, 2)
         == Some(State([[Sentinel, Node(0, "0"), Sentinel, Sentinel], []], {"1", "2"}, map["0" := 0, "1" := 0, "2" := 1], 2, false))
  {
    var t2 := State([[Sentinel, Node(0, "0")], []], {"1", "2"}, map["0" := 0, "1" := 0, "2" := 1], 1, false);
    SecondAdded(x2, ns[2], t2);
    AddEdgeNodesRegistered(t2, ns[1], ns[2]);
    var x3 := AddEdgeNodes(t2, ns[1], ns[2]).value;
    SentinelPairRows(t2.graph, x3.graph);
  }

  /** The existence test of turn 2: "2" is unregistered with id 2, so add_node registers it as node 1. */
  lemma SecondAdded(x2: State, node: Node, t2: State)
    requires x2 == State([[Sentinel, Node(0, "0")]], {"1"}, map["0" := 0, "1" := 0], 1, false) && node == Node(2, "2")
    requires t2 == State([[Sentinel, Node(0, "0")], []], {"1", "2"}, map["0" := 0, "1" := 0, "2" := 1], 1, false)
    ensures Resolve(x2, node).state == t2
  {
    ResolveUnregistered(x2, node);
    ResolveFacts(x2, node);
    var t := Resolve(x2, node).state;
    assert t.graph == [[Sentinel, Node(0, "0")], []] by {
      assert |t.graph| == 2 && t.graph[0] == Row(x2.graph, 0) && t.graph[1] == Row(x2.graph, 1);
    }
  }

  /** The rows of turn 2: two Sentinels appended to row 0, nothing to row 1. */
  lemma SentinelPairRows(before: seq<seq<Node>>, after: seq<seq<Node>>)
    requires before == [[Sentinel, Node(0, "0")], []] && |after| == 2
    requires RowsAppended(before, after, Sentinel, Sentinel, false)
    ensures after == [[Sentinel, Node(0, "0"), Sentinel, Sentinel], []]
  {
    var e: seq<Node> := [];
    assert after[0] == Row(before, 0) + [Sentinel] + [Sentinel];
    assert after[1] == Row(before, 1) + e + e;
    assert after[0] == [Sentinel, Node(0, "0"), Sentinel, Sentinel] && after[1] == e;
  }
}
