/**
 * The `graphw::Graph` class: an adjacency store whose methods update its
 * fields in place. Each method is proved to leave the fields as the value
 * model in GraphState and GraphPaths prescribes for that call.
 */
module Graphw {
  import opened Decimal
  import opened GraphState
  import opened GraphPaths

  class Graph {
    /** One neighbour list per node, indexed by node id. */
    var graph: seq<seq<Node>>
    /** The registered labels (`std::set<std::string> labels`). */
    var labels: set<string>
    /** Label to id (`std::unordered_map<std::string, int> identities`). */
    var identities: map<string, int>
    /** The add_edge call counter. */
    var edges: int
    /** `directed_`. */
    var isDirected: bool

    /** The fields as a value. */
    function Abs(): State
      reads this
    {
      State(graph, labels, identities, edges, isDirected)
    }

    /**
     * The object invariant: the value invariant, and no two registered labels
     * share an id. The constructor establishes it and every method keeps it.
     */
    predicate Valid()
      reads this
    {
      GraphState.Valid(Abs()) && IdsDistinct(Abs())
    }

    /** `Graph(bool new_directed_ = false)`: no nodes, no edges. */
    constructor(newDirected: bool := false)
      ensures Abs() == Empty(newDirected) && Valid()
    {
      graph := [];
      labels := {};
      identities := map[];
      edges := 0;
      isDirected := newDirected;
    }

    /**
     * `add_node(label)`: an empty label becomes the decimal id; a new label
     * gets the next id and an empty row, a duplicate gets the Sentinel.
     */
    method AddNode(name: string := "") returns (node: Node)
      requires Valid()
      modifies this
      ensures Added(Abs(), node) == GraphState.AddNode(old(Abs()), name)
      ensures Valid()
    {
      AddNodeIdsDistinct(Abs(), name);
      var id := |graph|;
      var l := name;
      if l == "" {
        l := NatToString(id);
      }
      node := GetNode(Abs(), l);
      if l !in labels {
        labels := labels + {l};
        graph := graph + [[]];
        identities := identities[l := id];
        return;
      }
      node := Sentinel;
    }

    /** `identities[label]`, which inserts 0 for a missing label. */
    method Identity(name: string) returns (id: int)
      requires Valid()
      modifies this
      ensures (Abs(), id) == Index(old(Abs()), name)
      ensures Valid()
    {
      IndexIdsDistinct(Abs(), name);
      if name in identities {
        id := identities[name];
      } else {
        identities := identities[name := 0];
        id := 0;
      }
    }

    /** `does_node_exist(node)`: the node's id against operator[] on its label. */
    method DoesNodeExist(node: Node) returns (exists_: bool)
      requires Valid()
      modifies this
      ensures (Abs(), exists_) == NodeExists(old(Abs()), node)
      ensures Valid()
    {
      var expectedId := Identity(node.name);
      exists_ := node.id == expectedId;
    }

    /** `if (labels.find(label) == labels.end()) add_node(label);` */
    method RegisterIfMissing(name: string)
      requires Valid()
      modifies this
      ensures Abs() == RegisterMissing(old(Abs()), name)
      ensures Valid()
    {
      if name !in labels {
        var ignored := AddNode(name);
      }
    }

    /** `add_edge(label1, label2)`. */
    method AddEdge(label1: string, label2: string)
      requires Valid()
      modifies this
      ensures Abs() == GraphState.AddEdge(old(Abs()), label1, label2)
      ensures Valid()
    {
      PrepareLabels(label1, label2);
      LinkLabels(label1, label2);
    }

    /** The first half of `add_edge(label1, label2)`: count the call, then register both labels if missing. */
    method PrepareLabels(label1: string, label2: string)
      requires Valid()
      modifies this
      ensures Abs() == Prepared(old(Abs()), label1, label2)
      ensures Valid()
    {
      CountEdge();
      ghost var s0 := Abs();
      RegisterIfMissing(label1);
      ghost var s1 := Abs();
      RegisterIfMissing(label2);
      assert Abs() == RegisterMissing(s1, label2) && s1 == RegisterMissing(s0, label1);
      PreparedState(old(Abs()), label1, label2);
    }

    /** `edges++`: only the counter changes. */
    method CountEdge()
      requires Valid()
      modifies this
      ensures Abs() == old(Abs()).(edges := old(Abs()).edges + 1) && Valid()
    {
      edges := edges + 1;
    }

    /** The second half of `add_edge(label1, label2)`: both ids through operator[], then the two appends. */
    method LinkLabels(label1: string, label2: string)
      requires Valid() && Readable(Abs(), label1) && Readable(Abs(), label2)
      modifies this
      ensures Abs() == Link(old(Abs()), label1, label2)
      ensures Valid()
    {
      var id1 := Identity(label1);
      IndexInRange(old(Abs()), label1);
      ghost var t1 := Abs();
      var id2 := Identity(label2);
      IndexInRange(t1, label2);
      graph := graph[id1 := graph[id1] + [Node(id2, label2)]];
      if !isDirected {
        graph := graph[id2 := graph[id2] + [Node(id1, label1)]];
      }
    }

    /** The appending half of the Node overload, on the resolved Nodes. */
    method PushEnds(node1: Node, node2: Node)
      requires Valid() && CanPush(Abs(), node1, node2)
      modifies this
      ensures Abs() == Push(old(Abs()), node1, node2)
      ensures Valid()
    {
      graph := graph[node1.id := graph[node1.id] + [node2]];
      if !isDirected {
        graph := graph[node2.id := graph[node2.id] + [node1]];
      }
    }

    /**
     * `add_edge(node1, node2)`. The source indexes `graph` with the resolved
     * ids unchecked, so the call is only given where they are in range.
     */
    method AddEdgeNodes(node1: Node, node2: Node)
      requires Valid() && GraphState.AddEdgeNodes(Abs(), node1, node2).Some?
      modifies this
      ensures Abs() == GraphState.AddEdgeNodes(old(Abs()), node1, node2).value
      ensures Valid()
    {
      edges := edges + 1;
      ghost var s0 := Abs();
      var n1 := node1;
      var n2 := node2;
      var exists1 := DoesNodeExist(n1);
      if !exists1 {
        n1 := AddNode(node1.name);
      }
      ghost var s1 := Abs();
      assert Added(s1, n1) == Resolve(s0, node1);
      var exists2 := DoesNodeExist(n2);
      if !exists2 {
        n2 := AddNode(node2.name);
      }
      assert Added(Abs(), n2) == Resolve(s1, node2);
      ResolveEndsState(old(Abs()), node1, node2);
      AddEdgeNodesState(old(Abs()), node1, node2);
      PushEnds(n1, n2);
    }

    /**
     * One turn of the add_path and add_cycle loops over labels: register the
     * label if missing, then, after the first turn, the edge from the previous label.
     */
    method PathTurn(labelsList: seq<string>, currentLabel: nat, previousLabel: string)
      requires Valid() && currentLabel < |labelsList|
      requires currentLabel > 0 ==> previousLabel == labelsList[currentLabel - 1]
      modifies this
      ensures Abs() == PathStep(old(Abs()), labelsList, currentLabel)
      ensures Valid()
    {
      var l := labelsList[currentLabel];
      RegisterIfMissing(l);
      if currentLabel > 0 {
        AddEdge(previousLabel, l);
      }
    }

    /** `add_path(labels_list)`. */
    method AddPath(labelsList: seq<string>)
      requires Valid()
      modifies this
      ensures Abs() == GraphPaths.AddPath(old(Abs()), labelsList)
      ensures Valid()
    {
      var previousLabel := "";
      for currentLabel := 0 to |labelsList|
        invariant Valid()
        invariant PathFrom(Abs(), labelsList, currentLabel) == GraphPaths.AddPath(old(Abs()), labelsList)
        invariant currentLabel > 0 ==> previousLabel == labelsList[currentLabel - 1]
      {
        PathFromUnfold(Abs(), labelsList, currentLabel);
        PathTurn(labelsList, currentLabel, previousLabel);
        previousLabel := labelsList[currentLabel];
      }
    }

    /**
     * One turn of the add_path and add_cycle loops over Nodes: the existence
     * test (add_node if it fails), then, after the first turn, the Node
     * overload of add_edge with the previous Node as the caller gave it.
     */
    method PathNodesTurn(nodesList: seq<Node>, currentNode: nat, previousNode: Node)
      requires Valid() && currentNode < |nodesList|
      requires PathNodesStep(Abs(), nodesList, currentNode).Some?
      requires currentNode > 0 ==> previousNode == nodesList[currentNode - 1]
      modifies this
      ensures Abs() == PathNodesStep(old(Abs()), nodesList, currentNode).value
      ensures Valid()
    {
      var node := nodesList[currentNode];
      var exists_ := DoesNodeExist(node);
      if !exists_ {
        var ignored := AddNode(node.name);
      }
      assert Abs() == Resolve(old(Abs()), node).state;
      if currentNode > 0 {
        AddEdgeNodes(previousNode, node);
      }
    }

    /** `add_path(nodes_list)`, given where every turn stays in range. */
    method AddPathNodes(nodesList: seq<Node>)
      requires Valid() && GraphPaths.AddPathNodes(Abs(), nodesList).Some?
      modifies this
      ensures Abs() == GraphPaths.AddPathNodes(old(Abs()), nodesList).value
      ensures Valid()
    {
      var previousNode := Node(0, "");
      for currentNode := 0 to |nodesList|
        invariant Valid()
        invariant PathNodesFrom(Abs(), nodesList, currentNode) == GraphPaths.AddPathNodes(old(Abs()), nodesList)
        invariant currentNode > 0 ==> previousNode == nodesList[currentNode - 1]
      {
        PathNodesFromUnfold(Abs(), nodesList, currentNode);
        PathNodesTurn(nodesList, currentNode, previousNode);
        previousNode := nodesList[currentNode];
      }
    }

    /** `add_cycle(labels_list)`. */
    method AddCycle(labelsList: seq<string>)
      requires Valid()
      modifies this
      ensures Abs() == GraphPaths.AddCycle(old(Abs()), labelsList)
      ensures Valid()
    {
      if |labelsList| > 0 {
        var previousLabel, firstLabel := CycleLoop(labelsList);
        AddEdge(previousLabel, firstLabel);
      }
    }

    /** The loop of `add_cycle(labels_list)`: the path turns, remembering the first and the last label. */
    method CycleLoop(labelsList: seq<string>) returns (previousLabel: string, firstLabel: string)
      requires Valid() && |labelsList| > 0
      modifies this
      ensures Abs() == GraphPaths.AddPath(old(Abs()), labelsList)
      ensures previousLabel == labelsList[|labelsList| - 1] && firstLabel == labelsList[0]
      ensures Valid()
    {
      previousLabel := "";
      firstLabel := "";
      for currentLabel := 0 to |labelsList|
        invariant Valid()
        invariant PathFrom(Abs(), labelsList, currentLabel) == GraphPaths.AddPath(old(Abs()), labelsList)
        invariant currentLabel > 0 ==> previousLabel == labelsList[currentLabel - 1] && firstLabel == labelsList[0]
      {
        PathFromUnfold(Abs(), labelsList, currentLabel);
        firstLabel := CycleTurn(labelsList, currentLabel, previousLabel, firstLabel);
        previousLabel := labelsList[currentLabel];
      }
    }

    /** One turn of the add_cycle loop over labels: a path turn that keeps the first label on the first turn. */
    method CycleTurn(labelsList: seq<string>, currentLabel: nat, previousLabel: string, firstLabel: string) returns (newFirst: string)
      requires Valid() && currentLabel < |labelsList|
      requires currentLabel > 0 ==> previousLabel == labelsList[currentLabel - 1] && firstLabel == labelsList[0]
      modifies this
      ensures Abs() == PathStep(old(Abs()), labelsList, currentLabel)
      ensures newFirst == labelsList[0]
      ensures Valid()
    {
      PathTurn(labelsList, currentLabel, previousLabel);
      if currentLabel > 0 {
        newFirst := firstLabel;
      } else {
        newFirst := labelsList[currentLabel];
      }
    }

    /** `add_cycle(nodes_list)`, given where every turn stays in range. */
    method AddCycleNodes(nodesList: seq<Node>)
      requires Valid() && GraphPaths.AddCycleNodes(Abs(), nodesList).Some?
      modifies this
      ensures Abs() == GraphPaths.AddCycleNodes(old(Abs()), nodesList).value
      ensures Valid()
    {
      if |nodesList| > 0 {
        var previousNode, firstNode := NodesCycleLoop(nodesList);
        AddEdgeNodes(previousNode, firstNode);
      }
    }

    /** The loop of `add_cycle(nodes_list)`: the path turns, remembering the first and the last Node. */
    method NodesCycleLoop(nodesList: seq<Node>) returns (previousNode: Node, firstNode: Node)
      requires Valid() && |nodesList| > 0 && GraphPaths.AddPathNodes(Abs(), nodesList).Some?
      modifies this
      ensures Abs() == GraphPaths.AddPathNodes(old(Abs()), nodesList).value
      ensures previousNode == nodesList[|nodesList| - 1] && firstNode == nodesList[0]
      ensures Valid()
    {
      previousNode := Node(0, "");
      firstNode := Node(0, "");
      for currentNode := 0 to |nodesList|
        invariant Valid()
        invariant PathNodesFrom(Abs(), nodesList, currentNode) == GraphPaths.AddPathNodes(old(Abs()), nodesList)
        invariant currentNode > 0 ==> previousNode == nodesList[currentNode - 1] && firstNode == nodesList[0]
      {
        PathNodesFromUnfold(Abs(), nodesList, currentNode);
        firstNode := NodesCycleTurn(nodesList, currentNode, previousNode, firstNode);
        previousNode := nodesList[currentNode];
      }
    }

    /** One turn of the add_cycle loop over Nodes: a path turn that keeps the first Node on the first turn. */
    method NodesCycleTurn(nodesList: seq<Node>, currentNode: nat, previousNode: Node, firstNode: Node) returns (newFirst: Node)
      requires Valid() && currentNode < |nodesList| && PathNodesStep(Abs(), nodesList, currentNode).Some?
      requires currentNode > 0 ==> previousNode == nodesList[currentNode - 1] && firstNode == nodesList[0]
      modifies this
      ensures Abs() == PathNodesStep(old(Abs()), nodesList, currentNode).value
      ensures newFirst == nodesList[0]
      ensures Valid()
    {
      PathNodesTurn(nodesList, currentNode, previousNode);
      if currentNode > 0 {
        newFirst := firstNode;
      } else {
        newFirst := nodesList[currentNode];
      }
    }

    /** `clear()`: no nodes, no labels, no table entries, counter 0; the flag stays. */
    method Clear()
      modifies this
      ensures Abs() == Empty(old(isDirected)) && Valid()
    {
      graph := [];
      labels := {};
      identities := map[];
      edges := 0;
    }

    /** `set_directed(new_directed_)`: only the flag changes. */
    method SetDirected(newDirected: bool)
      requires Valid()
      modifies this
      ensures Abs() == old(Abs()).(directed := newDirected) && Valid()
    {
      isDirected := newDirected;
    }

    /** `number_of_nodes()`: the row count, which is also the number of registered labels. */
    method NumberOfNodes() returns (n: int)
      requires Valid()
      ensures n == |graph| == |labels|
    {
      n := |graph|;
    }

    /** `number_of_edges()`: the add_edge call counter, duplicates and refused ends included. */
    method NumberOfEdges() returns (n: int)
      requires Valid()
      ensures n == edges && n >= 0
    {
      n := edges;
    }

    /** `directed()`. */
    method Directed() returns (d: bool)
      ensures d == isDirected
    {
      d := isDirected;
    }
  }
}
