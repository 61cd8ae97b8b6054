/**
 * The state of a `graphw::Graph` as a value, and each primitive that changes
 * it (add_node, the operator[] lookup, add_edge in both overloads) as a
 * function from the old state to the new one. The class in module Graphw
 * runs the same steps imperatively and is proved equal to these.
 */
module GraphState {
  import opened Decimal

  datatype Option<T> = None | Some(value: T)

  /** `graphw::Node`: an id and a label, copied by value into adjacency rows. */
  datatype Node = Node(id: int, name: string)

  /** What `add_node` hands back for a label that is already registered. */
  const Sentinel: Node := Node(0, "")

  /**
   * The members of `Graph`: adjacency rows indexed by id, the set of
   * registered labels, the label-to-id table (which may hold entries for
   * unregistered labels, see Index), the add_edge call counter, the flag.
   */
  datatype State = State(
    graph: seq<seq<Node>>,
    labels: set<string>,
    identities: map<string, int>,
    edges: int,
    directed: bool)

  /**
   * The invariant every reachable store keeps: one row per registered label,
   * every registered label has an id that indexes a row, the empty label is
   * never registered, the counter is not negative, and an entry for an
   * unregistered label is 0 (the value operator[] inserts).
   */
  predicate Valid(s: State) {
    && |s.labels| == |s.graph|
    && "" !in s.labels
    && s.edges >= 0
    && (forall l :: l in s.labels ==> l in s.identities && 0 <= s.identities[l] < |s.graph|)
    && (forall l :: l in s.identities && l !in s.labels ==> s.identities[l] == 0)
  }

  /** No two registered labels share an id. */
  predicate IdsDistinct(s: State) {
    forall l, m {:trigger s.identities[l], s.identities[m]} ::
      l in s.labels && m in s.labels && l in s.identities && m in s.identities && l != m ==>
      s.identities[l] != s.identities[m]
  }

  /** A new `Graph(directed)`, and what `clear()` leaves apart from the flag. */
  function Empty(directed: bool): (s: State)
    ensures Valid(s) && IdsDistinct(s)
    ensures |s.graph| == 0 && s.labels == {} && s.identities == map[] && s.edges == 0 && s.directed == directed
  {
    State([], {}, map[], 0, directed)
  }

  /** Row `i` of `g`, or no neighbours for an index past its end. */
  function Row(g: seq<seq<Node>>, i: int): seq<Node> {
    if 0 <= i < |g| then g[i] else []
  }

  /** `after` keeps every row of `before` and adds only empty rows. */
  predicate Grown(before: seq<seq<Node>>, after: seq<seq<Node>>) {
    |before| <= |after| && forall i :: 0 <= i < |after| ==> after[i] == Row(before, i)
  }

  lemma GrownTrans(a: seq<seq<Node>>, b: seq<seq<Node>>, c: seq<seq<Node>>)
    requires Grown(a, b) && Grown(b, c)
    ensures Grown(a, c)
  {
    forall i | 0 <= i < |c| ensures c[i] == Row(a, i) {
      assert c[i] == Row(b, i);
    }
  }

  /** `after` keeps every row of `before` as a prefix of its own row, and may add rows. */
  predicate Extends(before: seq<seq<Node>>, after: seq<seq<Node>>) {
    |before| <= |after| && forall i :: 0 <= i < |before| ==> before[i] <= after[i]
  }

  lemma ExtendsTrans(a: seq<seq<Node>>, b: seq<seq<Node>>, c: seq<seq<Node>>)
    requires Extends(a, b) && Extends(b, c)
    ensures Extends(a, c)
  {
    forall i | 0 <= i < |a| ensures a[i] <= c[i] {
      assert a[i] <= b[i] && b[i] <= c[i];
    }
  }

  lemma GrownExtends(a: seq<seq<Node>>, b: seq<seq<Node>>)
    requires Grown(a, b)
    ensures Extends(a, b)
  {
    forall i | 0 <= i < |a| ensures a[i] <= b[i] {
      assert b[i] == Row(a, i);
    }
  }

  /** Adding empty rows, then appending to rows, loses nothing that was there. */
  lemma GrownAppendedExtends(a: seq<seq<Node>>, b: seq<seq<Node>>, c: seq<seq<Node>>, node1: Node, node2: Node, directed: bool)
    requires Grown(a, b) && RowsAppended(b, c, node1, node2, directed)
    ensures Extends(a, c)
  {
    forall i | 0 <= i < |a| ensures a[i] <= c[i] {
      assert Row(b, i) == a[i];
      var x := if i == node1.id then [node2] else [];
      var y := if !directed && i == node2.id then [node1] else [];
      assert c[i] == a[i] + (x + y);
    }
  }

  /** `get_node(label)`: a Node with the given label and the next id. */
  function GetNode(s: State, name: string): Node {
    Node(|s.graph|, name)
  }

  /** The id get_node proposes is above every id a registered label holds. */
  lemma GetNodeFresh(s: State, name: string)
    requires Valid(s)
    ensures GetNode(s, name).name == name
    ensures forall l :: l in s.labels ==> s.identities[l] < GetNode(s, name).id
  {
  }

  /** The label `add_node(label)` works with: the empty label becomes the next id in decimal. */
  function DefaultLabel(s: State, name: string): (l: string)
    ensures l != ""
    ensures name != "" ==> l == name
  {
    if name == "" then NatToString(|s.graph|) else name
  }

  /** Result of `add_node`: the new state and the Node returned to the caller. */
  datatype Added = Added(state: State, node: Node)

  /**
   * `add_node(label)`: registers the (defaulted) label with the next id and an
   * empty row; a label already registered changes nothing and yields the
   * Sentinel instead of a node.
   */
  function AddNode(s: State, name: string): (r: Added)
    requires Valid(s)
    ensures r.state.edges == s.edges && r.state.directed == s.directed
    ensures DefaultLabel(s, name) in r.state.labels
    ensures (r.node == Sentinel) == (DefaultLabel(s, name) in s.labels)
    ensures r.node == Sentinel ==> r.state == s
    ensures r.node != Sentinel ==>
              && r.node == Node(|s.graph|, DefaultLabel(s, name))
              && r.state.labels == s.labels + {r.node.name}
              && r.state.graph == s.graph + [[]]
              && r.state.identities == s.identities[r.node.name := r.node.id]
    ensures Valid(r.state)
  {
    var id := |s.graph|;
    var l := DefaultLabel(s, name);
    var node := GetNode(s, l);
    if l !in s.labels then
      Added(s.(graph := s.graph + [[]], labels := s.labels + {l}, identities := s.identities[l := id]), node)
    else
      Added(s, Sentinel)
  }

  /** add_node keeps ids distinct: the new id is above every id in use. */
  lemma AddNodeIdsDistinct(s: State, name: string)
    requires Valid(s) && IdsDistinct(s)
    ensures IdsDistinct(AddNode(s, name).state)
  {
    var r := AddNode(s, name);
    if r.node != Sentinel {
      forall l, m | l in r.state.labels && m in r.state.labels && l in r.state.identities && m in r.state.identities && l != m
        ensures r.state.identities[l] != r.state.identities[m]
      {
        if l != r.node.name && m != r.node.name {
          assert r.state.identities[l] == s.identities[l];
          assert r.state.identities[m] == s.identities[m];
        }
      }
    }
  }

  /** The rows after add_node: the old ones and, for a new node, one empty row. */
  lemma AddNodeGrown(s: State, name: string)
    requires Valid(s)
    ensures Grown(s.graph, AddNode(s, name).state.graph)
  {
  }

  /**
   * `identities[label]` with std::unordered_map::operator[]: a label without an
   * entry first gets the entry 0, and the entry is read. Only the table changes,
   * and only at that label.
   */
  function Index(s: State, name: string): (r: (State, int))
    requires Valid(s)
    ensures r.0.graph == s.graph && r.0.labels == s.labels && r.0.edges == s.edges && r.0.directed == s.directed
    ensures r.0.identities == s.identities[name := r.1]
    ensures name in s.identities ==> r.1 == s.identities[name]
    ensures Valid(r.0)
    ensures name !in s.labels ==> r.1 == 0
    ensures name in s.labels ==> r.0 == s && 0 <= r.1 < |s.graph|
  {
    if name in s.identities then (s, s.identities[name]) else (s.(identities := s.identities[name := 0]), 0)
  }

  /** `if (labels.find(l) == labels.end()) add_node(l);` as add_edge and add_path write it. */
  function RegisterMissing(s: State, name: string): (r: State)
    requires Valid(s)
    ensures r.edges == s.edges && r.directed == s.directed
    ensures s.labels <= r.labels
    ensures name != "" ==> r.labels == s.labels + {name}
    ensures name == "" ==> r.labels != {}
    ensures |s.graph| <= |r.graph| <= |s.graph| + 1
    ensures Valid(r)
  {
    if name in s.labels then s else AddNode(s, name).state
  }

  /** Registering keeps every row, and every id a registered label had. */
  lemma RegisterMissingKeeps(s: State, name: string)
    requires Valid(s)
    ensures var r := RegisterMissing(s, name);
      && Grown(s.graph, r.graph)
      && forall l :: l in s.labels ==> l in r.identities && r.identities[l] == s.identities[l]
  {
    AddNodeGrown(s, name);
  }

  /** The ids a push writes need rows: always the first node's, and the second's unless directed. */
  predicate CanPush(s: State, node1: Node, node2: Node) {
    0 <= node1.id < |s.graph| && (!s.directed ==> 0 <= node2.id < |s.graph|)
  }

  /**
   * Row by row, `after` is `before` (padded with empty rows) with node2
   * appended to row node1.id and, unless directed, node1 then appended to row
   * node2.id; every other row is as it was.
   */
  predicate RowsAppended(before: seq<seq<Node>>, after: seq<seq<Node>>, node1: Node, node2: Node, directed: bool) {
    && |before| <= |after|
    && forall i :: 0 <= i < |after| ==>
         after[i] == Row(before, i) + (if i == node1.id then [node2] else [])
                                   + (if !directed && i == node2.id then [node1] else [])
  }

  /** `graph[node1.id].push_back(node2); if (!directed_) graph[node2.id].push_back(node1);` */
  function Push(s: State, node1: Node, node2: Node): (r: State)
    requires Valid(s) && CanPush(s, node1, node2)
    ensures r.labels == s.labels && r.identities == s.identities && r.edges == s.edges && r.directed == s.directed
    ensures |r.graph| == |s.graph|
    ensures Valid(r)
  {
    var g := s.graph[node1.id := s.graph[node1.id] + [node2]];
    s.(graph := if s.directed then g else g[node2.id := g[node2.id] + [node1]])
  }

  /** Pushing onto a grown copy of `before` appends to the rows of `before` itself. */
  lemma PushRows(before: seq<seq<Node>>, t: State, node1: Node, node2: Node)
    requires Valid(t) && Grown(before, t.graph) && CanPush(t, node1, node2)
    ensures RowsAppended(before, Push(t, node1, node2).graph, node1, node2, t.directed)
  {
    var r := Push(t, node1, node2);
    forall i | 0 <= i < |r.graph|
      ensures r.graph[i] == Row(before, i) + (if i == node1.id then [node2] else [])
                                          + (if !t.directed && i == node2.id then [node1] else [])
    {
      assert Row(t.graph, i) == Row(before, i);
    }
  }

  /** A label operator[] reads as a row index: a registered one, or "" once some node exists. */
  predicate Readable(t: State, name: string) {
    name in t.labels || (name == "" && t.labels != {})
  }

  lemma IndexInRange(t: State, name: string)
    requires Valid(t) && Readable(t, name)
    ensures 0 <= Index(t, name).1 < |t.graph|
  {
  }

  /** The first half of `add_edge(label1, label2)`: count the call, then register label1 and label2 if missing. */
  function Prepared(s: State, label1: string, label2: string): (r: State)
    requires Valid(s)
    ensures Valid(r)
    ensures r.edges == s.edges + 1 && r.directed == s.directed
    ensures s.labels <= r.labels && |s.graph| <= |r.graph| <= |s.graph| + 2
    ensures Readable(r, label1) && Readable(r, label2)
  {
    RegisterMissing(RegisterMissing(s.(edges := s.edges + 1), label1), label2)
  }

  /** The second half: read both ids through operator[] and append the two Nodes. */
  function Link(t: State, label1: string, label2: string): (r: State)
    requires Valid(t) && Readable(t, label1) && Readable(t, label2)
    ensures Valid(r)
    ensures r.labels == t.labels && r.edges == t.edges && r.directed == t.directed
    ensures |r.graph| == |t.graph|
  {
    var i1 := Index(t, label1);
    var i2 := Index(i1.0, label2);
    IndexInRange(t, label1);
    IndexInRange(i1.0, label2);
    Push(i2.0, Node(i1.1, label1), Node(i2.1, label2))
  }

  /**
   * `add_edge(label1, label2)`: counts the call, registers whichever label is
   * missing (first label1, then label2), reads both ids through operator[],
   * and appends the two Nodes.
   */
  function AddEdge(s: State, label1: string, label2: string): (r: State)
    requires Valid(s)
    ensures Valid(r)
    ensures r.edges == s.edges + 1 && r.directed == s.directed
    ensures s.labels <= r.labels
    ensures |s.graph| <= |r.graph| <= |s.graph| + 2
  {
    Link(Prepared(s, label1, label2), label1, label2)
  }

  /** Registering keeps every row and every registered id. */
  lemma PreparedKeeps(s: State, label1: string, label2: string)
    requires Valid(s)
    ensures var r := Prepared(s, label1, label2);
      && Grown(s.graph, r.graph)
      && forall l :: l in s.labels ==> l in r.identities && r.identities[l] == s.identities[l]
  {
    var s0 := s.(edges := s.edges + 1);
    var t1 := RegisterMissing(s0, label1);
    PreparedState(s, label1, label2);
    RegisterMissingKeeps(s0, label1);
    RegisterMissingKeeps(t1, label2);
    GrownTrans(s.graph, t1.graph, RegisterMissing(t1, label2).graph);
  }

  lemma PreparedState(s: State, label1: string, label2: string)
    requires Valid(s)
    ensures Prepared(s, label1, label2) == RegisterMissing(RegisterMissing(s.(edges := s.edges + 1), label1), label2)
  {
  }

  /** Non-empty labels are registered as given, the missing ones with the next ids in argument order. */
  lemma PreparedFresh(s: State, label1: string, label2: string)
    requires Valid(s) && label1 != "" && label2 != ""
    ensures var r := Prepared(s, label1, label2);
      && r.labels == s.labels + {label1, label2}
      && (label1 !in s.labels ==> r.identities[label1] == |s.graph|)
      && (label2 !in s.labels && label2 != label1 ==>
            r.identities[label2] == |s.graph| + (if label1 in s.labels then 0 else 1))
  {
    var t1 := RegisterMissing(s.(edges := s.edges + 1), label1);
    PreparedState(s, label1, label2);
    RegisterMissingKeeps(t1, label2);
    assert s.labels + {label1} + {label2} == s.labels + {label1, label2};
  }

  /** With both labels registered, Link leaves the table alone and appends the registered Nodes. */
  lemma LinkRows(before: seq<seq<Node>>, t: State, label1: string, label2: string)
    requires Valid(t) && label1 in t.labels && label2 in t.labels && Grown(before, t.graph)
    ensures var r := Link(t, label1, label2);
      && r.identities == t.identities
      && RowsAppended(before, r.graph, Node(t.identities[label1], label1), Node(t.identities[label2], label2), t.directed)
  {
    PushRows(before, t, Node(t.identities[label1], label1), Node(t.identities[label2], label2));
  }

  /**
   * With non-empty labels, add_edge registers exactly the two labels and
   * moves no id that was already registered.
   */
  lemma AddEdgeTables(s: State, label1: string, label2: string)
    requires Valid(s) && label1 != "" && label2 != ""
    ensures var r := AddEdge(s, label1, label2);
      && r.labels == s.labels + {label1, label2}
      && forall l :: l in s.labels ==> l in r.identities && r.identities[l] == s.identities[l]
  {
    var t := Prepared(s, label1, label2);
    PreparedKeeps(s, label1, label2);
    PreparedFresh(s, label1, label2);
    LinkRows(s.graph, t, label1, label2);
  }

  /**
   * The row effect of `add_edge(label1, label2)` for non-empty labels: the
   * missing labels get the next ids in argument order, the node with label2
   * is appended to label1's row and, unless directed, the node with label1 to
   * label2's row; nothing else changes, and nothing is deduplicated.
   */
  lemma AddEdgeEffect(s: State, label1: string, label2: string)
    requires Valid(s) && label1 != "" && label2 != ""
    ensures var r := AddEdge(s, label1, label2);
      && label1 in r.identities && label2 in r.identities
      && (label1 !in s.labels ==> r.identities[label1] == |s.graph|)
      && (label2 !in s.labels && label2 != label1 ==>
            r.identities[label2] == |s.graph| + (if label1 in s.labels then 0 else 1))
      && RowsAppended(s.graph, r.graph,
                      Node(r.identities[label1], label1), Node(r.identities[label2], label2), s.directed)
  {
    var t := Prepared(s, label1, label2);
    PreparedKeeps(s, label1, label2);
    PreparedFresh(s, label1, label2);
    LinkRows(s.graph, t, label1, label2);
  }

  /**
   * The row effect of `add_edge(label1, label2)` for any two labels, "" and
   * phantom entries included: whatever ids operator[] reads for the two
   * labels after registering, the Node with label2 is appended to label1's
   * row and, unless directed, the Node with label1 to label2's row; every
   * other row is as it was, and no old row loses anything.
   */
  lemma AddEdgeRows(s: State, label1: string, label2: string)
    requires Valid(s)
    ensures var r := AddEdge(s, label1, label2);
      && label1 in r.identities && label2 in r.identities
      && RowsAppended(s.graph, r.graph,
                      Node(r.identities[label1], label1), Node(r.identities[label2], label2), s.directed)
      && Extends(s.graph, r.graph)
  {
    var t := Prepared(s, label1, label2);
    PreparedKeeps(s, label1, label2);
    var i1 := Index(t, label1);
    IndexInRange(t, label1);
    var i2 := Index(i1.0, label2);
    IndexInRange(i1.0, label2);
    var n1, n2 := Node(i1.1, label1), Node(i2.1, label2);
    assert AddEdge(s, label1, label2) == Push(i2.0, n1, n2);
    assert i2.0.identities[label1] == i1.1 && i2.0.identities[label2] == i2.1;
    PushRows(s.graph, i2.0, n1, n2);
    GrownAppendedExtends(s.graph, s.graph, Push(i2.0, n1, n2).graph, n1, n2, s.directed);
  }

  /** Calling `add_edge` again on the same two registered labels appends again. */
  lemma AddEdgeNoDedup(s: State, label1: string, label2: string)
    requires Valid(s) && label1 in s.labels && label2 in s.labels
    ensures var r := AddEdge(s, label1, label2);
      && r.labels == s.labels && |r.graph| == |s.graph|
      && RowsAppended(s.graph, r.graph,
                      Node(s.identities[label1], label1), Node(s.identities[label2], label2), s.directed)
  {
    AddEdgeTables(s, label1, label2);
    AddEdgeEffect(s, label1, label2);
  }

  /** Two stores with the same labels and the same table agree on IdsDistinct. */
  lemma SameTablesIdsDistinct(s: State, t: State)
    requires s.labels == t.labels && s.identities == t.identities && IdsDistinct(s)
    ensures IdsDistinct(t)
  {
  }

  /** operator[] only writes an entry for an unregistered label, so ids stay distinct. */
  lemma IndexIdsDistinct(s: State, name: string)
    requires Valid(s) && IdsDistinct(s)
    ensures IdsDistinct(Index(s, name).0)
  {
    var r := Index(s, name).0;
    if name !in s.labels {
      forall l, m | l in r.labels && m in r.labels && l in r.identities && m in r.identities && l != m
        ensures r.identities[l] != r.identities[m]
      {
        assert r.identities[l] == s.identities[l] && r.identities[m] == s.identities[m];
      }
    }
  }

  lemma RegisterMissingIdsDistinct(s: State, name: string)
    requires Valid(s) && IdsDistinct(s)
    ensures IdsDistinct(RegisterMissing(s, name))
  {
    if name !in s.labels {
      AddNodeIdsDistinct(s, name);
    }
  }

  lemma PreparedIdsDistinct(s: State, label1: string, label2: string)
    requires Valid(s) && IdsDistinct(s)
    ensures IdsDistinct(Prepared(s, label1, label2))
  {
    var s0 := s.(edges := s.edges + 1);
    PreparedState(s, label1, label2);
    SameTablesIdsDistinct(s, s0);
    RegisterMissingIdsDistinct(s0, label1);
    RegisterMissingIdsDistinct(RegisterMissing(s0, label1), label2);
  }

  lemma LinkIdsDistinct(t: State, label1: string, label2: string)
    requires Valid(t) && IdsDistinct(t) && Readable(t, label1) && Readable(t, label2)
    ensures IdsDistinct(Link(t, label1, label2))
  {
    var i1 := Index(t, label1);
    IndexIdsDistinct(t, label1);
    var i2 := Index(i1.0, label2);
    IndexIdsDistinct(i1.0, label2);
    SameTablesIdsDistinct(i2.0, Link(t, label1, label2));
  }

  /** add_edge keeps ids distinct. */
  lemma AddEdgeIdsDistinct(s: State, label1: string, label2: string)
    requires Valid(s) && IdsDistinct(s)
    ensures IdsDistinct(AddEdge(s, label1, label2))
  {
    PreparedIdsDistinct(s, label1, label2);
    LinkIdsDistinct(Prepared(s, label1, label2), label1, label2);
  }

  // ------------------------------------------------------------- Node overload

  /**
   * `does_node_exist(node)`: true iff `identities[node.label] == node.id`;
   * the lookup goes through operator[] and may insert the entry 0.
   */
  function NodeExists(s: State, node: Node): (r: (State, bool))
    requires Valid(s)
    ensures Valid(r.0)
    ensures r.0 == Index(s, node.name).0
    ensures r.1 <==> node.id == Index(s, node.name).1
  {
    var i := Index(s, node.name);
    (i.0, node.id == i.1)
  }

  /**
   * The Node the Node overload of add_edge goes on with: the caller's node if
   * it "exists", otherwise whatever `add_node(node.label)` returns.
   */
  function Resolve(s: State, node: Node): (r: Added)
    requires Valid(s)
    ensures Valid(r.state)
  {
    var e := NodeExists(s, node);
    if e.1 then Added(e.0, node) else AddNode(e.0, node.name)
  }

  lemma ResolveState(s: State, node: Node)
    requires Valid(s)
    ensures Resolve(s, node) == if node.id == Index(s, node.name).1 then Added(Index(s, node.name).0, node)
                                else AddNode(Index(s, node.name).0, node.name)
  {
  }

  /**
   * Resolving changes neither the counter nor the flag, keeps every row and
   * label, adds at most one node, keeps the invariant, and on a non-empty
   * store yields a Node whose id has a row.
   */
  lemma ResolveFacts(s: State, node: Node)
    requires Valid(s)
    ensures var r := Resolve(s, node);
      && r.state.edges == s.edges && r.state.directed == s.directed
      && s.labels <= r.state.labels
      && Grown(s.graph, r.state.graph) && |r.state.graph| <= |s.graph| + 1
      && (|s.graph| > 0 ==> 0 <= r.node.id < |r.state.graph|)
  {
    var e := NodeExists(s, node);
    AddNodeGrown(e.0, node.name);
  }

  /**
   * The existence test on a registered label: with the caller's id the node
   * is kept; with another id, add_node refuses the duplicate and the Sentinel
   * takes the node's place.
   */
  lemma ResolveRegistered(s: State, node: Node)
    requires Valid(s) && node.name in s.labels
    ensures s.identities[node.name] == node.id ==> Resolve(s, node) == Added(s, node)
    ensures s.identities[node.name] != node.id ==> Resolve(s, node) == Added(s, Sentinel)
  {
    ResolveState(s, node);
  }

  /**
   * The existence test on an unregistered label, which operator[] reads as
   * id 0: a node with id 0 "exists" without being registered (a phantom, and
   * the table gains the entry 0), and any other id registers the label afresh.
   */
  lemma ResolveUnregistered(s: State, node: Node)
    requires Valid(s) && node.name !in s.labels
    ensures node.id == 0 ==>
              Resolve(s, node) == Added(s.(identities := s.identities[node.name := 0]), node)
    ensures node.name != "" && node.id != 0 ==>
              && Resolve(s, node).node == Node(|s.graph|, node.name)
              && Resolve(s, node).state.labels == s.labels + {node.name}
              && Resolve(s, node).state.identities == s.identities[node.name := |s.graph|]
  {
    ResolveState(s, node);
  }

  /** The state and the two Nodes the Node overload of add_edge pushes. */
  datatype Ends = Ends(state: State, first: Node, second: Node)

  /** `edges++`, then node1 and node2 resolved in that order. */
  function ResolveEnds(s: State, node1: Node, node2: Node): (r: Ends)
    requires Valid(s)
    ensures Valid(r.state)
  {
    var a1 := Resolve(s.(edges := s.edges + 1), node1);
    var a2 := Resolve(a1.state, node2);
    Ends(a2.state, a1.node, a2.node)
  }

  lemma ResolveEndsFacts(s: State, node1: Node, node2: Node)
    requires Valid(s)
    ensures var r := ResolveEnds(s, node1, node2);
      && r.state.edges == s.edges + 1 && r.state.directed == s.directed
      && s.labels <= r.state.labels && |s.graph| <= |r.state.graph| <= |s.graph| + 2
      && (|s.graph| > 0 ==> CanPush(r.state, r.first, r.second))
  {
    var s0 := s.(edges := s.edges + 1);
    var a1 := Resolve(s0, node1);
    var a2 := Resolve(a1.state, node2);
    ResolveFacts(s0, node1);
    ResolveFacts(a1.state, node2);
    ResolveEndsState(s, node1, node2);
    assert ResolveEnds(s, node1, node2) == Ends(a2.state, a1.node, a2.node);
  }

  lemma ResolveEndsState(s: State, node1: Node, node2: Node)
    requires Valid(s)
    ensures var a1 := Resolve(s.(edges := s.edges + 1), node1);
      ResolveEnds(s, node1, node2) == Ends(Resolve(a1.state, node2).state, a1.node, Resolve(a1.state, node2).node)
  {
    var a1 := Resolve(s.(edges := s.edges + 1), node1);
    var a2 := Resolve(a1.state, node2);
    assert ResolveEnds(s, node1, node2) == Ends(a2.state, a1.node, a2.node);
  }

  /** Resolving both ends keeps every row. */
  lemma ResolveEndsGrown(s: State, node1: Node, node2: Node)
    requires Valid(s)
    ensures Grown(s.graph, ResolveEnds(s, node1, node2).state.graph)
  {
    var s0 := s.(edges := s.edges + 1);
    var t1 := Resolve(s0, node1).state;
    var t2 := Resolve(t1, node2).state;
    ResolveEndsState(s, node1, node2);
    ResolveFacts(s0, node1);
    ResolveFacts(t1, node2);
    GrownTrans(s.graph, t1.graph, t2.graph);
  }

  /**
   * `add_edge(node1_, node2_)`: counts the call, resolves node1 then node2,
   * and appends the resolved Nodes. None when a resolved id has no row, where
   * `graph[id]` would be out of range (a phantom id 0 on an empty graph).
   */
  function AddEdgeNodes(s: State, node1: Node, node2: Node): (r: Option<State>)
    requires Valid(s)
    ensures r.Some? ==> Valid(r.value)
  {
    var e := ResolveEnds(s, node1, node2);
    if CanPush(e.state, e.first, e.second) then Some(Push(e.state, e.first, e.second)) else None
  }

  /**
   * The Node overload counts one call, adds at most two nodes and appends
   * exactly the resolved Nodes; it keeps the invariant, and is defined on
   * every non-empty store.
   */
  lemma AddEdgeNodesFacts(s: State, node1: Node, node2: Node)
    requires Valid(s)
    ensures var r := AddEdgeNodes(s, node1, node2);
      var e := ResolveEnds(s, node1, node2);
      && (r.Some? ==>
            && r.value.edges == s.edges + 1 && r.value.directed == s.directed
            && s.labels <= r.value.labels && |r.value.graph| <= |s.graph| + 2
            && RowsAppended(s.graph, r.value.graph, e.first, e.second, s.directed))
      && (|s.graph| > 0 ==> r.Some?)
  {
    var e := ResolveEnds(s, node1, node2);
    AddEdgeNodesState(s, node1, node2);
    ResolveEndsFacts(s, node1, node2);
    ResolveEndsGrown(s, node1, node2);
    if CanPush(e.state, e.first, e.second) {
      PushRows(s.graph, e.state, e.first, e.second);
    }
  }

  /** Resolving a Node keeps ids distinct. */
  lemma ResolveIdsDistinct(s: State, node: Node)
    requires Valid(s) && IdsDistinct(s)
    ensures IdsDistinct(Resolve(s, node).state)
  {
    var e := NodeExists(s, node);
    assert Resolve(s, node) == if e.1 then Added(e.0, node) else AddNode(e.0, node.name);
    IndexIdsDistinct(s, node.name);
    if !e.1 {
      AddNodeIdsDistinct(e.0, node.name);
    }
  }

  lemma AddEdgeNodesState(s: State, node1: Node, node2: Node)
    requires Valid(s)
    ensures var e := ResolveEnds(s, node1, node2);
      AddEdgeNodes(s, node1, node2) == if CanPush(e.state, e.first, e.second) then Some(Push(e.state, e.first, e.second)) else None
  {
  }

  /** The Node overload keeps ids distinct, whatever Nodes are passed. */
  lemma AddEdgeNodesIdsDistinct(s: State, node1: Node, node2: Node)
    requires Valid(s) && IdsDistinct(s) && AddEdgeNodes(s, node1, node2).Some?
    ensures IdsDistinct(AddEdgeNodes(s, node1, node2).value)
  {
    var s0 := s.(edges := s.edges + 1);
    SameTablesIdsDistinct(s, s0);
    ResolveIdsDistinct(s0, node1);
    ResolveIdsDistinct(Resolve(s0, node1).state, node2);
    ResolveEndsState(s, node1, node2);
    AddEdgeNodesState(s, node1, node2);
    var e := ResolveEnds(s, node1, node2);
    SameTablesIdsDistinct(e.state, AddEdgeNodes(s, node1, node2).value);
  }

  /**
   * The Node overload on two registered labels adds no node: each end is the
   * caller's Node when its id matches the table and the Sentinel (id 0)
   * otherwise, so a mismatched end sends the edge to row 0.
   */
  lemma AddEdgeNodesRegistered(s: State, node1: Node, node2: Node)
    requires Valid(s) && node1.name in s.labels && node2.name in s.labels
    ensures AddEdgeNodes(s, node1, node2).Some?
    ensures var r := AddEdgeNodes(s, node1, node2).value;
      var first := if s.identities[node1.name] == node1.id then node1 else Sentinel;
      var second := if s.identities[node2.name] == node2.id then node2 else Sentinel;
      && r.labels == s.labels && r.identities == s.identities
      && |r.graph| == |s.graph| && r.edges == s.edges + 1 && r.directed == s.directed
      && RowsAppended(s.graph, r.graph, first, second, s.directed)
  {
    var s0 := s.(edges := s.edges + 1);
    ResolveRegistered(s0, node1);
    ResolveRegistered(s0, node2);
    ResolveEndsState(s, node1, node2);
    AddEdgeNodesState(s, node1, node2);
    AddEdgeNodesFacts(s, node1, node2);
  }
}
