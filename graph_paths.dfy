/**
 * The list operations of `graphw::Graph` on values: add_path and add_cycle
 * over labels and over Nodes, as the loops of graphw.hpp run them, one turn at
 * a time from turn i to the end of the list; and repeated add_node calls.
 */
module GraphPaths {
  import opened Decimal
  import opened GraphState

  /** The elements of a list from index i on, as a set. */
  function ElementsFrom<T>(xs: seq<T>, i: nat): set<T>
    requires i <= |xs|
    decreases |xs| - i
  {
    if i == |xs| then {} else {xs[i]} + ElementsFrom(xs, i + 1)
  }

  /** A value is among the elements from i on exactly when some index at or after i holds it. */
  lemma {:induction false} ElementsFromMembers<T>(xs: seq<T>, i: nat, x: T)
    requires i <= |xs|
    ensures x in ElementsFrom(xs, i) <==> exists j :: i <= j < |xs| && xs[j] == x
    decreases |xs| - i
  {
    if i < |xs| {
      ElementsFromMembers(xs, i + 1, x);
      if xs[i] == x {
        assert i <= i < |xs| && xs[i] == x;
      }
    }
  }

  /** The element at any index from i on is among the elements from i on. */
  lemma {:induction false} ElementsFromHas<T>(xs: seq<T>, i: nat, j: nat)
    requires i <= j < |xs|
    ensures xs[j] in ElementsFrom(xs, i)
    decreases j - i
  {
    if i < j {
      ElementsFromHas(xs, i + 1, j);
    }
  }

  /** From index 0, the elements are the members of the list. */
  lemma ElementsFromAll<T>(xs: seq<T>)
    ensures ElementsFrom(xs, 0) == set x | x in xs
  {
    var all := set x | x in xs;
    forall x | x in all ensures x in ElementsFrom(xs, 0) {
      ElementsFromMembers(xs, 0, x);
      var j :| 0 <= j < |xs| && xs[j] == x;
      assert 0 <= j < |xs| && xs[j] == x;
    }
    forall x | x in ElementsFrom(xs, 0) ensures x in all {
      ElementsFromMembers(xs, 0, x);
    }
    assert ElementsFrom(xs, 0) == all;
  }

  /** The elements at and after index i are non-empty, pairwise distinct and not yet registered. */
  predicate FreshFrom(s: State, ls: seq<string>, i: nat) {
    && (forall j :: i <= j < |ls| ==> ls[j] != "" && ls[j] !in s.labels)
    && (forall j, k :: i <= j < k < |ls| ==> ls[j] != ls[k])
  }

  /** A whole list of labels that are non-empty, pairwise distinct and not yet registered. */
  predicate FreshLabels(s: State, ls: seq<string>) {
    FreshFrom(s, ls, 0)
  }

  /** The labels of a list of Nodes, in order. */
  function LabelsOf(nodes: seq<Node>): (ls: seq<string>)
    ensures |ls| == |nodes| && forall i :: 0 <= i < |nodes| ==> ls[i] == nodes[i].name
  {
    seq(|nodes|, i requires 0 <= i < |nodes| => nodes[i].name)
  }

  /** The number of add_edge calls turns i .. n-1 of a path loop make: one per turn after the first. */
  function TurnsWithEdge(n: nat, i: nat): nat {
    if i >= n then 0 else if i == 0 then n - 1 else n - i
  }

  // ---------------------------------------------------------- label paths

  /**
   * Turn i of the add_path loop over labels: register the label if it is
   * missing, then, from the second turn on, add the edge from the previous
   * label to this one.
   */
  function PathStep(s: State, labelsList: seq<string>, i: nat): (r: State)
    requires Valid(s) && i < |labelsList|
    ensures Valid(r)
  {
    var t := RegisterMissing(s, labelsList[i]);
    if i > 0 then AddEdge(t, labelsList[i - 1], labelsList[i]) else t
  }

  /** The store after turns i, i+1, ... of the add_path loop, run on s. */
  function PathFrom(s: State, labelsList: seq<string>, i: nat): (r: State)
    requires Valid(s) && i <= |labelsList|
    ensures Valid(r)
    decreases |labelsList| - i
  {
    if i == |labelsList| then s else PathFrom(PathStep(s, labelsList, i), labelsList, i + 1)
  }

  /** One turn of the label path loop, then the rest. */
  lemma PathFromUnfold(s: State, labelsList: seq<string>, i: nat)
    requires Valid(s) && i < |labelsList|
    ensures PathFrom(s, labelsList, i) == PathFrom(PathStep(s, labelsList, i), labelsList, i + 1)
  {
  }

  /** `add_path(labels_list)`: every turn of the loop. */
  function AddPath(s: State, labelsList: seq<string>): (r: State)
    requires Valid(s)
    ensures Valid(r)
  {
    PathFrom(s, labelsList, 0)
  }

  /** `add_cycle(labels_list)`: nothing for an empty list, else the add_path loop and an edge from the last label to the first. */
  function AddCycle(s: State, labelsList: seq<string>): (r: State)
    requires Valid(s)
    ensures Valid(r)
  {
    if |labelsList| == 0 then s
    else AddEdge(AddPath(s, labelsList), labelsList[|labelsList| - 1], labelsList[0])
  }

  /** Turns i .. end make one add_edge call per turn after the first, and keep the flag. */
  lemma {:induction false} PathFromEdges(s: State, labelsList: seq<string>, i: nat)
    requires Valid(s) && i <= |labelsList|
    ensures PathFrom(s, labelsList, i).edges == s.edges + TurnsWithEdge(|labelsList|, i)
    ensures PathFrom(s, labelsList, i).directed == s.directed
    decreases |labelsList| - i
  {
    if i < |labelsList| {
      PathFromEdges(PathStep(s, labelsList, i), labelsList, i + 1);
    }
  }

  /** add_path over k labels adds max(k-1, 0) to the edge counter. */
  lemma AddPathEdges(s: State, labelsList: seq<string>)
    requires Valid(s)
    ensures AddPath(s, labelsList).edges == s.edges + (if |labelsList| == 0 then 0 else |labelsList| - 1)
  {
    PathFromEdges(s, labelsList, 0);
  }

  /** add_path keeps the flag. */
  lemma AddPathDirected(s: State, labelsList: seq<string>)
    requires Valid(s)
    ensures AddPath(s, labelsList).directed == s.directed
  {
    PathFromEdges(s, labelsList, 0);
  }

  /** add_cycle makes one add_edge call per label; an empty list leaves the store as it is. */
  lemma AddCycleEdges(s: State, labelsList: seq<string>)
    requires Valid(s)
    ensures AddCycle(s, labelsList).edges == s.edges + |labelsList|
    ensures |labelsList| == 0 ==> AddCycle(s, labelsList) == s
  {
    PathFromEdges(s, labelsList, 0);
  }

  /** A turn of the label path loop keeps ids distinct. */
  lemma PathStepIdsDistinct(s: State, labelsList: seq<string>, i: nat)
    requires Valid(s) && IdsDistinct(s) && i < |labelsList|
    ensures IdsDistinct(PathStep(s, labelsList, i))
  {
    var t := RegisterMissing(s, labelsList[i]);
    RegisterMissingIdsDistinct(s, labelsList[i]);
    if i > 0 {
      AddEdgeIdsDistinct(t, labelsList[i - 1], labelsList[i]);
    }
  }

  /**
   * Induction over the label path loop: an invariant of the store and the
   * turn number that every turn carries from j to j + 1 holds once the turns
   * from i on are done.
   */
  lemma {:induction false} PathFromInduction(inv: (State, nat) -> bool, s: State, labelsList: seq<string>, i: nat)
    requires Valid(s) && i <= |labelsList| && inv(s, i)
    requires forall x: State, j: nat :: Valid(x) && j < |labelsList| && inv(x, j) ==> inv(PathStep(x, labelsList, j), j + 1)
    ensures inv(PathFrom(s, labelsList, i), |labelsList|)
    decreases |labelsList| - i
  {
    if i < |labelsList| {
      PathFromInduction(inv, PathStep(s, labelsList, i), labelsList, i + 1);
    }
  }

  /** Turns i .. end of the label path loop keep ids distinct, whatever the labels. */
  lemma PathFromIdsDistinct(s: State, labelsList: seq<string>, i: nat)
    requires Valid(s) && IdsDistinct(s) && i <= |labelsList|
    ensures IdsDistinct(PathFrom(s, labelsList, i))
  {
    forall x: State, j: nat | Valid(x) && j < |labelsList| && IdsDistinct(x)
      ensures IdsDistinct(PathStep(x, labelsList, j))
    {
      PathStepIdsDistinct(x, labelsList, j);
    }
    PathFromInduction((x: State, j: nat) => IdsDistinct(x), s, labelsList, i);
  }

  /** add_path and add_cycle over labels keep ids distinct. */
  lemma LabelListIdsDistinct(s: State, labelsList: seq<string>)
    requires Valid(s) && IdsDistinct(s)
    ensures IdsDistinct(AddPath(s, labelsList))
    ensures IdsDistinct(AddCycle(s, labelsList))
  {
    PathFromIdsDistinct(s, labelsList, 0);
    if |labelsList| > 0 {
      AddEdgeIdsDistinct(AddPath(s, labelsList), labelsList[|labelsList| - 1], labelsList[0]);
    }
  }

  /** A turn of the label path loop loses nothing from any row, whatever the labels. */
  lemma PathStepExtends(s: State, labelsList: seq<string>, i: nat)
    requires Valid(s) && i < |labelsList|
    ensures Extends(s.graph, PathStep(s, labelsList, i).graph)
  {
    var t := RegisterMissing(s, labelsList[i]);
    RegisterMissingKeeps(s, labelsList[i]);
    GrownExtends(s.graph, t.graph);
    if i > 0 {
      AddEdgeRows(t, labelsList[i - 1], labelsList[i]);
      ExtendsTrans(s.graph, t.graph, AddEdge(t, labelsList[i - 1], labelsList[i]).graph);
    }
  }

  /** Turns i .. end only append: every old row survives as a prefix of its new row. */
  lemma PathFromExtends(s: State, labelsList: seq<string>, i: nat)
    requires Valid(s) && i <= |labelsList|
    ensures Extends(s.graph, PathFrom(s, labelsList, i).graph)
  {
    forall x: State, j: nat | Valid(x) && j < |labelsList| && Extends(s.graph, x.graph)
      ensures Extends(s.graph, PathStep(x, labelsList, j).graph)
    {
      PathStepExtends(x, labelsList, j);
      ExtendsTrans(s.graph, x.graph, PathStep(x, labelsList, j).graph);
    }
    GrownExtends(s.graph, s.graph);
    PathFromInduction((x: State, j: nat) => Extends(s.graph, x.graph), s, labelsList, i);
  }

  /** add_path and add_cycle over any labels only append to the rows already there. */
  lemma LabelListExtends(s: State, labelsList: seq<string>)
    requires Valid(s)
    ensures Extends(s.graph, AddPath(s, labelsList).graph)
    ensures Extends(s.graph, AddCycle(s, labelsList).graph)
  {
    var p := AddPath(s, labelsList);
    PathFromExtends(s, labelsList, 0);
    if |labelsList| > 0 {
      AddEdgeRows(p, labelsList[|labelsList| - 1], labelsList[0]);
      ExtendsTrans(s.graph, p.graph, AddCycle(s, labelsList).graph);
    }
  }

  /**
   * One turn with a fresh label, the previous label being registered: the
   * label gets the next id and a row of its own, and no registered id moves.
   */
  lemma PathStepFresh(s: State, labelsList: seq<string>, i: nat)
    requires Valid(s) && i < |labelsList| && labelsList[i] != "" && labelsList[i] !in s.labels
    requires i > 0 ==> labelsList[i - 1] in s.labels
    ensures var r := PathStep(s, labelsList, i);
      && |r.graph| == |s.graph| + 1
      && labelsList[i] in r.identities && r.identities[labelsList[i]] == |s.graph|
      && forall l :: l in s.labels ==> l in r.identities && r.identities[l] == s.identities[l]
  {
    var t := RegisterMissing(s, labelsList[i]);
    RegisterMissingKeeps(s, labelsList[i]);
    if i > 0 {
      AddEdgeTables(t, labelsList[i - 1], labelsList[i]);
      AddEdgeNoDedup(t, labelsList[i - 1], labelsList[i]);
    }
  }

  /** A turn with a non-empty label, the previous label being registered, registers exactly this label. */
  lemma PathStepLabels(s: State, labelsList: seq<string>, i: nat)
    requires Valid(s) && i < |labelsList| && labelsList[i] != ""
    requires i > 0 ==> labelsList[i - 1] in s.labels
    ensures PathStep(s, labelsList, i).labels == s.labels + {labelsList[i]}
  {
    var t := RegisterMissing(s, labelsList[i]);
    if i > 0 {
      AddEdgeTables(t, labelsList[i - 1], labelsList[i]);
    }
  }

  /** Set bookkeeping of one turn: a = b + rest, b = c + {x} and all = {x} + rest give a = c + all. */
  lemma UnionStep<T>(a: set<T>, b: set<T>, c: set<T>, x: T, rest: set<T>, all: set<T>)
    requires a == b + rest && b == c + {x} && all == {x} + rest
    ensures a == c + all
  {
  }

  /** With no "" among them and the previous label registered, turns i .. end register exactly the labels from i on. */
  lemma {:induction false} PathFromLabels(s: State, labelsList: seq<string>, i: nat)
    requires Valid(s) && i <= |labelsList|
    requires forall j :: 0 <= j < |labelsList| ==> labelsList[j] != ""
    requires i > 0 ==> labelsList[i - 1] in s.labels
    ensures PathFrom(s, labelsList, i).labels == s.labels + ElementsFrom(labelsList, i)
    decreases |labelsList| - i
  {
    if i < |labelsList| {
      var t := PathStep(s, labelsList, i);
      PathStepLabels(s, labelsList, i);
      PathFromLabels(t, labelsList, i + 1);
      UnionStep(PathFrom(t, labelsList, i + 1).labels, t.labels, s.labels, labelsList[i],
                ElementsFrom(labelsList, i + 1), ElementsFrom(labelsList, i));
    }
  }

  /** With no "" among them, add_path registers exactly the labels of the list. */
  lemma AddPathLabels(s: State, labelsList: seq<string>)
    requires Valid(s)
    requires forall j :: 0 <= j < |labelsList| ==> labelsList[j] != ""
    ensures AddPath(s, labelsList).labels == s.labels + set l | l in labelsList
  {
    PathFromLabels(s, labelsList, 0);
    ElementsFromAll(labelsList);
  }

  /**
   * Over fresh labels, turns i .. end add one node per turn, label j getting
   * id |graph| + (j - i) in list order, and move no registered id.
   */
  lemma {:induction false} PathFromFresh(s: State, labelsList: seq<string>, i: nat)
    requires Valid(s) && i <= |labelsList| && FreshFrom(s, labelsList, i)
    requires i > 0 ==> labelsList[i - 1] in s.labels
    ensures var r := PathFrom(s, labelsList, i);
      && |r.graph| == |s.graph| + (|labelsList| - i)
      && (forall j :: i <= j < |labelsList| ==>
            labelsList[j] in r.identities && r.identities[labelsList[j]] == |s.graph| + (j - i))
      && (forall l :: l in s.labels ==> l in r.identities && r.identities[l] == s.identities[l])
    decreases |labelsList| - i
  {
    if i < |labelsList| {
      var t := PathStep(s, labelsList, i);
      PathStepLabels(s, labelsList, i);
      PathStepFresh(s, labelsList, i);
      PathFromFresh(t, labelsList, i + 1);
      var r := PathFrom(t, labelsList, i + 1);
      assert PathFrom(s, labelsList, i) == r;
      forall j | i <= j < |labelsList|
        ensures labelsList[j] in r.identities && r.identities[labelsList[j]] == |s.graph| + (j - i)
      {
        if j == i {
          assert labelsList[i] in t.labels;
        }
      }
      forall l | l in s.labels ensures l in r.identities && r.identities[l] == s.identities[l] {
        assert l in t.labels;
      }
    }
  }

  /** add_path over k fresh labels adds k nodes, in list order, and max(k-1, 0) edges. */
  lemma AddPathFresh(s: State, labelsList: seq<string>)
    requires Valid(s) && FreshLabels(s, labelsList)
    ensures var r := AddPath(s, labelsList);
      && |r.graph| == |s.graph| + |labelsList|
      && r.edges == s.edges + (if |labelsList| == 0 then 0 else |labelsList| - 1)
      && forall j :: 0 <= j < |labelsList| ==> labelsList[j] in r.identities && r.identities[labelsList[j]] == |s.graph| + j
  {
    PathFromFresh(s, labelsList, 0);
    PathFromEdges(s, labelsList, 0);
  }

  /**
   * add_cycle over k >= 1 fresh labels adds k nodes and k edges; after the
   * path, the closing edge appends the first node to the last node's row (and,
   * unless directed, the last node to the first's).
   */
  lemma AddCycleFresh(s: State, labelsList: seq<string>)
    requires Valid(s) && FreshLabels(s, labelsList) && |labelsList| >= 1
    ensures var r := AddCycle(s, labelsList);
      var first := Node(|s.graph|, labelsList[0]);
      var last := Node(|s.graph| + |labelsList| - 1, labelsList[|labelsList| - 1]);
      && |r.graph| == |s.graph| + |labelsList|
      && r.edges == s.edges + |labelsList|
      && RowsAppended(AddPath(s, labelsList).graph, r.graph, last, first, s.directed)
  {
    var k := |labelsList|;
    var p := AddPath(s, labelsList);
    var r := AddEdge(p, labelsList[k - 1], labelsList[0]);
    assert AddCycle(s, labelsList) == r;
    AddPathFresh(s, labelsList);
    AddPathLabels(s, labelsList);
    AddPathDirected(s, labelsList);
    assert labelsList[k - 1] in p.labels && labelsList[0] in p.labels;
    assert p.identities[labelsList[k - 1]] == |s.graph| + |labelsList| - 1;
    assert p.identities[labelsList[0]] == |s.graph|;
    var last := Node(|s.graph| + |labelsList| - 1, labelsList[|labelsList| - 1]);
    var first := Node(|s.graph|, labelsList[0]);
    EdgeBetweenIds(p, last.name, first.name, last.id, first.id, s.directed);
  }

  /**
   * The row of label j once the first m turns of add_path over a list of
   * fresh labels are done: the previous label's Node (none for the first
   * label, and none if directed), then the next label's Node once that label
   * has had its turn.
   */
  function PathRow(labelsList: seq<string>, m: nat, j: nat, prevId: int, nextId: int, directed: bool): seq<Node>
    requires j < |labelsList|
  {
    (if j > 0 && !directed then [Node(prevId, labelsList[j - 1])] else [])
    + (if j + 1 < m && j + 1 < |labelsList| then [Node(nextId, labelsList[j + 1])] else [])
  }

  /** The id of the label before index i, as the store holds it (0 when there is none). */
  function PrevId(s: State, labelsList: seq<string>, i: nat): int {
    if 0 < i <= |labelsList| && labelsList[i - 1] in s.identities then s.identities[labelsList[i - 1]] else 0
  }

  /**
   * The rows after one turn of add_path from x to t that registers label j
   * fresh, the previous label having id prevId: the label's new row holds the
   * previous label's Node unless directed, the previous label's row gains the
   * new Node, and no other row changes.
   */
  predicate TurnRows(x: State, t: State, labelsList: seq<string>, j: nat, prevId: int) {
    var n := |x.graph|;
    && j < |labelsList|
    && |t.graph| == n + 1 && t.directed == x.directed
    && (forall k :: 0 <= k < n ==>
          t.graph[k] == x.graph[k] + (if j > 0 && k == prevId then [Node(n, labelsList[j])] else []))
    && t.graph[n] == (if j > 0 && !x.directed then [Node(prevId, labelsList[j - 1])] else [])
  }

  /** The tables after one turn from x to t that registers label j fresh, with the next id. */
  predicate TurnTables(x: State, t: State, labelsList: seq<string>, j: nat) {
    && j < |labelsList|
    && t.labels == x.labels + {labelsList[j]}
    && labelsList[j] in t.identities && t.identities[labelsList[j]] == |x.graph|
  }

  /** One turn with a fresh label, the previous label being registered, changes the rows as TurnRows says. */
  lemma PathStepRows(s: State, labelsList: seq<string>, i: nat)
    requires Valid(s) && i < |labelsList| && labelsList[i] != "" && labelsList[i] !in s.labels
    requires i > 0 ==> labelsList[i - 1] in s.labels
    ensures TurnRows(s, PathStep(s, labelsList, i), labelsList, i, PrevId(s, labelsList, i))
  {
    var n := |s.graph|;
    var u := RegisterMissing(s, labelsList[i]);
    assert u == AddNode(s, labelsList[i]).state;
    assert u.graph == s.graph + [[]];
    if i > 0 {
      var p := PrevId(s, labelsList, i);
      assert u.identities[labelsList[i - 1]] == p && u.identities[labelsList[i]] == n;
      EdgeBetweenIds(u, labelsList[i - 1], labelsList[i], p, n, s.directed);
      var t := AddEdge(u, labelsList[i - 1], labelsList[i]);
      assert PathStep(s, labelsList, i) == t;
      forall k | 0 <= k < n
        ensures t.graph[k] == s.graph[k] + (if k == p then [Node(n, labelsList[i])] else [])
      {
        assert Row(u.graph, k) == s.graph[k];
      }
      assert Row(u.graph, n) == [];
    }
  }

  /**
   * The store after the first j turns of add_path over a list of fresh
   * labels, run on s0: j new nodes with ids in list order, the labels after
   * them still unregistered, the old rows untouched, and new row y holding
   * the PathRow of label y - |s0.graph| after j turns.
   */
  predicate PathBuilt(s0: State, labelsList: seq<string>, x: State, j: nat) {
    var n := |s0.graph|;
    && j <= |labelsList|
    && |x.graph| == n + j && x.directed == s0.directed
    && (forall m :: j <= m < |labelsList| ==> labelsList[m] !in x.labels)
    && (j > 0 ==> labelsList[j - 1] in x.labels && labelsList[j - 1] in x.identities
                  && x.identities[labelsList[j - 1]] == n + j - 1)
    && (forall y :: 0 <= y < n ==> x.graph[y] == s0.graph[y])
    && (forall y :: n <= y < |x.graph| ==> x.graph[y] == PathRow(labelsList, j, y - n, y - 1, y + 1, s0.directed))
  }

  /** One more turn extends the built path by the next label. */
  lemma PathBuiltStep(s0: State, labelsList: seq<string>, x: State, j: nat)
    requires Valid(s0) && FreshLabels(s0, labelsList)
    requires Valid(x) && j < |labelsList| && PathBuilt(s0, labelsList, x, j)
    ensures PathBuilt(s0, labelsList, PathStep(x, labelsList, j), j + 1)
  {
    var t := PathStep(x, labelsList, j);
    assert labelsList[j] != "" && labelsList[j] !in x.labels;
    PathStepRows(x, labelsList, j);
    PathStepLabels(x, labelsList, j);
    PathStepFresh(x, labelsList, j);
    PathBuiltOf(s0, labelsList, x, t, j, PrevId(x, labelsList, j));
  }

  /** The bookkeeping of PathBuiltStep, on the stores before and after the turn. */
  lemma PathBuiltOf(s0: State, labelsList: seq<string>, x: State, t: State, j: nat, prevId: int)
    requires FreshLabels(s0, labelsList) && PathBuilt(s0, labelsList, x, j)
    requires j > 0 ==> prevId == PrevId(x, labelsList, j)
    requires TurnTables(x, t, labelsList, j) && TurnRows(x, t, labelsList, j, prevId)
    ensures PathBuilt(s0, labelsList, t, j + 1)
  {
    forall m | j + 1 <= m < |labelsList| ensures labelsList[m] !in t.labels {
      assert labelsList[m] != labelsList[j] && labelsList[m] !in x.labels;
    }
    RowsExtended(s0, x, t, labelsList, j, prevId);
  }

  /** The row bookkeeping of PathBuiltStep, on the rows alone. */
  lemma RowsExtended(s0: State, x: State, t: State, labelsList: seq<string>, j: nat, prevId: int)
    requires PathBuilt(s0, labelsList, x, j) && TurnRows(x, t, labelsList, j, prevId)
    requires j > 0 ==> prevId == |s0.graph| + j - 1
    ensures forall y :: 0 <= y < |s0.graph| ==> t.graph[y] == s0.graph[y]
    ensures forall y :: |s0.graph| <= y < |t.graph| ==>
              t.graph[y] == PathRow(labelsList, j + 1, y - |s0.graph|, y - 1, y + 1, s0.directed)
  {
    OldRowsKept(s0, x, t, labelsList, j, prevId);
    var n := |s0.graph|;
    forall y | n <= y < |t.graph| ensures t.graph[y] == PathRow(labelsList, j + 1, y - n, y - 1, y + 1, s0.directed) {
      if y < |x.graph| {
        RowExtended(labelsList, j, y, n, prevId, s0.directed, x.graph[y], t.graph[y]);
      } else {
        NewRowExtended(labelsList, j, n, prevId, s0.directed, t.graph[y]);
      }
    }
  }

  /** The new row of RowsExtended: the Node of the label before, unless it is the first label or directed. */
  lemma NewRowExtended(labelsList: seq<string>, j: nat, n: int, prevId: int, directed: bool, row: seq<Node>)
    requires j < |labelsList| && (j > 0 ==> prevId == n + j - 1)
    requires row == (if j > 0 && !directed then [Node(prevId, labelsList[j - 1])] else [])
    ensures row == PathRow(labelsList, j + 1, j, n + j - 1, n + j + 1, directed)
  {
    assert row == row + [];
  }

  /** The rows of s0 stay as they were: the edge goes into a newer row. */
  lemma OldRowsKept(s0: State, x: State, t: State, labelsList: seq<string>, j: nat, prevId: int)
    requires PathBuilt(s0, labelsList, x, j) && TurnRows(x, t, labelsList, j, prevId)
    requires j > 0 ==> prevId == |s0.graph| + j - 1
    ensures forall y :: 0 <= y < |s0.graph| ==> t.graph[y] == s0.graph[y]
  {
    forall y | 0 <= y < |s0.graph| ensures t.graph[y] == s0.graph[y] {
      assert t.graph[y] == x.graph[y] + [];
    }
  }

  /** One row of RowsExtended: the previous label's row gains the next label's Node, any other row stays. */
  lemma RowExtended(labelsList: seq<string>, j: nat, y: int, n: int, prevId: int, directed: bool,
                    before: seq<Node>, after: seq<Node>)
    requires j < |labelsList| && n <= y < n + j
    requires j > 0 ==> prevId == n + j - 1
    requires before == PathRow(labelsList, j, y - n, y - 1, y + 1, directed)
    requires after == before + (if j > 0 && y == prevId then [Node(n + j, labelsList[j])] else [])
    ensures after == PathRow(labelsList, j + 1, y - n, y - 1, y + 1, directed)
  {
    if y == prevId {
      assert y - n + 1 == j;
    } else {
      assert after == before + [];
    }
  }

  /**
   * The rows add_path builds over k fresh labels: the old rows are
   * unchanged, and new row y, the row of label y - |graph|, holds the Node of
   * the label before (unless it is the first label or directed) followed by
   * the Node of the label after (unless it is the last).
   */
  lemma AddPathRows(s: State, labelsList: seq<string>)
    requires Valid(s) && FreshLabels(s, labelsList)
    ensures var r := AddPath(s, labelsList);
      var n := |s.graph|;
      && |r.graph| == n + |labelsList|
      && (forall y :: 0 <= y < n ==> r.graph[y] == s.graph[y])
      && (forall y :: n <= y < |r.graph| ==>
            r.graph[y] == PathRow(labelsList, |labelsList|, y - n, y - 1, y + 1, s.directed))
  {
    AddPathBuilt(s, labelsList);
  }

  /** add_path over fresh labels is the path built by all of its turns. */
  lemma AddPathBuilt(s: State, labelsList: seq<string>)
    requires Valid(s) && FreshLabels(s, labelsList)
    ensures PathBuilt(s, labelsList, AddPath(s, labelsList), |labelsList|)
  {
    forall x: State, j: nat | Valid(x) && j < |labelsList| && PathBuilt(s, labelsList, x, j)
      ensures PathBuilt(s, labelsList, PathStep(x, labelsList, j), j + 1)
    {
      PathBuiltStep(s, labelsList, x, j);
    }
    assert PathBuilt(s, labelsList, s, 0);
    PathFromInduction((x: State, j: nat) => PathBuilt(s, labelsList, x, j), s, labelsList, 0);
  }

  /**
   * The rows add_cycle builds over k >= 1 fresh labels: the path's rows, with
   * the first label's Node appended to the last label's row and, unless
   * directed, the last label's Node appended to the first label's row.
   */
  lemma AddCycleRows(s: State, labelsList: seq<string>)
    requires Valid(s) && FreshLabels(s, labelsList) && |labelsList| >= 1
    ensures CycleBuilt(s, labelsList, AddCycle(s, labelsList).graph)
  {
    AddCycleFresh(s, labelsList);
    AddPathBuilt(s, labelsList);
    CycleRows(s, AddPath(s, labelsList), AddCycle(s, labelsList).graph, labelsList);
  }

  /**
   * The rows of a cycle over k >= 1 fresh labels built on s: the old rows are
   * unchanged, and new row y holds the PathRow of label y - |s.graph|, then
   * the first label's Node if y is the last label's row, then (unless
   * directed) the last label's Node if y is the first label's row.
   */
  predicate CycleBuilt(s: State, labelsList: seq<string>, rg: seq<seq<Node>>)
    requires |labelsList| >= 1
  {
    var n := |s.graph|;
    var k := |labelsList|;
    var first := Node(n, labelsList[0]);
    var last := Node(n + k - 1, labelsList[k - 1]);
    && |rg| == n + k
    && (forall y :: 0 <= y < n ==> rg[y] == s.graph[y])
    && (forall y :: n <= y < |rg| ==>
          rg[y] == PathRow(labelsList, k, y - n, y - 1, y + 1, s.directed)
                   + (if y == last.id then [first] else [])
                   + (if !s.directed && y == first.id then [last] else []))
  }

  /** The row bookkeeping of AddCycleRows, on the stores alone. */
  lemma CycleRows(s: State, p: State, rg: seq<seq<Node>>, labelsList: seq<string>)
    requires |labelsList| >= 1 && PathBuilt(s, labelsList, p, |labelsList|)
    requires |rg| == |s.graph| + |labelsList|
    requires RowsAppended(p.graph, rg, Node(|s.graph| + |labelsList| - 1, labelsList[|labelsList| - 1]),
                          Node(|s.graph|, labelsList[0]), s.directed)
    ensures CycleBuilt(s, labelsList, rg)
  {
    var g0 := s.graph;
    var pg := p.graph;
    var k := |labelsList|;
    var first := Node(|g0|, labelsList[0]);
    var last := Node(|g0| + k - 1, labelsList[k - 1]);
    forall y | 0 <= y < |g0| ensures rg[y] == g0[y] {
      assert rg[y] == Row(pg, y) + [] + [];
    }
    forall y | |g0| <= y < |rg|
      ensures rg[y] == PathRow(labelsList, k, y - |g0|, y - 1, y + 1, s.directed)
                       + (if y == last.id then [first] else [])
                       + (if !s.directed && y == first.id then [last] else [])
    {
      assert Row(pg, y) == pg[y];
    }
  }

  /** add_path(["a", "b"]) on an empty undirected store: each row holds the other node. */
  lemma PathOfTwo()
    ensures AddPath(Empty(false), ["a", "b"]).graph == [[Node(1, "b")], [Node(0, "a")]]
  {
    var ls := ["a", "b"];
    var e := Empty(false);
    assert FreshLabels(e, ls);
    AddPathRows(e, ls);
    var g := AddPath(e, ls).graph;
    assert |g| == 2;
    assert g[0] == PathRow(ls, 2, 0, -1, 1, false) == [Node(1, "b")];
    assert g[1] == PathRow(ls, 2, 1, 0, 2, false) == [Node(0, "a")];
  }

  /** add_edge between two registered labels with known ids appends the Nodes with those ids. */
  lemma EdgeBetweenIds(s: State, label1: string, label2: string, id1: int, id2: int, directed: bool)
    requires Valid(s) && label1 in s.labels && label2 in s.labels
    requires s.identities[label1] == id1 && s.identities[label2] == id2 && s.directed == directed
    ensures var r := AddEdge(s, label1, label2);
      && r.edges == s.edges + 1 && |r.graph| == |s.graph|
      && RowsAppended(s.graph, r.graph, Node(id1, label1), Node(id2, label2), directed)
  {
    AddEdgeNoDedup(s, label1, label2);
  }

  /** A cycle over one fresh label is a self-loop: its new row holds the node once if directed, twice otherwise. */
  lemma CycleOfOneIsSelfLoop(s: State, name: string)
    requires Valid(s) && name != "" && name !in s.labels
    ensures var r := AddCycle(s, [name]);
      var node := Node(|s.graph|, name);
      && r.edges == s.edges + 1
      && |r.graph| == |s.graph| + 1
      && (forall i :: 0 <= i < |s.graph| ==> r.graph[i] == s.graph[i])
      && r.graph[|s.graph|] == if s.directed then [node] else [node, node]
  {
    assert FreshLabels(s, [name]);
    AddCycleFresh(s, [name]);
    var p := PathFrom(s, [name], 0);
    var t := PathStep(s, [name], 0);
    assert t == AddNode(s, name).state;
    assert AddPath(s, [name]) == p == PathFrom(t, [name], 1) == t;
    var node := Node(|s.graph|, name);
    assert Node(|s.graph| + |[name]| - 1, [name][|[name]| - 1]) == node;
    assert Node(|s.graph|, [name][0]) == node;
    SelfLoopRows(s.graph, AddCycle(s, [name]).graph, node, s.directed);
  }

  /** Pushing a node to its own, new and empty, row: one copy if directed, two otherwise, and no other row changes. */
  lemma SelfLoopRows(before: seq<seq<Node>>, after: seq<seq<Node>>, node: Node, directed: bool)
    requires node.id == |before| && |after| == |before| + 1
    requires RowsAppended(before + [[]], after, node, node, directed)
    ensures forall i :: 0 <= i < |before| ==> after[i] == before[i]
    ensures after[|before|] == if directed then [node] else [node, node]
  {
    assert Row(before + [[]], |before|) == [];
    assert forall i :: 0 <= i < |before| ==> Row(before + [[]], i) == before[i];
  }

  // ----------------------------------------------------- repeated add_node

  /** k successive calls of `add_node(label)`. */
  function AddNodeTimes(s: State, name: string, k: nat): (r: State)
    requires Valid(s)
    ensures Valid(r)
    decreases k
  {
    if k == 0 then s else AddNode(AddNodeTimes(s, name, k - 1), name).state
  }

  /** Repeating `add_node(label)` with a non-empty label adds it at most once. */
  lemma {:induction false} AddNodeTimesOnce(s: State, name: string, k: nat)
    requires Valid(s) && name != "" && k >= 1
    ensures AddNodeTimes(s, name, k) == AddNode(s, name).state
    decreases k
  {
    if k > 1 {
      AddNodeTimesOnce(s, name, k - 1);
    }
  }

  /** Ten `add_node("Foo")` calls on an empty store leave one node. */
  lemma TenFooOneNode(directed: bool)
    ensures |AddNodeTimes(Empty(directed), "Foo", 10).graph| == 1
  {
    AddNodeTimesOnce(Empty(directed), "Foo", 10);
  }

  /** The default labels "0", ..., "k-1". */
  function DefaultNames(k: nat): set<string>
    decreases k
  {
    if k == 0 then {} else DefaultNames(k - 1) + {NatToString(k - 1)}
  }

  /** The decimal rendering of j is a default label below k exactly when j < k. */
  lemma {:induction false} DefaultNamesMembers(k: nat, j: nat)
    ensures NatToString(j) in DefaultNames(k) <==> j < k
    decreases k
  {
    if k > 0 {
      DefaultNamesMembers(k - 1, j);
      if NatToString(j) == NatToString(k - 1) {
        NatToStringInjective(j, k - 1);
      }
    }
  }

  /** k calls of `add_node()` on an empty store register "0", ..., "k-1", each label with its own number as id. */
  lemma {:induction false} DefaultLabels(directed: bool, k: nat)
    ensures var r := AddNodeTimes(Empty(directed), "", k);
      && |r.graph| == k
      && r.labels == DefaultNames(k)
      && forall i :: 0 <= i < k ==> NatToString(i) in r.identities && r.identities[NatToString(i)] == i
    decreases k
  {
    if k > 0 {
      var p := AddNodeTimes(Empty(directed), "", k - 1);
      DefaultLabels(directed, k - 1);
      DefaultStep(p, k - 1);
    }
  }

  /** One more `add_node()` on a store holding exactly the default labels below n. */
  lemma DefaultStep(p: State, n: nat)
    requires Valid(p) && |p.graph| == n && p.labels == DefaultNames(n)
    requires forall i :: 0 <= i < n ==> NatToString(i) in p.identities && p.identities[NatToString(i)] == i
    ensures var r := AddNode(p, "").state;
      && |r.graph| == n + 1
      && r.labels == DefaultNames(n + 1)
      && forall i :: 0 <= i < n + 1 ==> NatToString(i) in r.identities && r.identities[NatToString(i)] == i
  {
    var l := NatToString(n);
    DefaultNamesMembers(n, n);
    assert DefaultLabel(p, "") == l && l !in p.labels;
    var r := AddNode(p, "").state;
    assert r.labels == p.labels + {l} && |r.graph| == n + 1 && r.identities == p.identities[l := n];
    forall i | 0 <= i < n + 1 ensures NatToString(i) in r.identities && r.identities[NatToString(i)] == i {
      if i < n && NatToString(i) == l {
        NatToStringInjective(i, n);
      }
    }
  }

  /** After `clear()` the default labels restart at "0". */
  lemma ClearRestartsDefaults(directed: bool)
    ensures AddNode(Empty(directed), "").node == Node(0, "0")
  {
  }

  // ----------------------------------------------------------- Node paths

  /**
   * Turn i of the add_path loop over Nodes: the existence test (add_node
   * under the node's label if it fails), then, from the second turn on, the
   * Node overload of add_edge with the previous Node as the caller passed it.
   */
  function PathNodesStep(s: State, nodesList: seq<Node>, i: nat): (r: Option<State>)
    requires Valid(s) && i < |nodesList|
    ensures r.Some? ==> Valid(r.value)
  {
    var t := Resolve(s, nodesList[i]).state;
    if i > 0 then AddEdgeNodes(t, nodesList[i - 1], nodesList[i]) else Some(t)
  }

  /**
   * The store after turns i, i+1, ... over Nodes, or None once a turn would
   * index out of range. Where defined, the turns keep ids distinct and only
   * append to the rows already there.
   */
  function PathNodesFrom(s: State, nodesList: seq<Node>, i: nat): (r: Option<State>)
    requires Valid(s) && i <= |nodesList|
    ensures r.Some? ==> Valid(r.value)
    ensures |s.graph| > 0 ==> r.Some?
    ensures r.Some? ==> |s.graph| <= |r.value.graph| && r.value.edges == s.edges + TurnsWithEdge(|nodesList|, i)
    ensures r.Some? && IdsDistinct(s) ==> IdsDistinct(r.value)
    ensures r.Some? ==> Extends(s.graph, r.value.graph)
    decreases |nodesList| - i
  {
    if i == |nodesList| then GrownExtends(s.graph, s.graph); Some(s)
    else
      PathNodesStepFacts(s, nodesList, i);
      match PathNodesStep(s, nodesList, i)
      case None => None
      case Some(t) =>
        PathNodesStepIdsDistinct(s, nodesList, i);
        PathNodesStepExtends(s, nodesList, i);
        var r := PathNodesFrom(t, nodesList, i + 1);
        if r.Some? then ExtendsTrans(s.graph, t.graph, r.value.graph); r else r
  }

  /** `add_path(nodes_list)`. */
  function AddPathNodes(s: State, nodesList: seq<Node>): (r: Option<State>)
    requires Valid(s)
    ensures r.Some? ==> Valid(r.value)
  {
    PathNodesFrom(s, nodesList, 0)
  }

  /** `add_cycle(nodes_list)`: nothing for an empty list, else the Node path loop and an edge from the last Node to the first. */
  function AddCycleNodes(s: State, nodesList: seq<Node>): (r: Option<State>)
    requires Valid(s)
    ensures r.Some? ==> Valid(r.value)
  {
    if |nodesList| == 0 then Some(s)
    else match AddPathNodes(s, nodesList)
      case None => None
      case Some(t) => AddEdgeNodes(t, nodesList[|nodesList| - 1], nodesList[0])
  }

  /** A turn is defined on a non-empty store, keeps every row, and counts one edge from the second turn on. */
  lemma PathNodesStepFacts(s: State, nodesList: seq<Node>, i: nat)
    requires Valid(s) && i < |nodesList|
    ensures var r := PathNodesStep(s, nodesList, i);
      && (|s.graph| > 0 ==> r.Some?)
      && (r.Some? ==> |s.graph| <= |r.value.graph| && r.value.edges == s.edges + (if i == 0 then 0 else 1))
  {
    ResolveFacts(s, nodesList[i]);
    if i > 0 {
      AddEdgeNodesFacts(Resolve(s, nodesList[i]).state, nodesList[i - 1], nodesList[i]);
    }
  }

  /** A turn of the Node path loop keeps ids distinct, whatever Nodes are passed. */
  lemma PathNodesStepIdsDistinct(s: State, nodesList: seq<Node>, i: nat)
    requires Valid(s) && i < |nodesList| && PathNodesStep(s, nodesList, i).Some?
    ensures IdsDistinct(s) ==> IdsDistinct(PathNodesStep(s, nodesList, i).value)
  {
    if IdsDistinct(s) {
      var t := Resolve(s, nodesList[i]).state;
      ResolveIdsDistinct(s, nodesList[i]);
      if i > 0 {
        AddEdgeNodesIdsDistinct(t, nodesList[i - 1], nodesList[i]);
      }
    }
  }

  /** add_path and add_cycle over Nodes keep ids distinct where they are defined. */
  lemma NodeListIdsDistinct(s: State, nodesList: seq<Node>)
    requires Valid(s) && IdsDistinct(s)
    ensures AddPathNodes(s, nodesList).Some? ==> IdsDistinct(AddPathNodes(s, nodesList).value)
    ensures AddCycleNodes(s, nodesList).Some? ==> IdsDistinct(AddCycleNodes(s, nodesList).value)
  {
    var k := |nodesList|;
    var p := PathNodesFrom(s, nodesList, 0);
    if k > 0 && p.Some? && AddEdgeNodes(p.value, nodesList[k - 1], nodesList[0]).Some? {
      AddEdgeNodesIdsDistinct(p.value, nodesList[k - 1], nodesList[0]);
    }
  }

  /** A defined turn of the Node path loop only appends to the rows already there. */
  lemma PathNodesStepExtends(s: State, nodesList: seq<Node>, i: nat)
    requires Valid(s) && i < |nodesList| && PathNodesStep(s, nodesList, i).Some?
    ensures Extends(s.graph, PathNodesStep(s, nodesList, i).value.graph)
  {
    var t := Resolve(s, nodesList[i]).state;
    ResolveFacts(s, nodesList[i]);
    if i > 0 {
      AddEdgeNodesFacts(t, nodesList[i - 1], nodesList[i]);
      var e := ResolveEnds(t, nodesList[i - 1], nodesList[i]);
      GrownAppendedExtends(s.graph, t.graph, AddEdgeNodes(t, nodesList[i - 1], nodesList[i]).value.graph,
                           e.first, e.second, t.directed);
    } else {
      GrownExtends(s.graph, t.graph);
    }
  }

  /** add_path and add_cycle over Nodes, where defined, only append to the rows already there. */
  lemma NodeListExtends(s: State, nodesList: seq<Node>)
    requires Valid(s)
    ensures AddPathNodes(s, nodesList).Some? ==> Extends(s.graph, AddPathNodes(s, nodesList).value.graph)
    ensures AddCycleNodes(s, nodesList).Some? ==> Extends(s.graph, AddCycleNodes(s, nodesList).value.graph)
  {
    var k := |nodesList|;
    var p := PathNodesFrom(s, nodesList, 0);
    if k == 0 {
      GrownExtends(s.graph, s.graph);
    } else if p.Some? {
      var r := AddEdgeNodes(p.value, nodesList[k - 1], nodesList[0]);
      if r.Some? {
        AddEdgeNodesFacts(p.value, nodesList[k - 1], nodesList[0]);
        var e := ResolveEnds(p.value, nodesList[k - 1], nodesList[0]);
        GrownAppendedExtends(p.value.graph, p.value.graph, r.value.graph, e.first, e.second, p.value.directed);
        ExtendsTrans(s.graph, p.value.graph, r.value.graph);
      }
    }
  }

  /** One turn of the Node path loop, then the rest. */
  lemma PathNodesFromUnfold(s: State, nodesList: seq<Node>, i: nat)
    requires Valid(s) && i < |nodesList|
    ensures PathNodesFrom(s, nodesList, i) ==
      if PathNodesStep(s, nodesList, i).Some? then PathNodesFrom(PathNodesStep(s, nodesList, i).value, nodesList, i + 1) else None
  {
  }

  /**
   * add_path and add_cycle over Nodes are defined on every non-empty store,
   * adding max(k-1, 0) and k to the edge counter; an empty list leaves a
   * cycle with nothing to do.
   */
  lemma NodeListEdges(s: State, nodesList: seq<Node>)
    requires Valid(s)
    ensures |s.graph| > 0 ==> AddPathNodes(s, nodesList).Some? && AddCycleNodes(s, nodesList).Some?
    ensures AddPathNodes(s, nodesList).Some? ==>
              AddPathNodes(s, nodesList).value.edges == s.edges + (if |nodesList| == 0 then 0 else |nodesList| - 1)
    ensures AddCycleNodes(s, nodesList).Some? ==>
              AddCycleNodes(s, nodesList).value.edges == s.edges + |nodesList|
    ensures |nodesList| == 0 ==> AddCycleNodes(s, nodesList) == Some(s)
  {
    var k := |nodesList|;
    var p := PathNodesFrom(s, nodesList, 0);
    if k > 0 && p.Some? {
      AddEdgeNodesFacts(p.value, nodesList[k - 1], nodesList[0]);
    }
  }

  /** Nodes whose ids match no id the store can hold. */
  predicate UnmatchedIds(nodes: seq<Node>) {
    forall i :: 0 <= i < |nodes| ==> nodes[i].id < 0
  }

  /**
   * Nodes with fresh labels and ids that never match: each turn registers the
   * node's label, and each edge call finds both ends registered under other
   * ids, so both are replaced by the Sentinel and no node is added there.
   */
  lemma {:induction false} PathNodesFromUnmatched(s: State, nodesList: seq<Node>, i: nat)
    requires Valid(s) && i <= |nodesList|
    requires FreshFrom(s, LabelsOf(nodesList), i) && UnmatchedIds(nodesList)
    requires i > 0 ==> nodesList[i - 1].name in s.labels
    ensures PathNodesFrom(s, nodesList, i).Some?
    ensures var r := PathNodesFrom(s, nodesList, i).value;
      && |r.graph| == |s.graph| + (|nodesList| - i)
      && r.labels == s.labels + ElementsFrom(LabelsOf(nodesList), i)
    decreases |nodesList| - i
  {
    if i < |nodesList| {
      var ls := LabelsOf(nodesList);
      var u := PathNodesStep(s, nodesList, i);
      PathNodesStepUnmatched(s, nodesList, i);
      var t := u.value;
      PathNodesFromUnmatched(t, nodesList, i + 1);
      PathNodesFromUnfold(s, nodesList, i);
      var r := PathNodesFrom(t, nodesList, i + 1);
      assert PathNodesFrom(s, nodesList, i) == r;
      UnionStep(r.value.labels, t.labels, s.labels, ls[i], ElementsFrom(ls, i + 1), ElementsFrom(ls, i));
    }
  }

  /** One turn over a Node with a fresh label and an unmatched id: its label is registered with a row of its own. */
  lemma PathNodesStepUnmatched(s: State, nodesList: seq<Node>, i: nat)
    requires Valid(s) && i < |nodesList|
    requires FreshFrom(s, LabelsOf(nodesList), i) && UnmatchedIds(nodesList)
    requires i > 0 ==> nodesList[i - 1].name in s.labels
    ensures PathNodesStep(s, nodesList, i).Some?
    ensures var t := PathNodesStep(s, nodesList, i).value;
      && t.labels == s.labels + {LabelsOf(nodesList)[i]} && |t.graph| == |s.graph| + 1
  {
    var n := nodesList[i];
    assert n.name == LabelsOf(nodesList)[i];
    ResolveUnregistered(s, n);
    var t := Resolve(s, n).state;
    if i > 0 {
      AddEdgeNodesRegistered(t, nodesList[i - 1], n);
    }
  }

  /** add_path and add_cycle over k Nodes with fresh labels and unmatched ids add exactly k nodes. */
  lemma NodeListUnmatched(s: State, nodesList: seq<Node>)
    requires Valid(s) && FreshLabels(s, LabelsOf(nodesList)) && UnmatchedIds(nodesList)
    ensures AddPathNodes(s, nodesList).Some? && |AddPathNodes(s, nodesList).value.graph| == |s.graph| + |nodesList|
    ensures AddCycleNodes(s, nodesList).Some? && |AddCycleNodes(s, nodesList).value.graph| == |s.graph| + |nodesList|
    ensures IdsInOrder(s, nodesList, AddPathNodes(s, nodesList).value, |nodesList|)
    ensures IdsInOrder(s, nodesList, AddCycleNodes(s, nodesList).value, |nodesList|)
  {
    NodeListSentinelRows(s, nodesList);
    var k := |nodesList|;
    var ls := LabelsOf(nodesList);
    PathNodesFromUnmatched(s, nodesList, 0);
    if k > 0 {
      var p := PathNodesFrom(s, nodesList, 0).value;
      ElementsFromMembers(ls, 0, ls[k - 1]);
      ElementsFromMembers(ls, 0, ls[0]);
      assert 0 <= k - 1 < k && ls[k - 1] == ls[k - 1];
      assert 0 <= 0 < k && ls[0] == ls[0];
      AddEdgeNodesRegistered(p, nodesList[k - 1], nodesList[0]);
    }
  }

  /** c copies of the Sentinel. */
  function Sentinels(c: nat): (r: seq<Node>)
    ensures |r| == c && forall k :: 0 <= k < c ==> r[k] == Sentinel
  {
    if c == 0 then [] else Sentinels(c - 1) + [Sentinel]
  }

  /** The number of Sentinels c edge calls with two mismatched ends push: one each if directed, else two. */
  function SentinelCount(calls: nat, directed: bool): nat {
    if directed then calls else 2 * calls
  }

  /** a Sentinels followed by the Sentinels one more call pushes are the Sentinels of one more call. */
  lemma SentinelsAdd(calls: nat, directed: bool)
    ensures Sentinels(SentinelCount(calls, directed)) + [Sentinel] + (if !directed then [Sentinel] else []) ==
            Sentinels(SentinelCount(calls + 1, directed))
  {
    var a := Sentinels(SentinelCount(calls, directed)) + [Sentinel] + (if !directed then [Sentinel] else []);
    var b := Sentinels(SentinelCount(calls + 1, directed));
    assert |a| == |b|;
    forall k | 0 <= k < |a| ensures a[k] == b[k] {
    }
  }

  /**
   * The rows of g after calls edge calls whose ends are both mismatched, on
   * top of s and added new nodes: every row of s and every new row is as
   * before, except that row 0 holds the Sentinels the calls pushed.
   */
  predicate SentinelRows(s: State, g: seq<seq<Node>>, added: nat, calls: nat, directed: bool) {
    && |g| == |s.graph| + added
    && forall y :: 0 <= y < |g| ==> g[y] == Row(s.graph, y) + (if y == 0 then Sentinels(SentinelCount(calls, directed)) else [])
  }

  /**
   * The store after the first j turns of the Node path loop over Nodes with
   * fresh labels and unmatched ids, run on s0: the labels from j on are still
   * unregistered, the first one and the one before j are registered, and the rows are those of
   * s0 with j new empty rows and max(j - 1, 0) calls' Sentinels in row 0.
   */
  predicate UnmatchedBuilt(s0: State, nodesList: seq<Node>, x: State, j: nat) {
    && j <= |nodesList| && x.directed == s0.directed
    && (forall m :: j <= m < |nodesList| ==> nodesList[m].name !in x.labels)
    && (j > 0 ==> nodesList[0].name in x.labels && nodesList[j - 1].name in x.labels)
    && IdsInOrder(s0, nodesList, x, j)
    && SentinelRows(s0, x.graph, j, if j == 0 then 0 else j - 1, s0.directed)
  }

  /** The labels of the first j Nodes are registered, in list order, under the ids that follow the rows of s0. */
  predicate IdsInOrder(s0: State, nodesList: seq<Node>, x: State, j: nat) {
    forall m :: 0 <= m < j && m < |nodesList| ==>
      nodesList[m].name in x.identities && x.identities[nodesList[m].name] == |s0.graph| + m
  }

  /**
   * One turn over a Node with a fresh label and an unmatched id: the label
   * gets a new empty row of its own, and from the second turn on the edge
   * call pushes the Sentinel into row 0 (twice unless directed).
   */
  lemma PathNodesStepSentinels(s: State, nodesList: seq<Node>, i: nat)
    requires Valid(s) && i < |nodesList|
    requires FreshFrom(s, LabelsOf(nodesList), i) && UnmatchedIds(nodesList)
    requires i > 0 ==> nodesList[i - 1].name in s.labels
    ensures PathNodesStep(s, nodesList, i).Some?
    ensures var t := PathNodesStep(s, nodesList, i).value;
      && t.labels == s.labels + {nodesList[i].name} && t.directed == s.directed
      && t.identities == s.identities[nodesList[i].name := |s.graph|]
      && SentinelRows(s, t.graph, 1, if i == 0 then 0 else 1, s.directed)
  {
    var n := nodesList[i];
    var u := Resolve(s, n).state;
    assert PathNodesStep(s, nodesList, i) == if i > 0 then AddEdgeNodes(u, nodesList[i - 1], n) else Some(u);
    assert n.name == LabelsOf(nodesList)[i];
    PathNodesStepUnmatched(s, nodesList, i);
    ResolveUnregistered(s, n);
    ResolveFacts(s, n);
    if i > 0 {
      var m := nodesList[i - 1];
      AddEdgeNodesRegistered(u, m, n);
      assert u.identities[m.name] != m.id && u.identities[n.name] != n.id;
      EdgeSentinelRows(s, u.graph, AddEdgeNodes(u, m, n).value.graph, s.directed);
    } else {
      GrownSentinelRows(s, u.graph);
    }
  }

  /** A new empty row and no edge call: SentinelRows with one node added and no calls. */
  lemma GrownSentinelRows(s: State, ug: seq<seq<Node>>)
    requires Grown(s.graph, ug) && |ug| == |s.graph| + 1
    ensures SentinelRows(s, ug, 1, 0, s.directed)
  {
    forall y | 0 <= y < |ug| ensures ug[y] == Row(s.graph, y) + (if y == 0 then Sentinels(SentinelCount(0, s.directed)) else []) {
      assert ug[y] == Row(s.graph, y) + [];
    }
  }

  /** A new empty row, then one edge call with both ends mismatched: SentinelRows with one call. */
  lemma EdgeSentinelRows(s: State, ug: seq<seq<Node>>, g: seq<seq<Node>>, directed: bool)
    requires Grown(s.graph, ug) && |ug| == |s.graph| + 1
    requires |g| == |ug| && RowsAppended(ug, g, Sentinel, Sentinel, directed)
    ensures SentinelRows(s, g, 1, 1, directed)
  {
    SentinelsAdd(0, directed);
    forall y | 0 <= y < |g|
      ensures g[y] == Row(s.graph, y) + (if y == 0 then Sentinels(SentinelCount(1, directed)) else [])
    {
      assert Row(ug, y) == Row(s.graph, y);
      if y > 0 {
        assert g[y] == Row(s.graph, y) + [] + [];
      }
    }
  }

  /** One more turn keeps UnmatchedBuilt, one Node further. */
  lemma UnmatchedBuiltStep(s0: State, nodesList: seq<Node>, x: State, j: nat)
    requires Valid(s0) && FreshLabels(s0, LabelsOf(nodesList)) && UnmatchedIds(nodesList)
    requires Valid(x) && j < |nodesList| && UnmatchedBuilt(s0, nodesList, x, j)
    ensures PathNodesStep(x, nodesList, j).Some?
    ensures UnmatchedBuilt(s0, nodesList, PathNodesStep(x, nodesList, j).value, j + 1)
  {
    var ls := LabelsOf(nodesList);
    assert FreshFrom(x, ls, j);
    PathNodesStepSentinels(x, nodesList, j);
    UnmatchedBuiltOf(s0, nodesList, x, PathNodesStep(x, nodesList, j).value, j);
  }

  /** The bookkeeping of UnmatchedBuiltStep, on the stores before and after the turn. */
  lemma UnmatchedBuiltOf(s0: State, nodesList: seq<Node>, x: State, t: State, j: nat)
    requires FreshLabels(s0, LabelsOf(nodesList)) && j < |nodesList| && UnmatchedBuilt(s0, nodesList, x, j)
    requires t.labels == x.labels + {nodesList[j].name} && t.directed == x.directed
    requires t.identities == x.identities[nodesList[j].name := |x.graph|]
    requires SentinelRows(x, t.graph, 1, if j == 0 then 0 else 1, x.directed)
    ensures UnmatchedBuilt(s0, nodesList, t, j + 1)
  {
    var ls := LabelsOf(nodesList);
    forall m | j + 1 <= m < |nodesList| ensures nodesList[m].name !in t.labels {
      assert ls[m] != ls[j] && nodesList[m].name !in x.labels;
    }
    forall m | 0 <= m < j ensures t.identities[nodesList[m].name] == x.identities[nodesList[m].name] {
      assert ls[m] != ls[j];
    }
    var c := if j == 0 then 0 else j - 1;
    forall y | 0 <= y < |t.graph|
      ensures t.graph[y] == Row(s0.graph, y) + (if y == 0 then Sentinels(SentinelCount(j, s0.directed)) else [])
    {
      if y < |x.graph| {
        assert x.graph[y] == Row(s0.graph, y) + (if y == 0 then Sentinels(SentinelCount(c, s0.directed)) else []);
        if y == 0 && j > 0 {
          SentinelsAdd(c, s0.directed);
          SentinelsAdd(0, s0.directed);
        }
      }
    }
  }

  /** Induction over the Node path loop: an invariant every turn keeps, and thereby defines, holds at the end. */
  lemma {:induction false} PathNodesFromInduction(inv: (State, nat) -> bool, s: State, nodesList: seq<Node>, i: nat)
    requires Valid(s) && i <= |nodesList| && inv(s, i)
    requires forall x: State, j: nat :: Valid(x) && j < |nodesList| && inv(x, j) ==>
               PathNodesStep(x, nodesList, j).Some? && inv(PathNodesStep(x, nodesList, j).value, j + 1)
    ensures PathNodesFrom(s, nodesList, i).Some? && inv(PathNodesFrom(s, nodesList, i).value, |nodesList|)
    decreases |nodesList| - i
  {
    if i < |nodesList| {
      PathNodesFromUnfold(s, nodesList, i);
      PathNodesFromInduction(inv, PathNodesStep(s, nodesList, i).value, nodesList, i + 1);
    }
  }

  /** A defined run of the Node path loop runs a defined turn, then the rest. */
  lemma PathNodesFromDefined(s: State, nodesList: seq<Node>, i: nat)
    requires Valid(s) && i < |nodesList| && PathNodesFrom(s, nodesList, i).Some?
    ensures PathNodesStep(s, nodesList, i).Some?
    ensures PathNodesFrom(s, nodesList, i) == PathNodesFrom(PathNodesStep(s, nodesList, i).value, nodesList, i + 1)
  {
    PathNodesFromUnfold(s, nodesList, i);
  }

  /** Induction over the Node path loop where it is defined: an invariant every defined turn keeps holds at a defined end. */
  lemma {:induction false} PathNodesFromInductionWhereDefined(inv: (State, nat) -> bool, s: State, nodesList: seq<Node>, i: nat)
    requires Valid(s) && i <= |nodesList| && inv(s, i)
    requires forall x: State, j: nat {:trigger PathNodesStep(x, nodesList, j)} ::
               Valid(x) && j < |nodesList| && inv(x, j) && PathNodesStep(x, nodesList, j).Some? ==>
               inv(PathNodesStep(x, nodesList, j).value, j + 1)
    ensures PathNodesFrom(s, nodesList, i).Some? ==> inv(PathNodesFrom(s, nodesList, i).value, |nodesList|)
    decreases |nodesList| - i, 1
  {
    if i == |nodesList| {
      assert PathNodesFrom(s, nodesList, i) == Some(s);
    } else if PathNodesFrom(s, nodesList, i).Some? {
      DefinedTurnInduction(inv, s, nodesList, i);
    }
  }

  /** The defined-turn case of PathNodesFromInductionWhereDefined. */
  lemma {:induction false} DefinedTurnInduction(inv: (State, nat) -> bool, s: State, nodesList: seq<Node>, i: nat)
    requires Valid(s) && i < |nodesList| && inv(s, i) && PathNodesFrom(s, nodesList, i).Some?
    requires forall x: State, j: nat {:trigger PathNodesStep(x, nodesList, j)} ::
               Valid(x) && j < |nodesList| && inv(x, j) && PathNodesStep(x, nodesList, j).Some? ==>
               inv(PathNodesStep(x, nodesList, j).value, j + 1)
    ensures inv(PathNodesFrom(s, nodesList, i).value, |nodesList|)
    decreases |nodesList| - i, 0
  {
    PathNodesFromDefined(s, nodesList, i);
    var t := PathNodesStep(s, nodesList, i).value;
    PathNodesFromInductionWhereDefined(inv, t, nodesList, i + 1);
  }

  /** add_path over Nodes with fresh labels and unmatched ids is the UnmatchedBuilt store after all turns. */
  lemma AddPathNodesUnmatchedBuilt(s: State, nodesList: seq<Node>)
    requires Valid(s) && FreshLabels(s, LabelsOf(nodesList)) && UnmatchedIds(nodesList)
    ensures AddPathNodes(s, nodesList).Some?
    ensures UnmatchedBuilt(s, nodesList, AddPathNodes(s, nodesList).value, |nodesList|)
  {
    forall x: State, j: nat | Valid(x) && j < |nodesList| && UnmatchedBuilt(s, nodesList, x, j)
      ensures PathNodesStep(x, nodesList, j).Some? && UnmatchedBuilt(s, nodesList, PathNodesStep(x, nodesList, j).value, j + 1)
    {
      UnmatchedBuiltStep(s, nodesList, x, j);
    }
    assert SentinelRows(s, s.graph, 0, 0, s.directed) by {
      forall y | 0 <= y < |s.graph| ensures s.graph[y] == Row(s.graph, y) + (if y == 0 then Sentinels(0) else []) {
        assert Sentinels(0) == [];
      }
    }
    assert UnmatchedBuilt(s, nodesList, s, 0);
    PathNodesFromInduction((x: State, j: nat) => UnmatchedBuilt(s, nodesList, x, j), s, nodesList, 0);
  }

  /**
   * add_path and add_cycle over k Nodes with fresh labels and ids that match
   * no table entry: k new empty rows, every old row unchanged, and row 0
   * holding one Sentinel per edge call (two unless directed), k - 1 calls for
   * the path and k for the cycle, since every edge call finds both ends
   * registered under other ids.
   */
  lemma NodeListSentinelRows(s: State, nodesList: seq<Node>)
    requires Valid(s) && FreshLabels(s, LabelsOf(nodesList)) && UnmatchedIds(nodesList)
    ensures AddPathNodes(s, nodesList).Some? && AddCycleNodes(s, nodesList).Some?
    ensures SentinelRows(s, AddPathNodes(s, nodesList).value.graph, |nodesList|, TurnsWithEdge(|nodesList|, 0), s.directed)
    ensures SentinelRows(s, AddCycleNodes(s, nodesList).value.graph, |nodesList|, |nodesList|, s.directed)
    ensures IdsInOrder(s, nodesList, AddPathNodes(s, nodesList).value, |nodesList|)
    ensures IdsInOrder(s, nodesList, AddCycleNodes(s, nodesList).value, |nodesList|)
  {
    var k := |nodesList|;
    if k > 0 {
      var last := nodesList[k - 1];
      var first := nodesList[0];
      assert AddPathNodes(s, nodesList).Some? ==>
        AddCycleNodes(s, nodesList) == AddEdgeNodes(AddPathNodes(s, nodesList).value, last, first);
      AddPathNodesUnmatchedBuilt(s, nodesList);
      ClosingSentinels(s, AddPathNodes(s, nodesList).value, last, first, k);
    } else {
      AddPathNodesUnmatchedBuilt(s, nodesList);
      assert SentinelRows(s, AddCycleNodes(s, nodesList).value.graph, 0, 0, s.directed);
    }
  }

  /** The closing edge of a cycle over k Nodes with unmatched ids adds the k-th call's Sentinels to row 0. */
  lemma ClosingSentinels(s: State, p: State, last: Node, first: Node, k: nat)
    requires Valid(p) && last.name in p.labels && first.name in p.labels && last.id < 0 && first.id < 0
    requires k > 0 && p.directed == s.directed && SentinelRows(s, p.graph, k, k - 1, s.directed)
    ensures AddEdgeNodes(p, last, first).Some?
    ensures SentinelRows(s, AddEdgeNodes(p, last, first).value.graph, k, k, s.directed)
    ensures AddEdgeNodes(p, last, first).value.identities == p.identities
  {
    AddEdgeNodesRegistered(p, last, first);
    var rg := AddEdgeNodes(p, last, first).value.graph;
    assert RowsAppended(p.graph, rg, Sentinel, Sentinel, s.directed);
    ClosingRows(s, p.graph, rg, k);
  }

  /** The row bookkeeping of ClosingSentinels, on the rows alone. */
  lemma ClosingRows(s: State, pg: seq<seq<Node>>, rg: seq<seq<Node>>, k: nat)
    requires k > 0 && SentinelRows(s, pg, k, k - 1, s.directed)
    requires |rg| == |pg| && RowsAppended(pg, rg, Sentinel, Sentinel, s.directed)
    ensures SentinelRows(s, rg, k, k, s.directed)
  {
    forall y | 0 <= y < |rg|
      ensures rg[y] == Row(s.graph, y) + (if y == 0 then Sentinels(SentinelCount(k, s.directed)) else [])
    {
      SentinelsAdd(k - 1, s.directed);
      if y > 0 {
        assert rg[y] == Row(pg, y) + [] + [];
      }
    }
  }

}
