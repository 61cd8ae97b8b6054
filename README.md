# graphw's graph store, in Dafny

This project models `graphw::Graph`, the adjacency store at the heart of the
graphw drawing library (`graphw/graphw.hpp`). It also models the
configuration part of the four drawing classes derived from it. It proves
what each operation does to the store.

The store has five members:

- `graph`: one neighbour row per node, indexed by node id. Each row holds
  copies of `Node{id, label}` values.
- `labels`: the set of registered labels.
- `identities`: the label-to-id table, a `std::unordered_map`.
- `edges`: a counter of `add_edge` calls.
- `directed_`: the flag that decides whether an edge is appended to one row
  or to both.

The model has two layers.

- **Values** (`GraphState`, `GraphPaths`, `Decimal`). A `State` datatype
  holds the five members. Every primitive is a function from the old state
  to the new one:
  - `add_node`;
  - the `operator[]` lookup;
  - `add_edge(label, label)`, split into its registering half and its
    appending half;
  - `does_node_exist`;
  - `add_edge(Node, Node)`;
  - `add_path` and `add_cycle`, over labels and over Nodes.

  The path functions run the source loop one turn at a time, from turn `i`
  to the end of the list. The defaulted label `std::to_string(id)` is
  `Decimal.NatToString`, which is proved to be injective and to round-trip
  through `ParseDecimal`. The lemmas state what the source and its tests
  promise (counts, ids, rows, tables), in terms of these functions.
- **The class** (`Graphw.Graph`). It has the same five fields. Its methods
  update them in place, step by step as the header does, including the
  `add_path`/`add_cycle` loops with their `previous`/`first` variables.
  Each method is proved to leave `Abs()`, the fields read as a `State`,
  equal to the value function applied to the old `Abs()`.

Six behaviours of the header are modelled as written:

- `does_node_exist` reads `identities[label]` through `operator[]`. That
  inserts `label -> 0` for an unregistered label, so the table can hold
  entries for labels that are not registered (`GraphState.Index`,
  `GraphQuirks.PhantomEntry`).
- `add_node` does not throw on a duplicate label. It returns `{0, ""}`
  (`GraphState.Sentinel`) and changes nothing.
- The Node overload of `add_edge` replaces an end that fails the existence
  test with whatever `add_node` returns. That can be the Sentinel, which is
  then appended to a row, and the edge goes to row 0
  (`GraphQuirks.SentinelReachesAdjacency`).
- `add_edge` neither deduplicates nor special-cases self-loops
  (`GraphState.AddEdgeNoDedup`, `GraphPaths.CycleOfOneIsSelfLoop`).
- `add_edge("", label2)` registers the empty label under its default
  `std::to_string(id)`, but then reads `identities[""]`, which is the
  phantom 0. The edge goes to row 0, and the new node's row stays empty
  (`GraphQuirks.EmptyLabelEdge`).
- The Node tests build the list `{i, std::to_string(i)}`. On an empty store
  the first Node `{0, "0"}` "exists" through the phantom rule and is never
  added, and every later label is added one id below the id the list gives
  it, so each edge call pushes Sentinels into row 0. Three such Nodes give
  two nodes, not three (`GraphQuirks.PhantomPath`).

`IdsDistinct` means that no two registered labels share an id. On values
it is a separate predicate, proved to be preserved by `add_node`,
`operator[]`, both overloads of `add_edge`, and `add_path` and `add_cycle`
over labels and over Nodes. In the class it is part of the object
invariant `Valid()`, which the constructor establishes and every method
keeps.

`GraphSymmetry.SymmetricById` is the promise of an undirected graph: for
all ids i and j, row i holds as many entries with id j as row j holds with
id i. It counts ids rather than Nodes, since an entry can carry a label
other than the registered one (the Sentinel, or a caller's Node that passed
the phantom rule). The empty store has it, and `add_node`, `operator[]`,
both overloads of `add_edge`, and `add_path` and `add_cycle` over labels
and over Nodes keep it on an undirected store.

In the derived classes that declare their own constructor
(`CircularLayout`, `RandomLayout`, `SpiralLayout`), the constructor writes
the argument into a private `directed_` of their own. The base `Graph` is
default-constructed, so the inherited `directed()` starts false whatever
the argument. `ArcDiagram` inherits the `Graph` constructor instead, so its
argument does reach the base flag. The code is followed here:
`Layouts.ShadowedFlag` and `Layouts.InheritedFlag` show both cases.

## Model

| member | source | states |
|---|---|---|
| Decimal.NatToString | graphw/graphw.hpp:29 | the default label for an id is never empty |
| Decimal.NatToStringDigits | graphw/graphw.hpp:29 | the default label is all digits, with no sign, and starts with '0' only for id 0 |
| Decimal.ParseNatToString | graphw/graphw.hpp:29 | reading the default label back as a decimal number gives the id it was made from |
| Decimal.NatToStringInjective | graphw/graphw.hpp:29 | distinct ids get distinct default labels |
| GraphState.Empty | graphw/graphw.hpp:20-21 | a new store has no rows, no labels, an empty table, a zero counter and the given flag; it satisfies the invariant and IdsDistinct |
| GraphState.GrownTrans | graphw/graphw.hpp:36 | keeping every old row while adding empty ones is transitive |
| GraphState.ExtendsTrans | graphw/graphw.hpp:70-73 | if every row of a is a prefix of the same row of b, and b's of c's, then a's rows are prefixes of c's |
| GraphState.GrownExtends | graphw/graphw.hpp:36 | keeping every row and adding empty ones loses nothing from any row |
| GraphState.GrownAppendedExtends | graphw/graphw.hpp:36-73 | adding empty rows and then appending to rows keeps every old row as a prefix of its new row |
| GraphState.GetNodeFresh | graphw/graphw.hpp:208-213 | get_node keeps the label and proposes an id above every registered label's id |
| GraphState.DefaultLabel | graphw/graphw.hpp:26-30 | the label add_node works with is never empty, and is the caller's label when that is not empty |
| GraphState.AddNode | graphw/graphw.hpp:25-46 | the returned Node is the Sentinel exactly when the defaulted label was already registered, and then nothing changes; otherwise the Node is {old node count, label}, the label is registered, one empty row is appended and the table maps the label to its id; the counter and the flag never change; the invariant is kept |
| GraphState.AddNodeIdsDistinct | graphw/graphw.hpp:32-38 | add_node keeps registered ids pairwise distinct |
| GraphState.AddNodeGrown | graphw/graphw.hpp:35-36 | add_node keeps every row and adds at most an empty one |
| GraphState.Index | graphw/graphw.hpp:218 | operator[] changes only the table, and only at that label: a present entry is read unchanged, an absent one is inserted as 0; an unregistered label reads 0, a registered one reads an id that has a row |
| GraphState.RegisterMissing | graphw/graphw.hpp:53-60 | registering a missing label keeps the counter and flag, only adds labels (exactly the given one when it is not empty) and adds at most one row |
| GraphState.RegisterMissingKeeps | graphw/graphw.hpp:53-60 | registering keeps every row and every registered label's id |
| GraphState.Push | graphw/graphw.hpp:70-73 | the appends change only the rows: the labels, the table, the counter, the flag and the row count stay |
| GraphState.PushRows | graphw/graphw.hpp:70-73 | row by row, node2 is appended to row node1.id and, unless directed, node1 to row node2.id; every other row is unchanged |
| GraphState.IndexInRange | graphw/graphw.hpp:63-69 | operator[] on a registered label, or on "" once a node exists, yields an id that has a row |
| GraphState.Prepared | graphw/graphw.hpp:49-60 | the first half of add_edge counts one call, only adds labels, adds at most two rows, and leaves both labels readable as row ids |
| GraphState.Link | graphw/graphw.hpp:62-73 | the second half of add_edge keeps the labels, counter, flag and row count |
| GraphState.AddEdge | graphw/graphw.hpp:49-74 | add_edge(label1, label2) adds exactly one to the counter, keeps the flag, only adds labels and adds at most two rows |
| GraphState.PreparedKeeps | graphw/graphw.hpp:53-60 | registering both labels keeps every row and every registered id |
| GraphState.PreparedFresh | graphw/graphw.hpp:53-60 | with non-empty labels, exactly the two labels are added to the registered ones, and the missing ones get the next ids in argument order |
| GraphState.LinkRows | graphw/graphw.hpp:62-73 | with both labels registered, the table does not change and exactly the two registered Nodes are appended |
| GraphState.AddEdgeTables | graphw/graphw.hpp:49-74 | with non-empty labels, add_edge registers exactly the two labels and moves no registered id |
| GraphState.AddEdgeEffect | graphw/graphw.hpp:49-74 | with non-empty labels, the missing labels get the next ids in order, {id(label2), label2} is appended to row id(label1), and {id(label1), label1} to row id(label2) unless directed; no other row changes |
| GraphState.AddEdgeNoDedup | graphw/graphw.hpp:70-73 | repeating add_edge on two registered labels appends the same Nodes again |
| GraphState.AddEdgeRows | graphw/graphw.hpp:49-74 | for any labels, the empty one included, both labels end in the table, {identities[label2], label2} is appended to row identities[label1] and, unless directed, {identities[label1], label1} to row identities[label2]; no other row changes and no row loses anything |
| GraphState.SameTablesIdsDistinct | graphw/graphw.hpp:201-202 | IdsDistinct depends only on the labels and the table |
| GraphState.IndexIdsDistinct | graphw/graphw.hpp:218 | the inserted 0 entry never makes two registered labels share an id |
| GraphState.RegisterMissingIdsDistinct | graphw/graphw.hpp:53-60 | registering a missing label keeps ids distinct |
| GraphState.PreparedIdsDistinct | graphw/graphw.hpp:49-60 | the first half of add_edge keeps ids distinct |
| GraphState.LinkIdsDistinct | graphw/graphw.hpp:62-73 | the second half of add_edge keeps ids distinct |
| GraphState.AddEdgeIdsDistinct | graphw/graphw.hpp:49-74 | add_edge(label1, label2) keeps ids distinct |
| GraphState.NodeExists | graphw/graphw.hpp:217-220 | does_node_exist is true iff the node's id equals the operator[] reading of its label, and leaves the state operator[] leaves |
| GraphState.Resolve | graphw/graphw.hpp:82-87 | resolving one end of the Node overload keeps the invariant |
| GraphState.ResolveFacts | graphw/graphw.hpp:82-87 | resolving keeps the counter, flag, rows and labels, adds at most one row, and on a non-empty store yields an id that has a row |
| GraphState.ResolveRegistered | graphw/graphw.hpp:82-87 | for a registered label, the caller's Node is kept when its id matches the table; otherwise the Sentinel replaces it and nothing changes |
| GraphState.ResolveUnregistered | graphw/graphw.hpp:217-220 | for an unregistered label, id 0 "exists" and only leaves the phantom entry label -> 0; for a non-empty unregistered label, any other id registers the label as a new node with the next id |
| GraphState.ResolveEnds | graphw/graphw.hpp:79-87 | counting the call and resolving both ends keeps the invariant |
| GraphState.ResolveEndsFacts | graphw/graphw.hpp:79-87 | counting and resolving adds one to the counter, keeps the flag, only adds labels, adds at most two rows, and on a non-empty store yields ends that have rows |
| GraphState.ResolveEndsGrown | graphw/graphw.hpp:79-87 | resolving both ends keeps every row |
| GraphState.AddEdgeNodes | graphw/graphw.hpp:77-92 | add_edge(Node, Node) keeps the invariant where it is defined (None where a resolved id has no row) |
| GraphState.AddEdgeNodesFacts | graphw/graphw.hpp:77-92 | the Node overload adds exactly one to the counter, keeps the flag, only adds labels, adds at most two rows, appends exactly the resolved Nodes, and is defined on every non-empty store |
| GraphState.ResolveIdsDistinct | graphw/graphw.hpp:82-87 | resolving one end keeps ids distinct |
| GraphState.AddEdgeNodesIdsDistinct | graphw/graphw.hpp:77-92 | the Node overload keeps ids distinct, whatever Nodes are passed |
| GraphState.AddEdgeNodesRegistered | graphw/graphw.hpp:77-92 | with both labels registered, no node or table entry is added; each end is the caller's Node when its id matches and the Sentinel otherwise, and exactly those are appended |
| GraphQuirks.TwoNodes | graphw/graphw.hpp:25-46 | two add_node calls on an empty store give rows [[], []] and the table a -> 0, b -> 1 |
| GraphQuirks.SentinelReachesAdjacency | graphw/graphw.hpp:82-91 | add_edge({1,"a"}, {1,"b"}) with a -> 0, b -> 1 leaves rows [[{1,"b"}], [Sentinel]]: the Sentinel is stored in row 1 and the edge goes to row 0 |
| GraphQuirks.PhantomEntry | tests/graphw.cpp:52-58 | add_edge({0,"1"}, {1,"2"}) on an empty store counts one edge, adds one node "2" with id 0, and leaves the phantom entry "1" -> 0 and the single row [{0,"2"}, {0,"1"}] |
| GraphQuirks.EmptyLabelEdge | graphw/graphw.hpp:49-74 | add_edge("", "x") on the store {a -> 0, b -> 1} registers "2" with id 2 and "x" with id 3, inserts the phantom entry "" -> 0, counts one edge and leaves the rows [[{3,"x"}], [], [], [{0,""}]] |
| GraphQuirks.EmptyLabelPrepared | graphw/graphw.hpp:50-60 | the registering half of that call: "" becomes "2" with id 2, then "x" gets id 3, four empty rows |
| GraphQuirks.PhantomPath | tests/graphw.cpp:62-78 | add_path({0,"0"}, {1,"1"}, {2,"2"}) on an empty undirected store is defined and leaves two nodes, "1" and "2", two counted edges and the rows [[Sentinel, {0,"0"}, Sentinel, Sentinel], []] |
| GraphPaths.ElementsFromMembers | graphw/graphw.hpp:98 | a label is among the list's labels from index i on iff some index at or after i holds it |
| GraphPaths.ElementsFromHas | graphw/graphw.hpp:98 | each label at or after index i is among them |
| GraphPaths.ElementsFromAll | graphw/graphw.hpp:98 | from index 0 they are the list's members |
| GraphPaths.LabelsOf | graphw/graphw.hpp:115 | the labels of a list of Nodes, in order |
| GraphPaths.PathStep | graphw/graphw.hpp:97-106 | one turn of the label path loop keeps the invariant |
| GraphPaths.PathFrom | graphw/graphw.hpp:95-109 | the remaining turns of the label path loop keep the invariant |
| GraphPaths.AddPath | graphw/graphw.hpp:95-109 | add_path(labels_list) keeps the invariant |
| GraphPaths.AddCycle | graphw/graphw.hpp:128-148 | add_cycle(labels_list) keeps the invariant |
| GraphPaths.PathFromEdges | graphw/graphw.hpp:102-104 | turns i to the end add one to the counter per turn after the first, and keep the flag |
| GraphPaths.AddPathEdges | test/test_graphw.cpp:81-96 | add_path over k labels adds max(k-1, 0) to the edge counter |
| GraphPaths.AddPathDirected | graphw/graphw.hpp:95-109 | add_path keeps the flag |
| GraphPaths.AddCycleEdges | test/test_graphw.cpp:116-130 | add_cycle over k labels adds k to the edge counter; an empty list changes nothing |
| GraphPaths.PathStepIdsDistinct | graphw/graphw.hpp:97-106 | one turn of the label path loop keeps ids distinct |
| GraphPaths.PathFromInduction | graphw/graphw.hpp:98-106 | a property of the store and the turn index that every turn preserves holds after the remaining turns |
| GraphPaths.PathFromIdsDistinct | graphw/graphw.hpp:95-109 | the remaining turns keep ids distinct |
| GraphPaths.LabelListIdsDistinct | graphw/graphw.hpp:95-148 | add_path and add_cycle over labels keep ids distinct |
| GraphPaths.PathStepExtends | graphw/graphw.hpp:97-106 | one turn, whatever the labels, loses nothing from any row |
| GraphPaths.PathFromExtends | graphw/graphw.hpp:95-109 | the remaining turns lose nothing from any row |
| GraphPaths.LabelListExtends | graphw/graphw.hpp:95-148 | add_path and add_cycle over any labels only append to the rows already there |
| GraphPaths.PathStepFresh | graphw/graphw.hpp:97-106 | a turn with a fresh label gives it the next id and one row, and moves no registered id |
| GraphPaths.PathStepLabels | graphw/graphw.hpp:97-106 | a turn with a non-empty label registers exactly that label |
| GraphPaths.PathFromLabels | graphw/graphw.hpp:95-109 | with no "" in the list, turns i to the end register exactly the labels from index i on |
| GraphPaths.AddPathLabels | graphw/graphw.hpp:95-109 | with no "" in the list, add_path registers exactly the list's labels |
| GraphPaths.PathFromFresh | graphw/graphw.hpp:95-109 | over fresh distinct labels, turns i to the end add one node per turn, give label j the id |graph| + (j - i), and move no registered id |
| GraphPaths.AddPathFresh | test/test_graphw.cpp:81-96 | add_path over k fresh labels adds k nodes with ids in list order and adds max(k-1, 0) edges |
| GraphPaths.AddCycleFresh | test/test_graphw.cpp:116-130 | add_cycle over k >= 1 fresh labels adds k nodes and k edges, and the closing edge appends the first node to the last node's row (and, unless directed, the last node to the first's) |
| GraphPaths.PathStepRows | graphw/graphw.hpp:99-104 | a turn with a fresh label adds its row, holding the previous label's Node unless it is the first turn or directed, and appends the new Node to the previous label's row; every other row is unchanged |
| GraphPaths.PathBuiltStep | graphw/graphw.hpp:98-106 | one more turn keeps the built-path invariant: node count, the labels yet to come still fresh, the previous label at the last id, the old rows unchanged, and each new row holding the Nodes of its neighbours in the list |
| GraphPaths.AddPathBuilt | graphw/graphw.hpp:95-109 | add_path over fresh labels satisfies the built-path invariant for the whole list |
| GraphPaths.AddPathRows | graphw/graphw.hpp:95-109 | over k fresh distinct non-empty labels, the old rows are unchanged and k rows are added; the row of label j holds label j-1's Node (unless j is 0 or the store is directed) and then label j+1's Node (unless j is the last) |
| GraphPaths.AddCycleRows | graphw/graphw.hpp:128-148 | over k >= 1 fresh labels, the rows are the path's, with the first label's Node appended to the last label's row and, unless directed, the last label's Node appended to the first label's row |
| GraphPaths.CycleRows | graphw/graphw.hpp:146 | the closing add_edge appends those two Nodes to the built path's rows |
| GraphPaths.PathOfTwo | graphw/graphw.hpp:95-109 | add_path(["a", "b"]) on an empty undirected store gives the rows [[{1,"b"}], [{0,"a"}]] |
| GraphPaths.EdgeBetweenIds | graphw/graphw.hpp:62-73 | add_edge between registered labels with known ids appends the Nodes with those ids and no row |
| GraphPaths.CycleOfOneIsSelfLoop | graphw/graphw.hpp:128-148 | add_cycle over one fresh label is a self-loop: one new row holding the node once if directed and twice otherwise; the old rows are unchanged and one edge is counted |
| GraphPaths.SelfLoopRows | graphw/graphw.hpp:70-73 | pushing a node into its own new empty row leaves it there once if directed and twice otherwise, and changes no other row |
| GraphPaths.AddNodeTimes | test/test_graphw.cpp:52-55 | repeated add_node calls keep the invariant |
| GraphPaths.AddNodeTimesOnce | graphw/graphw.hpp:31-45 | repeating add_node with a non-empty label has the effect of one call |
| GraphPaths.TenFooOneNode | test/test_graphw.cpp:49-58 | ten add_node("Foo") calls on an empty store leave one node |
| GraphPaths.DefaultNamesMembers | graphw/graphw.hpp:29 | the default label of j is among those of 0 .. k-1 iff j < k |
| GraphPaths.DefaultLabels | tests/graphw.cpp:15-30 | k add_node() calls on an empty store give k nodes labelled "0" .. "k-1", each label mapped to its own number |
| GraphPaths.DefaultStep | graphw/graphw.hpp:25-38 | one more add_node() on a store holding the default labels below n registers the label for n with id n |
| GraphPaths.ClearRestartsDefaults | test/test_graphw.cpp:27-47 | on a cleared store, add_node() returns {0, "0"} |
| GraphPaths.PathNodesStep | graphw/graphw.hpp:114-122 | one turn of the Node path loop keeps the invariant where it is defined |
| GraphPaths.PathNodesFrom | graphw/graphw.hpp:112-125 | the remaining turns are defined on every non-empty store; where defined they add one to the counter per turn after the first, keep ids distinct, and only append to the rows already there |
| GraphPaths.AddPathNodes | graphw/graphw.hpp:112-125 | add_path(nodes_list) keeps the invariant where it is defined |
| GraphPaths.AddCycleNodes | graphw/graphw.hpp:151-170 | add_cycle(nodes_list) keeps the invariant where it is defined |
| GraphPaths.PathNodesStepFacts | graphw/graphw.hpp:114-122 | a Node turn is defined on a non-empty store, loses no row, and counts one edge from the second turn on |
| GraphPaths.NodeListEdges | test/test_graphw.cpp:97-113 | on a non-empty store add_path and add_cycle over Nodes are defined, and they add max(k-1, 0) and k to the edge counter; an empty cycle list changes nothing |
| GraphPaths.PathNodesStepIdsDistinct | graphw/graphw.hpp:114-122 | a defined Node turn keeps ids distinct, whatever Nodes are passed |
| GraphPaths.NodeListIdsDistinct | graphw/graphw.hpp:112-170 | add_path and add_cycle over Nodes keep ids distinct where they are defined |
| GraphPaths.PathNodesStepExtends | graphw/graphw.hpp:114-122 | a defined Node turn only appends to the rows already there |
| GraphPaths.NodeListExtends | graphw/graphw.hpp:112-170 | add_path and add_cycle over Nodes, where defined, only append to the rows already there |
| GraphPaths.PathNodesFromUnmatched | graphw/graphw.hpp:112-125 | Nodes with fresh labels and ids that never match add one node per turn and register exactly their labels |
| GraphPaths.PathNodesStepUnmatched | graphw/graphw.hpp:114-122 | one such turn registers the Node's label with one new row |
| GraphPaths.NodeListUnmatched | test/test_graphw.cpp:131-146 | add_path and add_cycle over k Nodes with fresh labels and unmatched ids add exactly k nodes, the m-th label registered under the m-th new id |
| GraphPaths.PathNodesStepSentinels | graphw/graphw.hpp:114-122 | a turn over a Node with a fresh label and an unmatched id is defined, registers the label under the next id with a new empty row and, from the second turn on, appends the Sentinel to row 0, twice unless directed; no other row changes |
| GraphPaths.UnmatchedBuiltStep | graphw/graphw.hpp:114-122 | one more such turn keeps the invariant: the labels yet to come still fresh, the labels so far registered in list order under the ids after the old rows, one new empty row per Node, and row 0 holding one Sentinel per edge call so far (two unless directed) |
| GraphPaths.PathNodesFromInduction | graphw/graphw.hpp:114-122 | if every turn from a store with a property is defined and keeps it, the remaining turns are defined and keep it |
| GraphPaths.PathNodesFromInductionWhereDefined | graphw/graphw.hpp:114-122 | if every defined turn from a store with a property keeps it, the remaining turns, where defined, end in a store with it |
| GraphPaths.AddPathNodesUnmatchedBuilt | graphw/graphw.hpp:112-125 | add_path over such Nodes is defined and satisfies that invariant for the whole list |
| GraphPaths.NodeListSentinelRows | graphw/graphw.hpp:112-170 | over k Nodes with fresh labels and unmatched ids, add_path and add_cycle are defined, register the m-th label under the m-th id after the old rows, add k empty rows, keep every other row, and append to row 0 one Sentinel per edge call (k-1 for the path, k for the cycle), twice each unless directed |
| GraphPaths.ClosingSentinels | graphw/graphw.hpp:169 | the closing add_edge of such a cycle is defined, leaves the table alone and adds its Sentinels to row 0 |
| GraphSymmetry.CountRowAppended | graphw/graphw.hpp:70-73 | an undirected push adds one entry with id b to row a and one with id a to row b, and changes no other count |
| GraphSymmetry.AppendedSymmetric | graphw/graphw.hpp:70-73 | the two pushes of an undirected edge keep the store symmetric |
| GraphSymmetry.EmptySymmetric | graphw/graphw.hpp:20-21 | a new store is symmetric |
| GraphSymmetry.AddNodeSymmetric | graphw/graphw.hpp:25-46 | add_node, and operator[] (graphw.hpp:218), keep the store symmetric |
| GraphSymmetry.RegisterMissingSymmetric | graphw/graphw.hpp:53-56 | registering a missing label keeps the store symmetric |
| GraphSymmetry.AddEdgeSymmetric | graphw/graphw.hpp:49-74 | add_edge(label1, label2) keeps an undirected store symmetric, for any labels, the empty one included |
| GraphSymmetry.AddEdgeNodesSymmetric | graphw/graphw.hpp:77-92 | add_edge(Node, Node), where defined, keeps an undirected store symmetric, for any Nodes, Sentinel ends included |
| GraphSymmetry.PathStepSymmetric | graphw/graphw.hpp:97-106 | one turn of the label path loop keeps an undirected store undirected and symmetric |
| GraphSymmetry.LabelListSymmetric | graphw/graphw.hpp:95-148 | add_path and add_cycle over labels keep an undirected store symmetric |
| GraphSymmetry.PathNodesStepSymmetric | graphw/graphw.hpp:114-122 | a defined Node turn keeps an undirected store undirected and symmetric |
| GraphSymmetry.PathNodesFromSymmetric | graphw/graphw.hpp:112-125 | the remaining Node turns, where defined, end in an undirected symmetric store |
| GraphSymmetry.NodeListSymmetric | graphw/graphw.hpp:112-170 | add_path and add_cycle over Nodes, where defined, keep an undirected store symmetric |
| Graphw.Graph.constructor | graphw/graphw.hpp:20-21 | the fields are those of an empty store with the given flag, false by default |
| Graphw.Graph.AddNode | graphw/graphw.hpp:25-46 | with the label "" by default, the new fields and the returned Node are what GraphState.AddNode prescribes |
| Graphw.Graph.Identity | graphw/graphw.hpp:218 | the new fields and the id read are as GraphState.Index prescribes |
| Graphw.Graph.DoesNodeExist | graphw/graphw.hpp:217-220 | the new fields and the answer are as GraphState.NodeExists prescribes |
| Graphw.Graph.RegisterIfMissing | graphw/graphw.hpp:53-56 | the new fields are as GraphState.RegisterMissing prescribes |
| Graphw.Graph.AddEdge | graphw/graphw.hpp:49-74 | the new fields are as GraphState.AddEdge prescribes |
| Graphw.Graph.PrepareLabels | graphw/graphw.hpp:50-60 | the new fields are as GraphState.Prepared prescribes |
| Graphw.Graph.CountEdge | graphw/graphw.hpp:51 | only the counter changes, by one, and the object invariant is kept |
| Graphw.Graph.LinkLabels | graphw/graphw.hpp:61-73 | the new fields are as GraphState.Link prescribes |
| Graphw.Graph.PushEnds | graphw/graphw.hpp:88-91 | the new fields are as GraphState.Push prescribes |
| Graphw.Graph.AddEdgeNodes | graphw/graphw.hpp:77-92 | where the value model is defined, the new fields are as GraphState.AddEdgeNodes prescribes |
| Graphw.Graph.PathTurn | graphw/graphw.hpp:98-104 | one loop turn leaves the fields as GraphPaths.PathStep prescribes |
| Graphw.Graph.AddPath | graphw/graphw.hpp:95-109 | the loop leaves the fields as GraphPaths.AddPath prescribes |
| Graphw.Graph.PathNodesTurn | graphw/graphw.hpp:115-120 | one loop turn leaves the fields as GraphPaths.PathNodesStep prescribes |
| Graphw.Graph.AddPathNodes | graphw/graphw.hpp:112-125 | where the value model is defined, the loop leaves the fields as GraphPaths.AddPathNodes prescribes |
| Graphw.Graph.AddCycle | graphw/graphw.hpp:128-148 | the fields end as GraphPaths.AddCycle prescribes |
| Graphw.Graph.CycleLoop | graphw/graphw.hpp:130-145 | the loop leaves the fields as GraphPaths.AddPath prescribes, with the last label in previous_label and the first in first_label |
| Graphw.Graph.CycleTurn | graphw/graphw.hpp:133-144 | one turn leaves the fields as GraphPaths.PathStep prescribes and keeps the first label |
| Graphw.Graph.AddCycleNodes | graphw/graphw.hpp:151-170 | where the value model is defined, the fields end as GraphPaths.AddCycleNodes prescribes |
| Graphw.Graph.NodesCycleLoop | graphw/graphw.hpp:153-167 | the loop leaves the fields as GraphPaths.AddPathNodes prescribes, with the last Node in previous_node and the first in first_node |
| Graphw.Graph.NodesCycleTurn | graphw/graphw.hpp:156-166 | one turn leaves the fields as GraphPaths.PathNodesStep prescribes and keeps the first Node |
| Graphw.Graph.Clear | graphw/graphw.hpp:173-178 | the fields are those of an empty store, with the flag unchanged |
| Graphw.Graph.SetDirected | graphw/graphw.hpp:181-183 | only the flag changes, to the given value |
| Graphw.Graph.NumberOfNodes | graphw/graphw.hpp:186-188 | the row count, which equals the number of registered labels |
| Graphw.Graph.NumberOfEdges | graphw/graphw.hpp:191-193 | the counter, which is never negative |
| Graphw.Graph.Directed | graphw/graphw.hpp:196-198 | the flag |
| Layouts.ArcDiagram.constructor | graphw/graphw.hpp:223-228 | the inherited constructor gives an empty base store carrying the given flag |
| Layouts.CircularLayout.constructor | graphw/graphw.hpp:232-233 | the base store is empty and undirected whatever the argument; the radius defaults to 20 and the argument flag goes to the shadowing member |
| Layouts.CircularLayout.NodeRadius | graphw/graphw.hpp:236-238 | returns the radius |
| Layouts.CircularLayout.SetNodeRadius | graphw/graphw.hpp:241-243 | sets the radius, which the getter then returns |
| Layouts.RandomLayout.constructor | graphw/graphw.hpp:252-253 | the base store is empty and undirected whatever the argument; the radius defaults to 20 |
| Layouts.RandomLayout.NodeRadius | graphw/graphw.hpp:256-258 | returns the radius |
| Layouts.RandomLayout.SetNodeRadius | graphw/graphw.hpp:261-263 | sets the radius |
| Layouts.SpiralLayout.constructor | graphw/graphw.hpp:272-273 | the base store is empty and undirected whatever the argument; the radius defaults to 10 and equidistant to false |
| Layouts.SpiralLayout.NodeRadius | graphw/graphw.hpp:276-278 | returns the radius |
| Layouts.SpiralLayout.SetNodeRadius | graphw/graphw.hpp:281-283 | sets the radius and leaves equidistant alone |
| Layouts.SpiralLayout.Equidistant | graphw/graphw.hpp:296-298 | returns the equidistant flag |
| Layouts.SpiralLayout.SetEquidistant | graphw/graphw.hpp:301-303 | sets the equidistant flag and leaves the radius alone |
| Layouts.ShadowedFlag | graphw/graphw.hpp:230-248 | a CircularLayout constructed with true still reports directed() false |
| Layouts.InheritedFlag | graphw/graphw.hpp:223-228 | an ArcDiagram constructed with true reports directed() true |

## Left out

- The drawing code in `graphw/graphw_draw.hpp` is not part of this model:
  the SDL window, renderer and event loops, pixel drawing, the
  floating-point and `rand()`-based layouts, the force-directed simulation
  and BMP export. It is I/O, floating point and foreign calls.
- The graph generators (`add_complete`, `add_star`, ...),
  `ForceDirectedLayout` and `animate` appear in the tests and examples, but
  no file defines them. They are not part of this model.
- `SpiralLayout::resolution` is a `float`, with its getter and setter. It is
  not modelled, and the SpiralLayout constructor takes no resolution
  argument.
- `int` widths: ids, the edge counter and the radius are unbounded
  integers. An overflow of `edges` after 2^31 calls is not modelled.
- Graphw.Graph.AddEdgeNodes: requires that the value model is defined. The
  source indexes `graph[id]` unchecked. When the phantom rule yields id 0 on
  an empty graph, or a caller's Node carries an id with no row, that access
  is undefined behaviour. The value model returns None there, and the method
  is only given calls where it is Some.
- Graphw.Graph.AddPathNodes: has the same precondition, for the same reason.
- Graphw.Graph.AddCycleNodes: has the same precondition, for the same reason.
- GraphQuirks.PhantomPath: shows three Nodes of the `{i, to_string(i)}`
  pattern, not the ten of `tests/graphw.cpp:62-78` and `:116-132`. By the
  same turns, the ten-Node path leaves nine nodes where the test expects
  ten, so that expectation does not hold for the header as written; the general
  statement for k Nodes is not proved.
- The Node tests in `test/test_graphw.cpp` build Nodes with uninitialised
  ids, which is undefined behaviour. GraphPaths.NodeListUnmatched states
  their claim for ids that match no table entry (negative ids).
- The uninitialised private `directed_` of `ArcDiagram` is never read and
  is not modelled. The shadowing members of the other three classes are
  kept as `shadowDirected`, which nothing in the header reads.
- `tests/graphw.cpp` expects `add_node` to throw on a duplicate label. The
  header instead returns `{0, ""}` and changes nothing. The header is
  followed (GraphState.AddNode, GraphPaths.TenFooOneNode).
- Graphw.Graph.Valid: the object invariant does not include
  `SymmetricById`, because `set_directed(false)` on a store that already
  holds directed edges breaks it, and the header allows that call at any
  time. The symmetry is proved on the value functions the methods are tied
  to, for an undirected store.
- Inheritance is modelled by composition: each drawing class holds its
  `Graph` base as a `const base` field. The inherited methods are called on
  `base`.
- The source iterates a `std::list` with a range-for and a separate counter.
  The model uses a `seq` and a `for` loop over the index, which counts the
  same turns.
