# System hierarchy viewer: graph logic in Dafny

This project models the pure graph logic of a viewer for systems, their parent/child hierarchy
and the interfaces between them. The viewer reads three record sets from its store:

- `systems`: a name and a category;
- `system_hierarchy`: parent/child pairs of names;
- `interfaces_with`: two endpoint names, a connection type and a direction number.

It turns them into the node and edge lists of a diagram, then projects those lists for the
system the user has selected. The model covers:

- **Descendant resolver** (`NodeUtil`). `getDescendantIds` is the recursive closure over
  `parentId` links with a shared `visited` accumulator. The JavaScript `Set` keeps insertion
  order, so it is modelled as a repetition-free sequence.
- **Loader** (`FlowBuilder`, `HierarchySort`, `Lookup`). These model the parts of
  `fetchFlowData`:
  - the child-to-parent mapping, where the last row wins;
  - one node per system, children hidden by default;
  - the random position and colour;
  - `sortNodesByHierarchy`, a pre-order walk from every node without a parent;
  - one edge per interface, with the id built from its endpoints.
- **Visibility pass** (`Visibility`). This is what runs whenever the selection changes.
- **Interfaces panel** (`InterfacePanel`):
  - the relevant system ids;
  - the listed edges;
  - the node lookup object;
  - the "other system" of an edge.
- **System detail panel** (`SystemDetail`):
  - the node being edited;
  - the descendant rows;
  - the ordered store writes that create a child.
- **Interface card** (`InterfaceCard`):
  - the initial edit form;
  - the edge-list replacement after a successful save.

Everything is a pure function over immutable sequences and maps. Store replies, prompt answers
and the values of `Math.random()` are parameters.

`sortNodesByHierarchy` is modelled on node positions. Each emitted node is paired with the stack
of `traverse` calls that emitted it: a chain of positions that starts at a node without a parent
and goes down through children. The walk emits these stacks in strictly increasing
lexicographic order. With unique ids, the stacks it emits are exactly the root chains. Every
ordering fact about the sorted list follows from those two statements.

Some behaviours of the code are easy to misread, and the model states them as they are:

- `getDescendantIds` returns the given id itself when a cycle of `parentId` links passes
  through it (`NodeUtil.RootReturnedIffCycle`).
- Selecting a system reveals only its direct children, not every descendant
  (`Visibility.RevealedAreChildren`).
- The visibility pass never hides an edge again once it is shown
  (`Visibility.NavigateEdgesShown`).
- A rename rewrites no hierarchy or interface rows, and creating a child checks nothing but an
  empty name. No system write (create, update or delete) patches the in-memory nodes. Among
  the modelled handlers, only `handleUpdateInterface` changes the in-memory edge list
  (`InterfaceCard.HandleUpdateInterface`).

## Model

| member | source | states |
|---|---|---|
| Lookup.IndexDomain | src/components/flow-page-client.tsx:54-57 | the lookup object built by assigning each element in turn has a key exactly when some element carries it |
| Lookup.IndexLastWins | src/components/interface-component.tsx:39-44 | every key of the lookup object holds the value of the last element carrying that key |
| NodeUtil.Visit | src/lib/util/node_util.ts:9-14 | the `forEach` over the nodes only appends to `visited`: the incoming accumulator is a prefix of the result |
| NodeUtil.FreshIdShrinks | src/lib/util/node_util.ts:10-12 | adding an id not yet visited strictly shrinks the number of node ids still unvisited, which bounds the recursion |
| NodeUtil.GetDescendantIdsFrom | src/lib/util/node_util.ts:4-16 | the returned accumulator extends the given one and stays repetition-free; every id it adds is the id of some node |
| NodeUtil.GetDescendantIds | src/lib/util/node_util.ts:4-16 | a call with a fresh set returns distinct ids, each the id of some node |
| NodeUtil.VisitCovers | src/lib/util/node_util.ts:9-13 | every node from position `i` on whose `parentId` is the current id ends up in the result |
| NodeUtil.DescendantIdsExact | src/lib/util/node_util.ts:9-13 | an id is returned exactly when a finite chain of `parentId` links leads from the given id down to a node with that id |
| NodeUtil.DescendantIdsClosed | src/lib/util/node_util.ts:9-13 | every node whose `parentId` is the given id, or an id already returned, is itself returned |
| NodeUtil.DescendantIdsFromSound | src/lib/util/node_util.ts:10-12 | with any starting accumulator, every added id descends from the given id and was not in the accumulator before |
| NodeUtil.RootReturnedIffCycle | src/lib/util/node_util.ts:10-12 | the given id is among its own descendants exactly when a cycle of `parentId` links passes through it |
| NodeUtil.AcyclicExcludesRoot | src/lib/util/node_util.ts:10-12 | with acyclic `parentId` links the given id is never returned |
| NodeUtil.DescendantCountBound | src/lib/util/node_util.ts:10-12 | the result holds at most as many ids as there are distinct node ids |
| NodeUtil.SelectedDescendants | src/components/interface-component.tsx:19-22 | with no selection the descendant list is empty; otherwise it is repetition-free and holds exactly the descendants of the selection |
| HierarchySort.PendingShrinks | src/components/flow-page-client.tsx:99-105 | descending into a node that is not on the call stack shrinks the set of positions off the stack, so the walk terminates |
| HierarchySort.SortNodesByHierarchy | src/components/flow-page-client.tsx:86-113 | the output has one node per emitted call and every output node is an input node |
| HierarchySort.Walk | src/components/flow-page-client.tsx:99-105 | `traverse` emits the node it was called on first, ahead of everything its children emit |
| HierarchySort.WalkKids | src/components/flow-page-client.tsx:101-104 | the children's walks emit something exactly when some node from the position on is a child of the node, not already on the call stack |
| HierarchySort.KidWalk | src/components/flow-page-client.tsx:99-105 | a node is walked from the current node exactly when it is a child of it not already on the stack, and its walk starts with the stack extended by it |
| HierarchySort.Forest | src/components/flow-page-client.tsx:107-111 | when the node at the loop's position has no parent, the loop's first emitted stack is that node alone |
| HierarchySort.WalkShape | src/components/flow-page-client.tsx:99-105 | every call stack `traverse` emits below a stack is a root chain that extends it |
| HierarchySort.WalkSorted | src/components/flow-page-client.tsx:99-105 | a node is emitted before its children, and the subtrees of the children follow in input order |
| HierarchySort.WalkComplete | src/components/flow-page-client.tsx:99-105 | `traverse` emits every repetition-free root chain that extends its call stack |
| HierarchySort.WalkNoDup | src/components/flow-page-client.tsx:99-105 | every call stack `traverse` emits from a repetition-free stack is repetition-free |
| HierarchySort.ForestNoDup | src/components/flow-page-client.tsx:99-111 | every call stack the roots loop emits is repetition-free, whatever the ids |
| HierarchySort.ForestShape | src/components/flow-page-client.tsx:106-111 | every emitted stack is a root chain that starts at or after the loop's position |
| HierarchySort.ForestSorted | src/components/flow-page-client.tsx:106-111 | the walks started from the nodes without a parent, taken in input order, emit stacks in strictly increasing order |
| HierarchySort.ForestComplete | src/components/flow-page-client.tsx:106-111 | every repetition-free root chain that starts at or after the loop's position is emitted |
| HierarchySort.ShortestChain | src/components/flow-page-client.tsx:88-95 | a node reachable by a root chain is reachable by a repetition-free one |
| HierarchySort.RootChainNoDup | src/components/flow-page-client.tsx:99-105 | with unique ids no root chain repeats a position, so the walk never reaches a node already on its stack |
| HierarchySort.RootChainUnique | src/components/flow-page-client.tsx:88-95 | with unique ids every node has at most one chain of parents up to a node without a parent |
| HierarchySort.EmittedTops | src/components/flow-page-client.tsx:99-100 | the `k`-th emitted node is the top of the `k`-th emitted call stack |
| HierarchySort.EarlierIsSmaller | src/components/flow-page-client.tsx:99-111 | a stack that is lexicographically smaller is emitted earlier |
| HierarchySort.SortEmitsExactlyRooted | src/components/flow-page-client.tsx:86-113 | a position is emitted exactly when its chain of parents reaches a node without a parent, whatever the ids (see HierarchySort.KidWalk under Left out) |
| HierarchySort.SortNoDuplicates | src/components/flow-page-client.tsx:86-113 | no position is emitted twice |
| HierarchySort.SortParentFirst | src/components/flow-page-client.tsx:99-104 | every emitted node with a parent comes after an emitted node carrying the parent's id, whatever the ids (see HierarchySort.KidWalk under Left out) |
| HierarchySort.SortRootsInInputOrder | src/components/flow-page-client.tsx:107-111 | nodes without a parent are emitted in input order |
| HierarchySort.SortSiblingsInInputOrder | src/components/flow-page-client.tsx:90-103 | children of the same parent are emitted in input order |
| HierarchySort.SiblingStacks | src/components/flow-page-client.tsx:92-94 | with unique ids, the call stacks of two nodes with the same parent differ only in their top |
| HierarchySort.SortKeepsExactlyRooted | src/components/flow-page-client.tsx:86-113 | an input node is in the sorted list exactly when its chain of parents reaches a node without a parent; dangling and cyclic chains are dropped |
| HierarchySort.SortIsPermutation | src/components/flow-page-client.tsx:86-113 | when every node reaches a node without a parent, the sorted list is a permutation of the input |
| FlowBuilder.ParentMapping | src/components/flow-page-client.tsx:54-57 | the mapping has an entry for a child exactly when some hierarchy row names it |
| FlowBuilder.ParentMappingLastWins | src/components/flow-page-client.tsx:54-57 | a child's entry is the parent named by the last hierarchy row for that child |
| FlowBuilder.LastRowGivesParent | src/components/flow-page-client.tsx:54-57 | the parent mapping takes a child's parent from the last hierarchy row naming it |
| FlowBuilder.MapSystems | src/components/flow-page-client.tsx:60-83 | one node per system, in input order: node `i` is built from system `i`, the parent mapping and the `i`-th random draws |
| FlowBuilder.Hex | src/components/flow-page-client.tsx:11-12 | `toString(16)` gives lower-case hex digits whose value is the number, with no more digits than needed |
| FlowBuilder.ZerosAddNothing | src/components/flow-page-client.tsx:13 | padding with leading zeros keeps the hex value |
| FlowBuilder.RandomColor | src/components/flow-page-client.tsx:8-15 | the colour is `#` followed by six hex digits whose value is `floor(r * 0xffffff)` |
| FlowBuilder.LookOf | src/components/flow-page-client.tsx:64-66 | the position lies in `[0, 500)` on both axes and the background is a seven-character `#` colour |
| FlowBuilder.NodesFollowLastHierarchyRow | src/components/flow-page-client.tsx:59-83 | one node per system in input order, with id, label and category from the system; a node gets a parent, `expandParent` and `hidden = true` exactly when the last hierarchy row for its name names a non-empty parent |
| FlowBuilder.MapInterfaces | src/components/flow-page-client.tsx:118-125 | one edge per interface record, in input order, each built from its record alone |
| FlowBuilder.FetchFlowData | src/components/flow-page-client.tsx:43-51 | the load installs nothing exactly when one of the three fetches reports an error (see HierarchySort.KidWalk under Left out) |
| FlowBuilder.LoadedNodesShownIffRoot | src/components/flow-page-client.tsx:76-80 | right after the load exactly the nodes without a parent are shown |
| FlowBuilder.LoadedNodesParentsFirst | src/components/flow-page-client.tsx:85-114 | the loaded list keeps exactly the systems whose parents reach a root, and puts every parent before its children |
| FlowBuilder.LoadedEdgesFollowInterfaces | src/components/flow-page-client.tsx:118-125 | one edge per interface in input order: id `systemA-systemB`, the two endpoints, the connection type as label, the truthiness of the direction number as `animated`, no `hidden` and no `data` |
| FlowBuilder.ParallelInterfacesShareEdgeId | src/components/flow-page-client.tsx:119 | two interfaces between the same pair of systems load with the same edge id |
| FlowBuilder.EdgeIdAmbiguous | src/components/flow-page-client.tsx:119 | different endpoint pairs can give the same edge id, because the `-` separator may occur in names |
| Visibility.ApplyFocusNodes | src/components/flow-page-client.tsx:135-152 | only `hidden` changes: a node with a parent is shown exactly when the parent is the selection, and a node without one is returned unchanged |
| Visibility.ApplyFocusEdges | src/components/flow-page-client.tsx:153-165 | edges touching the selection get `hidden = false`; every other edge is returned unchanged |
| Visibility.FocusIdempotent | src/components/flow-page-client.tsx:134-166 | running the pass twice for one selection equals running it once |
| Visibility.NodesForgetEarlierFocus | src/components/flow-page-client.tsx:135-152 | node visibility depends on the latest selection only |
| Visibility.RevealedAreChildren | src/components/flow-page-client.tsx:137-142 | a revealed node is a direct child of the selection, and so among its descendants |
| Visibility.NavigateEdgesShown | src/components/flow-page-client.tsx:153-165 | after any run of selections an edge is shown exactly when it was shown at load or touches one of the selected systems; edges are never hidden again |
| InterfacePanel.RelevantSystemIds | src/components/interface-component.tsx:25-27 | empty with no selection; otherwise the selection followed by its descendant ids |
| InterfacePanel.RelevantEdges | src/components/interface-component.tsx:30-36 | an edge is listed exactly when there is a selection and either end is the selection or one of its descendants |
| InterfacePanel.RelevantEdgesKeepOrder | src/components/interface-component.tsx:30-36 | the listed edges are a subsequence of the edge list, and listing a concatenation lists each part in turn |
| InterfacePanel.RelevantEdgesKeepCopies | src/components/interface-component.tsx:30-36 | a listed edge keeps its number of copies, and an unlisted one has none |
| InterfacePanel.NodeMap | src/components/interface-component.tsx:39-44 | the lookup object has a key exactly for the ids the nodes carry |
| InterfacePanel.NodeMapLastWins | src/components/interface-component.tsx:39-44 | each id maps to the last node carrying it |
| InterfacePanel.OtherNode | src/components/interface-component.tsx:39-51 | the other-system card is present exactly when some node carries the edge's target id, and it shows the last node carrying it |
| SystemDetail.CurrentNode | src/components/system-detail.tsx:28 | the edited node is present exactly when some node carries the selected id, and it is the first such node |
| SystemDetail.DescendantNodes | src/components/system-detail.tsx:45-56 | a node is listed exactly when there is a selection and the node's id descends from it |
| SystemDetail.DescendantNodesKeepOrder | src/components/system-detail.tsx:53-56 | the listed rows are a subsequence of the nodes: they keep node order |
| SystemDetail.DescendantNodesKeepCopies | src/components/system-detail.tsx:53-56 | a listed node keeps its number of copies among the nodes, and a node that is not a descendant has none |
| SystemDetail.CurrentNotListed | src/components/system-detail.tsx:45-56 | with acyclic parent links the edited node is never among its own descendant rows |
| SystemDetail.HandleCreateChild | src/components/system-detail.tsx:72-93 | an empty or dismissed name writes nothing; otherwise the system insert comes first, and the hierarchy row (selection, name) is written exactly when that insert succeeded; at most two writes, and two exactly for a non-empty name whose system insert succeeded |
| SystemDetail.LinkOnlyAfterSystem | src/components/system-detail.tsx:77-87 | a hierarchy row is written only after a successful system insert, and only for the child just inserted |
| SystemDetail.CreatedChildLoadsUnderSelection | src/components/system-detail.tsx:85-87 | after both inserts succeed, a load in which no row for the child follows the new row hangs the child under the selection; with no selection it loads as a root |
| SystemDetail.CreatedChildOverriddenByLaterRow | src/components/system-detail.tsx:85-101 | an older row for the same name left behind by a delete, returned after the new row, decides the parent the re-created child loads under |
| InterfaceCard.InitEditData | src/components/interface-card.tsx:33-38 | the form takes both endpoints from the edge and the connection type from its data (empty without data); the direction is the data's direction when that is truthy and 1 otherwise |
| InterfaceCard.UpdatedEdge | src/components/interface-card.tsx:61-72 | the rebuilt edge keeps the id, takes endpoints, label and data from the form, is animated and has no `hidden` field |
| InterfaceCard.HandleUpdateInterface | src/components/interface-card.tsx:42-75 | a store error leaves the edge list unchanged; on success, the edges with other ids are kept and the rebuilt edge, carrying the form's values and `animated`, is the only edge with the id and the last one |
| InterfaceCard.UpdateKeepsOrder | src/components/interface-card.tsx:60-73 | the edges kept before the rebuilt one are a subsequence of the old list: they stay in their original order |
| InterfaceCard.UpdateKeepsOtherCopies | src/components/interface-card.tsx:60 | every edge with another id keeps its number of copies |
| InterfaceCard.EditRoundTrip | src/components/interface-card.tsx:61-72 | a card mounted on a saved edge starts from the saved values, when the direction is truthy |
| InterfaceCard.SavedFormIsStable | src/components/interface-card.tsx:33-38 | saving the form as it started and mounting a card on the saved edge gives the same form |
| InterfaceCard.LoadedEdgeFormDefaults | src/components/interface-card.tsx:36-37 | a freshly loaded edge carries no data, so its form starts from an empty type and direction 1, whatever the interface record says |
| InterfaceCard.UpdateMergesParallelInterfaces | src/components/interface-card.tsx:60-73 | saving one of two parallel interfaces drops both edges and leaves a single edge with the shared id |

## Left out

- The interface card's delete goes through an `onDelete` handler, and the diagram widget
  receives `setNodes`, `setEdges` and the change callbacks; neither implementation is part of
  this model, nor is the component that mounts the interface card.
- Store access: every fetch, insert, update and delete. Each is a reply parameter (`Fetched`,
  `StoreReply`). The store's own state is not modelled, including the row that
  `.eq("id", id)` matches when the card saves under the edge id.
- `handleUpdateCurrent`, `handleDeleteChild` and `handleUpdateDescendant` in
  `system-detail.tsx` are left out. They write to the store only and leave the in-memory nodes
  as they are.
- The panel's `name`/`category` form state and its effect (system-detail.tsx:30-43) are left
  out, and so are the card's edit-mode toggle and delete button. These are UI state only.
- `Math.random()` is a parameter `rand` with values in `[0, 1)`. System `i` draws
  `rand(3i)`, `rand(3i+1)` and `rand(3i+2)` for x, y and colour, in that order.
- `style` objects other than the background colour, `console` output, alerts, and the React
  hooks and rendering are left out. `prompt` answers are `Option<string>` parameters.
- Async ordering and races between in-flight requests are left out.
- JavaScript values are modelled narrowly:
  - numbers are `NaN` or finite reals;
  - an absent field is `None`;
  - a `null` `parent_id` is the empty string, which is equally falsy;
  - inherited object keys such as `constructor` are not modelled.
- HierarchySort.KidWalk: a child already on the call stack is skipped. There `traverse` would
  call itself without end; JavaScript stops with a stack overflow inside `fetchFlowData`, and
  nothing is installed. The model emits the walk without that child. This can only happen when a cycle of `parentId` links runs through repeated ids,
  and never with unique ids (`RootChainNoDup`).
- HierarchySort.SortNoDuplicates: stated for unique node ids only. Node ids are system names, the store's key; with repeated ids a child hangs under every node carrying its parent's id.
- HierarchySort.SortSiblingsInInputOrder: stated for unique node ids only. Node ids are system names, the store's key; with repeated ids a child hangs under every node carrying its parent's id.
- HierarchySort.SortKeepsExactlyRooted: stated for unique node ids only. Node ids are system names, the store's key; with repeated ids a child hangs under every node carrying its parent's id.
- HierarchySort.SortIsPermutation: stated for unique node ids only. Node ids are system names, the store's key; with repeated ids a child hangs under every node carrying its parent's id.
- FlowBuilder.LoadedNodesParentsFirst: stated for unique node ids only. Node ids are system names, the store's key; with repeated ids a child hangs under every node carrying its parent's id.
- SystemDetail.CreatedChildLoadsUnderSelection: promises the new parent only when no row for
  the child follows the new row. `handleDeleteChild` deletes the system row but leaves its
  hierarchy rows, so a re-created name can meet an older row, and the store's row order is not
  modelled; `CreatedChildOverriddenByLaterRow` states what happens then.
- FlowBuilder.EdgeOf: the loaded edge's `animated` field receives the interface's `directional`
  number itself. The model keeps its truthiness, which is how the diagram reads it. A `null`
  direction in the store is not modelled.
- The files that only render (row widgets, tables, alert banner, static demo data) and the seed
  route are not part of this model.
