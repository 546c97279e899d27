/**
  The system detail panel: the node it edits, the descendant rows it lists, and the two store
  writes that create a child system.
 */
module SystemDetail {
  import opened Wrappers
  import opened Seqs
  import opened Graph
  import opened NodeUtil
  import opened Lookup
  import opened FlowBuilder

  /** `nodes.find(node => node.id === cur)`: the first node carrying the id. */
  function CurrentNode(nodes: seq<Node>, cur: string): (r: Option<Node>)
    ensures r.Some? <==> cur in IdSet(nodes)
    ensures r.Some? ==> exists i :: 0 <= i < |nodes| && nodes[i] == r.value && r.value.id == cur &&
                                    forall j :: 0 <= j < i ==> nodes[j].id != cur
  {
    if nodes == [] then None
    else if nodes[0].id == cur then Some(nodes[0])
    else
      var r := CurrentNode(nodes[1..], cur);
      assert IdSet(nodes) == IdSet(nodes[1..]) + {nodes[0].id};
      if r.Some? then
        var i :| 0 <= i < |nodes[1..]| && nodes[1..][i] == r.value && r.value.id == cur &&
                 forall j :: 0 <= j < i ==> nodes[1..][j].id != cur;
        assert nodes[i + 1] == r.value;
        r
      else r
  }

  /** The listed descendant rows: every node whose id is among the selection's descendants. */
  function DescendantNodes(cur: string, nodes: seq<Node>): (r: seq<Node>)
    ensures |r| <= |nodes|
    ensures forall n :: n in r <==> n in nodes && cur != "" && Descends(nodes, cur, n.id)
  {
    var ids := SelectedDescendants(cur, nodes);
    Filter((n: Node) => n.id in ids, nodes)
  }

  /** The rows keep node order: they are a subsequence of the loaded nodes. */
  lemma DescendantNodesKeepOrder(cur: string, nodes: seq<Node>)
    ensures IsSubsequence(DescendantNodes(cur, nodes), nodes)
  {
    var ids := SelectedDescendants(cur, nodes);
    FilterSubsequence((n: Node) => n.id in ids, nodes);
  }

  /** A listed node appears as many times as among the nodes; a node not listed not at all. */
  lemma DescendantNodesKeepCopies(cur: string, nodes: seq<Node>, n: Node)
    ensures multiset(DescendantNodes(cur, nodes))[n] ==
            if cur != "" && Descends(nodes, cur, n.id) then multiset(nodes)[n] else 0
  {
    var ids := SelectedDescendants(cur, nodes);
    FilterCount((m: Node) => m.id in ids, nodes, n);
  }

  /** With acyclic parent links the edited node never appears among its own descendant rows. */
  lemma CurrentNotListed(cur: string, nodes: seq<Node>)
    requires Acyclic(nodes)
    ensures forall n :: n in DescendantNodes(cur, nodes) ==> n.id != cur
  {
  }

  // ----- Creating a child -----

  /** A store write the panel issues. */
  datatype Write = InsertSystem(system: SystemRow) | InsertHierarchy(row: HierarchyRow)

  /** How `handleCreateChild` ends. */
  datatype Outcome = Cancelled | SystemInsertFailed | HierarchyInsertFailed | ChildCreated

  datatype CreateRun = CreateRun(writes: seq<Write>, outcome: Outcome)

  /**
    `handleCreateChild`: `childName` and `childCategory` are the two prompt answers (`None` when
    dismissed), the replies are what the store answers to each insert, in order.
   */
  function HandleCreateChild(cur: string, childName: Option<string>, childCategory: Option<string>,
                             systemsReply: StoreReply, hierarchyReply: StoreReply): (run: CreateRun)
    ensures run.outcome == Cancelled <==> childName.GetOr("") == ""
    ensures run.outcome == Cancelled ==> run.writes == []
    ensures run.outcome != Cancelled ==>
              |run.writes| > 0 &&
              run.writes[0] == InsertSystem(SystemRow(childName.value, childCategory.GetOr("")))
    ensures |run.writes| <= 2
    ensures |run.writes| == 2 <==> childName.GetOr("") != "" && systemsReply.Done?
    ensures |run.writes| == 2 <==> run.outcome in {HierarchyInsertFailed, ChildCreated}
    ensures |run.writes| == 2 ==> run.writes[1] == InsertHierarchy(HierarchyRow(cur, childName.value))
    ensures run.outcome == ChildCreated <==>
              childName.GetOr("") != "" && systemsReply.Done? && hierarchyReply.Done?
  {
    match childName
    case None => CreateRun([], Cancelled)
    case Some(name) =>
      if name == "" then CreateRun([], Cancelled)
      else
        var system := InsertSystem(SystemRow(name, childCategory.GetOr("")));
        if systemsReply.StoreError? then CreateRun([system], SystemInsertFailed)
        else
          var link := InsertHierarchy(HierarchyRow(cur, name));
          if hierarchyReply.StoreError? then CreateRun([system, link], HierarchyInsertFailed)
          else CreateRun([system, link], ChildCreated)
  }

  /** The hierarchy link is written only after the system insert succeeded. */
  lemma LinkOnlyAfterSystem(cur: string, childName: Option<string>, childCategory: Option<string>,
                            systemsReply: StoreReply, hierarchyReply: StoreReply)
    ensures var run := HandleCreateChild(cur, childName, childCategory, systemsReply, hierarchyReply);
            (exists k :: 0 <= k < |run.writes| && run.writes[k].InsertHierarchy?) ==>
              systemsReply == Done && run.writes[0].InsertSystem? &&
              run.writes[0].system.name == run.writes[|run.writes| - 1].row.childId
  {
  }

  /**
    Once both inserts succeed, a load whose hierarchy rows hold no row for the child after the new
    one hangs the child under the selected system; with no selection the written parent is the
    empty id, and the child loads as a root. Rows are placed as the store returns them: `before`
    the new row and `later` after it.
   */
  lemma CreatedChildLoadsUnderSelection(cur: string, name: string, category: Option<string>,
                                        before: seq<HierarchyRow>, later: seq<HierarchyRow>,
                                        systems: seq<SystemRow>, rand: nat -> real)
    requires forall k :: 0.0 <= rand(k) < 1.0
    requires name != ""
    requires forall k :: 0 <= k < |later| ==> later[k].childId != name
    ensures var run := HandleCreateChild(cur, Some(name), category, Done, Done);
            var rows := before + [run.writes[1].row] + later;
            var nodes := MapSystems(systems, ParentMapping(rows), rand);
            forall i :: 0 <= i < |systems| && systems[i].name == name ==>
              nodes[i].parentId == (if cur == "" then None else Some(cur))
  {
    var run := HandleCreateChild(cur, Some(name), category, Done, Done);
    var rows := before + [run.writes[1].row] + later;
    assert rows[|before|] == HierarchyRow(cur, name);
    forall j | |before| < j < |rows|
      ensures ChildKey(rows[j]) != name
    {
      assert rows[j] == later[j - |before| - 1];
    }
    LastRowGivesParent(rows, name, |before|);
  }

  /**
    Deleting a system leaves its hierarchy rows behind, so a re-created child can meet an older
    row for its name. When the store returns such a row after the new one, that older row decides
    the parent the child loads under, and the new link is lost.
   */
  lemma CreatedChildOverriddenByLaterRow(cur: string, name: string, category: Option<string>,
                                         before: seq<HierarchyRow>, later: seq<HierarchyRow>, q: nat,
                                         systems: seq<SystemRow>, rand: nat -> real)
    requires forall k :: 0.0 <= rand(k) < 1.0
    requires name != ""
    requires IsLastWithKey(later, ChildKey, name, q)
    ensures var run := HandleCreateChild(cur, Some(name), category, Done, Done);
            var rows := before + [run.writes[1].row] + later;
            var nodes := MapSystems(systems, ParentMapping(rows), rand);
            var stale := later[q].parentId;
            forall i :: 0 <= i < |systems| && systems[i].name == name ==>
              nodes[i].parentId == (if stale == "" then None else Some(stale))
  {
    var run := HandleCreateChild(cur, Some(name), category, Done, Done);
    var rows := before + [run.writes[1].row] + later;
    var p := |before| + 1 + q;
    assert rows[p] == later[q];
    forall j | p < j < |rows|
      ensures ChildKey(rows[j]) != name
    {
      assert rows[j] == later[j - |before| - 1];
    }
    LastRowGivesParent(rows, name, p);
  }
}
