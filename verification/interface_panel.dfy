/**
  The interfaces panel: which edges it lists for the selected system, and which node it shows
  as the "other system" of each listed edge.
 */
module InterfacePanel {
  import opened Wrappers
  import opened Seqs
  import opened Graph
  import opened Lookup
  import opened NodeUtil

  /** The selected system followed by its descendants; nothing when no system is selected. */
  function RelevantSystemIds(cur: string, nodes: seq<Node>): (r: seq<string>)
    ensures cur == "" <==> r == []
    ensures cur != "" ==> r[0] == cur && r[1..] == SelectedDescendants(cur, nodes)
    ensures forall x :: x in r <==> cur != "" && (x == cur || Descends(nodes, cur, x))
  {
    if cur == "" then [] else [cur] + SelectedDescendants(cur, nodes)
  }

  /** An edge is listed when either end is among `ids`. */
  predicate Listed(ids: seq<string>, e: Edge) {
    e.source in ids || e.target in ids
  }

  /** The listed edges, in the order of the edge list. */
  function RelevantEdges(cur: string, nodes: seq<Node>, edges: seq<Edge>): (r: seq<Edge>)
    ensures |r| <= |edges|
    ensures forall e :: e in r <==>
              e in edges && cur != "" &&
              (e.source == cur || e.target == cur || Descends(nodes, cur, e.source) || Descends(nodes, cur, e.target))
  {
    var ids := RelevantSystemIds(cur, nodes);
    Filter(e => Listed(ids, e), edges)
  }

  /**
    Listing preserves the order of the edge list: the listed edges are a subsequence of it, and
    listing a concatenation lists each part in turn.
   */
  lemma RelevantEdgesKeepOrder(cur: string, nodes: seq<Node>, a: seq<Edge>, b: seq<Edge>)
    ensures IsSubsequence(RelevantEdges(cur, nodes, a), a)
    ensures RelevantEdges(cur, nodes, a + b) == RelevantEdges(cur, nodes, a) + RelevantEdges(cur, nodes, b)
  {
    var ids := RelevantSystemIds(cur, nodes);
    FilterSubsequence(e => Listed(ids, e), a);
    FilterConcat(e => Listed(ids, e), a, b);
  }

  /** A listed edge appears as many times as in the edge list; an unlisted one not at all. */
  lemma RelevantEdgesKeepCopies(cur: string, nodes: seq<Node>, edges: seq<Edge>, e: Edge)
    ensures multiset(RelevantEdges(cur, nodes, edges))[e] ==
            if cur != "" && (e.source in RelevantSystemIds(cur, nodes) || e.target in RelevantSystemIds(cur, nodes))
            then multiset(edges)[e] else 0
  {
    var ids := RelevantSystemIds(cur, nodes);
    FilterCount(e => Listed(ids, e), edges, e);
  }

  function NodeKey(n: Node): string {
    n.id
  }

  function NodeValue(n: Node): Node {
    n
  }

  /** The lookup object from node id to node, built in node order. */
  function NodeMap(nodes: seq<Node>): (m: map<string, Node>)
    ensures forall k :: k in m <==> k in IdSet(nodes)
  {
    IndexDomain(nodes, NodeKey, NodeValue);
    assert forall i :: 0 <= i < |nodes| ==> nodes[i] in nodes;
    Index(nodes, NodeKey, NodeValue)
  }

  /** With repeated ids the lookup keeps the last node carrying the id. */
  lemma NodeMapLastWins(nodes: seq<Node>, k: string)
    requires k in IdSet(nodes)
    ensures exists i :: IsLastWithKey(nodes, NodeKey, k, i) && NodeMap(nodes)[k] == nodes[i]
  {
    assert NodeMap(nodes) == Index(nodes, NodeKey, NodeValue);
    IndexLastWins(nodes, NodeKey, NodeValue, k);
  }

  /** The "other system" card of an edge: the node looked up by the edge's target. */
  function OtherNode(nodes: seq<Node>, e: Edge): (r: Option<Node>)
    ensures r.Some? <==> e.target in IdSet(nodes)
    ensures r.Some? ==> r.value in nodes && r.value.id == e.target
    ensures r.Some? ==> exists i :: IsLastWithKey(nodes, NodeKey, e.target, i) && r.value == nodes[i]
  {
    var m := NodeMap(nodes);
    if e.target in m then
      NodeMapLastWins(nodes, e.target);
      Some(m[e.target])
    else None
  }
}
