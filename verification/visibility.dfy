/**
  The visibility pass the diagram runs every time the selected system changes: nodes with a
  parent are shown exactly when that parent is the selected system, nodes without one are left
  alone, and edges touching the selected system are shown while all other edges keep whatever
  visibility they had.
 */
module Visibility {
  import opened Wrappers
  import opened Seqs
  import opened Graph
  import NodeUtil

  /** One node after selecting `focus`. */
  function FocusNode(focus: string, n: Node): Node {
    if HasParent(n) then n.(hidden := Some(n.parentId.value != focus)) else n
  }

  /** The node pass: only `hidden` changes, and only on nodes that have a parent. */
  function ApplyFocusNodes(focus: string, nodes: seq<Node>): (r: seq<Node>)
    ensures |r| == |nodes|
    ensures forall i :: 0 <= i < |nodes| ==>
              && r[i].(hidden := nodes[i].hidden) == nodes[i]
              && (HasParent(nodes[i]) ==>
                    r[i].hidden.Some? && (NodeShown(r[i]) <==> nodes[i].parentId.value == focus))
              && (!HasParent(nodes[i]) ==> r[i] == nodes[i])
  {
    seq(|nodes|, i requires 0 <= i < |nodes| => FocusNode(focus, nodes[i]))
  }

  /** An edge touches `focus` when either end is `focus`. */
  predicate Touches(focus: string, e: Edge) {
    e.source == focus || e.target == focus
  }

  /** One edge after selecting `focus`. */
  function FocusEdge(focus: string, e: Edge): Edge {
    if Touches(focus, e) then e.(hidden := Some(false)) else e
  }

  /** The edge pass: edges touching `focus` are shown, every other edge is returned as it was. */
  function ApplyFocusEdges(focus: string, edges: seq<Edge>): (r: seq<Edge>)
    ensures |r| == |edges|
    ensures forall i :: 0 <= i < |edges| ==>
              && r[i].(hidden := edges[i].hidden) == edges[i]
              && (Touches(focus, edges[i]) ==> r[i].hidden.Some? && EdgeShown(r[i]))
              && (!Touches(focus, edges[i]) ==> r[i] == edges[i])
  {
    seq(|edges|, i requires 0 <= i < |edges| => FocusEdge(focus, edges[i]))
  }

  /** Running the pass twice for the same selection changes nothing the first run did not. */
  lemma FocusIdempotent(focus: string, nodes: seq<Node>, edges: seq<Edge>)
    ensures ApplyFocusNodes(focus, ApplyFocusNodes(focus, nodes)) == ApplyFocusNodes(focus, nodes)
    ensures ApplyFocusEdges(focus, ApplyFocusEdges(focus, edges)) == ApplyFocusEdges(focus, edges)
  {
    var once := ApplyFocusNodes(focus, nodes);
    var twice := ApplyFocusNodes(focus, once);
    forall i | 0 <= i < |nodes|
      ensures twice[i] == once[i]
    {
      assert HasParent(once[i]) == HasParent(nodes[i]);
    }
    var onceE := ApplyFocusEdges(focus, edges);
    var twiceE := ApplyFocusEdges(focus, onceE);
    forall i | 0 <= i < |edges|
      ensures twiceE[i] == onceE[i]
    {
      assert Touches(focus, onceE[i]) == Touches(focus, edges[i]);
    }
  }

  /** Node visibility depends on the latest selection only: earlier selections leave no trace. */
  lemma NodesForgetEarlierFocus(before: string, focus: string, nodes: seq<Node>)
    ensures ApplyFocusNodes(focus, ApplyFocusNodes(before, nodes)) == ApplyFocusNodes(focus, nodes)
  {
    var mid := ApplyFocusNodes(before, nodes);
    forall i | 0 <= i < |nodes|
      ensures ApplyFocusNodes(focus, mid)[i] == ApplyFocusNodes(focus, nodes)[i]
    {
      assert HasParent(mid[i]) == HasParent(nodes[i]);
    }
  }

  /**
    Only direct children of the selection are revealed; each of them is among the selection's
    descendants, and a grandchild stays hidden.
   */
  lemma RevealedAreChildren(focus: string, nodes: seq<Node>)
    ensures var r := ApplyFocusNodes(focus, nodes);
            forall i :: 0 <= i < |nodes| && HasParent(nodes[i]) && NodeShown(r[i]) ==>
              nodes[i].parentId == Some(focus) && nodes[i].id in NodeUtil.GetDescendantIds(focus, nodes)
  {
    NodeUtil.DescendantIdsClosed(focus, nodes);
  }

  /** The edges after visiting the selections `foci` one after another. */
  function NavigateEdges(foci: seq<string>, edges: seq<Edge>): (r: seq<Edge>)
    ensures |r| == |edges|
  {
    if foci == [] then edges else ApplyFocusEdges(Last(foci), NavigateEdges(foci[..|foci| - 1], edges))
  }

  /**
    The edge pass never hides anything: after a run of selections an edge is shown exactly when
    it was shown at load time or touches one of the selected systems.
   */
  lemma {:induction false} NavigateEdgesShown(foci: seq<string>, edges: seq<Edge>)
    ensures var r := NavigateEdges(foci, edges);
            forall i :: 0 <= i < |edges| ==>
              (EdgeShown(r[i]) <==> EdgeShown(edges[i]) || exists k :: 0 <= k < |foci| && Touches(foci[k], edges[i]))
    ensures var r := NavigateEdges(foci, edges);
            forall i :: 0 <= i < |edges| ==> r[i].(hidden := edges[i].hidden) == edges[i]
  {
    if foci != [] {
      var init := foci[..|foci| - 1];
      var f := Last(foci);
      NavigateEdgesShown(init, edges);
      var mid := NavigateEdges(init, edges);
      var r := NavigateEdges(foci, edges);
      assert r == ApplyFocusEdges(f, mid);
      forall i | 0 <= i < |edges|
        ensures EdgeShown(r[i]) <==> EdgeShown(edges[i]) || exists k :: 0 <= k < |foci| && Touches(foci[k], edges[i])
      {
        assert Touches(f, mid[i]) == Touches(f, edges[i]);
        if Touches(f, edges[i]) {
          assert Touches(foci[|foci| - 1], edges[i]);
        } else {
          assert forall k :: 0 <= k < |init| ==> init[k] == foci[k];
        }
      }
      forall i | 0 <= i < |edges|
        ensures r[i].(hidden := edges[i].hidden) == edges[i]
      {
        assert mid[i].(hidden := edges[i].hidden) == edges[i];
      }
    }
  }
}
