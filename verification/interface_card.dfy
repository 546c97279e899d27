/**
  One interface card: the edit form it starts from, and how a saved edit replaces the edge in
  the diagram's edge list.
 */
module InterfaceCard {
  import opened Wrappers
  import opened Seqs
  import opened Graph
  import opened FlowBuilder

  /** The card's edit form: both endpoints, the connection type and the direction value. */
  datatype EditData = EditData(systemA: string, systemB: string, connectionType: string, directional: JsNumber)

  /**
    The form's starting values: the edge's endpoints, the connection type stored in the edge's
    data (or the empty string), and the direction stored there when it is a truthy number, 1
    otherwise.
   */
  function InitEditData(e: Edge): (d: EditData)
    ensures d.systemA == e.source && d.systemB == e.target
    ensures d.directional.Truthy()
    ensures e.data.None? ==> d.connectionType == "" && d.directional == Num(1.0)
    ensures e.data.Some? ==> d.connectionType == e.data.value.connectionType
    ensures e.data.Some? && e.data.value.directional.Truthy() ==> d.directional == e.data.value.directional
    ensures !(e.data.Some? && e.data.value.directional.Truthy()) ==> d.directional == Num(1.0)
  {
    var connectionType := if e.data.Some? then e.data.value.connectionType else "";
    var directional :=
      if e.data.Some? && e.data.value.directional.Truthy() then e.data.value.directional else Num(1.0);
    EditData(e.source, e.target, connectionType, directional)
  }

  /** The edge a successful save installs: the old id, the form's values, animated. */
  function UpdatedEdge(id: string, d: EditData): (e: Edge)
    ensures e.id == id && e.source == d.systemA && e.target == d.systemB
    ensures e.caption == d.connectionType && e.animated && e.hidden.None?
    ensures e.data == Some(EdgeData(d.directional, d.connectionType))
  {
    Edge(id, d.systemA, d.systemB, d.connectionType, true, None, Some(EdgeData(d.directional, d.connectionType)))
  }

  /** Keeps every edge whose id is not `id`. */
  predicate OtherId(id: string, e: Edge) {
    e.id != id
  }

  /**
    `handleUpdateInterface`: when the store reports an error the edge list stays as it is;
    otherwise every edge with the id is dropped and the rebuilt edge is appended.
   */
  function HandleUpdateInterface(edges: seq<Edge>, id: string, d: EditData, reply: StoreReply): (r: seq<Edge>)
    ensures reply.StoreError? ==> r == edges
    ensures reply.Done? ==>
              && |r| > 0
              && r[|r| - 1].id == id
              && r[|r| - 1].source == d.systemA && r[|r| - 1].target == d.systemB
              && r[|r| - 1].caption == d.connectionType && r[|r| - 1].animated && r[|r| - 1].hidden.None?
              && r[|r| - 1].data == Some(EdgeData(d.directional, d.connectionType))
              && (forall e :: e in r[..|r| - 1] <==> e in edges && e.id != id)
              && (forall k :: 0 <= k < |r| && r[k].id == id ==> k == |r| - 1)
  {
    if reply.StoreError? then edges
    else
      var kept := Filter(e => OtherId(id, e), edges);
      var r := kept + [UpdatedEdge(id, d)];
      assert r[..|r| - 1] == kept;
      assert forall k :: 0 <= k < |kept| ==> kept[k] in kept;
      r
  }

  /** The edges a save keeps, everything before the rebuilt edge, stay in their original order. */
  lemma UpdateKeepsOrder(edges: seq<Edge>, id: string, d: EditData)
    ensures var r := HandleUpdateInterface(edges, id, d, Done);
            IsSubsequence(r[..|r| - 1], edges)
  {
    var kept := Filter(e => OtherId(id, e), edges);
    var r := HandleUpdateInterface(edges, id, d, Done);
    assert r == kept + [UpdatedEdge(id, d)];
    assert r[..|r| - 1] == kept;
    FilterSubsequence(e => OtherId(id, e), edges);
  }

  /** Each edge the save keeps keeps its multiplicity; every edge with the id is gone. */
  lemma UpdateKeepsOtherCopies(edges: seq<Edge>, id: string, d: EditData, e: Edge)
    requires e.id != id
    ensures multiset(HandleUpdateInterface(edges, id, d, Done))[e] == multiset(edges)[e]
  {
    var kept := Filter(x => OtherId(id, x), edges);
    FilterCount(x => OtherId(id, x), edges, e);
    assert HandleUpdateInterface(edges, id, d, Done) == kept + [UpdatedEdge(id, d)];
  }

  /**
    A card mounted on the saved edge starts its form from exactly what was saved, when the
    direction is truthy. The form is initialised only when a card mounts; the edit and cancel
    buttons keep it as it is.
   */
  lemma EditRoundTrip(id: string, d: EditData)
    requires d.directional.Truthy()
    ensures InitEditData(UpdatedEdge(id, d)) == d
  {
  }

  /** Saving the form as it started and mounting a card on the saved edge gives the same form again. */
  lemma SavedFormIsStable(e: Edge)
    ensures var d := InitEditData(e);
            InitEditData(UpdatedEdge(e.id, d)) == d
  {
    EditRoundTrip(e.id, InitEditData(e));
  }

  /**
    An edge as the loader builds it carries no data, so its form starts from an empty connection
    type and direction 1 whatever the interface record says.
   */
  lemma LoadedEdgeFormDefaults(row: InterfaceRow)
    ensures InitEditData(EdgeOf(row)) == EditData(row.systemA, row.systemB, "", Num(1.0))
  {
  }

  /**
    Two interfaces between the same pair of systems load with one id, so saving either one drops
    both from the list and leaves a single edge with that id.
   */
  lemma UpdateMergesParallelInterfaces(a: InterfaceRow, b: InterfaceRow, d: EditData)
    requires a.systemA == b.systemA && a.systemB == b.systemB
    ensures var id := EdgeOf(a).id;
            var r := HandleUpdateInterface([EdgeOf(a), EdgeOf(b)], id, d, Done);
            r == [UpdatedEdge(id, d)]
  {
    var id := EdgeOf(a).id;
    assert Filter(e => OtherId(id, e), [EdgeOf(a), EdgeOf(b)]) == [];
  }
}
