/**
  The initial load `fetchFlowData`: the three record sets become a node list, sorted so that
  parents come first, and an edge list. The random position and colour of each node come from
  the `rand` parameter, the values successive `Math.random()` calls return.
 */
module FlowBuilder {
  import opened Wrappers
  import opened Seqs
  import opened Graph
  import opened Lookup
  import opened HierarchySort

  // ----- Hierarchy rows to the parent mapping -----

  function ChildKey(r: HierarchyRow): string {
    r.childId
  }

  function ParentValue(r: HierarchyRow): string {
    r.parentId
  }

  /** `parentMapping[rel.child_id] = rel.parent_id` for every row in order. */
  function ParentMapping(hierarchy: seq<HierarchyRow>): (m: map<string, string>)
    ensures forall c :: c in m <==> exists i :: 0 <= i < |hierarchy| && hierarchy[i].childId == c
  {
    IndexDomain(hierarchy, ChildKey, ParentValue);
    Index(hierarchy, ChildKey, ParentValue)
  }

  /** Last wins: a child's parent is the one named by the last row for that child. */
  lemma ParentMappingLastWins(hierarchy: seq<HierarchyRow>, c: string)
    requires c in ParentMapping(hierarchy)
    ensures exists i :: IsLastWithKey(hierarchy, ChildKey, c, i) && ParentMapping(hierarchy)[c] == hierarchy[i].parentId
  {
    IndexLastWins(hierarchy, ChildKey, ParentValue, c);
  }

  /** The parent mapping takes a child's parent from the last row naming that child. */
  lemma LastRowGivesParent(rows: seq<HierarchyRow>, c: string, p: nat)
    requires IsLastWithKey(rows, ChildKey, c, p)
    ensures c in ParentMapping(rows) && ParentMapping(rows)[c] == rows[p].parentId
  {
    assert rows[p].childId == c;
    ParentMappingLastWins(rows, c);
    var j :| IsLastWithKey(rows, ChildKey, c, j) && ParentMapping(rows)[c] == rows[j].parentId;
    assert j == p;
  }

  // ----- Random look -----

  predicate IsHexDigit(ch: char) {
    '0' <= ch <= '9' || 'a' <= ch <= 'f'
  }

  function HexDigit(d: nat): (ch: char)
    requires d < 16
    ensures IsHexDigit(ch) && DigitValue(ch) == d
  {
    if d < 10 then ('0' as int + d) as char else ('a' as int + d - 10) as char
  }

  function DigitValue(ch: char): nat
    requires IsHexDigit(ch)
  {
    if ch <= '9' then ch as int - '0' as int else ch as int - 'a' as int + 10
  }

  /** The value of a string of lower-case hex digits. */
  function HexValue(s: string): nat
    requires forall k :: 0 <= k < |s| ==> IsHexDigit(s[k])
  {
    if s == [] then 0 else HexValue(s[..|s| - 1]) * 16 + DigitValue(s[|s| - 1])
  }

  function Pow16(k: nat): nat {
    if k == 0 then 1 else 16 * Pow16(k - 1)
  }

  /** `n.toString(16)`: lower-case hex digits without leading zeros. */
  function Hex(n: nat): (s: string)
    ensures 0 < |s| && forall k :: 0 <= k < |s| ==> IsHexDigit(s[k])
    ensures HexValue(s) == n
    ensures forall k: nat :: n < Pow16(k) && k > 0 ==> |s| <= k
  {
    if n < 16 then [HexDigit(n)]
    else
      var s := Hex(n / 16) + [HexDigit(n % 16)];
      assert s[..|s| - 1] == Hex(n / 16);
      s
  }

  /** Leading zeros do not change a hex value. */
  lemma {:induction false} ZerosAddNothing(z: nat, s: string)
    requires forall k :: 0 <= k < |s| ==> IsHexDigit(s[k])
    ensures var t := seq(z, _ => '0') + s;
            (forall k :: 0 <= k < |t| ==> IsHexDigit(t[k])) && HexValue(t) == HexValue(s)
  {
    var t := seq(z, _ => '0') + s;
    if s == [] {
      if z > 0 {
        assert t[..|t| - 1] == seq(z - 1, _ => '0') + [];
        ZerosAddNothing(z - 1, []);
      }
    } else {
      assert t[..|t| - 1] == seq(z, _ => '0') + s[..|s| - 1];
      ZerosAddNothing(z, s[..|s| - 1]);
    }
  }

  /** `s.padStart(width, "0")`. */
  function PadStart(s: string, width: nat): string {
    if |s| >= width then s else seq(width - |s|, _ => '0') + s
  }

  /** The 24-bit value `Math.floor(r * 0xffffff)` drawn for a colour. */
  function ColorValue(r: real): (v: nat)
    requires 0.0 <= r < 1.0
    ensures v < 0xffffff
  {
    (r * 16777215.0).Floor
  }

  /** `getRandomColor()` when `Math.random()` returns `r`. */
  function RandomColor(r: real): (c: string)
    requires 0.0 <= r < 1.0
    ensures |c| == 7 && c[0] == '#'
    ensures forall k :: 1 <= k < 7 ==> IsHexDigit(c[k])
    ensures HexValue(c[1..]) == ColorValue(r)
  {
    var v := ColorValue(r);
    var h := Hex(v);
    assert v < Pow16(6);
    ZerosAddNothing(6 - |h|, h);
    var c := "#" + PadStart(h, 6);
    assert c[1..] == PadStart(h, 6);
    c
  }

  /** The look of the `i`-th system: two draws for the position, then one for the colour. */
  function LookOf(rand: nat -> real, i: nat): (l: Look)
    requires forall k :: 0.0 <= rand(k) < 1.0
    ensures 0.0 <= l.x < 500.0 && 0.0 <= l.y < 500.0
    ensures |l.background| == 7 && l.background[0] == '#'
  {
    Look(rand(3 * i) * 500.0, rand(3 * i + 1) * 500.0, RandomColor(rand(3 * i + 2)))
  }

  // ----- Systems to nodes, interfaces to edges -----

  /** The parent the mapping yields for `name`, when it yields a non-empty one. */
  function ParentOf(parents: map<string, string>, name: string): Option<string> {
    if name in parents && parents[name] != "" then Some(parents[name]) else None
  }

  /** The node for one system record. */
  function NodeOf(system: SystemRow, parents: map<string, string>, look: Look): (n: Node)
    ensures n.id == system.name && n.caption == system.name && n.category == system.category
    ensures n.parentId == ParentOf(parents, system.name)
    ensures HasParent(n) <==> n.parentId.Some?
    ensures n.hidden == (if n.parentId.Some? then Some(true) else None)
    ensures n.expandParent == n.parentId.Some?
  {
    match ParentOf(parents, system.name)
    case Some(p) => Node(system.name, system.name, system.category, Some(p), true, Some(true), look)
    case None => Node(system.name, system.name, system.category, None, false, None, look)
  }

  /** `(systems || []).map(...)`: one node per system record, in input order. */
  function MapSystems(systems: seq<SystemRow>, parents: map<string, string>, rand: nat -> real): (nodes: seq<Node>)
    requires forall k :: 0.0 <= rand(k) < 1.0
    ensures |nodes| == |systems|
    ensures forall i :: 0 <= i < |systems| ==> nodes[i] == NodeOf(systems[i], parents, LookOf(rand, i))
  {
    seq(|systems|, i requires 0 <= i < |systems| => NodeOf(systems[i], parents, LookOf(rand, i)))
  }

  /** The edge id the loader builds from the two endpoints. */
  function EdgeId(a: string, b: string): string {
    a + "-" + b
  }

  /**
    The edge for one interface record. The record's `directional` number goes into `animated`
    as it is; the diagram reads it by its truthiness, which is what the model keeps.
   */
  function EdgeOf(row: InterfaceRow): Edge {
    Edge(EdgeId(row.systemA, row.systemB), row.systemA, row.systemB, row.connectionType,
         row.directional.Truthy(), None, None)
  }

  /** `(interfaces || []).map(...)`: one edge per interface record, in input order. */
  function MapInterfaces(interfaces: seq<InterfaceRow>): (edges: seq<Edge>)
    ensures |edges| == |interfaces|
    ensures forall i :: 0 <= i < |interfaces| ==> edges[i] == EdgeOf(interfaces[i])
  {
    seq(|interfaces|, i requires 0 <= i < |interfaces| => EdgeOf(interfaces[i]))
  }

  // ----- The whole load -----

  /** What one `select("*")` returned: rows, no data, or an error. */
  datatype Fetched<T> = Rows(rows: seq<T>) | NoData | FetchError {
    /** `data || []`. */
    function RowsOrEmpty(): seq<T> {
      if Rows? then rows else []
    }
  }

  datatype FlowGraph = FlowGraph(nodes: seq<Node>, edges: seq<Edge>)

  /** System names are the store's key: no two records share one. */
  predicate DistinctNames(systems: seq<SystemRow>) {
    forall a, b :: 0 <= a < b < |systems| ==> systems[a].name != systems[b].name
  }

  /**
    `fetchFlowData`: `None` when any fetch failed (the function returns before touching the
    graph), otherwise the sorted nodes and the edges it installs.
   */
  function FetchFlowData(systems: Fetched<SystemRow>, interfaces: Fetched<InterfaceRow>,
                         hierarchy: Fetched<HierarchyRow>, rand: nat -> real): (g: Option<FlowGraph>)
    requires forall k :: 0.0 <= rand(k) < 1.0
    ensures g.None? <==> systems.FetchError? || interfaces.FetchError? || hierarchy.FetchError?
  {
    if systems.FetchError? || interfaces.FetchError? || hierarchy.FetchError? then None
    else
      var flowNodes := MapSystems(systems.RowsOrEmpty(), ParentMapping(hierarchy.RowsOrEmpty()), rand);
      Some(FlowGraph(SortNodesByHierarchy(flowNodes), MapInterfaces(interfaces.RowsOrEmpty())))
  }

  // ----- Properties of the load -----

  /**
    Every system record gives one node, in input order, named and labelled by the system name.
    It gets a parent, and starts hidden, exactly when the last hierarchy row for that name names a
    non-empty parent; otherwise it carries neither field.
   */
  lemma NodesFollowLastHierarchyRow(systems: seq<SystemRow>, hierarchy: seq<HierarchyRow>, rand: nat -> real)
    requires forall k :: 0.0 <= rand(k) < 1.0
    ensures var nodes := MapSystems(systems, ParentMapping(hierarchy), rand);
            |nodes| == |systems| &&
            forall i :: 0 <= i < |systems| ==>
              var n, name := nodes[i], systems[i].name;
              && n.id == name && n.caption == name && n.category == systems[i].category
              && (n.parentId.Some? ==>
                    n.hidden == Some(true) && n.expandParent &&
                    exists j :: IsLastWithKey(hierarchy, ChildKey, name, j) && hierarchy[j].parentId == n.parentId.value != "")
              && (n.parentId.None? ==>
                    n.hidden.None? && !n.expandParent &&
                    forall j :: IsLastWithKey(hierarchy, ChildKey, name, j) ==> hierarchy[j].parentId == "")
  {
    var pm := ParentMapping(hierarchy);
    var nodes := MapSystems(systems, pm, rand);
    forall i | 0 <= i < |systems|
      ensures var n, name := nodes[i], systems[i].name;
              && (n.parentId.Some? ==>
                    exists j :: IsLastWithKey(hierarchy, ChildKey, name, j) && hierarchy[j].parentId == n.parentId.value != "")
              && (n.parentId.None? ==>
                    forall j :: IsLastWithKey(hierarchy, ChildKey, name, j) ==> hierarchy[j].parentId == "")
    {
      var name := systems[i].name;
      if name in pm {
        ParentMappingLastWins(hierarchy, name);
        var j :| IsLastWithKey(hierarchy, ChildKey, name, j) && pm[name] == hierarchy[j].parentId;
        forall j' | IsLastWithKey(hierarchy, ChildKey, name, j')
          ensures j' == j
        {
        }
      }
    }
  }

  /** Before any navigation exactly the nodes without a parent are shown. */
  lemma LoadedNodesShownIffRoot(systems: Fetched<SystemRow>, interfaces: Fetched<InterfaceRow>,
                                hierarchy: Fetched<HierarchyRow>, rand: nat -> real)
    requires forall k :: 0.0 <= rand(k) < 1.0
    ensures var g := FetchFlowData(systems, interfaces, hierarchy, rand);
            g.Some? ==> forall n :: n in g.value.nodes ==> (NodeShown(n) <==> !HasParent(n))
  {
    var g := FetchFlowData(systems, interfaces, hierarchy, rand);
    if g.Some? {
      var flowNodes := MapSystems(systems.RowsOrEmpty(), ParentMapping(hierarchy.RowsOrEmpty()), rand);
      forall n | n in g.value.nodes
        ensures NodeShown(n) <==> !HasParent(n)
      {
        assert n in flowNodes;
      }
    }
  }

  /**
    The loaded node list keeps exactly the systems whose line of parents reaches a root, lists
    each once, and puts every parent before its children.
   */
  lemma LoadedNodesParentsFirst(systems: Fetched<SystemRow>, interfaces: Fetched<InterfaceRow>,
                                hierarchy: Fetched<HierarchyRow>, rand: nat -> real)
    requires forall k :: 0.0 <= rand(k) < 1.0
    requires DistinctNames(systems.RowsOrEmpty())
    ensures var g := FetchFlowData(systems, interfaces, hierarchy, rand);
            var flowNodes := MapSystems(systems.RowsOrEmpty(), ParentMapping(hierarchy.RowsOrEmpty()), rand);
            g.Some? ==>
              && UniqueIds(flowNodes)
              && (forall i :: 0 <= i < |flowNodes| ==> (flowNodes[i] in g.value.nodes <==> Rooted(flowNodes, i)))
              && (forall k :: 0 <= k < |g.value.nodes| && HasParent(g.value.nodes[k]) ==>
                    exists k' :: 0 <= k' < k && g.value.nodes[k'].id == g.value.nodes[k].parentId.value)
  {
    var g := FetchFlowData(systems, interfaces, hierarchy, rand);
    var flowNodes := MapSystems(systems.RowsOrEmpty(), ParentMapping(hierarchy.RowsOrEmpty()), rand);
    if g.Some? {
      assert UniqueIds(flowNodes);
      SortKeepsExactlyRooted(flowNodes);
      SortParentFirst(flowNodes);
    }
  }

  /**
    One edge per interface record, in order, with the record's endpoints, type and direction flag;
    its id is built from the endpoints alone, so the store's id plays no part.
   */
  lemma LoadedEdgesFollowInterfaces(systems: Fetched<SystemRow>, interfaces: Fetched<InterfaceRow>,
                                    hierarchy: Fetched<HierarchyRow>, rand: nat -> real)
    requires forall k :: 0.0 <= rand(k) < 1.0
    ensures var g := FetchFlowData(systems, interfaces, hierarchy, rand);
            var rows := interfaces.RowsOrEmpty();
            g.Some? ==>
              |g.value.edges| == |rows| &&
              forall i :: 0 <= i < |rows| ==>
                var e := g.value.edges[i];
                && e.id == rows[i].systemA + "-" + rows[i].systemB
                && e.source == rows[i].systemA && e.target == rows[i].systemB
                && e.caption == rows[i].connectionType && e.animated == rows[i].directional.Truthy()
                && e.hidden.None? && e.data.None?
  {
  }

  /** Two interface records between the same pair of systems load as edges with the same id. */
  lemma ParallelInterfacesShareEdgeId(a: InterfaceRow, b: InterfaceRow)
    requires a.systemA == b.systemA && a.systemB == b.systemB
    ensures EdgeOf(a).id == EdgeOf(b).id
  {
  }

  /** Different endpoint pairs can still give the same edge id: the `-` separator is ambiguous. */
  lemma EdgeIdAmbiguous()
    ensures EdgeId("a-b", "c") == EdgeId("a", "b-c")
  {
  }
}
