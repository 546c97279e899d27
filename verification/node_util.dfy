/**
  The descendant resolver `getDescendantIds(currentId, nodes, visited)`: a depth-first walk over
  the `parentId` links that adds every newly met child id to the accumulator `visited` and recurses
  into it at once. The JavaScript `Set` is modelled as a duplicate-free sequence in insertion order,
  which is what `Array.from` hands to its callers.
 */
module NodeUtil {
  import opened Wrappers
  import opened Seqs
  import opened Graph

  /** The ids carried by the nodes. */
  function IdSet(nodes: seq<Node>): set<string> {
    set n | n in nodes :: n.id
  }

  /** How many node ids are not yet in `visited`: every recursive call shrinks it. */
  function Unvisited(nodes: seq<Node>, visited: seq<string>): nat {
    |IdSet(nodes) - Elems(visited)|
  }

  /**
    The `nodes.forEach` loop of the call for `cur`, from position `i` on, with accumulator
    `visited`. A child of `cur` not yet visited is added and explored before the loop moves on.
   */
  function Visit(cur: string, nodes: seq<Node>, i: nat, visited: seq<string>): (r: seq<string>)
    requires i <= |nodes|
    ensures |visited| <= |r| && r[..|visited|] == visited
    decreases Unvisited(nodes, visited), |nodes| - i
  {
    if i == |nodes| then visited
    else if nodes[i].parentId == Some(cur) && nodes[i].id !in visited then
      var grown := visited + [nodes[i].id];
      FreshIdShrinks(nodes, visited, i);
      var inner := Visit(nodes[i].id, nodes, 0, grown);
      PrefixShrinks(nodes, grown, inner);
      var r := Visit(cur, nodes, i + 1, inner);
      assert IsPrefix(visited, grown);
      PrefixTrans(visited, grown, inner);
      PrefixTrans(visited, inner, r);
      r
    else
      Visit(cur, nodes, i + 1, visited)
  }

  /** Visiting the id of node `i` for the first time shrinks what is left to visit. */
  lemma FreshIdShrinks(nodes: seq<Node>, visited: seq<string>, i: nat)
    requires i < |nodes| && nodes[i].id !in visited
    ensures Unvisited(nodes, visited + [nodes[i].id]) < Unvisited(nodes, visited)
  {
    var id := nodes[i].id;
    assert nodes[i] in nodes;
    assert Elems(visited) + {id} <= Elems(visited + [id]);
    RemainingShrinks(IdSet(nodes), Elems(visited), Elems(visited + [id]), id);
  }

  /** An accumulator that only grew at its end has no more left to visit. */
  lemma PrefixShrinks(nodes: seq<Node>, a: seq<string>, b: seq<string>)
    requires |a| <= |b| && b[..|a|] == a
    ensures Unvisited(nodes, b) <= Unvisited(nodes, a)
    ensures forall x :: x in a ==> x in b
  {
    forall x | x in a
      ensures x in b
    {
      var k :| 0 <= k < |a| && a[k] == x;
      assert b[k] == x;
    }
    SubsetCard(IdSet(nodes) - Elems(b), IdSet(nodes) - Elems(a));
  }

  /** `getDescendantIds(currentId, nodes, visited)` with an explicit accumulator. */
  function GetDescendantIdsFrom(cur: string, nodes: seq<Node>, visited: seq<string>): (r: seq<string>)
    ensures |visited| <= |r| && r[..|visited|] == visited
    ensures NoDup(visited) ==> NoDup(r)
    ensures forall k :: |visited| <= k < |r| ==> r[k] in IdSet(nodes)
  {
    VisitAddsFresh(cur, nodes, 0, visited);
    VisitNoDup(cur, nodes, 0, visited);
    Visit(cur, nodes, 0, visited)
  }

  /** `getDescendantIds(currentId, nodes)`: the default argument is a fresh empty set. */
  function GetDescendantIds(cur: string, nodes: seq<Node>): (r: seq<string>)
    ensures NoDup(r)
    ensures forall x :: x in r ==> x in IdSet(nodes)
  {
    GetDescendantIdsFrom(cur, nodes, [])
  }

  /**
    `p` lists node positions whose nodes form a chain of `parentId` links hanging from `root`:
    the first names `root` as its parent, each later one names its predecessor.
   */
  ghost predicate IsChain(nodes: seq<Node>, root: string, p: seq<nat>) {
    && |p| > 0
    && (forall k :: 0 <= k < |p| ==> p[k] < |nodes|)
    && nodes[p[0]].parentId == Some(root)
    && (forall k :: 0 <= k < |p| - 1 ==> nodes[p[k + 1]].parentId == Some(nodes[p[k]].id))
  }

  /** `x` reaches `root` by a finite, non-empty chain of `parentId` links. */
  ghost predicate Descends(nodes: seq<Node>, root: string, x: string) {
    exists p: seq<nat> :: IsChain(nodes, root, p) && nodes[Last(p)].id == x
  }

  /** No id reaches itself through `parentId` links. */
  ghost predicate Acyclic(nodes: seq<Node>) {
    forall x :: !Descends(nodes, x, x)
  }

  /** Every child of `cur` met from position `i` on ends up in the result. */
  lemma {:induction false} VisitCovers(cur: string, nodes: seq<Node>, i: nat, visited: seq<string>)
    requires i <= |nodes|
    ensures forall j :: i <= j < |nodes| && nodes[j].parentId == Some(cur) ==>
              nodes[j].id in Visit(cur, nodes, i, visited)
    decreases Unvisited(nodes, visited), |nodes| - i
  {
    var r := Visit(cur, nodes, i, visited);
    if i < |nodes| {
      if nodes[i].parentId == Some(cur) && nodes[i].id !in visited {
        var grown := visited + [nodes[i].id];
        var inner := Visit(nodes[i].id, nodes, 0, grown);
        FreshIdShrinks(nodes, visited, i);
        PrefixShrinks(nodes, grown, inner);
        assert r == Visit(cur, nodes, i + 1, inner);
        VisitCovers(cur, nodes, i + 1, inner);
        PrefixShrinks(nodes, inner, r);
        assert nodes[i].id in grown;
        forall j | i <= j < |nodes| && nodes[j].parentId == Some(cur)
          ensures nodes[j].id in r
        {
          if j == i {
            assert nodes[i].id in inner;
          }
        }
      } else {
        assert r == Visit(cur, nodes, i + 1, visited);
        VisitCovers(cur, nodes, i + 1, visited);
        PrefixShrinks(nodes, visited, r);
        forall j | i <= j < |nodes| && nodes[j].parentId == Some(cur)
          ensures nodes[j].id in r
        {
          if j == i {
            assert nodes[i].id in visited;
          }
        }
      }
    }
  }

  /** Every id of `r` from position `from` on has all of its children in `r`. */
  ghost predicate ExploredFrom(nodes: seq<Node>, r: seq<string>, from: nat) {
    forall k, j :: from <= k < |r| && 0 <= j < |nodes| && nodes[j].parentId == Some(r[k]) ==>
      nodes[j].id in r
  }

  /** Every id the call adds has had all of its children added too. */
  lemma {:induction false} VisitExplores(cur: string, nodes: seq<Node>, i: nat, visited: seq<string>)
    requires i <= |nodes|
    ensures ExploredFrom(nodes, Visit(cur, nodes, i, visited), |visited|)
    decreases Unvisited(nodes, visited), |nodes| - i
  {
    var r := Visit(cur, nodes, i, visited);
    if i < |nodes| {
      if nodes[i].parentId == Some(cur) && nodes[i].id !in visited {
        var id := nodes[i].id;
        var grown := visited + [id];
        var inner := Visit(id, nodes, 0, grown);
        FreshIdShrinks(nodes, visited, i);
        PrefixShrinks(nodes, grown, inner);
        assert r == Visit(cur, nodes, i + 1, inner);
        PrefixShrinks(nodes, inner, r);
        VisitExplores(cur, nodes, i + 1, inner);
        VisitExplores(id, nodes, 0, grown);
        VisitCovers(id, nodes, 0, grown);
        ExploresStep(nodes, visited, id, inner, r);
      } else {
        assert r == Visit(cur, nodes, i + 1, visited);
        VisitExplores(cur, nodes, i + 1, visited);
      }
    }
  }

  /** The step case of `VisitExplores`: the explored stretches of both calls join up. */
  lemma ExploresStep(nodes: seq<Node>, visited: seq<string>, id: string, inner: seq<string>, r: seq<string>)
    requires |visited| + 1 <= |inner| <= |r| && inner[..|visited| + 1] == visited + [id]
    requires r[..|inner|] == inner
    requires forall j :: 0 <= j < |nodes| && nodes[j].parentId == Some(id) ==> nodes[j].id in inner
    requires ExploredFrom(nodes, inner, |visited| + 1)
    requires ExploredFrom(nodes, r, |inner|)
    ensures ExploredFrom(nodes, r, |visited|)
  {
    forall k, j | |visited| <= k < |r| && 0 <= j < |nodes| && nodes[j].parentId == Some(r[k])
      ensures nodes[j].id in r
    {
      if k < |inner| {
        assert r[k] == inner[k];
        if k == |visited| {
          assert inner[k] == (visited + [id])[k] == id;
        }
        assert nodes[j].id in inner;
        var m :| 0 <= m < |inner| && inner[m] == nodes[j].id;
        assert r[m] == nodes[j].id;
      }
    }
  }

  /** A chain from a child of `cur` extends to a chain from `cur`. */
  lemma ChainPrepend(nodes: seq<Node>, cur: string, i: nat, p: seq<nat>)
    requires i < |nodes| && nodes[i].parentId == Some(cur)
    requires IsChain(nodes, nodes[i].id, p)
    ensures IsChain(nodes, cur, [i] + p) && Last([i] + p) == Last(p)
  {
    var q := [i] + p;
    forall k | 0 <= k < |q| - 1
      ensures nodes[q[k + 1]].parentId == Some(nodes[q[k]].id)
    {
      if k > 0 {
        assert q[k + 1] == p[k] && q[k] == p[k - 1];
      }
    }
  }

  /** Every id of `r` from position `from` on reaches `cur` by a chain of `parentId` links. */
  ghost predicate SoundFrom(nodes: seq<Node>, cur: string, r: seq<string>, from: nat) {
    forall k :: from <= k < |r| ==> Descends(nodes, cur, r[k])
  }

  /** Every id the call adds reaches `cur` by a chain of `parentId` links. */
  lemma {:induction false} VisitSound(cur: string, nodes: seq<Node>, i: nat, visited: seq<string>)
    requires i <= |nodes|
    ensures SoundFrom(nodes, cur, Visit(cur, nodes, i, visited), |visited|)
    decreases Unvisited(nodes, visited), |nodes| - i
  {
    var r := Visit(cur, nodes, i, visited);
    if i < |nodes| {
      if nodes[i].parentId == Some(cur) && nodes[i].id !in visited {
        var id := nodes[i].id;
        var grown := visited + [id];
        var inner := Visit(id, nodes, 0, grown);
        FreshIdShrinks(nodes, visited, i);
        PrefixShrinks(nodes, grown, inner);
        assert r == Visit(cur, nodes, i + 1, inner);
        VisitSound(cur, nodes, i + 1, inner);
        VisitSound(id, nodes, 0, grown);
        SoundStep(nodes, cur, i, visited, inner, r);
      } else {
        assert r == Visit(cur, nodes, i + 1, visited);
        VisitSound(cur, nodes, i + 1, visited);
      }
    }
  }

  /** The step case of `VisitSound`: chains from the child `i` are chains from `cur` too. */
  lemma SoundStep(nodes: seq<Node>, cur: string, i: nat, visited: seq<string>, inner: seq<string>, r: seq<string>)
    requires i < |nodes| && nodes[i].parentId == Some(cur)
    requires |visited| + 1 <= |inner| <= |r| && inner[..|visited| + 1] == visited + [nodes[i].id]
    requires r[..|inner|] == inner
    requires SoundFrom(nodes, nodes[i].id, inner, |visited| + 1)
    requires SoundFrom(nodes, cur, r, |inner|)
    ensures SoundFrom(nodes, cur, r, |visited|)
  {
    forall k | |visited| <= k < |inner|
      ensures Descends(nodes, cur, r[k])
    {
      assert r[k] == inner[k];
      if k == |visited| {
        assert inner[k] == (visited + [nodes[i].id])[k] == nodes[i].id;
        assert IsChain(nodes, cur, [i]);
        assert nodes[Last([i])].id == r[k];
      } else {
        assert Descends(nodes, nodes[i].id, inner[k]);
        var p: seq<nat> :| IsChain(nodes, nodes[i].id, p) && nodes[Last(p)].id == inner[k];
        ChainPrepend(nodes, cur, i, p);
      }
    }
  }

  /** Starting from a duplicate-free accumulator, the call adds no id twice. */
  lemma {:induction false} VisitNoDup(cur: string, nodes: seq<Node>, i: nat, visited: seq<string>)
    requires i <= |nodes|
    ensures NoDup(visited) ==> NoDup(Visit(cur, nodes, i, visited))
    decreases Unvisited(nodes, visited), |nodes| - i
  {
    if i < |nodes| {
      if nodes[i].parentId == Some(cur) && nodes[i].id !in visited {
        var grown := visited + [nodes[i].id];
        FreshIdShrinks(nodes, visited, i);
        var inner := Visit(nodes[i].id, nodes, 0, grown);
        PrefixShrinks(nodes, grown, inner);
        VisitNoDup(nodes[i].id, nodes, 0, grown);
        VisitNoDup(cur, nodes, i + 1, inner);
      } else {
        VisitNoDup(cur, nodes, i + 1, visited);
      }
    }
  }

  /** Every id of `r` from position `from` on is the id of some node and is not in `before`. */
  ghost predicate FreshFrom(nodes: seq<Node>, r: seq<string>, from: nat, before: seq<string>) {
    forall k :: from <= k < |r| ==> r[k] in IdSet(nodes) && r[k] !in before
  }

  /** Every id the call adds is the id of some node and was not in the accumulator before. */
  lemma {:induction false} VisitAddsFresh(cur: string, nodes: seq<Node>, i: nat, visited: seq<string>)
    requires i <= |nodes|
    ensures FreshFrom(nodes, Visit(cur, nodes, i, visited), |visited|, visited)
    decreases Unvisited(nodes, visited), |nodes| - i
  {
    var r := Visit(cur, nodes, i, visited);
    if i < |nodes| {
      if nodes[i].parentId == Some(cur) && nodes[i].id !in visited {
        var id := nodes[i].id;
        var grown := visited + [id];
        FreshIdShrinks(nodes, visited, i);
        var inner := Visit(id, nodes, 0, grown);
        PrefixShrinks(nodes, grown, inner);
        assert r == Visit(cur, nodes, i + 1, inner);
        VisitAddsFresh(id, nodes, 0, grown);
        VisitAddsFresh(cur, nodes, i + 1, inner);
        FreshStep(nodes, i, visited, inner, r);
      } else {
        assert r == Visit(cur, nodes, i + 1, visited);
        VisitAddsFresh(cur, nodes, i + 1, visited);
      }
    }
  }

  /** The step case of `VisitAddsFresh`. */
  lemma FreshStep(nodes: seq<Node>, i: nat, visited: seq<string>, inner: seq<string>, r: seq<string>)
    requires i < |nodes| && nodes[i].id !in visited
    requires |visited| + 1 <= |inner| <= |r| && inner[..|visited| + 1] == visited + [nodes[i].id]
    requires r[..|inner|] == inner
    requires FreshFrom(nodes, inner, |visited| + 1, visited + [nodes[i].id])
    requires FreshFrom(nodes, r, |inner|, inner)
    ensures FreshFrom(nodes, r, |visited|, visited)
  {
    var grown := visited + [nodes[i].id];
    assert nodes[i] in nodes;
    forall k | |visited| <= k < |r|
      ensures r[k] in IdSet(nodes) && r[k] !in visited
    {
      if k < |inner| {
        assert r[k] == inner[k];
        if k == |visited| {
          assert inner[k] == grown[k] == nodes[i].id;
        } else {
          assert inner[k] !in grown;
        }
      } else {
        assert r[k] !in inner;
        forall x | x in visited
          ensures x in inner
        {
          var m :| 0 <= m < |visited| && visited[m] == x;
          assert inner[m] == grown[m] == x;
        }
      }
    }
  }

  /**
    The resolver returns exactly the ids that reach `cur` by a chain of `parentId` links, each
    once: the visited guard loses nothing, even on cyclic parent chains.
   */
  lemma DescendantIdsExact(cur: string, nodes: seq<Node>)
    ensures forall x :: x in GetDescendantIds(cur, nodes) <==> Descends(nodes, cur, x)
  {
    var r := GetDescendantIds(cur, nodes);
    VisitSound(cur, nodes, 0, []);
    VisitCovers(cur, nodes, 0, []);
    VisitExplores(cur, nodes, 0, []);
    forall x | Descends(nodes, cur, x)
      ensures x in r
    {
      var p: seq<nat> :| IsChain(nodes, cur, p) && nodes[Last(p)].id == x;
      var k := 0;
      while k < |p| - 1
        invariant 0 <= k < |p|
        invariant nodes[p[k]].id in r
      {
        var m :| 0 <= m < |r| && r[m] == nodes[p[k]].id;
        assert nodes[p[k + 1]].parentId == Some(r[m]);
        k := k + 1;
      }
    }
  }

  /**
    Closure: every node whose `parentId` is `cur`, or an id already in the result, is in the
    result.
   */
  lemma DescendantIdsClosed(cur: string, nodes: seq<Node>)
    ensures var r := GetDescendantIds(cur, nodes);
            forall j :: 0 <= j < |nodes| && nodes[j].parentId.Some? &&
                        (nodes[j].parentId.value == cur || nodes[j].parentId.value in r)
                        ==> nodes[j].id in r
  {
    var r := GetDescendantIds(cur, nodes);
    VisitCovers(cur, nodes, 0, []);
    VisitExplores(cur, nodes, 0, []);
    forall j | 0 <= j < |nodes| && nodes[j].parentId.Some? && nodes[j].parentId.value in r
      ensures nodes[j].id in r
    {
      var m :| 0 <= m < |r| && r[m] == nodes[j].parentId.value;
      assert nodes[j].parentId == Some(r[m]);
    }
  }

  /**
    With a caller-supplied accumulator, every id the call adds reaches `cur` and every id it
    starts with is kept in front, in its original order.
   */
  lemma DescendantIdsFromSound(cur: string, nodes: seq<Node>, visited: seq<string>)
    ensures var r := GetDescendantIdsFrom(cur, nodes, visited);
            && r[..|visited|] == visited
            && forall k :: |visited| <= k < |r| ==> Descends(nodes, cur, r[k]) && r[k] !in visited
  {
    var r := GetDescendantIdsFrom(cur, nodes, visited);
    VisitSound(cur, nodes, 0, visited);
    VisitAddsFresh(cur, nodes, 0, visited);
  }

  /** The root is returned exactly when a cycle of `parentId` links passes through it. */
  lemma RootReturnedIffCycle(cur: string, nodes: seq<Node>)
    ensures cur in GetDescendantIds(cur, nodes) <==> Descends(nodes, cur, cur)
  {
    DescendantIdsExact(cur, nodes);
  }

  /** With acyclic parent chains the root is never among its own descendants. */
  lemma AcyclicExcludesRoot(cur: string, nodes: seq<Node>)
    requires Acyclic(nodes)
    ensures cur !in GetDescendantIds(cur, nodes)
  {
    DescendantIdsExact(cur, nodes);
  }

  /**
    Each recursive call adds one fresh node id, so there are at most as many of them as there
    are distinct node ids.
   */
  lemma DescendantCountBound(cur: string, nodes: seq<Node>)
    ensures |GetDescendantIds(cur, nodes)| <= |IdSet(nodes)|
  {
    var r := GetDescendantIds(cur, nodes);
    NoDupCard(r);
    SubsetCard(Elems(r), IdSet(nodes));
  }

  /**
    Both panels guard the call the same way: no selection (the empty id) means no descendants,
    otherwise the resolver's result in insertion order.
   */
  function SelectedDescendants(cur: string, nodes: seq<Node>): (r: seq<string>)
    ensures NoDup(r)
    ensures forall x :: x in r <==> cur != "" && Descends(nodes, cur, x)
  {
    if cur == "" then []
    else
      DescendantIdsExact(cur, nodes);
      GetDescendantIds(cur, nodes)
  }
}
