/**
  `sortNodesByHierarchy`: group the nodes under their `parentId`, then walk depth-first from every
  node without a parent, in input order, emitting each node before its children, which are taken
  in input order too.

  The model works on node positions. Every emitted node is tagged with the stack of `traverse`
  calls that emitted it, a root-first chain of positions; the emitted node is the last position of
  its chain.
 */
module HierarchySort {
  import opened Wrappers
  import opened Seqs
  import opened Graph

  /** No two nodes share an id; system names are the store's key, so built nodes satisfy this. */
  predicate UniqueIds(nodes: seq<Node>) {
    forall a, b :: 0 <= a < b < |nodes| ==> IdsDiffer(nodes, a, b)
  }

  /** Nodes `a` and `b` carry different ids. */
  predicate IdsDiffer(nodes: seq<Node>, a: nat, b: nat)
    requires a < |nodes| && b < |nodes|
  {
    nodes[a].id != nodes[b].id
  }

  /** Node `c` is in `childrenMap[nodes[p].id]`: its `parentId` is set and names node `p`. */
  predicate ChildOf(nodes: seq<Node>, c: nat, p: nat)
    requires c < |nodes| && p < |nodes|
  {
    HasParent(nodes[c]) && nodes[c].parentId.value == nodes[p].id
  }

  /** With unique ids, a node is found by its id. */
  lemma SameIdSamePosition(nodes: seq<Node>, a: nat, b: nat)
    requires UniqueIds(nodes) && a < |nodes| && b < |nodes|
    ensures nodes[a].id == nodes[b].id ==> a == b
  {
    if a < b {
      assert IdsDiffer(nodes, a, b);
    } else if b < a {
      assert IdsDiffer(nodes, b, a);
    }
  }

  /** `w` is a chain of positions from a node without a parent down a line of children. */
  ghost predicate IsRootChain(nodes: seq<Node>, w: seq<nat>) {
    && |w| > 0
    && (forall k :: 0 <= k < |w| ==> w[k] < |nodes|)
    && !HasParent(nodes[w[0]])
    && (forall k :: 0 <= k < |w| - 1 ==> ChildOf(nodes, w[k + 1], w[k]))
  }

  /** Node `e`'s line of parents ends at a node without a parent. */
  ghost predicate Rooted(nodes: seq<Node>, e: nat) {
    exists w: seq<nat> :: IsRootChain(nodes, w) && Last(w) == e
  }

  /** `w` is a root chain that starts with `path`. */
  ghost predicate Extends(nodes: seq<Node>, w: seq<nat>, path: seq<nat>) {
    IsRootChain(nodes, w) && |path| <= |w| && w[..|path|] == path
  }

  /** The positions `0, 1, ..., |nodes| - 1`, in order. */
  function Range(n: nat): (r: seq<nat>)
    ensures |r| == n && forall i :: 0 <= i < n ==> r[i] == i
  {
    seq(n, i requires 0 <= i => i as nat)
  }

  function Positions(nodes: seq<Node>): set<nat> {
    Elems(Range(|nodes|))
  }

  /** The positions not on the current call stack: every nested `traverse` shrinks it. */
  function Pending(nodes: seq<Node>, path: seq<nat>): nat {
    |Positions(nodes) - Elems(path)|
  }

  /** Pushing a position that is not yet on the stack shrinks what is pending. */
  lemma PendingShrinks(nodes: seq<Node>, path: seq<nat>, j: nat)
    requires j < |nodes| && j !in path
    ensures Pending(nodes, path + [j]) < Pending(nodes, path)
  {
    var q := path + [j];
    assert Elems(path) + {j} <= Elems(q);
    assert Range(|nodes|)[j] == j;
    RemainingShrinks(Positions(nodes), Elems(path), Elems(q), j);
  }

  /**
    `traverse(nodes[Last(path)])` with `path` as the call stack: the node itself, then the walks
    of its children.
   */
  function Walk(nodes: seq<Node>, path: seq<nat>): (r: seq<seq<nat>>)
    requires |path| > 0 && Last(path) < |nodes|
    ensures |r| > 0 && r[0] == path
    decreases Pending(nodes, path), 1, 0, 0
  {
    [path] + WalkKids(nodes, path, 0)
  }

  /** `childrenMap[id].forEach(traverse)`, from input position `j` on. */
  function WalkKids(nodes: seq<Node>, path: seq<nat>, j: nat): (r: seq<seq<nat>>)
    requires |path| > 0 && Last(path) < |nodes| && j <= |nodes|
    ensures r != [] <==> exists k :: j <= k < |nodes| && ChildOf(nodes, k, Last(path)) && k !in path
    decreases Pending(nodes, path), 0, |nodes| - j, 1
  {
    if j == |nodes| then [] else KidWalk(nodes, path, j) + WalkKids(nodes, path, j + 1)
  }

  /**
    The walk of node `j` when it is a child of the top of the stack. A child that is already on
    the stack is skipped. There `traverse` would call itself without end, and JavaScript would
    stop with a stack overflow inside `fetchFlowData`, so nothing would be installed. This can
    only happen when a cycle of `parentId` links runs through repeated ids (with unique ids, see
    `RootChainNoDup`).
   */
  function KidWalk(nodes: seq<Node>, path: seq<nat>, j: nat): (r: seq<seq<nat>>)
    requires |path| > 0 && Last(path) < |nodes| && j < |nodes|
    ensures r != [] <==> ChildOf(nodes, j, Last(path)) && j !in path
    ensures r != [] ==> r[0] == path + [j]
    decreases Pending(nodes, path), 0, |nodes| - j, 0
  {
    if ChildOf(nodes, j, Last(path)) && j !in path then
      PendingShrinks(nodes, path, j);
      Walk(nodes, path + [j])
    else []
  }

  /** The loop over all nodes that starts `traverse` at every node without a parent. */
  function Forest(nodes: seq<Node>, j: nat): (r: seq<seq<nat>>)
    requires j <= |nodes|
    ensures j < |nodes| && !HasParent(nodes[j]) ==> r != [] && r[0] == [j]
    decreases |nodes| - j
  {
    if j == |nodes| then [] else RootWalk(nodes, j) + Forest(nodes, j + 1)
  }

  /** The walk the loop starts at node `j`, when `j` has no parent. */
  function RootWalk(nodes: seq<Node>, j: nat): seq<seq<nat>>
    requires j < |nodes|
  {
    if HasParent(nodes[j]) then [] else Walk(nodes, [j])
  }

  /** The emitted node positions, in emission order: the top of each call stack. */
  function Emitted(nodes: seq<Node>): (e: seq<nat>)
    ensures |e| == |Forest(nodes, 0)|
    ensures forall k :: 0 <= k < |e| ==> e[k] < |nodes|
  {
    var f := Forest(nodes, 0);
    ForestShape(nodes, 0);
    assert forall k :: 0 <= k < |f| ==> IsRootChain(nodes, f[k]);
    Tops(f)
  }

  /** The top of every call stack. */
  function Tops(ws: seq<seq<nat>>): (r: seq<nat>)
    requires forall k :: 0 <= k < |ws| ==> |ws[k]| > 0
    ensures |r| == |ws| && forall k :: 0 <= k < |ws| ==> r[k] == Last(ws[k])
  {
    seq(|ws|, k requires 0 <= k < |ws| => Last(ws[k]))
  }

  /** `sortNodesByHierarchy(nodes)`. */
  function SortNodesByHierarchy(nodes: seq<Node>): (out: seq<Node>)
    ensures |out| == |Emitted(nodes)|
    ensures forall k :: 0 <= k < |out| ==> out[k] in nodes
  {
    var e := Emitted(nodes);
    seq(|e|, k requires 0 <= k < |e| => nodes[e[k]])
  }

  // ----- Lexicographic order of call stacks -----

  /** `a` comes before `b` in a depth-first, children-in-order walk: a proper prefix, or smaller where they first differ. */
  predicate LexLess(a: seq<nat>, b: seq<nat>) {
    |b| > 0 && (|a| == 0 || a[0] < b[0] || (a[0] == b[0] && LexLess(a[1..], b[1..])))
  }

  predicate LexSorted(w: seq<seq<nat>>) {
    forall i, j :: 0 <= i < j < |w| ==> LexLess(w[i], w[j])
  }

  lemma {:induction false} LexPrefix(a: seq<nat>, b: seq<nat>)
    requires |a| < |b| && b[..|a|] == a
    ensures LexLess(a, b)
  {
    if |a| > 0 {
      assert a[0] == b[0];
      assert b[1..][..|a[1..]|] == a[1..];
      LexPrefix(a[1..], b[1..]);
    }
  }

  lemma {:induction false} LexFork(a: seq<nat>, b: seq<nat>, n: nat)
    requires n < |a| && n < |b| && a[..n] == b[..n] && a[n] < b[n]
    ensures LexLess(a, b)
  {
    if n > 0 {
      assert a[0] == a[..n][0] == b[..n][0] == b[0];
      assert a[1..][..n - 1] == a[..n][1..] == b[..n][1..] == b[1..][..n - 1];
      LexFork(a[1..], b[1..], n - 1);
    }
  }

  lemma {:induction false} LexIrreflexive(a: seq<nat>)
    ensures !LexLess(a, a)
  {
    if |a| > 0 {
      LexIrreflexive(a[1..]);
    }
  }

  lemma {:induction false} LexAsymmetric(a: seq<nat>, b: seq<nat>)
    requires LexLess(a, b)
    ensures !LexLess(b, a)
  {
    if |a| > 0 && a[0] == b[0] {
      LexAsymmetric(a[1..], b[1..]);
    }
  }

  /** Two stacks that differ only in their last entry are ordered by that entry. */
  lemma {:induction false} LexLastEntry(p: seq<nat>, x: nat, y: nat)
    requires LexLess(p + [x], p + [y])
    ensures x < y
  {
    if |p| > 0 {
      assert (p + [x])[1..] == p[1..] + [x];
      assert (p + [y])[1..] == p[1..] + [y];
      LexLastEntry(p[1..], x, y);
    }
  }

  lemma ConcatSorted(a: seq<seq<nat>>, b: seq<seq<nat>>)
    requires LexSorted(a) && LexSorted(b)
    requires forall i, j :: 0 <= i < |a| && 0 <= j < |b| ==> LexLess(a[i], b[j])
    ensures LexSorted(a + b)
  {
    forall i, j | 0 <= i < j < |a + b|
      ensures LexLess((a + b)[i], (a + b)[j])
    {
      if j < |a| {
        assert LexLess(a[i], a[j]);
      } else if i >= |a| {
        assert LexLess(b[i - |a|], b[j - |a|]);
      } else {
        assert LexLess(a[i], b[j - |a|]);
      }
    }
  }

  // ----- What the walks emit -----

  /** Pushing a child of the top of a root chain gives a longer root chain. */
  lemma ChainGrows(nodes: seq<Node>, path: seq<nat>, j: nat)
    requires IsRootChain(nodes, path)
    requires j < |nodes| && ChildOf(nodes, j, Last(path))
    ensures IsRootChain(nodes, path + [j])
  {
    var q := path + [j];
    forall k | 0 <= k < |q| - 1
      ensures ChildOf(nodes, q[k + 1], q[k])
    {
      if k < |path| - 1 {
        assert q[k + 1] == path[k + 1] && q[k] == path[k];
      }
    }
  }

  /** Every stack `Walk` emits is a root chain starting with `path`. */
  lemma {:induction false} WalkShape(nodes: seq<Node>, path: seq<nat>)
    requires IsRootChain(nodes, path)
    ensures forall w :: w in Walk(nodes, path) ==> Extends(nodes, w, path)
    decreases Pending(nodes, path), 1, 0, 0
  {
    WalkKidsShape(nodes, path, 0);
    assert path[..|path|] == path;
  }

  /** Every stack `WalkKids` emits from `j` on goes through a child at position `j` or later. */
  lemma {:induction false} WalkKidsShape(nodes: seq<Node>, path: seq<nat>, j: nat)
    requires IsRootChain(nodes, path) && j <= |nodes|
    ensures forall w :: w in WalkKids(nodes, path, j) ==> KidStack(nodes, w, path, j)
    decreases Pending(nodes, path), 0, |nodes| - j, 1
  {
    if j < |nodes| {
      WalkKidsShape(nodes, path, j + 1);
      KidWalkShape(nodes, path, j);
      assert WalkKids(nodes, path, j) == KidWalk(nodes, path, j) + WalkKids(nodes, path, j + 1);
    }
  }

  /** Every stack the walk of child `j` emits starts with `path + [j]`. */
  lemma {:induction false} KidWalkShape(nodes: seq<Node>, path: seq<nat>, j: nat)
    requires IsRootChain(nodes, path) && j < |nodes|
    ensures forall w :: w in KidWalk(nodes, path, j) ==>
              Extends(nodes, w, path + [j]) && KidStack(nodes, w, path, j)
    decreases Pending(nodes, path), 0, |nodes| - j, 0
  {
    if ChildOf(nodes, j, Last(path)) && j !in path {
      PendingShrinks(nodes, path, j);
      ChainGrows(nodes, path, j);
      WalkShape(nodes, path + [j]);
      forall w | w in KidWalk(nodes, path, j)
        ensures Extends(nodes, w, path + [j]) && KidStack(nodes, w, path, j)
      {
        ExtendsChild(nodes, w, path, j);
      }
    }
  }

  /** `w` is emitted below the call for `path`, through a child at position `j` or later. */
  ghost predicate KidStack(nodes: seq<Node>, w: seq<nat>, path: seq<nat>, j: nat) {
    Extends(nodes, w, path) && |w| > |path| && w[|path|] >= j
  }

  lemma ExtendsChild(nodes: seq<Node>, w: seq<nat>, path: seq<nat>, j: nat)
    requires Extends(nodes, w, path + [j])
    ensures Extends(nodes, w, path) && |w| > |path| && w[|path|] == j
  {
    assert w[..|path| + 1] == path + [j];
    assert w[..|path|] == w[..|path| + 1][..|path|];
    assert w[|path|] == w[..|path| + 1][|path|];
  }

  lemma {:induction false} WalkSorted(nodes: seq<Node>, path: seq<nat>)
    requires IsRootChain(nodes, path)
    ensures LexSorted(Walk(nodes, path))
    decreases Pending(nodes, path), 1, 0, 0
  {
    var kids := WalkKids(nodes, path, 0);
    WalkKidsSorted(nodes, path, 0);
    WalkKidsShape(nodes, path, 0);
    forall j | 0 <= j < |kids|
      ensures LexLess(path, kids[j])
    {
      assert kids[j] in kids;
      assert KidStack(nodes, kids[j], path, 0);
      LexPrefix(path, kids[j]);
    }
    ConcatSorted([path], kids);
  }

  lemma {:induction false} WalkKidsSorted(nodes: seq<Node>, path: seq<nat>, j: nat)
    requires IsRootChain(nodes, path) && j <= |nodes|
    ensures LexSorted(WalkKids(nodes, path, j))
    decreases Pending(nodes, path), 0, |nodes| - j, 1
  {
    if j < |nodes| {
      var here, rest := KidWalk(nodes, path, j), WalkKids(nodes, path, j + 1);
      WalkKidsSorted(nodes, path, j + 1);
      KidWalkSorted(nodes, path, j);
      KidWalkShape(nodes, path, j);
      WalkKidsShape(nodes, path, j + 1);
      SiblingWalksSorted(nodes, path, j, here, rest);
      assert WalkKids(nodes, path, j) == here + rest;
    } else {
      assert WalkKids(nodes, path, j) == [];
    }
  }

  lemma {:induction false} KidWalkSorted(nodes: seq<Node>, path: seq<nat>, j: nat)
    requires IsRootChain(nodes, path) && j < |nodes|
    ensures LexSorted(KidWalk(nodes, path, j))
    decreases Pending(nodes, path), 0, |nodes| - j, 0
  {
    if ChildOf(nodes, j, Last(path)) && j !in path {
      PendingShrinks(nodes, path, j);
      ChainGrows(nodes, path, j);
      WalkSorted(nodes, path + [j]);
    }
  }

  /** The walk of child `j` followed by the walks of later children stays sorted. */
  lemma SiblingWalksSorted(nodes: seq<Node>, path: seq<nat>, j: nat, here: seq<seq<nat>>, rest: seq<seq<nat>>)
    requires LexSorted(here) && LexSorted(rest)
    requires forall x :: x in here ==> Extends(nodes, x, path + [j])
    requires forall y :: y in rest ==> KidStack(nodes, y, path, j + 1)
    ensures LexSorted(here + rest)
  {
    forall a, b | 0 <= a < |here| && 0 <= b < |rest|
      ensures LexLess(here[a], rest[b])
    {
      var x, y := here[a], rest[b];
      assert x in here && y in rest;
      ExtendsChild(nodes, x, path, j);
      LexFork(x, y, |path|);
    }
    ConcatSorted(here, rest);
  }

  /** `Walk` emits every repetition-free root chain that starts with `path`. */
  lemma {:induction false} WalkComplete(nodes: seq<Node>, path: seq<nat>, w: seq<nat>)
    requires IsRootChain(nodes, path)
    requires Extends(nodes, w, path) && NoDup(w)
    ensures w in Walk(nodes, path)
    decreases Pending(nodes, path), 1, 0, 0
  {
    if |w| == |path| {
      assert w == w[..|path|] == path;
    } else {
      WalkKidsComplete(nodes, path, 0, w);
    }
  }

  lemma {:induction false} WalkKidsComplete(nodes: seq<Node>, path: seq<nat>, j: nat, w: seq<nat>)
    requires IsRootChain(nodes, path) && j <= |nodes|
    requires Extends(nodes, w, path) && NoDup(w) && |w| > |path| && w[|path|] >= j
    ensures w in WalkKids(nodes, path, j)
    decreases Pending(nodes, path), 0, |nodes| - j, 1
  {
    assert w[|path|] < |nodes|;
    if w[|path|] == j {
      KidWalkComplete(nodes, path, j, w);
    } else {
      WalkKidsComplete(nodes, path, j + 1, w);
    }
    assert WalkKids(nodes, path, j) == KidWalk(nodes, path, j) + WalkKids(nodes, path, j + 1);
  }

  /** A root chain through child `j` of the top of `path` is emitted by the walk of that child. */
  lemma {:induction false} KidWalkComplete(nodes: seq<Node>, path: seq<nat>, j: nat, w: seq<nat>)
    requires IsRootChain(nodes, path) && j < |nodes|
    requires Extends(nodes, w, path) && NoDup(w) && |w| > |path| && w[|path|] == j
    ensures w in KidWalk(nodes, path, j)
    decreases Pending(nodes, path), 0, |nodes| - j, 0
  {
    ExtendsStep(nodes, path, j, w);
    PendingShrinks(nodes, path, j);
    ChainGrows(nodes, path, j);
    WalkComplete(nodes, path + [j], w);
  }

  /**
    The entry of `w` right after `path` is a child of the top of `path` that is not on `path`,
    and `w` extends the longer stack.
   */
  lemma ExtendsStep(nodes: seq<Node>, path: seq<nat>, j: nat, w: seq<nat>)
    requires IsRootChain(nodes, path)
    requires Extends(nodes, w, path) && NoDup(w) && |w| > |path| && w[|path|] == j
    ensures j < |nodes| && ChildOf(nodes, j, Last(path)) && j !in path
    ensures Extends(nodes, w, path + [j])
  {
    assert w[|path| - 1] == w[..|path|][|path| - 1] == Last(path);
    assert ChildOf(nodes, w[|path|], w[|path| - 1]);
    assert w[..|path| + 1] == path + [j];
    forall i | 0 <= i < |path|
      ensures path[i] != j
    {
      assert path[i] == w[i];
    }
  }

  /** `traverse` pushes only positions not yet on its stack, so every stack it emits is repetition-free. */
  lemma {:induction false} WalkNoDup(nodes: seq<Node>, path: seq<nat>)
    requires |path| > 0 && Last(path) < |nodes| && NoDup(path)
    ensures forall w :: w in Walk(nodes, path) ==> NoDup(w)
    decreases Pending(nodes, path), 1, 0, 0
  {
    WalkKidsNoDup(nodes, path, 0);
  }

  lemma {:induction false} WalkKidsNoDup(nodes: seq<Node>, path: seq<nat>, j: nat)
    requires |path| > 0 && Last(path) < |nodes| && NoDup(path) && j <= |nodes|
    ensures forall w :: w in WalkKids(nodes, path, j) ==> NoDup(w)
    decreases Pending(nodes, path), 0, |nodes| - j, 1
  {
    if j < |nodes| {
      KidWalkNoDup(nodes, path, j);
      WalkKidsNoDup(nodes, path, j + 1);
      assert WalkKids(nodes, path, j) == KidWalk(nodes, path, j) + WalkKids(nodes, path, j + 1);
    }
  }

  lemma {:induction false} KidWalkNoDup(nodes: seq<Node>, path: seq<nat>, j: nat)
    requires |path| > 0 && Last(path) < |nodes| && NoDup(path) && j < |nodes|
    ensures forall w :: w in KidWalk(nodes, path, j) ==> NoDup(w)
    decreases Pending(nodes, path), 0, |nodes| - j, 0
  {
    if ChildOf(nodes, j, Last(path)) && j !in path {
      PendingShrinks(nodes, path, j);
      NoDupAppend(path, j);
      WalkNoDup(nodes, path + [j]);
    }
  }

  /** Every stack the roots loop emits is repetition-free, whatever the ids. */
  lemma {:induction false} ForestNoDup(nodes: seq<Node>, j: nat)
    requires j <= |nodes|
    ensures forall w :: w in Forest(nodes, j) ==> NoDup(w)
    decreases |nodes| - j
  {
    if j < |nodes| {
      ForestNoDup(nodes, j + 1);
      if !HasParent(nodes[j]) {
        WalkNoDup(nodes, [j]);
      }
      assert Forest(nodes, j) == RootWalk(nodes, j) + Forest(nodes, j + 1);
    }
  }

  lemma {:induction false} ForestShape(nodes: seq<Node>, j: nat)
    requires j <= |nodes|
    ensures forall w :: w in Forest(nodes, j) ==> IsRootChain(nodes, w) && w[0] >= j
    ensures var f := Forest(nodes, j);
            forall k :: 0 <= k < |f| ==> IsRootChain(nodes, f[k]) && f[k][0] >= j
    decreases |nodes| - j
  {
    var f := Forest(nodes, j);
    if j < |nodes| {
      ForestShape(nodes, j + 1);
      RootWalkShape(nodes, j);
      assert f == RootWalk(nodes, j) + Forest(nodes, j + 1);
    }
    forall k | 0 <= k < |f|
      ensures IsRootChain(nodes, f[k]) && f[k][0] >= j
    {
      assert f[k] in f;
    }
  }

  /** Every stack of the walk started at node `j` is a root chain starting at `j`. */
  lemma RootWalkShape(nodes: seq<Node>, j: nat)
    requires j < |nodes|
    ensures forall w :: w in RootWalk(nodes, j) ==> IsRootChain(nodes, w) && w[0] == j
  {
    if !HasParent(nodes[j]) {
      assert IsRootChain(nodes, [j]);
      WalkShape(nodes, [j]);
      forall w | w in Walk(nodes, [j])
        ensures IsRootChain(nodes, w) && w[0] == j
      {
        assert w[0] == w[..1][0];
      }
    }
  }

  lemma {:induction false} ForestSorted(nodes: seq<Node>, j: nat)
    requires j <= |nodes|
    ensures LexSorted(Forest(nodes, j))
    decreases |nodes| - j
  {
    if j < |nodes| {
      var here, rest := RootWalk(nodes, j), Forest(nodes, j + 1);
      ForestSorted(nodes, j + 1);
      RootWalkSorted(nodes, j);
      RootWalkShape(nodes, j);
      ForestShape(nodes, j + 1);
      forall a, b | 0 <= a < |here| && 0 <= b < |rest|
        ensures LexLess(here[a], rest[b])
      {
        var x, y := here[a], rest[b];
        assert x in here && y in rest;
        LexFork(x, y, 0);
      }
      ConcatSorted(here, rest);
      assert Forest(nodes, j) == here + rest;
    } else {
      assert Forest(nodes, j) == [];
    }
  }

  lemma RootWalkSorted(nodes: seq<Node>, j: nat)
    requires j < |nodes|
    ensures LexSorted(RootWalk(nodes, j))
  {
    if !HasParent(nodes[j]) {
      assert IsRootChain(nodes, [j]);
      WalkSorted(nodes, [j]);
    }
  }

  lemma ForestComplete(nodes: seq<Node>, j: nat, w: seq<nat>)
    requires j <= |nodes|
    requires IsRootChain(nodes, w) && NoDup(w) && w[0] >= j
    ensures w in Forest(nodes, j)
  {
    RootWalkComplete(nodes, w);
    ForestGrows(nodes, j, w[0]);
  }

  /** Starting the loop earlier only adds walks in front. */
  lemma ForestGrows(nodes: seq<Node>, j: nat, k: nat)
    requires j <= k <= |nodes|
    ensures forall w :: w in Forest(nodes, k) ==> w in Forest(nodes, j)
  {
    var i := k;
    while i > j
      invariant j <= i <= k
      invariant forall w :: w in Forest(nodes, k) ==> w in Forest(nodes, i)
    {
      ForestStep(nodes, i - 1);
      i := i - 1;
    }
  }

  lemma ForestStep(nodes: seq<Node>, j: nat)
    requires j < |nodes|
    ensures forall w :: w in Forest(nodes, j + 1) ==> w in Forest(nodes, j)
  {
    assert Forest(nodes, j) == RootWalk(nodes, j) + Forest(nodes, j + 1);
  }

  /** A repetition-free root chain is emitted by the walk the loop starts at its first node. */
  lemma RootWalkComplete(nodes: seq<Node>, w: seq<nat>)
    requires IsRootChain(nodes, w) && NoDup(w)
    ensures w in Forest(nodes, w[0])
  {
    var j := w[0];
    assert IsRootChain(nodes, [j]);
    assert w[..1] == [j];
    WalkComplete(nodes, [j], w);
    assert RootWalk(nodes, j) == Walk(nodes, [j]);
    assert Forest(nodes, j) == RootWalk(nodes, j) + Forest(nodes, j + 1);
  }

  /** A non-empty prefix of a root chain is a root chain. */
  lemma PrefixChain(nodes: seq<Node>, w: seq<nat>, n: nat)
    requires IsRootChain(nodes, w) && 0 < n <= |w|
    ensures IsRootChain(nodes, w[..n])
  {
    var p := w[..n];
    forall k | 0 <= k < |p| - 1
      ensures ChildOf(nodes, p[k + 1], p[k])
    {
      assert p[k + 1] == w[k + 1] && p[k] == w[k];
    }
  }

  /**
    Cutting the loop out of a root chain that visits a position twice leaves a shorter root chain
    to the same node; repeating this gives a repetition-free one.
   */
  lemma {:induction false} ShortestChain(nodes: seq<Node>, w: seq<nat>) returns (v: seq<nat>)
    requires IsRootChain(nodes, w)
    ensures IsRootChain(nodes, v) && NoDup(v) && Last(v) == Last(w) && |v| <= |w|
    decreases |w|
  {
    if NoDup(w) {
      return w;
    }
    var a, b :| 0 <= a < b < |w| && w[a] == w[b];
    var u := w[..a] + w[b..];
    forall k | 0 <= k < |u| - 1
      ensures ChildOf(nodes, u[k + 1], u[k])
    {
      if k + 1 < a {
        assert u[k + 1] == w[k + 1] && u[k] == w[k];
      } else if k + 1 == a {
        assert u[k + 1] == w[b] == w[a] && u[k] == w[k];
      } else {
        assert u[k + 1] == w[k + 1 + b - a] && u[k] == w[k + b - a];
      }
    }
    assert u[0] == w[0] by {
      if a == 0 {
        assert u[0] == w[b] == w[a];
      }
    }
    assert Last(u) == Last(w);
    v := ShortestChain(nodes, u);
  }

  /** With unique ids no root chain repeats a position, so the walk never meets a node already on its stack. */
  lemma RootChainNoDup(nodes: seq<Node>, w: seq<nat>)
    requires UniqueIds(nodes) && IsRootChain(nodes, w)
    ensures NoDup(w)
  {
    forall a, b | 0 <= a < b < |w|
      ensures w[a] != w[b]
    {
      var wa, wb := w[..a + 1], w[..b + 1];
      PrefixChain(nodes, w, a + 1);
      PrefixChain(nodes, w, b + 1);
      RootChainUnique(nodes, wa, wb);
      assert |wa| < |wb|;
      assert Last(wa) == w[a] && Last(wb) == w[b];
    }
  }

  /** The last node of a root chain has a parent exactly when the chain is longer than one. */
  lemma LastHasParent(nodes: seq<Node>, w: seq<nat>)
    requires IsRootChain(nodes, w)
    ensures HasParent(nodes[Last(w)]) <==> |w| > 1
  {
    if |w| > 1 {
      assert ChildOf(nodes, w[|w| - 1], w[|w| - 2]);
    }
  }

  /** With unique ids a node has at most one root chain: parents are found by id. */
  lemma {:induction false} RootChainUnique(nodes: seq<Node>, a: seq<nat>, b: seq<nat>)
    requires UniqueIds(nodes) && IsRootChain(nodes, a) && IsRootChain(nodes, b)
    ensures Last(a) == Last(b) ==> a == b
    decreases |a|
  {
    LastHasParent(nodes, a);
    LastHasParent(nodes, b);
    if Last(a) == Last(b) && |a| > 1 {
      var a', b' := a[..|a| - 1], b[..|b| - 1];
      assert ChildOf(nodes, a[|a| - 1], a[|a| - 2]);
      assert ChildOf(nodes, b[|b| - 1], b[|b| - 2]);
      SameIdSamePosition(nodes, a[|a| - 2], b[|b| - 2]);
      assert IsRootChain(nodes, a');
      assert IsRootChain(nodes, b');
      RootChainUnique(nodes, a', b');
      assert a == a' + [Last(a)] && b == b' + [Last(b)];
    }
  }

  // ----- Properties of the sorted node list -----

  /** Emitted position `k` is the top of the `k`-th call stack of the walk. */
  lemma EmittedTops(nodes: seq<Node>)
    ensures var f, e := Forest(nodes, 0), Emitted(nodes);
            |e| == |f| && forall k :: 0 <= k < |f| ==> IsRootChain(nodes, f[k]) && e[k] == Last(f[k])
  {
    ForestShape(nodes, 0);
  }

  /** A position is emitted exactly when following `parentId` from it reaches a node without a parent. */
  lemma SortEmitsExactlyRooted(nodes: seq<Node>)
    ensures forall e: nat :: e in Emitted(nodes) <==> e < |nodes| && Rooted(nodes, e)
  {
    var f, em := Forest(nodes, 0), Emitted(nodes);
    EmittedTops(nodes);
    forall e: nat | e < |nodes| && Rooted(nodes, e)
      ensures e in em
    {
      var w0: seq<nat> :| IsRootChain(nodes, w0) && Last(w0) == e;
      var w := ShortestChain(nodes, w0);
      ForestComplete(nodes, 0, w);
      var k :| 0 <= k < |f| && f[k] == w;
      assert em[k] == e;
    }
    forall e: nat | e in em
      ensures Rooted(nodes, e)
    {
      var k :| 0 <= k < |em| && em[k] == e;
      assert IsRootChain(nodes, f[k]) && Last(f[k]) == e;
    }
  }

  /** The stack emitted earlier is lexicographically smaller. */
  lemma EarlierIsSmaller(nodes: seq<Node>, a: nat, b: nat)
    requires a < |Forest(nodes, 0)| && b < |Forest(nodes, 0)|
    requires LexLess(Forest(nodes, 0)[a], Forest(nodes, 0)[b])
    ensures a < b
  {
    var f := Forest(nodes, 0);
    ForestSorted(nodes, 0);
    if b < a {
      LexAsymmetric(f[a], f[b]);
    } else if a == b {
      LexIrreflexive(f[a]);
    }
  }

  /** No node is emitted twice. */
  lemma SortNoDuplicates(nodes: seq<Node>)
    requires UniqueIds(nodes)
    ensures NoDup(Emitted(nodes))
  {
    var f, e := Forest(nodes, 0), Emitted(nodes);
    EmittedTops(nodes);
    ForestSorted(nodes, 0);
    forall a, b | 0 <= a < b < |e|
      ensures e[a] != e[b]
    {
      RootChainUnique(nodes, f[a], f[b]);
      LexIrreflexive(f[a]);
      assert LexLess(f[a], f[b]);
    }
  }

  /** Every emitted node that has a parent comes after an emitted node carrying the parent's id. */
  lemma SortParentFirst(nodes: seq<Node>)
    ensures var out := SortNodesByHierarchy(nodes);
            forall k :: 0 <= k < |out| && HasParent(out[k]) ==>
              exists k' :: 0 <= k' < k && out[k'].id == out[k].parentId.value
  {
    var f, e, out := Forest(nodes, 0), Emitted(nodes), SortNodesByHierarchy(nodes);
    EmittedTops(nodes);
    ForestNoDup(nodes, 0);
    forall k | 0 <= k < |out| && HasParent(out[k])
      ensures exists k' :: 0 <= k' < k && out[k'].id == out[k].parentId.value
    {
      var w := f[k];
      assert out[k] == nodes[Last(w)];
      LastHasParent(nodes, w);
      var p := w[..|w| - 1];
      assert ChildOf(nodes, w[|w| - 1], w[|w| - 2]);
      assert IsRootChain(nodes, p);
      assert w in f;
      NoDupPrefix(w, |w| - 1);
      ForestComplete(nodes, 0, p);
      var k' :| 0 <= k' < |f| && f[k'] == p;
      LexPrefix(p, w);
      EarlierIsSmaller(nodes, k', k);
      assert out[k'] == nodes[Last(p)];
    }
  }

  /** Nodes without a parent are emitted in input order. */
  lemma SortRootsInInputOrder(nodes: seq<Node>)
    ensures var e := Emitted(nodes);
            forall a, b :: 0 <= a < b < |e| && !HasParent(nodes[e[a]]) && !HasParent(nodes[e[b]]) ==>
              e[a] < e[b]
  {
    var f, e := Forest(nodes, 0), Emitted(nodes);
    EmittedTops(nodes);
    ForestSorted(nodes, 0);
    forall a, b | 0 <= a < b < |e| && !HasParent(nodes[e[a]]) && !HasParent(nodes[e[b]])
      ensures e[a] < e[b]
    {
      LastHasParent(nodes, f[a]);
      LastHasParent(nodes, f[b]);
      assert f[a] == [] + [e[a]] && f[b] == [] + [e[b]];
      assert LexLess(f[a], f[b]);
      LexLastEntry([], e[a], e[b]);
    }
  }

  /** Children of the same parent are emitted in input order. */
  lemma SortSiblingsInInputOrder(nodes: seq<Node>)
    requires UniqueIds(nodes)
    ensures var e := Emitted(nodes);
            forall a, b :: 0 <= a < b < |e| && HasParent(nodes[e[a]]) && HasParent(nodes[e[b]]) &&
                           nodes[e[a]].parentId == nodes[e[b]].parentId
                           ==> e[a] < e[b]
  {
    var e := Emitted(nodes);
    forall a, b | 0 <= a < b < |e| && HasParent(nodes[e[a]]) && HasParent(nodes[e[b]]) &&
                  nodes[e[a]].parentId == nodes[e[b]].parentId
      ensures e[a] < e[b]
    {
      SiblingPair(nodes, a, b);
    }
  }

  lemma SiblingPair(nodes: seq<Node>, a: nat, b: nat)
    requires UniqueIds(nodes)
    requires var e := Emitted(nodes);
             a < b < |e| && HasParent(nodes[e[a]]) && HasParent(nodes[e[b]]) &&
             nodes[e[a]].parentId == nodes[e[b]].parentId
    ensures Emitted(nodes)[a] < Emitted(nodes)[b]
  {
    var f, e := Forest(nodes, 0), Emitted(nodes);
    EmittedTops(nodes);
    ForestSorted(nodes, 0);
    var wa, wb := f[a], f[b];
    LastHasParent(nodes, wa);
    LastHasParent(nodes, wb);
    SiblingStacks(nodes, wa, wb);
    var p := wa[..|wa| - 1];
    assert wa == p + [e[a]] && wb == p + [e[b]];
    assert LexLess(wa, wb);
    LexLastEntry(p, e[a], e[b]);
  }

  /** With unique ids, two root chains ending at nodes with the same parent differ only in their last entry. */
  lemma SiblingStacks(nodes: seq<Node>, wa: seq<nat>, wb: seq<nat>)
    requires UniqueIds(nodes) && IsRootChain(nodes, wa) && IsRootChain(nodes, wb)
    requires |wa| > 1 && |wb| > 1 && nodes[Last(wa)].parentId == nodes[Last(wb)].parentId
    ensures wa[..|wa| - 1] == wb[..|wb| - 1]
  {
    var pa, pb := wa[..|wa| - 1], wb[..|wb| - 1];
    assert ChildOf(nodes, wa[|wa| - 1], wa[|wa| - 2]);
    assert ChildOf(nodes, wb[|wb| - 1], wb[|wb| - 2]);
    PrefixChain(nodes, wa, |wa| - 1);
    PrefixChain(nodes, wb, |wb| - 1);
    SameIdSamePosition(nodes, Last(pa), Last(pb));
    RootChainUnique(nodes, pa, pb);
  }

  /** A node is in the sorted list exactly when its line of parents reaches a node without a parent. */
  lemma SortKeepsExactlyRooted(nodes: seq<Node>)
    requires UniqueIds(nodes)
    ensures var out := SortNodesByHierarchy(nodes);
            forall i :: 0 <= i < |nodes| ==> (nodes[i] in out <==> Rooted(nodes, i))
  {
    var e, out := Emitted(nodes), SortNodesByHierarchy(nodes);
    SortEmitsExactlyRooted(nodes);
    forall i | 0 <= i < |nodes|
      ensures nodes[i] in out <==> Rooted(nodes, i)
    {
      if nodes[i] in out {
        var k :| 0 <= k < |out| && out[k] == nodes[i];
        assert nodes[e[k]].id == nodes[i].id;
        SameIdSamePosition(nodes, e[k], i);
        assert i in e;
      }
      if Rooted(nodes, i) {
        assert i in e;
        var k :| 0 <= k < |e| && e[k] == i;
        assert out[k] == nodes[i];
      }
    }
  }

  /** When every node reaches a root, the sorted list is a permutation of the input. */
  lemma SortIsPermutation(nodes: seq<Node>)
    requires UniqueIds(nodes)
    requires forall i: nat :: i < |nodes| ==> Rooted(nodes, i)
    ensures multiset(SortNodesByHierarchy(nodes)) == multiset(nodes)
  {
    var e, out := Emitted(nodes), SortNodesByHierarchy(nodes);
    SortKeepsExactlyRooted(nodes);
    SortNoDuplicates(nodes);
    assert NoDup(out) by {
      forall a, b | 0 <= a < b < |out|
        ensures out[a] != out[b]
      {
        assert e[a] != e[b];
        SameIdSamePosition(nodes, e[a], e[b]);
      }
    }
    assert NoDup(nodes) by {
      forall a, b | 0 <= a < b < |nodes|
        ensures nodes[a] != nodes[b]
      {
        assert IdsDiffer(nodes, a, b);
      }
    }
    forall x
      ensures x in out <==> x in nodes
    {
      if x in nodes {
        var i :| 0 <= i < |nodes| && nodes[i] == x;
        assert Rooted(nodes, i);
      }
    }
    SameElemsPermutation(out, nodes);
  }
}
