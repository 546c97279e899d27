/** Sequence and set helpers shared by the graph model. */
module Seqs {

  /** The set of elements of a sequence. */
  function Elems<T>(s: seq<T>): set<T> {
    set x | x in s
  }

  /** No element occurs twice (what a JavaScript `Set` guarantees of `Array.from`). */
  predicate NoDup<T(==)>(s: seq<T>) {
    forall i, j :: 0 <= i < j < |s| ==> s[i] != s[j]
  }

  function Last<T>(s: seq<T>): T
    requires |s| > 0
  {
    s[|s| - 1]
  }

  /** `a` is a prefix of `b`. */
  predicate IsPrefix<T(==)>(a: seq<T>, b: seq<T>) {
    |a| <= |b| && b[..|a|] == a
  }

  /** A prefix of a prefix is a prefix. */
  lemma PrefixTrans<T>(a: seq<T>, b: seq<T>, c: seq<T>)
    requires IsPrefix(a, b) && IsPrefix(b, c)
    ensures IsPrefix(a, c)
  {
    assert c[..|a|] == c[..|b|][..|a|];
  }

  /** A subset is never larger than its superset. */
  lemma {:induction false} SubsetCard<T>(a: set<T>, b: set<T>)
    requires a <= b
    ensures |a| <= |b|
  {
    if a != {} {
      var x :| x in a;
      SubsetCard(a - {x}, b - {x});
      assert a == (a - {x}) + {x};
      assert b == (b - {x}) + {x};
    }
  }

  /** Marking one more element of `u` as seen strictly shrinks what is left of `u`. */
  lemma RemainingShrinks<T>(u: set<T>, a: set<T>, b: set<T>, x: T)
    requires a + {x} <= b && x in u && x !in a
    ensures |u - b| < |u - a|
  {
    SubsetCard(u - b, (u - a) - {x});
    assert (u - a) == ((u - a) - {x}) + {x};
  }

  /** Appending an element not yet present keeps a sequence repetition-free. */
  lemma NoDupAppend<T>(s: seq<T>, x: T)
    requires NoDup(s) && x !in s
    ensures NoDup(s + [x])
  {
    var t := s + [x];
    forall i, j | 0 <= i < j < |t|
      ensures t[i] != t[j]
    {
      if j == |s| {
        assert t[i] == s[i];
      } else {
        assert t[i] == s[i] && t[j] == s[j];
      }
    }
  }

  /** A prefix of a repetition-free sequence is repetition-free. */
  lemma NoDupPrefix<T>(s: seq<T>, n: nat)
    requires NoDup(s) && n <= |s|
    ensures NoDup(s[..n])
  {
    var t := s[..n];
    forall i, j | 0 <= i < j < |t|
      ensures t[i] != t[j]
    {
      assert t[i] == s[i] && t[j] == s[j];
    }
  }

  /** A sequence without duplicates has as many distinct elements as positions. */
  lemma {:induction false} NoDupCard<T>(s: seq<T>)
    requires NoDup(s)
    ensures |Elems(s)| == |s|
  {
    if s != [] {
      var t := s[..|s| - 1];
      assert NoDup(t);
      NoDupCard(t);
      assert Elems(s) == Elems(t) + {Last(s)};
      assert Last(s) !in Elems(t);
    }
  }

  /** The order-preserving sub-list of `s` whose elements satisfy `p` (JavaScript's `filter`). */
  function Filter<T(!new)>(p: T -> bool, s: seq<T>): (r: seq<T>)
    ensures |r| <= |s|
    ensures forall x :: x in r <==> x in s && p(x)
  {
    if s == [] then []
    else
      assert s == [s[0]] + s[1..];
      (if p(s[0]) then [s[0]] else []) + Filter(p, s[1..])
  }

  /**
    `idx` picks the elements of `r` out of `s`: `r[k]` is `s[idx[k]]`, and the positions strictly
    increase, so `r` lists them in the order `s` does.
   */
  ghost predicate SubsequenceVia<T>(r: seq<T>, s: seq<T>, idx: seq<nat>) {
    && |idx| == |r|
    && (forall k :: 0 <= k < |idx| ==> idx[k] < |s| && r[k] == s[idx[k]])
    && (forall k, l :: 0 <= k < l < |idx| ==> idx[k] < idx[l])
  }

  /** `r` is `s` with some elements left out and the rest in their original order. */
  ghost predicate IsSubsequence<T>(r: seq<T>, s: seq<T>) {
    exists idx :: SubsequenceVia(r, s, idx)
  }

  /** Subsequence positions into `s[1..]` are, one further on, positions into `s`. */
  lemma ShiftedSubsequence<T>(r: seq<T>, s: seq<T>, idx: seq<nat>) returns (shifted: seq<nat>)
    requires |s| > 0 && SubsequenceVia(r, s[1..], idx)
    ensures SubsequenceVia(r, s, shifted)
    ensures forall k :: 0 <= k < |shifted| ==> shifted[k] > 0
  {
    shifted := seq(|idx|, k requires 0 <= k < |idx| => idx[k] + 1);
    forall k | 0 <= k < |shifted|
      ensures shifted[k] < |s| && r[k] == s[shifted[k]]
    {
      assert s[1..][idx[k]] == s[idx[k] + 1];
    }
  }

  /** Putting `s[0]` in front of a subsequence of `s` that avoids position 0 gives a subsequence. */
  lemma ConsSubsequence<T>(r: seq<T>, s: seq<T>, idx: seq<nat>)
    requires |s| > 0 && SubsequenceVia(r, s, idx)
    requires forall k :: 0 <= k < |idx| ==> idx[k] > 0
    ensures SubsequenceVia([s[0]] + r, s, [0] + idx)
  {
    var r', idx' := [s[0]] + r, [0] + idx;
    forall k | 0 < k < |idx'|
      ensures idx'[k] < |s| && r'[k] == s[idx'[k]]
    {
      assert idx'[k] == idx[k - 1] && r'[k] == r[k - 1];
    }
  }

  /** What `Filter` keeps is a subsequence of its input. */
  lemma {:induction false} FilterSubsequence<T(!new)>(p: T -> bool, s: seq<T>)
    ensures IsSubsequence(Filter(p, s), s)
  {
    if s == [] {
      assert SubsequenceVia([], s, []);
    } else {
      var tail := Filter(p, s[1..]);
      FilterSubsequence(p, s[1..]);
      var idx :| SubsequenceVia(tail, s[1..], idx);
      var shifted := ShiftedSubsequence(tail, s, idx);
      if p(s[0]) {
        assert Filter(p, s) == [s[0]] + tail;
        ConsSubsequence(tail, s, shifted);
      } else {
        assert Filter(p, s) == tail;
      }
    }
  }

  /** Filtering distributes over concatenation: the kept elements stay in their relative order. */
  lemma {:induction false} FilterConcat<T(!new)>(p: T -> bool, s: seq<T>, t: seq<T>)
    ensures Filter(p, s + t) == Filter(p, s) + Filter(p, t)
  {
    if s == [] {
      assert s + t == t;
    } else {
      var st := s + t;
      var head := if p(s[0]) then [s[0]] else [];
      assert st != [] && st[0] == s[0];
      assert st[1..] == s[1..] + t;
      FilterConcat(p, s[1..], t);
      calc {
        Filter(p, st);
        head + Filter(p, s[1..] + t);
        head + (Filter(p, s[1..]) + Filter(p, t));
        { SeqAssoc(head, Filter(p, s[1..]), Filter(p, t)); }
        (head + Filter(p, s[1..])) + Filter(p, t);
        Filter(p, s) + Filter(p, t);
      }
    }
  }

  /** Concatenation is associative. */
  lemma SeqAssoc<T>(a: seq<T>, b: seq<T>, c: seq<T>)
    ensures a + (b + c) == (a + b) + c
  {
  }

  /** Every element satisfying `p` is kept as often as it occurs in `s`; no other element is kept. */
  lemma {:induction false} FilterCount<T(!new)>(p: T -> bool, s: seq<T>, x: T)
    ensures multiset(Filter(p, s))[x] == if p(x) then multiset(s)[x] else 0
  {
    if s != [] {
      FilterCount(p, s[1..], x);
      assert s == [s[0]] + s[1..];
      var head := if p(s[0]) then [s[0]] else [];
      assert multiset(Filter(p, s)) == multiset(head) + multiset(Filter(p, s[1..]));
    }
  }

  /** In a duplicate-free sequence every element occurs exactly once. */
  lemma {:induction false} NoDupMultiplicity<T>(s: seq<T>, x: T)
    requires NoDup(s)
    ensures multiset(s)[x] == if x in s then 1 else 0
  {
    if s != [] {
      var t := s[..|s| - 1];
      assert s == t + [Last(s)];
      assert NoDup(t);
      NoDupMultiplicity(t, x);
      assert Last(s) !in t;
    }
  }

  /** Two duplicate-free sequences with the same elements are permutations of each other. */
  lemma SameElemsPermutation<T>(a: seq<T>, b: seq<T>)
    requires NoDup(a) && NoDup(b)
    requires forall x :: x in a <==> x in b
    ensures multiset(a) == multiset(b)
  {
    forall x
      ensures multiset(a)[x] == multiset(b)[x]
    {
      NoDupMultiplicity(a, x);
      NoDupMultiplicity(b, x);
    }
  }
}
