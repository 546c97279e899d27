/**
  Building a keyed lookup object by assigning `acc[key(x)] = val(x)` for every element in order,
  as both the hierarchy parent mapping and the node lookup map do. A later element overwrites an
  earlier one with the same key.
 */
module Lookup {

  /** The object after assigning every element of `s`, left to right. */
  function Index<T, K(==), V>(s: seq<T>, key: T -> K, val: T -> V): map<K, V> {
    if s == [] then map[]
    else Index(s[..|s| - 1], key, val)[key(s[|s| - 1]) := val(s[|s| - 1])]
  }

  /** The object has a key exactly when some element carries it. */
  lemma {:induction false} IndexDomain<T, K, V>(s: seq<T>, key: T -> K, val: T -> V)
    ensures forall i :: 0 <= i < |s| ==> key(s[i]) in Index(s, key, val)
    ensures forall k :: k in Index(s, key, val) ==> exists i :: 0 <= i < |s| && key(s[i]) == k
  {
    if s != [] {
      var front := s[..|s| - 1];
      var m := Index(s, key, val);
      IndexDomain(front, key, val);
      assert m == Index(front, key, val)[key(s[|s| - 1]) := val(s[|s| - 1])];
      forall k | k in m
        ensures exists i :: 0 <= i < |s| && key(s[i]) == k
      {
        if k != key(s[|s| - 1]) {
          assert k in Index(front, key, val);
          var i :| 0 <= i < |front| && key(front[i]) == k;
          assert s[i] == front[i];
        }
      }
      forall i | 0 <= i < |s|
        ensures key(s[i]) in m
      {
        if i < |s| - 1 {
          assert front[i] == s[i];
        }
      }
    }
  }

  /** Position `i` holds the last element of `s` whose key is `k`. */
  ghost predicate IsLastWithKey<T, K>(s: seq<T>, key: T -> K, k: K, i: int) {
    && 0 <= i < |s|
    && key(s[i]) == k
    && forall j :: i < j < |s| ==> key(s[j]) != k
  }

  /** Last wins: every key maps to the value of the last element carrying it. */
  lemma {:induction false} IndexLastWins<T, K, V>(s: seq<T>, key: T -> K, val: T -> V, k: K)
    requires k in Index(s, key, val)
    ensures exists i :: IsLastWithKey(s, key, k, i) && Index(s, key, val)[k] == val(s[i])
  {
    var front := s[..|s| - 1];
    var m := Index(s, key, val);
    if key(s[|s| - 1]) == k {
      assert IsLastWithKey(s, key, k, |s| - 1);
    } else {
      assert k in Index(front, key, val) && m[k] == Index(front, key, val)[k];
      IndexLastWins(front, key, val, k);
      var i :| IsLastWithKey(front, key, k, i) && Index(front, key, val)[k] == val(front[i]);
      forall j | i < j < |s|
        ensures key(s[j]) != k
      {
        if j < |s| - 1 {
          assert s[j] == front[j];
        }
      }
      assert s[i] == front[i];
      assert IsLastWithKey(s, key, k, i);
    }
  }
}
