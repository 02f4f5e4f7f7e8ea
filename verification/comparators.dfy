/**
 Laws for the three-way comparators the tree is built with. A comparator
 returns a negative number, zero or a positive number, like the Python
 comparators `compare_by_id` and `compare_by_search_key`.
 */
module Comparators {

  /** The sign of a comparator result: -1, 0 or 1. */
  function Sign(x: int): (r: int)
    ensures r == -1 <==> x < 0
    ensures r == 1 <==> x > 0
    ensures r == 0 <==> x == 0
  {
    if x < 0 then -1 else if x > 0 then 1 else 0
  }

  /**
   A comparator that orders values totally (ties allowed): swapping the
   arguments flips "less" into "greater", and "at most" is transitive.
   */
  ghost predicate TotalPreorder<V(!new)>(cmp: (V, V) -> int) {
    && (forall a, b :: cmp(a, b) < 0 <==> cmp(b, a) > 0)
    && (forall a, b, c :: cmp(a, b) <= 0 && cmp(b, c) <= 0 ==> cmp(a, c) <= 0)
  }

  /**
   A key comparator agrees with a value comparator when any stored value
   that matches a key compares with every other value exactly as the key does.
   */
  ghost predicate KeyConsistent<K(!new), V(!new)>(keyCmp: (K, V) -> int, valueCmp: (V, V) -> int) {
    forall k, v, w :: keyCmp(k, v) == 0 ==> Sign(keyCmp(k, w)) == Sign(valueCmp(v, w))
  }

  /** Non-decreasing under `cmp`: no earlier element compares greater than a later one. */
  ghost predicate Sorted<V>(s: seq<V>, cmp: (V, V) -> int) {
    forall i, j :: 0 <= i < j < |s| ==> cmp(s[i], s[j]) <= 0
  }

  /** "At most" flips with the arguments. */
  lemma {:induction false} PreorderFlip<V(!new)>(cmp: (V, V) -> int, a: V, b: V)
    requires TotalPreorder(cmp)
    ensures cmp(a, b) <= 0 <==> cmp(b, a) >= 0
  {
  }

  /** If u is below v and x is not below v, then x is not below u. */
  lemma {:induction false} NotBelowPastLess<V(!new)>(cmp: (V, V) -> int, u: V, v: V, x: V)
    requires TotalPreorder(cmp)
    requires cmp(u, v) < 0
    requires cmp(x, v) >= 0
    ensures cmp(x, u) >= 0
  {
    assert cmp(v, x) <= 0;
    assert cmp(u, x) <= 0;
  }
}
