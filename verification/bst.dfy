/**
 The unbalanced binary search tree of `structures/bst.py`.

 The tree is parameterised by two comparators, as the Python class is:
 `valueCmp` places a new value on insert and `keyCmp` compares a raw key with
 a stored value on search. A value that compares equal to a node goes to that
 node's right subtree, so duplicates are kept as separate nodes. The tree is
 never rebalanced; its shape is fixed by the order of the inserts.
 */
module Bst {
  import opened Options
  import opened Comparators

  /** `Leaf` is Python's `None` child; `Node` is a `BSTNode`. */
  datatype Tree<V> = Leaf | Node(left: Tree<V>, value: V, right: Tree<V>)

  /** Every value stored in the tree, with its multiplicity. */
  ghost function Elements<V>(t: Tree<V>): multiset<V> {
    match t
    case Leaf => multiset{}
    case Node(l, v, r) => Elements(l) + multiset{v} + Elements(r)
  }

  /**
   The search-tree invariant: at every node, each value of the left subtree
   compares below the node and each value of the right subtree compares at or
   above it.
   */
  ghost predicate IsBst<V>(t: Tree<V>, cmp: (V, V) -> int) {
    match t
    case Leaf => true
    case Node(l, v, r) =>
      && (forall u :: u in Elements(l) ==> cmp(u, v) < 0)
      && (forall u :: u in Elements(r) ==> cmp(u, v) >= 0)
      && IsBst(l, cmp)
      && IsBst(r, cmp)
  }

  /** `s` is `t` itself or a subtree hanging somewhere below it. */
  ghost predicate IsSubtree<V>(s: Tree<V>, t: Tree<V>) {
    s == t || (t.Node? && (IsSubtree(s, t.left) || IsSubtree(s, t.right)))
  }

  lemma {:induction false} SubtreeElements<V>(s: Tree<V>, t: Tree<V>)
    requires IsSubtree(s, t)
    ensures Elements(s) <= Elements(t)
  {
    if s != t {
      if IsSubtree(s, t.left) {
        SubtreeElements(s, t.left);
      } else {
        SubtreeElements(s, t.right);
      }
    }
  }

  /**
   `BST.insert` and `_insert_recursive`: descend by `cmp(x, node)`, left when
   it is negative and right otherwise, and hang `x` as a new leaf.
   */
  function Insert<V>(t: Tree<V>, x: V, cmp: (V, V) -> int): (r: Tree<V>)
    ensures Elements(r) == Elements(t) + multiset{x}
    ensures t.Leaf? ==> r == Node(Leaf, x, Leaf)
  {
    match t
    case Leaf => Node(Leaf, x, Leaf)
    case Node(l, v, rt) =>
      if cmp(x, v) < 0 then Node(Insert(l, x, cmp), v, rt)
      else Node(l, v, Insert(rt, x, cmp))
  }

  /**
   `BST.search` and `_search_recursive`: descend by `keyCmp(k, node)` and
   return the first node (as the subtree it roots) whose value matches.
   */
  function Search<K, V>(t: Tree<V>, k: K, keyCmp: (K, V) -> int): (r: Option<Tree<V>>)
    ensures t.Leaf? ==> r.None?
    ensures r.Some? ==> r.value.Node? && keyCmp(k, r.value.value) == 0
    ensures r.Some? ==> IsSubtree(r.value, t) && r.value.value in Elements(t)
  {
    match t
    case Leaf => None
    case Node(l, v, rt) =>
      var c := keyCmp(k, v);
      if c == 0 then Some(t)
      else if c < 0 then
        var r := Search(l, k, keyCmp);
        if r.Some? then SubtreeElements(r.value, l); r else r
      else
        var r := Search(rt, k, keyCmp);
        if r.Some? then SubtreeElements(r.value, rt); r else r
  }

  /** `BST.inorder` and `_inorder_recursive`: left subtree, node, right subtree. */
  function Inorder<V>(t: Tree<V>): (r: seq<V>)
    ensures multiset(r) == Elements(t)
  {
    match t
    case Leaf => []
    case Node(l, v, rt) => Inorder(l) + [v] + Inorder(rt)
  }

  /**
   Insert keeps the search-tree invariant, whatever the comparator: the new
   value passes each node on the side its comparison with that node chose.
   */
  lemma {:induction false} InsertKeepsBst<V>(t: Tree<V>, x: V, cmp: (V, V) -> int)
    requires IsBst(t, cmp)
    ensures IsBst(Insert(t, x, cmp), cmp)
  {
    match t
    case Leaf =>
    case Node(l, v, rt) =>
      if cmp(x, v) < 0 {
        InsertKeepsBst(l, x, cmp);
        var l' := Insert(l, x, cmp);
        forall u | u in Elements(l')
          ensures cmp(u, v) < 0
        {
          assert u in Elements(l) || u == x;
        }
        assert Insert(t, x, cmp) == Node(l', v, rt);
      } else {
        InsertKeepsBst(rt, x, cmp);
        var rt' := Insert(rt, x, cmp);
        forall u | u in Elements(rt')
          ensures cmp(u, v) >= 0
        {
          assert u in Elements(rt) || u == x;
        }
        assert Insert(t, x, cmp) == Node(l, v, rt');
      }
  }

  /** A run of `BST.insert` calls, one per value of `vs`, in order. */
  function InsertAll<V>(t: Tree<V>, vs: seq<V>, cmp: (V, V) -> int): (r: Tree<V>)
    ensures Elements(r) == Elements(t) + multiset(vs)
    decreases |vs|
  {
    if |vs| == 0 then t
    else
      var front := vs[..|vs| - 1];
      assert vs == front + [vs[|vs| - 1]];
      Insert(InsertAll(t, front, cmp), vs[|vs| - 1], cmp)
  }

  /** A run of inserts keeps the search-tree invariant. */
  lemma {:induction false} InsertAllKeepsBst<V>(t: Tree<V>, vs: seq<V>, cmp: (V, V) -> int)
    requires IsBst(t, cmp)
    ensures IsBst(InsertAll(t, vs, cmp), cmp)
    decreases |vs|
  {
    if |vs| > 0 {
      var front := vs[..|vs| - 1];
      InsertAllKeepsBst(t, front, cmp);
      InsertKeepsBst(InsertAll(t, front, cmp), vs[|vs| - 1], cmp);
    }
  }

  /** One more insert extends the run by the next value. */
  lemma {:induction false} InsertAllStep<V>(t: Tree<V>, vs: seq<V>, i: int, cmp: (V, V) -> int)
    requires 0 <= i < |vs|
    ensures InsertAll(t, vs[..i + 1], cmp) == Insert(InsertAll(t, vs[..i], cmp), vs[i], cmp)
  {
    assert vs[..i + 1][..i] == vs[..i];
  }

  /**
   Reference for where an insert lands in the traversal: `x` goes in front of
   the first element it compares below. On a sorted sequence that is after
   every element it compares equal to or above.
   */
  function InsertSorted<V>(s: seq<V>, x: V, cmp: (V, V) -> int): (r: seq<V>) {
    if |s| == 0 then [x]
    else if cmp(x, s[0]) < 0 then [x] + s
    else [s[0]] + InsertSorted(s[1..], x, cmp)
  }

  /** Reference for a run of inserts: `InsertSorted` for each value of `vs` in turn. */
  function SortInto<V>(s: seq<V>, vs: seq<V>, cmp: (V, V) -> int): (r: seq<V>)
    decreases |vs|
  {
    if |vs| == 0 then s
    else InsertSorted(SortInto(s, vs[..|vs| - 1], cmp), vs[|vs| - 1], cmp)
  }

  /**
   `InsertSorted` splits the sequence at one place `i`: `x` compares at or
   above everything before it, and below the element just after it.
   */
  lemma {:induction false} InsertSortedPosition<V>(s: seq<V>, x: V, cmp: (V, V) -> int) returns (i: nat)
    ensures i <= |s|
    ensures InsertSorted(s, x, cmp) == s[..i] + [x] + s[i..]
    ensures forall j :: 0 <= j < i ==> cmp(x, s[j]) >= 0
    ensures i < |s| ==> cmp(x, s[i]) < 0
    decreases |s|
  {
    if |s| == 0 || cmp(x, s[0]) < 0 {
      i := 0;
    } else {
      var k := InsertSortedPosition(s[1..], x, cmp);
      InsertSortedPositionStep(s[0], s[1..], x, cmp, k);
      assert s == [s[0]] + s[1..];
      i := k + 1;
    }
  }

  /** The step of `InsertSortedPosition` past a head `h` that `x` does not compare below. */
  lemma {:induction false} InsertSortedPositionStep<V>(h: V, rest: seq<V>, x: V, cmp: (V, V) -> int, k: nat)
    requires cmp(x, h) >= 0
    requires k <= |rest|
    requires InsertSorted(rest, x, cmp) == rest[..k] + [x] + rest[k..]
    requires forall j :: 0 <= j < k ==> cmp(x, rest[j]) >= 0
    requires k < |rest| ==> cmp(x, rest[k]) < 0
    ensures var s := [h] + rest;
            && InsertSorted(s, x, cmp) == s[..k + 1] + [x] + s[k + 1..]
            && (forall j :: 0 <= j < k + 1 ==> cmp(x, s[j]) >= 0)
            && (k + 1 < |s| ==> cmp(x, s[k + 1]) < 0)
  {
    var s := [h] + rest;
    assert s[0] == h && s[1..] == rest;
    assert InsertSorted(s, x, cmp) == [h] + InsertSorted(rest, x, cmp);
    assert s[..k + 1] == [h] + rest[..k];
    assert s[k + 1..] == rest[k..];
    forall j | 0 <= j < k + 1
      ensures cmp(x, s[j]) >= 0
    {
      if j > 0 {
        assert s[j] == rest[j - 1];
      }
    }
  }

  /** Inserting before a tail whose head is above `x` never reaches the tail. */
  lemma {:induction false} InsertSortedBeforeTail<V>(a: seq<V>, b: seq<V>, x: V, cmp: (V, V) -> int)
    requires |b| > 0 && cmp(x, b[0]) < 0
    ensures InsertSorted(a + b, x, cmp) == InsertSorted(a, x, cmp) + b
  {
    if |a| == 0 {
      assert a + b == b;
    } else {
      assert (a + b)[0] == a[0];
      assert (a + b)[1..] == a[1..] + b;
      if cmp(x, a[0]) >= 0 {
        InsertSortedBeforeTail(a[1..], b, x, cmp);
      }
    }
  }

  /** Inserting past a prefix that `x` does not compare below leaves the prefix in front. */
  lemma {:induction false} InsertSortedPastPrefix<V>(a: seq<V>, b: seq<V>, x: V, cmp: (V, V) -> int)
    requires forall i :: 0 <= i < |a| ==> cmp(x, a[i]) >= 0
    ensures InsertSorted(a + b, x, cmp) == a + InsertSorted(b, x, cmp)
  {
    if |a| == 0 {
      assert a + b == b;
    } else {
      assert (a + b)[0] == a[0];
      assert (a + b)[1..] == a[1..] + b;
      assert cmp(x, a[0]) >= 0;
      InsertSortedPastPrefix(a[1..], b, x, cmp);
      assert a == [a[0]] + a[1..];
    }
  }

  /**
   Insert is a stable insertion into the traversal: the new value lands right
   after every stored value it compares equal to or above (so an equal value
   goes after the one already stored) and before the first one above it.
   */
  lemma {:induction false} InsertInorder<V(!new)>(t: Tree<V>, x: V, cmp: (V, V) -> int)
    requires IsBst(t, cmp)
    requires TotalPreorder(cmp)
    ensures Inorder(Insert(t, x, cmp)) == InsertSorted(Inorder(t), x, cmp)
  {
    match t
    case Leaf =>
    case Node(l, v, rt) =>
      if cmp(x, v) < 0 {
        InsertInorder(l, x, cmp);
        InsertSortedLeftStep(Inorder(l), v, Inorder(rt), x, cmp);
      } else {
        InsertInorder(rt, x, cmp);
        forall i | 0 <= i < |Inorder(l)|
          ensures cmp(x, Inorder(l)[i]) >= 0
        {
          assert Inorder(l)[i] in multiset(Inorder(l));
          NotBelowPastLess(cmp, Inorder(l)[i], v, x);
        }
        InsertSortedRightStep(Inorder(l), v, Inorder(rt), x, cmp);
      }
  }

  /** The traversal step of `InsertInorder` where `x` goes into the left subtree. */
  lemma {:induction false} InsertSortedLeftStep<V>(a: seq<V>, v: V, b: seq<V>, x: V, cmp: (V, V) -> int)
    requires cmp(x, v) < 0
    ensures InsertSorted(a, x, cmp) + [v] + b == InsertSorted(a + [v] + b, x, cmp)
  {
    var tail := [v] + b;
    InsertSortedBeforeTail(a, tail, x, cmp);
    assert a + [v] + b == a + tail;
    assert InsertSorted(a, x, cmp) + [v] + b == InsertSorted(a, x, cmp) + tail;
  }

  /** The traversal step of `InsertInorder` where `x` goes into the right subtree. */
  lemma {:induction false} InsertSortedRightStep<V>(a: seq<V>, v: V, b: seq<V>, x: V, cmp: (V, V) -> int)
    requires cmp(x, v) >= 0
    requires forall i :: 0 <= i < |a| ==> cmp(x, a[i]) >= 0
    ensures a + [v] + InsertSorted(b, x, cmp) == InsertSorted(a + [v] + b, x, cmp)
  {
    var front := a + [v];
    forall i | 0 <= i < |front|
      ensures cmp(x, front[i]) >= 0
    {
      if i < |a| {
        assert front[i] == a[i];
      }
    }
    InsertSortedPastPrefix(front, b, x, cmp);
  }

  /** Joining two sorted runs around a pivot keeps them sorted. */
  lemma {:induction false} SortedJoin<V(!new)>(a: seq<V>, v: V, b: seq<V>, cmp: (V, V) -> int)
    requires TotalPreorder(cmp)
    requires Sorted(a, cmp) && Sorted(b, cmp)
    requires forall i :: 0 <= i < |a| ==> cmp(a[i], v) < 0
    requires forall i :: 0 <= i < |b| ==> cmp(b[i], v) >= 0
    ensures Sorted(a + [v] + b, cmp)
  {
    var s := a + [v] + b;
    forall i, j | 0 <= i < j < |s|
      ensures cmp(s[i], s[j]) <= 0
    {
      if i < |a| && j > |a| {
        assert s[j] == b[j - |a| - 1];
        PreorderFlip(cmp, v, s[j]);
      } else if i == |a| {
        assert s[j] == b[j - |a| - 1];
        PreorderFlip(cmp, v, s[j]);
      } else if i > |a| {
        assert s[i] == b[i - |a| - 1] && s[j] == b[j - |a| - 1];
      }
    }
  }

  /** The traversal of a search tree is non-decreasing. */
  lemma {:induction false} InorderSorted<V(!new)>(t: Tree<V>, cmp: (V, V) -> int)
    requires IsBst(t, cmp)
    requires TotalPreorder(cmp)
    ensures Sorted(Inorder(t), cmp)
  {
    match t
    case Leaf =>
    case Node(l, v, rt) =>
      InorderSorted(l, cmp);
      InorderSorted(rt, cmp);
      var a, b := Inorder(l), Inorder(rt);
      forall i | 0 <= i < |a|
        ensures cmp(a[i], v) < 0
      {
        assert a[i] in multiset(a);
      }
      forall i | 0 <= i < |b|
        ensures cmp(b[i], v) >= 0
      {
        assert b[i] in multiset(b);
      }
      SortedJoin(a, v, b, cmp);
  }

  /**
   Any run of inserts into an empty tree keeps the search-tree invariant, and
   the traversal afterwards is a non-decreasing arrangement of exactly the
   inserted values.
   */
  lemma {:induction false} InsertsYieldSorted<V(!new)>(vs: seq<V>, cmp: (V, V) -> int)
    requires TotalPreorder(cmp)
    ensures IsBst(InsertAll(Leaf, vs, cmp), cmp)
    ensures Sorted(Inorder(InsertAll(Leaf, vs, cmp)), cmp)
    ensures multiset(Inorder(InsertAll(Leaf, vs, cmp))) == multiset(vs)
  {
    InsertAllKeepsBst(Leaf, vs, cmp);
    InorderSorted(InsertAll(Leaf, vs, cmp), cmp);
  }

  /** A run of inserts behaves, on the traversal, like a run of stable insertions. */
  lemma {:induction false} InsertAllInorder<V(!new)>(t: Tree<V>, vs: seq<V>, cmp: (V, V) -> int)
    requires IsBst(t, cmp)
    requires TotalPreorder(cmp)
    ensures Inorder(InsertAll(t, vs, cmp)) == SortInto(Inorder(t), vs, cmp)
    decreases |vs|
  {
    if |vs| > 0 {
      var front := vs[..|vs| - 1];
      InsertAllInorder(t, front, cmp);
      InsertAllKeepsBst(t, front, cmp);
      InsertInorder(InsertAll(t, front, cmp), vs[|vs| - 1], cmp);
    }
  }

  /** Stable insertion of an already sorted sequence, one value after another, rebuilds it. */
  lemma {:induction false} SortIntoSorted<V(!new)>(vs: seq<V>, cmp: (V, V) -> int)
    requires TotalPreorder(cmp)
    requires Sorted(vs, cmp)
    ensures SortInto([], vs, cmp) == vs
    decreases |vs|
  {
    if |vs| > 0 {
      var front, last := vs[..|vs| - 1], vs[|vs| - 1];
      assert vs == front + [last];
      assert Sorted(front, cmp);
      SortIntoSorted(front, cmp);
      assert SortInto([], vs, cmp) == InsertSorted(front, last, cmp);
      forall i | 0 <= i < |front|
        ensures cmp(last, front[i]) >= 0
      {
        assert cmp(vs[i], vs[|vs| - 1]) <= 0;
        PreorderFlip(cmp, front[i], last);
      }
      InsertSortedPastPrefix(front, [], last, cmp);
      assert front + [] == front;
      assert InsertSorted([], last, cmp) == [last];
    }
  }

  /**
   Rebuilding a tree by inserting its own traversal, in order, gives a tree
   with the same traversal: the snapshot written out after a mutation reloads
   to the same sequence of values.
   */
  lemma {:induction false} ReloadKeepsInorder<V(!new)>(t: Tree<V>, cmp: (V, V) -> int)
    requires IsBst(t, cmp)
    requires TotalPreorder(cmp)
    ensures Inorder(InsertAll(Leaf, Inorder(t), cmp)) == Inorder(t)
  {
    InsertAllInorder(Leaf, Inorder(t), cmp);
    InorderSorted(t, cmp);
    SortIntoSorted(Inorder(t), cmp);
  }

  /**
   With a key comparator that agrees with the placement order, search finds
   a node exactly when some stored value matches the key.
   */
  lemma {:induction false} SearchFindsStored<K(!new), V(!new)>(
    t: Tree<V>, k: K, keyCmp: (K, V) -> int, valueCmp: (V, V) -> int)
    requires IsBst(t, valueCmp)
    requires KeyConsistent(keyCmp, valueCmp)
    ensures Search(t, k, keyCmp).Some? <==> exists v :: v in Elements(t) && keyCmp(k, v) == 0
  {
    match t
    case Leaf =>
    case Node(l, nv, rt) =>
      if exists v :: v in Elements(t) && keyCmp(k, v) == 0 {
        var v :| v in Elements(t) && keyCmp(k, v) == 0;
        var c := keyCmp(k, nv);
        assert Sign(c) == Sign(valueCmp(v, nv));
        assert Sign(keyCmp(k, v)) == Sign(valueCmp(v, v));
        if c < 0 {
          assert v in Elements(l);
          SearchFindsStored(l, k, keyCmp, valueCmp);
        } else if c > 0 {
          assert v in Elements(rt);
          SearchFindsStored(rt, k, keyCmp, valueCmp);
        }
      }
  }

  /**
   Search returns the shallowest match on the descent path: in a search tree
   with an agreeing key comparator, every stored value that matches the key
   lies in the subtree returned, so among equal values kept as duplicates
   the one found is the one nearest the root.
   */
  lemma {:induction false} SearchFindsShallowest<K(!new), V(!new)>(
    t: Tree<V>, k: K, keyCmp: (K, V) -> int, valueCmp: (V, V) -> int)
    requires IsBst(t, valueCmp)
    requires KeyConsistent(keyCmp, valueCmp)
    ensures Search(t, k, keyCmp).Some? ==>
              forall v :: v in Elements(t) && keyCmp(k, v) == 0 ==> v in Elements(Search(t, k, keyCmp).value)
  {
    match t
    case Leaf =>
    case Node(l, nv, rt) =>
      var c := keyCmp(k, nv);
      if c < 0 {
        SearchFindsShallowest(l, k, keyCmp, valueCmp);
        forall v | v in Elements(t) && keyCmp(k, v) == 0
          ensures v in Elements(l)
        {
          assert Sign(c) == Sign(valueCmp(v, nv));
        }
      } else if c > 0 {
        SearchFindsShallowest(rt, k, keyCmp, valueCmp);
        forall v | v in Elements(t) && keyCmp(k, v) == 0
          ensures v in Elements(rt)
        {
          assert Sign(c) == Sign(valueCmp(v, nv));
        }
      }
  }
}
