/**
 The singly linked list of `app/structures/linked_list.py`.

 The list is the chain of nodes hanging from the head: `Nil` is an empty head
 (or a missing `next`), `ListNode` is a node owning the rest of the chain.
 The list keeps no reference to its tail, and `find`/`delete` take a predicate on the data.
 */
module LinkedLists {
  import opened Options

  datatype LinkedList<T> = Nil | ListNode(data: T, next: LinkedList<T>)

  /** `LinkedList.list_items`: the data from head to tail. */
  function Items<T>(l: LinkedList<T>): (r: seq<T>)
    ensures l.Nil? <==> |r| == 0
    ensures l.ListNode? ==> r[0] == l.data
  {
    match l
    case Nil => []
    case ListNode(d, n) => [d] + Items(n)
  }

  /**
   Reference for first-match semantics: the index of the first element that
   satisfies `pred`, or `|s|` when none does.
   */
  function FirstIndex<T>(s: seq<T>, pred: T -> bool): (i: nat)
    ensures i <= |s|
    ensures forall j :: 0 <= j < i ==> !pred(s[j])
    ensures i < |s| ==> pred(s[i])
  {
    if |s| == 0 then 0
    else if pred(s[0]) then 0
    else 1 + FirstIndex(s[1..], pred)
  }

  /**
   `LinkedList.insert`: walk from the head to the last node and attach a new
   node after it (or make it the head of an empty list).
   */
  function Append<T>(l: LinkedList<T>, d: T): (r: LinkedList<T>)
    ensures Items(r) == Items(l) + [d]
  {
    match l
    case Nil => ListNode(d, Nil)
    case ListNode(x, n) => ListNode(x, Append(n, d))
  }

  /**
   `LinkedList.find`: the data of the first node, from the head, whose data
   satisfies `pred`; `None` when no node does, including on an empty list.
   */
  function Find<T>(l: LinkedList<T>, pred: T -> bool): (r: Option<T>)
    ensures r.None? <==> forall j :: 0 <= j < |Items(l)| ==> !pred(Items(l)[j])
    ensures r.Some? ==> FirstIndex(Items(l), pred) < |Items(l)|
                        && r.value == Items(l)[FirstIndex(Items(l), pred)]
  {
    match l
    case Nil => None
    case ListNode(d, n) =>
      assert Items(l)[0] == d && Items(l)[1..] == Items(n);
      if pred(d) then Some(d) else Find(n, pred)
  }

  /**
   The result of `LinkedList.delete`: the list after the unlink, and the
   removed node (still pointing at its old successor, as in the source).
   */
  datatype Deletion<T> = Deletion(rest: LinkedList<T>, removed: Option<LinkedList<T>>)

  /**
   `LinkedList.delete`: unlink the first node whose data satisfies `pred`,
   splicing its predecessor (or the head) to its successor, and return it.
   Nothing is removed when no node matches or the list is empty.
   */
  function Delete<T>(l: LinkedList<T>, pred: T -> bool): (r: Deletion<T>)
    ensures var s, i := Items(l), FirstIndex(Items(l), pred);
            && (r.removed.None? <==> i == |s|)
            && (r.removed.None? ==> r.rest == l)
            && (r.removed.Some? ==> r.removed.value.ListNode?
                                    && Items(r.removed.value) == s[i..]
                                    && Items(r.rest) == s[..i] + s[i + 1..])
  {
    match l
    case Nil => Deletion(Nil, None)
    case ListNode(d, n) =>
      if pred(d) then Deletion(n, Some(l))
      else
        var r := Delete(n, pred);
        DeleteStep(d, n, pred, r);
        Deletion(ListNode(d, r.rest), r.removed)
  }

  /** The step of `Delete` past a head that does not match. */
  lemma {:induction false} DeleteStep<T>(d: T, n: LinkedList<T>, pred: T -> bool, r: Deletion<T>)
    requires !pred(d)
    requires var s, i := Items(n), FirstIndex(Items(n), pred);
             && (r.removed.None? <==> i == |s|)
             && (r.removed.None? ==> r.rest == n)
             && (r.removed.Some? ==> r.removed.value.ListNode?
                                     && Items(r.removed.value) == s[i..]
                                     && Items(r.rest) == s[..i] + s[i + 1..])
    ensures var s, i := Items(ListNode(d, n)), FirstIndex(Items(ListNode(d, n)), pred);
            && (r.removed.None? <==> i == |s|)
            && (r.removed.None? ==> ListNode(d, r.rest) == ListNode(d, n))
            && (r.removed.Some? ==> r.removed.value.ListNode?
                                    && Items(r.removed.value) == s[i..]
                                    && Items(ListNode(d, r.rest)) == s[..i] + s[i + 1..])
  {
    var t := Items(n);
    assert Items(ListNode(d, n)) == [d] + t;
    FirstIndexPastHead(d, t, pred);
    if r.removed.Some? {
      SlicesPastHead(d, t, FirstIndex(t, pred));
    }
  }

  /** The first match in `[d] + t`, when `d` does not match, is one past the first match in `t`. */
  lemma {:induction false} FirstIndexPastHead<T>(d: T, t: seq<T>, pred: T -> bool)
    requires !pred(d)
    ensures FirstIndex([d] + t, pred) == FirstIndex(t, pred) + 1
  {
    assert ([d] + t)[1..] == t;
  }

  /** The slices of `[d] + t` around position `k + 1` in terms of those of `t` around `k`. */
  lemma {:induction false} SlicesPastHead<T>(d: T, t: seq<T>, k: nat)
    requires k < |t|
    ensures ([d] + t)[k + 1..] == t[k..]
    ensures ([d] + t)[..k + 1] + ([d] + t)[k + 2..] == [d] + (t[..k] + t[k + 1..])
  {
    assert ([d] + t)[..k + 1] == [d] + t[..k];
    assert ([d] + t)[k + 2..] == t[k + 1..];
  }

  /** Deleting when some element matches removes exactly that one: the length drops by one. */
  lemma {:induction false} DeleteShrinksByOne<T>(l: LinkedList<T>, pred: T -> bool)
    requires exists j :: 0 <= j < |Items(l)| && pred(Items(l)[j])
    ensures Delete(l, pred).removed.Some?
    ensures pred(Delete(l, pred).removed.value.data)
    ensures |Items(Delete(l, pred).rest)| == |Items(l)| - 1
  {
    var s, i := Items(l), FirstIndex(Items(l), pred);
    assert Items(Delete(l, pred).removed.value)[0] == s[i];
  }

  /**
   A deletion keeps the relative order of everything else: the remaining
   items, with the removed one put back at its old place, are the old items.
   */
  lemma {:induction false} DeleteKeepsOrder<T>(l: LinkedList<T>, pred: T -> bool)
    ensures var r := Delete(l, pred);
            r.removed.Some? ==>
              var i := FirstIndex(Items(l), pred);
              Items(r.rest)[..i] + [r.removed.value.data] + Items(r.rest)[i..] == Items(l)
  {
    var r := Delete(l, pred);
    if r.removed.Some? {
      var s, i := Items(l), FirstIndex(Items(l), pred);
      assert Items(r.rest)[..i] == s[..i];
      assert Items(r.rest)[i..] == s[i + 1..];
      assert Items(r.removed.value)[0] == s[i];
      assert s == s[..i] + [s[i]] + s[i + 1..];
    }
  }

  /**
   A run of `LinkedList.insert` calls, one per value of `vs`, in order: the
   list then holds the old items followed by exactly `vs`, in that order.
   */
  function AppendAll<T>(l: LinkedList<T>, vs: seq<T>): (r: LinkedList<T>)
    ensures Items(r) == Items(l) + vs
    decreases |vs|
  {
    if |vs| == 0 then l
    else
      var front := vs[..|vs| - 1];
      assert vs == front + [vs[|vs| - 1]];
      Append(AppendAll(l, front), vs[|vs| - 1])
  }
}
