/**
  Circular doubly linked lists (list.h). A ring is described by the sequence of its nodes from the head on;
  every primitive is proved to turn one such sequence into another.
 */
module Ring {
  import opened Sorting

  class ListNode {
    var next: ListNode?
    var prev: ListNode?

    constructor ()
      ensures next == null && prev == null
    {
      next, prev := null, null;
    }
  }

  ghost predicate Linked(a: ListNode, b: ListNode)
    reads a, b
  {
    a.next == b && b.prev == a
  }

  ghost predicate Distinct(s: seq<ListNode>) {
    forall i, j :: 0 <= i < j < |s| ==> s[i] != s[j]
  }

  /** `s` is a well-formed ring: next and prev are mutually inverse and visit exactly these nodes. */
  ghost predicate IsRing(s: seq<ListNode>)
    reads s
  {
    && s != [] && Distinct(s)
    && (forall i :: 0 <= i < |s| - 1 ==> Linked(s[i], s[i + 1]))
    && Linked(s[|s| - 1], s[0])
  }

  function Successor(s: seq<ListNode>, k: nat): (n: ListNode)
    requires k < |s|
  {
    if k + 1 < |s| then s[k + 1] else s[0]
  }

  function Predecessor(s: seq<ListNode>, k: nat): (n: ListNode)
    requires k < |s|
  {
    if k > 0 then s[k - 1] else s[|s| - 1]
  }

  lemma RingLinks(s: seq<ListNode>, k: nat)
    requires IsRing(s) && k < |s|
    ensures s[k].next == Successor(s, k) && s[k].prev == Predecessor(s, k)
  {
    if k > 0 {
      assert Linked(s[k - 1], s[k]);
    }
    if k + 1 < |s| {
      assert Linked(s[k], s[k + 1]);
    }
  }

  /** INIT_LIST_HEAD. */
  method InitHead(p: ListNode)
    modifies p
    ensures IsRing([p])
  {
    p.next, p.prev := p, p;
  }

  method IsEmpty(head: ListNode, ghost s: seq<ListNode>) returns (r: bool)
    requires IsRing(s) && s[0] == head
    ensures r == (|s| == 1)
  {
    RingLinks(s, 0);
    return head.next == head;
  }

  function Inserted(s: seq<ListNode>, k: nat, x: ListNode): (r: seq<ListNode>)
    requires k < |s|
  {
    s[..k + 1] + [x] + s[k + 1..]
  }

  /** __list_add between node `k` of the ring and the one after it. */
  method AddBetween(x: ListNode, prev: ListNode, next: ListNode, ghost s: seq<ListNode>, ghost k: nat)
    requires IsRing(s) && x !in s && k < |s| && prev == s[k] && next == Successor(s, k)
    modifies x, prev, next
    ensures IsRing(Inserted(s, k, x))
  {
    next.prev := x;
    x.next := next;
    x.prev := prev;
    prev.next := x;
    ghost var r := Inserted(s, k, x);
    hide Inserted, Distinct;
    forall i | 0 <= i < |r| - 1 ensures Linked(r[i], r[i + 1]) {
      if i < k {
        assert old(Linked(s[i], s[i + 1]));
        Apart(s, i, k);
        Apart(s, i + 1, (k + 1) % |s|);
      } else if i > k + 1 {
        assert old(Linked(s[i - 1], s[i]));
        Apart(s, i - 1, k);
        Apart(s, i, (k + 1) % |s|);
      }
    }
    if k < |s| - 1 {
      assert old(Linked(s[|s| - 1], s[0]));
      Apart(s, k, |s| - 1);
      Apart(s, 0, k + 1);
    }
  }

  lemma Apart(s: seq<ListNode>, i: nat, j: nat)
    requires Distinct(s) && i < |s| && j < |s|
    ensures s[i] == s[j] <==> i == j
  {
  }

  /** list_add: right after a node of the ring. */
  method Add(x: ListNode, head: ListNode, ghost s: seq<ListNode>, ghost k: nat)
    requires IsRing(s) && x !in s && k < |s| && s[k] == head
    modifies x, head, Successor(s, k)
    ensures IsRing(Inserted(s, k, x))
  {
    RingLinks(s, k);
    AddBetween(x, head, head.next, s, k);
  }

  /** list_add_tail: last in the ring. */
  method AddTail(x: ListNode, head: ListNode, ghost s: seq<ListNode>)
    requires IsRing(s) && x !in s && s[0] == head
    modifies x, head, s[|s| - 1]
    ensures IsRing(s + [x])
  {
    RingLinks(s, 0);
    AddBetween(x, head.prev, head, s, |s| - 1);
    assert Inserted(s, |s| - 1, x) == s + [x];
  }

  function Removed(s: seq<ListNode>, k: nat): (r: seq<ListNode>)
    requires k < |s|
  {
    s[..k] + s[k + 1..]
  }

  /** list_del of a node that is not the head. */
  method Del(entry: ListNode, ghost s: seq<ListNode>, ghost k: nat)
    requires IsRing(s) && 0 < k < |s| && s[k] == entry
    modifies entry, Predecessor(s, k), Successor(s, k)
    ensures IsRing(Removed(s, k))
    ensures entry.next == null && entry.prev == null
  {
    RingLinks(s, k);
    var prev, next := entry.prev, entry.next;
    next.prev := prev;
    prev.next := next;
    entry.next := null;
    entry.prev := null;
    ghost var r := Removed(s, k);
    assert |r| == |s| - 1 && forall i :: 0 <= i < |r| ==> r[i] == if i < k then s[i] else s[i + 1];
    hide Removed;
    forall i | 0 <= i < |r| - 1 ensures Linked(r[i], r[i + 1]) {
      if i < k - 1 {
        assert old(Linked(s[i], s[i + 1]));
        assert s[i] != prev && s[i] != entry && s[i + 1] != entry && s[i + 1] != next;
      } else if i >= k {
        assert old(Linked(s[i + 1], s[i + 2]));
      }
    }
    assert Linked(r[|r| - 1], r[0]) by {
      if k < |s| - 1 {
        assert old(Linked(s[|s| - 1], s[0]));
      }
    }
  }

  /** list_size. */
  method Size(head: ListNode, ghost s: seq<ListNode>) returns (n: nat)
    requires IsRing(s) && s[0] == head
    ensures n == |s| - 1
  {
    n := 0;
    RingLinks(s, 0);
    var pos := head.next;
    while pos != head
      invariant n < |s| && pos == Successor(s, n)
      decreases |s| - n
    {
      n := n + 1;
      RingLinks(s, n);
      pos := pos.next;
    }
  }

  /** The collecting loop of list_sort, its bound test included. */
  method Collect(head: ListNode, nmemb: nat, ghost s: seq<ListNode>) returns (a: seq<ListNode>)
    requires IsRing(s) && s[0] == head && nmemb == |s| - 1
    ensures a == s[1..]
  {
    a := [];
    RingLinks(s, 0);
    var pos := head.next;
    while pos != head && |a| < nmemb
      invariant |a| < |s| && a == s[1..|a| + 1] && pos == Successor(s, |a|)
      decreases |s| - |a|
    {
      a := a + [pos];
      RingLinks(s, |a|);
      pos := pos.next;
    }
  }

  /** The relinking loop of list_sort: each node goes after the one before it, and `head` moves on. */
  method Relink(head: ListNode, a: seq<ListNode>)
    requires Distinct([head] + a)
    modifies head, a
    ensures IsRing([head] + a)
  {
    InitHead(head);
    var last := head;
    var i := 0;
    assert [head] + a[..0] == [head];
    while i < |a|
      invariant 0 <= i <= |a|
      invariant IsRing([head] + a[..i]) && last == ([head] + a)[i]
    {
      RelinkOne(head, a, i, last);
      last := a[i];
      i := i + 1;
    }
    assert a[..i] == a;
  }

  method RelinkOne(head: ListNode, a: seq<ListNode>, i: nat, last: ListNode)
    requires Distinct([head] + a) && i < |a| && last == ([head] + a)[i]
    requires IsRing([head] + a[..i])
    modifies head, a
    ensures IsRing([head] + a[..i + 1]) && last.next == a[i]
  {
    ghost var s := [head] + a[..i];
    assert a[i] !in s by {
      NewNode(head, a, i);
    }
    hide Distinct, Linked;
    InitHead(a[i]);
    assert IsRing(s);
    Add(a[i], last, s, i);
    assert Inserted(s, i, a[i]) == [head] + a[..i + 1];
    RingLinks([head] + a[..i + 1], i);
  }

  lemma NewNode(head: ListNode, a: seq<ListNode>, i: nat)
    requires Distinct([head] + a) && i < |a|
    ensures a[i] !in [head] + a[..i]
  {
    var s := [head] + a;
    assert s[i + 1] == a[i];
    assert forall j :: 0 <= j <= i ==> ([head] + a[..i])[j] == s[j];
  }

  function Identity(n: ListNode): (r: ListNode) { n }

  lemma DistinctSorted(s: seq<ListNode>, a: seq<ListNode>)
    requires s != [] && Distinct(s) && multiset(a) == multiset(s[1..])
    ensures Distinct([s[0]] + a) && forall x :: x in a ==> x in s
  {
    SameMembers(a, s[1..]);
    assert DistinctBy(s[1..], Identity);
    DistinctPermuted(a, s[1..], Identity);
    assert s == [s[0]] + s[1..];
    forall i | 0 <= i < |a| ensures a[i] != s[0] && Identity(a[i]) == a[i] {
      assert a[i] in s[1..];
    }
  }

  /** list_sort: the same nodes, ring intact, in comparator order. */
  method Sort(head: ListNode, cmp: (ListNode, ListNode) -> int, ghost s: seq<ListNode>) returns (ghost t: seq<ListNode>)
    requires IsRing(s) && s[0] == head
    modifies s
    ensures SortOf(t, s[1..], cmp) && IsRing([head] + t)
  {
    hide SortOf;
    var nmemb := Size(head, s);
    var a := Collect(head, nmemb, s);
    a := QSort(a, cmp);
    DistinctSorted(s, a);
    assert s[0] == head && forall i :: 0 <= i < |a| ==> a[i] in s;
    Relink(head, a);
    t := a;
  }
}
