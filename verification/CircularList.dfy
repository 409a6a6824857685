/**
 The intrusive circular doubly linked list of the C headers, on the heap.  A
 ghost sequence names the nodes of a ring in order, the list head first.
 */
module CircularList {

  class ListNode {
    var next: ListNode
    var prev: ListNode

    /** list_init */
    constructor ()
      ensures Ring([this])
    {
      next, prev := this, this;
    }
  }

  ghost predicate Distinct(s: seq<ListNode>) {
    forall i, j | 0 <= i < j < |s| :: s[i] != s[j]
  }

  /** The node after s[i] going round. */
  ghost function After(s: seq<ListNode>, i: nat): ListNode
    requires i < |s|
  {
    if i + 1 == |s| then s[0] else s[i + 1]
  }

  ghost predicate Ring(s: seq<ListNode>)
    reads s
  {
    && |s| > 0
    && Distinct(s)
    && forall i | 0 <= i < |s| :: s[i].next == After(s, i) && After(s, i).prev == s[i]
  }

  method AddTail(head: ListNode, item: ListNode, ghost s: seq<ListNode>)
    requires Ring(s) && s[0] == head && item !in s
    modifies item, head, head.prev
    ensures Ring(s + [item])
  {
    assert After(s, |s| - 1) == head;
    item.next := head;
    item.prev := head.prev;
    head.prev.next := item;
    head.prev := item;
    ghost var t := s + [item];
    forall i | 0 <= i < |t|
      ensures t[i].next == After(t, i) && After(t, i).prev == t[i]
    {
      if i + 1 < |s| {
        assert After(s, i) == s[i + 1];
      }
    }
  }

  method AddHead(head: ListNode, item: ListNode, ghost s: seq<ListNode>)
    requires Ring(s) && s[0] == head && item !in s
    modifies item, head, head.next
    ensures Ring([head, item] + s[1..])
  {
    assert After(s, 0) == head.next && After(s, |s| - 1) == head;
    item.next := head.next;
    item.prev := head;
    head.next.prev := item;
    head.next := item;
    ghost var t := [head, item] + s[1..];
    forall i | 0 <= i < |t|
      ensures t[i].next == After(t, i) && After(t, i).prev == t[i]
    {
      if i >= 2 {
        assert t[i] == s[i - 1] && After(t, i) == After(s, i - 1);
      }
    }
  }

  ghost function Removed(s: seq<ListNode>, j: nat): seq<ListNode>
    requires j < |s|
  {
    s[..j] + s[j + 1..]
  }

  /** list_remove leaves the item's own links alone. */
  method Remove(item: ListNode, ghost s: seq<ListNode>, ghost j: nat)
    requires Ring(s) && 0 < j < |s| && s[j] == item
    modifies item.next, item.prev
    ensures Ring(Removed(s, j))
    ensures item.next == old(item.next) && item.prev == old(item.prev)
  {
    assert After(s, j - 1) == item && item.prev == s[j - 1] && item.next == After(s, j);
    item.next.prev := item.prev;
    item.prev.next := item.next;
    ghost var t := Removed(s, j);
    forall i | 0 <= i < |t|
      ensures t[i].next == After(t, i) && After(t, i).prev == t[i]
    {
      if i + 1 < j {
        assert t[i] == s[i] && After(t, i) == After(s, i);
      } else if i + 1 == j {
        assert t[i] == s[j - 1] && After(t, i) == After(s, j);
      } else {
        assert t[i] == s[i + 1] && After(t, i) == After(s, i + 1);
      }
    }
  }

  /** Walking next from the head, as list_for_each does, meets every item once and in order. */
  method ForEach(head: ListNode, ghost s: seq<ListNode>) returns (visited: seq<ListNode>)
    requires Ring(s) && s[0] == head
    ensures visited == s[1..]
  {
    visited := [];
    var node := head.next;
    assert node == After(s, 0);
    ghost var i := 0;
    while node != head
      invariant i < |s| && visited == s[1..i + 1] && node == After(s, i)
      decreases |s| - i
    {
      visited := visited + [node];
      i := i + 1;
      assert s[i].next == After(s, i);
      node := node.next;
    }
  }

  /** low_queue compares head and tail, which is "fewer than two items", not "empty". */
  lemma LowQueueMeansFewerThanTwo(head: ListNode, s: seq<ListNode>)
    requires Ring(s) && s[0] == head
    ensures head.next == head.prev <==> |s| - 1 < 2
    ensures head.next == head <==> |s| - 1 == 0
  {
    assert After(s, 0) == head.next && After(s, |s| - 1) == head;
    assert head.prev == s[|s| - 1];
    if |s| >= 2 {
      assert head.next == s[1];
    }
  }

  /** A ring's order is fixed by its links: the same head has only one ring. */
  lemma RingIsDetermined(s: seq<ListNode>, t: seq<ListNode>)
    requires Ring(s) && Ring(t) && s[0] == t[0]
    ensures s == t
  {
    if |s| <= |t| {
      RingPrefix(s, t);
    } else {
      RingPrefix(t, s);
    }
  }

  lemma RingPrefix(s: seq<ListNode>, t: seq<ListNode>)
    requires Ring(s) && Ring(t) && s[0] == t[0] && |s| <= |t|
    ensures s == t
  {
    forall i | 0 <= i < |s|
      ensures s[i] == t[i]
    {
      SamePosition(s, t, i);
    }
    assert After(s, |s| - 1) == t[0] == After(t, |s| - 1);
  }

  lemma {:induction false} SamePosition(s: seq<ListNode>, t: seq<ListNode>, i: nat)
    requires Ring(s) && Ring(t) && s[0] == t[0] && i < |s| && i < |t|
    ensures s[i] == t[i]
  {
    if i > 0 {
      SamePosition(s, t, i - 1);
      assert After(s, i - 1) == s[i] && After(t, i - 1) == t[i];
    }
  }
}
