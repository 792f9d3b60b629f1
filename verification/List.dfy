/** The intrusive circular lists of include/list.h. */
module List {

  /** A list node; heads are nodes too, and their data is not used. */
  class ListNode<T> {
    var next: ListNode<T>
    var prev: ListNode<T>
    var data: T
    /** Which ring the node is linked in. */
    ghost var ring: int

    /** A self-linked node, as wmList_init makes it. */
    constructor (data: T, ghost ring: int)
      ensures Ring(this, []) && this.data == data && this.ring == ring
    {
      next, prev := this, this;
      this.data := data;
      this.ring := ring;
    }
  }

  /** head and the nodes of s, in this order, form a circular doubly linked list, without
      repetition, and all of them know their ring. */
  ghost predicate Ring<T>(head: ListNode<T>, s: seq<ListNode<T>>)
    reads head`next, head`prev, head`ring, s`next, s`prev, s`ring
  {
    && (if s == [] then head.next == head && head.prev == head
        else head.next == s[0] && s[0].prev == head && s[|s| - 1].next == head && head.prev == s[|s| - 1])
    && (forall i, j :: 0 <= i && j == i + 1 && j < |s| ==> s[i].next == s[j] && s[j].prev == s[i])
    && (forall i, j :: 0 <= i < j < |s| ==> s[i] != s[j])
    && head !in s
    && (forall x :: x in s ==> x.ring == head.ring)
  }

  /** In every ring, next and prev are inverse to each other. */
  lemma RingMirrored<T>(head: ListNode<T>, s: seq<ListNode<T>>, x: ListNode<T>)
    requires Ring(head, s) && (x == head || x in s)
    ensures x.next.prev == x && x.prev.next == x
    ensures (x.next == head || x.next in s) && (x.prev == head || x.prev in s)
  {
    if x in s {
      var i :| 0 <= i < |s| && s[i] == x;
      if i + 1 < |s| {
        assert s[i].next == s[i + 1] && s[i + 1].prev == s[i];
      }
      if i > 0 {
        assert s[i - 1].next == s[i] && s[i].prev == s[i - 1];
      }
    }
  }

  /** No node of a ring is linked to itself. */
  lemma NotSelfLinked<T>(head: ListNode<T>, s: seq<ListNode<T>>, x: ListNode<T>)
    requires Ring(head, s) && x in s
    ensures !IsEmpty(x)
  {
    var i :| 0 <= i < |s| && s[i] == x;
    if i + 1 < |s| {
      assert s[i].next == s[i + 1];
    }
  }

  /** wmList_add_front. */
  method AddFront<T>(head: ListNode<T>, node: ListNode<T>, ghost s: seq<ListNode<T>>)
    requires Ring(head, s) && node != head && node !in s
    modifies node`next, node`prev, node`ring, head`next, head.next`prev
    ensures Ring(head, [node] + s) && node.ring == head.ring
  {
    ghost var first := head.next;
    node.prev := head;
    node.next := head.next;
    head.next.prev := node;
    head.next := node;
    node.ring := head.ring;
    ghost var t := [node] + s;
    assert t[|t| - 1].next == head;
    forall i, j | 0 <= i && j == i + 1 && j < |t| ensures t[i].next == t[j] && t[j].prev == t[i] {
      if i > 0 {
        assert s[i - 1].next == s[i] && s[i].prev == s[i - 1];
      }
    }
  }

  /** wmList_add_back. */
  method AddBack<T>(head: ListNode<T>, node: ListNode<T>, ghost s: seq<ListNode<T>>)
    requires Ring(head, s) && node != head && node !in s
    modifies node`next, node`prev, node`ring, head`prev, head.prev`next
    ensures Ring(head, s + [node]) && node.ring == head.ring
  {
    node.prev := head.prev;
    node.next := head;
    node.prev.next := node;
    head.prev := node;
    node.ring := head.ring;
    ghost var t := s + [node];
    forall i, j | 0 <= i && j == i + 1 && j < |t| ensures t[i].next == t[j] && t[j].prev == t[i] {
      if j < |s| {
        assert s[i].next == s[j] && s[j].prev == s[i];
      }
    }
  }

  /** wmList_is_empty. */
  predicate IsEmpty<T>(head: ListNode<T>)
    reads head
  {
    head == head.next
  }

  lemma EmptyRing<T>(head: ListNode<T>, s: seq<ListNode<T>>)
    requires Ring(head, s)
    ensures IsEmpty(head) <==> s == []
  {
  }

  ghost function RemoveAt<T>(s: seq<T>, k: nat): seq<T>
    requires k < |s|
  {
    s[..k] + s[k + 1..]
  }

  /** wmList_remote: unlinks a node and links it to itself. */
  method Remote<T>(node: ListNode<T>, ghost head: ListNode<T>, ghost s: seq<ListNode<T>>, ghost k: nat)
    requires Ring(head, s) && k < |s| && s[k] == node
    modifies node`next, node`prev, node`ring, node.next`prev, node.prev`next
    ensures Ring(head, RemoveAt(s, k)) && Ring(node, []) && node.ring == -1
  {
    ghost var t := RemoveAt(s, k);
    assert k > 0 ==> s[k - 1].next == s[k] && s[k].prev == s[k - 1];
    assert k + 1 < |s| ==> s[k].next == s[k + 1] && s[k + 1].prev == s[k];
    node.next.prev := node.prev;
    node.prev.next := node.next;
    node.next := node;
    node.prev := node;
    node.ring := -1;
    forall i, j | 0 <= i && j == i + 1 && j < |t| ensures t[i].next == t[j] && t[j].prev == t[i] {
      if j < k {
        assert s[i].next == s[j] && s[j].prev == s[i];
      } else if i >= k {
        assert s[i + 1].next == s[j + 1] && s[j + 1].prev == s[i + 1];
      }
    }
  }

  /** wmList_splice: moves the whole list of head1 to the front of that of head2. */
  method Splice<T>(head1: ListNode<T>, head2: ListNode<T>, ghost s1: seq<ListNode<T>>, ghost s2: seq<ListNode<T>>)
    requires Ring(head1, s1) && Ring(head2, s2) && head1.ring != head2.ring
    modifies head1`next, head1`prev, head2`next, s1`ring, head1.next`prev, head1.prev`next, head2.next`prev
    ensures Ring(head1, []) && Ring(head2, s1 + s2)
  {
    assert forall i, j :: 0 <= i < |s1| && 0 <= j < |s2| ==> s1[i].ring != s2[j].ring;
    if !IsEmpty(head1) {
      var first := head1.next;
      var last := head1.prev;
      var at := head2.next;
      first.prev := head2;
      head2.next := first;
      last.next := at;
      at.prev := last;
      head1.next := head1;
      head1.prev := head1;
      forall x | x in s1 {
        x.ring := head2.ring;
      }
      ghost var t := s1 + s2;
      forall i, j | 0 <= i && j == i + 1 && j < |t| ensures t[i].next == t[j] && t[j].prev == t[i] {
        if j < |s1| {
          assert s1[i].next == s1[j] && s1[j].prev == s1[i];
        } else if i >= |s1| {
          assert s2[i - |s1|].next == s2[j - |s1|] && s2[j - |s1|].prev == s2[i - |s1|];
        }
      }
    } else {
      assert s1 + s2 == s2;
    }
  }
}
