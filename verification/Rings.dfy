/** A family of disjoint rings: ring number i has the head heads[i] and the nodes lists[i]. Each
    operation of include/list.h on one or two of them leaves the others as they are. */
module Rings {
  import opened List

  ghost function Members<T>(lists: seq<seq<ListNode<T>>>): set<ListNode<T>> {
    set i, x | 0 <= i < |lists| && x in lists[i] :: x
  }

  ghost predicate RingFamily<T>(heads: seq<ListNode<T>>, lists: seq<seq<ListNode<T>>>)
    reads heads, Members(lists)
  {
    && |heads| == |lists|
    && forall i :: 0 <= i < |heads| ==>
                     heads[i].ring == i && (assert forall x :: x in lists[i] ==>
                       x in Members(lists); Ring(heads[i], lists[i]))
  }

  /** A node is in the ring whose number it carries, and in no other. */
  lemma OwnRing<T>(heads: seq<ListNode<T>>, lists: seq<seq<ListNode<T>>>, i: nat, x: ListNode<T>)
    requires RingFamily(heads, lists) && i < |heads| && (x == heads[i] || x in lists[i])
    ensures x.ring == i
    ensures x.next.ring == i && x.prev.ring == i
    ensures x.next == heads[i] || x.next in Members(lists)
    ensures x.prev == heads[i] || x.prev in Members(lists)
  {
    assert Ring(heads[i], lists[i]);
    RingMirrored(heads[i], lists[i], x);
    assert x.next != heads[i] ==> x.next in lists[i];
    assert x.prev != heads[i] ==> x.prev in lists[i];
  }

  lemma MembersAdd<T>(lists: seq<seq<ListNode<T>>>, s: nat, node: ListNode<T>)
    requires s < |lists|
    ensures Members(lists[s := lists[s] + [node]]) == Members(lists) + {node}
  {
    var lists' := lists[s := lists[s] + [node]];
    assert node in lists'[s];
    forall x | x in Members(lists) ensures x in Members(lists') {
      var i :| 0 <= i < |lists| && x in lists[i];
      assert x in lists'[i];
    }
  }

  lemma MembersMove<T>(lists: seq<seq<ListNode<T>>>, s: nat, t: nat)
    requires s < |lists| && t < |lists| && s != t
    ensures Members(lists[s := []][t := lists[s] + lists[t]]) == Members(lists)
  {
    var lists' := lists[s := []][t := lists[s] + lists[t]];
    forall x | x in Members(lists) ensures x in Members(lists') {
      var i :| 0 <= i < |lists| && x in lists[i];
      assert x in lists'[if i == s then t else i];
    }
  }

  /** A new empty ring at the end of the family. */
  lemma PushRing<T>(heads: seq<ListNode<T>>, lists: seq<seq<ListNode<T>>>, head: ListNode<T>)
    requires RingFamily(heads, lists) && Ring(head, []) && head.ring == |heads|
    ensures RingFamily(heads + [head], lists + [[]])
  {
    forall i | 0 <= i < |heads| ensures heads[i].ring == i && Ring(heads[i], lists[i]) {
    }
  }

  lemma RemovedOnce<T>(head: ListNode<T>, s: seq<ListNode<T>>, k: nat)
    requires Ring(head, s) && k < |s|
    ensures forall x :: x in RemoveAt(s, k) <==> x in s && x != s[k]
  {
    var t := RemoveAt(s, k);
    forall x | x in s && x != s[k] ensures x in t {
      var j :| 0 <= j < |s| && s[j] == x;
      assert t[if j < k then j else j - 1] == x;
    }
    forall x | x in t ensures x in s && x != s[k] {
      var j :| 0 <= j < |t| && t[j] == x;
      assert s[if j < k then j else j + 1] == x;
    }
  }

  lemma MembersRemove<T>(heads: seq<ListNode<T>>, lists: seq<seq<ListNode<T>>>, s: nat, k: nat)
    requires RingFamily(heads, lists) && s < |lists| && k < |lists[s]|
    ensures Members(lists[s := RemoveAt(lists[s], k)]) == Members(lists) - {lists[s][k]}
  {
    var lists' := lists[s := RemoveAt(lists[s], k)];
    var node := lists[s][k];
    assert Ring(heads[s], lists[s]);
    RemovedOnce(heads[s], lists[s], k);
    forall x | x in Members(lists) && x != node ensures x in Members(lists') {
      var i :| 0 <= i < |lists| && x in lists[i];
      assert x in lists'[i];
    }
    forall x | x in Members(lists') ensures x in Members(lists) && x != node {
      var i :| 0 <= i < |lists'| && x in lists'[i];
      assert x in lists[i];
      OwnRing(heads, lists, i, x);
      OwnRing(heads, lists, s, node);
    }
  }

  /** An unlinked node is in no ring. */
  lemma NotMember<T>(heads: seq<ListNode<T>>, lists: seq<seq<ListNode<T>>>, node: ListNode<T>)
    requires RingFamily(heads, lists) && node.ring == -1
    ensures node !in Members(lists) && node !in heads
  {
  }

  lemma Position<T>(heads: seq<ListNode<T>>, lists: seq<seq<ListNode<T>>>, node: ListNode<T>) returns (s: nat, k: nat)
    requires RingFamily(heads, lists) && node in Members(lists)
    ensures s < |lists| && s == node.ring && k < |lists[s]| && lists[s][k] == node
    ensures forall x :: x in RemoveAt(lists[s], k) <==> x in lists[s] && x != node
  {
    s :| s < |lists| && node in lists[s];
    OwnRing(heads, lists, s, node);
    k :| k < |lists[s]| && lists[s][k] == node;
    assert Ring(heads[s], lists[s]);
    RemovedOnce(heads[s], lists[s], k);
  }

  /** wmList_add_back on ring s. */
  method LinkBack<T>(ghost heads: seq<ListNode<T>>, ghost lists: seq<seq<ListNode<T>>>, ghost s: nat,
                     head: ListNode<T>, node: ListNode<T>)
    requires RingFamily(heads, lists) && s < |heads| && head == heads[s] && node.ring == -1
    modifies head`prev, head.prev`next, node`next, node`prev, node`ring
    ensures RingFamily(heads, lists[s := lists[s] + [node]]) && node.ring == s
    ensures Members(lists[s := lists[s] + [node]]) == Members(lists) + {node}
  {
    MembersAdd(lists, s, node);
    OwnRing(heads, lists, s, head);
    assert Ring(heads[s], lists[s]);
    AddBack(head, node, lists[s]);
    ghost var lists' := lists[s := lists[s] + [node]];
    forall i | 0 <= i < |heads| ensures heads[i].ring == i && Ring(heads[i], lists'[i]) {
      if i != s {
        assert old(Ring(heads[i], lists[i])) && old(heads[i].ring) == i;
      }
    }
  }

  /** wmList_remote of the k-th node of ring s. */
  method Unlink<T>(ghost heads: seq<ListNode<T>>, ghost lists: seq<seq<ListNode<T>>>, ghost s: nat, ghost k: nat,
                   node: ListNode<T>)
    requires RingFamily(heads, lists) && s < |heads| && k < |lists[s]| && lists[s][k] == node
    modifies node`next, node`prev, node`ring, node.next`prev, node.prev`next
    ensures RingFamily(heads, lists[s := RemoveAt(lists[s], k)]) && node.ring == -1 && node.next == node
    ensures Members(lists[s := RemoveAt(lists[s], k)]) == Members(lists) - {node}
  {
    MembersRemove(heads, lists, s, k);
    OwnRing(heads, lists, s, node);
    assert Ring(heads[s], lists[s]);
    Remote(node, heads[s], lists[s], k);
    ghost var lists' := lists[s := RemoveAt(lists[s], k)];
    forall i | 0 <= i < |heads| ensures heads[i].ring == i && Ring(heads[i], lists'[i]) {
      if i != s {
        assert old(Ring(heads[i], lists[i])) && old(heads[i].ring) == i;
      }
    }
  }

  /** wmList_splice of ring s into ring t. */
  method MoveAll<T>(ghost heads: seq<ListNode<T>>, ghost lists: seq<seq<ListNode<T>>>, ghost s: nat, ghost t: nat,
                    head1: ListNode<T>, head2: ListNode<T>)
    requires RingFamily(heads, lists) && s < |heads| && t < |heads| && s != t && head1 == heads[s] && head2 == heads[t]
    modifies head1`next, head1`prev, head2`next, lists[s]`ring, head1.next`prev, head1.prev`next, head2.next`prev
    ensures RingFamily(heads, lists[s := []][t := lists[s] + lists[t]])
  {
    OwnRing(heads, lists, s, head1);
    OwnRing(heads, lists, t, head2);
    assert Ring(heads[s], lists[s]) && Ring(heads[t], lists[t]);
    Splice(head1, head2, lists[s], lists[t]);
    ghost var lists' := lists[s := []][t := lists[s] + lists[t]];
    forall i | 0 <= i < |heads| ensures heads[i].ring == i && Ring(heads[i], lists'[i]) {
      if i != s && i != t {
        assert old(Ring(heads[i], lists[i])) && old(heads[i].ring) == i;
      }
    }
  }
}
