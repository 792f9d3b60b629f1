/** The queue of include/queue.h: a circular list with a head that carries no element,
    and a counter. */
module Queue {
  import opened List
  import opened Options

  ghost function Values<T>(nodes: seq<ListNode<T>>): (v: seq<T>)
    reads nodes
    ensures |v| == |nodes| && forall i :: 0 <= i < |v| ==> v[i] == nodes[i].data
  {
    seq(|nodes|, i requires 0 <= i < |nodes| reads nodes => nodes[i].data)
  }

  class Queue<T(0)> {
    var num: nat
    const head: ListNode<T>
    ghost var nodes: seq<ListNode<T>>
    /** The elements, first in first. */
    ghost var contents: seq<T>

    /** The queue and its nodes. */
    ghost var repr: set<object>

    ghost predicate Linked()
      reads this`repr, this`nodes
    {
      this in repr && head in repr && forall n :: n in nodes ==> n in repr
    }

    ghost predicate Valid()
      reads this, repr
    {
      Linked() && Ring(head, nodes) && num == |nodes| && contents == Values(nodes)
    }

    /** wmQueue_create. */
    constructor ()
      ensures Valid() && contents == [] && fresh(repr)
    {
      var none: T := *;
      head := new ListNode(none, 0);
      num := 0;
      nodes, contents := [], [];
      repr := {this, head};
    }

    /** wmQueue_push. */
    method Push(data: T)
      requires Valid()
      modifies repr
      ensures Valid() && fresh(repr - old(repr))
      ensures contents == old(contents) + [data]
    {
      var node := new ListNode(data, -1);
      AddBack(head, node, nodes);
      num := num + 1;
      nodes, contents := nodes + [node], contents + [data];
      repr := repr + {node};
    }

    /** Takes the first node off the ring. */
    method TakeFirst() returns (first: ListNode<T>)
      requires Ring(head, nodes) && nodes != [] && Linked()
      modifies repr
      ensures Ring(head, nodes) && Linked() && nodes == old(nodes)[1..] && repr == old(repr)
      ensures num == old(num) && contents == old(contents)
      ensures first == old(nodes)[0] && forall n :: n in old(nodes) ==> n.data == old(n.data)
    {
      first := head.next;
      ghost var all, rest := nodes, nodes[1..];
      RingMirrored(head, all, first);
      assert RemoveAt(all, 0) == rest;
      nodes := rest;
      Remote(first, head, all, 0);
    }

    /** wmQueue_pop: the element is read before its node is given back. */
    method Pop() returns (r: Option<T>)
      requires Valid()
      modifies repr
      ensures Valid() && repr == old(repr)
      ensures if old(contents) == []
              then r == None && contents == []
              else r == Some(old(contents)[0]) && contents == old(contents)[1..]
    {
      if IsEmpty(head) || num == 0 {
        return None;
      }
      var next := TakeFirst();
      num := num - 1;
      contents := contents[1..];
      return Some(next.data);
    }

    /** wmQueue_clear. */
    method Clear()
      requires Valid()
      modifies repr
      ensures Valid() && repr == old(repr) && contents == [] && num == 0
    {
      if num == 0 {
        return;
      }
      while !IsEmpty(head)
        invariant Ring(head, nodes) && Linked() && repr == old(repr)
        decreases |nodes|
      {
        var _ := TakeFirst();
      }
      num := 0;
      contents := [];
    }
  }
}
