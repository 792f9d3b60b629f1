/** The hierarchical timer wheel of src/core/timer.c over the rings of include/list.h.

    What it stands for is a bag: the map `due` gives, for every pending node, the true tick count at
    which it fires, and `now` is the true number of ticks performed. */
module TimerWheel {
  import opened Bits
  import opened List
  import opened Options
  import opened Rings
  import opened TimerSpec
  import opened WheelSlots

  datatype Timer<C> = Timer(expire: uint32, callback: C)

  type Node<C> = ListNode<Timer<C>>

  type Bag<C> = map<Node<C>, nat>

  /** The bag with one more timer, asked for at time now. */
  ghost function Later<C>(due: Bag<C>, node: Node<C>, now: nat, ticks: uint32): Bag<C> {
    due[node := now + Delay(ticks)]
  }

  /** Every pending node of a slot may sit there, the rings of a wheel from `level` on being only weakly
      in order, except slot `fixed`; so_long_node is empty. */
  ghost predicate Placed<C>(lists: seq<seq<Node<C>>>, due: Bag<C>, now: nat, level: nat, fixed: nat)
  {
    && |lists| >= LOCAL && lists[SO_LONG] == []
    && forall s, x :: 0 <= s < SO_LONG && x in lists[s] ==>
                        x in due && InSlot(due[x], now, s, s != fixed && 256 + 64 * level <= s)
  }

  /** All nodes of a list are due within the next 2^32 ticks. */
  ghost predicate Near<C>(l: seq<Node<C>>, due: Bag<C>, now: nat) {
    forall x :: x in l ==> x in due && now <= due[x] < now + TWO_32
  }

  /** No slot holds a timer that is due. */
  ghost predicate NothingLate<C>(lists: seq<seq<Node<C>>>, due: Bag<C>, now: nat) {
    forall s, x :: 0 <= s < SO_LONG && s < |lists| && x in lists[s] ==> x in due && now < due[x]
  }

  ghost predicate AllDue<C>(l: seq<Node<C>>, due: Bag<C>, now: nat) {
    forall x :: x in l ==> x in due && due[x] == now
  }

  /** The wheel is in order and no slot holds a timer that is already due; if a drain is going on, the
      local ring holds timers due now. */
  ghost predicate InOrder<C>(lists: seq<seq<Node<C>>>, due: Bag<C>, now: nat) {
    && Placed(lists, due, now, 4, SO_LONG)
    && LOCAL <= |lists| <= LOCAL + 1
    && NothingLate(lists, due, now)
    && (|lists| > LOCAL ==> AllDue(lists[LOCAL], due, now))
  }

  /** The rings lists' hold no node that lists did not hold there, and all of them are still due when
      they were. */
  ghost predicate Fewer<C>(lists: seq<seq<Node<C>>>, due: Bag<C>, lists': seq<seq<Node<C>>>, due': Bag<C>) {
    forall s, x :: 0 <= s < |lists'| && x in lists'[s] ==>
                     s < |lists| && x in lists[s] && x in due && x in due' && due'[x] == due[x]
  }

  lemma InOrderShrink<C>(lists: seq<seq<Node<C>>>, due: Bag<C>, lists': seq<seq<Node<C>>>, due': Bag<C>, now: nat)
    requires InOrder(lists, due, now) && |lists'| == |lists| && lists'[SO_LONG] == []
    requires Fewer(lists, due, lists', due')
    ensures InOrder(lists', due', now)
  {
    PlacedShrink(lists, due, lists', due', now, 4, SO_LONG);
  }

  lemma InOrderAdd<C>(lists: seq<seq<Node<C>>>, due: Bag<C>, now: nat, node: Node<C>, d: nat)
    requires InOrder(lists, due, now) && node !in due && now < d < now + TWO_32
    ensures var s := SlotFor(d % TWO_32, now % TWO_32);
            s < SO_LONG && InOrder(lists[s := lists[s] + [node]], due[node := d], now)
  {
    PlacedAdd(lists, due, now, 4, SO_LONG, node, d);
  }

  /** Number of timers left to fire in the current drain. */
  ghost function Left<C>(lists: seq<seq<Node<C>>>): nat {
    if |lists| > LOCAL then |lists[LOCAL]| else 0
  }

  lemma PutBack<K, V>(m: map<K, V>, k: K)
    requires k in m
    ensures (m - {k})[k := m[k]] == m
  {
  }

  lemma PlacedAdd<C>(lists: seq<seq<Node<C>>>, due: Bag<C>, now: nat, level: nat, fixed: nat, node: Node<C>, d: nat)
    requires Placed(lists, due, now, level, fixed) && node !in due && now <= d < now + TWO_32
    ensures var s := SlotFor(d % TWO_32, now % TWO_32);
            s < SO_LONG && Placed(lists[s := lists[s] + [node]], due[node := d], now, level, fixed)
  {
    SlotForIsRight(d, now);
    var s := SlotFor(d % TWO_32, now % TWO_32);
    InSlotWeakens(d, now, s);
  }

  lemma PlacedShrink<C>(lists: seq<seq<Node<C>>>, due: Bag<C>, lists': seq<seq<Node<C>>>, due': Bag<C>, now: nat,
                        level: nat, fixed: nat)
    requires Placed(lists, due, now, level, fixed)
    requires |lists'| >= LOCAL && lists'[SO_LONG] == []
    requires Fewer(lists, due, lists', due')
    ensures Placed(lists', due', now, level, fixed)
  {
  }

  /** Emptying the slot of wheel `level` that turns now. */
  lemma PlacedTurn<C>(lists: seq<seq<Node<C>>>, due: Bag<C>, now: nat, s: nat)
    requires 256 <= s < SO_LONG && Turns(now, s) && |lists| == LOCAL + 1
    requires Placed(lists, due, now, LevelOf(s), SO_LONG)
    ensures Placed(lists[s := []][LOCAL := lists[s]], due, now, LevelOf(s), s)
    ensures Near(lists[s], due, now)
  {
    forall x | x in lists[s] ensures now <= due[x] < now + Unit(LevelOf(s)) {
      TurningIsClose(due[x], now, s);
    }
  }

  lemma OneSlotTurns(now: nat, s: nat, t: nat)
    requires 256 <= s < SO_LONG && 256 <= t < SO_LONG && s != t && Turns(now, s)
    requires 256 + 64 * LevelOf(s) <= t < 256 + 64 * (LevelOf(s) + 1)
    ensures !Turns(now, t)
  {
    assert LevelOf(t) == LevelOf(s) && IndexOf(t) != IndexOf(s);
  }

  /** Once that slot has been redistributed, the whole wheel is in order. */
  lemma PlacedTurned<C>(lists: seq<seq<Node<C>>>, due: Bag<C>, now: nat, s: nat)
    requires 256 <= s < SO_LONG && Turns(now, s)
    requires Placed(lists, due, now, LevelOf(s), s)
    ensures Placed(lists, due, now, LevelOf(s) + 1, SO_LONG)
  {
    forall t, x | 0 <= t < SO_LONG && x in lists[t]
      ensures x in due && InSlot(due[x], now, t, 256 + 64 * (LevelOf(s) + 1) <= t)
    {
      if 256 + 64 * LevelOf(s) <= t < 256 + 64 * (LevelOf(s) + 1) && t != s {
        OneSlotTurns(now, s, t);
        NotTurning(due[x], now, t);
      }
    }
  }

  /** One tick later. */
  lemma PlacedTick<C>(lists: seq<seq<Node<C>>>, due: Bag<C>, now: nat)
    requires Placed(lists, due, now, 4, SO_LONG)
    requires NothingLate(lists, due, now)
    ensures Placed(lists, due, now + 1, 0, SO_LONG)
  {
    forall s, x | 0 <= s < SO_LONG && x in lists[s]
      ensures InSlot(due[x], now + 1, s, 256 <= s)
    {
      InSlotNextTick(due[x], now, s);
    }
  }

  /** Wheels that do not turn now are in order. */
  lemma PlacedRest<C>(lists: seq<seq<Node<C>>>, due: Bag<C>, now: nat, level: nat)
    requires level <= 4 && Placed(lists, due, now, level, SO_LONG)
    requires level == 4 || now % Unit(level) != 0
    ensures Placed(lists, due, now, 4, SO_LONG)
  {
    forall s, x | 0 <= s < SO_LONG && x in lists[s]
      ensures InSlot(due[x], now, s, false)
    {
      if 256 + 64 * level <= s {
        SlowerWheelsRest(now, level, LevelOf(s));
        NotTurning(due[x], now, s);
      }
    }
  }

  /** Moving the current slot of the first wheel to the local ring takes exactly the timers due now. */
  lemma PlacedDue<C>(lists: seq<seq<Node<C>>>, due: Bag<C>, now: nat)
    requires Placed(lists, due, now, 4, SO_LONG) && |lists| == LOCAL
    ensures var s := now % 256; var lists' := (lists + [[]])[s := []][LOCAL := lists[s]];
            && Placed(lists', due, now, 4, SO_LONG) && NothingLate(lists', due, now) && AllDue(lists'[LOCAL], due, now)
            && forall x :: x in Members(lists') ==> (x in lists'[LOCAL] <==> due[x] == now)
  {
    var s := now % 256;
    var lists' := (lists + [[]])[s := []][LOCAL := lists[s]];
    forall t, x | 0 <= t < SO_LONG && x in lists[t]
      ensures now <= due[x] && (due[x] == now <==> t == s)
    {
      DueNow(due[x], now, t);
    }
    forall x | x in Members(lists') ensures x in lists'[LOCAL] <==> due[x] == now {
      var t :| 0 <= t < |lists'| && x in lists'[t];
    }
  }

  /** A new empty ring holds no node. */
  lemma MembersPush<C>(lists: seq<seq<Node<C>>>)
    ensures Members(lists + [[]]) == Members(lists)
  {
    var lists' := lists + [[]];
    forall x | x in Members(lists) ensures x in Members(lists') {
      var i :| 0 <= i < |lists| && x in lists[i];
      assert x in lists'[i];
    }
  }

  /** Moving a list to the empty local ring loses no node. */
  lemma MembersToLocal<C>(lists: seq<seq<Node<C>>>, s: nat)
    requires |lists| == LOCAL + 1 && s < LOCAL && lists[LOCAL] == []
    ensures var moved := lists[s := []][LOCAL := lists[s] + lists[LOCAL]];
            moved == lists[s := []][LOCAL := lists[s]] && Members(moved) == Members(lists)
  {
    MembersMove(lists, s, LOCAL);
    assert lists[s] + lists[LOCAL] == lists[s];
  }

  ghost predicate InRings<C>(lists: seq<seq<Node<C>>>, x: Node<C>) {
    x in Members(lists)
  }

  /** The rings hold exactly the nodes of the bag. */
  ghost predicate HoldsExactly<C>(lists: seq<seq<Node<C>>>, due: Bag<C>) {
    && (forall i, x :: 0 <= i < |lists| && x in lists[i] ==> x in due)
    && (forall x {:trigger InRings(lists, x)} :: x in due ==> InRings(lists, x))
  }

  /** The nodes' expiry fields are their due times in 32 bits. */
  ghost predicate Expiries<C>(due: Bag<C>)
    reads due.Keys
  {
    forall x :: x in due ==> x.data.expire == due[x] % TWO_32
  }

  class TimerWheel<C(0)> {
    /** tvroot, tv[0..4] and so_long_node. */
    const slots: seq<Node<C>>
    var currtick: uint32
    var num: uint32
    var lasttime: nat
    var interval: uint16
    var remainder: uint16
    /** The true tick count, currtick without wrap-around. */
    ghost var now: nat
    /** The pending nodes and when they are due. */
    ghost var due: Bag<C>
    /** Nodes added and not yet fired; deleted ones are never subtracted. */
    ghost var outstanding: int
    /** All ring heads: the slots, and the local head of a cascade or a drain. */
    ghost var heads: seq<Node<C>>
    /** What each ring holds. */
    ghost var lists: seq<seq<Node<C>>>
    /** The nodes and heads that may be changed. */
    ghost var repr: set<Node<C>>

    /** wmTimerWheel_init. */
    constructor (interval: uint16, currtime: nat)
      ensures Valid() && !Draining() && due == map[] && now == 0 && outstanding == 0
      ensures fresh(repr)
      ensures this.interval == interval && lasttime == currtime && remainder == 0
    {
      var hs := MakeHeads(LOCAL);
      slots := hs;
      currtick, num, lasttime, remainder := 0, 0, currtime, 0;
      this.interval := interval;
      now, due, outstanding := 0, map[], 0;
      heads := hs;
      lists := seq(LOCAL, _ => []);
      repr := set h | h in hs;
      new;
      assert heads[..LOCAL] == hs;
      assert Members(lists) == {};
      assert RingFamily(heads, lists);
    }

    /** Initialises n list heads. */
    static method MakeHeads(n: nat) returns (hs: seq<Node<C>>)
      ensures |hs| == n
      ensures forall i :: 0 <= i < n ==> fresh(hs[i]) && hs[i].ring == i && Ring(hs[i], [])
    {
      hs := [];
      var none: C := *;
      while |hs| < n
        invariant |hs| <= n
        invariant forall i :: 0 <= i < |hs| ==> fresh(hs[i]) && hs[i].ring == i && Ring(hs[i], [])
      {
        var head := new ListNode(Timer(0, none), |hs|);
        hs := hs + [head];
      }
    }

    /** The rings are well formed and disjoint, and hold exactly the pending nodes. */
    ghost predicate Linked()
      reads this`currtick, this`now, this`due, this`heads, this`lists, this`repr, heads, Members(lists), due.Keys
    {
      && |heads| >= LOCAL && heads[..LOCAL] == slots
      && (forall i :: 0 <= i < |heads| ==> heads[i] in repr) && due.Keys <= repr
      && RingFamily(heads, lists)
      && HoldsExactly(lists, due)
      && Expiries(due)
      && currtick == now % TWO_32
    }

    lemma BagIsMembers()
      requires Linked()
      ensures due.Keys == Members(lists)
    {
      forall x | x in due.Keys ensures x in Members(lists) {
        assert InRings(lists, x);
      }
    }

    /** The slot for a timer, as lines 49-84 of the source find it. */
    method ChooseSlot(expire: uint32) returns (s: nat)
      ensures s == SlotFor(expire, currtick)
    {
      var idx := (expire - currtick) % TWO_32;
      if idx < 256 {
        return expire % 256;
      }
      var i := 0;
      while i < 4
        invariant 0 <= i <= 4
        invariant OuterSlot(idx, expire, 0) == OuterSlot(idx, expire, i)
      {
        if idx < Unit(i + 1) {
          return WheelSlot(i, NthIndex(expire, i));
        }
        i := i + 1;
      }
      return SO_LONG;
    }

    /** Records what the rings now hold. */
    ghost method Record(l: seq<seq<Node<C>>>, d: Bag<C>)
      requires |heads| >= LOCAL && heads[..LOCAL] == slots && currtick == now % TWO_32
      requires RingFamily(heads, l) && d.Keys == Members(l) && Expiries(d)
      requires forall i :: 0 <= i < |heads| ==> heads[i] in repr
      modifies this`due, this`lists, this`repr
      ensures Linked() && due == d && lists == l && repr == old(repr) + d.Keys
    {
      due, lists, repr := d, l, repr + d.Keys;
    }

    /** Links an unlinked node into slot s. */
    method LinkInto(s: nat, node: Node<C>, ghost d: nat)
      requires Linked() && s < LOCAL && node.ring == -1 && node.data.expire == d % TWO_32
      modifies repr`next, repr`prev, node`next, node`prev, node`ring, this`due, this`lists, this`repr
      ensures repr == old(repr) + {node}
      ensures Linked() && due == old(due)[node := d] && node !in old(due)
      ensures lists == old(lists)[s := old(lists)[s] + [node]]
    {
      BagIsMembers();
      NotMember(heads, lists, node);
      var head := slots[s];
      Inside(s);
      LinkBack(heads, lists, s, head, node);
      Record(lists[s := lists[s] + [node]], due[node := d]);
    }

    /** _wmTimerWheel_add: links an unlinked node into the slot for its expiry. */
    method AddNode(node: Node<C>, ghost d: nat)
      requires Linked() && node.ring == -1 && node.data.expire == d % TWO_32
      modifies repr`next, repr`prev, node`next, node`prev, node`ring, this`due, this`lists, this`repr
      ensures repr == old(repr) + {node}
      ensures Linked() && due == old(due)[node := d] && node !in old(due)
      ensures var s := SlotFor(node.data.expire, currtick);
              lists == old(lists)[s := old(lists)[s] + [node]]
    {
      var s := ChooseSlot(node.data.expire);
      LinkInto(s, node, d);
    }

    /** Where a pending node is linked; its neighbours belong to the wheel. */
    lemma Place(node: Node<C>) returns (s: nat, k: nat)
      requires Linked() && node in due
      ensures s < |lists| && s == node.ring && k < |lists[s]| && lists[s][k] == node
      ensures forall x :: x in RemoveAt(lists[s], k) <==> x in lists[s] && x != node
      ensures node.next in repr && node.prev in repr
    {
      BagIsMembers();
      s, k := Position(heads, lists, node);
      OwnRing(heads, lists, s, node);
    }

    /** Takes the k-th node of ring s out of it. */
    method TakeNode(node: Node<C>, ghost s: nat, ghost k: nat)
      requires Linked() && s < |lists| && k < |lists[s]| && lists[s][k] == node
      requires node in repr && node.next in repr && node.prev in repr
      modifies repr`next, repr`prev, node`ring, this`due, this`lists, this`repr
      ensures repr == old(repr)
      ensures Linked() && due == old(due) - {node} && node.ring == -1 && node.next == node
      ensures lists == old(lists)[s := RemoveAt(old(lists)[s], k)]
    {
      BagIsMembers();
      Unlink(heads, lists, s, k, node);
      Record(lists[s := RemoveAt(lists[s], k)], due - {node});
    }

    /** Puts an empty ring on the stack, as LOCAL. */
    method PushLocal() returns (head: Node<C>)
      requires Linked() && |lists| == LOCAL
      modifies this`heads, this`lists, this`due, this`repr
      ensures repr == old(repr) + {head} && due == old(due)
      ensures Linked() && fresh(head) && heads == old(heads) + [head] && lists == old(lists) + [[]]
    {
      BagIsMembers();
      var none: C := *;
      head := new ListNode(Timer(0, none), LOCAL);
      PushRing(heads, lists, head);
      MembersPush(lists);
      heads := heads + [head];
      repr := repr + {head};
      Record(lists + [[]], due);
    }

    /** Takes the empty local ring off the stack again. */
    ghost method PopLocal()
      requires Linked() && |lists| == LOCAL + 1 && lists[LOCAL] == []
      modifies this`heads, this`lists
      ensures Linked() && heads == old(heads)[..LOCAL] && lists == old(lists)[..LOCAL]
    {
      BagIsMembers();
      assert Members(lists[..LOCAL]) == Members(lists);
      heads := heads[..LOCAL];
      lists := lists[..LOCAL];
    }

    /** The neighbours of a head, and the nodes of its ring, belong to the wheel. */
    lemma Inside(i: nat)
      requires Linked() && i < |heads|
      ensures heads[i].next in repr && heads[i].prev in repr
      ensures forall x :: x in lists[i] ==> x in repr
    {
      BagIsMembers();
      OwnRing(heads, lists, i, heads[i]);
      assert forall x :: x in lists[i] ==> x in Members(lists);
    }

    /** Moves the list of slot s to the local ring. */
    method MoveToLocal(s: nat, head: Node<C>)
      requires Linked() && |lists| == LOCAL + 1 && s < LOCAL && lists[LOCAL] == [] && head == heads[LOCAL]
      modifies repr`next, repr`prev, repr`ring, this`lists, this`due, this`repr
      ensures repr == old(repr)
      ensures Linked() && due == old(due)
      ensures lists == old(lists)[s := []][LOCAL := old(lists)[s]]
    {
      BagIsMembers();
      Inside(s);
      Inside(LOCAL);
      MembersToLocal(lists, s);
      ghost var moved := lists[s := []][LOCAL := lists[s] + lists[LOCAL]];
      MoveAll(heads, lists, s, LOCAL, slots[s], head);
      Record(moved, due);
    }

    /** The loop of a cascade: redistributes what is in the local ring. */
    method Redistribute(head: Node<C>, ghost level: nat, ghost fixed: nat)
      requires Linked() && |lists| == LOCAL + 1 && head == heads[LOCAL]
      requires Placed(lists, due, now, level, fixed)
      requires Near(lists[LOCAL], due, now)
      modifies repr`next, repr`prev, repr`ring, this`lists, this`due, this`repr
      ensures repr == old(repr)
      ensures Linked() && due == old(due) && |lists| == LOCAL + 1 && lists[LOCAL] == []
      ensures Placed(lists, due, now, level, fixed)
    {
      while !IsEmpty(head)
        invariant Linked() && due == old(due) && |lists| == LOCAL + 1 && repr == old(repr)
        invariant Placed(lists, due, now, level, fixed)
        invariant Near(lists[LOCAL], due, now)
        decreases |lists[LOCAL]|
      {
        var node := First(head);
        MoveOne(node, level, fixed);
      }
    }

    /** The first node of the local ring. */
    method First(head: Node<C>) returns (node: Node<C>)
      requires Linked() && |lists| == LOCAL + 1 && head == heads[LOCAL] && !IsEmpty(head)
      ensures lists[LOCAL] != [] && node == lists[LOCAL][0] && node in due && node.ring == LOCAL
    {
      BagIsMembers();
      assert Ring(heads[LOCAL], lists[LOCAL]);
      node := head.next;
      assert node in lists[LOCAL] && node in Members(lists);
    }

    method TakeFewer(node: Node<C>) returns (ghost r: nat)
      requires Linked() && node in due
      modifies repr`next, repr`prev, node`ring, this`lists, this`due, this`repr
      ensures repr == old(repr)
      ensures Linked() && due == old(due) - {node} && node.ring == -1 && node.next == node
      ensures Fewer(old(lists), old(due), lists, due)
      ensures r == old(node.ring) && r < |lists| == |old(lists)| && |lists[r]| == |old(lists)[r]| - 1
      ensures forall i :: 0 <= i < |lists| && i != r ==> lists[i] == old(lists)[i]
    {
      ghost var k;
      r, k := Place(node);
      TakeNode(node, r, k);
      BagIsMembers();
      assert forall i, x :: 0 <= i < |lists| && x in lists[i] ==> x in Members(lists);
    }

    /** Takes a node, of any ring, out of a wheel in order. */
    method TakePlaced(node: Node<C>, ghost level: nat, ghost fixed: nat) returns (ghost r: nat)
      requires Linked() && node in due && Placed(lists, due, now, level, fixed)
      modifies repr`next, repr`prev, node`ring, this`lists, this`due, this`repr
      ensures repr == old(repr)
      ensures Linked() && due == old(due) - {node} && node.ring == -1 && node.next == node
      ensures Placed(lists, due, now, level, fixed)
      ensures r == old(node.ring) && r < |lists| == |old(lists)| && |lists[r]| == |old(lists)[r]| - 1
      ensures forall i :: 0 <= i < |lists| && i != r ==> lists[i] == old(lists)[i]
      ensures Fewer(old(lists), old(due), lists, due)
    {
      ghost var l0, d0 := lists, due;
      r := TakeFewer(node);
      PlacedShrink(l0, d0, lists, due, now, level, fixed);
    }

    /** Adds an unlinked node to a wheel in order. */
    method AddPlaced(node: Node<C>, ghost d: nat, ghost level: nat, ghost fixed: nat)
      requires Linked() && Placed(lists, due, now, level, fixed)
      requires node.ring == -1 && node.data.expire == d % TWO_32 && now <= d < now + TWO_32
      modifies repr`next, repr`prev, node`next, node`prev, node`ring, this`due, this`lists, this`repr
      ensures repr == old(repr) + {node}
      ensures Linked() && due == old(due)[node := d] && node !in old(due)
      ensures Placed(lists, due, now, level, fixed)
      ensures |lists| == |old(lists)| && lists[SO_LONG..] == old(lists)[SO_LONG..]
    {
      BagIsMembers();
      NotMember(heads, lists, node);
      PlacedAdd(lists, due, now, level, fixed, node, d);
      AddNode(node, d);
    }

    /** One round of a cascade: takes a node from the local ring and adds it again. */
    method MoveOne(node: Node<C>, ghost level: nat, ghost fixed: nat)
      requires Linked() && |lists| == LOCAL + 1 && node in lists[LOCAL] && node in due && node.ring == LOCAL
      requires Placed(lists, due, now, level, fixed)
      requires Near(lists[LOCAL], due, now)
      modifies repr`next, repr`prev, repr`ring, this`lists, this`due, this`repr
      ensures repr == old(repr)
      ensures Linked() && due == old(due) && |lists| == LOCAL + 1
      ensures |lists[LOCAL]| == |old(lists)[LOCAL]| - 1
      ensures Near(lists[LOCAL], due, now)
      ensures Placed(lists, due, now, level, fixed)
    {
      ghost var d := due[node];
      PutBack(due, node);
      ghost var r := TakePlaced(node, level, fixed);
      ghost var local := lists[LOCAL];
      AddPlaced(node, d, level, fixed);
      assert lists[LOCAL] == lists[SO_LONG..][1] == local;
    }

    /** Moves the nodes of a slot that turns now, or of so_long_node, to a new local ring. */
    method Detach(s: nat, ghost level: nat) returns (head: Node<C>)
      requires Linked() && |lists| == LOCAL && Placed(lists, due, now, level, SO_LONG)
      requires if s == SO_LONG then level == 4 else 256 <= s < SO_LONG && LevelOf(s) == level && Turns(now, s)
      modifies repr`next, repr`prev, repr`ring, this`lists, this`due, this`repr, this`heads
      ensures repr == old(repr) + {head}
      ensures Linked() && due == old(due) && heads == old(heads) + [head] && fresh(head) && |lists| == LOCAL + 1
      ensures Placed(lists, due, now, level, s) && Near(lists[LOCAL], due, now)
    {
      ghost var more := lists + [[]];
      assert Placed(more, due, now, level, SO_LONG);
      if s != SO_LONG {
        PlacedTurn(more, due, now, s);
      }
      head := PushLocal();
      MoveToLocal(s, head);
    }

    /** _timerwheel_cascade of the slot of wheel `level` that turns now, or of so_long_node. */
    method Cascade(s: nat, ghost level: nat)
      requires Linked() && |lists| == LOCAL && Placed(lists, due, now, level, SO_LONG)
      requires if s == SO_LONG then level == 4 else 256 <= s < SO_LONG && LevelOf(s) == level && Turns(now, s)
      modifies repr`next, repr`prev, repr`ring, this`lists, this`due, this`repr, this`heads
      ensures old(repr) <= repr && fresh(repr - old(repr))
      ensures Linked() && due == old(due) && heads == old(heads) && |lists| == LOCAL
      ensures Placed(lists, due, now, if s == SO_LONG then 4 else level + 1, SO_LONG)
    {
      var head := Detach(s, level);
      Redistribute(head, level, s);
      PlacedShrink(lists, due, lists[..LOCAL], due, now, level, s);
      if s != SO_LONG {
        PlacedTurned(lists[..LOCAL], due, now, s);
      }
      PopLocal();
    }

    /** Between operations: the wheel is in order and no slot holds a timer that is already due; if a drain
        is going on, the local ring holds the timers due now that have not fired yet. */
    ghost predicate Valid()
      reads this`currtick, this`now, this`due, this`heads, this`lists, this`repr, this`num, this`outstanding
      reads heads, Members(lists), due.Keys
    {
      && Linked() && InOrder(lists, due, now)
      && num == outstanding % TWO_32
    }

    ghost predicate Draining()
      reads this`lists
    {
      |lists| == LOCAL + 1
    }

    /** The local head of the drain that is going on, and how many timers it has left to fire. */
    ghost function Drain(): Option<(Node<C>, nat)>
      reads this`heads, this`lists
    {
      if |lists| > LOCAL && |heads| > LOCAL then Some((heads[LOCAL], |lists[LOCAL]|)) else None
    }

    /** Adding and deleting timers does not lengthen a drain. */
    ghost predicate SameDrain(before: Option<(Node<C>, nat)>)
      reads this`heads, this`lists
    {
      match before
      case None => Drain() == None
      case Some(b) => Drain().Some? && Drain().value.0 == b.0 && Drain().value.1 <= b.1
    }

    /** The loop over the outer wheels in a tick (lines 157-172). */
    method Turn()
      requires Linked() && |lists| == LOCAL && Placed(lists, due, now, 0, SO_LONG)
      modifies repr`next, repr`prev, repr`ring, this`lists, this`due, this`repr, this`heads
      ensures old(repr) <= repr && fresh(repr - old(repr))
      ensures Linked() && due == old(due) && heads == old(heads) && |lists| == LOCAL
      ensures Placed(lists, due, now, 4, SO_LONG)
    {
      DigitsOf32(now, 0);
      if currtick % 256 != 0 {
        PlacedRest(lists, due, now, 0);
        return;
      }
      var i := 0;
      var more := true;
      while more
        invariant Linked() && due == old(due) && heads == old(heads) && |lists| == LOCAL
        invariant old(repr) <= repr && fresh(repr - old(repr))
        invariant if more then 0 <= i < 4 && now % Unit(i) == 0 && Placed(lists, due, now, i, SO_LONG)
                  else Placed(lists, due, now, 4, SO_LONG)
        decreases more, 4 - i
      {
        DigitsOf32(now, i);
        var idx := NthIndex(currtick, i);
        LevelOfWheelSlot(i, idx);
        Cascade(WheelSlot(i, idx), i);
        if i == 3 {
          Cascade(SO_LONG, 4);
        } else {
          NextWheelTurns(now, i);
        }
        i := i + 1;
        more := idx == 0 && i < 4;
        if !more {
          PlacedRest(lists, due, now, i);
        }
      }
    }

    /** Turns the outer wheels, and moves the current slot of the first wheel to a new local ring
        (lines 157-179). */
    method Collect() returns (head: Node<C>)
      requires Linked() && |lists| == LOCAL && Placed(lists, due, now, 0, SO_LONG)
      modifies repr`next, repr`prev, repr`ring, this`lists, this`due, this`repr, this`heads
      ensures old(repr) <= repr && fresh(repr - old(repr))
      ensures Linked() && Draining() && heads == old(heads) + [head] && fresh(head) && due == old(due)
      ensures InOrder(lists, due, now)
      ensures forall x :: x in due ==> (x in lists[LOCAL] <==> due[x] == now)
    {
      Turn();
      LowDigits(now);
      PlacedDue(lists, due, now);
      head := PushLocal();
      MoveToLocal(currtick % 256, head);
      BagIsMembers();
    }

    /** ++currtick, in 32 bits. */
    method Count()
      requires Linked() && InOrder(lists, due, now)
      modifies this`now, this`currtick
      ensures Linked() && now == old(now) + 1 && Placed(lists, due, now, 0, SO_LONG)
    {
      PlacedTick(lists, due, now);
      WrapAdd(now, 1);
      currtick := (currtick + 1) % TWO_32;
      now := now + 1;
    }

    /** The first half of _wmTimerWheelick (lines 148-179): counts the tick, turns the outer wheels and puts
        the timers that are due into the returned local ring. */
    method Advance() returns (head: Node<C>)
      requires Valid() && !Draining()
      modifies repr`next, repr`prev, repr`ring, this`lists, this`due, this`repr, this`heads, this`now, this`currtick
      ensures old(repr) <= repr && fresh(repr - old(repr))
      ensures Valid() && Draining() && heads[LOCAL] == head && fresh(head)
      ensures now == old(now) + 1 && due == old(due)
      ensures forall x :: x in due ==> (x in lists[LOCAL] <==> due[x] == now)
    {
      Count();
      head := Collect();
    }

    /** Takes a pending node out of a wheel in order, or out of the local ring of a drain. */
    method TakeOrdered(node: Node<C>) returns (ghost r: nat)
      requires Linked() && InOrder(lists, due, now) && node in due
      modifies repr`next, repr`prev, node`ring, this`lists, this`due, this`repr
      ensures repr == old(repr)
      ensures Linked() && InOrder(lists, due, now)
      ensures due == old(due) - {node} && node.ring == -1 && node.next == node
      ensures r == old(node.ring) && r < |lists| == |old(lists)| && |lists[r]| == |old(lists)[r]| - 1
      ensures Left(lists) <= old(Left(lists))
    {
      ghost var l0, d0 := lists, due;
      r := TakeFewer(node);
      InOrderShrink(l0, d0, lists, due, now);
    }

    /** Adds an unlinked node that is not due yet. */
    method AddOrdered(node: Node<C>, ghost d: nat)
      requires Linked() && InOrder(lists, due, now)
      requires node.ring == -1 && node.data.expire == d % TWO_32 && now < d < now + TWO_32
      modifies repr`next, repr`prev, node`next, node`prev, node`ring, this`due, this`lists, this`repr
      ensures repr == old(repr) + {node}
      ensures Linked() && InOrder(lists, due, now)
      ensures due == old(due)[node := d] && node !in old(due)
      ensures |lists| == |old(lists)| && Left(lists) == old(Left(lists))
    {
      BagIsMembers();
      NotMember(heads, lists, node);
      InOrderAdd(lists, due, now, node, d);
      AddNode(node, d);
    }

    /** The next timer of the drain (lines 183-189), the first one of the local ring, removed from the bag. */
    method TakeFirst(head: Node<C>) returns (node: Node<C>)
      requires Valid() && Draining() && head == heads[LOCAL] && !IsEmpty(head)
      modifies repr`next, repr`prev, repr`ring, this`lists, this`due, this`repr, this`num, this`outstanding
      ensures repr == old(repr)
      ensures Valid() && Drain() == Some((head, old(|lists[LOCAL]|) - 1))
      ensures |old(lists)| > LOCAL && old(lists[LOCAL]) != [] && node == old(lists[LOCAL])[0]
      ensures node in old(due) && old(due)[node] == now && due == old(due) - {node}
      ensures node.ring == -1 && node.next == node && outstanding == old(outstanding) - 1
    {
      node := TakeHead(head);
      CountDown();
    }

    /** The first node of the drain leaves its ring. */
    method TakeHead(head: Node<C>) returns (node: Node<C>)
      requires Valid() && Draining() && head == heads[LOCAL] && !IsEmpty(head)
      modifies repr`next, repr`prev, repr`ring, this`lists, this`due, this`repr
      ensures repr == old(repr) && Linked() && InOrder(lists, due, now)
      ensures Drain() == Some((head, old(|lists[LOCAL]|) - 1))
      ensures |old(lists)| > LOCAL && old(lists[LOCAL]) != [] && node == old(lists[LOCAL])[0]
      ensures node in old(due) && old(due)[node] == now && due == old(due) - {node}
      ensures node.ring == -1 && node.next == node
    {
      node := First(head);
      ghost var r := TakeOrdered(node);
    }

    /** Between ticks no pending timer is due. */
    lemma NothingDueWhenIdle()
      requires Valid() && !Draining()
      ensures forall x :: x in due ==> due[x] > now
    {
      BagIsMembers();
      forall x | x in due ensures due[x] > now {
        var i :| 0 <= i < |lists| && x in lists[i];
      }
    }

    /** The end of a tick: the local ring is empty and no pending timer is due any more. */
    ghost method EndDrain()
      requires Valid() && Draining() && IsEmpty(heads[LOCAL])
      modifies this`heads, this`lists
      ensures Valid() && !Draining() && Drain() == None
      ensures forall x :: x in due ==> due[x] > now
    {
      assert Ring(heads[LOCAL], lists[LOCAL]);
      ghost var l0 := lists;
      PopLocal();
      forall x | x in due ensures due[x] > now {
        BagIsMembers();
        var i :| 0 <= i < |lists| && x in lists[i];
        assert x in l0[i];
      }
    }

    method SetExpire(node: Node<C>, expire: uint32)
      requires Linked() && node.ring == -1
      modifies node`data
      ensures Linked() && node.data == Timer(expire, old(node.data.callback))
    {
      BagIsMembers();
      NotMember(heads, lists, node);
      node.data := Timer(expire, node.data.callback);
    }

    /** Lines 92-93: the node gets its expiry, and its slot. */
    method Schedule(node: Node<C>, ticks: uint32)
      requires Linked() && InOrder(lists, due, now) && node.ring == -1
      modifies repr`next, repr`prev, node, this`lists, this`due, this`repr
      ensures repr == old(repr) + {node}
      ensures Linked() && InOrder(lists, due, now)
      ensures |lists| == |old(lists)| && Left(lists) == old(Left(lists))
      ensures node !in old(due) && due == old(due)[node := now + if ticks > 0 then ticks else 1]
      ensures node.data.callback == old(node.data.callback)
    {
      WrapAdd(now, Delay(ticks));
      SetExpire(node, (currtick + Delay(ticks)) % TWO_32);
      AddOrdered(node, now + Delay(ticks));
    }

    /** wmTimerWheel_add: an unlinked node becomes pending, due max(ticks, 1) ticks from now. */
    method Add(node: Node<C>, ticks: uint32)
      requires Valid() && node.ring == -1
      modifies repr`next, repr`prev, node, this`lists, this`due, this`repr, this`num, this`outstanding
      ensures repr == old(repr) + {node}
      ensures Valid() && SameDrain(old(Drain()))
      ensures node !in old(due) && due == old(due)[node := now + if ticks > 0 then ticks else 1]
      ensures node.data.callback == old(node.data.callback) && outstanding == old(outstanding) + 1
    {
      Schedule(node, ticks);
      CountUp();
    }

    /** tw->num++ and tw->num--, in 32 bits. */
    method CountUp()
      requires num == outstanding % TWO_32
      modifies this`num, this`outstanding
      ensures num == outstanding % TWO_32 && outstanding == old(outstanding) + 1
    {
      WrapAdd(outstanding, 1);
      num := (num + 1) % TWO_32;
      outstanding := outstanding + 1;
    }

    method CountDown()
      requires num == outstanding % TWO_32
      modifies this`num, this`outstanding
      ensures num == outstanding % TWO_32 && outstanding == old(outstanding) - 1
    {
      WrapAdd(outstanding, -1);
      num := (num - 1) % TWO_32;
      outstanding := outstanding - 1;
    }

    /** wmTimerWheel_add_quick: a new pending node. */
    method AddQuick(callback: C, ticks: uint32) returns (node: Node<C>)
      requires Valid()
      modifies repr`next, repr`prev, this`lists, this`due, this`repr, this`num, this`outstanding
      ensures repr == old(repr) + {node} && fresh(node)
      ensures Valid() && SameDrain(old(Drain()))
      ensures node !in old(due) && due == old(due)[node := now + if ticks > 0 then ticks else 1]
      ensures node.data.callback == callback && outstanding == old(outstanding) + 1
    {
      node := new ListNode(Timer(0, callback), -1);
      Add(node, ticks);
    }

    /** A node linked to itself is not pending. */
    lemma SelfLinkedIsAbsent(node: Node<C>)
      requires Linked() && IsEmpty(node)
      ensures node !in due && due - {node} == due
    {
      BagIsMembers();
      if node in Members(lists) {
        var i :| 0 <= i < |lists| && node in lists[i];
        assert Ring(heads[i], lists[i]);
        NotSelfLinked(heads[i], lists[i], node);
      }
    }

    /** wmTimerWheel_del: removes a pending node, wherever it is linked; a node that is linked nowhere, such as
        that of the running callback, is left alone. num is not decremented. */
    method Del(node: Node<C>) returns (r: int)
      requires Valid() && (node in due || node.next == node)
      modifies repr`next, repr`prev, repr`ring, this`lists, this`due, this`repr
      ensures repr == old(repr)
      ensures Valid() && SameDrain(old(Drain()))
      ensures due == old(due) - {node} && (r == 1 <==> node in old(due))
    {
      if !IsEmpty(node) {
        ghost var s := TakeOrdered(node);
        return 1;
      }
      SelfLinkedIsAbsent(node);
      return 0;
    }
  }
}
