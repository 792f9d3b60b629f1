/** Every run of the timer wheel's operations is a legal history of the bag of TimerSpec, so what holds of
    all histories holds of the wheel. */
module WheelHistory {
  import opened Bits
  import opened List
  import opened TimerSpec
  import opened TimerWheel
  import opened WheelSlots

  /** Nodes and the numbers of their timers. */
  ghost predicate NodeAt<C>(handle: map<Node<C>, nat>, owner: map<nat, Node<C>>, due: Bag<C>, s: BagState, n: Node<C>) {
    n in due ==> n in handle && handle[n] in s.pending && s.pending[handle[n]] == due[n]
                 && handle[n] in owner && owner[handle[n]] == n
  }

  ghost predicate TimerAt<C>(handle: map<Node<C>, nat>, owner: map<nat, Node<C>>, due: Bag<C>, s: BagState, h: nat) {
    h in s.pending ==> h in owner && owner[h] in due && owner[h] in handle && handle[owner[h]] == h
  }

  /** The pending nodes and the pending timers correspond one to one, and are due at the same ticks. */
  ghost predicate Matches<C>(handle: map<Node<C>, nat>, owner: map<nat, Node<C>>, due: Bag<C>, s: BagState) {
    && (forall n {:trigger NodeAt(handle, owner, due, s, n)} :: n in due ==> NodeAt(handle, owner, due, s, n))
    && (forall h: nat {:trigger TimerAt(handle, owner, due, s, h)} :: TimerAt(handle, owner, due, s, h))
  }

  lemma MatchesAdd<C>(handle: map<Node<C>, nat>, owner: map<nat, Node<C>>, due: Bag<C>, s: BagState, node: Node<C>,
                      ticks: uint32)
    requires Matches(handle, owner, due, s) && node !in due && s.adds !in s.pending
    ensures Matches(handle[node := s.adds], owner[s.adds := node], Later(due, node, s.now, ticks),
                    BagStep(s, BAdd(ticks)))
  {
    var handle', owner', due' := handle[node := s.adds], owner[s.adds := node], Later(due, node, s.now, ticks);
    var s' := BagStep(s, BAdd(ticks));
    forall n | n in due' ensures NodeAt(handle', owner', due', s', n) {
      assert NodeAt(handle, owner, due, s, n);
    }
    forall h: nat ensures TimerAt(handle', owner', due', s', h) {
      assert TimerAt(handle, owner, due, s, h);
    }
  }

  lemma MatchesRemove<C>(handle: map<Node<C>, nat>, owner: map<nat, Node<C>>, due: Bag<C>, s: BagState,
                         node: Node<C>, s': BagState)
    requires Matches(handle, owner, due, s) && node in due
    requires node in handle ==> s'.pending == s.pending - {handle[node]}
    ensures Matches(handle, owner, due - {node}, s')
  {
    assert NodeAt(handle, owner, due, s, node);
    forall n | n in due - {node} ensures NodeAt(handle, owner, due - {node}, s', n) {
      assert NodeAt(handle, owner, due, s, n);
    }
    forall h: nat ensures TimerAt(handle, owner, due - {node}, s', h) {
      assert TimerAt(handle, owner, due, s, h);
    }
  }

  lemma MatchesTick<C>(handle: map<Node<C>, nat>, owner: map<nat, Node<C>>, due: Bag<C>, s: BagState)
    requires Matches(handle, owner, due, s) && forall n :: n in due ==> due[n] > s.now
    ensures BagEnabled(s, BTick) && Matches(handle, owner, due, BagStep(s, BTick))
  {
    forall h | h in s.pending ensures s.pending[h] > s.now {
      assert TimerAt(handle, owner, due, s, h);
      assert NodeAt(handle, owner, due, s, owner[h]);
    }
    forall n | n in due ensures NodeAt(handle, owner, due, BagStep(s, BTick), n) {
      assert NodeAt(handle, owner, due, s, n);
    }
    forall h: nat ensures TimerAt(handle, owner, due, BagStep(s, BTick), h) {
      assert TimerAt(handle, owner, due, s, h);
    }
  }

  lemma NonePending<C>(handle: map<Node<C>, nat>, owner: map<nat, Node<C>>, due: Bag<C>, s: BagState)
    requires Matches(handle, owner, due, s)
    ensures s.pending == map[] ==> due == map[]
  {
    assert forall n {:trigger NodeAt(handle, owner, due, s, n)} :: n in due ==> NodeAt(handle, owner, due, s, n);
    if n :| n in due {
      assert NodeAt(handle, owner, due, s, n);
    }
  }

  lemma OneMoreEvent(log: seq<BagEvent>, e: BagEvent)
    ensures BagRun(log + [e]) == BagStep(BagRun(log), e)
    ensures BagLegal(log + [e]) <==> BagLegal(log) && BagEnabled(BagRun(log), e)
  {
    assert (log + [e])[..|log|] == log;
  }

  class History<C(0)> {
    const wheel: TimerWheel<C>
    /** What has happened, and the number of each pending node's timer. */
    ghost var log: seq<BagEvent>
    ghost var handle: map<Node<C>, nat>
    ghost var owner: map<nat, Node<C>>

    ghost predicate Recorded()
      reads this, wheel`now, wheel`due, wheel`outstanding
    {
      && BagLegal(log) && BagRun(log).now == wheel.now
      && BagRun(log).adds - BagRun(log).fires == wheel.outstanding
      && Matches(handle, owner, wheel.due, BagRun(log))
    }

    constructor (interval: uint16, currtime: nat)
      ensures wheel.Valid() && Recorded() && !wheel.Draining() && log == [] && fresh(wheel) && fresh(wheel.repr)
    {
      wheel := new TimerWheel<C>(interval, currtime);
      log, handle, owner := [], map[], map[];
    }

    ghost method Record(e: BagEvent, handle': map<Node<C>, nat>, owner': map<nat, Node<C>>)
      requires BagLegal(log) && BagEnabled(BagRun(log), e)
      requires var s := BagStep(BagRun(log), e);
               s.now == wheel.now && s.adds - s.fires == wheel.outstanding && Matches(handle', owner', wheel.due, s)
      modifies this`log, this`handle, this`owner
      ensures Recorded() && log == old(log) + [e] && handle == handle' && owner == owner'
    {
      OneMoreEvent(log, e);
      log, handle, owner := log + [e], handle', owner';
    }

    ghost method RecordAdd(node: Node<C>, bag: Bag<C>, s: BagState, ticks: uint32)
      requires BagLegal(log) && BagRun(log) == s && s.now == wheel.now && s.adds - s.fires + 1 == wheel.outstanding
      requires Matches(handle, owner, bag, s) && node !in bag && wheel.due == Later(bag, node, wheel.now, ticks)
      modifies this`log, this`handle, this`owner
      ensures Recorded() && log == old(log) + [BAdd(ticks)] && handle == old(handle)[node := s.adds]
    {
      BagInvariant(log);
      MatchesAdd(handle, owner, bag, s, node, ticks);
      Record(BAdd(ticks), handle[node := s.adds], owner[s.adds := node]);
    }

    /** A timer is added, at any time. */
    method Add(callback: C, ticks: uint32) returns (node: Node<C>)
      requires wheel.Valid() && Recorded()
      modifies this, wheel`lists, wheel`due, wheel`repr, wheel`num, wheel`outstanding, wheel.repr`next,
               wheel.repr`prev
      ensures wheel.Valid() && Recorded() && wheel.SameDrain(old(wheel.Drain()))
      ensures log == old(log) + [BAdd(ticks)] && handle == old(handle)[node := AddsIn(old(log))]
              && node in wheel.due
    {
      ghost var s, bag := BagRun(log), wheel.due;
      ClockCounts(log);
      node := wheel.AddQuick(callback, ticks);
      RecordAdd(node, bag, s, ticks);
    }

    /** A pending timer is deleted, at any time. */
    method Del(node: Node<C>)
      requires wheel.Valid() && Recorded() && node in wheel.due
      modifies this, wheel, wheel.repr
      ensures wheel.Valid() && Recorded() && wheel.SameDrain(old(wheel.Drain()))
      ensures node in old(handle) && log == old(log) + [BDel(old(handle)[node])]
    {
      assert NodeAt(handle, owner, wheel.due, BagRun(log), node);
      var r := wheel.Del(node);
      MatchesRemove(handle, owner, old(wheel.due), BagRun(log), node, BagStep(BagRun(log), BDel(handle[node])));
      Record(BDel(handle[node]), handle, owner);
    }

    /** A tick begins. */
    method Tick() returns (head: Node<C>)
      requires wheel.Valid() && Recorded() && !wheel.Draining()
      modifies this, wheel, wheel.repr
      ensures wheel.Valid() && Recorded() && wheel.Draining() && wheel.heads[LOCAL] == head
      ensures log == old(log) + [BTick]
    {
      wheel.NothingDueWhenIdle();
      MatchesTick(handle, owner, wheel.due, BagRun(log));
      head := wheel.Advance();
      Record(BTick, handle, owner);
    }

    /** The drain fires a timer; its callback may then add and delete timers. */
    method Fire(head: Node<C>) returns (node: Node<C>)
      requires wheel.Valid() && Recorded() && wheel.Draining() && head == wheel.heads[LOCAL] && !IsEmpty(head)
      modifies this, wheel, wheel.repr
      ensures wheel.Valid() && Recorded() && wheel.Drain().Some?
      ensures node in old(handle) && log == old(log) + [BFire(old(handle)[node])]
    {
      node := wheel.TakeFirst(head);
      assert NodeAt(handle, owner, old(wheel.due), BagRun(log), node);
      MatchesRemove(handle, owner, old(wheel.due), BagRun(log), node, BagStep(BagRun(log), BFire(handle[node])));
      Record(BFire(handle[node]), handle, owner);
    }

    /** A tick ends when its local ring is empty; then nothing that is due is left, so the next tick is legal. */
    ghost method EndTick()
      requires wheel.Valid() && Recorded() && wheel.Draining() && IsEmpty(wheel.heads[LOCAL])
      modifies wheel`heads, wheel`lists
      ensures wheel.Valid() && Recorded() && !wheel.Draining() && BagEnabled(BagRun(log), BTick)
    {
      wheel.EndDrain();
      wheel.NothingDueWhenIdle();
      MatchesTick(handle, owner, wheel.due, BagRun(log));
    }

    /** So in every run of the wheel: the timer that event i added fires after exactly `ticks` ticks (one, if
        ticks = 0) and at no other time, not twice and not after it was deleted. */
    lemma EveryTimerIsOnTime(i: nat, j: nat)
      requires Recorded() && i < j < |log| && log[i].BAdd? && log[j] == BFire(AddsIn(log[..i]))
      ensures TicksIn(log[i..j]) == if log[i].ticks > 0 then log[i].ticks else 1
      ensures !FiredBefore(log, AddsIn(log[..i]), j) && !DeletedBefore(log, AddsIn(log[..i]), j)
    {
      FiresExactlyOnTime(log, i, j);
    }

    /** And at the end of the very tick for which it was added it has fired, unless it was deleted. */
    lemma NoTimerIsLate(i: nat)
      requires wheel.Valid() && Recorded() && !wheel.Draining() && i < |log| && log[i].BAdd?
      requires TicksIn(log[i..]) >= if log[i].ticks > 0 then log[i].ticks else 1
      ensures DeletedBefore(log, AddsIn(log[..i]), |log|) || FiredBefore(log, AddsIn(log[..i]), |log|)
    {
      assert log[..|log|] == log && log[i..|log|] == log[i..];
      SinceItWasAdded(log, i, |log|);
      FateOf(log, i, |log|);
      wheel.NothingDueWhenIdle();
      MatchesTick(handle, owner, wheel.due, BagRun(log));
    }

    /** The clock of the wheel is the number of its ticks. */
    lemma ClockIsTicks()
      requires Recorded()
      ensures wheel.now == TicksIn(log)
    {
      ClockCounts(log);
    }

    /** The event loop skips a wheel with num = 0; while fewer than 2^32 timers are outstanding, none is pending
        then. */
    lemma SkippingIsSafe()
      requires wheel.Valid() && Recorded() && wheel.num == 0 && wheel.outstanding < TWO_32
      ensures wheel.due == map[]
    {
      BagInvariant(log);
      NumGuard(log);
      NonePending(handle, owner, wheel.due, BagRun(log));
    }
  }
}
