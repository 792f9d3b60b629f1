/** The resource pool of examples/Workerman/Db/AbstractPool.php on a channel. Each method runs from one point
    where coroutines may switch (createDb, checkDb, closeDb, push, pop, user code) to the next, so that calls
    in any order are the interleavings. */
module Pool {
  import opened Channel
  import opened ChannelSpec
  import opened Options

  /** No push ever waits here, and whoever sleeps sleeps in pop. */
  ghost predicate OnlyConsumers<T>(s: State<T>) {
    s.producers == [] && forall co :: co in s.asleep ==> s.asleep[co].InPop?
  }

  lemma PushHasRoom<T>(s: State<T>, co: nat, value: T)
    requires Safe(s) && OnlyConsumers(s) && |s.data| < s.capacity && Enabled(s, Event.Push(co, value, false))
    ensures var t := Step(s, Event.Push(co, value, false));
            Safe(t) && OnlyConsumers(t) && t.data == s.data + [value] && t.capacity == s.capacity
  {
    StepIsSafe(s, Event.Push(co, value, false));
  }

  lemma PopTakesOne<T>(s: State<T>, co: nat, timed: bool)
    requires Safe(s) && OnlyConsumers(s) && Enabled(s, Event.Pop(co, timed))
    ensures var t := Step(s, Event.Pop(co, timed));
            Safe(t) && OnlyConsumers(t) && t.data == (if s.data == [] then [] else s.data[1..])
              && t.capacity == s.capacity
  {
    StepIsSafe(s, Event.Pop(co, timed));
  }

  /** A sleeper goes on, woken by the channel or by its timer. */
  lemma WakeTakesOne<T>(s: State<T>, co: nat)
    requires Safe(s) && OnlyConsumers(s) && co in s.asleep
    ensures var t := Wake(s, co);
            Safe(t) && OnlyConsumers(t) && t.data == (if s.data == [] then [] else s.data[1..])
              && t.capacity == s.capacity
  {
    WakeIsSafe(s, co);
  }

  class Pool {
    const max: nat
    const min: nat
    const connections: Channel<nat>
    var count: int
    var maxUsedConNum: int
    /** Objects in the hands of users or being checked, calls of createDb in progress, and of closeDb. */
    ghost var lent: nat
    ghost var creating: nat
    ghost var closing: nat

    /** Every object that count stands for is in one place, and the channel has room for all and one more. */
    ghost predicate Valid()
      reads this, connections, connections.repr
    {
      && connections.Valid() && this !in connections.repr
      && Safe(connections.View()) && OnlyConsumers(connections.View())
      && connections.capacity == max + 1
      && count == |connections.View().data| + lent + creating + closing
      && count <= max
    }

    /** init, before the first createObject. */
    constructor (max: nat, min: nat)
      ensures Valid() && fresh(connections) && fresh(connections.repr) && count == lent == creating == closing == 0
      ensures connections.View() == Empty(max + 1) && this.max == max && this.min == min && maxUsedConNum == 0
    {
      this.max, this.min := max, min;
      connections := new Channel(max + 1);
      count, maxUsedConNum, lent, creating, closing := 0, 0, 0, 0, 0;
      new;
      AlwaysSafe([connections.View()], []);
    }

    /** So the channel, of capacity max + 1, is never full. */
    lemma NeverFull()
      requires Valid()
      ensures |connections.View().data| <= count <= max < connections.capacity
    {
    }

    /** createObject up to createDb. */
    method BeginCreate() returns (ok: bool)
      requires Valid()
      modifies this`count, this`creating
      ensures Valid() && ok == (old(count) < max)
      ensures count - old(count) == creating - old(creating) == if ok then 1 else 0
    {
      if count >= max {
        return false;
      }
      count := count + 1;
      creating := creating + 1;
      return true;
    }

    /** createObject after createDb: the new object goes into the channel, which has room for it. */
    method EndCreate(co: nat, db: Option<nat>)
      requires Valid() && creating > 0 && Enabled(connections.View(), Event.Push(co, 0, false))
      modifies this`count, this`creating, connections, connections.repr
      ensures Valid() && fresh(connections.repr - old(connections.repr)) && creating == old(creating) - 1
      ensures if db == None then count == old(count) - 1 && connections.View() == old(connections.View())
              else count == old(count) && connections.View().data == old(connections.View()).data + [db.value]
    {
      if db == None {
        count := count - 1;
      } else {
        PushHasRoom(connections.View(), co, db.value);
        var r := connections.Push(co, db.value, false);
        assert r == Some(true);
      }
      creating := creating - 1;
    }

    /** pop in get, execute and gcSpareObject, with or without a timeout: None if the caller sleeps. */
    method Pop(co: nat, timed: bool) returns (obj: Option<nat>)
      requires Valid() && Enabled(connections.View(), Event.Pop(co, timed))
      modifies this`lent, connections, connections.repr
      ensures Valid() && fresh(connections.repr - old(connections.repr))
      ensures obj == if old(connections.View()).data == [] then None else Some(old(connections.View()).data[0])
      ensures lent == old(lent) + if obj == None then 0 else 1
      ensures connections.View() == Step(old(connections.View()), Event.Pop(co, timed))
    {
      PopTakesOne(connections.View(), co, timed);
      obj := connections.Pop(co, timed);
      if obj != None {
        lent := lent + 1;
      }
    }

    /** A caller that slept in pop goes on: with an object if there is one, else with false. */
    method Wake(co: nat)
      requires Valid() && co in connections.View().asleep
      modifies this`lent, connections, connections.repr
      ensures Valid() && fresh(connections.repr - old(connections.repr))
      ensures lent == old(lent) + if old(connections.View()).data == [] then 0 else 1
      ensures connections.View() == ChannelSpec.Wake(old(connections.View()), co)
    {
      WakeTakesOne(connections.View(), co);
      if |connections.View().data| > 0 {
        lent := lent + 1;
      }
      connections.Continue(co);
    }

    /** checkDb has failed: the object is dropped. */
    method Drop()
      requires Valid() && lent > 0
      modifies this`count, this`lent
      ensures Valid() && count == old(count) - 1 && lent == old(lent) - 1
    {
      count := count - 1;
      lent := lent - 1;
    }

    /** put, and the end of execute: giving an object back never waits and never fails. */
    method Put(co: nat, obj: nat)
      requires Valid() && lent > 0 && Enabled(connections.View(), Event.Push(co, obj, false))
      modifies this`lent, connections, connections.repr
      ensures Valid() && fresh(connections.repr - old(connections.repr)) && lent == old(lent) - 1
      ensures connections.View().data == old(connections.View()).data + [obj]
    {
      PushHasRoom(connections.View(), co, obj);
      var r := connections.Push(co, obj, false);
      assert r == Some(true);
      lent := lent - 1;
    }

    /** gcSpareObject wants to close an object if the pool is larger than it need be. */
    method WantsToClose() returns (wants: bool)
      requires Valid()
      ensures wants == (min < count && count - maxUsedConNum >= 2)
    {
      wants := count > min && count - maxUsedConNum >= 2;
    }

    /** gcSpareObject has popped an object, and calls closeDb. */
    method BeginClose()
      requires Valid() && lent > 0
      modifies this`lent, this`closing
      ensures Valid() && lent == old(lent) - 1 && closing == old(closing) + 1
    {
      lent := lent - 1;
      closing := closing + 1;
    }

    method EndClose()
      requires Valid() && closing > 0
      modifies this`count, this`closing
      ensures Valid() && count == old(count) - 1 && closing == old(closing) - 1
    {
      count := count - 1;
      closing := closing - 1;
    }

    /** The peak of the objects in use, at the end of get and execute. */
    method MarkUsed()
      requires Valid()
      modifies this`maxUsedConNum
      ensures Valid()
      ensures var used := lent + creating + closing;
              maxUsedConNum == if used > old(maxUsedConNum) then used else old(maxUsedConNum)
    {
      var used := count - connections.dataQueue.num;
      if used > maxUsedConNum {
        maxUsedConNum := used;
      }
    }

    /** The end of gcSpareObject: a new interval begins, in which the peak is measured anew. */
    method ResetPeak()
      requires Valid()
      modifies this`maxUsedConNum
      ensures Valid() && maxUsedConNum == 0
    {
      maxUsedConNum := 0;
    }
  }
}
