/** The channel of src/coroutine/channel.c on its three queues. Each method runs from one switch of
    coroutines to the next, and takes the step of ChannelSpec that its contract names. */
module Channel {
  import opened ChannelSpec
  import opened Options
  import opened Queue

  class Channel<T(0)> {
    const capacity: nat
    const dataQueue: Queue<T>
    const producerQueue: Queue<nat>
    const consumerQueue: Queue<nat>
    /** The local variables of the calls that sleep. */
    var asleep: map<nat, Wait<T>>
    /** The records whose type is true. */
    var armed: map<nat, nat>
    var tickets: nat
    /** Set while control is on its way to a sleeper that the channel resumed. */
    var woken: Option<nat>
    ghost var log: seq<Note<T>>

    ghost var repr: set<object>

    ghost predicate Valid()
      reads this, repr
    {
      && {this, dataQueue, producerQueue, consumerQueue} <= repr
      && dataQueue.repr <= repr && producerQueue.repr <= repr && consumerQueue.repr <= repr
      && dataQueue.Valid() && producerQueue.Valid() && consumerQueue.Valid()
      && dataQueue.repr !! producerQueue.repr && dataQueue.repr !! consumerQueue.repr
      && producerQueue.repr !! consumerQueue.repr
      && this !in dataQueue.repr && this !in producerQueue.repr && this !in consumerQueue.repr
    }

    ghost function View(): State<T>
      reads this, dataQueue`contents, producerQueue`contents, consumerQueue`contents
    {
      State(capacity, dataQueue.contents, producerQueue.contents, consumerQueue.contents,
            asleep, armed, tickets, woken, log)
    }

    /** wmChannel_create. */
    constructor (capacity: nat)
      ensures Valid() && fresh(repr) && View() == Empty(capacity)
    {
      this.capacity := capacity;
      var data := new Queue<T>();
      var producers, consumers := NewQueues();
      dataQueue, producerQueue, consumerQueue := data, producers, consumers;
      asleep, armed, tickets, woken, log := map[], map[], 0, None, [];
      repr := {this} + data.repr + producers.repr + consumers.repr;
    }

    static method NewQueues() returns (producers: Queue<nat>, consumers: Queue<nat>)
      ensures producers.Valid() && producers.contents == [] && fresh(producers.repr)
      ensures consumers.Valid() && consumers.contents == [] && fresh(consumers.repr)
      ensures producers.repr !! consumers.repr
    {
      producers := new Queue();
      consumers := new Queue();
    }

    // The three queues, one at a time.

    method PushData(co: nat, x: T)
      requires Valid()
      modifies dataQueue.repr, this`log, this`repr
      ensures Valid() && fresh(repr - old(repr)) && View() == Stored(old(View()), co, x)
    {
      dataQueue.Push(x);
      assert producerQueue.contents == old(producerQueue.contents)
        && consumerQueue.contents == old(consumerQueue.contents);
      repr := repr + dataQueue.repr;
      log := log + [Accepted(co, x)];
    }

    method PopData(co: nat) returns (x: T)
      requires Valid() && View().data != []
      modifies dataQueue.repr, this`log, this`repr
      ensures Valid() && fresh(repr - old(repr)) && x == old(View()).data[0] && View() == Fetched(old(View()), co)
    {
      var r := dataQueue.Pop();
      assert producerQueue.contents == old(producerQueue.contents)
        && consumerQueue.contents == old(consumerQueue.contents);
      x := r.value;
      log := log + [Got(co, x)];
    }

    method PushProducer(x: nat)
      requires Valid()
      modifies producerQueue.repr, this`repr
      ensures Valid() && fresh(repr - old(repr))
      ensures View() == old(View()).(producers := old(View()).producers + [x])
    {
      producerQueue.Push(x);
      assert dataQueue.contents == old(dataQueue.contents)
        && consumerQueue.contents == old(consumerQueue.contents);
      repr := repr + producerQueue.repr;
    }

    method PopProducer() returns (x: nat)
      requires Valid() && View().producers != []
      modifies producerQueue.repr, this`repr
      ensures Valid() && fresh(repr - old(repr))
      ensures x == old(View()).producers[0] && View() == old(View()).(producers := old(View()).producers[1..])
    {
      var r := producerQueue.Pop();
      assert dataQueue.contents == old(dataQueue.contents)
        && consumerQueue.contents == old(consumerQueue.contents);
      x := r.value;
    }

    method PushConsumer(x: nat)
      requires Valid()
      modifies consumerQueue.repr, this`repr
      ensures Valid() && fresh(repr - old(repr))
      ensures View() == old(View()).(consumers := old(View()).consumers + [x])
    {
      consumerQueue.Push(x);
      assert dataQueue.contents == old(dataQueue.contents)
        && producerQueue.contents == old(producerQueue.contents);
      repr := repr + consumerQueue.repr;
    }

    method PopConsumer() returns (x: nat)
      requires Valid() && View().consumers != []
      modifies consumerQueue.repr, this`repr
      ensures Valid() && fresh(repr - old(repr))
      ensures x == old(View()).consumers[0] && View() == old(View()).(consumers := old(View()).consumers[1..])
    {
      var r := consumerQueue.Pop();
      assert dataQueue.contents == old(dataQueue.contents)
        && producerQueue.contents == old(producerQueue.contents);
      x := r.value;
    }

    /** Lines 28-40 and 85-97: with a timeout, the call makes a record and sets a timer. */
    method FallAsleep(co: nat, w: Wait<T>)
      requires Valid() && (w.ticket.Some? ==> w.ticket.value == tickets)
      modifies this`armed, this`tickets, this`asleep
      ensures Valid() && View() == Sleep(old(View()), co, w)
    {
      if w.ticket.Some? {
        armed := armed[tickets := co];
        tickets := tickets + 1;
      }
      asleep := asleep[co := w];
    }

    /** Lines 41-44 and 98-101: the timer of a call that goes on is marked as not needed. */
    method WakeUp(co: nat) returns (w: Wait<T>)
      requires Valid() && co in asleep
      modifies this`asleep, this`armed, this`woken
      ensures Valid() && w == old(asleep[co]) && View() == Awake(old(View()), co)
    {
      w := asleep[co];
      asleep, woken := asleep - {co}, None;
      if w.ticket.Some? {
        armed := armed - {w.ticket.value};
      }
    }

    /** wmCoroutine_resume of a coroutine taken from a queue: it refuses one that does not sleep. */
    method Resume(co: nat)
      requires Valid()
      modifies this`woken
      ensures Valid() && View() == Notify(old(View()), co)
    {
      woken := if co in asleep then Some(co) else None;
    }

    ghost method Record(n: Note<T>)
      requires Valid()
      modifies this`log
      ensures Valid() && View() == old(View()).(log := old(View()).log + [n])
    {
      log := log + [n];
    }

    /** Lines 63-71: the loop ends after its first turn, since no queue holds NULL. */
    method NotifyAConsumer()
      requires Valid()
      modifies repr
      ensures Valid() && fresh(repr - old(repr)) && View() == NotifyConsumer(old(View()))
    {
      if consumerQueue.num > 0 {
        var co := PopConsumer();
        Resume(co);
      }
    }

    /** Lines 115-125. */
    method NotifyAProducer()
      requires Valid()
      modifies repr
      ensures Valid() && fresh(repr - old(repr)) && View() == NotifyProducer(old(View()))
    {
      if producerQueue.num > 0 {
        var co := PopProducer();
        Resume(co);
      }
    }

    /** Lines 57-71. */
    method Store(co: nat, value: T)
      requires Valid()
      modifies repr
      ensures Valid() && fresh(repr - old(repr)) && View() == Commit(old(View()), co, value)
    {
      PushData(co, value);
      NotifyAConsumer();
    }

    /** Lines 110-125. */
    method Fetch(co: nat) returns (value: T)
      requires Valid() && View().data != []
      modifies repr
      ensures Valid() && fresh(repr - old(repr)) && View() == Take(old(View()), co)
      ensures value == old(View()).data[0]
    {
      value := PopData(co);
      NotifyAProducer();
    }

    /** wmChannel_push: true if the value is in the buffer, None if the caller sleeps, and then with an armed record if
        it has a timeout. */
    method Push(co: nat, value: T, timed: bool) returns (r: Option<bool>)
      requires Valid() && Enabled(View(), Event.Push(co, value, timed))
      modifies repr
      ensures Valid() && fresh(repr - old(repr)) && View() == Step(old(View()), Event.Push(co, value, timed))
      ensures r == if |old(View()).data| == capacity then None else Some(true)
      ensures (r == None <==> co in asleep) && (r == None && timed ==> exists t :: t in armed && armed[t] == co)
    {
      WhenCallsSleep(View(), Event.Push(co, value, timed));
      if dataQueue.num == capacity {
        FallAsleep(co, InPush(value, Ticket(timed, tickets)));
        PushProducer(co);
        return None;
      }
      Store(co, value);
      return Some(true);
    }

    /** wmChannel_pop: None if the caller sleeps, and then with an armed record if it has a timeout. */
    method Pop(co: nat, timed: bool) returns (r: Option<T>)
      requires Valid() && Enabled(View(), Event.Pop(co, timed))
      modifies repr
      ensures Valid() && fresh(repr - old(repr)) && View() == Step(old(View()), Event.Pop(co, timed))
      ensures r == if old(View()).data == [] then None else Some(old(View()).data[0])
      ensures (r == None <==> co in asleep) && (r == None && timed ==> exists t :: t in armed && armed[t] == co)
    {
      WhenCallsSleep(View(), Event.Pop(co, timed));
      if dataQueue.num == 0 {
        FallAsleep(co, InPop(Ticket(timed, tickets)));
        PushConsumer(co);
        return None;
      }
      var v := Fetch(co);
      return Some(v);
    }

    /** wmChannel_push after its wait (lines 52-73). */
    method RetryPush(co: nat, value: T) returns (r: bool)
      requires Valid()
      modifies repr
      ensures Valid() && fresh(repr - old(repr)) && View() == TryPush(old(View()), co, value)
      ensures r == (|old(View()).data| != capacity)
    {
      if dataQueue.num == capacity {
        Record(Refused(co));
        return false;
      }
      Store(co, value);
      return true;
    }

    /** wmChannel_pop after its wait (lines 105-126). */
    method RetryPop(co: nat) returns (r: Option<T>)
      requires Valid()
      modifies repr
      ensures Valid() && fresh(repr - old(repr)) && View() == TryPop(old(View()), co)
      ensures r == if old(View()).data == [] then None else Some(old(View()).data[0])
    {
      if dataQueue.num == 0 {
        Record(GotNothing(co));
        return None;
      }
      var v := Fetch(co);
      return Some(v);
    }

    /** A sleeper goes on: its record is marked, and one attempt made. */
    method Continue(co: nat)
      requires Valid() && co in asleep
      modifies repr
      ensures Valid() && fresh(repr - old(repr)) && View() == Wake(old(View()), co)
    {
      var w := WakeUp(co);
      match w
      case InPush(value, _) => var _ := RetryPush(co, value);
      case InPop(_) => var _ := RetryPop(co);
    }

    /** The sleeper that the channel has resumed goes on. */
    method Handover()
      requires Valid() && Enabled(View(), Event.Handover)
      modifies repr
      ensures Valid() && fresh(repr - old(repr)) && View() == Step(old(View()), Event.Handover)
    {
      Continue(woken.value);
    }

    /** sleep_timeout. */
    method Timeout(ticket: nat)
      requires Valid() && Enabled(View(), Event.Timeout(ticket))
      modifies repr
      ensures Valid() && fresh(repr - old(repr)) && View() == Step(old(View()), Event.Timeout(ticket))
    {
      if ticket in armed {
        var co := armed[ticket];
        if co in asleep {
          Continue(co);
        } else {
          armed := armed - {ticket};
        }
      }
    }
  }
}
