/** Every run of a channel's operations is a run of ChannelSpec, so what holds of all runs holds of the channel. */
module ChannelHistory {
  import opened Channel
  import opened ChannelSpec
  import opened Options

  class History<T(0)> {
    const channel: Channel<T>
    /** The states between the calls, and the calls. */
    ghost var states: seq<State<T>>
    ghost var events: seq<Event<T>>

    ghost predicate Valid()
      reads this, channel, channel.repr
    {
      && channel.Valid() && this !in channel.repr
      && IsRun(states, events) && states[0] == Empty(channel.capacity) && states[|events|] == channel.View()
    }

    constructor (capacity: nat)
      ensures Valid() && events == [] && channel.capacity == capacity && fresh(channel.repr)
    {
      channel := new Channel<T>(capacity);
      states, events := [Empty(capacity)], [];
    }

    ghost method Record(e: Event<T>)
      requires channel.Valid() && this !in channel.repr
      requires IsRun(states, events) && states[0] == Empty(channel.capacity)
      requires Enabled(states[|events|], e) && channel.View() == Step(states[|events|], e)
      modifies this`states, this`events
      ensures Valid() && events == old(events) + [e]
    {
      OneMoreStep(states, events, e);
      states, events := states + [channel.View()], events + [e];
    }

    method Push(co: nat, value: T, timed: bool) returns (r: Option<bool>)
      requires Valid() && Enabled(channel.View(), Event.Push(co, value, timed))
      modifies this, channel.repr
      ensures Valid() && fresh(channel.repr - old(channel.repr))
              && events == old(events) + [Event.Push(co, value, timed)]
    {
      r := channel.Push(co, value, timed);
      Record(Event.Push(co, value, timed));
    }

    method Pop(co: nat, timed: bool) returns (r: Option<T>)
      requires Valid() && Enabled(channel.View(), Event.Pop(co, timed))
      modifies this, channel.repr
      ensures Valid() && fresh(channel.repr - old(channel.repr)) && events == old(events) + [Event.Pop(co, timed)]
    {
      r := channel.Pop(co, timed);
      Record(Event.Pop(co, timed));
    }

    method Handover()
      requires Valid() && Enabled(channel.View(), Event.Handover)
      modifies this, channel.repr
      ensures Valid() && fresh(channel.repr - old(channel.repr)) && events == old(events) + [Event.Handover]
    {
      channel.Handover();
      Record(Event.Handover);
    }

    method Timeout(ticket: nat)
      requires Valid() && Enabled(channel.View(), Event.Timeout(ticket))
      modifies this, channel.repr
      ensures Valid() && fresh(channel.repr - old(channel.repr)) && events == old(events) + [Event.Timeout(ticket)]
    {
      channel.Timeout(ticket);
      Record(Event.Timeout(ticket));
    }

    /** Some other code resumes a sleeper. */
    method Resume(co: nat)
      requires Valid() && Enabled(channel.View(), Event.Resume(co))
      modifies this, channel.repr
      ensures Valid() && fresh(channel.repr - old(channel.repr)) && events == old(events) + [Event.Resume(co)]
    {
      channel.Continue(co);
      Record(Event.Resume(co));
    }

    /** Whatever has been called, the channel is safe: see Safe. */
    lemma ChannelIsSafe()
      requires Valid()
      ensures Safe(channel.View())
    {
      AlwaysSafe(states, events);
    }

    /** And no wake-up has been lost if every push and pop found a live sleeper at the head of the queue whenever
        somebody slept there; in particular if nobody but the channel resumed its sleepers. */
    lemma ChannelIsServed()
      requires Valid() && channel.capacity > 0
      requires HeadsSleep(states, events)
               || forall i :: 0 <= i < |events| ==> !Foreign(states[i], events[i])
      ensures Served(channel.View())
    {
      if HeadsSleep(states, events) {
        ServedThroughout(states, events);
      } else {
        NoWakeUpIsLost(states, events);
        OrderlyIsServed(states[|events|]);
      }
    }

    /** The calls of each coroutine have been answered one after the other, but for the one in which it sleeps. */
    lemma ChannelAnswers(co: nat)
      requires Valid()
      ensures Answered(channel.View(), CallsOf(events, co), co)
    {
      CallsAreAnswered(states, events, co);
    }

    /** Who sleeps in a call with a timeout has an armed record, and its timer ends the call, with an answer. */
    lemma TimerEndsCall(co: nat) returns (t: nat)
      requires Valid() && channel.woken == None && co in channel.asleep
      requires var calls := CallsOf(events, co);
               calls != [] && (calls[|calls| - 1].Push? || calls[|calls| - 1].Pop?) && calls[|calls| - 1].timed
      ensures t in channel.armed && channel.armed[t] == co && Enabled(channel.View(), Event.Timeout(t))
      ensures var s, s' := channel.View(), Step(channel.View(), Event.Timeout(t));
              && s'.asleep == s.asleep - {co} && s'.armed == s.armed - {t}
              && s'.log == s.log + [Outcome(s, co)]
    {
      t := TimersEndCalls(states, events, co);
    }

    /** As long as nobody else resumes its sleepers, the channel wakes them in the order in which they fell asleep. */
    lemma ChannelWakesInOrder()
      requires Valid() && channel.capacity > 0
      requires forall i :: 0 <= i < |events| ==> !Foreign(states[i], events[i])
      ensures FellAsleep(states, events, true) == WokenUp(states, true) + channel.consumerQueue.contents
      ensures FellAsleep(states, events, false) == WokenUp(states, false) + channel.producerQueue.contents
    {
      WokenInOrder(states, events);
    }
  }

  lemma OneMoreStep<T>(ss: seq<State<T>>, es: seq<Event<T>>, e: Event<T>)
    requires IsRun(ss, es) && Enabled(ss[|es|], e)
    ensures IsRun(ss + [Step(ss[|es|], e)], es + [e])
  {
  }
}
