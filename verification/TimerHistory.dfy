/** Every run of the timer service is a legal history of the registry, so what holds of all histories holds of
    the PHP timers of a worker. */
module TimerHistory {
  import opened Bits
  import opened Clock
  import opened Options
  import opened PhpTimer
  import opened RegistrySpec
  import Rings

  /** One update, after n ticks that account for the time from t0 on. */
  lemma UpdateAccounts(n: nat, c: Clock, interval: uint16, currtime: nat, t0: nat)
    requires 0 < interval && c.rem < interval && n * interval + c.rem == c.last - t0
    ensures var c' := AfterUpdate(c, interval, currtime);
            ((n + Ticks(c, interval, currtime)) * interval + c'.rem == c'.last - t0 && c'.rem < interval)
            <==> currtime <= c.last || currtime - c.last + c.rem < 0x8000_0000
  {
    Distribute(n, Ticks(c, interval, currtime), interval);
    if currtime > c.last {
      UpdateConserves(c, interval, currtime);
    }
  }

  class History {
    const service: TimerService
    /** The time at the start. */
    const t0: nat
    /** What has happened to the timers. */
    ghost var log: seq<Event>

    ghost predicate Recorded()
      reads this, service`spec
    {
      Legal(EMPTY, log) && service.spec == Play(EMPTY, log)
    }

    /** User code runs, outside of a tick. */
    ghost predicate Idle()
      reads this, service, service.wheel, service.wheel.heads, Rings.Members(service.wheel.lists),
            service.wheel.due.Keys
    {
      service.Valid() && Recorded() && service.spec.running == None && !service.wheel.Draining()
    }

    ghost function Time(): Clock
      reads service.wheel`lasttime, service.wheel`remainder
    {
      Clock(service.wheel.lasttime, service.wheel.remainder)
    }

    /** The ticks of the wheel and the remainder account for all the time up to the last update. */
    ghost predicate Conserved()
      reads service.wheel`now, service.wheel`interval, service.wheel`lasttime, service.wheel`remainder
    {
      && service.wheel.now * service.wheel.interval + service.wheel.remainder == service.wheel.lasttime - t0
      && service.wheel.remainder < service.wheel.interval
    }

    constructor (interval: uint16, currtime: nat)
      ensures service.wheel.interval == interval && (interval > 0 ==> Conserved())
      ensures Idle() && log == [] && fresh(service) && fresh(service.wheel) && fresh(service.wheel.repr)
    {
      service := new TimerService(interval, currtime);
      t0 := currtime;
      log := [];
    }

    ghost method Record(before: State, more: seq<Event>)
      requires Legal(EMPTY, log) && before == Play(EMPTY, log)
      requires Legal(before, more) && service.spec == Play(before, more)
      modifies this`log
      ensures Recorded() && log == old(log) + more
    {
      PlayConcat(EMPTY, log, more);
      log := log + more;
    }

    /** User code outside of callbacks. */
    method Run(cmds: seq<Command>)
      requires Idle()
      modifies this`log, service, service.wheel`heads, service.wheel`lists, service.wheel`due, service.wheel`repr,
               service.wheel`now, service.wheel`currtick, service.wheel`num, service.wheel`outstanding,
               service.wheel.repr
      ensures Idle() && log == old(log) + EventsOf(cmds)
      ensures service.wheel.now == old(service.wheel.now) && service.wheel.interval == old(service.wheel.interval)
      ensures Time() == old(Time())
    {
      ghost var before, log0 := service.spec, log;
      log := log0 + EventsOf(cmds);
      service.RunCommands(cmds);
      TimerService.CommandsKeepTime(before, cmds);
      PlayConcat(EMPTY, log0, EventsOf(cmds));
    }

    /** wmTimerWheel_update: what it adds to the log is as many ticks as Clock gives, each with the callbacks that it
        runs and their user code; and it accounts for the time that has passed if and only if that is less than
        2^31 ms, the range of a C int. */
    method Update(currtime: nat, code: UserCode) returns (ghost drains: seq<seq<Callback>>)
      requires Idle() && LeavesItself(code) && service.wheel.interval > 0
      modifies this, service, service.wheel, service.wheel.repr
      ensures Idle() && service.wheel.interval == old(service.wheel.interval)
      ensures log == old(log) + UpdateEvents(drains, code)
      ensures |drains| == Ticks(old(Time()), service.wheel.interval, currtime)
      ensures service.wheel.now == old(service.wheel.now) + |drains|
      ensures Time() == AfterUpdate(old(Time()), service.wheel.interval, currtime)
      ensures old(Conserved()) ==>
                (Conserved() <==>
                 currtime <= old(Time()).last || currtime - old(Time()).last + old(Time()).rem < 0x8000_0000)
    {
      ghost var n, c := service.wheel.now, Time();
      drains := UpdateAndRecord(currtime, code);
      if old(Conserved()) {
        UpdateAccounts(n, c, service.wheel.interval, currtime, t0);
      }
    }

    method UpdateAndRecord(currtime: nat, code: UserCode) returns (ghost drains: seq<seq<Callback>>)
      requires Idle() && LeavesItself(code) && service.wheel.interval > 0
      modifies this`log, service, service.wheel, service.wheel.repr
      ensures Idle() && service.wheel.interval == old(service.wheel.interval)
      ensures log == old(log) + UpdateEvents(drains, code)
      ensures |drains| == Ticks(old(Time()), service.wheel.interval, currtime)
      ensures service.wheel.now == old(service.wheel.now) + |drains|
      ensures Time() == AfterUpdate(old(Time()), service.wheel.interval, currtime)
    {
      ghost var before := service.spec;
      ghost var more;
      more, drains := service.Update(currtime, code);
      Record(before, more);
    }

    /** In every run of the service: the timer that event i added, at tick a and with p ticks (one, if it asked for
        0), has fired at exactly a + p, a + 2p, ..., a one-shot timer at most once, and it is in the table if and only
        if it was neither deleted, nor ended as a one-shot timer, nor was caught by a reload. */
    lemma EveryTimerLives(i: nat)
      requires service.Valid() && Recorded() && i < |log| && log[i].Add?
      ensures var id, a, p := AddCount(log[..i]) + 1, TickCount(log[..i]), if log[i].ticks > 0 then log[i].ticks else 1;
              var fired := FireTimes(log, id);
              && (forall k :: 0 <= k < |fired| ==> fired[k] == a + (k + 1) * p)
              && (!log[i].persistent ==> |fired| <= 1)
              && (id in service.timers <==> !DroppedBetween(log, i + 1, |log|, id, log[i].persistent))
    {
      WholeLife(log, i);
    }

    lemma NothingIsDue()
      requires Idle()
      ensures NothingDue(service.spec)
    {
      service.wheel.NothingDueWhenIdle();
      forall id | id in service.spec.entries && service.spec.entries[id].due.Some?
        ensures service.spec.entries[id].due.value > service.spec.now
      {
        assert AgreesAt(service.timers, service.wheel.due, service.spec, id);
      }
    }

    /** And as long as it is there it has missed no period up to the present tick of the wheel. */
    lemma NoPeriodIsMissed(i: nat)
      requires Idle() && i < |log| && log[i].Add? && AddCount(log[..i]) + 1 in service.timers
      ensures service.wheel.now == TickCount(log) >= TickCount(log[..i])
      ensures |FireTimes(log, AddCount(log[..i]) + 1)| ==
              (TickCount(log) - TickCount(log[..i])) / if log[i].ticks > 0 then log[i].ticks else 1
    {
      NothingIsDue();
      WholeLife(log, i);
      ClockCounts(log);
      FiringsSoFar(log, AddCount(log[..i]) + 1);
    }
  }
}
