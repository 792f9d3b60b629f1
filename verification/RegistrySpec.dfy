/** The PHP timers of php_timer.c as a state machine over events: a registry of one-shot and
    persistent timers, which fire, run user code, and are forgotten or armed again. */
module RegistrySpec {
  import opened Bits
  import opened Options
  import opened Probing
  import opened TimerSpec

  /** born: tick of Timer::add; fires: firings so far; due: next firing, None while the callback runs. */
  datatype Entry = Entry(period: nat, persistent: bool, born: nat, fires: nat, due: Option<nat>)

  /** num: what is on the wheel, the deleted timers included; running: the timer whose callback runs. */
  datatype State =
    State(now: nat, entries: map<nat, Entry>, lastId: nat, reloading: bool, running: Option<nat>, num: int)

  /** A timer fires and its callback is done; other timers, such as those of sleeping coroutines, are started by
      Sleep and end by Woke. */
  datatype Event =
    | Tick
    | Fire(id: nat)
    | Done
    | Woke
    | Add(ticks: uint32, persistent: bool)
    | Del(id: nat)
    | Sleep(ticks: uint32)
    | Reload(on: bool)

  const EMPTY := State(0, map[], 0, false, None, 0)

  ghost predicate NothingDue(s: State) {
    forall id :: id in s.entries && s.entries[id].due.Some? ==> s.entries[id].due.value > s.now
  }

  ghost predicate Enabled(s: State, e: Event) {
    match e
    case Tick => s.running == None && NothingDue(s)
    case Fire(id) => s.running == None && id in s.entries && s.entries[id].due == Some(s.now)
    case Done => s.running.Some? && s.running.value in s.entries
    case Woke => s.running == None
    case Add(_, _) => true
    case Del(id) => s.running != Some(id)
    case Sleep(_) => true
    case Reload(_) => true
  }

  ghost function Step(s: State, e: Event): State {
    match e
    case Tick => s.(now := s.now + 1)
    case Fire(id) =>
      if id in s.entries then
        var en := s.entries[id];
        s.(entries := s.entries[id := en.(due := None, fires := en.fires + 1)], running := Some(id), num := s.num - 1)
      else s
    case Done =>
      if s.running.Some? && s.running.value in s.entries then
        var id := s.running.value;
        var en := s.entries[id];
        if !en.persistent || s.reloading then s.(entries := s.entries - {id}, running := None)
        else s.(entries := s.entries[id := en.(due := Some(s.now + en.period))], running := None, num := s.num + 1)
      else s
    case Woke => s.(num := s.num - 1)
    case Add(t, p) =>
      var id := s.lastId + 1;
      s.(lastId := id, entries := s.entries[id := Entry(Delay(t), p, s.now, 0, Some(s.now + Delay(t)))],
         num := s.num + 1)
    case Del(id) => s.(entries := s.entries - {id})
    case Sleep(_) => s.(num := s.num + 1)
    case Reload(on) => s.(reloading := on)
  }

  ghost function Play(s: State, log: seq<Event>): State {
    if log == [] then s else Step(Play(s, log[..|log| - 1]), log[|log| - 1])
  }

  ghost predicate Legal(s: State, log: seq<Event>) {
    log == [] || (Legal(s, log[..|log| - 1]) && Enabled(Play(s, log[..|log| - 1]), log[|log| - 1]))
  }

  lemma PlayOneMore(s: State, log: seq<Event>, e: Event)
    ensures Play(s, log + [e]) == Step(Play(s, log), e)
    ensures Legal(s, log + [e]) <==> Legal(s, log) && Enabled(Play(s, log), e)
  {
    assert (log + [e])[..|log|] == log;
  }

  lemma {:induction false} PlayConcat(s: State, a: seq<Event>, b: seq<Event>)
    ensures Play(s, a + b) == Play(Play(s, a), b)
    ensures Legal(s, a + b) <==> Legal(s, a) && Legal(Play(s, a), b)
    decreases |b|
  {
    if b == [] {
      assert a + b == a;
    } else {
      var init := b[..|b| - 1];
      PlayConcat(s, a, init);
      assert (a + b)[..|a + b| - 1] == a + init;
    }
  }

  /** Every registered timer is on schedule: it fired at born + period, born + 2 period, ..., and is due at the
      next of these times, except the one whose callback runs, which fired just now. */
  ghost predicate EntryOnSchedule(s: State, id: nat)
    requires id in s.entries
  {
    var e := s.entries[id];
    && id <= s.lastId && e.period >= 1
    && e.born + e.fires * e.period <= s.now
    && (e.due == None <==> s.running == Some(id))
    && (e.due.Some? ==> e.due.value == e.born + (e.fires + 1) * e.period && s.now <= e.due.value)
    && (e.due == None ==> s.now == e.born + e.fires * e.period && e.fires > 0)
    && (!e.persistent && e.due.Some? ==> e.fires == 0)
  }

  ghost predicate OnSchedule(s: State) {
    && (forall id {:trigger EntryOnSchedule(s, id)} :: id in s.entries ==> EntryOnSchedule(s, id))
    && (s.running.Some? ==> s.running.value in s.entries)
  }

  lemma NextMultiple(f: nat, p: nat)
    ensures (f + 1) * p == f * p + p
  {
  }

  lemma StepKeepsSchedule(s: State, e: Event)
    requires OnSchedule(s) && Enabled(s, e)
    ensures OnSchedule(Step(s, e))
  {
    var s' := Step(s, e);
    forall id | id in s'.entries ensures EntryOnSchedule(s', id) {
      if id in s.entries {
        assert EntryOnSchedule(s, id);
        NextMultiple(s.entries[id].fires, s.entries[id].period);
        NextMultiple(s.entries[id].fires + 1, s.entries[id].period);
      }
    }
  }

  lemma {:induction false} AlwaysOnSchedule(log: seq<Event>)
    requires Legal(EMPTY, log)
    ensures OnSchedule(Play(EMPTY, log))
  {
    if log != [] {
      AlwaysOnSchedule(log[..|log| - 1]);
      StepKeepsSchedule(Play(EMPTY, log[..|log| - 1]), log[|log| - 1]);
    }
  }

  /** The number of ticks, and of timers added, in a log. */
  ghost function TickCount(log: seq<Event>): nat {
    if log == [] then 0 else TickCount(log[..|log| - 1]) + if log[|log| - 1].Tick? then 1 else 0
  }

  ghost function AddCount(log: seq<Event>): nat {
    if log == [] then 0 else AddCount(log[..|log| - 1]) + if log[|log| - 1].Add? then 1 else 0
  }

  lemma {:induction false} ClockCounts(log: seq<Event>)
    ensures Play(EMPTY, log).now == TickCount(log) && Play(EMPTY, log).lastId == AddCount(log)
  {
    if log != [] {
      ClockCounts(log[..|log| - 1]);
    }
  }

  /** The ticks at which timer id has fired. */
  ghost function FireTimes(log: seq<Event>, id: nat): seq<nat> {
    if log == [] then []
    else
      var init := log[..|log| - 1];
      if log[|log| - 1] == Fire(id) then FireTimes(init, id) + [TickCount(init)] else FireTimes(init, id)
  }

  /** A timer added at tick a with period p has fired at exactly a + p, a + 2p, a + 3p, ..., once at each. */
  lemma {:induction false} FiresPeriodically(log: seq<Event>, id: nat)
    requires Legal(EMPTY, log) && id in Play(EMPTY, log).entries
    ensures var e := Play(EMPTY, log).entries[id];
            && |FireTimes(log, id)| == e.fires
            && forall k :: 0 <= k < e.fires ==> FireTimes(log, id)[k] == e.born + (k + 1) * e.period
  {
    if log != [] {
      var init := log[..|log| - 1];
      var s := Play(EMPTY, init);
      AlwaysOnSchedule(init);
      ClockCounts(init);
      if id in s.entries {
        assert EntryOnSchedule(s, id);
        FiresPeriodically(init, id);
      } else {
        NeverFired(init, id);
      }
    }
  }

  /** An id that is not registered yet has not fired. */
  lemma {:induction false} NeverFired(log: seq<Event>, id: nat)
    requires Legal(EMPTY, log) && id > Play(EMPTY, log).lastId
    ensures FireTimes(log, id) == []
  {
    if log != [] {
      var init := log[..|log| - 1];
      AlwaysOnSchedule(init);
      NeverFired(init, id);
      var s := Play(EMPTY, init);
      assert id in s.entries ==> EntryOnSchedule(s, id);
    }
  }

  /** n periods have passed since timer id was added. */
  ghost predicate PeriodsPassed(s: State, id: nat, n: nat) {
    id in s.entries && s.entries[id].period >= 1 && s.entries[id].born <= s.now
    && n == (s.now - s.entries[id].born) / s.entries[id].period
  }

  /** And it has missed none: between ticks, the number of firings is the number of periods that have passed. */
  lemma FiringsSoFar(log: seq<Event>, id: nat)
    requires Legal(EMPTY, log)
    requires var s := Play(EMPTY, log); id in s.entries && s.running == None && NothingDue(s)
    ensures PeriodsPassed(Play(EMPTY, log), id, |FireTimes(log, id)|)
  {
    AlwaysOnSchedule(log);
    FiresPeriodically(log, id);
    FiringsBetweenTicks(Play(EMPTY, log), id, |FireTimes(log, id)|);
  }

  lemma FiringsBetweenTicks(s: State, id: nat, n: nat)
    requires OnSchedule(s) && s.running == None && NothingDue(s) && id in s.entries && n == s.entries[id].fires
    ensures PeriodsPassed(s, id, n)
  {
    assert EntryOnSchedule(s, id);
    var e := s.entries[id];
    assert e.born + e.fires * e.period <= s.now < e.born + (e.fires + 1) * e.period;
    assert e.fires * e.period >= 0;
    CountPeriods(s.now - e.born, e.fires, e.period);
  }

  lemma CountPeriods(x: nat, f: nat, p: nat)
    requires p >= 1 && f * p <= x < (f + 1) * p
    ensures x / p == f
  {
    NextMultiple(f, p);
    DivModUnique(x, p, f, x - f * p);
  }

  // ---- the whole life of a timer ---------------------------------------------------------

  /** After this log the worker is reloading: so the last Reload says. */
  ghost predicate ReloadingAfter(log: seq<Event>) {
    exists k :: 0 <= k < |log| && log[k] == Reload(true) && forall m :: k < m < |log| ==> !log[m].Reload?
  }

  /** After this log the callback of timer id is running: it has fired, and no callback is done since. */
  ghost predicate RunningAfter(log: seq<Event>, id: nat) {
    exists k :: 0 <= k < |log| && log[k] == Fire(id) && forall m :: k < m < |log| ==> !log[m].Done?
  }

  lemma LastOfThese(log: seq<Event>, n: nat, id: nat)
    requires n + 1 == |log|
    ensures ReloadingAfter(log) <==> log[n] == Reload(true) || (ReloadingAfter(log[..n]) && !log[n].Reload?)
    ensures RunningAfter(log, id) <==> log[n] == Fire(id) || (RunningAfter(log[..n], id) && !log[n].Done?)
  {
    forall k: nat | k < n ensures log[..n][k] == log[k] {
    }
  }

  /** What the log says of reloading and of running callbacks is what the state says. */
  lemma {:induction false} StateFromLog(log: seq<Event>, id: nat)
    requires Legal(EMPTY, log)
    ensures Play(EMPTY, log).reloading <==> ReloadingAfter(log)
    ensures Play(EMPTY, log).running == Some(id) <==> RunningAfter(log, id)
  {
    if log != [] {
      StateFromLog(log[..|log| - 1], id);
      LastOfThese(log, |log| - 1, id);
    }
  }

  /** Event j takes timer id out of the registry: it is deleted, or its callback has ended and it is a one-shot
      timer or the worker is reloading. */
  ghost predicate Drops(log: seq<Event>, j: nat, id: nat, persistent: bool)
    requires j < |log|
  {
    log[j] == Del(id)
    || (log[j] == Done && RunningAfter(log[..j], id) && (!persistent || ReloadingAfter(log[..j])))
  }

  ghost predicate DroppedBetween(log: seq<Event>, i: nat, j: nat, id: nat, persistent: bool)
    requires j <= |log|
  {
    exists k :: i <= k < j && Drops(log, k, id, persistent)
  }

  ghost predicate DeletedBetween(log: seq<Event>, i: nat, j: nat, id: nat)
    requires j <= |log|
  {
    exists k :: i <= k < j && log[k] == Del(id)
  }

  /** Timer id, added at tick a, has fired at a + p, a + 2p, ..., a one-shot timer at most once; it is
      registered, as it was added, if and only if it has not been dropped; and unless it was deleted it has fired
      before it was dropped. */
  ghost predicate Life(s: State, fired: seq<nat>, id: nat, a: nat, p: nat, persistent: bool, dropped: bool,
                       deleted: bool) {
    && id <= s.lastId
    && (forall k :: 0 <= k < |fired| ==> fired[k] == a + (k + 1) * p)
    && (!persistent ==> |fired| <= 1)
    && (id in s.entries <==> !dropped)
    && (dropped && !deleted ==> |fired| > 0)
    && (id in s.entries ==>
          var e := s.entries[id]; e.born == a && e.period == p && e.persistent == persistent && e.fires == |fired|)
  }

  lemma LifeStep(s: State, e: Event, fired: seq<nat>, id: nat, a: nat, p: nat, persistent: bool,
                 dropped: bool, deleted: bool)
    requires OnSchedule(s) && Enabled(s, e) && Life(s, fired, id, a, p, persistent, dropped, deleted)
    ensures var drops := e == Del(id) || (e == Done && s.running == Some(id) && (!persistent || s.reloading));
            Life(Step(s, e), if e == Fire(id) then fired + [s.now] else fired, id, a, p, persistent,
                 dropped || drops, deleted || e == Del(id))
  {
    if id in s.entries {
      assert EntryOnSchedule(s, id);
    }
  }

  lemma LifeBegins(log: seq<Event>, born: State)
    requires Legal(EMPTY, log) && log != [] && log[|log| - 1].Add? && born == Play(EMPTY, log[..|log| - 1])
    ensures var e, id := log[|log| - 1], born.lastId + 1;
            Life(Play(EMPTY, log), FireTimes(log, id), id, born.now, Delay(e.ticks), e.persistent, false, false)
  {
    NeverFired(log[..|log| - 1], born.lastId + 1);
    assert FireTimes(log, born.lastId + 1) == [] && Play(EMPTY, log) == Step(born, log[|log| - 1]);
  }

  lemma DropsInPrefix(log: seq<Event>, i: nat, n: nat, id: nat, persistent: bool)
    requires n + 1 == |log| && i <= n
    ensures DroppedBetween(log, i, n + 1, id, persistent) <==>
            DroppedBetween(log[..n], i, n, id, persistent) || Drops(log, n, id, persistent)
    ensures DeletedBetween(log, i, n + 1, id) <==> DeletedBetween(log[..n], i, n, id) || log[n] == Del(id)
  {
    forall k | i <= k < n ensures Drops(log, k, id, persistent) <==> Drops(log[..n], k, id, persistent) {
      assert log[..n][..k] == log[..k];
    }
  }

  /** The whole life of the timer that event i adds, at tick a and with p ticks (one, if it asks for 0): until it is
      deleted, or ends as a one-shot timer or by a reload, it is registered; it fires at exactly a + p, a + 2p,
      a + 3p, ..., one-shot timers once; and after that never. */
  lemma WholeLife(log: seq<Event>, i: nat)
    requires Legal(EMPTY, log) && i < |log| && log[i].Add?
    ensures var id, a, p := AddCount(log[..i]) + 1, TickCount(log[..i]), if log[i].ticks > 0 then log[i].ticks else 1;
            Life(Play(EMPTY, log), FireTimes(log, id), id, a, p, log[i].persistent,
                 DroppedBetween(log, i + 1, |log|, id, log[i].persistent), DeletedBetween(log, i + 1, |log|, id))
  {
    ClockCounts(log[..i]);
    LifeOf(log, i, Play(EMPTY, log[..i]));
  }

  lemma {:induction false} LifeOf(log: seq<Event>, i: nat, born: State)
    requires Legal(EMPTY, log) && i < |log| && log[i].Add? && born == Play(EMPTY, log[..i])
    ensures var id := born.lastId + 1;
            Life(Play(EMPTY, log), FireTimes(log, id), id, born.now, Delay(log[i].ticks), log[i].persistent,
                 DroppedBetween(log, i + 1, |log|, id, log[i].persistent), DeletedBetween(log, i + 1, |log|, id))
    decreases |log|
  {
    var n := |log| - 1;
    if i == n {
      LifeBegins(log, born);
    } else {
      assert log[..n][..i] == log[..i];
      LifeOf(log[..n], i, born);
      LifeGoesOn(log, i, born);
    }
  }

  lemma LifeGoesOn(log: seq<Event>, i: nat, born: State)
    requires Legal(EMPTY, log) && i < |log| - 1 && log[i].Add?
    requires var init, id := log[..|log| - 1], born.lastId + 1;
             Life(Play(EMPTY, init), FireTimes(init, id), id, born.now, Delay(log[i].ticks), log[i].persistent,
                  DroppedBetween(init, i + 1, |init|, id, log[i].persistent), DeletedBetween(init, i + 1, |init|, id))
    ensures var id := born.lastId + 1;
            Life(Play(EMPTY, log), FireTimes(log, id), id, born.now, Delay(log[i].ticks), log[i].persistent,
                 DroppedBetween(log, i + 1, |log|, id, log[i].persistent), DeletedBetween(log, i + 1, |log|, id))
  {
    var n, id := |log| - 1, born.lastId + 1;
    var init := log[..n];
    AlwaysOnSchedule(init);
    ClockCounts(init);
    StateFromLog(init, id);
    DropsInPrefix(log, i + 1, n, id, log[i].persistent);
    LifeStep(Play(EMPTY, init), log[n], FireTimes(init, id), id, born.now, Delay(log[i].ticks), log[i].persistent,
             DroppedBetween(init, i + 1, n, id, log[i].persistent), DeletedBetween(init, i + 1, n, id));
  }

  /** Once out of the registry, a timer fires no more, whatever follows. */
  lemma {:induction false} NeverFiresAgain(log: seq<Event>, more: seq<Event>, id: nat)
    requires Legal(EMPTY, log + more) && id <= Play(EMPTY, log).lastId && id !in Play(EMPTY, log).entries
    ensures FireTimes(log + more, id) == FireTimes(log, id)
    ensures id <= Play(EMPTY, log + more).lastId && id !in Play(EMPTY, log + more).entries
    decreases |more|
  {
    if more == [] {
      assert log + more == log;
    } else {
      var init := more[..|more| - 1];
      assert (log + more)[..|log + more| - 1] == log + init;
      NeverFiresAgain(log, init, id);
      AlwaysOnSchedule(log + init);
    }
  }

  /** A persistent timer that is neither deleted nor caught by a reload, and any timer before its first period is
      over, has missed nothing between two ticks: see FiringsSoFar. */
  lemma MissesNothing(log: seq<Event>, i: nat)
    requires Legal(EMPTY, log) && i < |log| && log[i].Add?
    requires Play(EMPTY, log).running == None && NothingDue(Play(EMPTY, log))
    requires !DroppedBetween(log, i + 1, |log|, AddCount(log[..i]) + 1, log[i].persistent)
    ensures |FireTimes(log, AddCount(log[..i]) + 1)| ==
            (TickCount(log) - TickCount(log[..i])) / if log[i].ticks > 0 then log[i].ticks else 1
  {
    WholeLife(log, i);
    ClockCounts(log);
    FiringsSoFar(log, AddCount(log[..i]) + 1);
  }

  /** A one-shot timer that is not deleted has fired exactly once when its period is over, reload or not. */
  lemma OneShotFiresOnce(log: seq<Event>, i: nat, s: State)
    requires Legal(EMPTY, log) && i < |log| && log[i].Add? && !log[i].persistent && s == Play(EMPTY, log)
    requires s.running == None && NothingDue(s) && !DeletedBetween(log, i + 1, |log|, AddCount(log[..i]) + 1)
    requires TickCount(log) >= TickCount(log[..i]) + if log[i].ticks > 0 then log[i].ticks else 1
    ensures FireTimes(log, AddCount(log[..i]) + 1) ==
            [TickCount(log[..i]) + if log[i].ticks > 0 then log[i].ticks else 1]
  {
    var id, a, p := AddCount(log[..i]) + 1, TickCount(log[..i]), if log[i].ticks > 0 then log[i].ticks else 1;
    var fired, dropped := FireTimes(log, id), DroppedBetween(log, i + 1, |log|, id, false);
    assert Life(s, fired, id, a, p, false, dropped, false) by {
      WholeLife(log, i);
    }
    assert s.now >= a + p by {
      ClockCounts(log);
    }
    AlwaysOnSchedule(log);
    FiredOnce(s, fired, id, a, p, dropped);
  }

  lemma FiredOnce(s: State, fired: seq<nat>, id: nat, a: nat, p: nat, dropped: bool)
    requires Life(s, fired, id, a, p, false, dropped, false) && OnSchedule(s)
    requires s.running == None && NothingDue(s) && s.now >= a + p
    ensures fired == [a + p]
  {
    assert id in s.entries ==> EntryOnSchedule(s, id);
  }
}
