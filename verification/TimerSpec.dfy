/** What timers promise, with no wheel in sight: a bag of pending timers scanned at every tick. Histories are
    sequences of events. */
module TimerSpec {
  import opened Bits

  // ---- the bag -------------------------------------------------------------------------

  /** Timer handles are numbered in the order they are added. */
  datatype BagEvent = BTick | BAdd(ticks: uint32) | BDel(h: nat) | BFire(h: nat)

  datatype BagState = BagState(now: nat, pending: map<nat, nat>, adds: nat, fires: nat)

  const EMPTY_BAG := BagState(0, map[], 0, 0)

  function Delay(ticks: uint32): uint32 {
    if ticks > 0 then ticks else 1
  }

  /** The clock may move on when no pending timer is due; a timer may fire when it is due now. */
  ghost predicate BagEnabled(s: BagState, e: BagEvent) {
    match e
    case BTick => forall h :: h in s.pending ==> s.pending[h] > s.now
    case BAdd(_) => true
    case BDel(h) => h in s.pending
    case BFire(h) => h in s.pending && s.pending[h] == s.now
  }

  ghost function BagStep(s: BagState, e: BagEvent): BagState {
    match e
    case BTick => s.(now := s.now + 1)
    case BAdd(t) => s.(pending := s.pending[s.adds := s.now + Delay(t)], adds := s.adds + 1)
    case BDel(h) => s.(pending := s.pending - {h})
    case BFire(h) => s.(pending := s.pending - {h}, fires := s.fires + 1)
  }

  ghost function BagRun(log: seq<BagEvent>): BagState {
    if log == [] then EMPTY_BAG else BagStep(BagRun(log[..|log| - 1]), log[|log| - 1])
  }

  ghost predicate BagLegal(log: seq<BagEvent>) {
    log == [] || (BagLegal(log[..|log| - 1]) && BagEnabled(BagRun(log[..|log| - 1]), log[|log| - 1]))
  }

  /** In every history: no pending timer is late or further than 2^32 ticks away, handles are fresh, and
      num = adds - fires is at least the number of pending timers. */
  lemma {:induction false} BagInvariant(log: seq<BagEvent>)
    requires BagLegal(log)
    ensures var s := BagRun(log);
            && (forall h :: h in s.pending ==> h < s.adds && s.now <= s.pending[h] < s.now + TWO_32)
            && |s.pending| <= s.adds - s.fires
  {
    if log != [] {
      var s := BagRun(log[..|log| - 1]);
      BagInvariant(log[..|log| - 1]);
      match log[|log| - 1]
      case BTick =>
      case BAdd(t) =>
        assert s.adds !in s.pending;
      case BDel(h) => SizeWithout(s.pending, h);
      case BFire(h) => SizeWithout(s.pending, h);
    }
  }

  lemma SizeWithout(m: map<nat, nat>, h: nat)
    requires h in m
    ensures |m - {h}| == |m| - 1
  {
    assert (m - {h}).Keys == m.Keys - {h};
    assert |(m - {h}).Keys| == |m.Keys| - 1;
  }

  /** The 32-bit counter num is (adds - fires) mod 2^32. While fewer than 2^32 deleted or pending timers have
      been added, a wheel with num = 0 holds no timer, so the event loop may skip it. */
  lemma NumGuard(log: seq<BagEvent>)
    requires BagLegal(log)
    requires var s := BagRun(log); s.adds - s.fires < TWO_32 && (s.adds - s.fires) % TWO_32 == 0
    ensures BagRun(log).pending == map[]
  {
    BagInvariant(log);
  }

  /** Whether the timer added by event i of the log is deleted by one of the events before j. */
  ghost predicate DeletedBefore(log: seq<BagEvent>, h: nat, j: nat)
    requires j <= |log|
  {
    exists k :: 0 <= k < j && log[k] == BDel(h)
  }

  ghost predicate FiredBefore(log: seq<BagEvent>, h: nat, j: nat)
    requires j <= |log|
  {
    exists k :: 0 <= k < j && log[k] == BFire(h)
  }

  /** The state of timer h, due at `due`: pending and due then, unless it was deleted or has fired; and
      after that time one of the two has happened. */
  ghost predicate Fate(s: BagState, h: nat, due: nat, deleted: bool, fired: bool) {
    && h < s.adds
    && (h in s.pending <==> !deleted && !fired)
    && (h in s.pending ==> s.pending[h] == due)
    && (s.now > due ==> deleted || fired)
  }

  lemma FateStep(s: BagState, e: BagEvent, h: nat, due: nat, deleted: bool, fired: bool)
    requires BagEnabled(s, e) && Fate(s, h, due, deleted, fired)
    ensures Fate(BagStep(s, e), h, due, deleted || e == BDel(h), fired || e == BFire(h))
    ensures e == BFire(h) ==> s.now == due && !deleted && !fired
  {
  }

  /** The timer added by event i: until it is deleted or fires it is pending and due exactly max(ticks, 1) ticks
      after it was added. */
  lemma {:induction false} FateOf(log: seq<BagEvent>, i: nat, j: nat)
    requires BagLegal(log) && i < j <= |log| && log[i].BAdd?
    ensures var s := BagRun(log[..i]);
            Fate(BagRun(log[..j]), s.adds, s.now + Delay(log[i].ticks), DeletedBefore(log, s.adds, j),
                 FiredBefore(log, s.adds, j))
    decreases j
  {
    var s := BagRun(log[..i]);
    LegalPrefix(log, j);
    assert log[..j][..j - 1] == log[..j - 1];
    LastEvent(log, s.adds, j);
    if j == i + 1 {
      NotYetNamed(log, s.adds, i, i);
    } else {
      FateOf(log, i, j - 1);
      FateStep(BagRun(log[..j - 1]), log[j - 1], s.adds, s.now + Delay(log[i].ticks),
               DeletedBefore(log, s.adds, j - 1), FiredBefore(log, s.adds, j - 1));
    }
  }

  /** The number of ticks, and of timers added, in a part of a log. */
  ghost function TicksIn(log: seq<BagEvent>): nat {
    if log == [] then 0 else TicksIn(log[..|log| - 1]) + if log[|log| - 1].BTick? then 1 else 0
  }

  ghost function AddsIn(log: seq<BagEvent>): nat {
    if log == [] then 0 else AddsIn(log[..|log| - 1]) + if log[|log| - 1].BAdd? then 1 else 0
  }

  lemma {:induction false} ClockCounts(log: seq<BagEvent>)
    ensures BagRun(log).now == TicksIn(log) && BagRun(log).adds == AddsIn(log)
  {
    if log != [] {
      ClockCounts(log[..|log| - 1]);
    }
  }

  lemma {:induction false} TicksBetween(log: seq<BagEvent>, i: nat, j: nat)
    requires i <= j <= |log|
    ensures TicksIn(log[..j]) == TicksIn(log[..i]) + TicksIn(log[i..j])
    decreases j
  {
    if i < j {
      TicksBetween(log, i, j - 1);
      assert log[..j][..j - 1] == log[..j - 1];
      assert log[i..j][..j - 1 - i] == log[i..j - 1];
    }
  }

  /** The timer that event i adds is the one that the adds before it number, and by event j the ticks between the
      two have passed. */
  lemma SinceItWasAdded(log: seq<BagEvent>, i: nat, j: nat)
    requires i <= j <= |log|
    ensures BagRun(log[..i]).adds == AddsIn(log[..i])
    ensures BagRun(log[..j]).now == BagRun(log[..i]).now + TicksIn(log[i..j])
  {
    ClockCounts(log[..i]);
    ClockCounts(log[..j]);
    TicksBetween(log, i, j);
  }

  /** In every history there are exactly `ticks` ticks (one, if ticks = 0) between the event that adds a timer and
      the event that fires it; it fires at most once, and never after it was deleted; and once there are more ticks
      than that behind the first event, the timer has fired or been deleted. */
  lemma FiresExactlyOnTime(log: seq<BagEvent>, i: nat, j: nat)
    requires BagLegal(log) && i < j <= |log| && log[i].BAdd?
    ensures var h, passed, ticks := AddsIn(log[..i]), TicksIn(log[i..j]), if log[i].ticks > 0 then log[i].ticks else 1;
            && (j < |log| && log[j] == BFire(h) ==>
                  passed == ticks && !FiredBefore(log, h, j) && !DeletedBefore(log, h, j))
            && (passed > ticks ==> DeletedBefore(log, h, j) || FiredBefore(log, h, j))
  {
    SinceItWasAdded(log, i, j);
    var h, due := BagRun(log[..i]).adds, BagRun(log[..i]).now + Delay(log[i].ticks);
    var deleted, fired := DeletedBefore(log, h, j), FiredBefore(log, h, j);
    FateOf(log, i, j);
    assert Fate(BagRun(log[..j]), h, due, deleted, fired);
    if j < |log| {
      LegalStep(log, j);
      FateStep(BagRun(log[..j]), log[j], h, due, deleted, fired);
    }
  }

  lemma LegalStep(log: seq<BagEvent>, j: nat)
    requires BagLegal(log) && j < |log|
    ensures BagEnabled(BagRun(log[..j]), log[j])
  {
    LegalPrefix(log, j + 1);
  }

  lemma LastEvent(log: seq<BagEvent>, h: nat, j: nat)
    requires 0 < j <= |log|
    ensures DeletedBefore(log, h, j) <==> DeletedBefore(log, h, j - 1) || log[j - 1] == BDel(h)
    ensures FiredBefore(log, h, j) <==> FiredBefore(log, h, j - 1) || log[j - 1] == BFire(h)
  {
  }

  /** Before a handle is given out no event names it. */
  lemma {:induction false} NotYetNamed(log: seq<BagEvent>, h: nat, i: nat, j: nat)
    requires BagLegal(log) && j <= i < |log| && log[i].BAdd?
    requires h == BagRun(log[..i]).adds
    ensures !DeletedBefore(log, h, j) && !FiredBefore(log, h, j)
    ensures BagRun(log[..j]).adds <= h
    decreases i - j, 0
  {
    forall k | 0 <= k < j ensures log[k] != BDel(h) && log[k] != BFire(h) {
      LegalPrefix(log, k);
      LegalPrefix(log, k + 1);
      assert log[..k + 1][..k] == log[..k];
      BagInvariant(log[..k]);
      AddsGrow(log, k, i);
    }
    AddsGrow(log, j, i);
  }

  lemma {:induction false} AddsGrow(log: seq<BagEvent>, j: nat, i: nat)
    requires j <= i <= |log|
    ensures BagRun(log[..j]).adds <= BagRun(log[..i]).adds
    decreases i
  {
    if j < i {
      AddsGrow(log, j, i - 1);
      assert log[..i][..i - 1] == log[..i - 1];
    }
  }

  lemma {:induction false} LegalPrefix(log: seq<BagEvent>, j: nat)
    requires BagLegal(log) && j <= |log|
    ensures BagLegal(log[..j])
    ensures j > 0 ==> BagEnabled(BagRun(log[..j - 1]), log[j - 1])
    decreases |log|
  {
    if j == |log| {
      assert log[..j] == log;
    } else {
      var init := log[..|log| - 1];
      LegalPrefix(init, j);
      assert init[..j] == log[..j];
      assert j > 0 ==> init[..j - 1] == log[..j - 1];
    }
  }
}
