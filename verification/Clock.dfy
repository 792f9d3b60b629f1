/** How wmTimerWheel_update turns elapsed milliseconds into ticks. */
module Clock {
  import opened Bits
  import opened Probing

  /** Conversion of a 64-bit difference to a C int. */
  function ToInt(x: int): int {
    (x + 0x8000_0000) % TWO_32 - 0x8000_0000
  }

  /** lasttime and remainder of the wheel. */
  datatype Clock = Clock(last: nat, rem: uint16)

  /** The number of ticks performed by an update at time t. */
  function Ticks(c: Clock, interval: uint16, t: nat): (n: nat)
    requires interval > 0
  {
    var diff := ToInt(t - c.last + c.rem);
    if t > c.last && diff >= 0 then diff / interval else 0
  }

  function AfterUpdate(c: Clock, interval: uint16, t: nat): Clock
    requires interval > 0
  {
    var diff := ToInt(t - c.last + c.rem);
    if t > c.last then Clock(t, (diff - Ticks(c, interval, t) * interval) % 0x1_0000) else c
  }

  lemma ToIntSmall(x: nat)
    ensures x < 0x8000_0000 ==> ToInt(x) == x
    ensures x >= 0x8000_0000 ==> ToInt(x) < x && ToInt(x) < 0x8000_0000
  {
    if x < 0x8000_0000 {
      DivModUnique(x + 0x8000_0000, TWO_32, 0, x + 0x8000_0000);
    }
  }

  lemma RestBelow(d: nat, n: nat)
    requires n > 0
    ensures d == (d / n) * n + d % n && d % n < n
  {
    DivMod(d, n);
  }

  /** An update accounts for all the elapsed time, to less than a tick, exactly when that time fits a C int. */
  lemma UpdateConserves(c: Clock, interval: uint16, t: nat)
    requires 0 < interval && c.rem < interval && t > c.last
    ensures var c' := AfterUpdate(c, interval, t);
            (Ticks(c, interval, t) * interval + c'.rem == t - c.last + c.rem && c'.rem < interval)
            <==> t - c.last + c.rem < 0x8000_0000
  {
    var x: nat := t - c.last + c.rem;
    var diff := ToInt(x);
    ToIntSmall(x);
    if diff >= 0 {
      RestBelow(diff, interval);
      DivModUnique(diff % interval, 0x1_0000, 0, diff % interval);
    }
  }

  /** The longest gap between two updates is below 2^31 ms, about 24 days. */
  ghost predicate Prompt(c: Clock, interval: uint16, times: seq<nat>)
    requires interval > 0
    decreases |times|
  {
    times == [] ||
    (c.last <= times[0] && times[0] - c.last + c.rem < 0x8000_0000
      && Prompt(AfterUpdate(c, interval, times[0]), interval, times[1..]))
  }

  function TotalTicks(c: Clock, interval: uint16, times: seq<nat>): nat
    requires interval > 0
    decreases |times|
  {
    if times == [] then 0
    else Ticks(c, interval, times[0]) + TotalTicks(AfterUpdate(c, interval, times[0]), interval, times[1..])
  }

  function Final(c: Clock, interval: uint16, times: seq<nat>): Clock
    requires interval > 0
    decreases |times|
  {
    if times == [] then c else Final(AfterUpdate(c, interval, times[0]), interval, times[1..])
  }

  /** Over any sequence of updates, the ticks performed and the remainder make up the elapsed time. */
  lemma {:induction false} TimeIsConserved(c: Clock, interval: uint16, times: seq<nat>)
    requires 0 < interval && c.rem < interval && Prompt(c, interval, times)
    ensures var f := Final(c, interval, times);
            && TotalTicks(c, interval, times) * interval + f.rem == f.last - c.last + c.rem
            && f.rem < interval
            && f.last == if times == [] then c.last else times[|times| - 1]
    decreases |times|
  {
    if times != [] {
      var t, c' := times[0], AfterUpdate(c, interval, times[0]);
      if t > c.last {
        UpdateConserves(c, interval, t);
      }
      TimeIsConserved(c', interval, times[1..]);
      Distribute(Ticks(c, interval, t), TotalTicks(c', interval, times[1..]), interval);
    }
  }

  lemma Distribute(a: nat, b: nat, n: nat)
    ensures (a + b) * n == a * n + b * n
  {
  }

  /** However the elapsed time is cut into updates, the number of ticks is the same. */
  lemma CutsDoNotMatter(interval: uint16, t0: nat, times: seq<nat>, times': seq<nat>)
    requires 0 < interval && Prompt(Clock(t0, 0), interval, times) && Prompt(Clock(t0, 0), interval, times')
    requires times != [] && times' != [] && times[|times| - 1] == times'[|times'| - 1]
    ensures TotalTicks(Clock(t0, 0), interval, times) == TotalTicks(Clock(t0, 0), interval, times')
    ensures TotalTicks(Clock(t0, 0), interval, times) == (times[|times| - 1] - t0) / interval
  {
    var c := Clock(t0, 0);
    TimeIsConserved(c, interval, times);
    TimeIsConserved(c, interval, times');
    var f, f' := Final(c, interval, times), Final(c, interval, times');
    DivModUnique(f.last - t0, interval, TotalTicks(c, interval, times), f.rem);
    DivModUnique(f'.last - t0, interval, TotalTicks(c, interval, times'), f'.rem);
  }
}
