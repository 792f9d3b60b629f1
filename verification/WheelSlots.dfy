/** Where the timer wheel of src/core/timer.c keeps a timer, and why that is right.

    The source counts ticks in 32 bits. Here `now` and `due` are the true, unbounded tick counts;
    the source holds now % 2^32 and due % 2^32. The slots are numbered in the order of struct
    timerwheel: 256 of the first wheel, then 64 of each of the four others, then so_long_node. */
module WheelSlots {
  import opened Bits
  import opened Probing

  const SO_LONG: nat := 512
  /** The head on the stack of a cascade or of a tick. */
  const LOCAL: nat := 513

  /** Ticks covered by one slot of wheel i: 2^(8 + 6 i). */
  function Unit(i: nat): (u: nat)
    requires i <= 4
    ensures u > 0
  {
    if i == 0 then 0x100 else if i == 1 then 0x4000 else if i == 2 then 0x10_0000
    else if i == 3 then 0x400_0000 else 0x1_0000_0000
  }

  /** NTH_INDEX. */
  function NthIndex(v: nat, i: nat): (r: nat)
    requires i < 4
    ensures r < 64
  {
    v / Unit(i) % 64
  }

  function WheelSlot(i: nat, j: nat): (s: nat)
    requires i < 4 && j < 64
    ensures 256 <= s < 512
  {
    256 + 64 * i + j
  }

  function LevelOf(s: nat): (i: nat)
    requires 256 <= s < 512
    ensures i < 4
  {
    (s - 256) / 64
  }

  function IndexOf(s: nat): (j: nat)
    requires 256 <= s < 512
    ensures j < 64 && s == WheelSlot(LevelOf(s), j)
  {
    (s - 256) % 64
  }

  /** The last tick at or before due at which wheel i turns. */
  function Boundary(due: nat, i: nat): (b: nat)
    requires i <= 4
    ensures b <= due < b + Unit(i)
  {
    due - due % Unit(i)
  }

  /** A timer due at `due` may sit in slot s at time `now`: the first wheel holds the next 256 ticks by
      their low digits; wheel i holds timers less than 64 of its slots away, by their digit, as long as
      the tick that cascades them is still to come (strictly, or at this very tick if weak). */
  ghost predicate InSlot(due: nat, now: nat, s: nat, weak: bool)
    requires s < 512
  {
    if s < 256 then
      now <= due < now + 256 && due % 256 == s
    else
      var i := LevelOf(s);
      && due < now + Unit(i + 1)
      && NthIndex(due, i) == IndexOf(s)
      && (now < Boundary(due, i) || (weak && now == Boundary(due, i)))
  }

  /** Slot chosen by the loop over the four outer wheels, from wheel i on (lines 63-77). */
  function OuterSlot(idx: uint32, expire: uint32, i: nat): (s: nat)
    requires i <= 4
    ensures s <= SO_LONG
    decreases 4 - i
  {
    if i == 4 then SO_LONG
    else if idx < Unit(i + 1) then WheelSlot(i, NthIndex(expire, i))
    else OuterSlot(idx, expire, i + 1)
  }

  /** Slot chosen for a timer (lines 49-84). */
  function SlotFor(expire: uint32, currtick: uint32): (s: nat)
    ensures s <= SO_LONG
  {
    var idx := (expire - currtick) % TWO_32;
    if idx < 256 then expire % 256 else OuterSlot(idx, expire, 0)
  }

  lemma Distance(due: nat, now: nat)
    requires now <= due < now + TWO_32
    ensures (due % TWO_32 - now % TWO_32) % TWO_32 == due - now
  {
    var a, b := due / TWO_32, now / TWO_32;
    assert due - now == due % TWO_32 - now % TWO_32 + (a - b) * TWO_32;
  }

  lemma DigitModulo(v: nat, q: nat, r: nat, u: nat, k: nat)
    requires u > 0 && v == q * (u * 64 * k) + r
    ensures v / u % 64 == r / u % 64
  {
    DivMod(r, u);
    assert q * (u * 64 * k) == ((q * k) * 64) * u;
    assert v == ((q * k) * 64 + r / u) * u + r % u;
    DivModUnique(v, u, (q * k) * 64 + r / u, r % u);
    ModMultiple(r / u, q * k, 64);
  }

  /** The digits of a tick count survive its truncation to 32 bits. */
  lemma DigitsOf32(v: nat, i: nat)
    requires i < 4
    ensures NthIndex(v % TWO_32, i) == NthIndex(v, i)
    ensures v % TWO_32 % 256 == v % 256
  {
    var q, r := v / TWO_32, v % TWO_32;
    LowDigits(v);
    if i == 0 {
      DigitModulo(v, q, r, 0x100, 0x4_0000);
    } else if i == 1 {
      DigitModulo(v, q, r, 0x4000, 0x1000);
    } else if i == 2 {
      DigitModulo(v, q, r, 0x10_0000, 0x40);
    } else {
      DigitModulo(v, q, r, 0x400_0000, 1);
    }
  }

  /** Counting up or down in 32 bits. */
  lemma WrapAdd(x: int, k: int)
    ensures (x % TWO_32 + k) % TWO_32 == (x + k) % TWO_32
  {
    DivMod(x, TWO_32);
    ModMultiple(x % TWO_32 + k, x / TWO_32, TWO_32);
  }

  lemma LowDigits(v: nat)
    ensures v % TWO_32 % 256 == v % 256
  {
    var q, r := v / TWO_32, v % TWO_32;
    assert v == r + (q * 0x100_0000) * 256;
    ModMultiple(r, q * 0x100_0000, 256);
  }

  lemma BoundaryAhead(due: nat, now: nat, i: nat)
    requires i < 4 && now + Unit(i) <= due
    ensures now < Boundary(due, i)
  {
  }

  lemma LevelOfWheelSlot(i: nat, j: nat)
    requires i < 4 && j < 64
    ensures LevelOf(WheelSlot(i, j)) == i && IndexOf(WheelSlot(i, j)) == j
  {
  }

  lemma OuterSlotIsRight(due: nat, now: nat, i: nat)
    requires i < 4 && now + Unit(i) <= due < now + TWO_32
    ensures var s := OuterSlot(due - now, due % TWO_32, i);
            256 + 64 * i <= s < 512 && InSlot(due, now, s, false)
    decreases 4 - i
  {
    DigitsOf32(due, i);
    if due - now < Unit(i + 1) {
      LevelOfWheelSlot(i, NthIndex(due, i));
      BoundaryAhead(due, now, i);
    } else {
      assert i != 3;
      OuterSlotIsRight(due, now, i + 1);
    }
  }

  /** Every timer less than 2^32 ticks away gets a slot where it may sit; none goes to so_long_node. */
  lemma SlotForIsRight(due: nat, now: nat)
    requires now <= due < now + TWO_32
    ensures var s := SlotFor(due % TWO_32, now % TWO_32);
            s < 512 && InSlot(due, now, s, false) && (due < now + 256 <==> s < 256)
  {
    Distance(due, now);
    DigitsOf32(due, 0);
    if due - now >= 256 {
      OuterSlotIsRight(due, now, 0);
    }
  }

  lemma InSlotWeakens(due: nat, now: nat, s: nat)
    requires s < 512 && InSlot(due, now, s, false)
    ensures InSlot(due, now, s, true)
  {
  }

  /** A tick leaves every timer of the outer wheels in its place, if only just. */
  lemma InSlotNextTick(due: nat, now: nat, s: nat)
    requires s < 512 && InSlot(due, now, s, false) && now < due
    ensures InSlot(due, now + 1, s, true)
  {
  }

  /** The slot of wheel i that a tick at `now` cascades, when it does. */
  ghost predicate Turns(now: nat, s: nat)
    requires 256 <= s < 512
  {
    now % Unit(LevelOf(s)) == 0 && IndexOf(s) == NthIndex(now, LevelOf(s))
  }

  /** Only timers in a slot that turns now can be at their boundary. */
  lemma NotTurning(due: nat, now: nat, s: nat)
    requires 256 <= s < 512 && InSlot(due, now, s, true) && !Turns(now, s)
    ensures InSlot(due, now, s, false)
  {
    var i := LevelOf(s);
    DivMod(due, Unit(i));
    if now == Boundary(due, i) {
      DivModUnique(now, Unit(i), due / Unit(i), 0);
    }
  }

  lemma UnitGrows(i: nat)
    requires i < 4
    ensures Unit(i + 1) == 64 * Unit(i)
  {
  }

  lemma SameDigitClose(due: nat, now: nat, i: nat)
    requires i < 4 && now % Unit(i) == 0 && now <= Boundary(due, i) && due < now + Unit(i + 1)
    requires NthIndex(due, i) == NthIndex(now, i)
    ensures due < now + Unit(i)
  {
    UnitGrows(i);
    SameDigit(due, now, Unit(i));
  }

  lemma SameDigit(due: nat, now: nat, u: nat)
    requires u > 0 && now % u == 0 && now <= due < now + 64 * u && due / u % 64 == now / u % 64
    ensures due < now + u
  {
    var n, d := now / u, due / u;
    DivMod(now, u);
    DivMod(due, u);
    Expand(d, 1, u);
    Expand(n, 64, u);
    Closer(n, d, u);
  }

  lemma Expand(a: nat, b: nat, u: nat)
    ensures (a + b) * u == a * u + b * u
  {
  }

  lemma Closer(n: nat, d: nat, u: nat)
    requires u > 0 && n % 64 == d % 64 && n * u < (d + 1) * u && d * u < (n + 64) * u
    ensures d == n
  {
    assert n < d + 1 by {
      SmallerFactor(n, d + 1, u);
    }
    assert d < n + 64 by {
      SmallerFactor(d, n + 64, u);
    }
  }

  lemma SmallerFactor(a: nat, b: nat, u: nat)
    requires a * u < b * u
    ensures a < b
  {
    if b <= a {
      LargerFactor(b, a, u);
    }
  }

  lemma LargerFactor(a: nat, b: nat, u: nat)
    requires a <= b
    ensures a * u <= b * u
  {
    assert b * u == a * u + (b - a) * u;
  }

  lemma Distribute(m: nat, r: nat, u: nat)
    ensures (64 * m + r) * u == m * (64 * u) + r * u
  {
  }

  /** The last digit of the part below wheel i + 1 is the digit of wheel i. */
  lemma OuterDigit(now: nat, u: nat)
    requires u > 0
    ensures now % (64 * u) == now / u % 64 * u + now % u
  {
    var n := now / u;
    var m, r := n / 64, n % 64;
    DivMod(now, u);
    Distribute(m, r, u);
    LargerFactor(r, 63, u);
    DivModUnique(now, 64 * u, m, r * u + now % u);
  }

  /** A slot that turns holds exactly timers that are due before the next slot of that wheel. */
  lemma TurningIsClose(due: nat, now: nat, s: nat)
    requires 256 <= s < 512 && InSlot(due, now, s, true) && Turns(now, s)
    ensures now <= due < now + Unit(LevelOf(s))
  {
    SameDigitClose(due, now, LevelOf(s));
  }

  /** A slot that turns now is not one where a timer may sit afterwards: the cascade of an outer wheel
      never re-adds into a slot that this tick has already emptied. */
  lemma TurnedStaysEmpty(due: nat, now: nat, s: nat)
    requires 256 <= s < 512 && InSlot(due, now, s, false)
    ensures !Turns(now, s)
  {
    if Turns(now, s) {
      NextBoundary(due, now, Unit(LevelOf(s)));
      SameDigitClose(due, now, LevelOf(s));
    }
  }

  lemma NextBoundary(due: nat, now: nat, u: nat)
    requires u > 0 && now % u == 0 && now < due - due % u
    ensures now + u <= due - due % u
  {
    var n, d := now / u, due / u;
    DivMod(now, u);
    DivMod(due, u);
    SmallerFactor(n, d, u);
    LargerFactor(n + 1, d, u);
  }

  /** The timers due now are those in the current slot of the first wheel. */
  lemma DueNow(due: nat, now: nat, s: nat)
    requires s < 512 && InSlot(due, now, s, false)
    ensures due == now <==> s == now % 256
    ensures now <= due
  {
  }

  /** Wheel i + 1 turns when wheel i turns and its digit is 0 (the loop condition of line 171). */
  lemma NextWheelTurns(now: nat, i: nat)
    requires i < 3 && now % Unit(i) == 0
    ensures now % Unit(i + 1) == 0 <==> NthIndex(now, i) == 0
  {
    UnitGrows(i);
    OuterDigit(now, Unit(i));
  }

  lemma SlowerWheelsRest(now: nat, i: nat, k: nat)
    requires i <= k < 4 && now % Unit(i) != 0
    ensures now % Unit(k) != 0
    decreases k - i
  {
    if i < k {
      UnitDivides(now, i);
      SlowerWheelsRest(now, i + 1, k);
    }
  }

  lemma UnitDivides(now: nat, i: nat)
    requires i < 3 && now % Unit(i) != 0
    ensures now % Unit(i + 1) != 0
  {
    UnitGrows(i);
    OuterDigit(now, Unit(i));
  }
}
