/** Unsigned 32-bit arithmetic on natural numbers: bitwise operators by recursion on
    the binary digits, masks, and the round-up to a power of two of include/khash.h. */
module Bits {
  import opened Probing

  const TWO_32: nat := 0x1_0000_0000

  type uint16 = x: int | 0 <= x < 0x1_0000

  type uint32 = x: int | 0 <= x < 0x1_0000_0000

  function And(x: nat, y: nat): nat {
    if x == 0 || y == 0 then 0
    else 2 * And(x / 2, y / 2) + (if x % 2 == 1 && y % 2 == 1 then 1 else 0)
  }

  function Or(x: nat, y: nat): nat
    decreases x + y
  {
    if x == 0 then y
    else if y == 0 then x
    else 2 * Or(x / 2, y / 2) + (if x % 2 == 1 || y % 2 == 1 then 1 else 0)
  }

  /** x & ~y. */
  function AndNot(x: nat, y: nat): (r: nat)
    ensures r <= x
  {
    if x == 0 then 0
    else if y == 0 then x
    else 2 * AndNot(x / 2, y / 2) + (if x % 2 == 1 && y % 2 == 0 then 1 else 0)
  }

  lemma {:induction false} QuotientIsNat(x: nat, n: nat)
    requires n > 0
    ensures 0 <= x / n <= x
  {
    if x < n {
      DivModUnique(x, n, 0, x);
    } else {
      var q := (x - n) / n;
      QuotientIsNat(x - n, n);
      DivMod(x - n, n);
      assert (q + 1) * n == q * n + n;
      DivModUnique(x, n, q + 1, (x - n) % n);
    }
  }

  function ShiftRight(x: nat, k: nat): (r: nat)
    ensures r <= x
  {
    QuotientIsNat(x, Pow2(k));
    x / Pow2(k)
  }

  lemma Pow2Of32()
    ensures Pow2(32) == TWO_32
  {
    assert Pow2(8) == 256;
    Pow2Add(8, 8);
    Pow2Add(16, 16);
  }

  lemma {:induction false} Pow2Add(a: nat, b: nat)
    ensures Pow2(a + b) == Pow2(a) * Pow2(b)
  {
    if a > 0 {
      Pow2Add(a - 1, b);
    }
  }

  lemma {:induction false} Pow2Monotonic(a: nat, b: nat)
    requires a <= b
    ensures Pow2(a) <= Pow2(b)
  {
    if a < b {
      Pow2Monotonic(a, b - 1);
    }
  }

  /** x & (2^m - 1) is the remainder modulo 2^m. */
  lemma {:induction false} AndMask(x: nat, m: nat)
    ensures And(x, Pow2(m) - 1) == x % Pow2(m)
  {
    if x == 0 {
      DivModUnique(0, Pow2(m), 0, 0);
    } else if m > 0 {
      var p := Pow2(m - 1);
      assert (2 * p - 1) / 2 == p - 1 && (2 * p - 1) % 2 == 1;
      AndMask(x / 2, m - 1);
      HalveMod(x, p);
      if m == 1 {
        assert And(x / 2, 0) == 0;
      }
    }
  }

  lemma HalveMod(x: nat, p: nat)
    requires p > 0
    ensures x % (2 * p) == 2 * ((x / 2) % p) + x % 2
  {
    var h := x / 2;
    DivMod(h, p);
    var q, r := h / p, h % p;
    assert x == q * (2 * p) + (2 * r + x % 2) by {
      assert q * (2 * p) == 2 * (q * p);
    }
    DivModUnique(x, 2 * p, q, 2 * r + x % 2);
  }

  // ---- rounding up to a power of two -------------------------------------------------

  function Smear(x: nat, k: nat): nat {
    Or(x, ShiftRight(x, k))
  }

  function MinusOne(x: uint32): uint32 {
    (x - 1) % TWO_32
  }

  function PlusOne(x: nat): uint32 {
    (x + 1) % TWO_32
  }

  /** The macro kroundup32: decrement, five smearing steps, increment, in 32-bit arithmetic. */
  function KRoundUp32(x: uint32): uint32 {
    PlusOne(SmearAll(MinusOne(x)))
  }

  /** The five steps x |= x >> 1, ..., x |= x >> 16 of the macro. */
  function SmearAll(a: nat): nat {
    SmearFrom(a, 1)
  }

  function SmearFrom(a: nat, k: nat): nat
    requires k > 0
    decreases 32 - k
  {
    if k > 16 then a else SmearFrom(Smear(a, k), 2 * k)
  }

  lemma FiveSteps(a: nat)
    ensures SmearAll(a) == Smear(Smear(Smear(Smear(Smear(a, 1), 2), 4), 8), 16)
  {
    var b := Smear(a, 1);
    var c := Smear(b, 2);
    var d := Smear(c, 4);
    var e := Smear(d, 8);
    assert SmearFrom(e, 16) == Smear(e, 16);
    assert SmearFrom(c, 4) == SmearFrom(d, 8) == SmearFrom(e, 16);
    assert SmearFrom(a, 1) == SmearFrom(b, 2) == SmearFrom(c, 4);
  }

  lemma {:induction false} OrBounds(x: nat, y: nat, n: nat)
    requires x < Pow2(n) && y < Pow2(n)
    ensures x <= Or(x, y) < Pow2(n)
    decreases x + y
  {
    if x != 0 && y != 0 {
      assert n > 0;
      OrBounds(x / 2, y / 2, n - 1);
    }
  }

  lemma {:induction false} OrHigh(x: nat, y: nat, q: nat)
    ensures ShiftRight(Or(x, y), q) == Or(ShiftRight(x, q), ShiftRight(y, q))
    decreases q
  {
    if q > 0 {
      ShiftOnce(x, q);
      ShiftOnce(y, q);
      ShiftOnce(Or(x, y), q);
      OrDigit(x, y);
      OrHigh(x / 2, y / 2, q - 1);
    } else {
      assert Pow2(0) == 1;
    }
  }

  /** One binary digit of x | y. */
  lemma OrDigit(x: nat, y: nat)
    ensures Or(x, y) / 2 == Or(x / 2, y / 2)
    ensures Or(x, y) % 2 == if x % 2 == 1 || y % 2 == 1 then 1 else 0
  {
  }

  /** One binary digit of x & ~y. */
  lemma AndNotDigit(x: nat, y: nat)
    ensures AndNot(x, y) / 2 == AndNot(x / 2, y / 2)
    ensures AndNot(x, y) % 2 == if x % 2 == 1 && y % 2 == 0 then 1 else 0
  {
  }

  lemma ShiftOnce(x: nat, q: nat)
    requires q > 0
    ensures ShiftRight(x, q) == ShiftRight(x / 2, q - 1)
  {
    var p := Pow2(q - 1);
    var h := x / 2;
    DivMod(h, p);
    assert x == (h / p) * (2 * p) + (2 * (h % p) + x % 2) by {
      assert (h / p) * (2 * p) == 2 * ((h / p) * p);
    }
    DivModUnique(x, 2 * p, h / p, 2 * (h % p) + x % 2);
  }

  lemma {:induction false} ShiftTwice(x: nat, a: nat, b: nat)
    ensures ShiftRight(ShiftRight(x, a), b) == ShiftRight(x, a + b)
    decreases a
  {
    if a == 0 {
      assert Pow2(0) == 1;
      assert ShiftRight(x, 0) == x;
    } else {
      ShiftOnce(x, a);
      ShiftTwice(x / 2, a - 1, b);
      ShiftOnce(x, a + b);
    }
  }

  lemma OrOdd(u: nat, p: nat)
    requires p > 0
    ensures Or(u, 2 * p - 1) == 2 * Or(u / 2, p - 1) + 1
  {
    assert (2 * p - 1) / 2 == p - 1 && (2 * p - 1) % 2 == 1;
  }

  /** Or-ing s ones into the low end of u fills its low s digits. */
  lemma {:induction false} OrOnes(u: nat, s: nat)
    ensures Or(u, Pow2(s) - 1) == ShiftRight(u, s) * Pow2(s) + Pow2(s) - 1
    decreases s
  {
    if s == 0 {
      assert Pow2(0) == 1;
      assert u / 1 == u;
    } else {
      var p := Pow2(s - 1);
      OrOdd(u, p);
      OrOnes(u / 2, s - 1);
      ShiftOnce(u, s);
      OneMoreOne(Or(u / 2, p - 1), ShiftRight(u, s), p, Pow2(s));
    }
  }

  lemma OneMoreOne(o: int, h: int, p: int, q: int)
    requires o == h * p + p - 1 && q == 2 * p
    ensures 2 * o + 1 == h * q + q - 1
  {
    assert h * (2 * p) == 2 * (h * p);
  }

  lemma OnesShifted(w: nat, k: nat)
    requires k <= w
    ensures ShiftRight(Pow2(w) - 1, k) == Pow2(w - k) - 1
  {
    var a, p := Pow2(w - k), Pow2(k);
    Pow2Add(w - k, k);
    OneMore(a, p);
    DivModUnique(Pow2(w) - 1, p, a - 1, p - 1);
  }

  /** The top w of the n binary digits of x are ones. */
  ghost predicate TopOnes(x: nat, n: nat, w: nat)
    requires w <= n
  {
    x < Pow2(n) && ShiftRight(x, n - w) == Pow2(w) - 1
  }

  /** A smearing step by w doubles a run of w leading ones. */
  lemma SmearTopOnes(x: nat, n: nat, w: nat, w': nat)
    requires w <= w' <= 2 * w && w' <= n
    requires TopOnes(x, n, w)
    ensures TopOnes(Smear(x, w), n, w')
  {
    var q, s := n - w', w' - w;
    var u := ShiftRight(x, q);
    ShiftTwice(x, q, s);
    assert ShiftRight(u, s) == Pow2(w) - 1;
    assert ShiftRight(u, w) == Pow2(s) - 1 by {
      ShiftTwice(u, s, w - s);
      OnesShifted(w, w - s);
    }
    assert ShiftRight(ShiftRight(x, w), q) == ShiftRight(u, w) by {
      ShiftTwice(x, w, q);
      ShiftTwice(x, q, w);
    }
    OrHigh(x, ShiftRight(x, w), q);
    FillOnes(u, w, s);
    ShiftSmaller(x, w);
    OrBounds(x, ShiftRight(x, w), n);
  }

  lemma FillOnes(u: nat, w: nat, s: nat)
    requires ShiftRight(u, s) == Pow2(w) - 1
    ensures Or(u, Pow2(s) - 1) == Pow2(w + s) - 1
  {
    OrOnes(u, s);
    Pow2Add(w, s);
    OneMore(Pow2(w), Pow2(s));
  }

  lemma OneMore(g: nat, h: nat)
    ensures (g - 1) * h + h == g * h
  {
  }

  lemma ShiftSmaller(x: nat, w: nat)
    ensures ShiftRight(x, w) <= x
  {
    QuotientIsNat(x, Pow2(w));
  }

  /** When all n digits are ones, smearing changes nothing. */
  lemma SmearAllOnes(n: nat, k: nat)
    ensures Smear(Pow2(n) - 1, k) == Pow2(n) - 1
  {
    ShiftSmaller(Pow2(n) - 1, k);
    OrBounds(Pow2(n) - 1, ShiftRight(Pow2(n) - 1, k), n);
  }

  function Min(a: nat, b: nat): nat {
    if a < b then a else b
  }

  lemma SmearStep(x: nat, n: nat, w: nat)
    requires w > 0
    requires TopOnes(x, n, Min(w, n))
    ensures TopOnes(Smear(x, w), n, Min(2 * w, n))
  {
    if w <= n {
      SmearTopOnes(x, n, w, Min(2 * w, n));
    } else {
      assert Pow2(0) == 1;
      assert ShiftRight(x, 0) == x == Pow2(n) - 1;
      SmearAllOnes(n, w);
      assert ShiftRight(Pow2(n) - 1, 0) == Pow2(n) - 1;
    }
  }

  lemma LeadingOne(x: nat, n: nat)
    requires n > 0 && Pow2(n - 1) <= x < Pow2(n)
    ensures TopOnes(x, n, 1)
  {
    var p := Pow2(n - 1);
    DivModUnique(x, p, 1, x - p);
    assert Pow2(1) == 2;
  }

  lemma SmearAllFills(a: nat, n: nat)
    requires 0 < n <= 32 && Pow2(n - 1) <= a < Pow2(n)
    ensures SmearAll(a) == Pow2(n) - 1
  {
    LeadingOne(a, n);
    var b := Smear(a, 1);
    SmearStep(a, n, 1);
    var c := Smear(b, 2);
    SmearStep(b, n, 2);
    var d := Smear(c, 4);
    SmearStep(c, n, 4);
    var e := Smear(d, 8);
    SmearStep(d, n, 8);
    SmearStep(e, n, 16);
    ShiftByZero(Smear(e, 16));
    FiveSteps(a);
  }

  lemma ShiftByZero(x: nat)
    ensures ShiftRight(x, 0) == x
  {
    assert Pow2(0) == 1;
  }

  lemma SmearOfZero(k: nat)
    ensures Smear(0, k) == 0
  {
    DivModUnique(0, Pow2(k), 0, 0);
  }

  lemma SmearAllZero()
    ensures SmearAll(0) == 0
  {
    SmearOfZero(1);
    SmearOfZero(2);
    SmearOfZero(4);
    SmearOfZero(8);
    SmearOfZero(16);
    FiveSteps(0);
  }

  lemma NoWrap(x: uint32, p: nat)
    requires 0 < x && 0 < p < TWO_32
    ensures MinusOne(x) == x - 1 && PlusOne(p - 1) == p
  {
    DivModUnique(x - 1, TWO_32, 0, x - 1);
    DivModUnique(p, TWO_32, 0, p);
  }

  /** kroundup32 returns the least power of two that is not below x, for every x
      from 1 to 2^31 (2^n with 2^(n-1) < x <= 2^n). */
  lemma KRoundUp32IsLeastPow2(x: uint32, n: nat)
    requires n < 32
    requires x <= Pow2(n) && (n > 0 ==> Pow2(n - 1) < x) && x > 0
    ensures KRoundUp32(x) == Pow2(n)
  {
    if n == 0 {
      assert Pow2(0) == 1;
      SmearAllZero();
    } else {
      SmearAllFills(x - 1, n);
    }
    Pow2Below32(n);
    NoWrap(x, Pow2(n));
  }

  /** In 32-bit arithmetic the round-up of 0 wraps around to 0. */
  lemma KRoundUp32OfZero()
    ensures KRoundUp32(0) == 0
  {
    Pow2Of32();
    assert (0 - 1) % TWO_32 == TWO_32 - 1;
    assert Pow2(32) == 2 * Pow2(31);
    SmearAllFills(TWO_32 - 1, 32);
  }

  lemma Pow2Below32(n: nat)
    requires n < 32
    ensures Pow2(n) < TWO_32
  {
    Pow2Of32();
    Pow2Monotonic(n, 31);
  }

  /** Every x from 1 to 2^31 lies between two consecutive powers of two. */
  lemma {:induction false} Pow2Above(x: nat, k: nat) returns (n: nat)
    requires 0 < x <= Pow2(k)
    ensures n <= k && x <= Pow2(n) && (n > 0 ==> Pow2(n - 1) < x)
  {
    if k == 0 || Pow2(k - 1) < x {
      n := k;
    } else {
      n := Pow2Above(x, k - 1);
    }
  }
}
