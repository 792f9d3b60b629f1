/** The number theory behind the probe sequence of the hash table: from its first
    bucket the probe moves on by 1, 2, 3, ... buckets, so after t steps it is a
    triangular number away from where it started. */
module Probing {

  function Pow2(m: nat): (r: nat)
    ensures r > 0
  {
    if m == 0 then 1 else 2 * Pow2(m - 1)
  }

  ghost predicate IsPow2(n: nat) {
    exists m: nat :: Pow2(m) == n
  }

  /** Distance travelled after t steps of sizes 1, 2, ..., t. */
  function Tri(t: nat): nat {
    if t == 0 then 0 else Tri(t - 1) + t
  }

  /** The bucket examined at step t of a probe that starts from hash k, in a table of n buckets. */
  function Probe(k: nat, t: nat, n: nat): (b: nat)
    requires n > 0
    ensures b < n
  {
    (k + Tri(t)) % n
  }

  /** One loop step of the source: the next bucket is found from the current one and the step counter alone. */
  lemma ProbeStep(k: nat, t: nat, n: nat)
    requires n > 0
    ensures Probe(k, t + 1, n) == (Probe(k, t, n) + (t + 1)) % n
  {
    ModAdd(k + Tri(t), t + 1, n);
  }

  lemma ModAdd(a: nat, b: nat, n: nat)
    requires n > 0
    ensures (a + b) % n == (a % n + b) % n
  {
    DivMod(a, n);
    ModMultiple(a % n + b, a / n, n);
  }

  lemma MulAtLeast(a: int, n: nat)
    requires a >= 1
    ensures a * n >= n
  {
    assert a * n == n + (a - 1) * n;
  }

  /** Quotient and remainder are determined by x == q * n + r with 0 <= r < n. */
  lemma DivModUnique(x: int, n: nat, q: int, r: nat)
    requires r < n && x == q * n + r
    ensures x / n == q && x % n == r
  {
    var q0, r0 := x / n, x % n;
    assert x == q0 * n + r0;
    assert (q0 - q) * n == r - r0;
    assert (q - q0) * n == r0 - r;
    if q0 > q {
      MulAtLeast(q0 - q, n);
    } else if q0 < q {
      MulAtLeast(q - q0, n);
    }
  }

  lemma DivMod(x: int, n: nat)
    requires n > 0
    ensures x == (x / n) * n + x % n
  {
  }

  lemma ModMultiple(x: int, q: int, n: nat)
    requires n > 0
    ensures (x + q * n) % n == x % n
  {
    DivMod(x, n);
    assert x + q * n == (x / n + q) * n + x % n;
    DivModUnique(x + q * n, n, x / n + q, x % n);
  }

  lemma {:induction false} TriClosed(t: nat)
    ensures 2 * Tri(t) == t * (t + 1)
  {
    if t > 0 {
      TriClosed(t - 1);
    }
  }

  lemma TriDifference(s: nat, t: nat)
    requires s <= t
    ensures Tri(s) <= Tri(t)
    ensures 2 * (Tri(t) - Tri(s)) == (t - s) * (t + s + 1)
  {
    TriClosed(s);
    TriClosed(t);
    assert (t - s) * (t + s + 1) == t * (t + 1) - s * (s + 1);
    assert (t - s) * (t + s + 1) >= 0;
  }

  lemma DoubleMod(x: nat, p: nat)
    requires p > 0
    ensures (2 * x) % (2 * p) == 2 * (x % p)
  {
    DivMod(x, p);
    var q, r := x / p, x % p;
    assert 2 * x == q * (2 * p) + 2 * r by {
      assert q * (2 * p) == 2 * (q * p);
    }
    DivModUnique(2 * x, 2 * p, q, 2 * r);
  }

  /** A power of two that divides a product with an odd factor divides the other factor. */
  lemma {:induction false} OddFactor(m: nat, a: nat, b: nat)
    requires a % 2 == 1
    requires (a * b) % Pow2(m) == 0
    ensures b % Pow2(m) == 0
  {
    if m > 0 {
      var p := Pow2(m - 1);
      EvenProduct(a, b, p);
      var c := b / 2;
      assert b == 2 * c;
      assert a * b == 2 * (a * c);
      DoubleMod(a * c, p);
      OddFactor(m - 1, a, c);
      DoubleMod(c, p);
    }
  }

  lemma EvenProduct(a: nat, b: nat, p: nat)
    requires a % 2 == 1 && p > 0
    requires (a * b) % (2 * p) == 0
    ensures b % 2 == 0
  {
    DivMod(a * b, 2 * p);
    var q := (a * b) / (2 * p);
    assert a * b == q * (2 * p) == 2 * (q * p);
    OddTimes(a, b);
  }

  lemma OddTimes(a: nat, b: nat)
    requires a % 2 == 1
    ensures (a * b) % 2 == b % 2
  {
    var x := a / 2;
    assert a == 2 * x + 1;
    assert a * b == b + 2 * (x * b) by {
      assert (2 * x + 1) * b == 2 * (x * b) + b;
    }
  }

  lemma SameResidue(x: nat, y: nat, n: nat)
    requires n > 0 && x % n == y % n
    ensures (y - x) % n == 0
  {
    DivMod(x, n);
    DivMod(y, n);
    var a, b := x / n, y / n;
    assert y - x == b * n - a * n == (b - a) * n + 0;
    DivModUnique(y - x, n, b - a, 0);
  }

  /** If n = 2^m divides T(t) - T(s), then 2n divides t - s or t + s + 1. */
  lemma TriCongruent(m: nat, s: nat, t: nat)
    requires s <= t
    requires Tri(s) % Pow2(m) == Tri(t) % Pow2(m)
    ensures (t - s) % (2 * Pow2(m)) == 0 || (t + s + 1) % (2 * Pow2(m)) == 0
  {
    var n := Pow2(m);
    var u, v := t - s, t + s + 1;
    TriDifference(s, t);
    var d := Tri(t) - Tri(s);
    SameResidue(Tri(s), Tri(t), n);
    DoubleMod(d, n);
    assert (u * v) % Pow2(m + 1) == 0;
    ParityOfFactors(s, t);
    if u % 2 == 1 {
      OddFactor(m + 1, u, v);
    } else {
      assert v * u == u * v;
      OddFactor(m + 1, v, u);
    }
  }

  lemma ParityOfFactors(s: nat, t: nat)
    requires s <= t
    ensures (t - s) % 2 == 1 || (t + s + 1) % 2 == 1
  {
    assert t + s + 1 == (t - s) + 2 * s + 1;
  }

  lemma SmallMultiple(x: nat, n: nat)
    requires x < n && x % n == 0
    ensures x == 0
  {
    DivModUnique(x, n, 0, x);
  }

  /** The first n steps of a probe examine n different buckets. */
  lemma ProbeInjective(m: nat, k: nat, s: nat, t: nat)
    requires s < t < Pow2(m)
    ensures Probe(k, s, Pow2(m)) != Probe(k, t, Pow2(m))
  {
    var n := Pow2(m);
    if Probe(k, s, n) == Probe(k, t, n) {
      CancelHash(k, Tri(s), Tri(t), n);
      TriCongruent(m, s, t);
      if (t - s) % (2 * n) == 0 {
        SmallMultiple(t - s, 2 * n);
      } else {
        SmallMultiple(t + s + 1, 2 * n);
      }
    }
  }

  lemma CancelHash(k: nat, x: nat, y: nat, n: nat)
    requires n > 0 && (k + x) % n == (k + y) % n
    ensures x % n == y % n
  {
    SameResidue(k + x, k + y, n);
    assert k + y - (k + x) == y - x;
    Congruent(x, y, n);
  }

  lemma Congruent(x: int, y: int, n: nat)
    requires n > 0 && (y - x) % n == 0
    ensures x % n == y % n
  {
    var q := (y - x) / n;
    DivMod(y - x, n);
    assert x + q * n == y;
    ModMultiple(x, q, n);
  }

  /** The buckets examined by the first t steps. */
  ghost function Examined(k: nat, t: nat, n: nat): set<nat>
    requires n > 0
  {
    set s | 0 <= s < t :: Probe(k, s, n)
  }

  /** The first n naturals. */
  ghost function Below(n: nat): (r: set<nat>)
    ensures forall i: nat :: i in r <==> i < n
    ensures |r| == n
  {
    if n == 0 then {} else Below(n - 1) + {n - 1}
  }

  lemma {:induction false} ExaminedSize(m: nat, k: nat, t: nat)
    requires t <= Pow2(m)
    ensures |Examined(k, t, Pow2(m))| == t
  {
    var n := Pow2(m);
    if t > 0 {
      ExaminedSize(m, k, t - 1);
      var b := Probe(k, t - 1, n);
      assert Examined(k, t, n) == Examined(k, t - 1, n) + {b};
      if b in Examined(k, t - 1, n) {
        var s :| 0 <= s < t - 1 && Probe(k, s, n) == b;
        ProbeInjective(m, k, s, t - 1);
        assert false;
      }
    } else {
      assert Examined(k, 0, n) == {};
    }
  }

  lemma SubsetOfSameSize<T>(a: set<T>, b: set<T>)
    requires a <= b && |a| == |b|
    ensures a == b
  {
    assert |b - a| == |b| - |a|;
    assert b - a == {};
  }

  /** Triangular probing covers the table: in a table of 2^m buckets, the first 2^m steps
      examine every bucket. */
  lemma ProbeCovers(m: nat, k: nat, b: nat) returns (t: nat)
    requires b < Pow2(m)
    ensures t < Pow2(m) && Probe(k, t, Pow2(m)) == b
  {
    var n := Pow2(m);
    ExaminedSize(m, k, n);
    SubsetOfSameSize(Examined(k, n, n), Below(n));
    assert b in Examined(k, n, n);
    t :| 0 <= t < n && Probe(k, t, n) == b;
  }

  /** The probe is back at its first bucket for the first time at step 2n - 1: the exit
      of the source's loops on `i == last` is taken only after 2n - 1 >= n steps, when every bucket
      has been examined. */
  lemma FirstReturn(m: nat, k: nat, t: nat)
    requires 0 < t
    ensures Probe(k, t, Pow2(m)) == Probe(k, 0, Pow2(m)) ==> t >= 2 * Pow2(m) - 1
    ensures t == 2 * Pow2(m) - 1 ==> Probe(k, t, Pow2(m)) == Probe(k, 0, Pow2(m))
  {
    var n := Pow2(m);
    if Probe(k, t, n) == Probe(k, 0, n) && t < 2 * n - 1 {
      CancelHash(k, 0, Tri(t), n);
      TriCongruent(m, 0, t);
      if t % (2 * n) == 0 {
        SmallMultiple(t, 2 * n);
      } else {
        SmallMultiple(t + 1, 2 * n);
      }
    }
    if t == 2 * n - 1 {
      LastStep(k, t, n);
    }
  }

  lemma LastStep(k: nat, t: nat, n: nat)
    requires n > 0 && t == 2 * n - 1
    ensures (k + Tri(t)) % n == k % n
  {
    TriClosed(t);
    assert t * (t + 1) == t * (2 * n) == 2 * (t * n);
    assert Tri(t) == t * n;
    ModMultiple(k, t, n);
  }
}
