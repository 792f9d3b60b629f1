/** The flag words of include/khash.h: two bits a bucket, sixteen buckets a 32-bit word. */
module Flags {
  import opened Bits
  import opened Probing

  /** What the two bits of a bucket say. */
  datatype Flag = Flag(empty: bool, del: bool) {
    predicate Either() {
      empty || del
    }

    predicate Live() {
      !Either()
    }
  }

  const EMPTY := Flag(true, false)
  const LIVE := Flag(false, false)

  /** Sixteen empty buckets: every byte 0xaa. */
  const ALL_EMPTY: uint32 := 0xaaaa_aaaa

  /** Number of words that hold the flags of m buckets. */
  function FSize(m: nat): nat {
    if m < 16 then 1 else m / 16
  }

  /** The two bits of bucket j of a word: w >> (2 * j), tested against 2 and 1. */
  function FlagOf(w: nat, j: nat): Flag {
    if j == 0 then Flag(w / 2 % 2 == 1, w % 2 == 1) else FlagOf(w / 4, j - 1)
  }

  /** Bits b moved to the place of bucket j: b << (2 * j). */
  function Shifted(b: nat, j: nat): nat {
    if j == 0 then b else 4 * Shifted(b, j - 1)
  }

  lemma {:induction false} ShiftedBound(b: nat, j: nat)
    requires b <= 3
    ensures Shifted(b, j) < Pow2(2 * j + 2)
  {
    if j > 0 {
      ShiftedBound(b, j - 1);
      assert Pow2(2 * j + 2) == 2 * Pow2(2 * j + 1) == 4 * Pow2(2 * j);
    } else {
      assert Pow2(2) == 2 * Pow2(1) == 4;
    }
  }

  /** x |= y on 32-bit words, y being a flag mask. */
  function Or32(x: uint32, y: nat): (r: uint32)
    requires y < TWO_32
  {
    Pow2Of32();
    OrBounds(x, y, 32);
    Or(x, y)
  }

  /** In a fresh word every bucket is empty. */
  lemma FreshWord(j: nat)
    requires j < 16
    ensures FlagOf(ALL_EMPTY, j) == EMPTY
  {
    assert Shifted(1, 4) == 256;
    assert Shifted(1, 8) == 0x1_0000;
    assert Shifted(1, 12) == 0x100_0000;
    assert Shifted(1, 16) == TWO_32;
    FreshPairs(ALL_EMPTY, 16, j);
  }

  /** 2 * (4^n - 1) / 3 is n pairs of bits 10. */
  lemma {:induction false} FreshPairs(w: nat, n: nat, j: nat)
    requires 3 * w == 2 * (Shifted(1, n) - 1) && j < n
    ensures FlagOf(w, j) == EMPTY
  {
    FirstPair(w, Shifted(1, n - 1));
    if j > 0 {
      FreshPairs(w / 4, n - 1, j - 1);
    } else {
      LowFlag(w, w / 4, 2);
    }
  }

  lemma FirstPair(w: nat, s: nat)
    requires 3 * w == 2 * (4 * s - 1)
    ensures w == 4 * (w / 4) + 2 && 3 * (w / 4) == 2 * (s - 1)
  {
    var t := (s - 1) / 3;
    assert s == 3 * t + 1 && w == 8 * t + 2;
    DivModUnique(w, 4, 2 * t, 2);
  }

  lemma Doubled(x: nat)
    ensures 2 * x / 2 == x && 2 * x % 2 == 0
  {
  }

  /** The low two digits of a word, and the rest. */
  lemma TwoDigits(w: nat)
    ensures w / 4 == w / 2 / 2 && w % 4 == 2 * (w / 2 % 2) + w % 2
  {
  }

  lemma OrDoubled(w: nat, x: nat)
    ensures Or(w, 2 * x) / 2 == Or(w / 2, x) && Or(w, 2 * x) % 2 == w % 2
  {
    OrDigit(w, 2 * x);
    Doubled(x);
  }

  lemma AndNotDoubled(w: nat, x: nat)
    ensures AndNot(w, 2 * x) / 2 == AndNot(w / 2, x) && AndNot(w, 2 * x) % 2 == w % 2
  {
    AndNotDigit(w, 2 * x);
    Doubled(x);
  }

  lemma OrTwice(w: nat, x: nat)
    ensures Or(w, 4 * x) / 4 == Or(w / 4, x)
    ensures Or(w, 4 * x) % 4 == w % 4
  {
    OrDoubled(w, 2 * x);
    OrDoubled(w / 2, x);
    TwoDigits(w);
    TwoDigits(Or(w, 4 * x));
    assert 2 * (2 * x) == 4 * x;
  }

  lemma AndNotTwice(w: nat, x: nat)
    ensures AndNot(w, 4 * x) / 4 == AndNot(w / 4, x)
    ensures AndNot(w, 4 * x) % 4 == w % 4
  {
    AndNotDoubled(w, 2 * x);
    AndNotDoubled(w / 2, x);
    TwoDigits(w);
    TwoDigits(AndNot(w, 4 * x));
    assert 2 * (2 * x) == 4 * x;
  }

  /** The low two bits of a word are the flag of its first bucket. */
  lemma LowBits(w: nat, v: nat)
    requires w % 4 == v % 4
    ensures FlagOf(w, 0) == FlagOf(v, 0)
  {
  }

  lemma OrOne(w: nat)
    ensures Or(w, 1) / 4 == w / 4
    ensures FlagOf(Or(w, 1), 0) == FlagOf(w, 0).(del := true)
  {
    OrDigit(w, 1);
    TwoDigits(w);
    TwoDigits(Or(w, 1));
  }

  lemma LowFlag(w: nat, h: nat, b: nat)
    requires b < 4 && w == 4 * h + b
    ensures w / 4 == h && FlagOf(w, 0) == Flag(b >= 2, b % 2 == 1)
  {
  }

  lemma AndNotTwo(w: nat)
    ensures AndNot(w, 2) / 4 == w / 4
    ensures FlagOf(AndNot(w, 2), 0) == FlagOf(w, 0).(empty := false)
  {
    AndNotDigit(w, 2);
    AndNotDigit(w / 2, 1);
    TwoDigits(w);
    TwoDigits(AndNot(w, 2));
  }

  lemma AndNotThree(w: nat)
    ensures AndNot(w, 3) / 4 == w / 4
    ensures FlagOf(AndNot(w, 3), 0) == LIVE
  {
    AndNotDigit(w, 3);
    AndNotDigit(w / 2, 1);
    TwoDigits(w);
    TwoDigits(AndNot(w, 3));
  }

  /** Setting the "deleted" bit of a bucket changes no other bit of the word. */
  lemma {:induction false} SetDelAt(w: nat, j: nat, k: nat)
    ensures FlagOf(Or(w, Shifted(1, j)), k) == if k == j then FlagOf(w, k).(del := true) else FlagOf(w, k)
  {
    if j == 0 {
      OrOne(w);
    } else {
      OrTwice(w, Shifted(1, j - 1));
      if k > 0 {
        SetDelAt(w / 4, j - 1, k - 1);
      } else {
        LowBits(w, Or(w, Shifted(1, j)));
      }
    }
  }

  lemma {:induction false} ClearEmptyAt(w: nat, j: nat, k: nat)
    ensures FlagOf(AndNot(w, Shifted(2, j)), k) == if k == j then FlagOf(w, k).(empty := false) else FlagOf(w, k)
  {
    if j == 0 {
      AndNotTwo(w);
    } else {
      AndNotTwice(w, Shifted(2, j - 1));
      if k > 0 {
        ClearEmptyAt(w / 4, j - 1, k - 1);
      } else {
        LowBits(w, AndNot(w, Shifted(2, j)));
      }
    }
  }

  lemma {:induction false} ClearBothAt(w: nat, j: nat, k: nat)
    ensures FlagOf(AndNot(w, Shifted(3, j)), k) == if k == j then LIVE else FlagOf(w, k)
  {
    if j == 0 {
      AndNotThree(w);
    } else {
      AndNotTwice(w, Shifted(3, j - 1));
      if k > 0 {
        ClearBothAt(w / 4, j - 1, k - 1);
      } else {
        LowBits(w, AndNot(w, Shifted(3, j)));
      }
    }
  }

  lemma MaskFits(b: nat, j: nat)
    requires b <= 3 && j < 16
    ensures Shifted(b, j) < TWO_32
  {
    ShiftedBound(b, j);
    Pow2Monotonic(2 * j + 2, 32);
    Pow2Of32();
  }

  /** An array of flag words, with the flags it stands for. */
  class FlagArray {
    const words: array<uint32>
    ghost var view: seq<Flag>

    ghost predicate Valid()
      reads this, words
    {
      && |view| <= 16 * words.Length
      && forall i: nat {:trigger At(i)} :: i < |view| ==> At(i) == view[i]
    }

    /** The two bits of bucket i. */
    ghost function At(i: nat): Flag
      requires i < 16 * words.Length
      reads words
    {
      FlagOf(words[i / 16], i % 16)
    }

    /** The flag array allocated by kh_resize, n buckets all empty. */
    constructor (n: nat)
      requires n < 16 || n % 16 == 0
      ensures Valid() && fresh(words) && words.Length == FSize(n)
      ensures |view| == n && forall i :: 0 <= i < n ==> view[i] == EMPTY
    {
      words := new uint32[FSize(n)](_ => ALL_EMPTY);
      view := seq(n, _ => EMPTY);
      new;
      forall i: nat | i < n ensures At(i) == EMPTY {
        FreshWord(i % 16);
      }
    }

    /** __ac_isempty. */
    predicate IsEmpty(i: nat)
      requires Valid() && i < |view|
      reads this, words
      ensures IsEmpty(i) == view[i].empty
    {
      assert At(i) == view[i];
      FlagOf(words[i / 16], i % 16).empty
    }

    /** __ac_isdel. */
    predicate IsDel(i: nat)
      requires Valid() && i < |view|
      reads this, words
      ensures IsDel(i) == view[i].del
    {
      assert At(i) == view[i];
      FlagOf(words[i / 16], i % 16).del
    }

    /** __ac_iseither. */
    predicate IsEither(i: nat)
      requires Valid() && i < |view|
      reads this, words
      ensures IsEither(i) == view[i].Either()
    {
      assert At(i) == view[i];
      FlagOf(words[i / 16], i % 16).Either()
    }

    /** __ac_set_isdel_true. */
    method SetIsDelTrue(i: nat)
      requires Valid() && i < |view|
      modifies this, words
      ensures Valid() && view == old(view)[i := old(view)[i].(del := true)]
    {
      assert At(i) == view[i];
      MaskFits(1, i % 16);
      words[i / 16] := Or32(words[i / 16], Shifted(1, i % 16));
      view := view[i := view[i].(del := true)];
      forall k: nat | k < |view| ensures At(k) == view[k] {
        assert old(At(k)) == old(view[k]);
        SetDelAt(old(words[i / 16]), i % 16, k % 16);
        assert i / 16 == k / 16 && i % 16 == k % 16 ==> i == k;
      }
    }

    /** __ac_set_isempty_false. */
    method SetIsEmptyFalse(i: nat)
      requires Valid() && i < |view|
      modifies this, words
      ensures Valid() && view == old(view)[i := old(view)[i].(empty := false)]
    {
      assert At(i) == view[i];
      words[i / 16] := AndNot(words[i / 16], Shifted(2, i % 16));
      view := view[i := view[i].(empty := false)];
      forall k: nat | k < |view| ensures At(k) == view[k] {
        assert old(At(k)) == old(view[k]);
        ClearEmptyAt(old(words[i / 16]), i % 16, k % 16);
        assert i / 16 == k / 16 && i % 16 == k % 16 ==> i == k;
      }
    }

    /** __ac_set_isboth_false. */
    method SetIsBothFalse(i: nat)
      requires Valid() && i < |view|
      modifies this, words
      ensures Valid() && view == old(view)[i := LIVE]
    {
      assert At(i) == view[i];
      words[i / 16] := AndNot(words[i / 16], Shifted(3, i % 16));
      view := view[i := LIVE];
      forall k: nat | k < |view| ensures At(k) == view[k] {
        assert old(At(k)) == old(view[k]);
        ClearBothAt(old(words[i / 16]), i % 16, k % 16);
        assert i / 16 == k / 16 && i % 16 == k % 16 ==> i == k;
      }
    }
  }
}
