/** The hash table of include/khash.h with 32-bit keys hashed to themselves
    (KHASH_MAP_INIT_INT), and the add-if-absent wrappers of include/hash.h over it. */
module Khash {
  import opened Bits
  import opened Flags
  import opened Probing
  import opened Table
  import opened Options

  /** Size of the table that kh_resize(newN) asks for. */
  function Target(newN: uint32): uint32 {
    if KRoundUp32(newN) < 4 then 4 else KRoundUp32(newN)
  }

  lemma TargetIsPow2(newN: uint32)
    requires newN <= 0x8000_0000
    ensures IsPow2(Target(newN)) && 4 <= Target(newN) <= 0x8000_0000
    ensures newN <= Target(newN)
    ensures forall p: nat :: IsPow2(p) && newN <= p && 4 <= p ==> Target(newN) <= p
    ensures Upper(Target(newN)) < Target(newN)
    ensures Target(newN) < 16 || Target(newN) % 16 == 0
  {
    var n := TargetPower(newN);
    forall p: nat | IsPow2(p) && newN <= p && 4 <= p ensures Target(newN) <= p {
      var k: nat :| Pow2(k) == p;
      if k < n {
        Pow2Monotonic(k, n - 1);
      } else {
        Pow2Monotonic(n, k);
      }
    }
    WholeWords(n);
  }

  lemma TargetPower(newN: uint32) returns (n: nat)
    requires newN <= 0x8000_0000
    ensures Target(newN) == Pow2(n) && newN <= Pow2(n) && 4 <= Pow2(n) <= 0x8000_0000
    ensures n > 2 ==> Pow2(n - 1) < newN
    ensures n <= 2 ==> Pow2(n) == 4
  {
    TwoTo31();
    n := 0;
    if newN == 0 {
      KRoundUp32OfZero();
    } else {
      n := Pow2Above(newN, 31);
      KRoundUp32IsLeastPow2(newN, n);
    }
    Pow2Monotonic(n, 31);
    assert Pow2(2) == 2 * Pow2(1) == 4 * Pow2(0) == 4;
    if n < 2 {
      Pow2Monotonic(n, 1);
      n := 2;
    } else {
      Pow2Monotonic(2, n);
    }
  }

  lemma TwoTo31()
    ensures Pow2(31) == 0x8000_0000
  {
    Pow2Of32();
    assert Pow2(32) == 2 * Pow2(31);
  }

  lemma WholeWords(n: nat)
    ensures Pow2(n) < 16 || Pow2(n) % 16 == 0
  {
    if n >= 4 {
      Pow2Add(n - 4, 4);
      assert Pow2(4) == 16;
      DivModUnique(Pow2(n), 16, Pow2(n - 4), 0);
    } else {
      Pow2Monotonic(n, 3);
      assert Pow2(3) == 8;
    }
  }

  /** A power of two n is the round-up of n - 1, and 2n that of n + 1. */
  lemma NextTargets(n: nat)
    requires IsPow2(n) && 4 <= n <= 0x4000_0000
    ensures Target(n - 1) == n && Target(n + 1) == 2 * n
  {
    var m: nat :| Pow2(m) == n;
    TwoTo31();
    Pow2TooBig(m, 30);
    assert m > 0;
    KRoundUp32IsLeastPow2(n - 1, m);
    KRoundUp32IsLeastPow2(n + 1, m + 1);
  }

  lemma TargetOfOne()
    ensures Target(1) == 4
  {
    assert Pow2(0) == 1;
    KRoundUp32IsLeastPow2(1, 0);
  }

  /** The size of a table of n buckets after its load limit was reached. */
  function NextSize(n: nat, size: nat): nat {
    if n > 2 * size then n else if n == 0 then 4 else 2 * n
  }

  /** That size is what kh_put asks for, and it has room for one entry more. */
  lemma RoomAhead(n: nat, size: nat)
    requires n == 0 || (IsPow2(n) && 4 <= n <= 0x4000_0000)
    requires size <= if n == 0 then 0 else Upper(n)
    ensures Target(if n > 2 * size then n - 1 else n + 1) == NextSize(n, size)
    ensures size < Upper(NextSize(n, size))
  {
    if n > 0 {
      NextTargets(n);
    } else {
      TargetOfOne();
    }
  }

  lemma Pow2TooBig(m: nat, k: nat)
    requires Pow2(m) <= Pow2(k)
    ensures m <= k
  {
    if m > k {
      Pow2Monotonic(k + 1, m);
    }
  }

  /** The entries found in the value array through loc. */
  ghost function Entries<V>(loc: Loc, vals: seq<V>): map<uint32, V> {
    map k | k in loc && loc[k] < |vals| :: vals[loc[k]]
  }

  lemma EntriesInsert<V>(loc: Loc, vals: seq<V>, key: uint32, x: nat)
    requires x < |vals|
    ensures Entries(loc[key := x], vals) == Entries(loc, vals)[key := vals[x]]
  {
  }

  lemma RemoveAbsent<K, T>(m: map<K, T>, k: K)
    requires k !in m
    ensures m - {k} == m
  {
  }

  lemma Overwrite<K, T>(m: map<K, T>, k: K, a: T, b: T)
    ensures m[k := a][k := b] == m[k := b]
  {
  }

  method Realloc<T(0)>(a: array<T>, n: nat) returns (b: array<T>)
    ensures fresh(b) && b.Length == n
    ensures forall i :: 0 <= i < n && i < a.Length ==> b[i] == a[i]
  {
    b := new T[n];
    forall i | 0 <= i < n && i < a.Length {
      b[i] := a[i];
    }
  }

  class KHash<V(0)> {
    var nBuckets: nat
    var size: nat
    var nOccupied: nat
    var upperBound: nat
    var flags: FlagArray
    var keys: array<uint32>
    var vals: array<V>
    /** Where each key of the map is stored. */
    ghost var loc: Loc

    ghost function Repr(): set<object>
      reads this
    {
      {this, flags, flags.words, keys, vals}
    }

    ghost predicate Separate()
      reads this
    {
      keys != flags.words && (vals as object) != keys && (vals as object) != flags.words
    }

    ghost predicate Valid()
      reads this, Repr()
    {
      && Separate()
      && flags.Valid() && |flags.view| == nBuckets
      && keys.Length == nBuckets && vals.Length == nBuckets
      && Counted(flags.view, size, nOccupied, upperBound)
      && Consistent(flags.view, keys[..], loc)
    }

    /** The finite map that the table stands for. */
    ghost function Contents(): map<uint32, V>
      reads this, Repr()
      requires Valid()
    {
      Entries(loc, vals[..])
    }

    /** kh_init: everything zero. */
    constructor ()
      ensures Valid() && fresh(Repr()) && Contents() == map[]
    {
      nBuckets, size, nOccupied, upperBound := 0, 0, 0, 0;
      flags := new FlagArray(0);
      keys := new uint32[0];
      vals := new V[0];
      loc := map[];
    }

    /** The number of entries is the number of live buckets, and some bucket is empty. */
    lemma SizeOfContents()
      requires Valid()
      ensures size == |Contents()|
      ensures nBuckets > 0 ==> nOccupied < nBuckets && exists i :: 0 <= i < nBuckets && flags.view[i].empty
    {
      LocatedSize(flags.view, keys[..], loc);
      assert Contents().Keys == loc.Keys;
      if nBuckets > 0 {
        var rest := Below(nBuckets) - NonEmpty(flags.view);
        assert NonEmpty(flags.view) + rest == Below(nBuckets);
        assert |rest| == nBuckets - nOccupied;
        var i :| i in rest;
        assert flags.view[i].empty;
      }
    }

    /** kh_get: the bucket of key, or nBuckets when the map does not have it. */
    method Get(key: uint32) returns (r: nat)
      requires Valid()
      ensures r == if key in Contents() then loc[key] else nBuckets
      ensures r < nBuckets ==> keys[r] == key && vals[r] == Contents()[key]
    {
      if nBuckets == 0 {
        return 0;
      }
      var mask := nBuckets - 1;
      ProbeStart(key, nBuckets);
      BackInTime(key, nBuckets);
      var i := And(key, mask);
      var last := i;
      var step: nat := 0;
      while !flags.IsEmpty(i) && (flags.IsDel(i) || keys[i] != key)
        invariant step < 2 * nBuckets - 1
        invariant i == Probe(key, step, nBuckets)
        invariant Scanned(flags.view, keys[..], key, step)
        decreases 2 * nBuckets - step
      {
        ScanStep(flags.view, keys[..], key, step);
        step := step + 1;
        i := And(i + step, mask);
        if i == last {
          ScanRound(flags.view, keys[..], loc, key, step);
          return nBuckets;
        }
      }
      if flags.IsEmpty(i) {
        ScanMiss(flags.view, keys[..], loc, key, step);
      }
      r := if flags.IsEither(i) then nBuckets else i;
    }

    /** kh_del: unmarks a live bucket and does nothing on any other. */
    method Del(x: nat)
      requires Valid() && x <= nBuckets
      modifies this`size, this`loc, flags, flags.words
      ensures Valid()
      ensures if x < nBuckets && old(flags.view[x].Live())
              then Contents() == old(Contents()) - {keys[x]} && size == old(size) - 1 && loc == old(loc) - {keys[x]}
              else Contents() == old(Contents()) && size == old(size) && loc == old(loc)
    {
      if x != nBuckets && !flags.IsEither(x) {
        Delete(flags.view, keys[..], loc, x);
        Kill(flags.view, x);
        flags.SetIsDelTrue(x);
        size := size - 1;
        loc := loc - {keys[x]};
      }
    }

    /** The loop of kh_put's probe. It stops at bucket i, having last met the tombstone site; some bucket is empty, so
        it does not come all the way round. */
    method Scan(key: uint32) returns (i: nat, site: nat, round: bool)
      requires Valid() && nBuckets > 0
      ensures i < nBuckets && site <= nBuckets
      ensures var x := if round || (flags.view[i].empty && site != nBuckets) then site else i;
              Slot(flags.view, loc, key, x) && (key !in loc ==> Chosen(flags.view, key, x))
    {
      var mask := nBuckets - 1;
      ghost var fl, ks := flags.view, keys[..];
      ProbeStart(key, nBuckets);
      i, site, round := And(key, mask), nBuckets, false;
      var last := i;
      var step: nat := 0;
      while !flags.IsEmpty(i) && (flags.IsDel(i) || keys[i] != key)
        invariant step < 2 * nBuckets - 1
        invariant i == Probe(key, step, nBuckets) && !round
        invariant Scanned(fl, ks, key, step) && LastTombstone(fl, key, step, site)
        decreases 2 * nBuckets - step
      {
        ScanOn(fl, ks, key, step, site);
        if flags.IsDel(i) {
          site := i;
        }
        step := step + 1;
        i := And(i + step, mask);
        NotBackYet(fl, ks, key, step);
        if i == last {
          assert false;
          round := true;
          return;
        }
      }
      SlotAtStop(fl, ks, loc, key, step, site);
    }

    /** The probe of kh_put: the bucket of key if present, else a free bucket on its path,
        the last tombstone met or else the first empty bucket. */
    method FindSlot(key: uint32) returns (x: nat)
      requires Valid() && nBuckets > 0
      ensures Slot(flags.view, loc, key, x) && (key !in loc ==> Chosen(flags.view, key, x))
    {
      ProbeStart(key, nBuckets);
      var first := And(key, nBuckets - 1);
      if flags.IsEmpty(first) {
        SlotAtStop(flags.view, keys[..], loc, key, 0, nBuckets);
        return first;
      }
      var i, site, round := Scan(key);
      if round {
        x := site;
      } else if flags.IsEmpty(i) && site != nBuckets {
        x := site;
      } else {
        x := i;
      }
    }

    /** Writes a new key into a free bucket of its path and marks the bucket live. */
    method Occupy(key: uint32, x: nat)
      requires Valid() && nBuckets > 0 && key !in loc
      requires Slot(flags.view, loc, key, x)
      modifies this`loc, flags, flags.words, keys
      ensures flags.Valid() && flags.view == old(flags.view)[x := LIVE]
      ensures keys[..] == old(keys[..])[x := key]
      ensures loc == old(loc)[key := x] && Consistent(flags.view, keys[..], loc)
      ensures |Live(flags.view)| == |Live(old(flags.view))| + 1
      ensures |NonEmpty(flags.view)| == |NonEmpty(old(flags.view))| + (if old(flags.view[x].empty) then 1 else 0)
    {
      Insert(flags.view, keys[..], loc, key, x);
      Table.Occupy(flags.view, x);
      keys[x] := key;
      flags.SetIsBothFalse(x);
      loc := loc[key := x];
    }

    /** The second half of kh_put: fills the bucket unless the key is already there. */
    method Fill(key: uint32, x: nat) returns (ret: int)
      requires Valid() && nBuckets > 0 && nOccupied < upperBound
      requires Slot(flags.view, loc, key, x)
      modifies this`size, this`nOccupied, this`loc, flags, flags.words, keys
      ensures Valid()
      ensures ret == if key in old(loc) then 0 else if old(flags.view[x].empty) then 1 else 2
      ensures loc == old(loc)[key := x] && nOccupied == old(nOccupied) + if ret == 1 then 1 else 0
    {
      if flags.IsEmpty(x) {
        Occupy(key, x);
        size := size + 1;
        nOccupied := nOccupied + 1;
        ret := 1;
      } else if flags.IsDel(x) {
        LiveBound(flags.view);
        Occupy(key, x);
        size := size + 1;
        ret := 2;
      } else {
        ret := 0;
        assert loc == loc[key := x];
      }
    }

    // ---- kh_resize -------------------------------------------------------------------

    /** In the middle of a rehash into the flags nf: m holds the entries of the table, those in
        loc are in the arrays. */
    ghost predicate Moving(nf: FlagArray, m: map<uint32, V>)
      reads this, Repr(), nf, nf.words
    {
      && Separate() && nf != flags && nf.words != flags.words && nf.words != keys && (vals as object) != nf.words
      && flags.Valid() && nf.Valid()
      && |flags.view| == nBuckets && IsPow2(|nf.view|)
      && vals.Length == keys.Length
      && Rehashing(flags.view, nf.view, keys[..], loc)
      && (forall k :: k in loc ==> k in m && vals[loc[k]] == m[k])
    }

    /** The innermost loop: the first empty bucket of the new table on the key's path. */
    method FindEmpty(nf: FlagArray, newN: nat, key: uint32) returns (i: nat)
      requires nf.Valid() && IsPow2(newN) && newN == |nf.view| && |NonEmpty(nf.view)| < |nf.view|
      ensures i < |nf.view| && nf.view[i].empty && Reachable(nf.view, key, i)
    {
      var step: nat := 0;
      ProbeStart(key, newN);
      i := And(key, newN - 1);
      while !nf.IsEmpty(i)
        invariant i == Probe(key, step, newN)
        invariant PathTo(nf.view, key, step)
        invariant step <= newN
        decreases newN - step
      {
        if step == newN {
          AllNonEmpty(nf.view, key, step);
        }
        ProbeStep(key, step, newN);
        MaskIsMod(i + (step + 1), newN);
        step := step + 1;
        i := And(i + step, newN - 1);
      }
    }

    /** Puts the entry in hand into a bucket that holds no unmoved entry. */
    method Write(nf: FlagArray, i: nat, key: uint32, val: V, ghost m: map<uint32, V>)
      requires Moving(nf, m) && key !in loc && key in m && m[key] == val
      requires i < |nf.view| && nf.view[i].empty && Reachable(nf.view, key, i)
      requires !(i < nBuckets && flags.view[i].Live())
      modifies this`loc, nf, nf.words, keys, vals
      ensures Moving(nf, m) && nf.view == old(nf.view)[i := LIVE]
      ensures loc == old(loc)[key := i]
    {
      Place(flags.view, nf.view, keys[..], loc, key, i);
      nf.SetIsEmptyFalse(i);
      keys[i] := key;
      vals[i] := val;
      loc := loc[key := i];
      assert keys[..] == old(keys[..])[i := key];
      assert nf.view == old(nf.view)[i := LIVE];
    }

    /** Puts the entry in hand into a bucket with an unmoved entry, which comes into the hand. */
    method Swap(nf: FlagArray, i: nat, key: uint32, val: V, ghost m: map<uint32, V>)
      returns (key': uint32, val': V)
      requires Moving(nf, m) && key !in loc && key in m && m[key] == val
      requires i < |nf.view| && nf.view[i].empty && Reachable(nf.view, key, i)
      requires i < nBuckets && flags.view[i].Live()
      modifies this`loc, flags, flags.words, nf, nf.words, keys, vals
      ensures Moving(nf, m) && nf.view == old(nf.view)[i := LIVE]
      ensures flags.view == old(flags.view)[i := old(flags.view[i]).(del := true)]
      ensures key' in old(loc) && m[key'] == val' && loc == (old(loc) - {key'})[key := i]
    {
      Kick(flags.view, nf.view, keys[..], loc, key, i);
      nf.SetIsEmptyFalse(i);
      key', keys[i] := keys[i], key;
      val', vals[i] := vals[i], val;
      loc := (loc - {key'})[key := i];
      flags.SetIsDelTrue(i);
      assert keys[..] == old(keys[..])[i := key];
      assert nf.view == old(nf.view)[i := LIVE];
    }

    /** Takes the unmoved entry of bucket j in hand. */
    method TakeInHand(nf: FlagArray, j: nat, ghost m: map<uint32, V>) returns (key: uint32, val: V)
      requires Moving(nf, m) && j < nBuckets && flags.view[j].Live()
      modifies this`loc, flags, flags.words
      ensures Moving(nf, m) && nf.view == old(nf.view)
      ensures flags.view == old(flags.view)[j := old(flags.view[j]).(del := true)]
      ensures key in old(loc) && key in m && m[key] == val && loc == old(loc) - {key}
    {
      key, val := keys[j], vals[j];
      Take(flags.view, nf.view, keys[..], loc, j);
      flags.SetIsDelTrue(j);
      loc := loc - {key};
    }

    /** The entry in hand: absent from the arrays, but one of the table's entries. */
    ghost predicate InHand(key: uint32, val: V, m: map<uint32, V>)
      reads this
    {
      key !in loc && key in m && m[key] == val && loc.Keys + {key} == m.Keys
    }

    /** One round of the kick-out loop. A kick takes one live bucket from the old flags. */
    method PlaceInHand(nf: FlagArray, newN: nat, key: uint32, val: V, ghost m: map<uint32, V>)
      returns (kicked: bool, key': uint32, val': V)
      requires Moving(nf, m) && newN == |nf.view| && |NonEmpty(nf.view)| < newN
      requires InHand(key, val, m)
      modifies this`loc, flags, flags.words, nf, nf.words, keys, vals
      ensures Moving(nf, m) && newN == |nf.view|
      ensures |NonEmpty(nf.view)| == |NonEmpty(old(nf.view))| + 1
      ensures if kicked
              then InHand(key', val', m) && |Live(flags.view)| == |Live(old(flags.view))| - 1
                && Live(flags.view) <= Live(old(flags.view))
              else loc.Keys == m.Keys && flags.view == old(flags.view)
    {
      var i := FindEmpty(nf, newN, key);
      Table.Occupy(nf.view, i);
      if i < nBuckets && !flags.IsEither(i) {
        Kill(flags.view, i);
        key', val' := Swap(nf, i, key, val, m);
        kicked := true;
      } else {
        Write(nf, i, key, val, m);
        kicked, key', val' := false, key, val;
      }
    }

    /** Moves the entry of bucket j, and every entry it kicks out in turn. Each kick takes one live
        bucket from the old flags, so the loop ends. */
    method KickOut(nf: FlagArray, newN: nat, j: nat, ghost m: map<uint32, V>)
      requires Moving(nf, m) && newN == |nf.view| && loc.Keys == m.Keys
      requires |NonEmpty(nf.view)| + |Live(flags.view)| < newN
      requires j < nBuckets && flags.view[j].Live()
      modifies this`loc, flags, flags.words, nf, nf.words, keys, vals
      ensures Moving(nf, m) && newN == |nf.view| && loc.Keys == m.Keys
      ensures |NonEmpty(nf.view)| + |Live(flags.view)| == old(|NonEmpty(nf.view)| + |Live(flags.view)|)
      ensures Live(flags.view) <= Live(old(flags.view)) - {j}
    {
      Kill(flags.view, j);
      var key, val := TakeInHand(nf, j, m);
      ghost var total := |NonEmpty(nf.view)| + |Live(flags.view)| + 1;
      var more := true;
      while more
        invariant Moving(nf, m) && newN == |nf.view|
        invariant if more then InHand(key, val, m) else loc.Keys == m.Keys
        invariant |NonEmpty(nf.view)| + |Live(flags.view)| + (if more then 1 else 0) == total < newN
        invariant Live(flags.view) <= Live(old(flags.view)) - {j}
        decreases more, |Live(flags.view)|
      {
        more, key, val := PlaceInHand(nf, newN, key, val, m);
      }
    }

    /** Moves every entry: the loop over the old buckets. */
    method Rehash(nf: FlagArray, newN: nat, ghost m: map<uint32, V>)
      requires Moving(nf, m) && newN == |nf.view| && loc.Keys == m.Keys
      requires |NonEmpty(nf.view)| == 0 && |Live(flags.view)| < newN
      modifies this`loc, flags, flags.words, nf, nf.words, keys, vals
      ensures Moving(nf, m) && newN == |nf.view| && loc.Keys == m.Keys
      ensures Live(flags.view) == {} && |NonEmpty(nf.view)| == old(|Live(flags.view)|)
    {
      var j := 0;
      while j != nBuckets
        invariant j <= nBuckets
        invariant Moving(nf, m) && newN == |nf.view| && loc.Keys == m.Keys
        invariant |NonEmpty(nf.view)| + |Live(flags.view)| == old(|Live(flags.view)|)
        invariant forall i :: i in Live(flags.view) ==> j <= i
      {
        if !flags.IsEither(j) {
          KickOut(nf, newN, j, m);
        }
        j := j + 1;
      }
      assert Live(flags.view) == {};
    }

    /** Grows the arrays so that both tables fit, and starts the rehash. */
    method Expand(nf: FlagArray, newN: nat, ghost m: map<uint32, V>)
      requires Valid() && m == Contents() && nf.Valid() && |nf.view| == newN && IsPow2(newN)
      requires nf !in Repr() && nf.words !in Repr()
      requires forall i :: 0 <= i < newN ==> nf.view[i] == EMPTY
      modifies this`keys, this`vals
      ensures Moving(nf, m) && |NonEmpty(nf.view)| == 0
      ensures loc.Keys == m.Keys
      ensures (keys == old(keys) || fresh(keys)) && (vals == old(vals) || fresh(vals))
    {
      if nBuckets < newN {
        keys := Realloc(keys, newN);
        vals := Realloc(vals, newN);
      }
      assert keys[..nBuckets] == old(keys[..]);
      assert Located(flags.view, keys[..], loc);
      RehashStart(flags.view, nf.view, keys[..], loc);
    }

    /** Cuts the arrays to the new table. */
    method Shrink(nf: FlagArray, newN: nat, ghost m: map<uint32, V>)
      requires Moving(nf, m) && newN == |nf.view| && loc.Keys == m.Keys && Live(flags.view) == {}
      modifies this`keys, this`vals
      ensures keys.Length == vals.Length == newN == |nf.view|
      ensures Consistent(nf.view, keys[..], loc) && Live(nf.view) == NonEmpty(nf.view)
      ensures forall k :: k in loc ==> loc[k] < newN && vals[loc[k]] == m[k]
      ensures forall i :: 0 <= i < newN ==> !nf.view[i].del
      ensures Separate() && keys != nf.words && (vals as object) != nf.words
      ensures (keys == old(keys) || fresh(keys)) && (vals == old(vals) || fresh(vals))
    {
      RehashEnd(flags.view, nf.view, keys[..], loc);
      ConsistentPrefix(nf.view, keys[..], loc);
      if keys.Length > newN {
        keys := Realloc(keys, newN);
        vals := Realloc(vals, newN);
      }
      assert keys[..] == old(keys[..newN]);
    }

    /** Makes the new flags and counters those of the table. */
    method Install(nf: FlagArray, newN: nat, ghost m: map<uint32, V>)
      requires nf.Valid() && |nf.view| == newN && keys.Length == vals.Length == newN
      requires Separate() && keys != nf.words && (vals as object) != nf.words
      requires Consistent(nf.view, keys[..], loc)
      requires Counted(nf.view, size, size, Upper(newN))
      requires loc.Keys == m.Keys && forall k :: k in loc ==> loc[k] < newN && vals[loc[k]] == m[k]
      modifies this`flags, this`nBuckets, this`nOccupied, this`upperBound
      ensures Valid() && Contents() == m && flags == nf && nBuckets == newN && nOccupied == size
    {
      flags := nf;
      nBuckets := newN;
      nOccupied := size;
      upperBound := Upper(newN);
      assert Contents().Keys == m.Keys;
    }

    /** Grows the arrays, moves every entry and cuts the arrays. */
    method MoveAll(nf: FlagArray, newN: nat, ghost m: map<uint32, V>)
      requires Valid() && m == Contents() && nf.Valid() && |nf.view| == newN && IsPow2(newN)
      requires 4 <= newN <= 0x8000_0000 && size < Upper(newN) < newN
      requires nf !in Repr() && nf.words !in Repr()
      requires forall i :: 0 <= i < newN ==> nf.view[i] == EMPTY
      modifies this`keys, this`vals, this`loc, flags, flags.words, nf, nf.words, keys, vals
      ensures nf.Valid() && |nf.view| == newN
      ensures keys.Length == vals.Length == newN
      ensures Consistent(nf.view, keys[..], loc) && Counted(nf.view, size, size, Upper(newN))
      ensures loc.Keys == m.Keys
      ensures forall k :: k in loc ==> loc[k] < newN && vals[loc[k]] == m[k]
      ensures forall i :: 0 <= i < newN ==> !nf.view[i].del
      ensures Separate() && keys != nf.words && (vals as object) != nf.words
      ensures (keys == old(keys) || fresh(keys)) && (vals == old(vals) || fresh(vals))
    {
      Expand(nf, newN, m);
      Rehash(nf, newN, m);
      Shrink(nf, newN, m);
    }

    /** The rehash of kh_resize into the fresh flags nf (lines 236-271). */
    method RehashInto(nf: FlagArray, newN: nat)
      requires Valid() && nf.Valid() && |nf.view| == newN && IsPow2(newN)
      requires 4 <= newN <= 0x8000_0000 && size < Upper(newN) < newN
      requires nf !in Repr() && nf.words !in Repr()
      requires forall i :: 0 <= i < newN ==> nf.view[i] == EMPTY
      modifies Repr(), nf, nf.words
      ensures Valid() && flags == nf
      ensures (keys == old(keys) || fresh(keys)) && (vals == old(vals) || fresh(vals))
      ensures Contents() == old(Contents()) && size == old(size) && nBuckets == newN && nOccupied == size
      ensures forall i :: 0 <= i < newN ==> !nf.view[i].del
    {
      MoveAll(nf, newN, old(Contents()));
      Install(nf, newN, old(Contents()));
    }

    /** kh_resize: rehashes into a table of the requested size rounded up, unless that is too small
        for the entries. The map is the same afterwards and no tombstone is left. */
    method Resize(newN: uint32)
      requires Valid() && newN <= 0x8000_0000
      modifies Repr()
      ensures Valid() && fresh(Repr() - old(Repr()))
      ensures Contents() == old(Contents()) && size == old(size)
      ensures size >= Upper(Target(newN)) ==> nBuckets == old(nBuckets) && nOccupied == old(nOccupied)
      ensures size < Upper(Target(newN)) ==>
                nBuckets == Target(newN) && nOccupied == size && forall i :: 0 <= i < nBuckets ==> !flags.view[i].del
    {
      TargetIsPow2(newN);
      var n := KRoundUp32(newN);
      if n < 4 {
        n := 4;
      }
      if size < Upper(n) {
        var newFlags := new FlagArray(n);
        RehashInto(newFlags, n);
      }
    }

    // ---- kh_put and the wrappers of include/hash.h -------------------------------------

    /** The first step of kh_put: a table at its load limit is rehashed in place when at most half
        of it is live, and doubled otherwise. Either way a free bucket below the limit is left. */
    method MakeRoom()
      requires Valid() && nBuckets <= 0x4000_0000
      modifies Repr()
      ensures Valid() && fresh(Repr() - old(Repr()))
      ensures Contents() == old(Contents()) && size == old(size)
      ensures nBuckets > 0 && nOccupied < upperBound
      ensures old(nOccupied < upperBound) ==> nBuckets == old(nBuckets) && flags.view == old(flags.view)
      ensures old(nOccupied >= upperBound) ==> forall i :: 0 <= i < nBuckets ==> !flags.view[i].del
      ensures old(nOccupied >= upperBound) ==>
                && nOccupied == size
                && nBuckets == if old(nBuckets) > 2 * size then old(nBuckets)
                               else if old(nBuckets) == 0 then 4 else 2 * old(nBuckets)
    {
      if nOccupied >= upperBound {
        LiveBound(flags.view);
        RoomAhead(nBuckets, size);
        var newN := if nBuckets > 2 * size then nBuckets - 1 else nBuckets + 1;
        Resize(newN);
      }
    }

    /** kh_put: makes sure that the map has key, and returns its bucket. ret is 0 if it was there. Below the load limit
        a new key takes the last tombstone that its probe meets before the first empty bucket, and ret is 2; if there
        is none it takes that empty bucket, ret is 1 and one bucket more is occupied. At the limit the table is
        rehashed first, which leaves no tombstone. The value of a new key is whatever the bucket held. */
    method Put(key: uint32) returns (x: nat, ret: int)
      requires Valid() && nBuckets <= 0x4000_0000
      modifies Repr()
      ensures Valid() && fresh(Repr() - old(Repr()))
      ensures x < nBuckets && key in loc && loc[key] == x
      ensures ret == 0 <==> key in old(Contents())
      ensures ret == 0 || ret == 1 || ret == 2
      ensures old(nOccupied < upperBound) && ret != 0 ==>
                && nBuckets == old(nBuckets) > x && Chosen(old(flags.view), key, x)
                && if old(flags.view[x].del) then ret == 2 && nOccupied == old(nOccupied)
                   else ret == 1 && nOccupied == old(nOccupied) + 1
      ensures old(nOccupied < upperBound) && ret == 0 ==> nBuckets == old(nBuckets) && nOccupied == old(nOccupied)
      ensures old(nOccupied >= upperBound) ==> ret != 2 && nOccupied == old(size) + ret
      ensures Contents() == if ret == 0 then old(Contents()) else old(Contents())[key := vals[x]]
    {
      MakeRoom();
      x, ret := PutKey(key);
    }

    /** The rest of kh_put, in a table with room. */
    method PutKey(key: uint32) returns (x: nat, ret: int)
      requires Valid() && nBuckets > 0 && nOccupied < upperBound
      modifies this`size, this`nOccupied, this`loc, flags, flags.words, keys
      ensures Valid() && x < nBuckets && key in loc && loc[key] == x
      ensures ret == if key in old(Contents()) then 0 else if old(flags.view[x].empty) then 1 else 2
      ensures ret != 0 ==> Chosen(old(flags.view), key, x) && old(flags.view[x].empty != flags.view[x].del)
      ensures nOccupied == old(nOccupied) + if ret == 1 then 1 else 0
      ensures Contents() == if ret == 0 then old(Contents()) else old(Contents())[key := vals[x]]
    {
      x := FindSlot(key);
      EntriesInsert(loc, vals[..], key, x);
      ret := Fill(key, x);
    }

    /** WM_HASH_ADD: adds key with value only if absent; returns -1 and leaves the map alone otherwise. */
    method Add(key: uint32, value: V) returns (p: int)
      requires Valid() && nBuckets <= 0x4000_0000
      modifies Repr()
      ensures Valid() && fresh(Repr() - old(Repr()))
      ensures key in old(Contents()) ==> p == -1 && Contents() == old(Contents())
      ensures key !in old(Contents()) ==> p >= 0 && Contents() == old(Contents())[key := value]
    {
      ghost var m := Contents();
      var x, ret := Put(key);
      p := x;
      if ret != 0 {
        Overwrite(m, key, vals[x], value);
        SetValue(key, x, value);
      } else {
        p := -1;
      }
    }

    /** kh_value(h, x) = value, for the bucket x of key. */
    method SetValue(key: uint32, x: nat, value: V)
      requires Valid() && key in loc && loc[key] == x
      modifies vals
      ensures Valid() && Contents() == old(Contents())[key := value]
    {
      vals[x] := value;
    }

    /** WM_HASH_DEL: removes key; returns -1 if it was not there. */
    method Remove(key: uint32) returns (p: int)
      requires Valid()
      modifies this`size, this`loc, flags, flags.words
      ensures Valid()
      ensures Contents() == old(Contents()) - {key}
      ensures p == -1 <==> key !in old(Contents())
    {
      var x := Get(key);
      if x != nBuckets {
        Del(x);
        p := x;
      } else {
        RemoveAbsent(Contents(), key);
        p := -1;
      }
    }

    /** WM_HASH_GET: the value of key, or NULL. */
    method Lookup(key: uint32) returns (r: Option<V>)
      requires Valid()
      ensures r == if key in Contents() then Some(Contents()[key]) else None
    {
      var x := Get(key);
      if x != nBuckets {
        r := Some(vals[x]);
      } else {
        r := None;
      }
    }
  }
}
