/** What a state of the hash table means, on plain sequences: `fl` are the flags of the
    buckets, `keys` their keys, and `loc` says in which bucket each key of the map is found. */
module Table {
  import opened Bits
  import opened Flags
  import opened Probing

  type Loc = map<uint32, nat>

  // ---- counting buckets ------------------------------------------------------------

  ghost function NonEmpty(fl: seq<Flag>): set<nat> {
    set i: nat | i < |fl| && !fl[i].empty
  }

  ghost function Live(fl: seq<Flag>): set<nat> {
    set i: nat | i < |fl| && fl[i].Live()
  }

  lemma SubsetSize<T>(a: set<T>, b: set<T>)
    requires a <= b
    ensures |a| <= |b|
    ensures a != b ==> |a| < |b|
  {
    assert |b - a| == |b| - |a|;
    if |a| == |b| {
      SubsetOfSameSize(a, b);
    }
  }

  lemma LiveBound(fl: seq<Flag>)
    ensures |Live(fl)| <= |NonEmpty(fl)|
    ensures forall i :: 0 <= i < |fl| && !fl[i].empty && fl[i].del ==> |Live(fl)| < |NonEmpty(fl)|
  {
    SubsetSize(Live(fl), NonEmpty(fl));
    forall i | 0 <= i < |fl| && !fl[i].empty && fl[i].del
      ensures |Live(fl)| < |NonEmpty(fl)|
    {
      assert i in NonEmpty(fl) && i !in Live(fl);
    }
  }

  lemma Occupy(fl: seq<Flag>, i: nat)
    requires i < |fl|
    ensures NonEmpty(fl[i := LIVE]) == NonEmpty(fl) + {i}
    ensures Live(fl[i := LIVE]) == Live(fl) + {i}
    ensures |NonEmpty(fl[i := LIVE])| == |NonEmpty(fl)| + (if fl[i].empty then 1 else 0)
    ensures |Live(fl[i := LIVE])| == |Live(fl)| + (if fl[i].Live() then 0 else 1)
  {
    assert NonEmpty(fl[i := LIVE]) == NonEmpty(fl) + {i};
    assert Live(fl[i := LIVE]) == Live(fl) + {i};
    if !fl[i].empty {
      assert NonEmpty(fl) + {i} == NonEmpty(fl);
    }
    if fl[i].Live() {
      assert Live(fl) + {i} == Live(fl);
    }
  }

  lemma Kill(fl: seq<Flag>, i: nat)
    requires i < |fl| && fl[i].Live()
    ensures NonEmpty(fl[i := fl[i].(del := true)]) == NonEmpty(fl)
    ensures Live(fl[i := fl[i].(del := true)]) == Live(fl) - {i}
    ensures |Live(fl[i := fl[i].(del := true)])| == |Live(fl)| - 1
  {
    assert NonEmpty(fl[i := fl[i].(del := true)]) == NonEmpty(fl);
    assert Live(fl[i := fl[i].(del := true)]) == Live(fl) - {i};
  }

  // ---- probe paths -----------------------------------------------------------------

  /** No bucket examined before step t of the probe for key is empty. */
  ghost predicate PathTo(fl: seq<Flag>, key: nat, t: nat)
    requires |fl| > 0
  {
    forall s: nat :: s < t ==> !fl[Probe(key, s, |fl|)].empty
  }

  /** The probe for key examines bucket b before any empty bucket. */
  ghost predicate Reachable(fl: seq<Flag>, key: nat, b: nat)
    requires |fl| > 0
  {
    exists t: nat :: Probe(key, t, |fl|) == b && PathTo(fl, key, t)
  }

  /** Filling a bucket, or deleting its entry, cuts no probe path. */
  lemma ReachableMonotonic(fl: seq<Flag>, fl': seq<Flag>, key: nat, b: nat)
    requires |fl'| == |fl| > 0 && Reachable(fl, key, b)
    requires forall i :: 0 <= i < |fl| && !fl[i].empty ==> !fl'[i].empty
    ensures Reachable(fl', key, b)
  {
    var t: nat :| Probe(key, t, |fl|) == b && PathTo(fl, key, t);
    assert PathTo(fl', key, t);
  }

  lemma MaskIsMod(x: nat, n: nat)
    requires IsPow2(n)
    ensures And(x, n - 1) == x % n
  {
    var m: nat :| Pow2(m) == n;
    AndMask(x, m);
  }

  /** Every bucket of the table is examined by the first n steps of any probe. */
  lemma Covers(key: nat, b: nat, n: nat) returns (t: nat)
    requires IsPow2(n) && b < n
    ensures t < n && Probe(key, t, n) == b
  {
    var m: nat :| Pow2(m) == n;
    t := ProbeCovers(m, key, b);
  }

  /** A probe that is back at its first bucket has taken at least n steps. */
  lemma BackAtStart(key: nat, t: nat, n: nat)
    requires IsPow2(n) && 0 < t
    requires Probe(key, t, n) == Probe(key, 0, n)
    ensures t >= 2 * n - 1 >= n
  {
    var m: nat :| Pow2(m) == n;
    FirstReturn(m, key, t);
  }

  /** Within 2n - 1 steps the probe is back at its first bucket. */
  lemma BackInTime(key: nat, n: nat)
    requires IsPow2(n)
    ensures Probe(key, 2 * n - 1, n) == Probe(key, 0, n)
  {
    var m: nat :| Pow2(m) == n;
    FirstReturn(m, key, 2 * n - 1);
  }

  /** If the first n steps met no empty bucket, there is none. */
  lemma AllNonEmpty(fl: seq<Flag>, key: nat, t: nat)
    requires IsPow2(|fl|) && t >= |fl| && PathTo(fl, key, t)
    ensures |NonEmpty(fl)| == |fl|
  {
    forall b: nat | b < |fl| ensures b in NonEmpty(fl) {
      var s := Covers(key, b, |fl|);
      assert !fl[Probe(key, s, |fl|)].empty;
    }
    assert NonEmpty(fl) == Below(|fl|);
  }

  // ---- the table invariant ---------------------------------------------------------

  /** (khint_t)(n * 0.77 + 0.5), the load limit of a table of n buckets. */
  function Upper(n: nat): nat {
    (77 * n + 50) / 100
  }

  /** That is n * 0.77 + 0.5, rounded down. */
  lemma UpperRoundsDown(n: nat)
    ensures Upper(n) == (n as real * 0.77 + 0.5).Floor
  {
    assert n as real * 0.77 + 0.5 == (77 * n + 50) as real / 100.0;
  }

  /** loc is a bijection between the keys of the map and the live buckets. */
  ghost predicate Located(fl: seq<Flag>, keys: seq<uint32>, loc: Loc)
    requires |fl| <= |keys|
  {
    && (forall k :: k in loc ==> loc[k] < |fl| && fl[loc[k]].Live() && keys[loc[k]] == k)
    && (forall i :: 0 <= i < |fl| && fl[i].Live() ==> keys[i] in loc && loc[keys[i]] == i)
  }

  ghost predicate AllReachable(fl: seq<Flag>, loc: Loc)
    requires |fl| > 0
  {
    forall k :: k in loc ==> Reachable(fl, k, loc[k])
  }

  ghost predicate Consistent(fl: seq<Flag>, keys: seq<uint32>, loc: Loc)
    requires |fl| <= |keys|
  {
    && Located(fl, keys, loc)
    && (|fl| > 0 ==> AllReachable(fl, loc))
    && (forall i :: 0 <= i < |fl| ==> !(fl[i].empty && fl[i].del))
  }

  ghost predicate Counted(fl: seq<Flag>, size: nat, nOccupied: nat, upperBound: nat) {
    && size == |Live(fl)|
    && nOccupied == |NonEmpty(fl)|
    && nOccupied <= upperBound
    && (|fl| == 0 ==> upperBound == 0)
    && (|fl| > 0 ==> IsPow2(|fl|) && 4 <= |fl| <= 0x8000_0000 && upperBound == Upper(|fl|) < |fl|)
  }

  /** Number of entries of the map and number of live buckets are the same. */
  lemma {:induction false} LocatedSize(fl: seq<Flag>, keys: seq<uint32>, loc: Loc)
    requires |fl| <= |keys| && Located(fl, keys, loc)
    ensures |loc| == |Live(fl)|
    decreases |Live(fl)|
  {
    if Live(fl) == {} {
      assert forall k :: k in loc ==> loc[k] in Live(fl);
      assert loc.Keys == {};
    } else {
      var i :| i in Live(fl);
      var fl' := fl[i := fl[i].(del := true)];
      var loc' := loc - {keys[i]};
      Kill(fl, i);
      LocatedSize(fl', keys, loc');
      assert loc == loc'[keys[i] := i];
    }
  }

  /** The keys beyond the table do not matter. */
  lemma ConsistentPrefix(fl: seq<Flag>, keys: seq<uint32>, loc: Loc)
    requires |fl| <= |keys| && Consistent(fl, keys, loc)
    ensures Consistent(fl, keys[..|fl|], loc)
  {
  }

  // ---- one scan, as in kh_get and kh_put ---------------------------------------------

  /** The buckets examined before step t are not empty and do not hold key. */
  ghost predicate Scanned(fl: seq<Flag>, keys: seq<uint32>, key: uint32, t: nat)
    requires 0 < |fl| <= |keys|
  {
    forall s: nat {:trigger Probe(key, s, |fl|)} :: s < t ==>
      var b := Probe(key, s, |fl|); !fl[b].empty && (fl[b].del || keys[b] != key)
  }

  lemma ScanStep(fl: seq<Flag>, keys: seq<uint32>, key: uint32, t: nat)
    requires 0 < |fl| <= |keys| && IsPow2(|fl|)
    requires Scanned(fl, keys, key, t)
    requires var b := Probe(key, t, |fl|); !fl[b].empty && (fl[b].del || keys[b] != key)
    ensures Scanned(fl, keys, key, t + 1)
    ensures Probe(key, t + 1, |fl|) == And(Probe(key, t, |fl|) + (t + 1), |fl| - 1)
  {
    ProbeStep(key, t, |fl|);
    MaskIsMod(Probe(key, t, |fl|) + (t + 1), |fl|);
  }

  lemma ProbeStart(key: nat, n: nat)
    requires IsPow2(n)
    ensures And(key, n - 1) == Probe(key, 0, n)
  {
    MaskIsMod(key, n);
    assert Tri(0) == 0;
  }

  /** A scan stopped by an empty bucket proves the key absent. */
  lemma ScanMiss(fl: seq<Flag>, keys: seq<uint32>, loc: Loc, key: uint32, t: nat)
    requires 0 < |fl| <= |keys| && Consistent(fl, keys, loc)
    requires Scanned(fl, keys, key, t) && fl[Probe(key, t, |fl|)].empty
    ensures key !in loc
  {
  }

  /** A scan that has gone all the way round proves the key absent. */
  lemma ScanRound(fl: seq<Flag>, keys: seq<uint32>, loc: Loc, key: uint32, t: nat)
    requires 0 < |fl| <= |keys| && IsPow2(|fl|) && Consistent(fl, keys, loc)
    requires Scanned(fl, keys, key, t) && 0 < t && Probe(key, t, |fl|) == Probe(key, 0, |fl|)
    ensures key !in loc
  {
    BackAtStart(key, t, |fl|);
    if key in loc {
      var u := Covers(key, loc[key], |fl|);
    }
  }

  /** Step s of the probe meets a tombstone, and no later step before t meets another. */
  ghost predicate TombstoneAt(fl: seq<Flag>, key: uint32, s: nat, t: nat)
    requires |fl| > 0
  {
    s < t && fl[Probe(key, s, |fl|)].del && forall r: nat :: s < r < t ==> !fl[Probe(key, r, |fl|)].del
  }

  /** site is the last tombstone examined before step t, or |fl| if there was none. */
  ghost predicate LastTombstone(fl: seq<Flag>, key: uint32, t: nat, site: nat)
    requires |fl| > 0
  {
    && site <= |fl|
    && (site < |fl| ==> exists s: nat :: TombstoneAt(fl, key, s, t) && Probe(key, s, |fl|) == site)
    && (site == |fl| ==> forall s: nat :: s < t ==> !fl[Probe(key, s, |fl|)].del)
  }

  lemma TombstoneStep(fl: seq<Flag>, key: uint32, t: nat, site: nat)
    requires |fl| > 0 && LastTombstone(fl, key, t, site)
    ensures var b := Probe(key, t, |fl|); LastTombstone(fl, key, t + 1, if fl[b].del then b else site)
  {
    var b := Probe(key, t, |fl|);
    if fl[b].del {
      assert TombstoneAt(fl, key, t, t + 1);
    } else if site < |fl| {
      var s: nat :| TombstoneAt(fl, key, s, t) && Probe(key, s, |fl|) == site;
      assert TombstoneAt(fl, key, s, t + 1);
    }
  }

  /** One turn of kh_put's loop: unless it is back at the first bucket, it is not too late. */
  lemma ScanOn(fl: seq<Flag>, keys: seq<uint32>, key: uint32, t: nat, site: nat)
    requires 0 < |fl| <= |keys| && IsPow2(|fl|)
    requires Scanned(fl, keys, key, t) && LastTombstone(fl, key, t, site)
    requires var b := Probe(key, t, |fl|); !fl[b].empty && (fl[b].del || keys[b] != key)
    ensures Scanned(fl, keys, key, t + 1)
    ensures var b := Probe(key, t, |fl|); LastTombstone(fl, key, t + 1, if fl[b].del then b else site)
    ensures Probe(key, t + 1, |fl|) == And(Probe(key, t, |fl|) + (t + 1), |fl| - 1)
    ensures t + 1 == 2 * |fl| - 1 ==> Probe(key, t + 1, |fl|) == Probe(key, 0, |fl|)
  {
    BackInTime(key, |fl|);
    ScanStep(fl, keys, key, t);
    TombstoneStep(fl, key, t, site);
  }

  /** A tombstone met by a scan lies on the key's path. */
  lemma TombstoneOnPath(fl: seq<Flag>, keys: seq<uint32>, key: uint32, t: nat, site: nat)
    requires 0 < |fl| <= |keys| && Scanned(fl, keys, key, t)
    requires LastTombstone(fl, key, t, site) && site < |fl|
    ensures Reachable(fl, key, site) && !fl[site].Live()
  {
    var s: nat :| TombstoneAt(fl, key, s, t) && Probe(key, s, |fl|) == site;
    assert PathTo(fl, key, s);
  }

  /** A scan that has gone all the way round met a tombstone, unless every bucket is live. */
  lemma RoundMeetsTombstone(fl: seq<Flag>, keys: seq<uint32>, loc: Loc, key: uint32, t: nat, site: nat)
    requires 0 < |fl| <= |keys| && IsPow2(|fl|) && Consistent(fl, keys, loc)
    requires Scanned(fl, keys, key, t) && 0 < t && Probe(key, t, |fl|) == Probe(key, 0, |fl|)
    requires LastTombstone(fl, key, t, site) && |Live(fl)| < |fl|
    ensures key !in loc && site < |fl| && Reachable(fl, key, site) && !fl[site].Live()
  {
    ScanRound(fl, keys, loc, key, t);
    BackAtStart(key, t, |fl|);
    if site == |fl| {
      forall b: nat | b < |fl| ensures b in Live(fl) {
        var s := Covers(key, b, |fl|);
        assert !fl[Probe(key, s, |fl|)].empty;
      }
      SubsetSize(Below(|fl|), Live(fl));
    } else {
      TombstoneOnPath(fl, keys, key, t, site);
    }
  }

  /** What kh_put's probe returns is right: x is the bucket of a present key, and otherwise a free
      bucket on the key's path. */
  ghost predicate Slot(fl: seq<Flag>, loc: Loc, key: uint32, x: nat)
    requires |fl| > 0
  {
    && x < |fl|
    && (key in loc ==> x == loc[key])
    && (key !in loc ==> !fl[x].Live() && Reachable(fl, key, x))
  }

  /** Bucket x is where kh_put puts a new key: t is the step of the probe at its first empty bucket, and x the last
      tombstone before it, or if there is none that empty bucket. */
  ghost predicate ChosenAt(fl: seq<Flag>, key: uint32, x: nat, t: nat)
    requires |fl| > 0
  {
    && PathTo(fl, key, t) && fl[Probe(key, t, |fl|)].empty
    && if forall s: nat :: s < t ==> !fl[Probe(key, s, |fl|)].del then x == Probe(key, t, |fl|)
       else exists s: nat :: TombstoneAt(fl, key, s, t) && x == Probe(key, s, |fl|)
  }

  ghost predicate Chosen(fl: seq<Flag>, key: uint32, x: nat)
    requires |fl| > 0
  {
    exists t: nat :: ChosenAt(fl, key, x, t)
  }

  /** No other bucket is chosen. */
  lemma ChosenIsUnique(fl: seq<Flag>, key: uint32, x: nat, y: nat)
    requires |fl| > 0 && Chosen(fl, key, x) && Chosen(fl, key, y)
    ensures x == y
  {
    var t: nat :| ChosenAt(fl, key, x, t);
    var u: nat :| ChosenAt(fl, key, y, u);
    assert t == u;
    if s: nat :| s < t && fl[Probe(key, s, |fl|)].del {
      var s1: nat :| TombstoneAt(fl, key, s1, t) && x == Probe(key, s1, |fl|);
      var s2: nat :| TombstoneAt(fl, key, s2, t) && y == Probe(key, s2, |fl|);
      assert s1 == s2;
    }
  }

  /** A scan that has met no empty bucket is not back at its first bucket, if there is an empty one. */
  lemma NotBackYet(fl: seq<Flag>, keys: seq<uint32>, key: uint32, t: nat)
    requires 0 < |fl| <= |keys| && IsPow2(|fl|) && |NonEmpty(fl)| < |fl|
    requires Scanned(fl, keys, key, t) && 0 < t
    ensures Probe(key, t, |fl|) != Probe(key, 0, |fl|)
  {
    if Probe(key, t, |fl|) == Probe(key, 0, |fl|) {
      BackAtStart(key, t, |fl|);
      assert PathTo(fl, key, t);
      AllNonEmpty(fl, key, t);
    }
  }

  lemma SlotAtStop(fl: seq<Flag>, keys: seq<uint32>, loc: Loc, key: uint32, t: nat, site: nat)
    requires 0 < |fl| <= |keys| && Consistent(fl, keys, loc)
    requires Scanned(fl, keys, key, t) && LastTombstone(fl, key, t, site)
    requires var b := Probe(key, t, |fl|); fl[b].empty || (!fl[b].del && keys[b] == key)
    ensures var b := Probe(key, t, |fl|);
            var x := if fl[b].empty && site != |fl| then site else b;
            Slot(fl, loc, key, x) && (key !in loc ==> Chosen(fl, key, x))
  {
    var b := Probe(key, t, |fl|);
    if fl[b].empty {
      ScanMiss(fl, keys, loc, key, t);
      assert PathTo(fl, key, t);
      assert ChosenAt(fl, key, if site != |fl| then site else b, t);
      if site != |fl| {
        TombstoneOnPath(fl, keys, key, t, site);
      }
    } else {
      assert fl[b].Live();
    }
  }

  // ---- effect of kh_put and kh_del on the invariant ----------------------------------

  lemma Insert(fl: seq<Flag>, keys: seq<uint32>, loc: Loc, key: uint32, x: nat)
    requires 0 < |fl| == |keys| && Consistent(fl, keys, loc)
    requires key !in loc && x < |fl| && !fl[x].Live() && Reachable(fl, key, x)
    ensures Consistent(fl[x := LIVE], keys[x := key], loc[key := x])
  {
    var fl', keys', loc' := fl[x := LIVE], keys[x := key], loc[key := x];
    forall k | k in loc' ensures Reachable(fl', k, loc'[k]) {
      ReachableMonotonic(fl, fl', k, loc'[k]);
    }
    forall i | 0 <= i < |fl'| && fl'[i].Live() ensures keys'[i] in loc' && loc'[keys'[i]] == i {
    }
  }

  lemma Delete(fl: seq<Flag>, keys: seq<uint32>, loc: Loc, x: nat)
    requires 0 < |fl| == |keys| && Consistent(fl, keys, loc)
    requires x < |fl| && fl[x].Live()
    ensures Consistent(fl[x := fl[x].(del := true)], keys, loc - {keys[x]})
  {
    var fl', loc' := fl[x := fl[x].(del := true)], loc - {keys[x]};
    forall k | k in loc' ensures Reachable(fl', k, loc'[k]) {
      ReachableMonotonic(fl, fl', k, loc'[k]);
    }
  }

  // ---- the in-place rehash -----------------------------------------------------------

  /** Bucket i holds an entry: one not yet moved (live in the old flags), or one
      already placed (not empty in the new flags). */
  ghost predicate Held(of: seq<Flag>, nf: seq<Flag>, i: nat) {
    (i < |of| && of[i].Live()) || (i < |nf| && !nf[i].empty)
  }

  /** Invariant of the kick-out rehash: old and new entries share the same arrays and never the
      same bucket, loc is a bijection between the keys not in hand and the held buckets, and
      every placed key is on its probe path in the new table. */
  ghost predicate Rehashing(of: seq<Flag>, nf: seq<Flag>, keys: seq<uint32>, loc: Loc) {
    && |of| <= |keys| && 0 < |nf| <= |keys|
    && (forall k :: k in loc ==> loc[k] < |keys| && keys[loc[k]] == k && Held(of, nf, loc[k]))
    && (forall i: nat :: i < |keys| && Held(of, nf, i) ==> keys[i] in loc && loc[keys[i]] == i)
    && (forall i :: 0 <= i < |nf| && !nf[i].empty ==> Reachable(nf, keys[i], i) && !(i < |of| && of[i].Live()))
    && (forall i :: 0 <= i < |nf| ==> !nf[i].del)
  }

  lemma RehashStart(of: seq<Flag>, nf: seq<Flag>, keys: seq<uint32>, loc: Loc)
    requires |of| <= |keys| && 0 < |nf| <= |keys|
    requires Located(of, keys, loc)
    requires forall i :: 0 <= i < |nf| ==> nf[i] == EMPTY
    ensures Rehashing(of, nf, keys, loc)
    ensures |NonEmpty(nf)| == 0
  {
    assert NonEmpty(nf) == {};
  }

  /** Taking an unmoved entry in hand. */
  lemma Take(of: seq<Flag>, nf: seq<Flag>, keys: seq<uint32>, loc: Loc, j: nat)
    requires Rehashing(of, nf, keys, loc) && j < |of| && of[j].Live()
    ensures Rehashing(of[j := of[j].(del := true)], nf, keys, loc - {keys[j]})
    ensures keys[j] in loc
  {
    assert Held(of, nf, j);
  }

  /** Placing the key in hand where the old table holds nothing. */
  lemma Place(of: seq<Flag>, nf: seq<Flag>, keys: seq<uint32>, loc: Loc, key: uint32, i: nat)
    requires Rehashing(of, nf, keys, loc) && key !in loc
    requires i < |nf| && nf[i].empty && Reachable(nf, key, i) && !(i < |of| && of[i].Live())
    ensures Rehashing(of, nf[i := LIVE], keys[i := key], loc[key := i])
  {
    var nf', keys', loc' := nf[i := LIVE], keys[i := key], loc[key := i];
    assert !Held(of, nf, i);
    forall k | k in loc' ensures loc'[k] < |keys'| && keys'[loc'[k]] == k && Held(of, nf', loc'[k]) {
    }
    forall b: nat | b < |keys'| && Held(of, nf', b) ensures keys'[b] in loc' && loc'[keys'[b]] == b {
      assert b != i ==> Held(of, nf, b);
    }
    forall b | 0 <= b < |nf'| && !nf'[b].empty ensures Reachable(nf', keys'[b], b) {
      ReachableMonotonic(nf, nf', keys'[b], b);
    }
  }

  /** Placing the key in hand on an unmoved entry, which is kicked out into the hand. */
  lemma Kick(of: seq<Flag>, nf: seq<Flag>, keys: seq<uint32>, loc: Loc, key: uint32, i: nat)
    requires Rehashing(of, nf, keys, loc) && key !in loc
    requires i < |nf| && nf[i].empty && Reachable(nf, key, i) && i < |of| && of[i].Live()
    ensures keys[i] in loc
    ensures Rehashing(of[i := of[i].(del := true)], nf[i := LIVE], keys[i := key], (loc - {keys[i]})[key := i])
  {
    Take(of, nf, keys, loc, i);
    Place(of[i := of[i].(del := true)], nf, keys, loc - {keys[i]}, key, i);
  }

  /** When no old entry is left, the new flags with the shared arrays are a consistent table
      without tombstones. */
  lemma RehashEnd(of: seq<Flag>, nf: seq<Flag>, keys: seq<uint32>, loc: Loc)
    requires Rehashing(of, nf, keys, loc) && Live(of) == {}
    ensures Consistent(nf, keys, loc) && Live(nf) == NonEmpty(nf)
  {
    forall i | 0 <= i < |of| ensures !of[i].Live() {
      assert i !in Live(of);
    }
    forall k | k in loc ensures Reachable(nf, k, loc[k]) {
      assert Held(of, nf, loc[k]);
    }
    forall i | 0 <= i < |nf| && nf[i].Live() ensures keys[i] in loc && loc[keys[i]] == i {
      assert Held(of, nf, i);
    }
  }
}
