/** The pid tables and the reload list of src/worker.c as plain values. */
module PidTables {
  /** For each worker, in the order of the table, the pid of each of its processes, or 0. */
  type Tables = seq<seq<int>>

  ghost predicate Slot(ts: Tables, k: int, i: int) {
    0 <= k < |ts| && 0 <= i < |ts[k]|
  }

  ghost predicate InTable(ts: Tables, p: int) {
    exists k, i :: Slot(ts, k, i) && ts[k][i] == p
  }

  ghost predicate InReloadable(ts: Tables, reloadable: seq<bool>, p: int)
    requires |reloadable| == |ts|
  {
    exists k, i :: Slot(ts, k, i) && reloadable[k] && ts[k][i] == p
  }

  ghost predicate InOther(ts: Tables, reloadable: seq<bool>, p: int)
    requires |reloadable| == |ts|
  {
    exists k, i :: Slot(ts, k, i) && !reloadable[k] && ts[k][i] == p
  }

  ghost predicate Full(ts: Tables) {
    forall k, i :: Slot(ts, k, i) ==> ts[k][i] != 0
  }

  /** No pid stands in two slots. */
  ghost predicate Injective(ts: Tables) {
    forall k, i, l, j :: Slot(ts, k, i) && Slot(ts, l, j) && ts[k][i] == ts[l][j] && ts[k][i] != 0 ==> k == l && i == j
  }

  ghost predicate MemberAt(ts: Tables, s: set<int>, p: int) {
    p in s <==> p != 0 && InTable(ts, p)
  }

  /** The nonzero slots hold the pids of s, each once. */
  ghost predicate Children(ts: Tables, s: set<int>) {
    Injective(ts) && (forall p {:trigger MemberAt(ts, s, p)} :: MemberAt(ts, s, p)) && (forall p :: p in s ==> p > 0)
  }

  ghost predicate SameShape(a: Tables, b: Tables) {
    |a| == |b| && forall k :: 0 <= k < |a| ==> |a[k]| == |b[k]|
  }

  /** b is a with some of its empty slots filled. */
  ghost predicate Fills(a: Tables, b: Tables) {
    SameShape(a, b) && forall k, i :: Slot(a, k, i) && a[k][i] != 0 ==> b[k][i] == a[k][i]
  }

  /** Slots with other pids than this one are the same in both. */
  ghost predicate KeepsOthers(a: Tables, b: Tables, pid: int) {
    SameShape(a, b) && forall k, i :: Slot(a, k, i) && a[k][i] != 0 && a[k][i] != pid ==> b[k][i] == a[k][i]
  }

  /** The list has become this one by striking off a pid. */
  ghost predicate Struck(before: seq<int>, list: seq<int>, pid: int) {
    && |list| == |before|
    && forall i :: 0 <= i < |list| ==> list[i] == if before[i] == pid then 0 else before[i]
  }

  lemma FillsKeepsReloadable(a: Tables, b: Tables, reloadable: seq<bool>, p: int)
    requires Fills(a, b) && |reloadable| == |a| && p != 0 && InReloadable(a, reloadable, p)
    ensures InReloadable(b, reloadable, p)
  {
    var k, i :| Slot(a, k, i) && reloadable[k] && a[k][i] == p;
    assert Slot(b, k, i) && b[k][i] == p;
  }

  /** Filling slots moves no process to another worker. */
  lemma FillsSameReloadable(a: Tables, b: Tables, reloadable: seq<bool>, p: int)
    requires Fills(a, b) && Injective(b) && |reloadable| == |a| && p != 0 && InTable(a, p)
    ensures InReloadable(b, reloadable, p) <==> InReloadable(a, reloadable, p)
  {
    var l, j :| Slot(a, l, j) && a[l][j] == p;
    assert Slot(b, l, j) && b[l][j] == p;
    if InReloadable(b, reloadable, p) {
      var k, i :| Slot(b, k, i) && reloadable[k] && b[k][i] == p;
    }
    if InReloadable(a, reloadable, p) {
      FillsKeepsReloadable(a, b, reloadable, p);
    }
  }

  function Put(ts: Tables, k: int, i: int, p: int): (r: Tables)
    requires 0 <= k < |ts| && 0 <= i < |ts[k]|
    ensures SameShape(r, ts) && forall l, j :: Slot(ts, l, j) ==> r[l][j] == if l == k && j == i then p else ts[l][j]
  {
    ts[k := ts[k][i := p]]
  }

  /** A slot is filled with a new pid. */
  lemma PutNew(ts: Tables, k: int, i: int, p: int, s: set<int>)
    requires Children(ts, s) && Slot(ts, k, i) && ts[k][i] == 0 && p > 0 && p !in s
    ensures Children(Put(ts, k, i, p), s + {p})
  {
    var r := Put(ts, k, i, p);
    assert MemberAt(ts, s, p);
    forall q ensures MemberAt(r, s + {p}, q) {
      assert MemberAt(ts, s, q);
      if q != 0 && InTable(ts, q) {
        var l, j :| Slot(ts, l, j) && ts[l][j] == q;
        assert Slot(r, l, j) && r[l][j] == q;
      }
      assert Slot(r, k, i) && r[k][i] == p;
      if q != 0 && InTable(r, q) {
        var l, j :| Slot(r, l, j) && r[l][j] == q;
        assert Slot(ts, l, j);
      }
    }
    forall l, j, m, n | Slot(r, l, j) && Slot(r, m, n) && r[l][j] == r[m][n] && r[l][j] != 0 ensures l == m && j == n {
      assert Slot(ts, l, j) && Slot(ts, m, n);
    }
  }

  /** A slot is emptied. */
  lemma PutZero(ts: Tables, k: int, i: int, p: int, s: set<int>)
    requires Children(ts, s + {p}) && p !in s && Slot(ts, k, i) && ts[k][i] == p
    ensures Children(Put(ts, k, i, 0), s)
  {
    var r := Put(ts, k, i, 0);
    forall q ensures MemberAt(r, s, q) {
      assert MemberAt(ts, s + {p}, q);
      if q != 0 && q != p && InTable(ts, q) {
        var l, j :| Slot(ts, l, j) && ts[l][j] == q;
        assert Slot(r, l, j) && r[l][j] == q;
      }
      if q != 0 && InTable(r, q) {
        var l, j :| Slot(r, l, j) && r[l][j] == q;
        assert Slot(ts, l, j);
      }
    }
    forall l, j, m, n | Slot(r, l, j) && Slot(r, m, n) && r[l][j] == r[m][n] && r[l][j] != 0 ensures l == m && j == n {
      assert Slot(ts, l, j) && Slot(ts, m, n);
    }
  }

  /** p stands in a row before k, or in row k before slot i. */
  ghost predicate InRows(ts: Tables, k: int, i: int, p: int) {
    exists l, j :: Slot(ts, l, j) && (l < k || (l == k && j < i)) && ts[l][j] == p
  }

  lemma NextSlot(ts: Tables, k: int, i: int)
    requires Slot(ts, k, i) && Injective(ts)
    ensures forall p :: InRows(ts, k, i + 1, p) <==> InRows(ts, k, i, p) || p == ts[k][i]
    ensures ts[k][i] != 0 ==> !InRows(ts, k, i, ts[k][i])
  {
    forall p ensures InRows(ts, k, i + 1, p) <==> InRows(ts, k, i, p) || p == ts[k][i] {
      assert p == ts[k][i] ==> Slot(ts, k, i) && ts[k][i] == p;
    }
  }

  lemma NextRow(ts: Tables, k: int)
    requires 0 <= k < |ts|
    ensures forall p :: InRows(ts, k + 1, 0, p) <==> InRows(ts, k, |ts[k]|, p)
  {
  }

  lemma AllRows(ts: Tables)
    ensures forall p :: InRows(ts, |ts|, 0, p) <==> InTable(ts, p)
  {
  }

  // ---- the reload list ------------------------------------------------------------------

  ghost predicate NoPidTwice(list: seq<int>) {
    forall i, j :: 0 <= i < j < |list| && list[i] != 0 ==> list[i] != list[j]
  }

  /** The first nonzero entry, or 0. */
  function First(list: seq<int>): int {
    if list == [] then 0 else if list[0] != 0 then list[0] else First(list[1..])
  }

  function Nonzero(list: seq<int>): nat {
    if list == [] then 0 else (if list[0] != 0 then 1 else 0) + Nonzero(list[1..])
  }

  lemma {:induction false} FirstIs(list: seq<int>, i: nat)
    requires i < |list| && list[i] != 0 && forall j :: 0 <= j < i ==> list[j] == 0
    ensures First(list) == list[i]
  {
    if i > 0 {
      FirstIs(list[1..], i - 1);
    }
  }

  lemma {:induction false} FirstInList(list: seq<int>)
    ensures First(list) == 0 <==> forall p :: p in list ==> p == 0
    ensures First(list) != 0 ==> First(list) in list
  {
    if list != [] {
      FirstInList(list[1..]);
      forall p ensures p in list <==> p == list[0] || p in list[1..] {
        assert list == [list[0]] + list[1..];
      }
      assert First(list) == list[0] || First(list) == First(list[1..]);
      assert First(list) != 0 ==> First(list) in list;
    }
  }

  /** A pid that is struck off lowers the number of those to come, and only the first one changes the first. */
  lemma {:induction false} StrikeOff(list: seq<int>, i: nat)
    requires i < |list| && list[i] != 0
    ensures Nonzero(list[i := 0]) == Nonzero(list) - 1
    ensures First(list) != list[i] ==> First(list[i := 0]) == First(list)
  {
    if i > 0 {
      assert list[i := 0][1..] == list[1..][i - 1 := 0];
      StrikeOff(list[1..], i - 1);
    }
  }

  lemma StrikeOffMembers(list: seq<int>, i: nat, p: int)
    requires i < |list| && list[i] != 0 && p != 0 && NoPidTwice(list)
    ensures NoPidTwice(list[i := 0])
    ensures p in list[i := 0] <==> p in list && p != list[i]
  {
    var r := list[i := 0];
    if p in list && p != list[i] {
      var j :| 0 <= j < |list| && list[j] == p;
      assert r[j] == p;
    }
  }

  lemma {:induction false} NoneLeft(list: seq<int>)
    ensures Nonzero(list) == 0 <==> First(list) == 0
  {
    if list != [] {
      NoneLeft(list[1..]);
    }
  }

  /** A list of which only the members of keep are kept. */
  lemma FilteredList(list: seq<int>, filtered: seq<int>, keep: set<int>)
    requires NoPidTwice(list) && |filtered| == |list|
    requires forall i :: 0 <= i < |list| ==> filtered[i] == if list[i] in keep then list[i] else 0
    ensures NoPidTwice(filtered) && forall p :: p != 0 ==> (p in filtered <==> p in list && p in keep)
  {
    forall p | p != 0 && p in list && p in keep ensures p in filtered {
      var i :| 0 <= i < |list| && list[i] == p;
      assert filtered[i] == p;
    }
  }

  // ---- the order of the tables -----------------------------------------------------------

  function Flat(ts: Tables): seq<int> {
    if ts == [] then [] else ts[0] + Flat(ts[1..])
  }

  lemma {:induction false} FlatMore(ts: Tables, k: nat)
    requires k < |ts|
    ensures Flat(ts[..k + 1]) == Flat(ts[..k]) + ts[k]
  {
    if k == 0 {
      assert ts[..1] == [ts[0]] && ts[..0] == [];
      assert Flat([ts[0]]) == ts[0] + Flat([]);
    } else {
      FlatMore(ts[1..], k - 1);
      assert ts[..k + 1][1..] == ts[1..][..k] && ts[..k][1..] == ts[1..][..k - 1];
    }
  }

  /** The first process of a reloadable worker in the order of the tables, or 0. */
  function FirstReloadable(ts: Tables, reloadable: seq<bool>): int
    requires |reloadable| == |ts|
  {
    if ts == [] then 0
    else if reloadable[0] && ts[0] != [] then ts[0][0]
    else FirstReloadable(ts[1..], reloadable[1..])
  }

  /** That is the first process of worker k, if it is the first reloadable one that has any. */
  lemma {:induction false} FirstReloadableIs(ts: Tables, reloadable: seq<bool>, k: nat)
    requires |reloadable| == |ts| && k <= |ts|
    requires forall l :: 0 <= l < k ==> !reloadable[l] || ts[l] == []
    ensures k == |ts| ==> FirstReloadable(ts, reloadable) == 0
    ensures k < |ts| && reloadable[k] && ts[k] != [] ==> FirstReloadable(ts, reloadable) == ts[k][0]
  {
    if k > 0 {
      FirstReloadableIs(ts[1..], reloadable[1..], k - 1);
    }
  }

  lemma {:induction false} FirstAfterZeros(list: seq<int>, n: nat)
    requires n <= |list| && forall i :: 0 <= i < n ==> list[i] == 0
    ensures First(list) == First(list[n..])
  {
    if n > 0 {
      FirstAfterZeros(list[1..], n - 1);
      assert list[1..][n - 1..] == list[n..];
    }
  }

  /** Of the pids in table order those of reloadable workers are kept. */
  lemma {:induction false} FirstKept(ts: Tables, reloadable: seq<bool>, kept: seq<int>, keep: set<int>)
    requires |reloadable| == |ts| && Full(ts) && |kept| == |Flat(ts)|
    requires forall k, i :: Slot(ts, k, i) ==> (ts[k][i] in keep <==> reloadable[k])
    requires forall i :: 0 <= i < |kept| ==> kept[i] == if Flat(ts)[i] in keep then Flat(ts)[i] else 0
    ensures First(kept) == FirstReloadable(ts, reloadable)
  {
    if ts != [] {
      var n, rest := |ts[0]|, ts[1..];
      forall i | 0 <= i < n ensures kept[i] == if reloadable[0] then ts[0][i] else 0 {
        assert Slot(ts, 0, i);
      }
      if reloadable[0] && n > 0 {
        assert Slot(ts, 0, 0);
      } else {
        FirstAfterZeros(kept, n);
        assert forall k, i :: Slot(rest, k, i) ==> Slot(ts, k + 1, i) && rest[k][i] == ts[k + 1][i];
        FirstKept(rest, reloadable[1..], kept[n..], keep);
      }
    }
  }

  /** There is always another pid. */
  lemma FreshPid(used: set<int>)
    ensures exists p :: p > 0 && p !in used
  {
    var m := UpperBound(used);
    assert m + 1 !in used;
  }

  lemma UpperBound(s: set<int>) returns (m: nat)
    ensures forall p :: p in s ==> p <= m
  {
    m := 0;
    if x :| x in s {
      m := UpperBound(s - {x});
      assert forall p :: p in s ==> p == x || p in s - {x};
      if x > m {
        m := x;
      }
    }
  }
}
