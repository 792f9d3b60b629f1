/** The rolling reload of src/worker.c: the master's side of a round that SIGUSR1 starts and that each
    exit of a child moves on. */
module Reload {
  import opened PidTables

  datatype Status = RUNNING | RELOADING

  /** The list holds the snapshot pids that have not been reaped, each once and each in the table of a
      reloadable worker. */
  ghost predicate Listed(list: seq<int>, snapshot: set<int>, unreaped: set<int>) {
    NoPidTwice(list) && forall p :: p != 0 ==> (p in list <==> p in snapshot && p in unreaped)
  }

  /** If p is at a reloadable worker and has been signalled, it is listed. */
  ghost predicate AskedAt(ts: Tables, reloadable: seq<bool>, list: seq<int>, kills: set<int>, p: int)
    requires |reloadable| == |ts|
  {
    InReloadable(ts, reloadable, p) && p in kills ==> p in list
  }

  /** If p is at a reloadable worker and has been signalled, it is the first one listed. */
  ghost predicate OnlyAt(ts: Tables, reloadable: seq<bool>, list: seq<int>, kills: set<int>, p: int)
    requires |reloadable| == |ts|
  {
    InReloadable(ts, reloadable, p) && p in kills ==> p == First(list)
  }

  /** What is listed, except for `gone`, is at a reloadable worker. */
  ghost predicate StillReloadable(list: seq<int>, gone: int, ts: Tables, reloadable: seq<bool>)
    requires |reloadable| == |ts|
  {
    forall p :: p in list && p != 0 && p != gone ==> InReloadable(ts, reloadable, p)
  }

  class Master {
    /** The count and the reloadable flag of each worker. */
    const counts: seq<nat>
    const reloadable: seq<bool>
    var workerPids: Tables
    var pidsToReload: seq<int>
    var status: Status

    /** All pids that the system has given out. */
    var used: set<int>
    /** Children that were forked and not yet reaped. */
    ghost var unreaped: set<int>
    /** The pids that the last SIGUSR1 found at reloadable workers, and those ever signalled. */
    ghost var snapshot: set<int>
    ghost var kills: set<int>

    ghost predicate Shaped()
      reads this`workerPids
    {
      && |reloadable| == |counts| == |workerPids|
      && forall k :: 0 <= k < |counts| ==> |workerPids[k]| == counts[k]
    }

    /** The state of the list, when the children of `alive` are unreaped. */
    ghost predicate Round(alive: set<int>)
      reads this`pidsToReload, this`snapshot, this`status
    {
      Listed(pidsToReload, snapshot, alive) && (status == RELOADING <==> First(pidsToReload) != 0)
    }

    /** Processes of reloadable workers that were signalled and live on are listed, and the first listed one has
        been signalled. */
    ghost predicate Asked()
      requires Shaped()
      reads this`workerPids, this`unreaped, this`pidsToReload, this`kills, this`used
    {
      && kills <= used && (First(pidsToReload) != 0 ==> First(pidsToReload) in kills)
      && forall p {:trigger AskedAt(workerPids, reloadable, pidsToReload, kills, p)} ::
           p in unreaped ==> AskedAt(workerPids, reloadable, pidsToReload, kills, p)
    }

    /** Of the processes of reloadable workers, at most the first listed one has been signalled and lives on. */
    ghost predicate OneAtATime()
      requires Shaped()
      reads this`workerPids, this`unreaped, this`pidsToReload, this`kills
    {
      forall p {:trigger OnlyAt(workerPids, reloadable, pidsToReload, kills, p)} ::
        p in unreaped ==> OnlyAt(workerPids, reloadable, pidsToReload, kills, p)
    }

    /** Between the passes of the monitor: every worker has as many live processes as it should. */
    ghost predicate Valid()
      reads this
    {
      && Shaped() && Full(workerPids) && Children(workerPids, unreaped)
      && unreaped <= used && snapshot <= used && Asked()
      && Round(unreaped) && StillReloadable(pidsToReload, 0, workerPids, reloadable)
    }

    /** initWorkerPids and the first forkWorkers: every worker has at least one process. */
    constructor (counts: seq<int>, reloadable: seq<bool>)
      requires |counts| == |reloadable|
      ensures Valid() && OneAtATime() && |this.counts| == |counts| && this.reloadable == reloadable && status == RUNNING
      ensures forall k :: 0 <= k < |counts| ==> this.counts[k] == if counts[k] < 1 then 1 else counts[k]
    {
      var atLeastOne := seq(|counts|, k requires 0 <= k < |counts| => if counts[k] < 1 then 1 else counts[k]);
      this.counts, this.reloadable := atLeastOne, reloadable;
      workerPids := seq(|counts|, k requires 0 <= k < |counts| => seq(atLeastOne[k], _ => 0));
      pidsToReload, status := [], RUNNING;
      unreaped, used, snapshot, kills := {}, {}, {}, {};
      new;
      assert forall p :: MemberAt(workerPids, {}, p);
      assert unreaped + {} == {};
      ForkWorkers({});
      assert unreaped + {} == unreaped;
    }

    /** fork, in the master: some pid that was never given out before. */
    method Fork() returns (pid: int)
      modifies this`unreaped, this`used
      ensures pid > 0 && pid !in old(used) && unreaped == old(unreaped) + {pid} && used == old(used) + {pid}
    {
      FreshPid(used);
      pid :| pid > 0 && pid !in used;
      used := used + {pid};
      unreaped := unreaped + {pid};
    }

    /** getKey_by_pid. */
    method GetKeyByPid(k: nat, pid: int) returns (id: int)
      requires k < |workerPids|
      ensures -1 <= id < |workerPids[k]|
      ensures if id < 0 then pid !in workerPids[k]
              else workerPids[k][id] == pid && pid !in workerPids[k][..id]
    {
      id := -1;
      var i := 0;
      while i < |workerPids[k]|
        invariant 0 <= i <= |workerPids[k]| && pid !in workerPids[k][..i]
      {
        if workerPids[k][i] == pid {
          return i;
        }
        i := i + 1;
      }
    }

    /** The processes that are in the tables; dead is the pid of a child that was reaped but still stands there. */
    ghost predicate Staffed(dead: set<int>)
      reads this`workerPids, this`unreaped, this`used
    {
      Shaped() && Children(workerPids, unreaped + dead) && unreaped + dead <= used && unreaped !! dead
    }

    ghost predicate Grown(unreaped0: set<int>, used0: set<int>)
      reads this`unreaped, this`used
    {
      unreaped0 <= unreaped && used0 <= used && unreaped - unreaped0 !! used0
    }

    /** forkOneWorker, in the master. */
    method ForkOneWorker(k: nat, key: nat, ghost dead: set<int>)
      requires Staffed(dead) && Slot(workerPids, k, key) && workerPids[k][key] == 0
      modifies this`workerPids, this`unreaped, this`used
      ensures Staffed(dead) && Grown(old(unreaped), old(used))
      ensures exists pid :: pid > 0 && workerPids == Put(old(workerPids), k, key, pid)
    {
      var pid := Fork();
      PutNew(workerPids, k, key, pid, old(unreaped) + dead);
      assert old(unreaped) + dead + {pid} == unreaped + dead;
      workerPids := Put(workerPids, k, key, pid);
    }

    /** The loop of forkWorkers for one worker: it ends when no slot is 0. */
    method FillWorker(k: nat, ghost dead: set<int>)
      requires Staffed(dead) && k < |workerPids|
      modifies this`workerPids, this`unreaped, this`used
      ensures Staffed(dead) && Grown(old(unreaped), old(used))
      ensures Fills(old(workerPids), workerPids) && 0 !in workerPids[k]
    {
      ghost var done := 0;
      while true
        invariant Staffed(dead) && Grown(old(unreaped), old(used)) && Fills(old(workerPids), workerPids)
        invariant 0 <= done <= |workerPids[k]| && 0 !in workerPids[k][..done]
        decreases |workerPids[k]| - done
      {
        var key := GetKeyByPid(k, 0);
        if key < 0 {
          break;
        }
        ghost var before := workerPids;
        ForkOneWorker(k, key, dead);
        done := key + 1;
        assert workerPids[k][..done] == before[k][..key] + [workerPids[k][key]];
      }
    }

    /** forkWorkers. */
    method ForkWorkers(ghost dead: set<int>)
      requires Staffed(dead)
      modifies this`workerPids, this`unreaped, this`used
      ensures Staffed(dead) && Grown(old(unreaped), old(used))
      ensures Fills(old(workerPids), workerPids) && Full(workerPids)
    {
      var k := 0;
      while k < |workerPids|
        invariant 0 <= k <= |workerPids|
        invariant Staffed(dead) && Grown(old(unreaped), old(used)) && Fills(old(workerPids), workerPids)
        invariant forall l, i :: Slot(workerPids, l, i) && l < k ==> workerPids[l][i] != 0
      {
        FillWorker(k, dead);
        k := k + 1;
      }
    }

    /** getAllWorkerPids: in the order of the tables. */
    method GetAllWorkerPids() returns (all: seq<int>)
      requires Shaped() && Children(workerPids, unreaped)
      ensures NoPidTwice(all) && forall p :: p in all <==> p in unreaped
      ensures Full(workerPids) ==> all == Flat(workerPids)
    {
      all := [];
      var k := 0;
      while k < |workerPids|
        invariant 0 <= k <= |workerPids| && NoPidTwice(all)
        invariant forall p :: p in all <==> p > 0 && InRows(workerPids, k, 0, p)
        invariant Full(workerPids) ==> all == Flat(workerPids[..k])
      {
        var i := 0;
        while i < |workerPids[k]|
          invariant 0 <= i <= |workerPids[k]| && NoPidTwice(all)
          invariant forall p :: p in all <==> p > 0 && InRows(workerPids, k, i, p)
          invariant Full(workerPids) ==> all == Flat(workerPids[..k]) + workerPids[k][..i]
        {
          var pid := workerPids[k][i];
          NextSlot(workerPids, k, i);
          assert Slot(workerPids, k, i) && MemberAt(workerPids, unreaped, pid);
          if pid > 0 {
            all := all + [pid];
          }
          i := i + 1;
        }
        NextRow(workerPids, k);
        FlatMore(workerPids, k);
        k := k + 1;
      }
      AllRows(workerPids);
      assert workerPids[..|workerPids|] == workerPids;
      forall p ensures p in all <==> p in unreaped {
        assert MemberAt(workerPids, unreaped, p);
      }
    }

    // ---- reload, in the master ------------------------------------------------------------

    /** The pids signalled since are at other workers than the reloadable ones. */
    ghost predicate OthersKilled(kills0: set<int>)
      requires Shaped()
      reads this`kills, this`workerPids
    {
      && kills0 <= kills
      && forall p :: p in kills && p !in kills0 ==>
           p != 0 && InOther(workerPids, reloadable, p) && !InReloadable(workerPids, reloadable, p)
    }

    /** Lines 1102-1121: the pids of the reloadable workers are collected; the others are signalled. */
    method CollectReloadable() returns (found: seq<int>)
      requires Shaped() && Injective(workerPids) && Full(workerPids)
      modifies this`kills
      ensures forall p :: p in found <==> InReloadable(workerPids, reloadable, p)
      ensures OthersKilled(old(kills))
      ensures forall p :: p in kills <==> p in old(kills) || InOther(workerPids, reloadable, p)
    {
      found := [];
      var k := 0;
      while k < |workerPids|
        invariant 0 <= k <= |workerPids|
        invariant forall p :: p in found ==> InReloadable(workerPids, reloadable, p)
        invariant forall l, j :: Slot(workerPids, l, j) && l < k && reloadable[l] ==> workerPids[l][j] in found
        invariant OthersKilled(old(kills))
        invariant forall l, j :: Slot(workerPids, l, j) && l < k && !reloadable[l] ==> workerPids[l][j] in kills
      {
        var i := 0;
        while i < |workerPids[k]|
          invariant 0 <= i <= |workerPids[k]|
          invariant forall p :: p in found ==> InReloadable(workerPids, reloadable, p)
          invariant forall l, j :: Slot(workerPids, l, j) && (l < k || (l == k && j < i)) && reloadable[l] ==>
                      workerPids[l][j] in found
          invariant OthersKilled(old(kills))
          invariant forall l, j :: Slot(workerPids, l, j) && (l < k || (l == k && j < i)) && !reloadable[l] ==>
                      workerPids[l][j] in kills
        {
          assert Slot(workerPids, k, i);
          if reloadable[k] {
            found := found + [workerPids[k][i]];
          } else {
            kills := kills + {workerPids[k][i]};
          }
          i := i + 1;
        }
        k := k + 1;
      }
    }

    /** Lines 1125-1138: what is not at a reloadable worker any more is struck off. */
    method FilterList(found: seq<int>)
      modifies this`pidsToReload
      ensures |pidsToReload| == |old(pidsToReload)|
      ensures forall i :: 0 <= i < |pidsToReload| ==>
                pidsToReload[i] == if old(pidsToReload)[i] in found then old(pidsToReload)[i] else 0
    {
      var i := 0;
      while i < |pidsToReload|
        invariant 0 <= i <= |pidsToReload| == |old(pidsToReload)|
        invariant forall j :: 0 <= j < i ==>
                    pidsToReload[j] == if old(pidsToReload)[j] in found then old(pidsToReload)[j] else 0
        invariant forall j :: i <= j < |pidsToReload| ==> pidsToReload[j] == old(pidsToReload)[j]
      {
        var en := false;
        var n := 0;
        while n < |found|
          invariant 0 <= n <= |found| && !en && pidsToReload[i] !in found[..n]
        {
          if pidsToReload[i] == found[n] {
            en := true;
            break;
          }
          n := n + 1;
        }
        if !en {
          assert found[..|found|] == found || n < |found|;
          pidsToReload := pidsToReload[i := 0];
        }
        i := i + 1;
      }
    }

    /** Lines 1144-1151. */
    method FirstListed() returns (p: int)
      ensures p == First(pidsToReload)
    {
      var i := 0;
      while i < |pidsToReload|
        invariant 0 <= i <= |pidsToReload| && forall j :: 0 <= j < i ==> pidsToReload[j] == 0
      {
        if pidsToReload[i] != 0 {
          FirstIs(pidsToReload, i);
          return pidsToReload[i];
        }
        i := i + 1;
      }
      FirstInList(pidsToReload);
      return 0;
    }

    /** reload, in the master: the first listed pid is signalled, or the round is over. */
    method Reload()
      requires Shaped() && Injective(workerPids) && Full(workerPids)
      modifies this`pidsToReload, this`status, this`kills
      ensures |pidsToReload| == |old(pidsToReload)|
      ensures forall i :: 0 <= i < |pidsToReload| ==>
                pidsToReload[i] ==
                if InReloadable(workerPids, reloadable, old(pidsToReload)[i]) then old(pidsToReload)[i] else 0
      ensures status == if First(pidsToReload) == 0 then RUNNING else RELOADING
      ensures old(kills) <= kills && (First(pidsToReload) != 0 ==> First(pidsToReload) in kills)
      ensures forall p :: p in kills <==> p in old(kills) || InOther(workerPids, reloadable, p)
                                          || (p != 0 && p == First(pidsToReload))
      ensures forall p :: p in kills && p !in old(kills) ==> p != 0 && InTable(workerPids, p)
      ensures forall p :: p in kills && p !in old(kills) ==>
                !InReloadable(workerPids, reloadable, p) || p == First(pidsToReload)
    {
      if status != RELOADING {
        status := RELOADING;
      }
      var found := CollectReloadable();
      FilterList(found);
      var reloadPid := FirstListed();
      FirstInList(pidsToReload);
      if reloadPid == 0 {
        status := RUNNING;
        return;
      }
      kills := kills + {reloadPid};
    }

    /** The SIGUSR1 case of signalHandler, at any time between two passes. During a round it keeps to one process
        at a time exactly if the first process of a reloadable worker, in table order, is the one that the round
        has signalled. */
    method Sigusr1()
      requires Valid()
      modifies this`pidsToReload, this`status, this`kills, this`snapshot
      ensures Valid()
      ensures forall p :: p in snapshot <==> p in unreaped && InReloadable(workerPids, reloadable, p)
      ensures status == RELOADING <==> snapshot != {}
      ensures First(pidsToReload) == FirstReloadable(workerPids, reloadable)
      ensures forall p :: p in kills <==> p in old(kills) || InOther(workerPids, reloadable, p)
                                          || (p != 0 && p == First(pidsToReload))
      ensures old(OneAtATime()) ==>
                (OneAtATime() <==> old(status) == RUNNING
                                   || First(old(pidsToReload)) == FirstReloadable(workerPids, reloadable))
    {
      ghost var first, kills0 := First(pidsToReload), kills;
      FirstInList(pidsToReload);
      pidsToReload := GetAllWorkerPids();
      ghost var all := pidsToReload;
      snapshot := set p | p in unreaped && InReloadable(workerPids, reloadable, p);
      Reload();
      FilteredList(all, pidsToReload, snapshot);
      FirstInList(pidsToReload);
      FirstOfKept(all, pidsToReload);
      KillsAreUsed(kills0, unreaped);
      forall p | p in unreaped
        ensures AskedAt(workerPids, reloadable, pidsToReload, kills, p)
      {
        assert InReloadable(workerPids, reloadable, p) ==> p in snapshot;
      }
      if old(OneAtATime()) {
        StillOne(old(pidsToReload), kills0, first);
      }
    }

    lemma KillsAreUsed(kills0: set<int>, s: set<int>)
      requires Shaped() && Children(workerPids, s) && s <= used && kills0 <= used
      requires forall p :: p in kills && p !in kills0 ==> p != 0 && InTable(workerPids, p)
      ensures kills <= used
    {
      forall p | p in kills ensures p in used {
        assert MemberAt(workerPids, s, p);
      }
    }

    /** The first process kept in the list is the first one of a reloadable worker. */
    lemma FirstOfKept(all: seq<int>, kept: seq<int>)
      requires Shaped() && Full(workerPids) && Children(workerPids, unreaped) && all == Flat(workerPids)
      requires forall p :: p in snapshot <==> p in unreaped && InReloadable(workerPids, reloadable, p)
      requires |kept| == |all| && forall i :: 0 <= i < |all| ==> kept[i] == if all[i] in snapshot then all[i] else 0
      ensures First(kept) == FirstReloadable(workerPids, reloadable)
    {
      forall k, i | Slot(workerPids, k, i)
        ensures workerPids[k][i] in snapshot <==> reloadable[k]
      {
        assert MemberAt(workerPids, unreaped, workerPids[k][i]);
        if InReloadable(workerPids, reloadable, workerPids[k][i]) {
          var l, j :| Slot(workerPids, l, j) && reloadable[l] && workerPids[l][j] == workerPids[k][i];
        }
      }
      FirstKept(workerPids, reloadable, kept, snapshot);
    }

    /** What a signal during a round means: list0 is the list before, first its first entry. */
    lemma StillOne(list0: seq<int>, kills0: set<int>, first: int)
      requires Shaped() && first == First(list0) && (first != 0 ==> first in kills0 && first in unreaped)
      requires first != 0 ==> InReloadable(workerPids, reloadable, first)
      requires forall p :: p in unreaped ==> OnlyAt(workerPids, reloadable, list0, kills0, p)
      requires kills0 <= kills && (First(pidsToReload) != 0 ==> First(pidsToReload) in kills)
      requires forall p :: p in unreaped ==> p > 0
      requires forall p :: p in kills && p !in kills0 ==>
                 !InReloadable(workerPids, reloadable, p) || p == First(pidsToReload)
      ensures OneAtATime() <==> first == 0 || first == First(pidsToReload)
    {
      if first != 0 {
        assert OneAtATime() ==> OnlyAt(workerPids, reloadable, pidsToReload, kills, first);
      }
      if first == 0 || first == First(pidsToReload) {
        forall p | p in unreaped ensures OnlyAt(workerPids, reloadable, pidsToReload, kills, p) {
          assert OnlyAt(workerPids, reloadable, list0, kills0, p);
        }
      }
    }

    /** Lines 268-287: the slot of a reaped child is emptied, if it is in this worker's table. */
    method ClearSlot(k: nat, pid: int, ghost dead: set<int>)
      requires Staffed(dead) && k < |workerPids| && pid > 0 && pid !in unreaped
               && (pid in workerPids[k] ==> dead == {pid})
      modifies this`workerPids
      ensures Staffed(if pid in old(workerPids)[k] then {} else dead)
      ensures forall p :: p != pid && InReloadable(old(workerPids), reloadable, p) ==>
                InReloadable(workerPids, reloadable, p)
      ensures forall p :: p != 0 && InReloadable(workerPids, reloadable, p) ==>
                InReloadable(old(workerPids), reloadable, p)
      ensures pid !in old(workerPids)[k] ==> workerPids == old(workerPids)
      ensures KeepsOthers(old(workerPids), workerPids, pid)
      ensures forall l, i :: Slot(workerPids, l, i) && workerPids[l][i] == pid ==>
                Slot(old(workerPids), l, i) && old(workerPids)[l][i] == pid
    {
      var i := GetKeyByPid(k, pid);
      if i >= 0 {
        ghost var before := workerPids;
        assert unreaped + dead == unreaped + {pid} && unreaped + {} == unreaped;
        PutZero(workerPids, k, i, pid, unreaped);
        workerPids := Put(workerPids, k, i, 0);
        forall p | p != pid && InReloadable(before, reloadable, p) ensures InReloadable(workerPids, reloadable, p) {
          var l, j :| Slot(before, l, j) && reloadable[l] && before[l][j] == p;
          assert Slot(workerPids, l, j) && workerPids[l][j] == p;
        }
      }
    }

    /** Lines 292-299: if the reaped child is listed, it is struck off, and the next one is signalled. */
    method Advance(pid: int, ghost dead: set<int>)
      requires Staffed(dead) && Full(workerPids)
      requires pid > 0 && pid !in unreaped && Asked()
      requires StillReloadable(pidsToReload, pid, workerPids, reloadable)
      requires Round(unreaped + {pid}) || Round(unreaped)
      modifies this`pidsToReload, this`status, this`kills
      ensures Round(unreaped) && Asked() && StillReloadable(pidsToReload, 0, workerPids, reloadable)
      ensures Nonzero(pidsToReload) == Nonzero(old(pidsToReload)) - if pid in old(pidsToReload) then 1 else 0
      ensures Struck(old(pidsToReload), pidsToReload, pid)
      ensures pid !in old(pidsToReload) ==> status == old(status) && kills == old(kills)
      ensures old(OneAtATime()) ==> OneAtATime()
    {
      var i := 0;
      while i < |pidsToReload|
        invariant 0 <= i <= |pidsToReload| && pid !in pidsToReload[..i]
        invariant pidsToReload == old(pidsToReload) && status == old(status) && kills == old(kills)
      {
        if pidsToReload[i] == pid {
          StrikePid(i);
          pidsToReload := pidsToReload[i := 0];
          ghost var struck := pidsToReload;
          Reload();
          assert pidsToReload == struck;
          KillsAreUsed(old(kills), unreaped + dead);
          FirstInList(pidsToReload);
          forall p | p in unreaped ensures AskedAt(workerPids, reloadable, pidsToReload, kills, p) {
            assert AskedAt(workerPids, reloadable, old(pidsToReload), old(kills), p);
          }
          if old(OneAtATime()) {
            forall p | p in unreaped ensures OnlyAt(workerPids, reloadable, pidsToReload, kills, p) {
              assert OnlyAt(workerPids, reloadable, old(pidsToReload), old(kills), p);
            }
          }
          return;
        }
        i := i + 1;
      }
    }

    lemma StrikePid(i: nat)
      requires i < |pidsToReload| && pidsToReload[i] != 0 && NoPidTwice(pidsToReload)
      ensures var list := pidsToReload[i := 0];
              && NoPidTwice(list) && Nonzero(list) == Nonzero(pidsToReload) - 1
              && (forall p :: p != 0 ==> (p in list <==> p in pidsToReload && p != pidsToReload[i]))
              && (First(pidsToReload) != pidsToReload[i] ==> First(list) == First(pidsToReload))
    {
      StrikeOff(pidsToReload, i);
      forall p | p != 0 ensures p in pidsToReload[i := 0] <==> p in pidsToReload && p != pidsToReload[i] {
        StrikeOffMembers(pidsToReload, i, p);
      }
      StrikeOffMembers(pidsToReload, i, 1);
    }

    /** In the middle of a pass: the child with this pid has been reaped, and still stands in the tables if it is
        in dead, then with a worker from k on. */
    ghost predicate Passing(pid: int, dead: set<int>, k: nat)
      reads this
    {
      && Staffed(dead) && Full(workerPids) && Asked() && snapshot <= used
      && pid > 0 && pid in used && pid !in unreaped && (dead == {} || dead == {pid})
      && (forall l, i :: Slot(workerPids, l, i) && workerPids[l][i] == pid ==> dead == {pid} && l >= k)
      && StillReloadable(pidsToReload, pid, workerPids, reloadable)
    }

    /** What the pass does for one worker. */
    method Visit(k: nat, pid: int, ghost dead: set<int>) returns (ghost left: set<int>)
      requires Passing(pid, dead, k) && k < |workerPids|
      requires Round(unreaped + {pid}) || Round(unreaped)
      modifies this`workerPids, this`used, this`unreaped, this`pidsToReload, this`status, this`kills
      ensures Passing(pid, left, k + 1) && Round(unreaped) && KeepsOthers(old(workerPids), workerPids, pid)
      ensures StillReloadable(pidsToReload, 0, workerPids, reloadable)
      ensures Grown(old(unreaped), old(used))
      ensures Nonzero(pidsToReload) == Nonzero(old(pidsToReload)) - if pid in old(pidsToReload) then 1 else 0
      ensures Struck(old(pidsToReload), pidsToReload, pid)
      ensures pid !in old(pidsToReload) ==> status == old(status) && kills == old(kills)
      ensures old(OneAtATime()) ==> OneAtATime()
    {
      left := Refork(k, pid, dead);
      Advance(pid, left);
    }

    /** The slot of the reaped child is emptied, if it is with this worker, and every empty slot is filled. */
    method Refork(k: nat, pid: int, ghost dead: set<int>) returns (ghost left: set<int>)
      requires Passing(pid, dead, k) && k < |workerPids|
      modifies this`workerPids, this`used, this`unreaped
      ensures Passing(pid, left, k + 1) && Grown(old(unreaped), old(used))
      ensures KeepsOthers(old(workerPids), workerPids, pid)
      ensures old(Round(unreaped + {pid})) ==> Round(unreaped + {pid})
      ensures old(Round(unreaped)) ==> Round(unreaped)
      ensures old(OneAtATime()) ==> OneAtATime()
    {
      ghost var here, before, now0, used0 := pid in workerPids[k], workerPids, unreaped, used;
      ClearSlot(k, pid, dead);
      left := if here then {} else dead;
      ghost var cleared := workerPids;
      ForkWorkers(left);
      forall l, i | Slot(workerPids, l, i) && workerPids[l][i] == pid ensures left == {pid} && l >= k + 1 {
        assert MemberAt(workerPids, unreaped + left, pid);
        assert MemberAt(cleared, now0 + left, pid);
      }
      forall p | p in pidsToReload && p != 0 && p != pid ensures InReloadable(workerPids, reloadable, p) {
        FillsKeepsReloadable(cleared, workerPids, reloadable, p);
      }
      forall p | p in unreaped && InReloadable(workerPids, reloadable, p) && p in kills
        ensures p in now0 && InReloadable(before, reloadable, p)
      {
        assert MemberAt(cleared, now0 + left, p);
        FillsSameReloadable(cleared, workerPids, reloadable, p);
      }
      forall p | p in unreaped ensures AskedAt(workerPids, reloadable, pidsToReload, kills, p) {
        assert old(AskedAt(workerPids, reloadable, pidsToReload, kills, p));
      }
      if old(OneAtATime()) {
        forall p | p in unreaped ensures OnlyAt(workerPids, reloadable, pidsToReload, kills, p) {
          assert old(OnlyAt(workerPids, reloadable, pidsToReload, kills, p));
        }
      }
    }

    /** A pass of monitorWorkers after waitpid has reported that the child with this pid has exited: forking
        and reloading are done once for every worker. */
    method Reap(pid: int)
      requires Valid() && pid in unreaped
      modifies this`workerPids, this`used, this`unreaped, this`pidsToReload, this`status, this`kills
      ensures Valid() && pid !in unreaped
      ensures old(unreaped) - {pid} <= unreaped && unreaped - old(unreaped) !! old(used)
      ensures KeepsOthers(old(workerPids), workerPids, pid)
      ensures Nonzero(pidsToReload) == Nonzero(old(pidsToReload)) - if pid in old(pidsToReload) then 1 else 0
      ensures Struck(old(pidsToReload), pidsToReload, pid)
      ensures pid !in old(pidsToReload) ==> status == old(status) && kills == old(kills)
      ensures old(OneAtATime()) ==> OneAtATime()
    {
      ghost var dead := WaitFor(pid);
      ghost var nonzero := Nonzero(pidsToReload) - if pid in pidsToReload then 1 else 0;
      var k := 0;
      while k < |workerPids|
        invariant 0 <= k <= |workerPids| && Passing(pid, dead, k)
        invariant Grown(old(unreaped) - {pid}, old(used))
        invariant if k == 0 then Round(unreaped + {pid}) && pidsToReload == old(pidsToReload)
                  else && Round(unreaped) && Nonzero(pidsToReload) == nonzero
                       && Struck(old(pidsToReload), pidsToReload, pid)
        invariant pid !in old(pidsToReload) ==> status == old(status) && kills == old(kills)
        invariant KeepsOthers(old(workerPids), workerPids, pid)
        invariant old(OneAtATime()) ==> OneAtATime()
      {
        dead := Visit(k, pid, dead);
        k := k + 1;
      }
      forall p ensures MemberAt(workerPids, unreaped, p) {
        assert MemberAt(workerPids, unreaped + dead, p);
        assert MemberAt(workerPids, unreaped + dead, pid);
      }
    }

    /** waitpid reports that the child has exited. */
    ghost method WaitFor(pid: int) returns (dead: set<int>)
      requires Valid() && pid in unreaped
      modifies this`unreaped
      ensures unreaped == old(unreaped) - {pid} && dead == {pid} && Passing(pid, dead, 0) && Round(unreaped + {pid})
      ensures old(OneAtATime()) ==> OneAtATime()
    {
      unreaped := unreaped - {pid};
      dead := {pid};
      assert unreaped + dead == old(unreaped);
      forall p | p in unreaped ensures AskedAt(workerPids, reloadable, pidsToReload, kills, p) {
        assert old(AskedAt(workerPids, reloadable, pidsToReload, kills, p));
      }
      if old(OneAtATime()) {
        forall p | p in unreaped ensures OnlyAt(workerPids, reloadable, pidsToReload, kills, p) {
          assert old(OnlyAt(workerPids, reloadable, pidsToReload, kills, p));
        }
      }
    }

    /** The master is RUNNING again exactly when all pids of the snapshot have been reaped; the number of nonzero
        entries of the list, which each of these reaps lowers by one, is 0 then and only then. */
    lemma RoundIsOver()
      requires Valid()
      ensures status == RUNNING <==> snapshot !! unreaped
      ensures status == RUNNING <==> Nonzero(pidsToReload) == 0
    {
      FirstInList(pidsToReload);
      NoneLeft(pidsToReload);
      assert First(pidsToReload) != 0 ==> First(pidsToReload) in snapshot * unreaped;
      forall p | p in snapshot && p in unreaped ensures p in pidsToReload && p != 0 {
      }
    }

    /** Two processes of reloadable workers that were signalled and have not exited are one. */
    lemma NeverTwoAtOnce(p: int, q: int)
      requires Valid() && OneAtATime() && {p, q} <= unreaped * kills
      requires InReloadable(workerPids, reloadable, p) && InReloadable(workerPids, reloadable, q)
      ensures p == q
    {
      assert OnlyAt(workerPids, reloadable, pidsToReload, kills, p);
      assert OnlyAt(workerPids, reloadable, pidsToReload, kills, q);
    }

    /** While the master is RELOADING the first listed process has been signalled and has not exited. */
    lemma OneIsAsked() returns (p: int)
      requires Valid() && status == RELOADING
      ensures p in snapshot * unreaped * kills && p == First(pidsToReload) && InReloadable(workerPids, reloadable, p)
    {
      p := First(pidsToReload);
      FirstInList(pidsToReload);
    }

    /** Every worker has exactly its count of processes, all distinct and unreaped. */
    lemma FullyStaffed(k: nat)
      requires Valid() && k < |counts|
      ensures |workerPids[k]| == counts[k] && forall i :: 0 <= i < counts[k] ==> workerPids[k][i] in unreaped
      ensures forall i, j :: 0 <= i < j < counts[k] ==> workerPids[k][i] != workerPids[k][j]
    {
      forall i | 0 <= i < counts[k] ensures workerPids[k][i] in unreaped {
        assert Slot(workerPids, k, i);
        assert MemberAt(workerPids, unreaped, workerPids[k][i]);
      }
      forall i, j | 0 <= i < j < counts[k] ensures workerPids[k][i] != workerPids[k][j] {
        assert Slot(workerPids, k, i) && Slot(workerPids, k, j);
      }
    }
  }
}
