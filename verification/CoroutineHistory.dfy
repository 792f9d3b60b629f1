/** Every run of the scheduler is a run of the switches of Coroutine, so what holds of all runs holds of it. */
module CoroutineHistory {
  import opened Coroutine
  import opened Probing

  /** The cid that the n-th call of create takes, counted from 0: they count up from 1, and start again at 101 each time
      a long overflows. */
  ghost function CidOf(n: nat): nat {
    if n < LONG_MAX then n + 1 else 101 + (n - LONG_MAX) % (LONG_MAX - 100)
  }

  lemma NextCid(n: nat)
    ensures CidOf(n + 1) == if CidOf(n) == LONG_MAX then 101 else CidOf(n) + 1
    ensures CidOf(n) <= LONG_MAX
  {
    if n >= LONG_MAX {
      var m := LONG_MAX - 100;
      DivMod(n - LONG_MAX, m);
      var q, r := (n - LONG_MAX) / m, (n - LONG_MAX) % m;
      if r + 1 < m {
        DivModUnique(n + 1 - LONG_MAX, m, q, r + 1);
      } else {
        DivModUnique(n + 1 - LONG_MAX, m, q + 1, 0);
      }
    } else {
      DivModUnique(0, LONG_MAX - 100, 0, 0);
    }
  }

  /** Each call of create has taken its cid, and the live coroutines are some of those that were created. */
  ghost predicate Numbered(created: seq<Coroutine?>, lastCid: nat, coroutines: Table) {
    && lastCid == (if created == [] then 0 else CidOf(|created| - 1))
    && (forall n :: 0 <= n < |created| && created[n] != null ==> created[n].cid == CidOf(n))
    && (forall k :: k in coroutines ==> coroutines[k] in created)
  }

  lemma NumberedCreate(created: seq<Coroutine?>, lastCid: nat, coroutines: Table, task: Coroutine?, lastCid': nat,
                       coroutines': Table)
    requires Numbered(created, lastCid, coroutines)
    requires lastCid' == if lastCid == LONG_MAX then 101 else lastCid + 1
    requires task != null ==> task.cid == lastCid' && coroutines' == coroutines[task.Key() := task]
    requires task == null ==> coroutines' == coroutines
    ensures Numbered(created + [task], lastCid', coroutines')
    ensures |created| < LONG_MAX ==> lastCid' == |created| + 1
  {
    if created != [] {
      NextCid(|created| - 1);
    }
  }

  /** Of the first 2^63 - 1 calls of create, each is refused exactly if a live coroutine with another cid has the same
      one in 32 bits; so the first 2^32 are not. */
  lemma Refusals(created: seq<Coroutine?>, lastCid: nat, coroutines: Table, refused: bool)
    requires Numbered(created, lastCid, coroutines) && lastCid < LONG_MAX && lastCid == |created|
    requires refused <==> exists k :: k in coroutines
                                      && coroutines[k].cid % 0x1_0000_0000 == (lastCid + 1) % 0x1_0000_0000
    ensures refused <==> exists k :: k in coroutines && coroutines[k].cid != lastCid + 1
                                     && coroutines[k].cid % 0x1_0000_0000 == (lastCid + 1) % 0x1_0000_0000
    ensures refused ==> |created| >= 0x1_0000_0000
  {
    forall k | k in coroutines ensures 0 < coroutines[k].cid <= |created| {
      var n :| 0 <= n < |created| && created[n] == coroutines[k];
    }
    if refused {
      var k :| k in coroutines && coroutines[k].cid % 0x1_0000_0000 == (lastCid + 1) % 0x1_0000_0000;
      FirstClash(coroutines[k].cid, lastCid + 1);
    }
  }

  lemma FirstClash(c: nat, n: nat)
    requires 0 < c < n && c % 0x1_0000_0000 == n % 0x1_0000_0000
    ensures n > 0x1_0000_0000
  {
  }

  class History {
    const scheduler: Scheduler
    /** The states between the switches, and the switches. */
    ghost var states: seq<Switches>
    ghost var events: seq<Event>
    /** What the calls of create have returned; null for a call that was refused. */
    ghost var created: seq<Coroutine?>

    ghost predicate Recorded()
      reads this, scheduler`chain, scheduler`regsAt, scheduler`parked, scheduler`eg, scheduler`lastCid,
            scheduler`coroutines
    {
      IsRun(states, events) && states[|events|] == scheduler.View() && Counted()
    }

    ghost predicate Counted()
      reads this`created, scheduler`lastCid, scheduler`coroutines
    {
      Numbered(created, scheduler.lastCid, scheduler.coroutines)
    }

    constructor (position: int)
      ensures scheduler.Valid() && Recorded() && events == [] && created == []
    {
      scheduler := new Scheduler(position);
      states, events, created := [], [], [];
      new;
      states := [scheduler.View()];
    }

    ghost method Record(e: Event)
      requires scheduler.Valid() && IsRun(states, events) && CanHappen(states[|events|], e) && Counted()
      requires scheduler.View() == After(states[|events|], e)
      modifies this`states, this`events
      ensures scheduler.Valid() && Recorded()
      ensures events == old(events) + [e] && states == old(states) + [scheduler.View()]
    {
      OneMoreSwitch(states, events, e, scheduler.View());
      states, events := states + [scheduler.View()], events + [e];
    }

    method UserCode(position: int)
      requires scheduler.Valid() && Recorded()
      modifies this, scheduler`eg
      ensures scheduler.Valid() && Recorded() && events == old(events) + [Moves(position)]
    {
      scheduler.UserCode(position);
      Record(Moves(position));
    }

    /** wmCoroutine_create. Of the first 2^63 - 1 calls the n-th takes the cid n, and it is refused exactly if there is
        a live coroutine with another cid that is the same in 32 bits. */
    method Create(position: int) returns (task: Coroutine?)
      requires scheduler.Valid() && Recorded()
      modifies this, scheduler, scheduler.cpu`pc, scheduler.cpu`saved
      ensures scheduler.Valid() && Recorded()
      ensures events == old(events) + (if task == null then [] else [Creates(task, position)])
      ensures created == old(created) + [task]
      ensures |created| <= 0x7fff_ffff_ffff_ffff ==>
                && (task != null ==> task.cid == |created|)
                && (task == null <==>
                    exists k :: k in old(scheduler.coroutines)
                                && var cid := old(scheduler.coroutines)[k].cid;
                                   cid != |created| && cid % 0x1_0000_0000 == |created| % 0x1_0000_0000)
      ensures |created| <= 0x1_0000_0000 ==> task != null
    {
      ghost var table, lastCid := scheduler.coroutines, scheduler.lastCid;
      task := scheduler.Create(position);
      RecordCreate(task, position, lastCid, table);
      if |created| <= LONG_MAX {
        Refusals(created[..|created| - 1], lastCid, table, task == null);
      }
    }

    ghost method RecordCreate(task: Coroutine?, position: int, lastCid: nat, table: Table)
      requires scheduler.Valid() && IsRun(states, events) && Numbered(created, lastCid, table)
      requires scheduler.lastCid == if lastCid == LONG_MAX then 101 else lastCid + 1
      requires task == null ==> scheduler.View() == states[|events|] && scheduler.coroutines == table
      requires task != null ==> task.cid == scheduler.lastCid && scheduler.coroutines == table[task.Key() := task]
      requires task != null ==> CanHappen(states[|events|], Creates(task, position)) && scheduler.View().Valid()
                                && scheduler.View() == After(states[|events|], Creates(task, position))
      modifies this`states, this`events, this`created
      ensures scheduler.Valid() && Recorded() && created == old(created) + [task]
      ensures events == old(events) + (if task == null then [] else [Creates(task, position)])
      ensures Numbered(created[..|created| - 1], lastCid, table)
      ensures |created| <= LONG_MAX ==> scheduler.lastCid == |created| == lastCid + 1
    {
      NumberedCreate(created, lastCid, table, task, scheduler.lastCid, scheduler.coroutines);
      created := created + [task];
      assert created[..|created| - 1] == old(created);
      if task != null {
        Record(Creates(task, position));
      }
    }

    method Resume(task: Coroutine) returns (ok: bool)
      requires scheduler.Valid() && Recorded() && task != scheduler.currentTask
      requires task.Key() in scheduler.coroutines && scheduler.coroutines[task.Key()] == task
      modifies this, scheduler, scheduler.cpu`pc, scheduler.cpu`saved, task
      ensures scheduler.Valid() && Recorded()
      ensures events == old(events) + if ok then [Resumes(task)] else []
    {
      ok := scheduler.Resume(task);
      if ok {
        Record(Resumes(task));
      }
    }

    method Yield()
      requires scheduler.Valid() && Recorded() && |scheduler.chain| > 1
      modifies this, scheduler, scheduler.cpu, scheduler.Caller()`pc
      ensures scheduler.Valid() && Recorded() && events == old(events) + [Yields]
    {
      scheduler.Yield();
      Record(Yields);
    }

    method End()
      requires scheduler.Valid() && Recorded() && |scheduler.chain| > 1
      modifies this, scheduler, scheduler.cpu, scheduler.Caller()`pc
      ensures scheduler.Valid() && Recorded() && events == old(events) + [Ends]
    {
      scheduler.End();
      Record(Ends);
    }

    /** So no two of the first 2^63 - 1 calls of create, a coroutine that has ended included, get the same cid. */
    lemma CidsNeverRepeat(m: nat, n: nat)
      requires Recorded() && m < n < |created| && n < 0x7fff_ffff_ffff_ffff && created[m] != null && created[n] != null
      ensures created[m].cid == m + 1 && created[n].cid == n + 1 && created[m].cid != created[n].cid
    {
    }

    /** When the call that event i made returns, that is at the first moment at which the chain is as short as at
        that call, control, current task and registers are those at the call. */
    lemma EveryCallReturns(i: nat)
      requires scheduler.Valid() && Recorded() && i + 1 < |events| && (events[i].Creates? || events[i].Resumes?)
      requires forall j :: i < j < |events| ==> |states[j].chain| > |states[i].chain|
      requires |scheduler.chain| == |states[i].chain|
      ensures scheduler.chain == states[i].chain && scheduler.regsAt == states[i].regsAt && scheduler.eg == states[i].eg
      ensures scheduler.cpu == states[i].chain[|states[i].chain| - 1]
      ensures scheduler.currentTask == scheduler.cpu || (scheduler.currentTask == null && |scheduler.chain| == 1)
    {
      var ss, es := states[i..], events[i..];
      assert forall j :: 0 <= j < |ss| ==> ss[j] == states[i + j];
      assert forall j :: 0 <= j < |es| ==> es[j] == events[i + j];
      ReturnsAsCalled(ss, es);
    }
  }

  lemma OneMoreSwitch(ss: seq<Switches>, es: seq<Event>, e: Event, s: Switches)
    requires IsRun(ss, es) && CanHappen(ss[|es|], e) && s == After(ss[|es|], e) && s.Valid()
    ensures IsRun(ss + [s], es + [e])
  {
  }
}
