/** The timers of a worker: the registry of php_timer.c on top of the timer wheel, with user code
    running inside the callbacks. */
module PhpTimer {
  import opened Bits
  import opened Clock
  import opened List
  import opened Options
  import opened Probing
  import opened RegistrySpec
  import opened TimerSpec
  import opened TimerWheel
  import opened WheelSlots

  /** What a wheel node calls: timer_add_callback for a PHP timer, or any other callback, such as the
      one that wakes a sleeping coroutine. */
  datatype Callback = Other | Php(id: nat)

  /** struct php_worker_timer; node is None while the callback runs (timer->timer = NULL). */
  datatype PhpTimer = PhpTimer(ticks: uint32, persistent: bool, node: Option<Node<Callback>>)

  /** What user code may do to timers before it returns or yields. */
  datatype Command =
    | CmdAdd(ticks: uint32, persistent: bool)
    | CmdDel(id: nat)
    | CmdSleep(ticks: uint32)
    | CmdReload(on: bool)

  /** The user code run by the k-th callback of the t-th tick of an update, for the timer id (0 for other callbacks). */
  type UserCode = (nat, nat, nat) -> seq<Command>

  /** No callback deletes its own timer before it returns or yields. */
  ghost predicate LeavesItself(code: UserCode) {
    forall t: nat, k: nat, id: nat :: CmdDel(id) !in code(t, k, id)
  }

  /** A registered timer, its node and its abstract entry agree. */
  ghost predicate AgreesAt(timers: map<nat, PhpTimer>, due: Bag<Callback>, spec: State, id: nat) {
    id in timers ==>
      && id <= spec.lastId && id in spec.entries
      && spec.entries[id].period == Delay(timers[id].ticks) && spec.entries[id].persistent == timers[id].persistent
      && (timers[id].node.Some? ==> timers[id].node.value in due)
      && spec.entries[id].due == (if timers[id].node.Some? then Some(due[timers[id].node.value]) else None)
      && (timers[id].node == None <==> spec.running == Some(id))
  }

  /** The registry and the wheel's bag agree with the abstract state. */
  ghost predicate Agrees(timers: map<nat, PhpTimer>, due: Bag<Callback>, spec: State) {
    && timers.Keys == spec.entries.Keys
    && (spec.running.Some? ==> spec.running.value in timers)
    && forall id: nat {:trigger AgreesAt(timers, due, spec, id)} :: AgreesAt(timers, due, spec, id)
  }

  /** A pending node that calls a PHP timer is that timer's node. */
  ghost predicate OwnedAt(timers: map<nat, PhpTimer>, n: Node<Callback>)
    reads n
  {
    n.data.callback.Php? ==> n.data.callback.id in timers && timers[n.data.callback.id].node == Some(n)
  }

  ghost predicate CallsBack(timers: map<nat, PhpTimer>, due: Bag<Callback>, id: nat)
    reads due.Keys
  {
    id in timers && timers[id].node.Some? ==>
      timers[id].node.value in due && timers[id].node.value.data.callback == Php(id)
  }

  ghost predicate NodesOwned(timers: map<nat, PhpTimer>, due: Bag<Callback>)
    reads due.Keys
  {
    && (forall n {:trigger OwnedAt(timers, n)} :: n in due ==> OwnedAt(timers, n))
    && (forall id: nat {:trigger CallsBack(timers, due, id)} :: CallsBack(timers, due, id))
  }

  lemma AgreesAdd(timers: map<nat, PhpTimer>, due: Bag<Callback>, spec: State, node: Node<Callback>, ticks: uint32,
                  persistent: bool, due': Bag<Callback>)
    requires Agrees(timers, due, spec) && node !in due
    requires due' == due[node := spec.now + if ticks > 0 then ticks else 1]
    ensures Agrees(timers[spec.lastId + 1 := PhpTimer(ticks, persistent, Some(node))], due',
                   Step(spec, Add(ticks, persistent)))
  {
    var timers' := timers[spec.lastId + 1 := PhpTimer(ticks, persistent, Some(node))];
    forall id: nat ensures AgreesAt(timers', due', Step(spec, Add(ticks, persistent)), id) {
      assert AgreesAt(timers, due, spec, id);
    }
    assert spec.running == Some(spec.lastId + 1) ==> AgreesAt(timers, due, spec, spec.lastId + 1);
  }

  lemma AgreesDel(timers: map<nat, PhpTimer>, due: Bag<Callback>, spec: State, id: nat, due': Bag<Callback>)
    requires Agrees(timers, due, spec) && spec.running != Some(id)
    requires forall i, n :: i in timers && i != id && timers[i].node == Some(n) && n in due ==>
               n in due' && due'[n] == due[n]
    ensures Agrees(timers - {id}, due', Step(spec, Del(id)))
  {
    var timers' := timers - {id};
    assert timers'.Keys == timers.Keys - {id};
    forall i: nat ensures AgreesAt(timers', due', Step(spec, Del(id)), i) {
      assert AgreesAt(timers, due, spec, i);
    }
  }

  lemma AgreesSleep(timers: map<nat, PhpTimer>, due: Bag<Callback>, spec: State, due': Bag<Callback>, e: Event)
    requires Agrees(timers, due, spec) && (forall n :: n in due ==> n in due' && due'[n] == due[n]) && e.Sleep?
    ensures Agrees(timers, due', Step(spec, e))
  {
    forall i: nat ensures AgreesAt(timers, due', Step(spec, e), i) {
      assert AgreesAt(timers, due, spec, i);
    }
  }

  lemma AgreesTick(timers: map<nat, PhpTimer>, due: Bag<Callback>, spec: State)
    requires Agrees(timers, due, spec)
    ensures Agrees(timers, due, Step(spec, Tick))
  {
    forall i: nat ensures AgreesAt(timers, due, Step(spec, Tick), i) {
      assert AgreesAt(timers, due, spec, i);
    }
  }

  lemma AgreesReload(timers: map<nat, PhpTimer>, due: Bag<Callback>, spec: State, on: bool)
    requires Agrees(timers, due, spec)
    ensures Agrees(timers, due, Step(spec, Reload(on)))
  {
    forall i: nat ensures AgreesAt(timers, due, Step(spec, Reload(on)), i) {
      assert AgreesAt(timers, due, spec, i);
    }
  }

  lemma AgreesFire(timers: map<nat, PhpTimer>, due: Bag<Callback>, spec: State, id: nat, node: Node<Callback>)
    requires Agrees(timers, due, spec) && spec.running == None
    requires id in timers && timers[id].node == Some(node) && node in due && due[node] == spec.now
    requires forall i, n :: i in timers && i != id && timers[i].node == Some(n) ==> n != node
    ensures Enabled(spec, Fire(id))
    ensures Agrees(timers[id := timers[id].(node := None)], due - {node}, Step(spec, Fire(id)))
  {
    assert AgreesAt(timers, due, spec, id);
    var timers' := timers[id := timers[id].(node := None)];
    forall i: nat ensures AgreesAt(timers', due - {node}, Step(spec, Fire(id)), i) {
      assert AgreesAt(timers, due, spec, i);
    }
  }

  lemma AgreesWithout(timers: map<nat, PhpTimer>, due: Bag<Callback>, spec: State, node: Node<Callback>,
                      due': Bag<Callback>)
    requires Agrees(timers, due, spec) && due' == due - {node}
    requires forall i, n :: i in timers && timers[i].node == Some(n) ==> n != node
    ensures Agrees(timers, due', Step(spec, Woke))
  {
    forall i: nat ensures AgreesAt(timers, due', Step(spec, Woke), i) {
      assert AgreesAt(timers, due, spec, i);
    }
  }

  lemma AgreesForget(timers: map<nat, PhpTimer>, due: Bag<Callback>, spec: State, id: nat)
    requires Agrees(timers, due, spec) && spec.running == Some(id)
    requires !timers[id].persistent || spec.reloading
    ensures Enabled(spec, Done) && Agrees(timers - {id}, due, Step(spec, Done))
  {
    assert AgreesAt(timers, due, spec, id);
    assert (timers - {id}).Keys == timers.Keys - {id};
    forall i: nat ensures AgreesAt(timers - {id}, due, Step(spec, Done), i) {
      assert AgreesAt(timers, due, spec, i);
    }
  }

  lemma AgreesRearm(timers: map<nat, PhpTimer>, due: Bag<Callback>, spec: State, id: nat, node: Node<Callback>,
                    due': Bag<Callback>)
    requires Agrees(timers, due, spec) && spec.running == Some(id) && node !in due
    requires timers[id].persistent && !spec.reloading
    requires due' == due[node := spec.now + if timers[id].ticks > 0 then timers[id].ticks else 1]
    ensures Enabled(spec, Done)
    ensures Agrees(timers[id := timers[id].(node := Some(node))], due', Step(spec, Done))
  {
    assert AgreesAt(timers, due, spec, id);
    var timers' := timers[id := timers[id].(node := Some(node))];
    forall i: nat ensures AgreesAt(timers', due', Step(spec, Done), i) {
      assert AgreesAt(timers, due, spec, i);
    }
  }

  function EventOf(cmd: Command): Event {
    match cmd
    case CmdAdd(t, p) => Add(t, p)
    case CmdDel(id) => Del(id)
    case CmdReload(on) => Reload(on)
    case CmdSleep(t) => Event.Sleep(t)
  }

  /** The events of a piece of user code: one for each command, in this order. */
  function EventsOf(cmds: seq<Command>): (events: seq<Event>)
    ensures |events| == |cmds| && forall i :: 0 <= i < |cmds| ==> events[i] == EventOf(cmds[i])
  {
    if cmds == [] then [] else EventsOf(cmds[..|cmds| - 1]) + [EventOf(cmds[|cmds| - 1])]
  }

  /** The events of a drain in the t-th tick that runs these callbacks, each with its user code. */
  ghost function DrainEvents(cbs: seq<Callback>, code: UserCode, t: nat): seq<Event> {
    if cbs == [] then []
    else
      var k := |cbs| - 1;
      DrainEvents(cbs[..k], code, t) +
      match cbs[k]
      case Other => [Woke] + EventsOf(code(t, k, 0))
      case Php(id) => [Fire(id)] + EventsOf(code(t, k, id)) + [Done]
  }

  /** The events of an update: its ticks, one after the other, each with its drain. */
  ghost function UpdateEvents(drains: seq<seq<Callback>>, code: UserCode): seq<Event> {
    if drains == [] then []
    else
      var t := |drains| - 1;
      UpdateEvents(drains[..t], code) + ([Event.Tick] + DrainEvents(drains[t], code, t))
  }

  lemma OneMoreCallback(cbs: seq<Callback>, cb: Callback, code: UserCode, t: nat)
    ensures DrainEvents(cbs + [cb], code, t) ==
            DrainEvents(cbs, code, t) +
            match cb
            case Other => [Woke] + EventsOf(code(t, |cbs|, 0))
            case Php(id) => [Fire(id)] + EventsOf(code(t, |cbs|, id)) + [Done]
  {
    assert (cbs + [cb])[..|cbs|] == cbs;
  }

  lemma OneMoreDrain(drains: seq<seq<Callback>>, cbs: seq<Callback>, code: UserCode)
    ensures UpdateEvents(drains + [cbs], code) ==
            UpdateEvents(drains, code) + ([Event.Tick] + DrainEvents(cbs, code, |drains|))
  {
    assert (drains + [cbs])[..|drains|] == drains;
  }

  lemma CommandKeepsRunning(s: State, cmd: Command)
    ensures Step(s, EventOf(cmd)).running == s.running
  {
  }

  lemma PlayOne(s: State, e: Event)
    ensures Play(s, [e]) == Step(s, e)
    ensures Legal(s, [e]) <==> Enabled(s, e)
  {
    assert [] + [e] == [e];
    PlayOneMore(s, [], e);
  }

  /** How often `while (diff >= intv) diff -= intv` runs. */
  ghost function LoopCount(diff: int, intv: nat): nat
    requires intv > 0
    decreases if diff < 0 then 0 else diff
  {
    if diff < intv then 0 else 1 + LoopCount(diff - intv, intv)
  }

  /** The loop has run t times, and diff milliseconds are left. */
  ghost predicate Spent(time: int, diff: int, t: nat, intv: nat)
    requires intv > 0
  {
    diff == time - t * intv && LoopCount(time, intv) == t + LoopCount(diff, intv)
  }

  lemma OneMoreTick(time: int, diff: int, t: nat, intv: nat)
    requires intv > 0 && diff >= intv && Spent(time, diff, t, intv)
    ensures Spent(time, diff - intv, t + 1, intv)
  {
    NextMultiple(t, intv);
  }

  lemma {:induction false} LoopCountIsQuotient(diff: int, intv: nat)
    requires intv > 0
    ensures LoopCount(diff, intv) == if diff >= 0 then diff / intv else 0
    decreases if diff < 0 then 0 else diff
  {
    if diff >= intv {
      LoopCountIsQuotient(diff - intv, intv);
      DivMod(diff - intv, intv);
      var q := (diff - intv) / intv;
      NextMultiple(q, intv);
      DivModUnique(diff, intv, q + 1, (diff - intv) % intv);
    } else if diff >= 0 {
      DivModUnique(diff, intv, 0, diff);
    }
  }

  /** The n ticks that the loop performs, and the rest that it leaves. */
  lemma ClockAfter(c: Clock, interval: uint16, currtime: nat, diff: int, n: nat, rest: uint16)
    requires interval > 0 && currtime > c.last && diff == ToInt(currtime - c.last + c.rem)
    requires n == LoopCount(diff, interval) && rest == (diff - n * interval) % 0x1_0000
    ensures n == Ticks(c, interval, currtime) && Clock(currtime, rest) == AfterUpdate(c, interval, currtime)
  {
    LoopCountIsQuotient(diff, interval);
  }

  class TimerService {
    const wheel: TimerWheel<Callback>
    var lastId: nat
    var timers: map<nat, PhpTimer>
    var reloading: bool
    ghost var spec: State

    ghost predicate Valid()
      reads this`lastId, this`timers, this`reloading, this`spec, wheel, wheel.heads, Rings.Members(wheel.lists),
            wheel.due.Keys
    {
      && wheel.Valid()
      && spec.now == wheel.now && spec.lastId == lastId && spec.reloading == reloading && spec.num == wheel.outstanding
      && Agrees(timers, wheel.due, spec)
      && NodesOwned(timers, wheel.due)
    }

    constructor (interval: uint16, currtime: nat)
      ensures Valid() && fresh(wheel) && fresh(wheel.repr) && !wheel.Draining() && spec == EMPTY
      ensures wheel.interval == interval && wheel.lasttime == currtime && wheel.remainder == 0
    {
      wheel := new TimerWheel<Callback>(interval, currtime);
      lastId, timers, reloading, spec := 0, map[], false, EMPTY;
    }

    /** Assigns the registry variables. */
    method Store(lastId: nat, timers: map<nat, PhpTimer>, reloading: bool, ghost spec: State)
      requires wheel.Valid() && NodesOwned(timers, wheel.due) && Agrees(timers, wheel.due, spec)
      requires spec.now == wheel.now && spec.lastId == lastId && spec.reloading == reloading
      requires spec.num == wheel.outstanding
      modifies this`lastId, this`timers, this`reloading, this`spec
      ensures Valid() && this.spec == spec && this.timers == timers && this.reloading == reloading
    {
      this.lastId, this.timers, this.reloading, this.spec := lastId, timers, reloading, spec;
    }

    /** wmTimerWheel_add_quick for the PHP timer id, which has no node yet. */
    method Arm(id: nat, timer: PhpTimer) returns (node: Node<Callback>)
      requires wheel.Valid() && NodesOwned(timers, wheel.due)
      requires id in timers ==> timers[id].node == None
      modifies wheel`heads, wheel`lists, wheel`due, wheel`repr, wheel`now, wheel`currtick,
               wheel`num, wheel`outstanding, wheel.repr
      ensures wheel.Valid() && fresh(wheel.repr - old(wheel.repr)) && wheel.now == old(wheel.now)
      ensures wheel.SameDrain(old(wheel.Drain())) && wheel.outstanding == old(wheel.outstanding) + 1
      ensures node !in old(wheel.due) && node.data.callback == Php(id)
      ensures wheel.due == old(wheel.due)[node := wheel.now + if timer.ticks > 0 then timer.ticks else 1]
      ensures NodesOwned(timers[id := timer.(node := Some(node))], wheel.due)
    {
      node := wheel.AddQuick(Php(id), timer.ticks);
      ghost var timers' := timers[id := timer.(node := Some(node))];
      forall n | n in wheel.due ensures OwnedAt(timers', n) {
        if n != node {
          assert n in old(wheel.due) && old(OwnedAt(timers, n));
        }
      }
      forall i: nat ensures CallsBack(timers', wheel.due, i) {
        assert old(CallsBack(timers, wheel.due, i));
      }
    }

    /** A timer of this kind is registered now, with a pending node that calls it back. */
    ghost predicate Added(was: map<nat, PhpTimer>, bag: Bag<Callback>, id: nat, ticks: uint32, persistent: bool)
      reads this`timers, wheel`due, wheel`now, wheel.due.Keys
    {
      id in timers && timers[id].node.Some? &&
      var node := timers[id].node.value;
      && timers == was[id := PhpTimer(ticks, persistent, Some(node))]
      && node !in bag && node in wheel.due && node.data.callback == Php(id)
      && wheel.due == bag[node := wheel.now + if ticks > 0 then ticks else 1]
    }

    /** The timer is gone, and so is its node. */
    ghost predicate Deleted(was: map<nat, PhpTimer>, bag: Bag<Callback>, id: nat)
      reads this`timers, wheel`due
    {
      && timers == was - {id}
      && wheel.due == if id in was && was[id].node.Some? then bag - {was[id].node.value} else bag
    }

    /** The timers are as they were, and one more node is pending. */
    ghost predicate Slept(was: map<nat, PhpTimer>, bag: Bag<Callback>, ticks: uint32)
      reads this`timers, wheel`due, wheel`now, wheel.due.Keys
    {
      && timers == was
      && exists node :: node !in bag && node in wheel.due && node.data.callback == Other
                        && wheel.due == bag[node := wheel.now + if ticks > 0 then ticks else 1]
    }

    /** Timer::add: a new id, with a pending node that calls it back. */
    method TimerAdd(ticks: uint32, persistent: bool) returns (id: nat)
      requires Valid()
      modifies this, wheel`heads, wheel`lists, wheel`due, wheel`repr, wheel`now, wheel`currtick,
               wheel`num, wheel`outstanding, wheel.repr
      ensures Valid() && fresh(wheel.repr - old(wheel.repr))
      ensures spec == Step(old(spec), Add(ticks, persistent)) && id == old(lastId) + 1 && id !in old(timers)
      ensures Added(old(timers), old(wheel.due), id, ticks, persistent)
      ensures wheel.SameDrain(old(wheel.Drain()))
    {
      IdIsNew();
      ghost var bag := wheel.due;
      id := lastId + 1;
      var node := Arm(id, PhpTimer(ticks, persistent, None));
      Enroll(PhpTimer(ticks, persistent, Some(node)), node, bag);
    }

    /** The next timer enters the registry, armed by this node. */
    method Enroll(timer: PhpTimer, node: Node<Callback>, ghost bag: Bag<Callback>)
      requires wheel.Valid() && NodesOwned(timers[lastId + 1 := timer], wheel.due) && Agrees(timers, bag, spec)
      requires spec.now == wheel.now && spec.lastId == lastId && spec.reloading == reloading
      requires spec.num + 1 == wheel.outstanding
      requires node !in bag && node.data.callback == Php(lastId + 1) && timer.node == Some(node)
      requires wheel.due == bag[node := wheel.now + if timer.ticks > 0 then timer.ticks else 1]
      modifies this`lastId, this`timers, this`reloading, this`spec
      ensures Valid() && spec == Step(old(spec), Add(timer.ticks, timer.persistent))
      ensures Added(old(timers), bag, old(lastId) + 1, timer.ticks, timer.persistent)
    {
      AgreesAdd(timers, bag, spec, node, timer.ticks, timer.persistent, wheel.due);
      Store(lastId + 1, timers[lastId + 1 := timer], reloading, Step(spec, Add(timer.ticks, timer.persistent)));
    }

    lemma IdIsNew()
      requires Valid()
      ensures lastId + 1 !in timers
    {
      assert AgreesAt(timers, wheel.due, spec, lastId + 1);
    }

    /** wmTimerWheel_del of the node of timer id. */
    method Disarm(id: nat)
      requires wheel.Valid() && NodesOwned(timers, wheel.due)
      requires id in timers && timers[id].node.Some? && timers[id].node.value in wheel.due
      modifies wheel`heads, wheel`lists, wheel`due, wheel`repr, wheel`now, wheel`currtick,
               wheel`num, wheel`outstanding, wheel.repr
      ensures wheel.Valid() && wheel.repr == old(wheel.repr) && wheel.now == old(wheel.now)
      ensures wheel.SameDrain(old(wheel.Drain())) && wheel.outstanding == old(wheel.outstanding)
      ensures wheel.due == old(wheel.due) - {timers[id].node.value}
      ensures NodesOwned(timers - {id}, wheel.due)
    {
      var node := timers[id].node.value;
      assert CallsBack(timers, wheel.due, id);
      var r := wheel.Del(node);
      ghost var timers' := timers - {id};
      forall n | n in wheel.due ensures OwnedAt(timers', n) {
        assert n in old(wheel.due) && old(OwnedAt(timers, n));
      }
      forall i: nat ensures CallsBack(timers', wheel.due, i) {
        assert old(CallsBack(timers, wheel.due, i));
      }
    }

    /** Other timers keep their nodes when that of timer id goes. */
    lemma OthersKeep(id: nat)
      requires NodesOwned(timers, wheel.due) && id in timers && timers[id].node.Some?
      ensures forall i, n :: i in timers && i != id && timers[i].node == Some(n) ==> n != timers[id].node.value
    {
      forall i, n | i in timers && i != id && timers[i].node == Some(n) ensures n != timers[id].node.value {
        assert CallsBack(timers, wheel.due, i) && CallsBack(timers, wheel.due, id);
      }
    }

    /** Timer::del, with timer_free: forgets the timer and takes its node out of the wheel. */
    method TimerDel(id: nat) returns (r: bool)
      requires Valid() && spec.running != Some(id)
      modifies this, wheel`heads, wheel`lists, wheel`due, wheel`repr, wheel`now, wheel`currtick,
               wheel`num, wheel`outstanding, wheel.repr
      ensures Valid() && wheel.repr == old(wheel.repr)
      ensures spec == Step(old(spec), Del(id)) && r == (id in old(timers))
      ensures Deleted(old(timers), old(wheel.due), id)
      ensures wheel.SameDrain(old(wheel.Drain()))
    {
      assert AgreesAt(timers, wheel.due, spec, id);
      if id !in timers {
        NothingToDelete(id);
        return false;
      }
      OthersKeep(id);
      Disarm(id);
      AgreesDel(timers, old(wheel.due), spec, id, wheel.due);
      Store(lastId, timers - {id}, reloading, Step(spec, Del(id)));
      return true;
    }

    lemma NothingToDelete(id: nat)
      requires Valid() && id !in timers
      ensures Step(spec, Del(id)) == spec && timers - {id} == timers
    {
      assert spec.entries - {id} == spec.entries;
    }

    /** wmTimerWheel_add_quick for any other callback. */
    method ArmOther(ticks: uint32) returns (node: Node<Callback>)
      requires wheel.Valid() && NodesOwned(timers, wheel.due)
      modifies wheel`heads, wheel`lists, wheel`due, wheel`repr, wheel`now, wheel`currtick,
               wheel`num, wheel`outstanding, wheel.repr
      ensures wheel.Valid() && fresh(wheel.repr - old(wheel.repr)) && wheel.now == old(wheel.now)
      ensures wheel.SameDrain(old(wheel.Drain())) && wheel.outstanding == old(wheel.outstanding) + 1
      ensures node !in old(wheel.due) && node.data.callback == Other && NodesOwned(timers, wheel.due)
      ensures wheel.due == old(wheel.due)[node := wheel.now + if ticks > 0 then ticks else 1]
    {
      node := wheel.AddQuick(Other, ticks);
      forall n | n in wheel.due ensures OwnedAt(timers, n) {
        if n != node {
          assert n in old(wheel.due) && old(OwnedAt(timers, n));
        }
      }
      forall i: nat ensures CallsBack(timers, wheel.due, i) {
        assert old(CallsBack(timers, wheel.due, i));
      }
    }

    /** Any other timer, such as that of wmCoroutine_sleep: a wheel node without a registry entry. */
    method Sleep(ticks: uint32)
      requires Valid()
      modifies this, wheel`heads, wheel`lists, wheel`due, wheel`repr, wheel`now, wheel`currtick,
               wheel`num, wheel`outstanding, wheel.repr
      ensures Valid() && fresh(wheel.repr - old(wheel.repr)) && spec == Step(old(spec), Event.Sleep(ticks))
      ensures wheel.SameDrain(old(wheel.Drain())) && Slept(old(timers), old(wheel.due), ticks)
    {
      var node := ArmOther(ticks);
      AgreesSleep(timers, old(wheel.due), spec, wheel.due, Event.Sleep(ticks));
      Store(lastId, timers, reloading, Step(spec, Event.Sleep(ticks)));
      assert node in wheel.due && node !in old(wheel.due);
    }

    /** The worker begins to reload, or has ended to. */
    method SetReloading(on: bool)
      requires Valid()
      modifies this`lastId, this`timers, this`reloading, this`spec
      ensures Valid() && spec == Step(old(spec), Reload(on)) && reloading == on && timers == old(timers)
    {
      AgreesReload(timers, wheel.due, spec, on);
      Store(lastId, timers, on, Step(spec, Reload(on)));
    }

    /** One command of user code. */
    method RunCommand(cmd: Command)
      requires Valid() && (spec.running.Some? ==> cmd != CmdDel(spec.running.value))
      modifies this, wheel`heads, wheel`lists, wheel`due, wheel`repr, wheel`now, wheel`currtick,
               wheel`num, wheel`outstanding, wheel.repr
      ensures Valid() && fresh(wheel.repr - old(wheel.repr))
      ensures wheel.SameDrain(old(wheel.Drain())) && spec.running == old(spec.running)
      ensures Enabled(old(spec), EventOf(cmd)) && spec == Step(old(spec), EventOf(cmd))
      ensures match cmd
              case CmdAdd(t, p) => Added(old(timers), old(wheel.due), old(lastId) + 1, t, p)
              case CmdDel(id) => Deleted(old(timers), old(wheel.due), id)
              case CmdReload(on) => reloading == on && timers == old(timers) && wheel.due == old(wheel.due)
              case CmdSleep(t) => Slept(old(timers), old(wheel.due), t)
    {
      CommandKeepsRunning(spec, cmd);
      match cmd
      case CmdAdd(t, p) =>
        var id := TimerAdd(t, p);
      case CmdDel(id) =>
        var r := TimerDel(id);
      case CmdReload(on) =>
        SetReloading(on);
      case CmdSleep(t) =>
        Sleep(t);
    }

    /** User code, up to where it returns or yields. */
    method RunCommands(cmds: seq<Command>)
      requires Valid() && (spec.running.Some? ==> CmdDel(spec.running.value) !in cmds)
      modifies this, wheel`heads, wheel`lists, wheel`due, wheel`repr, wheel`now, wheel`currtick,
               wheel`num, wheel`outstanding, wheel.repr
      ensures Valid() && fresh(wheel.repr - old(wheel.repr))
      ensures wheel.SameDrain(old(wheel.Drain())) && spec.running == old(spec.running)
      ensures Legal(old(spec), EventsOf(cmds)) && spec == Play(old(spec), EventsOf(cmds))
      decreases |cmds|
    {
      if cmds != [] {
        var init, last := cmds[..|cmds| - 1], cmds[|cmds| - 1];
        PlayOneMore(spec, EventsOf(init), EventOf(last));
        RunCommands(init);
        RunCommand(last);
      }
    }

    /** The next node of the drain; the registry does not know yet. */
    method Take(head: Node<Callback>) returns (node: Node<Callback>)
      requires Valid()
      requires wheel.Draining() && head == wheel.heads[LOCAL] && !IsEmpty(head)
      modifies wheel`heads, wheel`lists, wheel`due, wheel`repr, wheel`now, wheel`currtick,
               wheel`num, wheel`outstanding, wheel.repr
      ensures wheel.Valid() && wheel.repr == old(wheel.repr) && wheel.now == old(wheel.now)
      ensures wheel.outstanding == old(wheel.outstanding) - 1
      ensures wheel.Drain() == Some((head, old(|wheel.lists[LOCAL]|) - 1))
      ensures node in old(wheel.due) && old(wheel.due)[node] == wheel.now && wheel.due == old(wheel.due) - {node}
      ensures match node.data.callback
              case Other => NodesOwned(timers, wheel.due)
              case Php(id) =>
                && id in timers && timers[id].node == Some(node)
                && NodesOwned(timers[id := timers[id].(node := None)], wheel.due)
                && (forall i, n :: i in timers && i != id && timers[i].node == Some(n) ==> n != node)
      ensures node.data.callback == Other ==> forall i, n :: i in timers && timers[i].node == Some(n) ==> n != node
    {
      node := wheel.TakeFirst(head);
      assert old(OwnedAt(timers, node));
      ghost var timers' := match node.data.callback
        case Other => timers
        case Php(id) => timers[id := timers[id].(node := None)];
      forall n | n in wheel.due ensures OwnedAt(timers', n) {
        assert n in old(wheel.due) && old(OwnedAt(timers, n));
      }
      forall i: nat ensures CallsBack(timers', wheel.due, i)
        ensures i in timers && timers[i].node == Some(node) ==> node.data.callback == Php(i) {
        assert old(CallsBack(timers, wheel.due, i));
      }
    }

    /** The drain takes the next node (line 185) and enters its callback: a PHP timer loses its node
        (line 60 of php_timer.c). */
    method StartCallback(head: Node<Callback>) returns (cb: Callback)
      requires Valid() && spec.running == None
      requires wheel.Draining() && head == wheel.heads[LOCAL] && !IsEmpty(head)
      modifies this, wheel`heads, wheel`lists, wheel`due, wheel`repr, wheel`now, wheel`currtick,
               wheel`num, wheel`outstanding, wheel.repr
      ensures Valid() && wheel.repr == old(wheel.repr)
      ensures wheel.Drain() == Some((head, old(|wheel.lists[LOCAL]|) - 1))
      ensures match cb
              case Other => Enabled(old(spec), Woke) && spec == Step(old(spec), Woke)
              case Php(id) =>
                Enabled(old(spec), Fire(id)) && spec == Step(old(spec), Fire(id)) && spec.running == Some(id)
    {
      ghost var bag := wheel.due;
      var node := Take(head);
      cb := node.data.callback;
      match cb
      case Other =>
        AgreesWithout(timers, bag, spec, node, wheel.due);
        Store(lastId, timers, reloading, Step(spec, Woke));
      case Php(id) =>
        AgreesFire(timers, bag, spec, id, node);
        Store(lastId, timers[id := timers[id].(node := None)], reloading, Step(spec, Fire(id)));
    }

    /** The end of timer_add_callback (lines 62-67): the timer is forgotten, or armed again. */
    method EndCallback(id: nat)
      requires Valid() && spec.running == Some(id)
      modifies this, wheel`heads, wheel`lists, wheel`due, wheel`repr, wheel`now, wheel`currtick,
               wheel`num, wheel`outstanding, wheel.repr
      ensures Valid() && fresh(wheel.repr - old(wheel.repr))
      ensures wheel.SameDrain(old(wheel.Drain()))
      ensures Enabled(old(spec), Done) && spec == Step(old(spec), Done) && spec.running == None
    {
      assert AgreesAt(timers, wheel.due, spec, id);
      if !timers[id].persistent || reloading {
        AgreesForget(timers, wheel.due, spec, id);
        Forget(id);
        Store(lastId, timers - {id}, reloading, Step(spec, Done));
      } else {
        var node := Arm(id, timers[id]);
        AgreesRearm(timers, old(wheel.due), spec, id, node, wheel.due);
        Store(lastId, timers[id := timers[id].(node := Some(node))], reloading, Step(spec, Done));
      }
    }

    /** A timer without a node can leave the registry. */
    lemma Forget(id: nat)
      requires NodesOwned(timers, wheel.due) && id in timers && timers[id].node == None
      ensures NodesOwned(timers - {id}, wheel.due)
    {
      forall n | n in wheel.due ensures OwnedAt(timers - {id}, n) {
        assert OwnedAt(timers, n);
      }
      forall i: nat ensures CallsBack(timers - {id}, wheel.due, i) {
        assert CallsBack(timers, wheel.due, i);
      }
    }

    /** The body of the drain loop (lines 184-196): one timer fires, and its user code runs. */
    method FireOne(head: Node<Callback>, code: UserCode, t: nat, k: nat)
        returns (ghost cb: Callback, ghost log: seq<Event>)
      requires Valid() && spec.running == None && LeavesItself(code)
      requires wheel.Draining() && head == wheel.heads[LOCAL] && !IsEmpty(head)
      modifies this, wheel`heads, wheel`lists, wheel`due, wheel`repr, wheel`now, wheel`currtick,
               wheel`num, wheel`outstanding, wheel.repr
      ensures Valid() && fresh(wheel.repr - old(wheel.repr)) && spec.running == None
      ensures wheel.Drain().Some? && wheel.Drain().value.0 == head && wheel.Drain().value.1 < old(|wheel.lists[LOCAL]|)
      ensures Legal(old(spec), log) && spec == Play(old(spec), log)
      ensures log == match cb
                     case Other => [Woke] + EventsOf(code(t, k, 0))
                     case Php(id) => [Fire(id)] + EventsOf(code(t, k, id)) + [Done]
      ensures spec.now == old(spec.now)
    {
      ghost var s0 := spec;
      var callback := StartCallback(head);
      cb := callback;
      match callback
      case Other =>
        var cmds := code(t, k, 0);
        RunCommands(cmds);
        log := [Woke] + EventsOf(cmds);
        WakeUpLog(s0, cmds);
      case Php(id) =>
        log := CallBack(id, code(t, k, id), s0);
    }

    /** The callback of a PHP timer, from wmCoroutine_create on. */
    method CallBack(id: nat, cmds: seq<Command>, ghost s0: State) returns (ghost log: seq<Event>)
      requires Valid() && CmdDel(id) !in cmds
      requires Enabled(s0, Fire(id)) && spec == Step(s0, Fire(id)) && spec.running == Some(id)
      modifies this, wheel`heads, wheel`lists, wheel`due, wheel`repr, wheel`now, wheel`currtick,
               wheel`num, wheel`outstanding, wheel.repr
      ensures Valid() && fresh(wheel.repr - old(wheel.repr)) && spec.running == None
      ensures wheel.SameDrain(old(wheel.Drain()))
      ensures log == [Fire(id)] + EventsOf(cmds) + [Done]
      ensures Legal(s0, log) && spec == Play(s0, log) && spec.now == s0.now
    {
      RunCommands(cmds);
      log := [Fire(id)] + EventsOf(cmds) + [Done];
      CallbackLog(s0, id, cmds);
      EndCallback(id);
    }

    /** The events of any other callback. */
    static lemma WakeUpLog(s: State, cmds: seq<Command>)
      ensures var s1 := Step(s, Woke); var log := [Woke] + EventsOf(cmds);
              && Play(s, log) == Play(s1, EventsOf(cmds)) && Play(s, log).now == s.now
              && (Legal(s, log) <==> Enabled(s, Woke) && Legal(s1, EventsOf(cmds)))
    {
      PlayOne(s, Woke);
      PlayConcat(s, [Woke], EventsOf(cmds));
      CommandsKeepTime(Step(s, Woke), cmds);
    }

    static lemma {:induction false} CommandsKeepTime(s: State, cmds: seq<Command>)
      ensures Play(s, EventsOf(cmds)).now == s.now
    {
      if cmds != [] {
        var init, cmd := cmds[..|cmds| - 1], cmds[|cmds| - 1];
        CommandsKeepTime(s, init);
        PlayOneMore(s, EventsOf(init), EventOf(cmd));
      }
    }

    /** The events of a PHP timer's callback. */
    static lemma CallbackLog(s: State, id: nat, cmds: seq<Command>)
      ensures var s1 := Step(s, Fire(id)); var log := [Fire(id)] + EventsOf(cmds) + [Done];
              && Play(s, log) == Step(Play(s1, EventsOf(cmds)), Done)
              && (Legal(s, log) <==>
                    Enabled(s, Fire(id)) && Legal(s1, EventsOf(cmds)) && Enabled(Play(s1, EventsOf(cmds)), Done))
              && Play(s, log).now == s.now
    {
      PlayOne(s, Fire(id));
      PlayConcat(s, [Fire(id)], EventsOf(cmds));
      PlayOneMore(s, [Fire(id)] + EventsOf(cmds), Done);
      CommandsKeepTime(Step(s, Fire(id)), cmds);
    }

    /** Lines 148-179 of a tick: the clock moves on, and the timers that are due leave the wheel. */
    method StartTick() returns (head: Node<Callback>)
      requires Valid() && spec.running == None && !wheel.Draining()
      modifies this, wheel`heads, wheel`lists, wheel`due, wheel`repr, wheel`now, wheel`currtick,
               wheel`num, wheel`outstanding, wheel.repr
      ensures Valid() && fresh(wheel.repr - old(wheel.repr)) && wheel.Draining() && wheel.heads[LOCAL] == head
      ensures Enabled(old(spec), Event.Tick) && spec == Step(old(spec), Event.Tick)
    {
      wheel.NothingDueWhenIdle();
      forall id | id in spec.entries && spec.entries[id].due.Some? ensures spec.entries[id].due.value > spec.now {
        assert AgreesAt(timers, wheel.due, spec, id);
      }
      AgreesTick(timers, wheel.due, spec);
      head := Advance();
      Store(lastId, timers, reloading, Step(spec, Event.Tick));
    }

    method Advance() returns (head: Node<Callback>)
      requires wheel.Valid() && !wheel.Draining() && NodesOwned(timers, wheel.due)
      modifies wheel`heads, wheel`lists, wheel`due, wheel`repr, wheel`now, wheel`currtick,
               wheel`num, wheel`outstanding, wheel.repr
      ensures wheel.Valid() && fresh(wheel.repr - old(wheel.repr)) && wheel.Draining() && wheel.heads[LOCAL] == head
      ensures wheel.now == old(wheel.now) + 1 && wheel.due == old(wheel.due) && NodesOwned(timers, wheel.due)
      ensures wheel.outstanding == old(wheel.outstanding)
    {
      head := wheel.Advance();
      forall n | n in wheel.due ensures OwnedAt(timers, n) {
        assert old(OwnedAt(timers, n));
      }
      forall i: nat ensures CallsBack(timers, wheel.due, i) {
        assert old(CallsBack(timers, wheel.due, i));
      }
    }

    /** _wmTimerWheelick: one tick. Its log is the tick, and then the callbacks that the drain has run, each
        with its user code; and when it ends nothing that is due is left. */
    method Tick(code: UserCode, t: nat) returns (ghost cbs: seq<Callback>, ghost log: seq<Event>)
      requires Valid() && spec.running == None && !wheel.Draining() && LeavesItself(code)
      modifies this, wheel`heads, wheel`lists, wheel`due, wheel`repr, wheel`now, wheel`currtick,
               wheel`num, wheel`outstanding, wheel.repr
      ensures Valid() && fresh(wheel.repr - old(wheel.repr)) && spec.running == None && !wheel.Draining()
      ensures Legal(old(spec), log) && spec == Play(old(spec), log)
      ensures log == [Event.Tick] + DrainEvents(cbs, code, t) && spec.now == old(spec.now) + 1
      ensures NothingDue(spec)
    {
      ghost var s0 := spec;
      var head := StartTick();
      PlayOne(s0, Event.Tick);
      ghost var more;
      cbs, more := FireAll(head, code, t);
      log := [Event.Tick] + more;
      PlayConcat(s0, [Event.Tick], more);
      EndTick();
    }

    /** The drain loop. */
    method FireAll(head: Node<Callback>, code: UserCode, t: nat)
        returns (ghost cbs: seq<Callback>, ghost log: seq<Event>)
      requires Valid() && spec.running == None && LeavesItself(code)
      requires wheel.Draining() && head == wheel.heads[LOCAL]
      modifies this, wheel`heads, wheel`lists, wheel`due, wheel`repr, wheel`now, wheel`currtick,
               wheel`num, wheel`outstanding, wheel.repr
      ensures Valid() && fresh(wheel.repr - old(wheel.repr)) && spec.running == None
      ensures wheel.Draining() && wheel.heads[LOCAL] == head && IsEmpty(head)
      ensures Legal(old(spec), log) && spec == Play(old(spec), log) && log == DrainEvents(cbs, code, t)
      ensures spec.now == old(spec.now)
    {
      ghost var s0 := spec;
      cbs, log := [], [];
      var k := 0;
      while !IsEmpty(head)
        invariant Valid() && fresh(wheel.repr - old(wheel.repr)) && spec.running == None
        invariant wheel.Drain().Some? && wheel.Drain().value.0 == head
        invariant Legal(s0, log) && spec == Play(s0, log) && log == DrainEvents(cbs, code, t) && |cbs| == k
        invariant spec.now == old(spec.now)
        decreases wheel.Drain().value.1
      {
        ghost var cb, more := FireOne(head, code, t, k);
        PlayConcat(s0, log, more);
        OneMoreCallback(cbs, cb, code, t);
        cbs, log := cbs + [cb], log + more;
        k := k + 1;
      }
    }

    ghost method EndTick()
      requires Valid() && wheel.Draining() && IsEmpty(wheel.heads[LOCAL])
      modifies wheel`heads, wheel`lists
      ensures Valid() && !wheel.Draining() && NothingDue(spec)
    {
      wheel.EndDrain();
      forall id | id in spec.entries && spec.entries[id].due.Some? ensures spec.entries[id].due.value > spec.now {
        assert AgreesAt(timers, wheel.due, spec, id);
      }
    }

    /** One tick more in a history that began in state s0. */
    method TickAfter(ghost s0: State, ghost past: seq<Event>, ghost drains: seq<seq<Callback>>, code: UserCode, k: nat)
        returns (ghost log: seq<Event>, ghost drains': seq<seq<Callback>>)
      requires Valid() && spec.running == None && !wheel.Draining() && LeavesItself(code)
      requires Legal(s0, past) && spec == Play(s0, past) && past == UpdateEvents(drains, code) && k == |drains|
      modifies this, wheel`heads, wheel`lists, wheel`due, wheel`repr, wheel`now, wheel`currtick,
               wheel`num, wheel`outstanding, wheel.repr
      ensures Valid() && fresh(wheel.repr - old(wheel.repr)) && spec.running == None && !wheel.Draining()
      ensures Legal(s0, log) && spec == Play(s0, log) && spec.now == old(spec.now) + 1
      ensures log == UpdateEvents(drains', code) && |drains'| == k + 1
    {
      ghost var cbs, more := Tick(code, k);
      PlayConcat(s0, past, more);
      OneMoreDrain(drains, cbs, code);
      log, drains' := past + more, drains + [cbs];
    }

    /** The loop of wmTimerWheel_update (lines 211-214): as many ticks as fit into diff milliseconds. */
    method Ticking(time: int, intv: nat, code: UserCode)
        returns (diff: int, ghost drains: seq<seq<Callback>>, ghost log: seq<Event>)
      requires Valid() && spec.running == None && !wheel.Draining() && LeavesItself(code) && intv > 0
      modifies this, wheel`heads, wheel`lists, wheel`due, wheel`repr, wheel`now, wheel`currtick,
               wheel`num, wheel`outstanding, wheel.repr
      ensures Valid() && fresh(wheel.repr - old(wheel.repr)) && spec.running == None && !wheel.Draining()
      ensures Legal(old(spec), log) && spec == Play(old(spec), log) && spec.now == old(spec.now) + |drains|
      ensures log == UpdateEvents(drains, code)
      ensures |drains| == LoopCount(time, intv) && diff == time - |drains| * intv
    {
      ghost var s0 := spec;
      diff, drains, log := time, [], [];
      var k := 0;
      while diff >= intv
        invariant Valid() && fresh(wheel.repr - old(wheel.repr)) && spec.running == None && !wheel.Draining()
        invariant Legal(s0, log) && spec == Play(s0, log) && spec.now == s0.now + k
        invariant log == UpdateEvents(drains, code) && |drains| == k
        invariant Spent(time, diff, k, intv)
      {
        log, drains := TickAfter(s0, log, drains, code, k);
        OneMoreTick(time, diff, k, intv);
        diff := diff - intv;
        k := k + 1;
      }
    }

    method SetLast(currtime: nat)
      requires Valid()
      modifies wheel`lasttime
      ensures Valid() && wheel.lasttime == currtime
    {
      wheel.lasttime := currtime;
    }

    method SetRest(rest: uint16)
      requires Valid()
      modifies wheel`remainder
      ensures Valid() && wheel.remainder == rest
    {
      wheel.remainder := rest;
    }

    /** wmTimerWheel_update: performs the ticks of the elapsed time. The log is a legal history of the registry,
        made of exactly that many ticks, each with the callbacks that it runs and their user code. */
    method Update(currtime: nat, code: UserCode) returns (ghost log: seq<Event>, ghost drains: seq<seq<Callback>>)
      requires Valid() && spec.running == None && !wheel.Draining() && LeavesItself(code) && wheel.interval > 0
      modifies this, wheel`heads, wheel`lists, wheel`due, wheel`repr, wheel`now, wheel`currtick,
               wheel`num, wheel`outstanding, wheel`lasttime, wheel`remainder, wheel.repr
      ensures Valid() && fresh(wheel.repr - old(wheel.repr)) && spec.running == None && !wheel.Draining()
      ensures Legal(old(spec), log) && spec == Play(old(spec), log) && log == UpdateEvents(drains, code)
      ensures var c := old(Clock(wheel.lasttime, wheel.remainder));
              && |drains| == Ticks(c, old(wheel.interval), currtime) && spec.now == old(spec.now) + |drains|
              && Clock(wheel.lasttime, wheel.remainder) == AfterUpdate(c, old(wheel.interval), currtime)
    {
      log, drains := [], [];
      if currtime > wheel.lasttime {
        ghost var c, interval := Clock(wheel.lasttime, wheel.remainder), wheel.interval;
        ghost var diff := ToInt(currtime - c.last + c.rem);
        log, drains := Perform(currtime, code);
        ClockAfter(c, interval, currtime, diff, |drains|, wheel.remainder);
      }
    }

    /** The body of wmTimerWheel_update (lines 205-216). */
    method Perform(currtime: nat, code: UserCode) returns (ghost log: seq<Event>, ghost drains: seq<seq<Callback>>)
      requires Valid() && spec.running == None && !wheel.Draining() && LeavesItself(code) && wheel.interval > 0
      requires currtime > wheel.lasttime
      modifies this, wheel`heads, wheel`lists, wheel`due, wheel`repr, wheel`now, wheel`currtick,
               wheel`num, wheel`outstanding, wheel`lasttime, wheel`remainder, wheel.repr
      ensures Valid() && fresh(wheel.repr - old(wheel.repr)) && spec.running == None && !wheel.Draining()
      ensures Legal(old(spec), log) && spec == Play(old(spec), log) && log == UpdateEvents(drains, code)
      ensures spec.now == old(spec.now) + |drains|
      ensures var diff := ToInt(currtime - old(wheel.lasttime) + old(wheel.remainder));
              && |drains| == LoopCount(diff, wheel.interval) && wheel.lasttime == currtime
              && wheel.remainder == (diff - |drains| * wheel.interval) % 0x1_0000
    {
      var diff := ToInt(currtime - wheel.lasttime + wheel.remainder);
      SetLast(currtime);
      diff, drains, log := Ticking(diff, wheel.interval, code);
      SetRest(diff % 0x1_0000);
    }
  }
}
