/** The coroutine switcher of src/coroutine/coroutine.c and context.c, one method for each thing that
    user code does: create, yield, resume and end. Each runs from there to the point where user code
    runs again, on whatever C stack the jumps lead to. */
module Coroutine {
  import opened Bits

  /** The PHP stack registers of EG(...): whose stack they point into, and where. */
  datatype Regs = Regs(owner: Coroutine?, position: int)

  /** Where a C stack runs, or will continue. */
  datatype Pc = InUserCode | Fresh | InSwapIn(task: Coroutine) | InYield | Ended

  /** A context as jump_fcontext saves it: a C stack, named by the coroutine that owns it. */
  datatype Context = NoContext | OnStack(owner: Coroutine)

  class Coroutine {
    const cid: nat
    var saved: Regs
    var origin: Coroutine?
    var end_: bool
    var ctx_: Context
    var swap_ctx_: Context
    var pc: Pc

    constructor (cid: nat, pc: Pc)
      ensures this.cid == cid && this.pc == pc && !end_ && ctx_ == OnStack(this) && swap_ctx_ == NoContext
    {
      this.cid, this.pc := cid, pc;
      saved := Regs(null, 0);
      origin := null;
      end_ := false;
      ctx_, swap_ctx_ := OnStack(this), NoContext;
    }

    /** Keys of the hash tables have 32 bits. */
    function Key(): uint32 {
      cid % TWO_32
    }
  }

  /** The C stack of a suspended coroutine waits in wmCoroutine_yield. */
  ghost predicate Parked(c: Coroutine, regs: Regs)
    reads c
  {
    c.pc == InYield && c.ctx_ == OnStack(c) && !c.end_ && c.saved == regs && regs.owner == c
  }

  /** callee is the coroutine that caller's C stack last switched to. */
  ghost predicate Linked(caller: Coroutine, callee: Coroutine, regs: Regs)
    reads caller, callee
  {
    && callee.origin == caller && callee.swap_ctx_ == OnStack(caller) && !callee.end_
    && !caller.end_ && caller.ctx_ == OnStack(caller) && caller.pc == InSwapIn(callee) && caller.saved == regs
       && regs.owner == caller
  }

  // ---- the tables, on plain values ---------------------------------------------------

  const LONG_MAX: nat := 0x7fff_ffff_ffff_ffff

  /** ++last_cid; after overflowing it starts again at 101. */
  function NextAfter(lastCid: nat): nat {
    if lastCid >= LONG_MAX then 101 else lastCid + 1
  }

  type Table = map<uint32, Coroutine>

  /** A coroutine that was created and has not ended is on the chain of calls or suspended. */
  ghost predicate Alive(c: Coroutine, chain: seq<Coroutine>, parked: map<Coroutine, Regs>)
    requires chain != []
  {
    c in chain[1..] || c in parked
  }

  ghost predicate Distinct(chain: seq<Coroutine>) {
    forall i, j :: 0 <= i < j < |chain| ==> chain[i] != chain[j]
  }

  ghost predicate CoroutineAt(coroutines: Table, yielded: Table, chain: seq<Coroutine>, parked: map<Coroutine, Regs>,
                              c: Coroutine)
    requires chain != []
  {
    && (c in chain ==> c !in parked)
    && (Alive(c, chain, parked) ==> c.Key() in coroutines && coroutines[c.Key()] == c)
    && (c in parked ==> c.Key() in yielded && yielded[c.Key()] == c)
  }

  ghost predicate KeyAt(coroutines: Table, yielded: Table, chain: seq<Coroutine>, parked: map<Coroutine, Regs>,
                        k: uint32)
    requires chain != []
  {
    && (k in coroutines ==> coroutines[k].Key() == k && Alive(coroutines[k], chain, parked))
    && (k in yielded ==> yielded[k].Key() == k && yielded[k] in parked)
  }

  /** Each coroutine is on the chain once or suspended, never both; `coroutines` holds all of them, and
      `yielded` the suspended ones, each under its own key. */
  ghost predicate Books(coroutines: Table, yielded: Table, chain: seq<Coroutine>, parked: map<Coroutine, Regs>) {
    && chain != []
    && Distinct(chain)
    && (forall c: Coroutine {:trigger CoroutineAt(coroutines, yielded, chain, parked, c)} ::
          c in chain ==> CoroutineAt(coroutines, yielded, chain, parked, c))
    && (forall c: Coroutine {:trigger CoroutineAt(coroutines, yielded, chain, parked, c)} ::
          c in parked ==> CoroutineAt(coroutines, yielded, chain, parked, c))
    && (forall k: uint32 {:trigger KeyAt(coroutines, yielded, chain, parked, k)} ::
          KeyAt(coroutines, yielded, chain, parked, k))
  }

  lemma Shorter(chain: seq<Coroutine>, rest: seq<Coroutine>, c: Coroutine)
    requires Distinct(chain) && |chain| > 1 && rest == chain[..|chain| - 1] && c == chain[|chain| - 1]
    ensures Distinct(rest) && chain == rest + [c] && chain[1..] == rest[1..] + [c]
    ensures c !in rest && c in chain[1..] && forall x :: x in rest[1..] ==> x in rest
  {
    assert c == chain[1..][|chain| - 2];
  }

  lemma BooksCreate(coroutines: Table, yielded: Table, chain: seq<Coroutine>, parked: map<Coroutine, Regs>,
                    c: Coroutine)
    requires Books(coroutines, yielded, chain, parked)
    requires c !in chain && c !in parked && c.Key() !in coroutines
    ensures Books(coroutines[c.Key() := c], yielded, chain + [c], parked)
  {
    assert (chain + [c])[1..] == chain[1..] + [c];
    forall x | x in chain + [c] || x in parked
      ensures CoroutineAt(coroutines[c.Key() := c], yielded, chain + [c], parked, x)
    {
      assert CoroutineAt(coroutines, yielded, chain, parked, x);
    }
    var coroutines' := coroutines[c.Key() := c];
    forall k ensures KeyAt(coroutines', yielded, chain + [c], parked, k) {
      assert KeyAt(coroutines, yielded, chain, parked, k);
    }
  }

  lemma BooksFresh(coroutines: Table, yielded: Table, chain: seq<Coroutine>, parked: map<Coroutine, Regs>, c: Coroutine)
    requires Books(coroutines, yielded, chain, parked) && c.Key() !in coroutines && c != chain[0]
    ensures c !in chain && c !in parked
  {
    assert CoroutineAt(coroutines, yielded, chain, parked, c);
    assert chain == chain[..1] + chain[1..];
  }

  /** The key of a live coroutine is in the yield table exactly if the coroutine is suspended. */
  lemma BooksSuspended(coroutines: Table, yielded: Table, chain: seq<Coroutine>, parked: map<Coroutine, Regs>,
                       c: Coroutine)
    requires Books(coroutines, yielded, chain, parked) && c.Key() in coroutines && coroutines[c.Key()] == c
    ensures c.Key() in yielded <==> c in parked
  {
    assert KeyAt(coroutines, yielded, chain, parked, c.Key());
    assert CoroutineAt(coroutines, yielded, chain, parked, c);
    if c.Key() in yielded {
      assert CoroutineAt(coroutines, yielded, chain, parked, yielded[c.Key()]);
    }
  }

  /** The failing branch of yield cannot be reached: the running coroutine's key is free in the yield table. */
  lemma BooksYield(coroutines: Table, yielded: Table, chain: seq<Coroutine>, parked: map<Coroutine, Regs>, regs: Regs)
    requires Books(coroutines, yielded, chain, parked) && |chain| > 1
    ensures var c := chain[|chain| - 1];
            && c.Key() !in yielded && c !in parked
            && Books(coroutines, yielded[c.Key() := c], chain[..|chain| - 1], parked[c := regs])
  {
    var c := chain[|chain| - 1];
    var rest := chain[..|chain| - 1];
    Shorter(chain, rest, c);
    assert CoroutineAt(coroutines, yielded, chain, parked, c);
    BooksSuspended(coroutines, yielded, chain, parked, c);
    var yielded', parked' := yielded[c.Key() := c], parked[c := regs];
    forall x | x in rest || x in parked' ensures CoroutineAt(coroutines, yielded', rest, parked', x) {
      assert CoroutineAt(coroutines, yielded, chain, parked, x);
    }
    forall k ensures KeyAt(coroutines, yielded', rest, parked', k) {
      assert KeyAt(coroutines, yielded, chain, parked, k);
    }
  }

  lemma BooksResume(coroutines: Table, yielded: Table, chain: seq<Coroutine>, parked: map<Coroutine, Regs>,
                    c: Coroutine)
    requires Books(coroutines, yielded, chain, parked) && c in parked
    ensures c !in chain && Books(coroutines, yielded - {c.Key()}, chain + [c], parked - {c})
  {
    assert CoroutineAt(coroutines, yielded, chain, parked, c);
    assert (chain + [c])[1..] == chain[1..] + [c];
    forall x | x in chain + [c] || x in parked - {c}
      ensures CoroutineAt(coroutines, yielded - {c.Key()}, chain + [c], parked - {c}, x)
    {
      assert CoroutineAt(coroutines, yielded, chain, parked, x);
    }
    forall k ensures KeyAt(coroutines, yielded - {c.Key()}, chain + [c], parked - {c}, k) {
      assert KeyAt(coroutines, yielded, chain, parked, k);
      assert k in yielded ==> CoroutineAt(coroutines, yielded, chain, parked, yielded[k]);
    }
  }

  lemma BooksEnd(coroutines: Table, yielded: Table, chain: seq<Coroutine>, parked: map<Coroutine, Regs>)
    requires Books(coroutines, yielded, chain, parked) && |chain| > 1
    ensures var c := chain[|chain| - 1];
            && c !in parked && c.Key() in coroutines && c.Key() !in yielded
            && Books(coroutines - {c.Key()}, yielded, chain[..|chain| - 1], parked)
  {
    var c := chain[|chain| - 1];
    var rest := chain[..|chain| - 1];
    Shorter(chain, rest, c);
    assert CoroutineAt(coroutines, yielded, chain, parked, c);
    BooksSuspended(coroutines, yielded, chain, parked, c);
    forall x | x in rest || x in parked ensures CoroutineAt(coroutines - {c.Key()}, yielded, rest, parked, x) {
      assert CoroutineAt(coroutines, yielded, chain, parked, x);
    }
    forall k ensures KeyAt(coroutines - {c.Key()}, yielded, rest, parked, k) {
      assert KeyAt(coroutines, yielded, chain, parked, k);
    }
  }

  lemma SizeWithout(t: Table, k: uint32)
    requires k in t
    ensures |t - {k}| == |t| - 1
  {
    assert (t - {k}).Keys == t.Keys - {k};
    assert |(t - {k}).Keys| == |t.Keys| - 1;
  }

  lemma SizeWith(t: Table, k: uint32, c: Coroutine)
    requires k !in t
    ensures |t[k := c]| == |t| + 1
  {
    assert t[k := c].Keys == t.Keys + {k};
    assert |t.Keys + {k}| == |t.Keys| + 1;
  }

  // ---- the C stacks --------------------------------------------------------------------

  /** The i-th call on the chain is in progress, and will return to its caller. */
  ghost predicate LinkedAt(chain: seq<Coroutine>, regsAt: seq<Regs>, i: nat)
    reads chain
  {
    i + 1 < |chain| && i < |regsAt| ==> Linked(chain[i], chain[i + 1], regsAt[i])
  }

  ghost predicate Stacked(chain: seq<Coroutine>, regsAt: seq<Regs>)
    reads chain
  {
    && |regsAt| == |chain| - 1
    && forall i: nat {:trigger LinkedAt(chain, regsAt, i)} :: LinkedAt(chain, regsAt, i)
  }

  ghost predicate ParkedAt(parked: map<Coroutine, Regs>, c: Coroutine)
    reads c
  {
    c in parked ==> Parked(c, parked[c])
  }

  ghost predicate AllParked(parked: map<Coroutine, Regs>)
    reads parked.Keys
  {
    forall c {:trigger ParkedAt(parked, c)} :: c in parked ==> ParkedAt(parked, c)
  }

  // ---- the switches, on plain values -----------------------------------------------------

  /** The calls of create and resume that have not returned: chain[i] made the call that runs
      chain[i + 1], with the registers regsAt[i]; the suspended coroutines, with their registers; and
      the registers of the running one. */
  datatype Switches = Switches(chain: seq<Coroutine>, regsAt: seq<Regs>, parked: map<Coroutine, Regs>, eg: Regs) {
    ghost predicate Valid() {
      chain != [] && |regsAt| == |chain| - 1
    }
  }

  datatype Event =
    | Moves(position: int)
    | Creates(task: Coroutine, position: int)
    | Resumes(task: Coroutine)
    | Yields
    | Ends

  ghost predicate CanHappen(s: Switches, e: Event) {
    match e
    case Moves(_) => true
    case Creates(task, _) => task !in s.chain && task !in s.parked
    case Resumes(task) => task in s.parked
    case Yields => |s.chain| > 1
    case Ends => |s.chain| > 1
  }

  ghost function After(s: Switches, e: Event): (r: Switches)
    requires s.Valid() && CanHappen(s, e)
    ensures r.Valid()
  {
    match e
    case Moves(p) => s.(eg := Regs(s.eg.owner, p))
    case Creates(task, p) => Switches(s.chain + [task], s.regsAt + [s.eg], s.parked, Regs(task, p))
    case Resumes(task) => Switches(s.chain + [task], s.regsAt + [s.eg], s.parked - {task}, s.parked[task])
    case Yields =>
      var n := |s.chain| - 1;
      Switches(s.chain[..n], s.regsAt[..n - 1], s.parked[s.chain[n] := s.eg], s.regsAt[n - 1])
    case Ends =>
      var n := |s.chain| - 1;
      Switches(s.chain[..n], s.regsAt[..n - 1], s.parked, s.regsAt[n - 1])
  }

  /** The states of a run: one for each event, and the one before the first. */
  ghost predicate IsRun(ss: seq<Switches>, es: seq<Event>) {
    && |ss| == |es| + 1 && (forall i :: 0 <= i < |ss| ==> ss[i].Valid())
    && forall i :: 0 <= i < |es| ==> CanHappen(ss[i], es[i]) && ss[i + 1] == After(ss[i], es[i])
  }

  /** As long as the chain does not become shorter than n, its first n calls stay in progress. */
  lemma {:induction false} CallsStayInProgress(ss: seq<Switches>, es: seq<Event>, n: nat)
    requires IsRun(ss, es) && n > 0 && forall i :: 0 <= i < |ss| ==> |ss[i].chain| >= n
    ensures ss[|es|].Valid() && ss[|es|].chain[..n] == ss[0].chain[..n]
            && ss[|es|].regsAt[..n - 1] == ss[0].regsAt[..n - 1]
  {
    var m := |es|;
    if m > 0 {
      assert ss[..m][0] == ss[0];
      CallsStayInProgress(ss[..m], es[..m - 1], n);
      assert ss[m] == After(ss[m - 1], es[m - 1]);
    }
  }

  /** Whatever the coroutines do between a call of create or resume and the moment it returns, the first at
      which the chain is as short as at the call: control returns to the caller, with the registers it had. */
  lemma {:induction false} ReturnsAsCalled(ss: seq<Switches>, es: seq<Event>)
    requires IsRun(ss, es) && |es| > 1 && (es[0].Creates? || es[0].Resumes?)
    requires forall i :: 0 < i < |es| ==> |ss[i].chain| > |ss[0].chain|
    requires |ss[|es|].chain| == |ss[0].chain|
    ensures ss[|es|].chain == ss[0].chain && ss[|es|].eg == ss[0].eg && ss[|es|].regsAt == ss[0].regsAt
    ensures es[|es| - 1] in {Yields, Ends}
  {
    var m, n := |es|, |ss[0].chain|;
    var inner, middle := ss[1..m], es[1..m - 1];
    assert ss[1] == After(ss[0], es[0]) && ss[m] == After(ss[m - 1], es[m - 1]);
    assert forall i :: 0 <= i < |inner| ==> inner[i] == ss[i + 1];
    assert forall i :: 0 <= i < |middle| ==> middle[i] == es[i + 1];
    CallsStayInProgress(inner, middle, n + 1);
    assert ss[1].chain[..n] == ss[0].chain && ss[1].regsAt[..n - 1] == ss[0].regsAt;
    assert ss[m].chain == ss[m - 1].chain[..n + 1][..n];
    assert ss[m].regsAt == ss[m - 1].regsAt[..n][..n - 1];
  }

  /** A coroutine that yields finds its registers unchanged at the first event that resumes it. */
  lemma {:induction false} ResumedAsYielded(ss: seq<Switches>, es: seq<Event>, c: Coroutine)
    requires IsRun(ss, es) && |es| > 1 && es[0] == Yields && c == ss[0].chain[|ss[0].chain| - 1]
             && es[|es| - 1] == Resumes(c)
    requires forall i :: 0 < i < |es| - 1 ==> es[i] != Resumes(c)
    requires Distinct(ss[0].chain)
    ensures ss[|es|].eg == ss[0].eg && ss[|es|].chain == ss[|es| - 1].chain + [c]
  {
    var m := |es| - 1;
    assert ss[1] == After(ss[0], es[0]);
    var i := 1;
    while i < m
      invariant 1 <= i <= m
      invariant c in ss[i].parked && ss[i].parked[c] == ss[0].eg && c !in ss[i].chain
    {
      assert ss[i + 1] == After(ss[i], es[i]);
      assert es[i] in {Yields, Ends} ==> ss[i].chain[|ss[i].chain| - 1] in ss[i].chain;
      i := i + 1;
    }
    assert ss[m + 1] == After(ss[m], es[m]);
  }

  class Scheduler {
    const mainTask: Coroutine
    var lastCid: nat
    var totalNum: int
    var coroutines: Table
    var userYieldCoros: Table
    var currentTask: Coroutine?
    var eg: Regs
    /** The coroutine whose C stack executes. */
    var cpu: Coroutine

    /** See Switches. */
    ghost var chain: seq<Coroutine>
    ghost var regsAt: seq<Regs>
    ghost var parked: map<Coroutine, Regs>

    ghost predicate Jumps()
      reads this`chain, this`regsAt, this`parked, chain, parked.Keys
    {
      Stacked(chain, regsAt) && AllParked(parked)
    }

    /** The C stack of task is the running one, and all others wait for their callee or to be resumed. */
    ghost predicate Running(task: Coroutine)
      reads this`chain, this`regsAt, this`parked, this`cpu, chain, parked.Keys
    {
      cpu == task && chain != [] && Distinct(chain) && task == chain[|chain| - 1] && task !in parked && Jumps()
    }

    /** The current task runs user code, on its own C stack and PHP stack. */
    ghost predicate Poised()
      reads this`chain, this`regsAt, this`parked, this`cpu, this`currentTask, this`eg, chain, parked.Keys, cpu
    {
      && Running(cpu) && chain[0] == mainTask
      && (currentTask == cpu || (currentTask == null && |chain| == 1))
      && cpu.pc == InUserCode && eg.owner == cpu && !cpu.end_ && cpu.ctx_ == OnStack(cpu)
    }

    /** What holds whenever user code runs. */
    ghost predicate Valid()
      reads this, chain, parked.Keys, cpu
    {
      && Books(coroutines, userYieldCoros, chain, parked) && Poised()
      && totalNum == |coroutines| && lastCid <= LONG_MAX
    }

    ghost function View(): Switches
      reads this`chain, this`regsAt, this`parked, this`eg
    {
      Switches(chain, regsAt, parked, eg)
    }

    /** Where control goes when the running coroutine yields or ends. */
    ghost function Caller(): Coroutine
      requires |chain| > 1
      reads this`chain
    {
      chain[|chain| - 2]
    }

    /** The process starts on the main C stack. */
    constructor (position: int)
      ensures Valid() && View() == Switches([mainTask], [], map[], Regs(mainTask, position))
      ensures coroutines == map[] && lastCid == 0
    {
      var m := new Coroutine(0, InUserCode);
      mainTask := m;
      lastCid, totalNum, coroutines, userYieldCoros, currentTask := 0, 0, map[], map[], null;
      eg := Regs(m, position);
      cpu := m;
      chain, regsAt, parked := [m], [], map[];
    }

    /** Ordinary user code moves the registers within its own PHP stack. */
    method UserCode(position: int)
      requires Valid()
      modifies this`eg
      ensures Valid() && View() == After(old(View()), Moves(position))
    {
      eg := Regs(cpu, position);
    }

    /** get_task: the current task, which becomes the main task if there is none. */
    method GetTask() returns (t: Coroutine)
      modifies this`currentTask
      ensures currentTask == t == if old(currentTask) == null then mainTask else old(currentTask)
    {
      if currentTask == null {
        currentTask := mainTask;
      }
      t := currentTask;
    }

    /** save_vm_stack, of the coroutine that runs. */
    method SaveVmStack(task: Coroutine)
      requires Running(task)
      modifies task`saved
      ensures task.saved == eg && Running(task)
    {
      task.saved := eg;
      forall i: nat ensures LinkedAt(chain, regsAt, i) {
        assert old(LinkedAt(chain, regsAt, i));
      }
      forall c | c in parked ensures ParkedAt(parked, c) {
        assert old(ParkedAt(parked, c));
      }
    }

    /** restore_vm_stack. */
    method RestoreVmStack(task: Coroutine)
      modifies this`eg
      ensures eg == task.saved
    {
      eg := task.saved;
    }

    /** wmContext_swap_in: the running C stack is saved in swap_ctx_, and that of ctx_ runs. */
    method SwapIn(task: Coroutine)
      requires task.ctx_.OnStack? && task != cpu
      modifies this`cpu, task`swap_ctx_, cpu`pc
      ensures cpu == task.ctx_.owner && task.swap_ctx_ == OnStack(old(cpu)) && old(cpu).pc == InSwapIn(task)
      ensures task.pc == old(task.pc)
    {
      task.swap_ctx_ := OnStack(cpu);
      cpu.pc := InSwapIn(task);
      cpu := task.ctx_.owner;
    }

    /** wmContext_swap_out: the running C stack is saved in ctx_, and that of swap_ctx_ runs. */
    method SwapOut(task: Coroutine, pc: Pc)
      requires task.swap_ctx_.OnStack? && task.swap_ctx_.owner != cpu
      modifies this`cpu, task`ctx_, cpu`pc
      ensures cpu == task.swap_ctx_.owner && task.ctx_ == OnStack(old(cpu)) && old(cpu).pc == pc
      ensures cpu.pc == old(task.swap_ctx_.owner.pc)
    {
      task.ctx_ := OnStack(cpu);
      cpu.pc := pc;
      cpu := task.swap_ctx_.owner;
    }

    /** What create and resume have in common (lines 73-77 and 326-329): the current task, whose registers
        were just saved, becomes the origin of task, and control goes there. */
    method SwitchTo(task: Coroutine)
      requires Running(cpu) && currentTask == cpu
      requires task !in chain && task.ctx_ == OnStack(task) && !task.end_
      requires cpu.saved.owner == cpu && !cpu.end_ && cpu.ctx_ == OnStack(cpu)
      modifies this`cpu, this`currentTask, this`chain, this`regsAt, this`parked, cpu`pc, task`origin, task`swap_ctx_
      ensures chain == old(chain) + [task] && regsAt == old(regsAt) + [old(cpu).saved] && parked == old(parked) - {task}
      ensures Running(task) && currentTask == task && task.pc == old(task.pc)
    {
      task.origin := currentTask;
      currentTask := task;
      SwapIn(task);
      ghost var n := |chain| - 1;
      chain, regsAt, parked := chain + [task], regsAt + [old(cpu).saved], parked - {task};
      forall i: nat ensures LinkedAt(chain, regsAt, i) {
        assert old(LinkedAt(chain, regsAt, i));
      }
      forall c | c in parked ensures ParkedAt(parked, c) {
        assert old(ParkedAt(parked, c));
      }
    }

    /** The C stack of a coroutine that has just been switched to runs. */
    method Run(task: Coroutine)
      requires Running(task)
      modifies task`pc
      ensures Running(task) && task.pc == InUserCode
    {
      task.pc := InUserCode;
      forall i: nat ensures LinkedAt(chain, regsAt, i) {
        assert old(LinkedAt(chain, regsAt, i));
      }
      forall c | c in parked ensures ParkedAt(parked, c) {
        assert old(ParkedAt(parked, c));
      }
    }

    /** Control leaves the coroutine that runs, and its C stack, for the one that last switched to it. */
    method Leave(pc: Pc, ghost parked': map<Coroutine, Regs>)
      requires |chain| > 1 && Running(cpu) && cpu.ctx_ == OnStack(cpu)
      requires pc == InYield || pc == Ended
      requires pc == InYield ==> parked' == parked[cpu := cpu.saved] && cpu.saved.owner == cpu && !cpu.end_
      requires pc != InYield ==> parked' == parked
      modifies this`cpu, this`chain, this`regsAt, this`parked, cpu`ctx_, cpu`pc, cpu`end_
      ensures var n := |old(chain)| - 1; chain == old(chain)[..n] && regsAt == old(regsAt)[..n - 1] && parked == parked'
      ensures cpu.pc == InSwapIn(old(cpu)) && Running(cpu) && old(cpu).end_ == (pc == Ended || old(cpu.end_))
      ensures !cpu.end_ && cpu.ctx_ == OnStack(cpu) && cpu.saved == old(regsAt)[|chain| - 1]
    {
      ghost var n := |chain| - 1;
      assert LinkedAt(chain, regsAt, n - 1);
      if pc == Ended {
        cpu.end_ := true;
      }
      SwapOut(cpu, pc);
      chain, regsAt, parked := chain[..n], regsAt[..n - 1], parked';
      forall i: nat ensures LinkedAt(chain, regsAt, i) {
        assert old(LinkedAt(chain, regsAt, i));
      }
      forall c | c in parked ensures ParkedAt(parked, c) {
        assert old(ParkedAt(parked, c));
      }
    }

    /** close_coro: the stack it frees must be the one of the task. */
    method CloseCoro(task: Coroutine)
      requires task.Key() in coroutines && eg.owner == task
      modifies this`coroutines, this`userYieldCoros, this`totalNum, this`eg
      ensures coroutines == old(coroutines) - {task.Key()} && totalNum == old(totalNum) - 1
      ensures userYieldCoros == old(userYieldCoros) - {task.Key()}
      ensures eg == (if task.origin == null then mainTask.saved else task.origin.saved)
    {
      coroutines := coroutines - {task.Key()};
      totalNum := totalNum - 1;
      userYieldCoros := userYieldCoros - {task.Key()};
      assert eg.owner == task;
      var originTask := if task.origin == null then mainTask else task.origin;
      RestoreVmStack(originTask);
    }

    /** What follows swap_in in run and resume (lines 81-88 and 330-337), on the C stack of the caller: a
        callee that has ended is closed. */
    method AfterSwapIn()
      requires cpu.pc.InSwapIn? && Running(cpu)
      requires var t := cpu.pc.task; t.end_ ==> currentTask == t && t.Key() in coroutines && eg.owner == t
      modifies this`currentTask, this`coroutines, this`userYieldCoros, this`totalNum, this`eg, cpu`pc
      ensures Running(cpu) && cpu.pc == InUserCode
      ensures var t := old(cpu.pc.task);
              if t.end_
              then currentTask == t.origin && coroutines == old(coroutines) - {t.Key()}
                   && userYieldCoros == old(userYieldCoros) - {t.Key()} && totalNum == old(totalNum) - 1
                   && eg == (if t.origin == null then mainTask.saved else t.origin.saved)
              else currentTask == old(currentTask) && coroutines == old(coroutines)
                   && userYieldCoros == old(userYieldCoros) && totalNum == old(totalNum) && eg == old(eg)
    {
      var task := cpu.pc.task;
      if task.end_ {
        assert currentTask == task;
        currentTask := task.origin;
        CloseCoro(task);
      }
      Run(cpu);
    }

    /** The switch that create makes, once the tables are up to date; main_func gives the new coroutine a
        PHP stack of its own. */
    method Begin(task: Coroutine, position: int)
      requires Poised() && task !in chain && task !in parked && task.ctx_ == OnStack(task) && !task.end_
      modifies this`cpu, this`currentTask, this`chain, this`regsAt, this`parked, this`eg, cpu`pc, cpu`saved, task
      ensures Poised() && currentTask == cpu == task && View() == After(old(View()), Creates(task, position))
    {
      assert parked - {task} == parked;
      var current := GetTask();
      SaveVmStack(current);
      SwitchTo(task);
      eg := Regs(task, position);
      Run(task);
      SaveVmStack(task);
    }

    /** The switch that resume makes. */
    method Continue(task: Coroutine)
      requires Poised() && task in parked && task !in chain
      modifies this`cpu, this`currentTask, this`chain, this`regsAt, this`parked, this`eg, cpu`pc, cpu`saved, task
      ensures Poised() && currentTask == cpu == task && View() == After(old(View()), Resumes(task))
    {
      assert ParkedAt(parked, task);
      var current := GetTask();
      SaveVmStack(current);
      RestoreVmStack(task);
      SwitchTo(task);
      Run(task);
    }

    /** The switch that yield makes. */
    method Suspend(task: Coroutine)
      requires Poised() && |chain| > 1 && task == currentTask
      modifies this, cpu, Caller()`pc
      ensures Poised() && currentTask == cpu && View() == After(old(View()), Yields)
      ensures lastCid == old(lastCid) && totalNum == old(totalNum)
      ensures coroutines == old(coroutines) && userYieldCoros == old(userYieldCoros)
    {
      GiveBack(task);
      Leave(InYield, parked[task := task.saved]);
      AfterSwapIn();
    }

    /** Lines 296-301: the registers and current_task become those of the origin again. */
    method GiveBack(task: Coroutine)
      requires Poised() && |chain| > 1 && task == currentTask
      modifies this`eg, this`currentTask, task`saved
      ensures Running(task) && task.saved == old(eg) && currentTask == Caller() && eg == regsAt[|chain| - 2]
      ensures eg.owner == Caller()
    {
      assert LinkedAt(chain, regsAt, |chain| - 2);
      SaveVmStack(task);
      RestoreVmStack(task.origin);
      currentTask := task.origin;
    }

    /** wmCoroutine_create, up to the first statement of the new coroutine's user code, which main_func
        runs on a PHP stack of its own. It fails exactly if a live coroutine has the same cid in 32 bits. */
    method Create(position: int) returns (task: Coroutine?)
      requires Valid()
      modifies this, cpu`pc, cpu`saved
      ensures Valid() && lastCid == if old(lastCid) == 0x7fff_ffff_ffff_ffff then 101 else old(lastCid) + 1
      ensures task == null <==> exists k :: k in old(coroutines)
                                            && old(coroutines)[k].cid % 0x1_0000_0000 == lastCid % 0x1_0000_0000
      ensures task == null ==>
                View() == old(View()) && coroutines == old(coroutines) && userYieldCoros == old(userYieldCoros)
      ensures task != null ==> fresh(task) && task.cid == lastCid && cpu == currentTask == task
                               && View() == After(old(View()), Creates(task, position))
                               && coroutines == old(coroutines)[task.Key() := task]
                                  && userYieldCoros == old(userYieldCoros)
    {
      lastCid := NextAfter(lastCid);
      var t := new Coroutine(lastCid, Fresh);
      KeysOfCids(t.Key());
      if t.Key() in coroutines {
        return null;
      }
      BooksFresh(coroutines, userYieldCoros, chain, parked, t);
      Admit(t, position);
      return t;
    }

    /** Each coroutine is in the table under its cid in 32 bits. */
    lemma KeysOfCids(key: uint32)
      requires Books(coroutines, userYieldCoros, chain, parked)
      ensures key in coroutines <==> exists k :: k in coroutines && coroutines[k].cid % 0x1_0000_0000 == key
    {
      if key in coroutines {
        assert KeyAt(coroutines, userYieldCoros, chain, parked, key);
      }
      forall k | k in coroutines ensures coroutines[k].cid % 0x1_0000_0000 == k {
        assert KeyAt(coroutines, userYieldCoros, chain, parked, k);
      }
    }

    /** A coroutine that is in no table enters `coroutines` and runs. */
    method Admit(task: Coroutine, position: int)
      requires Valid() && task !in chain && task !in parked && task.Key() !in coroutines
      requires task.ctx_ == OnStack(task) && !task.end_
      modifies this, cpu`pc, cpu`saved, task
      ensures Valid() && lastCid == old(lastCid) && cpu == currentTask == task
      ensures View() == After(old(View()), Creates(task, position))
      ensures coroutines == old(coroutines)[task.Key() := task] && userYieldCoros == old(userYieldCoros)
    {
      BooksCreate(coroutines, userYieldCoros, chain, parked, task);
      SizeWith(coroutines, task.Key(), task);
      coroutines := coroutines[task.Key() := task];
      totalNum := totalNum + 1;
      Begin(task, position);
    }

    /** wmCoroutine_resume, up to where the resumed coroutine leaves wmCoroutine_yield. It refuses every
        coroutine that is not suspended. */
    method Resume(task: Coroutine) returns (ok: bool)
      requires Valid() && task.Key() in coroutines && coroutines[task.Key()] == task && task != currentTask
      modifies this, cpu`pc, cpu`saved, task
      ensures Valid() && lastCid == old(lastCid) && coroutines == old(coroutines)
      ensures ok == (task in old(parked))
      ensures !ok ==> View() == old(View()) && userYieldCoros == old(userYieldCoros)
      ensures ok ==> View() == After(old(View()), Resumes(task)) && cpu == currentTask == task
                     && userYieldCoros == old(userYieldCoros) - {task.Key()}
    {
      assert KeyAt(coroutines, userYieldCoros, chain, parked, task.Key());
      BooksSuspended(coroutines, userYieldCoros, chain, parked, task);
      if task.Key() !in userYieldCoros {
        return false;
      }
      BooksResume(coroutines, userYieldCoros, chain, parked, task);
      userYieldCoros := userYieldCoros - {task.Key()};
      Continue(task);
      return true;
    }

    /** wmCoroutine_yield, up to where the caller of create or resume goes on. The key of the current task is
        free in the yield table, so its warning branch is dead. */
    method Yield()
      requires Valid() && |chain| > 1
      modifies this, cpu, Caller()`pc
      ensures Valid() && View() == After(old(View()), Yields) && lastCid == old(lastCid)
      ensures currentTask == cpu && coroutines == old(coroutines)
      ensures userYieldCoros == old(userYieldCoros)[old(cpu).Key() := old(cpu)]
    {
      var task := currentTask;
      BooksYield(coroutines, userYieldCoros, chain, parked, eg);
      assert task.Key() !in userYieldCoros;
      userYieldCoros := userYieldCoros[task.Key() := task];
      Suspend(task);
    }

    /** The end of wmContext_func, up to where the caller of create or resume goes on. */
    method End()
      requires Valid() && |chain| > 1
      modifies this, cpu, Caller()`pc
      ensures Valid() && View() == After(old(View()), Ends) && lastCid == old(lastCid)
      ensures currentTask == cpu && userYieldCoros == old(userYieldCoros)
      ensures coroutines == old(coroutines) - {old(cpu).Key()}
    {
      var task := cpu;
      BooksEnd(coroutines, userYieldCoros, chain, parked);
      SizeWithout(coroutines, task.Key());
      assert userYieldCoros - {task.Key()} == userYieldCoros;
      Finish(task);
    }

    /** The switch that the end of a coroutine makes; its caller closes it. */
    method Finish(task: Coroutine)
      requires Poised() && |chain| > 1 && task == cpu && task.Key() in coroutines
      modifies this, cpu, Caller()`pc
      ensures Poised() && currentTask == cpu && View() == After(old(View()), Ends) && lastCid == old(lastCid)
      ensures coroutines == old(coroutines) - {task.Key()} && totalNum == old(totalNum) - 1
      ensures userYieldCoros == old(userYieldCoros) - {task.Key()}
    {
      assert LinkedAt(chain, regsAt, |chain| - 2);
      Leave(Ended, parked);
      AfterSwapIn();
    }
  }
}
