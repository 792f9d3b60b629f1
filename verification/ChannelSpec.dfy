/** The channel of src/coroutine/channel.c as a state machine over what its callers see: each step runs
    from one switch of coroutines to the next. */
module ChannelSpec {
  import opened Options

  /** Where a coroutine sleeps in the channel. A call with a timeout has a ticket, which stands for the
      record (WmChannelCoroutineType) that it shares with its timer. */
  datatype Wait<T> = InPush(value: T, ticket: Option<nat>) | InPop(ticket: Option<nat>)

  /** How a call ends: push returns true or false, pop returns a value or NULL. */
  datatype Note<T> =
    | Accepted(co: nat, value: T)
    | Refused(co: nat)
    | Got(co: nat, value: T)
    | GotNothing(co: nat)

  /** armed: the records with type == true, and their coroutine; woken: the sleeper that the channel has
      just resumed, if it is in control. */
  datatype State<T> = State(
    capacity: nat,
    data: seq<T>, producers: seq<nat>, consumers: seq<nat>,
    asleep: map<nat, Wait<T>>, armed: map<nat, nat>, tickets: nat,
    woken: Option<nat>, log: seq<Note<T>>)

  /** Push and Pop are calls by a running coroutine; Handover is the next step of a sleeper that the channel
      resumed; Timeout is the timer of a ticket; Resume is any other code resuming a sleeper. */
  datatype Event<T> =
    | Push(co: nat, value: T, timed: bool)
    | Pop(co: nat, timed: bool)
    | Handover
    | Timeout(ticket: nat)
    | Resume(co: nat)

  function Empty<T>(capacity: nat): State<T> {
    State(capacity, [], [], [], map[], map[], 0, None, [])
  }

  ghost predicate Enabled<T>(s: State<T>, e: Event<T>) {
    match e
    case Push(co, _, _) => s.woken == None && co !in s.asleep
    case Pop(co, _) => s.woken == None && co !in s.asleep
    case Handover => s.woken.Some? && s.woken.value in s.asleep
    case Timeout(_) => s.woken == None
    case Resume(co) => s.woken == None && co in s.asleep
  }

  /** A new sleeper, and its ticket if it set a timer. */
  ghost function Sleep<T>(s: State<T>, co: nat, w: Wait<T>): State<T> {
    if w.ticket.Some? then s.(asleep := s.asleep[co := w], armed := s.armed[s.tickets := co], tickets := s.tickets + 1)
    else s.(asleep := s.asleep[co := w])
  }

  function Ticket(timed: bool, tickets: nat): Option<nat> {
    if timed then Some(tickets) else None
  }

  /** The channel resumes co, which takes effect if it sleeps here. */
  ghost function Notify<T>(s: State<T>, co: nat): State<T> {
    s.(woken := if co in s.asleep then Some(co) else None)
  }

  ghost function NotifyConsumer<T>(s: State<T>): State<T> {
    if s.consumers == [] then s else Notify(s.(consumers := s.consumers[1..]), s.consumers[0])
  }

  ghost function NotifyProducer<T>(s: State<T>): State<T> {
    if s.producers == [] then s else Notify(s.(producers := s.producers[1..]), s.producers[0])
  }

  ghost function Stored<T>(s: State<T>, co: nat, value: T): State<T> {
    s.(data := s.data + [value], log := s.log + [Accepted(co, value)])
  }

  ghost function Fetched<T>(s: State<T>, co: nat): State<T>
    requires s.data != []
  {
    s.(data := s.data[1..], log := s.log + [Got(co, s.data[0])])
  }

  /** Lines 57-71: the value is stored, and the first consumer notified. */
  ghost function Commit<T>(s: State<T>, co: nat, value: T): State<T> {
    NotifyConsumer(Stored(s, co, value))
  }

  /** Lines 110-125: a value is taken out, and the first producer notified. */
  ghost function Take<T>(s: State<T>, co: nat): State<T>
    requires s.data != []
  {
    NotifyProducer(Fetched(s, co))
  }

  ghost function TryPush<T>(s: State<T>, co: nat, value: T): State<T> {
    if |s.data| == s.capacity then s.(log := s.log + [Refused(co)]) else Commit(s, co, value)
  }

  ghost function TryPop<T>(s: State<T>, co: nat): State<T> {
    if s.data == [] then s.(log := s.log + [GotNothing(co)]) else Take(s, co)
  }

  /** A sleeper leaves its sleep; its timer is not to wake it any more. */
  ghost function Awake<T>(s: State<T>, co: nat): State<T>
    requires co in s.asleep
  {
    var w := s.asleep[co];
    s.(asleep := s.asleep - {co}, woken := None,
       armed := if w.ticket.Some? then s.armed - {w.ticket.value} else s.armed)
  }

  /** A sleeper that has been resumed tries once. */
  ghost function Wake<T>(s: State<T>, co: nat): State<T>
    requires co in s.asleep
  {
    var s1 := Awake(s, co);
    match s.asleep[co]
    case InPush(value, _) => TryPush(s1, co, value)
    case InPop(_) => TryPop(s1, co)
  }

  ghost function Step<T>(s: State<T>, e: Event<T>): State<T>
    requires Enabled(s, e)
  {
    match e
    case Push(co, value, timed) =>
      if |s.data| == s.capacity
      then Sleep(s, co, InPush(value, Ticket(timed, s.tickets))).(producers := s.producers + [co])
      else Commit(s, co, value)
    case Pop(co, timed) =>
      if s.data == [] then Sleep(s, co, InPop(Ticket(timed, s.tickets))).(consumers := s.consumers + [co])
      else Take(s, co)
    case Handover => Wake(s, s.woken.value)
    case Timeout(t) =>
      if t !in s.armed then s
      else if s.armed[t] in s.asleep then Wake(s, s.armed[t])
      else s.(armed := s.armed - {t})
    case Resume(co) => Wake(s, co)
  }

  /** The states of a run. */
  ghost predicate IsRun<T>(ss: seq<State<T>>, es: seq<Event<T>>) {
    && |ss| == |es| + 1
    && forall i :: 0 <= i < |es| ==> Enabled(ss[i], es[i]) && ss[i + 1] == Step(ss[i], es[i])
  }

  // ---- safety, in every run -------------------------------------------------------------

  ghost function PushedIn<T>(log: seq<Note<T>>): seq<T> {
    if log == [] then []
    else
      var n := |log| - 1;
      PushedIn(log[..n]) + if log[n].Accepted? then [log[n].value] else []
  }

  ghost function PoppedIn<T>(log: seq<Note<T>>): seq<T> {
    if log == [] then []
    else
      var n := |log| - 1;
      PoppedIn(log[..n]) + if log[n].Got? then [log[n].value] else []
  }

  lemma OneMoreNote<T>(log: seq<Note<T>>, n: Note<T>)
    ensures PushedIn(log + [n]) == PushedIn(log) + if n.Accepted? then [n.value] else []
    ensures PoppedIn(log + [n]) == PoppedIn(log) + if n.Got? then [n.value] else []
  {
    assert (log + [n])[..|log|] == log;
  }

  /** An armed record belongs to the sleep for which it was made. */
  ghost predicate ArmedAt<T>(s: State<T>, t: nat) {
    t in s.armed ==> t < s.tickets && s.armed[t] in s.asleep && s.asleep[s.armed[t]].ticket == Some(t)
  }

  ghost predicate SleeperAt<T>(s: State<T>, co: nat) {
    co in s.asleep && s.asleep[co].ticket.Some? ==>
      s.asleep[co].ticket.value in s.armed && s.armed[s.asleep[co].ticket.value] == co
  }

  /** The buffer never exceeds its capacity, and holds, in order, what was pushed with result true and not popped. */
  ghost predicate Safe<T>(s: State<T>) {
    && |s.data| <= s.capacity
    && PushedIn(s.log) == PoppedIn(s.log) + s.data
    && (forall t {:trigger ArmedAt(s, t)} :: ArmedAt(s, t))
    && (forall co {:trigger SleeperAt(s, co)} :: SleeperAt(s, co))
    && (s.woken.Some? ==> s.woken.value in s.asleep)
  }

  lemma CommitIsSafe<T>(s: State<T>, co: nat, value: T)
    requires Safe(s) && |s.data| < s.capacity
    ensures Safe(Commit(s, co, value))
  {
    var s' := Commit(s, co, value);
    OneMoreNote(s.log, Accepted(co, value));
    forall t ensures ArmedAt(s', t) {
      assert ArmedAt(s, t);
    }
    forall c ensures SleeperAt(s', c) {
      assert SleeperAt(s, c);
    }
  }

  lemma TakeIsSafe<T>(s: State<T>, co: nat)
    requires Safe(s) && s.data != []
    ensures Safe(Take(s, co))
  {
    var s' := Take(s, co);
    TakeKeepsOrder(s, co);
    forall t ensures ArmedAt(s', t) {
      assert ArmedAt(s, t);
    }
    forall c ensures SleeperAt(s', c) {
      assert SleeperAt(s, c);
    }
  }

  lemma TakeKeepsOrder<T>(s: State<T>, co: nat)
    requires PushedIn(s.log) == PoppedIn(s.log) + s.data && s.data != []
    ensures var s' := Fetched(s, co); PushedIn(s'.log) == PoppedIn(s'.log) + s'.data
  {
    OneMoreNote(s.log, Got(co, s.data[0]));
    assert s.data == [s.data[0]] + s.data[1..];
  }

  lemma SleepIsSafe<T>(s: State<T>, co: nat, w: Wait<T>, timed: bool, producers: seq<nat>, consumers: seq<nat>)
    requires Safe(s) && s.woken == None && co !in s.asleep && w.ticket == Ticket(timed, s.tickets)
    ensures Safe(Sleep(s, co, w).(producers := producers, consumers := consumers))
  {
    var s' := Sleep(s, co, w).(producers := producers, consumers := consumers);
    forall t ensures ArmedAt(s', t) {
      assert ArmedAt(s, t);
      assert ArmedAt(s, s.tickets);
    }
    forall c ensures SleeperAt(s', c) {
      assert SleeperAt(s, c);
      assert ArmedAt(s, s.tickets);
    }
  }

  lemma WakeIsSafe<T>(s: State<T>, co: nat)
    requires Safe(s) && co in s.asleep
    ensures Safe(Wake(s, co))
  {
    var w := s.asleep[co];
    var s1 := Awake(s, co);
    forall t ensures ArmedAt(s1, t) {
      assert ArmedAt(s, t);
      assert SleeperAt(s, co);
    }
    forall c ensures SleeperAt(s1, c) {
      assert SleeperAt(s, c);
      assert SleeperAt(s, co);
    }
    OneMoreNote(s1.log, Refused(co));
    OneMoreNote(s1.log, GotNothing(co));
    TryIsSafe(s1, co, w);
  }

  lemma TryIsSafe<T>(s: State<T>, co: nat, w: Wait<T>)
    requires Safe(s)
    ensures Safe(if w.InPush? then TryPush(s, co, w.value) else TryPop(s, co))
  {
    if w.InPush? && |s.data| < s.capacity {
      CommitIsSafe(s, co, w.value);
    } else if w.InPop? && s.data != [] {
      TakeIsSafe(s, co);
    } else {
      var note: Note<T> := if w.InPush? then Refused(co) else GotNothing(co);
      var s' := s.(log := s.log + [note]);
      OneMoreNote(s.log, note);
      forall t ensures ArmedAt(s', t) {
        assert ArmedAt(s, t);
      }
      forall c ensures SleeperAt(s', c) {
        assert SleeperAt(s, c);
      }
    }
  }

  lemma StepIsSafe<T>(s: State<T>, e: Event<T>)
    requires Safe(s) && Enabled(s, e)
    ensures Safe(Step(s, e))
  {
    match e
    case Push(co, value, timed) =>
      if |s.data| == s.capacity {
        SleepIsSafe(s, co, InPush(value, Ticket(timed, s.tickets)), timed, s.producers + [co], s.consumers);
      } else {
        CommitIsSafe(s, co, value);
      }
    case Pop(co, timed) =>
      if s.data == [] {
        SleepIsSafe(s, co, InPop(Ticket(timed, s.tickets)), timed, s.producers, s.consumers + [co]);
      } else {
        TakeIsSafe(s, co);
      }
    case Handover => WakeIsSafe(s, s.woken.value);
    case Timeout(t) =>
      assert ArmedAt(s, t);
      if t in s.armed {
        WakeIsSafe(s, s.armed[t]);
      }
    case Resume(co) => WakeIsSafe(s, co);
  }

  lemma EmptyIsSafe<T>(capacity: nat)
    ensures Safe(Empty<T>(capacity))
  {
    assert forall t: nat :: ArmedAt(Empty<T>(capacity), t);
    assert forall co: nat :: SleeperAt(Empty<T>(capacity), co);
  }

  ghost predicate AllSafe<T>(ss: seq<State<T>>, capacity: nat) {
    forall i :: 0 <= i < |ss| ==> Safe(ss[i]) && ss[i].capacity == capacity
  }

  lemma OneMoreSafe<T>(ss: seq<State<T>>, capacity: nat)
    requires |ss| > 0 && AllSafe(ss[..|ss| - 1], capacity)
    requires Safe(ss[|ss| - 1]) && ss[|ss| - 1].capacity == capacity
    ensures AllSafe(ss, capacity)
  {
    assert ss == ss[..|ss| - 1] + [ss[|ss| - 1]];
  }

  /** In every run, with any timeouts and any resumes from outside: the buffer is bounded, values come out in the
      order in which they went in, none is lost or made up, and a timer wakes a coroutine only from the very
      sleep for which it was set. */
  lemma {:induction false} AlwaysSafe<T>(ss: seq<State<T>>, es: seq<Event<T>>)
    requires IsRun(ss, es) && ss[0] == Empty(ss[0].capacity)
    ensures AllSafe(ss, ss[0].capacity)
  {
    var n := |es|;
    if n == 0 {
      EmptyIsSafe<T>(ss[0].capacity);
    } else {
      var before := ss[..n];
      AlwaysSafe(before, es[..n - 1]);
      assert Safe(before[n - 1]) && before[n - 1] == ss[n - 1];
      StepIsSafe(ss[n - 1], es[n - 1]);
      OneMoreSafe(ss, ss[0].capacity);
    }
  }

  // ---- every call is answered, in every run -----------------------------------------------

  /** The calls of push and pop by co, in order. */
  ghost function CallsOf<T>(es: seq<Event<T>>, co: nat): seq<Event<T>> {
    if es == [] then []
    else
      var e := es[|es| - 1];
      CallsOf(es[..|es| - 1], co) + if (e.Push? || e.Pop?) && e.co == co then [e] else []
  }

  /** What co has been told, in order. */
  ghost function NotesOf<T>(log: seq<Note<T>>, co: nat): seq<Note<T>> {
    if log == [] then []
    else
      var n := log[|log| - 1];
      NotesOf(log[..|log| - 1], co) + if n.co == co then [n] else []
  }

  lemma OneMoreTold<T>(log: seq<Note<T>>, n: Note<T>, co: nat)
    ensures NotesOf(log + [n], co) == NotesOf(log, co) + if n.co == co then [n] else []
  {
    assert (log + [n])[..|log|] == log;
  }

  ghost predicate Answers<T>(call: Event<T>, note: Note<T>) {
    match call
    case Push(co, value, _) => note == Accepted(co, value) || note == Refused(co)
    case Pop(co, _) => note == GotNothing(co) || (note.Got? && note.co == co)
    case _ => false
  }

  /** The call is one by co, and w is how co sleeps in it. */
  ghost predicate WaitsIn<T>(call: Event<T>, co: nat, w: Wait<T>) {
    match call
    case Push(c, value, timed) => c == co && w.InPush? && w.value == value && w.ticket.Some? == timed
    case Pop(c, timed) => c == co && w.InPop? && w.ticket.Some? == timed
    case _ => false
  }

  /** The calls of co have been answered one after the other, but for the last if co sleeps; and then it sleeps in
      that call, with a ticket exactly if the call has a timeout. */
  ghost predicate Answered<T>(s: State<T>, calls: seq<Event<T>>, co: nat) {
    var notes := NotesOf(s.log, co);
    && |calls| == |notes| + (if co in s.asleep then 1 else 0)
    && (forall k :: 0 <= k < |notes| ==> Answers(calls[k], notes[k]))
    && (co in s.asleep ==> WaitsIn(calls[|notes|], co, s.asleep[co]))
  }

  /** How the call of a sleeper ends when it is resumed. */
  ghost function Outcome<T>(s: State<T>, co: nat): Note<T>
    requires co in s.asleep
  {
    match s.asleep[co]
    case InPush(value, _) => if |s.data| < s.capacity then Accepted(co, value) else Refused(co)
    case InPop(_) => if s.data != [] then Got(co, s.data[0]) else GotNothing(co)
  }

  /** Whoever resumes a sleeper, its call is over, with one note, and its timer will not wake it again. */
  lemma WakeEnds<T>(s: State<T>, co: nat)
    requires co in s.asleep && |s.data| <= s.capacity
    ensures var s' := Wake(s, co);
            && s'.log == s.log + [Outcome(s, co)] && s'.asleep == s.asleep - {co}
            && (s.asleep[co].ticket.Some? ==> s'.armed == s.armed - {s.asleep[co].ticket.value})
            && (s.asleep[co].ticket.None? ==> s'.armed == s.armed)
  {
  }

  /** A call by a running coroutine sleeps exactly if the buffer is full or empty, and then with an armed record if it
      has a timeout; otherwise it ends at once. */
  lemma WhenCallsSleep<T>(s: State<T>, e: Event<T>)
    requires Enabled(s, e) && (e.Push? || e.Pop?)
    ensures var s' := Step(s, e);
            && (e.co in s'.asleep <==> if e.Push? then |s.data| == s.capacity else s.data == [])
            && (if e.co in s'.asleep
                then s'.log == s.log && WaitsIn(e, e.co, s'.asleep[e.co])
                     && (e.timed ==> exists t :: t in s'.armed && s'.armed[t] == e.co)
                else s'.log == s.log + [if e.Push? then Accepted(e.co, e.value) else Got(e.co, s.data[0])])
            && forall c :: c != e.co ==> (c in s'.asleep <==> c in s.asleep)
                                         && (c in s.asleep ==> s'.asleep[c] == s.asleep[c])
  {
    var s' := Step(s, e);
    if e.co in s'.asleep && e.timed {
      assert s.tickets in s'.armed;
    }
  }

  lemma StepAnswers<T>(s: State<T>, e: Event<T>, calls: seq<Event<T>>, co: nat)
    requires Safe(s) && Enabled(s, e) && Answered(s, calls, co)
    ensures Answered(Step(s, e), calls + if (e.Push? || e.Pop?) && e.co == co then [e] else [], co)
  {
    match e
    case Push(c, value, _) => CallAnswers(s, e, calls, co);
    case Pop(c, _) => CallAnswers(s, e, calls, co);
    case Handover => WakeAnswers(s, s.woken.value, calls, co);
    case Timeout(t) =>
      assert ArmedAt(s, t);
      if t in s.armed {
        WakeAnswers(s, s.armed[t], calls, co);
      }
    case Resume(c) => WakeAnswers(s, c, calls, co);
  }

  lemma CallAnswers<T>(s: State<T>, e: Event<T>, calls: seq<Event<T>>, co: nat)
    requires Enabled(s, e) && Answered(s, calls, co) && (e.Push? || e.Pop?)
    ensures Answered(Step(s, e), calls + if e.co == co then [e] else [], co)
  {
    WhenCallsSleep(s, e);
    var s' := Step(s, e);
    if e.co != co {
      if e.co !in s'.asleep {
        OneMoreTold(s.log, if e.Push? then Accepted(e.co, e.value) else Got(e.co, s.data[0]), co);
      }
      assert calls + [] == calls;
    } else if e.co in s'.asleep {
      SleepsInCall(s, s', e, calls);
    } else {
      var note := if e.Push? then Accepted(e.co, e.value) else Got(e.co, s.data[0]);
      EndsCall(s, s', e, calls, note);
    }
  }

  lemma SleepsInCall<T>(s: State<T>, s': State<T>, e: Event<T>, calls: seq<Event<T>>)
    requires (e.Push? || e.Pop?) && Answered(s, calls, e.co) && e.co !in s.asleep
    requires s'.log == s.log && e.co in s'.asleep && WaitsIn(e, e.co, s'.asleep[e.co])
    ensures Answered(s', calls + [e], e.co)
  {
  }

  lemma EndsCall<T>(s: State<T>, s': State<T>, e: Event<T>, calls: seq<Event<T>>, note: Note<T>)
    requires (e.Push? || e.Pop?) && Answered(s, calls, e.co) && e.co !in s.asleep && e.co !in s'.asleep
    requires s'.log == s.log + [note] && note.co == e.co && Answers(e, note)
    ensures Answered(s', calls + [e], e.co)
  {
    OneMoreTold(s.log, note, e.co);
  }

  lemma WakeAnswers<T>(s: State<T>, sleeper: nat, calls: seq<Event<T>>, co: nat)
    requires Safe(s) && sleeper in s.asleep && Answered(s, calls, co)
    ensures Answered(Wake(s, sleeper), calls, co)
  {
    WakeEnds(s, sleeper);
    OneMoreTold(s.log, Outcome(s, sleeper), co);
  }

  /** In every run the calls of every coroutine are answered one after the other: see Answered. */
  lemma {:induction false} CallsAreAnswered<T>(ss: seq<State<T>>, es: seq<Event<T>>, co: nat)
    requires IsRun(ss, es) && ss[0] == Empty(ss[0].capacity)
    ensures Answered(ss[|es|], CallsOf(es, co), co)
  {
    var n := |es|;
    if n > 0 {
      LastStep(ss, es);
      CallsAreAnswered(ss[..n], es[..n - 1], co);
      StepAnswers(ss[n - 1], es[n - 1], CallsOf(es[..n - 1], co), co);
    }
  }

  /** The last step of a run from the empty channel. */
  lemma LastStep<T>(ss: seq<State<T>>, es: seq<Event<T>>)
    requires IsRun(ss, es) && ss[0] == Empty(ss[0].capacity) && es != []
    ensures var n := |es|; var before := ss[..n];
            && IsRun(before, es[..n - 1]) && before[0] == ss[0] && before[n - 1] == ss[n - 1]
            && Safe(ss[n - 1]) && Enabled(ss[n - 1], es[n - 1]) && ss[n] == Step(ss[n - 1], es[n - 1])
  {
    AlwaysSafe(ss, es);
  }

  /** In every run: who sleeps in a call with a timeout has an armed record, and its timer ends the call, with an
      answer, and no other. */
  lemma TimersEndCalls<T>(ss: seq<State<T>>, es: seq<Event<T>>, co: nat) returns (t: nat)
    requires IsRun(ss, es) && ss[0] == Empty(ss[0].capacity)
    requires var s, calls := ss[|es|], CallsOf(es, co);
             s.woken == None && co in s.asleep && calls != [] && (calls[|calls| - 1].Push? || calls[|calls| - 1].Pop?)
             && calls[|calls| - 1].timed
    ensures var s := ss[|es|];
            && t in s.armed && s.armed[t] == co && Enabled(s, Timeout(t))
            && var s' := Step(s, Timeout(t));
               && s'.asleep == s.asleep - {co} && s'.armed == s.armed - {t}
               && s'.log == s.log + [Outcome(s, co)]
               && |NotesOf(s'.log, co)| == |NotesOf(s.log, co)| + 1 == |CallsOf(es, co)|
  {
    var s := ss[|es|];
    AlwaysSafe(ss, es);
    assert SleeperAt(s, co);
    CallsAreAnswered(ss, es, co);
    t := s.asleep[co].ticket.value;
    WakeEnds(s, co);
    OneMoreTold(s.log, Outcome(s, co), co);
  }

  // ---- no lost wake-up ------------------------------------------------------------------

  ghost predicate NoRepeats(q: seq<nat>) {
    forall i, j :: 0 <= i < j < |q| ==> q[i] != q[j]
  }

  /** Who sleeps here waits in the matching queue, until the channel wakes it. */
  ghost predicate QueuedAt<T>(s: State<T>, co: nat) {
    && (co in s.producers ==> co in s.asleep && s.asleep[co].InPush?)
    && (co in s.consumers ==> co in s.asleep && s.asleep[co].InPop?)
    && (co in s.asleep ==> co in s.producers || co in s.consumers || s.woken == Some(co))
    && (s.woken == Some(co) ==> co in s.asleep && co !in s.producers && co !in s.consumers)
  }

  ghost predicate NoFailure<T>(log: seq<Note<T>>) {
    forall i :: 0 <= i < |log| ==> log[i].Accepted? || log[i].Got?
  }

  /** The queues hold exactly the sleepers; while user code runs, a waiting consumer implies an empty buffer and a
      waiting producer a full one, so never do both wait; a sleeper woken by the channel finds what it waits for;
      and no call has failed. */
  ghost predicate Orderly<T>(s: State<T>) {
    && 0 < s.capacity && |s.data| <= s.capacity
    && NoRepeats(s.producers) && NoRepeats(s.consumers)
    && (forall co {:trigger QueuedAt(s, co)} :: QueuedAt(s, co))
    && (s.woken == None ==> (s.consumers != [] ==> s.data == []) && (s.producers != [] ==> |s.data| == s.capacity))
    && (s.woken.Some? && s.woken.value in s.asleep ==>
          if s.asleep[s.woken.value].InPush? then |s.data| == s.capacity - 1 && s.consumers == []
          else |s.data| == 1 && s.producers == [])
    && NoFailure(s.log)
  }

  /** A sleeper is resumed by someone other than the channel. */
  ghost predicate Foreign<T>(s: State<T>, e: Event<T>) {
    e.Resume? || (e.Timeout? && e.ticket in s.armed)
  }

  lemma CommitIsOrderly<T>(s: State<T>, co: nat, value: T)
    requires 0 < s.capacity && |s.data| < s.capacity && NoRepeats(s.producers) && NoRepeats(s.consumers)
             && NoFailure(s.log)
    requires s.woken == None && (forall c {:trigger QueuedAt(s, c)} :: QueuedAt(s, c))
    requires s.consumers != [] ==> s.data == [] && s.producers == []
    requires s.producers != [] ==> |s.data| == s.capacity - 1
    ensures Orderly(Commit(s, co, value))
  {
    var s' := Commit(s, co, value);
    if s.consumers != [] {
      assert QueuedAt(s, s.consumers[0]);
      assert s.consumers == [s.consumers[0]] + s.consumers[1..];
    }
    forall c ensures QueuedAt(s', c) {
      assert QueuedAt(s, c);
    }
  }

  lemma TakeIsOrderly<T>(s: State<T>, co: nat)
    requires 0 < |s.data| <= s.capacity && NoRepeats(s.producers) && NoRepeats(s.consumers) && NoFailure(s.log)
    requires s.woken == None && (forall c {:trigger QueuedAt(s, c)} :: QueuedAt(s, c))
    requires s.producers != [] ==> |s.data| == s.capacity && s.consumers == []
    requires s.consumers != [] ==> |s.data| == 1
    ensures Orderly(Take(s, co))
  {
    var s' := Take(s, co);
    if s.producers != [] {
      assert QueuedAt(s, s.producers[0]);
      assert s.producers == [s.producers[0]] + s.producers[1..];
    }
    forall c ensures QueuedAt(s', c) {
      assert QueuedAt(s, c);
    }
  }

  lemma SleepIsOrderly<T>(s: State<T>, co: nat, w: Wait<T>, s': State<T>)
    requires Orderly(s) && s.woken == None && co !in s.asleep
    requires if w.InPush? then |s.data| == s.capacity && s' == Sleep(s, co, w).(producers := s.producers + [co])
             else s.data == [] && s' == Sleep(s, co, w).(consumers := s.consumers + [co])
    ensures Orderly(s')
  {
    assert QueuedAt(s, co);
    forall c ensures QueuedAt(s', c) {
      assert QueuedAt(s, c);
    }
  }

  lemma HandoverIsOrderly<T>(s: State<T>)
    requires Orderly(s) && Enabled(s, Handover)
    ensures Orderly(Step(s, Handover))
  {
    var co := s.woken.value;
    var w := s.asleep[co];
    var s1 := Awake(s, co);
    forall c ensures QueuedAt(s1, c) {
      assert QueuedAt(s, c);
    }
    if w.InPush? {
      CommitIsOrderly(s1, co, w.value);
    } else {
      TakeIsOrderly(s1, co);
    }
  }

  /** The channel stays orderly exactly as long as nobody else resumes one of its sleepers: such a sleeper's call
      fails, and leaves a stale entry in the queue. What that means for wake-ups is said below. */
  lemma StepIsOrderly<T>(s: State<T>, e: Event<T>)
    requires Safe(s) && Orderly(s) && Enabled(s, e)
    ensures Orderly(Step(s, e)) <==> !Foreign(s, e)
  {
    match e
    case Push(co, value, timed) =>
      if |s.data| == s.capacity {
        SleepIsOrderly(s, co, InPush(value, Ticket(timed, s.tickets)), Step(s, e));
      } else {
        CommitIsOrderly(s, co, value);
      }
    case Pop(co, timed) =>
      if s.data == [] {
        SleepIsOrderly(s, co, InPop(Ticket(timed, s.tickets)), Step(s, e));
      } else {
        TakeIsOrderly(s, co);
      }
    case Handover => HandoverIsOrderly(s);
    case Timeout(t) =>
      assert ArmedAt(s, t);
      if t in s.armed {
        ForeignWakeFails(s, s.armed[t]);
      }
    case Resume(co) => ForeignWakeFails(s, co);
  }

  lemma ForeignWakeFails<T>(s: State<T>, co: nat)
    requires Orderly(s) && s.woken == None && co in s.asleep
    ensures !NoFailure(Wake(s, co).log)
  {
    assert QueuedAt(s, co);
    var log := Wake(s, co).log;
    assert log[|log| - 1] == (if s.asleep[co].InPush? then Refused(co) else GotNothing(co));
  }

  /** No wake-up is lost in a run in which only the channel resumes its sleepers: see Orderly. Every push and
      every pop of the run that ends has succeeded. */
  lemma {:induction false} NoWakeUpIsLost<T>(ss: seq<State<T>>, es: seq<Event<T>>)
    requires IsRun(ss, es) && ss[0] == Empty(ss[0].capacity) && ss[0].capacity > 0
    requires forall i :: 0 <= i < |es| ==> !Foreign(ss[i], es[i])
    ensures forall i :: 0 <= i < |ss| ==> Orderly(ss[i])
  {
    var n := |es|;
    if n == 0 {
      assert forall co: nat :: QueuedAt(ss[0], co);
    } else {
      NoWakeUpIsLost(ss[..n], es[..n - 1]);
      AlwaysSafe(ss, es);
      assert ss[n] == Step(ss[n - 1], es[n - 1]);
      assert Orderly(ss[..n][n - 1]);
      StepIsOrderly(ss[n - 1], es[n - 1]);
    }
  }

  // ---- the order of the waiters ------------------------------------------------------------

  /** The coroutines that have fallen asleep in pop (or in push), in this order. */
  ghost function FellAsleep<T>(ss: seq<State<T>>, es: seq<Event<T>>, pop: bool): seq<nat>
    requires |ss| == |es| + 1
  {
    if es == [] then []
    else
      var n := |es| - 1;
      FellAsleep(ss[..n + 1], es[..n], pop) + NewlyAsleep(ss[n + 1], es[n], pop)
  }

  /** The caller that event e, which has led to state s, has put to sleep. */
  ghost function NewlyAsleep<T>(s: State<T>, e: Event<T>, pop: bool): seq<nat> {
    if (if pop then e.Pop? else e.Push?) && e.co in s.asleep then [e.co] else []
  }

  /** The coroutines that the channel has woken from a sleep in pop (or in push), in this order. */
  ghost function WokenUp<T>(ss: seq<State<T>>, pop: bool): seq<nat> {
    if ss == [] then []
    else
      WokenUp(ss[..|ss| - 1], pop) + WokenNow(ss[|ss| - 1], pop)
  }

  ghost function WokenNow<T>(s: State<T>, pop: bool): seq<nat> {
    if s.woken.Some? && s.woken.value in s.asleep && s.asleep[s.woken.value].InPop? == pop then [s.woken.value] else []
  }

  /** Who waits first in a queue sleeps in the matching call. */
  ghost predicate HeadsQueued<T>(s: State<T>) {
    && (s.consumers != [] ==> s.consumers[0] in s.asleep && s.asleep[s.consumers[0]].InPop?)
    && (s.producers != [] ==> s.producers[0] in s.asleep && s.asleep[s.producers[0]].InPush?)
  }

  lemma OrderlyHeads<T>(s: State<T>)
    requires Orderly(s)
    ensures HeadsQueued(s)
    ensures s.woken.Some? && s.woken.value in s.asleep ==> HeadsQueued(Awake(s, s.woken.value))
  {
    assert s.consumers != [] ==> QueuedAt(s, s.consumers[0]);
    assert s.producers != [] ==> QueuedAt(s, s.producers[0]);
    assert s.woken.Some? ==> QueuedAt(s, s.woken.value);
  }

  lemma NotifyKeepsOrder<T>(s: State<T>)
    requires s.woken == None && HeadsQueued(s)
    ensures var s' := NotifyConsumer(s); s.consumers == WokenNow(s', true) + s'.consumers && WokenNow(s', false) == []
    ensures var s' := NotifyProducer(s); s.producers == WokenNow(s', false) + s'.producers && WokenNow(s', true) == []
  {
  }

  lemma StepKeepsOrder<T>(s: State<T>, e: Event<T>)
    requires Safe(s) && Orderly(s) && Enabled(s, e) && !Foreign(s, e)
    ensures var s' := Step(s, e);
            && s.consumers + NewlyAsleep(s', e, true) == WokenNow(s', true) + s'.consumers
            && s.producers + NewlyAsleep(s', e, false) == WokenNow(s', false) + s'.producers
  {
    OrderlyHeads(s);
    match e
    case Push(co, value, _) =>
      if |s.data| < s.capacity {
        NotifyKeepsOrder(Stored(s, co, value));
      }
    case Pop(co, _) =>
      if s.data != [] {
        NotifyKeepsOrder(Fetched(s, co));
      }
    case Handover =>
      var co := s.woken.value;
      var s1 := Awake(s, co);
      if s.asleep[co].InPush? {
        NotifyKeepsOrder(Stored(s1, co, s.asleep[co].value));
      } else {
        NotifyKeepsOrder(Fetched(s1, co));
      }
    case _ =>
  }

  /** In every run in which only the channel resumes its sleepers, they are woken in the order in which they fell
      asleep, and those not woken yet are waiting, in the same order. */
  lemma {:induction false} WokenInOrder<T>(ss: seq<State<T>>, es: seq<Event<T>>)
    requires IsRun(ss, es) && ss[0] == Empty(ss[0].capacity) && ss[0].capacity > 0
    requires forall i :: 0 <= i < |es| ==> !Foreign(ss[i], es[i])
    ensures FellAsleep(ss, es, true) == WokenUp(ss, true) + ss[|es|].consumers
    ensures FellAsleep(ss, es, false) == WokenUp(ss, false) + ss[|es|].producers
  {
    var n := |es|;
    if n == 0 {
      assert ss[..0] == [];
    } else {
      LastStep(ss, es);
      WokenInOrder(ss[..n], es[..n - 1]);
      assert Orderly(ss[n - 1]) by {
        NoWakeUpIsLost(ss, es);
      }
      StepKeepsOrder(ss[n - 1], es[n - 1]);
      OneMoreInOrder(ss, es, true, ss[n - 1].consumers, ss[n].consumers);
      OneMoreInOrder(ss, es, false, ss[n - 1].producers, ss[n].producers);
    }
  }

  lemma OneMoreInOrder<T>(ss: seq<State<T>>, es: seq<Event<T>>, pop: bool, q: seq<nat>, q': seq<nat>)
    requires |ss| == |es| + 1 > 1
    requires FellAsleep(ss[..|es|], es[..|es| - 1], pop) == WokenUp(ss[..|es|], pop) + q
    requires var s := ss[|es|]; q + NewlyAsleep(s, es[|es| - 1], pop) == WokenNow(s, pop) + q'
    ensures FellAsleep(ss, es, pop) == WokenUp(ss, pop) + q'
  {
    Regroup(WokenUp(ss[..|es|], pop), q, NewlyAsleep(ss[|es|], es[|es| - 1], pop), WokenNow(ss[|es|], pop), q');
  }

  lemma Regroup(past: seq<nat>, q: seq<nat>, more: seq<nat>, woken: seq<nat>, q': seq<nat>)
    requires q + more == woken + q'
    ensures past + q + more == past + woken + q'
  {
    assert past + q + more == past + (q + more);
  }

  // ---- lost wake-ups, in every run ------------------------------------------------------

  ghost predicate SomebodyPops<T>(s: State<T>) {
    exists co :: co in s.asleep && s.asleep[co].InPop?
  }

  ghost predicate SomebodyPushes<T>(s: State<T>) {
    exists co :: co in s.asleep && s.asleep[co].InPush?
  }

  /** No wake-up is lost: while user code runs, nobody sleeps in pop beside a value, or in push beside a free
      place. A sleeper on its way will use up the one value, or the one place, that there is. */
  ghost predicate Served<T>(s: State<T>) {
    && 0 < s.capacity
    && (s.woken == None ==> (SomebodyPops(s) ==> s.data == []) && (SomebodyPushes(s) ==> |s.data| == s.capacity))
    && (s.woken.Some? && s.woken.value in s.asleep ==>
          if s.asleep[s.woken.value].InPop? then |s.data| <= 1 && !SomebodyPushes(s)
          else |s.data| >= s.capacity - 1 && !SomebodyPops(s))
  }

  /** A push with room finds a live sleeper at the head of the consumers if anybody sleeps in pop, and a pop of a
      value finds one at the head of the producers if anybody sleeps in push. */
  ghost predicate HeadSleeps<T>(s: State<T>, e: Event<T>) {
    match e
    case Push(_, _, _) => |s.data| < s.capacity && SomebodyPops(s) ==> s.consumers != [] && s.consumers[0] in s.asleep
    case Pop(_, _) => s.data != [] && SomebodyPushes(s) ==> s.producers != [] && s.producers[0] in s.asleep
    case Handover => true
    case Timeout(_) => true
    case Resume(_) => true
  }

  /** A step loses a wake-up if and only if it is a push or a pop that notifies nobody, because resume refuses the
      stale entry at the head of the queue, while somebody sleeps there. A timeout itself loses none. */
  lemma StepIsServed<T>(s: State<T>, e: Event<T>)
    requires Safe(s) && Served(s) && Enabled(s, e)
    ensures Served(Step(s, e)) <==> HeadSleeps(s, e)
  {
    match e
    case Push(co, value, timed) =>
      if |s.data| == s.capacity {
        NewSleeper(s, co, InPush(value, Ticket(timed, s.tickets)));
      } else {
        SameSleepers(s, Step(s, e));
      }
    case Pop(co, timed) =>
      if s.data == [] {
        NewSleeper(s, co, InPop(Ticket(timed, s.tickets)));
      } else {
        SameSleepers(s, Step(s, e));
      }
    case Handover => WakeIsServed(s, s.woken.value);
    case Timeout(t) =>
      assert ArmedAt(s, t);
      if t in s.armed {
        WakeIsServed(s, s.armed[t]);
      }
    case Resume(co) => WakeIsServed(s, co);
  }

  lemma SameSleepers<T>(s: State<T>, s': State<T>)
    requires s'.asleep == s.asleep
    ensures SomebodyPops(s') == SomebodyPops(s) && SomebodyPushes(s') == SomebodyPushes(s)
  {
  }

  lemma NewSleeper<T>(s: State<T>, co: nat, w: Wait<T>)
    requires co !in s.asleep
    ensures var s' := Sleep(s, co, w);
            && SomebodyPops(s') == (SomebodyPops(s) || w.InPop?)
            && SomebodyPushes(s') == (SomebodyPushes(s) || w.InPush?)
  {
    var s' := Sleep(s, co, w);
    assert co in s'.asleep && s'.asleep[co] == w;
    assert forall c :: c in s.asleep ==> c in s'.asleep && s'.asleep[c] == s.asleep[c];
  }

  /** Whoever resumes a sleeper, for whatever reason, no wake-up is lost by it. */
  lemma WakeIsServed<T>(s: State<T>, co: nat)
    requires Safe(s) && Served(s) && co in s.asleep && (s.woken == None || s.woken == Some(co))
    ensures Served(Wake(s, co))
  {
    var s1, s' := Awake(s, co), Wake(s, co);
    assert SomebodyPops(s1) ==> SomebodyPops(s);
    assert SomebodyPushes(s1) ==> SomebodyPushes(s);
    assert if s.asleep[co].InPop? then SomebodyPops(s) else SomebodyPushes(s);
    SameSleepers(s1, s');
  }

  ghost predicate AlwaysServed<T>(ss: seq<State<T>>) {
    forall i :: 0 <= i < |ss| ==> Served(ss[i])
  }

  ghost predicate HeadsSleep<T>(ss: seq<State<T>>, es: seq<Event<T>>)
    requires |ss| == |es| + 1
  {
    forall i :: 0 <= i < |es| ==> HeadSleeps(ss[i], es[i])
  }

  lemma OneMoreState<T>(ss: seq<State<T>>, es: seq<Event<T>>)
    requires |ss| == |es| + 1 > 1
    ensures AlwaysServed(ss) <==> AlwaysServed(ss[..|es|]) && Served(ss[|es|])
    ensures HeadsSleep(ss, es) <==> HeadsSleep(ss[..|es|], es[..|es| - 1]) && HeadSleeps(ss[|es| - 1], es[|es| - 1])
  {
    var n := |es|;
    var before, events := ss[..n], es[..n - 1];
    assert ss == before + [ss[n]] && es == events + [es[n - 1]];
    assert forall i :: 0 <= i < n ==> before[i] == ss[i];
    assert forall i :: 0 <= i < n - 1 ==> events[i] == es[i];
  }

  /** In every run: no wake-up is ever lost if and only if every push and every pop finds a live sleeper at the head
      of the queue whenever somebody sleeps there. */
  lemma {:induction false} ServedThroughout<T>(ss: seq<State<T>>, es: seq<Event<T>>)
    requires IsRun(ss, es) && ss[0] == Empty(ss[0].capacity) && ss[0].capacity > 0
    ensures AlwaysServed(ss) <==> HeadsSleep(ss, es)
  {
    var n := |es|;
    AlwaysSafe(ss, es);
    if n > 0 {
      OneMoreState(ss, es);
      ServedThroughout(ss[..n], es[..n - 1]);
      assert ss[n] == Step(ss[n - 1], es[n - 1]);
      assert AlwaysServed(ss[..n]) ==> Served(ss[..n][n - 1]);
      if Served(ss[n - 1]) {
        StepIsServed(ss[n - 1], es[n - 1]);
      }
    }
  }

  lemma OrderlyIsServed<T>(s: State<T>)
    requires Orderly(s)
    ensures Served(s)
  {
    forall co | co in s.asleep ensures QueuedAt(s, co) {
    }
  }

  /** As long as only the channel resumes its sleepers, the heads of its queues are live. */
  lemma OrderlyHeadsSleep<T>(s: State<T>, e: Event<T>)
    requires Orderly(s) && Enabled(s, e)
    ensures HeadSleeps(s, e)
  {
    forall co | co in s.asleep ensures QueuedAt(s, co) {
    }
    if s.consumers != [] {
      assert QueuedAt(s, s.consumers[0]);
    }
    if s.producers != [] {
      assert QueuedAt(s, s.producers[0]);
    }
  }

  /** With a timeout a wake-up can be lost: a consumer that gave up stays in the queue, the next push notifies
      it in vain, and the consumer behind it sleeps on beside a value. The push finds a stale head. */
  lemma TimeoutLosesWakeUp<T>(value: T)
    ensures var a := Step(Empty<T>(1), Pop(1, true));
            var b := Step(a, Timeout(0));
            var c := Step(b, Pop(2, false));
            var d := Step(c, Push(3, value, false));
            && d.woken == None && 2 in d.asleep && d.consumers == [2] && d.data == [value]
            && Served(c) && !HeadSleeps(c, Push(3, value, false)) && !Served(d)
  {
    var a := Step(Empty<T>(1), Pop(1, true));
    var b := Step(a, Timeout(0));
    assert b.asleep == map[] && b.consumers == [1];
    var c := Step(b, Pop(2, false));
    var d := Step(c, Push(3, value, false));
    assert 2 in c.asleep && c.asleep[2].InPop? && 2 in d.asleep && d.asleep[2].InPop?;
  }
}
