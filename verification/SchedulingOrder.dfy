/** Who comes next: the ready list, the waiters of a semaphore and the queue of a condition variable are served first
    come, first served, in every run; sleepers wake in the order of their deadlines. */
module SchedulingOrder {
  import opened Prelude
  import opened Scheduling
  import opened SchedulingLists
  import opened SchedulingLocks
  import opened SchedulingSignals

  // ---------- queues over a run ----------

  /** A queue that loses its first element, or none, and is otherwise added to at the end only. */
  ghost predicate FifoStep<T>(q: seq<T>, q': seq<T>, pop: bool) {
    q != [] ==> (if pop then q[1..] else q) <= q'
  }

  ghost predicate FifoRun<T>(qs: seq<seq<T>>, pops: seq<bool>) {
    |qs| == |pops| + 1 && forall j :: 0 <= j < |pops| ==> FifoAt(qs, pops, j)
  }

  ghost predicate FifoAt<T>(qs: seq<seq<T>>, pops: seq<bool>, j: nat)
    requires j < |pops| && |qs| == |pops| + 1
  {
    FifoStep(qs[j], qs[j + 1], pops[j])
  }

  /** How many of the steps from `a` up to `b` take an element out. */
  function Count(pops: seq<bool>, a: nat, b: nat): nat
    requires a <= b <= |pops|
  {
    if a == b then 0 else Count(pops, a, b - 1) + if pops[b - 1] then 1 else 0
  }

  /** The element at position `i` moves up by one with each that is taken out, until it is itself the first. */
  lemma {:induction false} FifoPosition<T>(qs: seq<seq<T>>, pops: seq<bool>, a: nat, b: nat, i: nat)
    requires FifoRun(qs, pops) && a <= b <= |pops| && i < |qs[a]| && Count(pops, a, b) <= i
    ensures i - Count(pops, a, b) < |qs[b]| && qs[b][i - Count(pops, a, b)] == qs[a][i]
    decreases b
  {
    if a < b {
      FifoPosition(qs, pops, a, b - 1, i);
      assert FifoAt(qs, pops, b - 1);
      var at := i - Count(pops, a, b - 1);
      var rest := if pops[b - 1] then qs[b - 1][1..] else qs[b - 1];
      assert rest <= qs[b - 1 + 1];
      assert rest[if pops[b - 1] then at - 1 else at] == qs[b - 1][at];
    }
  }

  // ---------- the ready list ----------

  /** The running thread gives up the processor in this step: it yields, exits, or blocks. */
  predicate GivesUp(k: State, e: Event) {
    match e
    case CallDown(n) => Value(k, Plain(n)) == 0
    case CallAcquire(l) => Value(k, OfLock(l)) == 0
    case CallSleep(n) => n > 0
    case Continue => PcOf(k, k.current).Down? && Value(k, PcOf(k, k.current).s) == 0
    case Preempt => true
    case Exit => true
    case IdleBlock => true
    case _ => false
  }

  /** The threads that compete for the processor: the ready list, and a yielding thread, which goes last. */
  function Line(k: State, e: Event): seq<Tid> {
    k.ready + if e == Preempt && k.current != k.idle then [k.current] else []
  }

  /** The processor goes to the first of `line`, or to the idle thread if there is none, and the others move up. */
  ghost predicate HandsOver(k: State, k': State, line: seq<Tid>) {
    && k'.current == (if line == [] then k.idle else line[0])
    && k'.ready == (if line == [] then [] else line[1..])
  }

  /** `schedule` hands over to the ready list, and changes nothing else but that thread's status. */
  lemma ScheduleTakesFirst(k: State)
    ensures var k' := Schedule(k);
            HandsOver(k, k', k.ready) && k' == k.(threads := k'.threads, current := k'.current, ready := k'.ready)
  {
    hide PcOf, ThreadOf;
  }

  /** One turn in `sema_down`: the value is taken, or the thread goes behind the other waiters. */
  ghost predicate DownEffect(k: State, k': State, s: Sid) {
    var sema := SemaOf(k, s);
    if sema.value > 0 then
      k' == k.(threads := k'.threads, semas := k.semas[s := sema.(value := sema.value - 1)])
    else
      && HandsOver(k, k', k.ready)
      && k' == k.(threads := k'.threads, current := k'.current, ready := k'.ready,
                  semas := k.semas[s := sema.(waiters := sema.waiters + [k.current])])
  }

  /** `sema_up`: the value rises, and the first waiter, if there is one, goes to the end of the ready list. */
  ghost predicate UpEffect(k: State, k': State, s: Sid) {
    var sema := SemaOf(k, s);
    if sema.waiters == [] then
      k' == k.(threads := k'.threads, semas := k.semas[s := Sema(sema.value + 1, [])])
    else
      k' == k.(threads := k'.threads, ready := k.ready + [sema.waiters[0]],
               semas := k.semas[s := Sema(sema.value + 1, sema.waiters[1..])])
  }

  /** What a step does to everything but the threads themselves. */
  ghost predicate StepEffect(k: State, e: Event, k': State) {
    match e
    case CallDown(n) => DownEffect(k, k', Plain(n))
    case CallUp(n) => UpEffect(k, k', Plain(n))
    case CallAcquire(l) => DownEffect(k, k', OfLock(l))
    case CallRelease(_) => k' == k.(threads := k'.threads, holders := k'.holders)
    case CallWait(c, _) => k' == Push(k, c, e.l)
    case CallSignal(c, _) => k' == Pop(k, c)
    case CallSleep(n) =>
      if n <= 0 then k' == k
      else
        && HandsOver(k, k', k.ready)
        && k' == k.(threads := k'.threads, current := k'.current, ready := k'.ready, deadline := k'.deadline,
                    sleepers := k'.sleepers)
    case Continue => ResumeEffect(k, k')
    case Interrupt =>
      && k.ready <= k'.ready
      && k' == k.(threads := k'.threads, ready := k'.ready, sleepers := k'.sleepers, ticks := k'.ticks)
    case Create(t) => k' == k.(threads := k'.threads, ready := k.ready + [t])
    case _ =>
      && HandsOver(k, k', Line(k, e))
      && k' == k.(threads := k'.threads, current := k'.current, ready := k'.ready)
  }

  ghost predicate ResumeEffect(k: State, k': State) {
    match PcOf(k, k.current)
    case Down(s, _) => DownEffect(k, k', s)
    case Up(s, _) => UpEffect(k, k', s)
    case _ => k' == k.(threads := k'.threads, holders := k'.holders)
  }

  lemma DownHas(k: State, s: Sid, next: Next)
    ensures DownEffect(k, DownTurn(k, s, next), s)
  {
    hide Schedule, HandsOver;
    if SemaOf(k, s).value == 0 {
      ScheduleTakesFirst(QueueUp(k, s, next));
      SameReady(k, QueueUp(k, s, next), DownTurn(k, s, next), k.ready);
    }
  }

  lemma SameReady(k: State, k1: State, k': State, line: seq<Tid>)
    requires k1.idle == k.idle && HandsOver(k1, k', line)
    ensures HandsOver(k, k', line)
  {
  }

  lemma UpHas(k: State, s: Sid)
    ensures UpEffect(k, SemaUp(k, s), s) && forall pc :: UpEffect(k, SetPc(SemaUp(k, s), pc), s)
  {
    hide PcOf, ThreadOf;
  }

  lemma YieldHas(k: State)
    ensures StepEffect(k, Preempt, Yield(k))
  {
    hide Schedule, HandsOver;
    var k1 := SetStatus(k, Ready);
    var k2 := if k.current == k.idle then k1 else k1.(ready := k.ready + [k.current]);
    assert k2.ready == Line(k, Preempt);
    ScheduleTakesFirst(k2);
    SameReady(k, k2, Yield(k), Line(k, Preempt));
  }

  lemma SleepHas(k: State, n: int)
    requires n > 0
    ensures StepEffect(k, CallSleep(n), Sleep(k, n))
  {
    hide Schedule, HandsOver, InsertOrdered;
    ScheduleTakesFirst(FallAsleep(k, n));
    SameReady(k, FallAsleep(k, n), Sleep(k, n), k.ready);
  }

  lemma LeaveHas(k: State, status: Status)
    ensures StepEffect(k, Exit, Schedule(SetStatus(k, status)))
  {
    hide Schedule, HandsOver;
    assert k.ready + [] == k.ready;
    ScheduleTakesFirst(SetStatus(k, status));
    SameReady(k, SetStatus(k, status), Schedule(SetStatus(k, status)), k.ready);
  }

  lemma ResumeHas(k: State)
    ensures ResumeEffect(k, Resume(k))
  {
    hide DownTurn, SemaUp, DownEffect, UpEffect;
    match PcOf(k, k.current)
    case Down(s, next) => DownHas(k, s, next);
    case Up(s, next) => UpHas(k, s);
    case _ =>
  }

  lemma StepHas(k: State, e: Event)
    ensures StepEffect(k, e, Step(k, e))
  {
    hide Schedule, Yield, Sleep, DownTurn, SemaUp, SetStatus, Resume, Wake, Push, Pop;
    hide HandsOver, DownEffect, UpEffect, ResumeEffect;
    match e
    case CallDown(n) => DownHas(k, Plain(n), Return);
    case CallUp(n) => UpHas(k, Plain(n));
    case CallAcquire(l) => DownHas(k, OfLock(l), TakeLock(l));
    case CallSleep(n) => if n > 0 { SleepHas(k, n); }
    case Continue => ResumeHas(k);
    case Preempt => YieldHas(k);
    case Interrupt => WakeOrder(k.(ticks := k.ticks + 1));
    case Exit => LeaveHas(k, Dying);
    case IdleBlock => LeaveHas(k, Blocked);
    case _ =>
  }

  lemma DownEffects(k: State, k': State, s: Sid)
    requires DownEffect(k, k', s)
    ensures if Value(k, s) > 0 then k'.current == k.current && k'.ready == k.ready else HandsOver(k, k', k.ready)
    ensures forall x :: x != s ==> SemaOf(k', x) == SemaOf(k, x)
    ensures Waiters(k', s) == if Value(k, s) > 0 then Waiters(k, s) else Waiters(k, s) + [k.current]
    ensures Value(k', s) == if Value(k, s) > 0 then Value(k, s) - 1 else 0
    ensures forall c :: Queue(k', c) == Queue(k, c)
  {
    hide HandsOver;
  }

  lemma UpEffects(k: State, k': State, s: Sid)
    requires UpEffect(k, k', s)
    ensures k'.current == k.current && Value(k', s) == Value(k, s) + 1
    ensures k'.ready == if Waiters(k, s) == [] then k.ready else k.ready + [Waiters(k, s)[0]]
    ensures forall x :: x != s ==> SemaOf(k', x) == SemaOf(k, x)
    ensures Waiters(k', s) == if Waiters(k, s) == [] then [] else Waiters(k, s)[1..]
    ensures forall c :: Queue(k', c) == Queue(k, c)
  {
  }

  /** Steps that are not a turn in `sema_down` or a `sema_up`. */
  predicate Apart(k: State, e: Event) {
    && !e.CallDown? && !e.CallUp? && !e.CallAcquire?
    && (e.Continue? ==> !PcOf(k, k.current).Down? && !PcOf(k, k.current).Up?)
  }

  lemma OtherEffects(k: State, e: Event, k': State)
    requires StepEffect(k, e, k') && Apart(k, e)
    ensures if GivesUp(k, e) then HandsOver(k, k', Line(k, e)) else k'.current == k.current && k.ready <= k'.ready
    ensures k'.semas == k.semas
  {
    hide HandsOver, DownEffect, UpEffect, PcOf;
    assert k.ready + [] == k.ready;
  }

  /** Every step but one that gives up the processor leaves the running thread running and the ready threads in their
      order, and adds newly ready ones at the end. When the processor is given up, the first in line gets it, or the
      idle thread if nobody is in line, and the others move up. */
  lemma StepReady(k: State, e: Event)
    ensures var k', line := Step(k, e), Line(k, e);
            if GivesUp(k, e) then
              && k'.current == (if line == [] then k.idle else line[0])
              && k'.ready == (if line == [] then [] else line[1..])
            else k'.current == k.current && k.ready <= k'.ready
  {
    hide Step, DownEffect, UpEffect, Value, PcOf;
    StepHas(k, e);
    assert k.ready + [] == k.ready;
    match e
    case CallDown(n) => DownEffects(k, Step(k, e), Plain(n));
    case CallUp(n) => UpEffects(k, Step(k, e), Plain(n));
    case CallAcquire(l) => DownEffects(k, Step(k, e), OfLock(l));
    case Continue =>
      match PcOf(k, k.current) {
        case Down(s, _) => DownEffects(k, Step(k, e), s);
        case Up(s, _) => UpEffects(k, Step(k, e), s);
        case _ => OtherEffects(k, e, Step(k, e));
      }
    case _ => OtherEffects(k, e, Step(k, e));
  }

  /** The threads that `timer_interrupt` wakes are a first part of the sleep list, which goes to the end of the ready
      list in the same order: those whose deadlines have come, up to the first that has not. */
  lemma {:induction false} WakeOrder(k: State)
    ensures |Wake(k).sleepers| <= |k.sleepers|
    ensures var n := |k.sleepers| - |Wake(k).sleepers|;
            && Wake(k) == k.(threads := Wake(k).threads, ready := k.ready + k.sleepers[..n],
                             sleepers := k.sleepers[n..])
            && (forall i :: 0 <= i < n ==> Deadline(k, k.sleepers[i]) <= k.ticks)
            && (n < |k.sleepers| ==> k.ticks < Deadline(k, k.sleepers[n]))
    decreases |k.sleepers|
  {
    hide Wake, WakeFirst;
    WakeOnce(k);
    if k.sleepers != [] && k.ticks >= Deadline(k, k.sleepers[0]) {
      var k1 := WakeFirst(k);
      WakeFirstShape(k);
      WakeOrder(k1);
      WakenMore(k.ready, k.sleepers, |k.sleepers| - |Wake(k1).sleepers|);
      forall i | 0 <= i < |k.sleepers| - |Wake(k1).sleepers| ensures Deadline(k, k.sleepers[i]) <= k.ticks {
        if i > 0 { assert Deadline(k1, k1.sleepers[i - 1]) <= k.ticks; }
      }
    } else {
      assert k.ready + k.sleepers[..0] == k.ready && k.sleepers[0..] == k.sleepers;
    }
  }

  lemma WakeOnce(k: State)
    ensures Wake(k) == if k.sleepers != [] && k.ticks >= Deadline(k, k.sleepers[0]) then Wake(WakeFirst(k)) else k
  {
  }

  lemma WakeFirstShape(k: State)
    requires k.sleepers != []
    ensures WakeFirst(k) == k.(threads := WakeFirst(k).threads, ready := k.ready + [k.sleepers[0]],
                               sleepers := k.sleepers[1..])
  {
  }

  lemma WakenMore(ready: seq<Tid>, sleepers: seq<Tid>, n: nat)
    requires 0 < n <= |sleepers|
    ensures ready + [sleepers[0]] + sleepers[1..][..n - 1] == ready + sleepers[..n]
    ensures sleepers[1..][n - 1..] == sleepers[n..]
  {
  }

  /** A thread that starts to sleep goes behind every sleeper whose deadline is not later than its own. */
  lemma {:induction false} InsertPosition(list: seq<Tid>, t: Tid, deadline: map<Tid, int>) returns (i: nat)
    ensures i <= |list| && InsertOrdered(list, t, deadline) == list[..i] + [t] + list[i..]
    ensures forall j :: 0 <= j < i ==> At(deadline, list[j]) <= At(deadline, t)
    ensures i < |list| ==> At(deadline, t) < At(deadline, list[i])
  {
    i := 0;
    if list != [] && !Earlier(deadline, t, list[0]) {
      var x := InsertPosition(list[1..], t, deadline);
      i := x + 1;
      assert list[..i] == [list[0]] + list[1..][..x] && list[i..] == list[1..][x..];
      forall j | 0 <= j < i ensures At(deadline, list[j]) <= At(deadline, t) {
        if j > 0 { assert list[j] == list[1..][j - 1]; }
      }
    }
  }

  /** The next thread to run is the first in line. */
  lemma NextToRun(k: State, e: Event)
    requires ListInv(k) && Enabled(k, e) && (e == Preempt || Step(k, e).current != k.current)
    ensures Step(k, e).current == if Line(k, e) == [] then k.idle else Line(k, e)[0]
    ensures e == Preempt && k.ready == [] ==> Step(k, e).current == k.current
    ensures k.ready != [] ==> Step(k, e).current == k.ready[0]
  {
    hide Step;
    StepReady(k, e);
  }

  /** The processor is given up in step `j`. */
  function Decisions(states: seq<State>, events: seq<Event>): seq<bool>
    requires |states| == |events| + 1
  {
    seq(|events|, j requires 0 <= j < |events| => GivesUp(states[j], events[j]))
  }

  function ReadyLists(states: seq<State>): seq<seq<Tid>> {
    seq(|states|, j requires 0 <= j < |states| => states[j].ready)
  }

  lemma ReadyFifo(states: seq<State>, events: seq<Event>)
    requires Run(states, events)
    ensures FifoRun(ReadyLists(states), Decisions(states, events))
  {
    hide Step, GivesUp;
    var qs, pops := ReadyLists(states), Decisions(states, events);
    forall j | 0 <= j < |events| ensures FifoAt(qs, pops, j) {
      assert StepAt(states, events, j);
      StepReady(states[j], events[j]);
    }
  }

  /** In every run, the thread at position `i` of the ready list is still waiting, `d` places further on, when the
      processor has been given up `d <= i` times, and gets it when it is given up for the time `i + 1`. */
  lemma RunsInTurn(states: seq<State>, events: seq<Event>, a: nat, b: nat, i: nat)
    requires Run(states, events) && a <= b < |events| && i < |states[a].ready|
    requires Count(Decisions(states, events), a, b) <= i
    ensures var t, d := states[a].ready[i], Count(Decisions(states, events), a, b);
            && i - d < |states[b].ready| && states[b].ready[i - d] == t && states[b].current != t
            && (d == i && GivesUp(states[b], events[b]) ==> states[b + 1].current == t)
            && (!(d == i && GivesUp(states[b], events[b])) ==> t in states[b + 1].ready)
  {
    hide Step, ListInv, LockInv, WakeInv, SignalInv;
    ReadyFifo(states, events);
    FifoPosition(ReadyLists(states), Decisions(states, events), a, b, i);
    RunInv(states, events, b);
    OnOneList(states[b], states[a].ready[i], Plain(0), Plain(0));
    assert StepAt(states, events, b);
    StepReady(states[b], events[b]);
    var at := i - Count(Decisions(states, events), a, b);
    assert Line(states[b], events[b])[at] == states[a].ready[i];
    if GivesUp(states[b], events[b]) && at > 0 { assert states[b + 1].ready[at - 1] == states[a].ready[i]; }
  }

  // ---------- the waiters of a semaphore ----------

  /** The step is a `sema_up` of `s`. */
  predicate Ups(k: State, e: Event, s: Sid) {
    (e.CallUp? && s == Plain(e.n)) || (e.Continue? && PcOf(k, k.current).Up? && PcOf(k, k.current).s == s)
  }

  /** The step is a turn of the loop in `sema_down` on `s`. */
  predicate DownTurnOf(k: State, e: Event, s: Sid) {
    || (e.CallDown? && s == Plain(e.n))
    || (e.CallAcquire? && s == OfLock(e.l))
    || (e.Continue? && PcOf(k, k.current).Down? && PcOf(k, k.current).s == s)
  }

  /** The running thread finds `s` at zero in this step. */
  predicate Queues(k: State, e: Event, s: Sid) { DownTurnOf(k, e, s) && Value(k, s) == 0 }

  /** The running thread gets through `sema_down` on `s` in this step. */
  predicate Takes(k: State, e: Event, s: Sid) { DownTurnOf(k, e, s) && Value(k, s) > 0 }

  lemma StepTurns(k: State, e: Event)
    ensures forall s :: DownTurnOf(k, e, s) ==> DownEffect(k, Step(k, e), s)
    ensures forall s :: Ups(k, e, s) ==> UpEffect(k, Step(k, e), s)
    ensures Apart(k, e) <==> forall s :: !DownTurnOf(k, e, s) && !Ups(k, e, s)
    ensures forall s, t :: DownTurnOf(k, e, s) ==> !Ups(k, e, t) && (DownTurnOf(k, e, t) ==> s == t)
    ensures forall s, t :: Ups(k, e, s) && Ups(k, e, t) ==> s == t
  {
    hide Step, DownEffect, UpEffect, PcOf;
    StepHas(k, e);
    var pc := PcOf(k, k.current);
    if e.CallDown? { assert DownTurnOf(k, e, Plain(e.n)); }
    if e.CallUp? { assert Ups(k, e, Plain(e.n)); }
    if e.CallAcquire? { assert DownTurnOf(k, e, OfLock(e.l)); }
    if e.Continue? && pc.Down? { assert DownTurnOf(k, e, pc.s); }
    if e.Continue? && pc.Up? { assert Ups(k, e, pc.s); }
  }

  lemma OtherSemas(k: State, e: Event, s: Sid)
    requires Apart(k, e)
    ensures SemaOf(Step(k, e), s) == SemaOf(k, s)
  {
    hide Step, DownEffect, UpEffect, HandsOver, PcOf, StepEffect, Apart;
    StepHas(k, e);
    OtherEffects(k, e, Step(k, e));
  }

  /** `sema_up` takes the first waiter and puts it last in line; a thread that blocks goes behind the other waiters;
      nothing else changes who waits. */
  lemma StepWaiters(k: State, e: Event, s: Sid)
    ensures var q, k' := Waiters(k, s), Step(k, e);
            && Waiters(k', s) == (if Ups(k, e, s) && q != [] then q[1..]
                                  else if Queues(k, e, s) then q + [k.current] else q)
            && Value(k', s) == (Value(k, s) + (if Ups(k, e, s) then 1 else 0)) - (if Takes(k, e, s) then 1 else 0)
            && (Ups(k, e, s) && q != [] ==> k'.ready == k.ready + [q[0]])
  {
    hide Step, HandsOver, StepEffect, DownEffect, UpEffect, SemaOf, PcOf;
    var k' := Step(k, e);
    StepTurns(k, e);
    if t :| DownTurnOf(k, e, t) {
      DownEffects(k, k', t);
    } else if t :| Ups(k, e, t) {
      UpEffects(k, k', t);
    } else {
      OtherSemas(k, e, s);
    }
  }

  function UpsOf(states: seq<State>, events: seq<Event>, s: Sid): seq<bool>
    requires |states| == |events| + 1
  {
    seq(|events|, j requires 0 <= j < |events| => Ups(states[j], events[j], s))
  }

  function WaiterLists(states: seq<State>, s: Sid): seq<seq<Tid>> {
    seq(|states|, j requires 0 <= j < |states| => Waiters(states[j], s))
  }

  /** In every run, the thread at position `i` of a semaphore's waiters is made ready by the `sema_up` number `i + 1`
      from then on, and by no other: up to then it waits, one place further on with each. */
  lemma WokenInTurn(states: seq<State>, events: seq<Event>, s: Sid, a: nat, b: nat, i: nat)
    requires Run(states, events) && a <= b < |events| && i < |Waiters(states[a], s)|
    requires Count(UpsOf(states, events, s), a, b) <= i
    ensures var t, u := Waiters(states[a], s)[i], Count(UpsOf(states, events, s), a, b);
            && i - u < |Waiters(states[b], s)| && Waiters(states[b], s)[i - u] == t
            && (u == i && Ups(states[b], events[b], s) ==> states[b + 1].ready == states[b].ready + [t])
            && (!(u == i && Ups(states[b], events[b], s)) ==> t in Waiters(states[b + 1], s))
  {
    hide Step, Ups, Queues, Waiters;
    var qs, pops := WaiterLists(states, s), UpsOf(states, events, s);
    forall j | 0 <= j < |events| ensures FifoAt(qs, pops, j) {
      assert StepAt(states, events, j);
      StepWaiters(states[j], events[j], s);
    }
    FifoPosition(qs, pops, a, b, i);
    assert StepAt(states, events, b);
    StepWaiters(states[b], events[b], s);
  }

  function TakesOf(states: seq<State>, events: seq<Event>, s: Sid): seq<bool>
    requires |states| == |events| + 1
  {
    seq(|events|, j requires 0 <= j < |events| => Takes(states[j], events[j], s))
  }

  /** In every run, the value of a semaphore goes up by one with each `sema_up` and down by one with each `sema_down`
      that gets through, and in no other way. */
  lemma {:induction false} ValueConserved(states: seq<State>, events: seq<Event>, s: Sid, a: nat, b: nat)
    requires Run(states, events) && a <= b <= |events|
    ensures Value(states[b], s) + Count(TakesOf(states, events, s), a, b)
            == Value(states[a], s) + Count(UpsOf(states, events, s), a, b)
    decreases b
  {
    hide Step, Ups, Takes, Queues, Value, Waiters;
    if a < b {
      ValueConserved(states, events, s, a, b - 1);
      assert StepAt(states, events, b - 1);
      StepWaiters(states[b - 1], events[b - 1], s);
    }
  }

  // ---------- the queue of a condition variable ----------

  /** `cond_signal` takes the first of the queue and goes on to raise its semaphore; `cond_wait` joins at the end. */
  lemma StepQueue(k: State, e: Event, c: nat)
    ensures var q, k' := Queue(k, c), Step(k, e);
            && Queue(k', c) == (if e.CallSignal? && e.c == c && q != [] then q[1..]
                                else if e.CallWait? && e.c == c then q + [k.nextWaiter] else q)
            && (e.CallSignal? && e.c == c && q != [] ==> PcOf(k', k'.current) == Up(Waiter(q[0]), Return))
  {
    hide Step, HandsOver, StepEffect, DownEffect, UpEffect, SemaOf;
    var k' := Step(k, e);
    StepTurns(k, e);
    if t :| DownTurnOf(k, e, t) {
      DownEffects(k, k', t);
    } else if t :| Ups(k, e, t) {
      UpEffects(k, k', t);
    } else {
      OtherQueues(k, e, c);
    }
  }

  lemma OtherQueues(k: State, e: Event, c: nat)
    requires Apart(k, e)
    ensures var q, k' := Queue(k, c), Step(k, e);
            && Queue(k', c) == (if e.CallSignal? && e.c == c && q != [] then q[1..]
                                else if e.CallWait? && e.c == c then q + [k.nextWaiter] else q)
            && (e.CallSignal? && e.c == c && q != [] ==> PcOf(k', k'.current) == Up(Waiter(q[0]), Return))
  {
    hide Step, HandsOver, DownEffect, UpEffect;
    StepHas(k, e);
    match e
    case CallWait(x, l) => QueuePush(k, x, l, c);
    case CallSignal(x, _) => QueuePop(k, x, c);
    case _ => hide PcOf;
  }

  lemma QueuePush(k: State, x: nat, l: nat, c: nat)
    ensures Queue(Push(k, x, l), c) == if x == c then Queue(k, c) + [k.nextWaiter] else Queue(k, c)
  {
  }

  lemma QueuePop(k: State, x: nat, c: nat)
    ensures Queue(Pop(k, x), c) == if x == c && Queue(k, c) != [] then Queue(k, c)[1..] else Queue(k, c)
    ensures x == c && Queue(k, c) != [] ==>
              PcOf(Pop(k, x), Pop(k, x).current) == Up(Waiter(Queue(k, c)[0]), Return)
  {
  }

  function SignalsOf(events: seq<Event>, c: nat): seq<bool> {
    seq(|events|, j requires 0 <= j < |events| => events[j].CallSignal? && events[j].c == c)
  }

  function CondQueues(states: seq<State>, c: nat): seq<seq<nat>> {
    seq(|states|, j requires 0 <= j < |states| => Queue(states[j], c))
  }

  /** In every run, the waiter at position `i` of a condition variable is the one that signal number `i + 1` from then
      on is for. */
  lemma SignalledInTurn(states: seq<State>, events: seq<Event>, c: nat, a: nat, b: nat, i: nat)
    requires Run(states, events) && a <= b < |events| && i < |Queue(states[a], c)|
    requires Count(SignalsOf(events, c), a, b) <= i
    ensures var w, d := Queue(states[a], c)[i], Count(SignalsOf(events, c), a, b);
            && i - d < |Queue(states[b], c)| && Queue(states[b], c)[i - d] == w
            && (d == i && SignalsOf(events, c)[b] ==>
                  PcOf(states[b + 1], states[b + 1].current) == Up(Waiter(w), Return))
            && (!(d == i && SignalsOf(events, c)[b]) ==> w in Queue(states[b + 1], c))
  {
    hide Step, Queue;
    var qs, pops := CondQueues(states, c), SignalsOf(events, c);
    forall j | 0 <= j < |events| ensures FifoAt(qs, pops, j) {
      assert StepAt(states, events, j);
      StepQueue(states[j], events[j], c);
    }
    FifoPosition(qs, pops, a, b, i);
    assert StepAt(states, events, b);
    StepQueue(states[b], events[b], c);
  }

  // ---------- calls that do not wait ----------

  /** `sema_down` on a positive value returns without giving up the processor. */
  lemma DownGoesThrough(k: State, n: nat)
    requires Value(k, Plain(n)) > 0
    ensures var k' := Step(k, CallDown(n)); k'.current == k.current && PcOf(k', k.current) == Outside
  {
    hide Schedule, SemaUp;
  }

  /** So does `lock_acquire` of a free lock, which then belongs to the caller. */
  lemma AcquireGoesThrough(k: State, l: nat)
    requires Value(k, OfLock(l)) > 0
    ensures var k' := Step(Step(k, CallAcquire(l)), Continue);
            && k'.current == k.current && PcOf(k', k.current) == Outside
            && Holder(k', l) == Some(k.current) && Value(k', OfLock(l)) == Value(k, OfLock(l)) - 1
  {
    hide Schedule, SemaUp;
    var k1 := Step(k, CallAcquire(l));
    assert k1.current == k.current && PcOf(k1, k1.current) == SetHolder(l);
  }

  /** `lock_release` gives the lock up and raises its semaphore, in two steps. */
  lemma ReleaseGoesThrough(k: State, l: nat)
    ensures var k' := Step(Step(k, CallRelease(l)), Continue);
            && k'.current == k.current && PcOf(k', k.current) == Outside
            && Holder(k', l) == None && Value(k', OfLock(l)) == Value(k, OfLock(l)) + 1
  {
    hide Schedule, DownTurn;
    var k1 := Step(k, CallRelease(l));
    assert k1.current == k.current && PcOf(k1, k1.current) == Up(OfLock(l), Return);
    assert SemaOf(k1, OfLock(l)) == SemaOf(k, OfLock(l)) && Holder(k1, l) == None;
    UpHas(k1, OfLock(l));
    UpEffects(k1, SemaUp(k1, OfLock(l)), OfLock(l));
  }
}
