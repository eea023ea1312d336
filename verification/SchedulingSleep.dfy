/** Sleep over whole runs: a thread that calls `timer_sleep` at tick T for n ticks is asleep until tick T + n, and is
    made ready by the interrupt that reaches it, whatever else happens in between. */
module SchedulingSleep {
  import opened Scheduling
  import opened SchedulingLists
  import opened SchedulingLocks
  import opened SchedulingSignals

  // ---------- one step ----------

  ghost predicate SameSleeper(k: State, k': State, t: Tid) {
    ThreadOf(k', t) == ThreadOf(k, t) && Deadline(k', t) == Deadline(k, t) && k'.ticks == k.ticks
  }

  lemma ScheduleSleeper(k: State, k1: State, t: Tid)
    requires Core(k) && PcOf(k, t) == Asleep && t != k.current && SameSleeper(k, k1, t)
    requires k1.idle == k.idle && (k1.ready == k.ready || k1.ready == k.ready + [k.current])
    ensures SameSleeper(k, Schedule(k1), t)
  {
    assert Placed(k, t) && PcOf(k, k.idle) == Outside;
    assert forall u :: u in k1.ready ==> u in k.ready || u == k.current;
    assert k1.ready != [] ==> k1.ready[0] in k1.ready;
  }

  lemma UpSleeper(k: State, s: Sid, t: Tid)
    requires Core(k) && PcOf(k, t) == Asleep
    ensures SameSleeper(k, SemaUp(k, s), t) && SemaUp(k, s).current == k.current
  {
    assert Queued(k, t, s);
  }

  lemma NotCurrent(k: State, t: Tid)
    requires ListInv(k) && PcOf(k, t) == Asleep
    ensures t != k.current && t != k.idle && t in k.threads
  {
    assert Placed(k, t);
  }

  lemma DownSleeper(k: State, s: Sid, next: Next, t: Tid)
    requires ListInv(k) && PcOf(k, t) == Asleep
    ensures SameSleeper(k, DownTurn(k, s, next), t)
  {
    hide Core, Sleepers, Schedule;
    NotCurrent(k, t);
    if Value(k, s) == 0 {
      ScheduleSleeper(k, QueueUp(k, s, next), t);
    }
  }

  lemma ResumeSleeper(k: State, t: Tid)
    requires ListInv(k) && PcOf(k, t) == Asleep
    ensures SameSleeper(k, Resume(k), t)
  {
    hide Core, Sleepers, DownTurn, SemaUp;
    NotCurrent(k, t);
    match PcOf(k, k.current)
    case Down(s, next) => DownSleeper(k, s, next, t);
    case Up(s, _) => UpSleeper(k, s, t);
    case _ =>
  }

  /** No step but the timer interrupt wakes a sleeper, changes its deadline or moves the clock. */
  lemma StillAsleep(k: State, e: Event, t: Tid)
    requires ListInv(k) && Enabled(k, e) && e != Interrupt && PcOf(k, t) == Asleep
    ensures SameSleeper(k, Step(k, e), t)
  {
    hide Core, Sleepers, DownTurn, SemaUp, Resume, Schedule, InsertOrdered;
    NotCurrent(k, t);
    match e
    case CallDown(n) => DownSleeper(k, Plain(n), Return, t);
    case CallUp(n) => UpSleeper(k, Plain(n), t);
    case CallAcquire(l) => DownSleeper(k, OfLock(l), TakeLock(l), t);
    case CallSleep(n) => if n > 0 { ScheduleSleeper(k, FallAsleep(k, n), t); }
    case Continue => ResumeSleeper(k, t);
    case Preempt =>
      var k1 := SetStatus(k, Ready);
      ScheduleSleeper(k, if k.current == k.idle then k1 else k1.(ready := k.ready + [k.current]), t);
    case Exit => ScheduleSleeper(k, SetStatus(k, Dying), t);
    case IdleBlock => ScheduleSleeper(k, SetStatus(k, Blocked), t);
    case _ =>
  }

  // ---------- runs ----------

  lemma ScheduleTicks(k: State)
    ensures Schedule(k).ticks == k.ticks
  {
  }

  lemma DownTicks(k: State, s: Sid, next: Next)
    ensures DownTurn(k, s, next).ticks == k.ticks
  {
    hide Schedule;
    ScheduleTicks(QueueUp(k, s, next));
  }

  lemma UpTicks(k: State, s: Sid)
    ensures SemaUp(k, s).ticks == k.ticks
  {
  }

  lemma ResumeTicks(k: State)
    ensures Resume(k).ticks == k.ticks
  {
    hide DownTurn, SemaUp;
    match PcOf(k, k.current)
    case Down(s, next) => DownTicks(k, s, next);
    case Up(s, _) => UpTicks(k, s);
    case _ =>
  }

  lemma YieldTicks(k: State)
    ensures Yield(k).ticks == k.ticks
  {
    hide Schedule;
    var k1 := SetStatus(k, Ready);
    ScheduleTicks(if k.current == k.idle then k1 else k1.(ready := k.ready + [k.current]));
  }

  lemma TickTicks(k: State)
    requires ListInv(k)
    ensures Tick(k).ticks == k.ticks + 1
  {
    hide Core, Sleepers, Ordered, Wake;
    TickCore(k);
    WakeLists(k.(ticks := k.ticks + 1));
  }

  /** The clock moves at timer interrupts only. */
  lemma StepTicks(k: State, e: Event)
    requires ListInv(k)
    ensures Step(k, e).ticks == k.ticks + if e == Interrupt then 1 else 0
  {
    hide ListInv, Schedule, DownTurn, SemaUp, Resume, Yield, Tick, FallAsleep;
    match e
    case CallDown(n) => DownTicks(k, Plain(n), Return);
    case CallUp(n) => UpTicks(k, Plain(n));
    case CallAcquire(l) => DownTicks(k, OfLock(l), TakeLock(l));
    case CallSleep(n) => if n > 0 { SleepTicks(k, n); }
    case Continue => ResumeTicks(k);
    case Preempt => YieldTicks(k);
    case Interrupt => TickTicks(k);
    case Exit => ScheduleTicks(SetStatus(k, Dying));
    case IdleBlock => ScheduleTicks(SetStatus(k, Blocked));
    case _ =>
  }

  lemma SleepTicks(k: State, n: int)
    ensures Sleep(k, n).ticks == k.ticks
  {
    hide Schedule, InsertOrdered;
    ScheduleTicks(FallAsleep(k, n));
  }

  lemma {:induction false} TicksGrow(states: seq<State>, events: seq<Event>, i: nat, j: nat)
    requires Run(states, events) && i <= j < |states|
    ensures states[i].ticks <= states[j].ticks
    decreases j
  {
    hide Initial, ListInv, LockInv, WakeInv, SignalInv, Step, Enabled;
    if i < j {
      TicksGrow(states, events, i, j - 1);
      RunInv(states, events, j - 1);
      assert StepAt(states, events, j - 1);
      StepTicks(states[j - 1], events[j - 1]);
    }
  }

  /** In every run a sleeper stays asleep, with its deadline, as long as the clock is short of it. */
  lemma {:induction false} SleepRun(states: seq<State>, events: seq<Event>, i: nat, j: nat, t: Tid)
    requires Run(states, events) && i <= j < |states|
    requires PcOf(states[i], t) == Asleep && states[j].ticks < Deadline(states[i], t)
    ensures ThreadOf(states[j], t) == ThreadOf(states[i], t) && Deadline(states[j], t) == Deadline(states[i], t)
    decreases j
  {
    hide Initial, ListInv, LockInv, WakeInv, SignalInv, Step, Enabled, Tick;
    if i < j {
      TicksGrow(states, events, j - 1, j);
      SleepRun(states, events, i, j - 1, t);
      RunInv(states, events, j - 1);
      assert StepAt(states, events, j - 1);
      var k, e := states[j - 1], events[j - 1];
      StepTicks(k, e);
      if e == Interrupt {
        InterruptTicks(k);
        WokenExactlyAtDeadline(k, t);
      } else {
        StillAsleep(k, e, t);
      }
    }
  }

  lemma InterruptTicks(k: State)
    ensures Step(k, Interrupt) == Tick(k)
  {
  }

  lemma SleepStarts(k: State, n: int)
    requires ListInv(k) && Enabled(k, CallSleep(n)) && n > 0
    ensures var k' := Step(k, CallSleep(n));
            ThreadOf(k', k.current) == Thread(Blocked, Asleep) && Deadline(k', k.current) == k.ticks + n
  {
    assert Placed(k, k.current) && PcOf(k, k.idle) == Outside;
    var k1 := FallAsleep(k, n);
    assert k1.ready != [] ==> k1.ready[0] in k.ready;
  }

  /** From `timer_sleep(n)` at tick T on, the thread is asleep in every later state before tick T + n. */
  lemma AsleepUntil(states: seq<State>, events: seq<Event>, i: nat, n: int, j: nat)
    requires Run(states, events) && i < |events| && events[i] == CallSleep(n) && n > 0
    requires i < j < |states| && states[j].ticks < states[i].ticks + n
    ensures var t := states[i].current;
            ThreadOf(states[j], t) == Thread(Blocked, Asleep) && Deadline(states[j], t) == states[i].ticks + n
  {
    hide Initial, ListInv, LockInv, WakeInv, SignalInv, Step, Enabled;
    RunInv(states, events, i);
    assert StepAt(states, events, i);
    SleepStarts(states[i], n);
    SleepRun(states, events, i + 1, j, states[i].current);
  }

  /** And the interrupt that brings the clock to T + n, however many steps later, makes it ready. */
  lemma ReadyExactlyAt(states: seq<State>, events: seq<Event>, i: nat, n: int, j: nat)
    requires Run(states, events) && i < |events| && events[i] == CallSleep(n) && n > 0
    requires i < j < |events| && events[j] == Interrupt && states[j].ticks + 1 == states[i].ticks + n
    ensures var t, k := states[i].current, states[j + 1];
            && k.ticks == states[i].ticks + n
            && ThreadOf(k, t) == Thread(Ready, Outside) && t in k.ready && t !in k.sleepers
  {
    hide Initial, ListInv, LockInv, WakeInv, SignalInv, Step, Enabled, Tick;
    AsleepUntil(states, events, i, n, j);
    RunInv(states, events, j);
    assert StepAt(states, events, j);
    InterruptTicks(states[j]);
    WokenExactlyAtDeadline(states[j], states[i].current);
  }
}
