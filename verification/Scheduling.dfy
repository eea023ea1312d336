/** Threads, semaphores, locks, condition variables and sleep on one processor, after PintOS/src/threads/synch.c,
    PintOS/src/threads/thread.c and PintOS/src/devices/timer.c. A section that runs with interrupts disabled is
    one step; a thread can be preempted between any two steps. */
module Scheduling {
  import opened Prelude

  type Tid = nat

  /** A semaphore is a plain one, the one inside a lock, or the one on the stack of a `cond_wait` call. */
  datatype Sid = Plain(n: nat) | OfLock(l: nat) | Waiter(w: nat)

  /** What a call does next, after a `sema_down` or `sema_up` inside it. */
  datatype Next = Return | TakeLock(l: nat) | Relock(l: nat) | ThenWait(w: nat, l: nat)

  /** Where a thread is: outside these functions, or before or blocked in one of their steps. */
  datatype Pc =
    | Outside
    | Asleep                        // in `timer_sleep`
    | Down(s: Sid, next: Next)      // in the loop of `sema_down`
    | Up(s: Sid, next: Next)        // before `sema_up`
    | SetHolder(l: nat)             // in `lock_acquire`, the semaphore taken
    | Release(l: nat, w: nat)       // in `cond_wait`, the waiter queued

  datatype Status = Running | Ready | Blocked | Dying

  datatype Thread = Thread(status: Status, pc: Pc)

  datatype Sema = Sema(value: nat, waiters: seq<Tid>)

  datatype State = State(
    current: Tid, idle: Tid, threads: map<Tid, Thread>, ready: seq<Tid>, semas: map<Sid, Sema>,
    holders: map<nat, Tid>, conds: map<nat, seq<nat>>, nextWaiter: nat, condOf: map<nat, nat>,
    sleepers: seq<Tid>, deadline: map<Tid, int>, ticks: int)

  // ---------- reading a state ----------

  function ThreadOf(k: State, t: Tid): Thread { if t in k.threads then k.threads[t] else Thread(Dying, Outside) }

  function St(k: State, t: Tid): Status { ThreadOf(k, t).status }

  function PcOf(k: State, t: Tid): Pc { ThreadOf(k, t).pc }

  /** `lock_init` starts a lock's semaphore at 1; `cond_wait` starts its own at 0. */
  function SemaOf(k: State, s: Sid): Sema {
    if s in k.semas then k.semas[s] else Sema(if s.OfLock? then 1 else 0, [])
  }

  function Value(k: State, s: Sid): nat { SemaOf(k, s).value }

  function Waiters(k: State, s: Sid): seq<Tid> { SemaOf(k, s).waiters }

  function Holder(k: State, l: nat): Option<Tid> { if l in k.holders then Some(k.holders[l]) else None }

  function Queue(k: State, c: nat): seq<nat> { if c in k.conds then k.conds[c] else [] }

  function At(deadline: map<Tid, int>, t: Tid): int { if t in deadline then deadline[t] else 0 }

  function Deadline(k: State, t: Tid): int { At(k.deadline, t) }

  // ---------- the pieces of the steps ----------

  function Put(k: State, t: Tid, status: Status, pc: Pc): State { k.(threads := k.threads[t := Thread(status, pc)]) }

  function SetPc(k: State, pc: Pc): State { Put(k, k.current, St(k, k.current), pc) }

  /** `next_thread_to_run` and `schedule` */
  function Schedule(k: State): State {
    if k.ready == [] then Put(k, k.idle, Running, PcOf(k, k.idle)).(current := k.idle)
    else Put(k, k.ready[0], Running, PcOf(k, k.ready[0])).(current := k.ready[0], ready := k.ready[1..])
  }

  /** `thread_unblock` */
  function Unblock(k: State, t: Tid, pc: Pc): State { Put(k, t, Ready, pc).(ready := k.ready + [t]) }

  function After(next: Next): Pc {
    match next
    case Return => Outside
    case TakeLock(l) => SetHolder(l)
    case Relock(l) => Down(OfLock(l), TakeLock(l))
    case ThenWait(w, l) => Down(Waiter(w), Relock(l))
  }

  /** One turn of the loop in `sema_down`: take the semaphore, or queue up and block. */
  function DownTurn(k: State, s: Sid, next: Next): State {
    var sema := SemaOf(k, s);
    if sema.value > 0 then
      SetPc(k.(semas := k.semas[s := sema.(value := sema.value - 1)]), After(next))
    else
      Schedule(QueueUp(k, s, next))
  }

  /** Lines 71-72: the running thread joins the waiters of `s`, and is blocked. */
  function QueueUp(k: State, s: Sid, next: Next): State {
    var sema := SemaOf(k, s);
    Put(k, k.current, Blocked, Down(s, next)).(semas := k.semas[s := sema.(waiters := sema.waiters + [k.current])])
  }

  /** `sema_up` */
  function SemaUp(k: State, s: Sid): State {
    var sema := SemaOf(k, s);
    if sema.waiters == [] then k.(semas := k.semas[s := Sema(sema.value + 1, [])])
    else
      var t := sema.waiters[0];
      Unblock(k, t, PcOf(k, t)).(semas := k.semas[s := Sema(sema.value + 1, sema.waiters[1..])])
  }

  /** `cmp_ticks` */
  predicate Earlier(deadline: map<Tid, int>, t: Tid, u: Tid) { At(deadline, t) < At(deadline, u) }

  /** `list_insert_ordered` with `cmp_ticks`: before the first thread with a later deadline. */
  function InsertOrdered(list: seq<Tid>, t: Tid, deadline: map<Tid, int>): seq<Tid> {
    if list == [] then [t]
    else if Earlier(deadline, t, list[0]) then [t] + list
    else [list[0]] + InsertOrdered(list[1..], t, deadline)
  }

  /** Lines 98-101 of `timer_sleep`: the running thread joins the sleepers, and is blocked. */
  function FallAsleep(k: State, n: int): State {
    var deadline := k.deadline[k.current := k.ticks + n];
    Put(k, k.current, Blocked, Asleep).(deadline := deadline,
        sleepers := InsertOrdered(k.sleepers, k.current, deadline))
  }

  function Sleep(k: State, n: int): State { Schedule(FallAsleep(k, n)) }

  /** The loop of `timer_interrupt`: wake from the front until a deadline lies ahead. */
  function Wake(k: State): State
    decreases |k.sleepers|
  {
    if k.sleepers == [] || k.ticks < Deadline(k, k.sleepers[0]) then k
    else Wake(Unblock(k, k.sleepers[0], Outside).(sleepers := k.sleepers[1..]))
  }

  function Tick(k: State): State { Wake(k.(ticks := k.ticks + 1)) }

  /** `thread_yield`, by choice or on return from an interrupt. */
  function Yield(k: State): State {
    var k1 := SetStatus(k, Ready);
    Schedule(if k.current == k.idle then k1 else k1.(ready := k.ready + [k.current]))
  }

  function SetStatus(k: State, status: Status): State { Put(k, k.current, status, PcOf(k, k.current)) }

  // ---------- steps ----------

  datatype Event =
    | CallDown(n: nat) | CallUp(n: nat) | CallAcquire(l: nat) | CallRelease(l: nat)
    | CallWait(c: nat, l: nat) | CallSignal(c: nat, l: nat) | CallSleep(duration: int)
    | Continue | Preempt | Interrupt | Create(t: Tid) | Exit | IdleBlock

  /** A call needs the running thread outside the others, and what its assertions demand. */
  predicate Enabled(k: State, e: Event) {
    match e
    case Continue => PcOf(k, k.current) != Outside && k.current != k.idle
    case Preempt => true
    case Interrupt => true
    case IdleBlock => k.current == k.idle
    case Create(t) => t !in k.threads
    case _ =>
      && PcOf(k, k.current) == Outside && k.current != k.idle
      && match e
         case CallAcquire(l) => Holder(k, l) != Some(k.current)
         case CallRelease(l) => Holder(k, l) == Some(k.current)
         case CallWait(_, l) => Holder(k, l) == Some(k.current)
         case CallSignal(_, l) => Holder(k, l) == Some(k.current)
         case _ => true
  }

  function Push(k: State, c: nat, l: nat): State {
    SetPc(k, Release(l, k.nextWaiter)).(conds := k.conds[c := Queue(k, c) + [k.nextWaiter]],
                                         condOf := k.condOf[k.nextWaiter := c], nextWaiter := k.nextWaiter + 1)
  }

  function Pop(k: State, c: nat): State {
    var q := Queue(k, c);
    if q == [] then k else SetPc(k, Up(Waiter(q[0]), Return)).(conds := k.conds[c := q[1..]])
  }

  function Step(k: State, e: Event): State {
    match e
    case CallDown(n) => DownTurn(k, Plain(n), Return)
    case CallUp(n) => SemaUp(k, Plain(n))
    case CallAcquire(l) => DownTurn(k, OfLock(l), TakeLock(l))
    case CallRelease(l) => SetPc(k, Up(OfLock(l), Return)).(holders := k.holders - {l})
    case CallWait(c, l) => Push(k, c, l)
    case CallSignal(c, _) => Pop(k, c)
    case CallSleep(n) => if n <= 0 then k else Sleep(k, n)
    case Continue => Resume(k)
    case Preempt => Yield(k)
    case Interrupt => Tick(k)
    case Create(t) => Unblock(k, t, Outside)
    case Exit => Schedule(SetStatus(k, Dying))
    case IdleBlock => Schedule(SetStatus(k, Blocked))
  }

  /** The running thread goes on inside one of the functions. */
  function Resume(k: State): State {
    match PcOf(k, k.current)
    case Down(s, next) => DownTurn(k, s, next)
    case Up(s, next) => SetPc(SemaUp(k, s), After(next))
    case SetHolder(l) => SetPc(k, Outside).(holders := k.holders[l := k.current])
    case Release(l, w) => SetPc(k, Up(OfLock(l), ThenWait(w, l))).(holders := k.holders - {l})
    case _ => k
  }

  /** At the start one thread runs, and the idle thread is blocked. */
  ghost predicate Initial(k: State) {
    && k.current != k.idle && k.threads == map[k.current := Thread(Running, Outside),
       k.idle := Thread(Blocked, Outside)]
    && k.ready == [] && k.sleepers == [] && k.holders == map[] && k.conds == map[] && k.condOf == map[]
    && k.nextWaiter == 0
    && forall s :: s in k.semas ==> s.Plain? && k.semas[s].waiters == []
  }

  ghost predicate StepAt(states: seq<State>, events: seq<Event>, j: nat)
    requires j < |events| && |states| == |events| + 1
  {
    Enabled(states[j], events[j]) && states[j + 1] == Step(states[j], events[j])
  }

  /** One interleaving of calls, preemptions and interrupts. */
  ghost predicate Run(states: seq<State>, events: seq<Event>) {
    && |states| == |events| + 1 && Initial(states[0])
    && forall j :: 0 <= j < |events| ==> StepAt(states, events, j)
  }
}
