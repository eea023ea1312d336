/** Every thread's list element is on the list its status says, and sleepers wake at their deadlines. */
module SchedulingLists {
  import opened Prelude
  import opened Scheduling

  ghost predicate Placed(k: State, t: Tid) {
    && (t in k.ready <==> St(k, t) == Ready && t != k.idle)
    && (t in k.sleepers <==> St(k, t) == Blocked && PcOf(k, t) == Asleep)
    && (PcOf(k, t) == Asleep ==> St(k, t) == Blocked)
    && (St(k, t) == Running ==> t == k.current)
  }

  ghost predicate Queued(k: State, t: Tid, s: Sid) {
    t in Waiters(k, s) <==> St(k, t) == Blocked && PcOf(k, t).Down? && PcOf(k, t).s == s
  }

  /** The sleep list is ordered, and every deadline on it lies ahead. */
  ghost predicate Sleepers(k: State) {
    && (forall i, j :: 0 <= i < j < |k.sleepers| ==> Deadline(k, k.sleepers[i]) <= Deadline(k, k.sleepers[j]))
    && (forall i :: 0 <= i < |k.sleepers| ==> k.ticks < Deadline(k, k.sleepers[i]))
  }

  /** No element is on two lists or twice on one, and status and list agree. */
  ghost predicate Core(k: State) {
    && (forall t :: Placed(k, t)) && (forall t, s :: Queued(k, t, s))
    && Distinct(k.ready) && Distinct(k.sleepers) && (forall s :: Distinct(Waiters(k, s)))
    && k.idle in k.threads && PcOf(k, k.idle) == Outside && St(k, k.idle) != Dying
  }

  ghost predicate Lists(k: State) { Core(k) && Sleepers(k) }

  ghost predicate ListInv(k: State) { Lists(k) && St(k, k.current) == Running }

  // ---------- sequences ----------

  lemma DistinctSnoc(s: seq<Tid>, t: Tid)
    requires Distinct(s) && t !in s
    ensures Distinct(s + [t]) && forall u :: u in s + [t] <==> u in s || u == t
  {
  }

  ghost predicate Ordered(s: seq<Tid>, deadline: map<Tid, int>) {
    forall i, j :: 0 <= i < j < |s| ==> At(deadline, s[i]) <= At(deadline, s[j])
  }

  lemma {:induction false} InsertKeeps(s: seq<Tid>, t: Tid, deadline: map<Tid, int>)
    requires Distinct(s) && t !in s && Ordered(s, deadline)
    ensures var r := InsertOrdered(s, t, deadline);
            Distinct(r) && Ordered(r, deadline) && forall u :: u in r <==> u in s || u == t
  {
    if s != [] {
      DistinctTail(s);
      if Earlier(deadline, t, s[0]) {
        assert Ordered([t] + s, deadline);
      } else {
        InsertKeeps(s[1..], t, deadline);
        var rest := InsertOrdered(s[1..], t, deadline);
        forall i | 0 <= i < |rest| ensures At(deadline, s[0]) <= At(deadline, rest[i]) && rest[i] != s[0] {
          assert rest[i] in rest;
          if rest[i] != t { var j :| 0 <= j < |s[1..]| && s[1..][j] == rest[i]; assert s[j + 1] == rest[i]; }
        }
        ConsKeeps(s[0], rest, deadline);
      }
    }
  }

  lemma ConsKeeps(t: Tid, rest: seq<Tid>, deadline: map<Tid, int>)
    requires Distinct(rest) && Ordered(rest, deadline)
    requires forall i :: 0 <= i < |rest| ==> At(deadline, t) <= At(deadline, rest[i]) && rest[i] != t
    ensures Distinct([t] + rest) && Ordered([t] + rest, deadline)
    ensures forall u :: u in [t] + rest <==> u == t || u in rest
  {
    var r := [t] + rest;
    forall i, j | 0 <= i < j < |r| ensures r[i] != r[j] && At(deadline, r[i]) <= At(deadline, r[j]) {
      assert r[j] == rest[j - 1] && (i > 0 ==> r[i] == rest[i - 1]);
    }
  }

  // ---------- the pieces ----------

  /** `schedule` always finds a thread to run: the first ready one, else the idle thread. */
  lemma ScheduleKeeps(k: State)
    requires Lists(k) && St(k, k.current) != Running
    ensures ListInv(Schedule(k))
    ensures Schedule(k).current == (if k.ready == [] then k.idle else k.ready[0])
    ensures Schedule(k).ready == (if k.ready == [] then [] else k.ready[1..])
  {
    var k' := Schedule(k);
    if k.ready == [] {
      assert Placed(k, k.idle);
    } else {
      DistinctTail(k.ready);
      assert Placed(k, k.ready[0]);
    }
    forall t: Tid ensures Placed(k', t) { assert Placed(k, t); }
    forall t: Tid, s: Sid ensures Queued(k', t, s) { assert Queued(k, t, s); }
    assert forall s :: Waiters(k', s) == Waiters(k, s);
    assert k'.deadline == k.deadline;
  }

  /** Changing only where the running thread stands, and counters, keeps the lists. */
  lemma LocalKeeps(k: State, k': State)
    requires ListInv(k) && PcOf(k', k.current) != Asleep && k.current != k.idle
    requires k'.current == k.current && k'.idle == k.idle && k'.ready == k.ready && k'.sleepers == k.sleepers
    requires k'.deadline == k.deadline && k'.ticks == k.ticks && St(k', k.current) == Running && k.idle in k'.threads
    requires forall t :: t != k.current ==> ThreadOf(k', t) == ThreadOf(k, t)
    requires forall s :: Waiters(k', s) == Waiters(k, s)
    ensures ListInv(k')
  {
    forall t: Tid ensures Placed(k', t) { assert Placed(k, t); }
    forall t: Tid, s: Sid ensures Queued(k', t, s) { assert Queued(k, t, s); }
  }

  lemma DownKeeps(k: State, s: Sid, next: Next)
    requires ListInv(k) && k.current != k.idle
    ensures ListInv(DownTurn(k, s, next))
  {
    var sema := SemaOf(k, s);
    if sema.value > 0 {
      LocalKeeps(k, DownTurn(k, s, next));
    } else {
      var k1 := QueueUp(k, s, next);
      assert Queued(k, k.current, s) && Placed(k, k.current);
      assert Distinct(Waiters(k, s));
      DistinctSnoc(sema.waiters, k.current);
      forall t: Tid ensures Placed(k1, t) { assert Placed(k, t); }
      forall t: Tid, x: Sid ensures Queued(k1, t, x) { assert Queued(k, t, x); }
      forall x: Sid ensures Distinct(Waiters(k1, x)) { assert Distinct(Waiters(k, x)); }
      ScheduleKeeps(k1);
    }
  }

  lemma UpKeeps(k: State, s: Sid)
    requires ListInv(k)
    ensures ListInv(SemaUp(k, s)) && SemaUp(k, s).current == k.current && SemaUp(k, s).idle == k.idle
  {
    var sema, k' := SemaOf(k, s), SemaUp(k, s);
    assert Distinct(Waiters(k, s));
    if sema.waiters != [] {
      var u := sema.waiters[0];
      assert Queued(k, u, s) && Placed(k, u) && Placed(k, k.current);
      DistinctTail(sema.waiters);
      DistinctSnoc(k.ready, u);
    }
    forall t: Tid ensures Placed(k', t) { assert Placed(k, t); }
    forall t: Tid, x: Sid ensures Queued(k', t, x) { assert Queued(k, t, x); }
    forall x: Sid ensures Distinct(Waiters(k', x)) { assert Distinct(Waiters(k, x)); }
  }

  lemma SleepOrder(k: State, n: int)
    requires ListInv(k) && n > 0
    ensures var k1 := FallAsleep(k, n);
            Sleepers(k1) && Distinct(k1.sleepers) && forall t :: t in k1.sleepers <==> t in k.sleepers || t == k.current
  {
    var me, k1 := k.current, FallAsleep(k, n);
    assert Placed(k, me);
    assert forall i :: 0 <= i < |k.sleepers| ==> k.sleepers[i] in k.sleepers && k.sleepers[i] != me;
    assert forall i :: 0 <= i < |k.sleepers| ==> At(k1.deadline, k.sleepers[i]) == Deadline(k, k.sleepers[i]);
    InsertKeeps(k.sleepers, me, k1.deadline);
    forall i | 0 <= i < |k1.sleepers|
      ensures k.ticks < Deadline(k1, k1.sleepers[i])
    {
      assert k1.sleepers[i] in k1.sleepers;
    }
  }

  lemma SleepKeeps(k: State, n: int)
    requires ListInv(k) && k.current != k.idle && n > 0
    ensures ListInv(Sleep(k, n))
  {
    hide Sleepers, Distinct, InsertOrdered;
    var k1 := FallAsleep(k, n);
    SleepOrder(k, n);
    assert Placed(k, k.current);
    forall t: Tid ensures Placed(k1, t) { assert Placed(k, t); }
    forall t: Tid, s: Sid ensures Queued(k1, t, s) { assert Queued(k, t, s); }
    forall s ensures Distinct(Waiters(k1, s)) { assert Waiters(k1, s) == Waiters(k, s); }
    ScheduleKeeps(k1);
  }

  lemma YieldKeeps(k: State)
    requires ListInv(k)
    ensures ListInv(Yield(k))
    ensures Yield(k).current == (if k.ready == [] then k.current else k.ready[0])
    ensures k.ready != [] && k.current != k.idle ==> Yield(k).ready == k.ready[1..] + [k.current]
  {
    var k1 := SetStatus(k, Ready);
    var k2 := if k.current == k.idle then k1 else k1.(ready := k.ready + [k.current]);
    assert Placed(k, k.current);
    DistinctSnoc(k.ready, k.current);
    forall t: Tid ensures Placed(k2, t) { assert Placed(k, t); }
    forall t: Tid, s: Sid ensures Queued(k2, t, s) { assert Queued(k, t, s); }
    assert forall s :: Waiters(k2, s) == Waiters(k, s);
    ScheduleKeeps(k2);
  }

  lemma LeaveKeeps(k: State, status: Status)
    requires ListInv(k)
    requires status in {Dying, Blocked}
    requires (status == Dying ==> k.current != k.idle) && (status == Blocked ==> k.current == k.idle)
    requires PcOf(k, k.current) == Outside
    ensures ListInv(Schedule(SetStatus(k, status)))
  {
    var k1 := SetStatus(k, status);
    assert Placed(k, k.current);
    forall t: Tid ensures Placed(k1, t) { assert Placed(k, t); }
    forall t: Tid, s: Sid ensures Queued(k1, t, s) { assert Queued(k, t, s); }
    assert forall s :: Waiters(k1, s) == Waiters(k, s);
    ScheduleKeeps(k1);
  }

  lemma CreateKeeps(k: State, t0: Tid)
    requires ListInv(k) && t0 !in k.threads
    ensures ListInv(Unblock(k, t0, Outside))
  {
    var k' := Unblock(k, t0, Outside);
    assert Placed(k, t0) && Placed(k, k.idle);
    DistinctSnoc(k.ready, t0);
    forall t: Tid ensures Placed(k', t) { assert Placed(k, t); }
    forall t: Tid, s: Sid ensures Queued(k', t, s) { assert Queued(k, t, s); }
    assert forall s :: Waiters(k', s) == Waiters(k, s);
  }

  // ---------- the timer ----------

  function WakeFirst(k: State): State
    requires k.sleepers != []
  {
    Unblock(k, k.sleepers[0], Outside).(sleepers := k.sleepers[1..])
  }

  lemma WakeFirstKeeps(k: State)
    requires Core(k) && St(k, k.current) == Running && k.sleepers != []
    ensures Core(WakeFirst(k)) && St(WakeFirst(k), k.current) == Running
    ensures St(WakeFirst(k), k.sleepers[0]) == Ready && PcOf(k, k.sleepers[0]) == Asleep
  {
    var k', u := WakeFirst(k), k.sleepers[0];
    DistinctTail(k.sleepers);
    assert Placed(k, u) && Placed(k, k.current) && Placed(k, k.idle);
    DistinctSnoc(k.ready, u);
    forall t: Tid ensures Placed(k', t) { assert Placed(k, t); }
    forall t: Tid, s: Sid ensures Queued(k', t, s) { assert Queued(k, t, s); }
    forall s ensures Distinct(Waiters(k', s)) { assert Waiters(k', s) == Waiters(k, s); }
  }

  /** `t` is due: it sleeps, and its deadline is now. */
  predicate Due(k: State, t: Tid) { t in k.sleepers && Deadline(k, t) <= k.ticks }

  /** Semaphores, locks, condition variables and the clock are as before. */
  ghost predicate SameObjects(k: State, k': State) {
    && k'.current == k.current && k'.idle == k.idle && k'.ticks == k.ticks && k'.deadline == k.deadline
    && k'.semas == k.semas && k'.holders == k.holders && k'.conds == k.conds && k'.condOf == k.condOf
    && k'.nextWaiter == k.nextWaiter
  }

  lemma {:induction false} WakeLists(k: State)
    requires Core(k) && St(k, k.current) == Running && Ordered(k.sleepers, k.deadline)
    ensures ListInv(Wake(k)) && SameObjects(k, Wake(k))
    decreases |k.sleepers|
  {
    hide Core, Distinct;
    if k.sleepers != [] && k.ticks >= Deadline(k, k.sleepers[0]) {
      WakeFirstKeeps(k);
      WakeLists(WakeFirst(k));
    }
  }

  lemma DueFirst(k: State)
    requires Core(k) && k.sleepers != [] && Deadline(k, k.sleepers[0]) <= k.ticks
    ensures forall t :: Due(k, t) <==> t == k.sleepers[0] || Due(WakeFirst(k), t)
    ensures !Due(WakeFirst(k), k.sleepers[0])
  {
    DistinctTail(k.sleepers);
  }

  lemma NoneDue(k: State)
    requires Ordered(k.sleepers, k.deadline) && (k.sleepers == [] || k.ticks < Deadline(k, k.sleepers[0]))
    ensures forall t :: !Due(k, t)
  {
    forall t: Tid ensures !Due(k, t) {
      if t in k.sleepers {
        var i :| 0 <= i < |k.sleepers| && k.sleepers[i] == t;
        assert Deadline(k, k.sleepers[0]) <= Deadline(k, k.sleepers[i]);
      }
    }
  }

  lemma OrderedTail(k: State)
    requires Ordered(k.sleepers, k.deadline) && k.sleepers != []
    ensures Ordered(WakeFirst(k).sleepers, WakeFirst(k).deadline)
  {
  }

  /** The loop stops at the first deadline ahead, and yet wakes every thread that is due and no other. */
  lemma {:induction false} WakesDue(k: State, t: Tid)
    requires Core(k) && St(k, k.current) == Running && Ordered(k.sleepers, k.deadline)
    ensures ThreadOf(Wake(k), t) == if Due(k, t) then Thread(Ready, Outside) else ThreadOf(k, t)
    ensures Due(k, t) ==> PcOf(k, t) == Asleep && St(k, t) == Blocked
    decreases |k.sleepers|
  {
    hide Core, Distinct, Ordered, Due;
    if k.sleepers == [] || k.ticks < Deadline(k, k.sleepers[0]) {
      NoneDue(k);
    } else {
      WakeFirstKeeps(k);
      OrderedTail(k);
      DueFirst(k);
      WakesDue(WakeFirst(k), t);
      SleeperBlocked(k, k.sleepers[0]);
    }
  }

  lemma SleeperBlocked(k: State, t: Tid)
    requires Core(k) && t in k.sleepers
    ensures St(k, t) == Blocked && PcOf(k, t) == Asleep
  {
    assert Placed(k, t);
  }

  /** A thread that sleeps is made ready at the tick equal to its deadline, and not before. */
  lemma WokenExactlyAtDeadline(k: State, t: Tid)
    requires ListInv(k) && PcOf(k, t) == Asleep
    ensures k.ticks < Deadline(k, t)
    ensures var k' := Tick(k);
            && k'.ticks == k.ticks + 1
            && (if k'.ticks == Deadline(k, t) then
                  ThreadOf(k', t) == Thread(Ready, Outside) && t in k'.ready && t !in k'.sleepers
                else ThreadOf(k', t) == ThreadOf(k, t) && t in k'.sleepers && Deadline(k', t) == Deadline(k, t))
  {
    hide Distinct;
    assert Placed(k, t) && t in k.sleepers && Placed(k, k.idle);
    var i :| 0 <= i < |k.sleepers| && k.sleepers[i] == t;
    var k1 := k.(ticks := k.ticks + 1);
    TickCore(k);
    WakeLists(k1);
    WakesDue(k1, t);
    assert Placed(Wake(k1), t);
    assert t != k.idle;
  }

  lemma TickCore(k: State)
    requires ListInv(k)
    ensures var k1 := k.(ticks := k.ticks + 1);
            Core(k1) && St(k1, k.current) == Running && Ordered(k1.sleepers, k1.deadline)
  {
    var k1 := k.(ticks := k.ticks + 1);
    forall t: Tid ensures Placed(k1, t) { assert Placed(k, t); }
    forall t: Tid, s: Sid ensures Queued(k1, t, s) { assert Queued(k, t, s); }
    forall s ensures Distinct(Waiters(k1, s)) { assert Waiters(k1, s) == Waiters(k, s); }
  }

  /** `timer_interrupt`, with the loop as it runs. */
  method TimerInterrupt(k0: State) returns (k: State)
    requires ListInv(k0)
    ensures k == Tick(k0) && ListInv(k)
  {
    k := k0.(ticks := k0.ticks + 1);
    while k.sleepers != []
      invariant Wake(k) == Tick(k0)
      decreases |k.sleepers|
    {
      var t := k.sleepers[0];
      if k.ticks < Deadline(k, t) { break; }
      k := Unblock(k, t, Outside).(sleepers := k.sleepers[1..]);
    }
    TickKeeps(k0);
  }

  lemma TickKeeps(k: State)
    requires ListInv(k)
    ensures ListInv(Tick(k))
  {
    TickCore(k);
    WakeLists(k.(ticks := k.ticks + 1));
  }

  // ---------- every step ----------

  /** Moving the running thread on, and setting or clearing holders. */
  lemma MoveKeeps(k: State, pc: Pc, holders: map<nat, Tid>)
    requires ListInv(k) && k.current != k.idle && pc != Asleep
    ensures ListInv(SetPc(k, pc)) && ListInv(SetPc(k, pc).(holders := holders))
  {
    hide Core, Sleepers;
    IdleThere(k);
    LocalKeeps(k, SetPc(k, pc));
    LocalKeeps(k, SetPc(k, pc).(holders := holders));
  }

  lemma ResumeKeepsLists(k: State)
    requires ListInv(k) && k.current != k.idle
    ensures ListInv(Resume(k))
  {
    hide ListInv, DownTurn, SemaUp, SetPc;
    match PcOf(k, k.current)
    case Down(s, next) => DownKeeps(k, s, next);
    case Up(s, next) => UpKeeps(k, s); MoveKeeps(SemaUp(k, s), After(next), map[]);
    case SetHolder(l) => MoveKeeps(k, Outside, k.holders[l := k.current]);
    case Release(l, w) => MoveKeeps(k, Up(OfLock(l), ThenWait(w, l)), k.holders - {l});
    case _ =>
  }

  lemma IdleThere(k: State)
    requires Core(k)
    ensures k.idle in k.threads
  {
  }

  lemma WaitKeeps(k: State, c: nat, l: nat)
    requires ListInv(k) && k.current != k.idle && PcOf(k, k.current) == Outside
    ensures ListInv(Push(k, c, l)) && ListInv(Pop(k, c))
  {
    hide Core, Sleepers;
    IdleThere(k);
    LocalKeeps(k, Push(k, c, l));
    LocalKeeps(k, Pop(k, c));
  }

  lemma StepKeepsLists(k: State, e: Event)
    requires ListInv(k) && Enabled(k, e)
    ensures ListInv(Step(k, e))
  {
    hide Core, Sleepers, DownTurn, SemaUp, Schedule, Push, Pop, Sleep, Yield, Tick, Resume, Unblock, SetStatus, SetPc;
    match e
    case CallDown(n) => DownKeeps(k, Plain(n), Return);
    case CallUp(n) => UpKeeps(k, Plain(n));
    case CallAcquire(l) => DownKeeps(k, OfLock(l), TakeLock(l));
    case CallRelease(l) => MoveKeeps(k, Up(OfLock(l), Return), k.holders - {l});
    case CallWait(c, l) => WaitKeeps(k, c, l);
    case CallSignal(c, l) => WaitKeeps(k, c, l);
    case CallSleep(n) => if n > 0 { SleepKeeps(k, n); }
    case Continue => ResumeKeepsLists(k);
    case Preempt => YieldKeeps(k);
    case Interrupt => TickKeeps(k);
    case Create(t) => CreateKeeps(k, t);
    case Exit => LeaveKeeps(k, Dying);
    case IdleBlock => IdleOutside(k); LeaveKeeps(k, Blocked);
  }

  lemma IdleOutside(k: State)
    requires Core(k)
    ensures PcOf(k, k.idle) == Outside
  {
  }

  /** No thread's element is on two of the lists, whatever the semaphores. */
  lemma OnOneList(k: State, t: Tid, s: Sid, s': Sid)
    requires ListInv(k)
    ensures !(t in k.ready && t in k.sleepers) && !(t in k.ready && t in Waiters(k, s))
    ensures !(t in k.sleepers && t in Waiters(k, s))
    ensures t in Waiters(k, s) && t in Waiters(k, s') ==> s == s'
    ensures t == k.current ==> t !in k.ready && t !in k.sleepers && t !in Waiters(k, s)
  {
    assert Placed(k, t) && Queued(k, t, s) && Queued(k, t, s');
  }
}
