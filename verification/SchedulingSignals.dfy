/** No wake-up is lost: not those of `sema_up`, and not those of `cond_signal`. */
module SchedulingSignals {
  import opened Prelude
  import opened Scheduling
  import opened SchedulingLists
  import opened SchedulingLocks

  // ---------- semaphores ----------

  /** `t` stands in `sema_down` on `s` and is not blocked: it will look at the value again. */
  ghost predicate Awake(k: State, t: Tid, s: Sid) {
    PcOf(k, t).Down? && PcOf(k, t).s == s && St(k, t) != Blocked
  }

  ghost function AwakeSet(k: State, s: Sid): set<Tid> { set t | t in k.threads && Awake(k, t, s) }

  /** While threads wait on a semaphore, every unit of its value has an awake thread coming for it. */
  ghost predicate WakeOk(k: State, s: Sid) {
    Waiters(k, s) == [] || Value(k, s) <= |AwakeSet(k, s)|
  }

  ghost predicate WakeInv(k: State) { forall s :: WakeOk(k, s) }

  lemma SetGrows(a: set<Tid>, b: set<Tid>, gone: set<Tid>)
    requires a - gone <= b
    ensures |a| <= |b| + |gone|
  {
    SubsetSize(a, b + gone);
  }

  lemma WakeFrame(k: State, k': State, s: Sid)
    requires WakeOk(k, s) && SemaOf(k', s) == SemaOf(k, s) && forall t :: Awake(k, t, s) ==> Awake(k', t, s)
    ensures WakeOk(k', s)
  {
    SetGrows(AwakeSet(k, s), AwakeSet(k', s), {});
  }

  /** `schedule` blocks nobody. */
  lemma ScheduleAwake(k: State)
    ensures forall t :: St(Schedule(k), t) == Blocked ==> St(k, t) == Blocked
  {
    var k', u := Schedule(k), if k.ready == [] then k.idle else k.ready[0];
    assert k'.threads == k.threads[u := Thread(Running, PcOf(k, u))];
    forall t: Tid | St(k', t) == Blocked ensures St(k, t) == Blocked { }
  }

  lemma DownTaken(k: State, s: Sid, next: Next)
    requires WakeInv(k) && Value(k, s) > 0 && NextOk(next, s)
    requires PcOf(k, k.current) == Outside || PcOf(k, k.current) == Down(s, next)
    ensures WakeInv(DownTurn(k, s, next))
  {
    var k', me := DownTurn(k, s, next), k.current;
    DownMoves(k, s, next);
    assert forall t :: St(k', t) == St(k, t);
    forall x: Sid ensures WakeOk(k', x) {
      assert WakeOk(k, x);
      if x == s {
        TakenOne(k, k', s);
      } else {
        assert forall t :: Awake(k, t, x) ==> Awake(k', t, x);
        WakeFrame(k, k', x);
      }
    }
  }

  lemma TakenOne(k: State, k': State, s: Sid)
    requires WakeOk(k, s) && Waiters(k', s) == Waiters(k, s) && Value(k', s) == Value(k, s) - 1
    requires forall t :: Awake(k, t, s) && t != k.current ==> Awake(k', t, s)
    ensures WakeOk(k', s)
  {
    SetGrows(AwakeSet(k, s), AwakeSet(k', s), {k.current});
  }

  lemma DownBlocks(k: State, s: Sid, next: Next)
    requires WakeInv(k) && Value(k, s) == 0
    requires PcOf(k, k.current) == Outside || PcOf(k, k.current) == Down(s, next)
    ensures WakeInv(DownTurn(k, s, next))
  {
    hide Schedule;
    var k' := DownTurn(k, s, next);
    var k1 := QueueUp(k, s, next);
    ScheduleSame(k1);
    ScheduleAwake(k1);
    forall x: Sid ensures WakeOk(k', x) {
      assert WakeOk(k, x);
      if x != s {
        forall t: Tid | Awake(k, t, x) ensures Awake(k', t, x) { }
        WakeFrame(k, k', x);
      }
    }
  }

  lemma UpWakes(k: State, s: Sid)
    requires WakeInv(k) && ListInv(k)
    ensures WakeInv(SemaUp(k, s)) && forall t :: St(SemaUp(k, s), t) == Blocked ==> St(k, t) == Blocked
  {
    hide Core;
    var sema, k' := SemaOf(k, s), SemaUp(k, s);
    UpMoves(k, s);
    if sema.waiters != [] { WaiterBlocked(k, sema.waiters[0], s); }
    forall t: Tid | St(k', t) == Blocked ensures St(k, t) == Blocked { }
    forall x: Sid ensures WakeOk(k', x) {
      assert WakeOk(k, x);
      if x == s {
        if sema.waiters != [] { WokenOne(k, k', s, sema.waiters[0]); }
      } else {
        WakeFrame(k, k', x);
      }
    }
  }

  lemma WaiterBlocked(k: State, u: Tid, s: Sid)
    requires Core(k) && u in Waiters(k, s)
    ensures u in k.threads && St(k, u) == Blocked && PcOf(k, u).Down? && PcOf(k, u).s == s
  {
    assert Queued(k, u, s);
  }

  lemma WokenOne(k: State, k': State, s: Sid, u: Tid)
    requires WakeOk(k, s) && Waiters(k, s) != [] && Value(k', s) == Value(k, s) + 1
    requires !Awake(k, u, s) && Awake(k', u, s) && forall t :: Awake(k, t, s) ==> Awake(k', t, s)
    ensures WakeOk(k', s)
  {
    SubsetSize(AwakeSet(k, s) + {u}, AwakeSet(k', s));
  }

  /** Steps that leave the semaphores alone and block nobody who stands in `sema_down`. */
  lemma QuietWakes(k: State, k': State)
    requires WakeInv(k) && k'.semas == k.semas
    requires forall t :: PcOf(k, t).Down? ==>
             PcOf(k', t) == PcOf(k, t) && (St(k', t) == Blocked ==> St(k, t) == Blocked)
    ensures WakeInv(k')
  {
    forall s: Sid ensures WakeOk(k', s) {
      assert WakeOk(k, s);
      WakeFrame(k, k', s);
    }
  }

  lemma DownKeepsWakes(k: State, s: Sid, next: Next)
    requires WakeInv(k) && NextOk(next, s) && (PcOf(k, k.current) == Outside || PcOf(k, k.current) == Down(s, next))
    ensures WakeInv(DownTurn(k, s, next))
  {
    if Value(k, s) > 0 { DownTaken(k, s, next); } else { DownBlocks(k, s, next); }
  }

  lemma ResumeKeepsWakes(k: State)
    requires ListInv(k) && LockInv(k) && WakeInv(k)
    ensures WakeInv(Resume(k))
  {
    hide Core, Sleepers, LockOk, WakeInv, DownTurn, SemaUp;
    assert PcOk(k, k.current);
    match PcOf(k, k.current)
    case Down(s, next) => DownKeepsWakes(k, s, next);
    case Up(s, next) =>
      UpWakes(k, s);
      UpMoves(k, s);
      QuietWakes(SemaUp(k, s), Resume(k));
    case SetHolder(_) => QuietWakes(k, Resume(k));
    case Release(_, _) => QuietWakes(k, Resume(k));
    case _ =>
  }

  lemma YieldAwake(k: State)
    ensures forall t :: St(Yield(k), t) == Blocked ==> St(k, t) == Blocked
  {
    hide Schedule;
    var k1 := SetStatus(k, Ready);
    ScheduleAwake(if k.current == k.idle then k1 else k1.(ready := k.ready + [k.current]));
  }

  lemma TickAwake(k: State)
    requires ListInv(k)
    ensures forall t :: St(Tick(k), t) == Blocked ==> St(k, t) == Blocked
  {
    TickCore(k);
    forall t: Tid | St(Tick(k), t) == Blocked ensures St(k, t) == Blocked { WakesDue(k.(ticks := k.ticks + 1), t); }
  }

  lemma StepKeepsWakes(k: State, e: Event)
    requires ListInv(k) && LockInv(k) && WakeInv(k) && Enabled(k, e)
    ensures WakeInv(Step(k, e))
  {
    hide Core, Sleepers, LockInv, WakeInv, DownTurn, SemaUp, Schedule, InsertOrdered;
    match e
    case CallDown(n) => DownKeepsWakes(k, Plain(n), Return);
    case CallUp(n) => UpWakes(k, Plain(n));
    case CallAcquire(l) => DownKeepsWakes(k, OfLock(l), TakeLock(l));
    case CallRelease(l) => QuietWakes(k, Step(k, e));
    case CallWait(c, l) => QuietWakes(k, Step(k, e));
    case CallSignal(c, _) => QuietWakes(k, Step(k, e));
    case CallSleep(n) =>
      if n > 0 { ScheduleSame(FallAsleep(k, n)); ScheduleAwake(FallAsleep(k, n)); QuietWakes(k, Step(k, e)); }
    case Continue => ResumeKeepsWakes(k);
    case Preempt => YieldSame(k); YieldAwake(k); QuietWakes(k, Step(k, e));
    case Interrupt => WakeQuiet(k); TickAwake(k); QuietWakes(k, Step(k, e));
    case Create(t) => QuietWakes(k, Step(k, e));
    case Exit => ScheduleSame(SetStatus(k, Dying)); ScheduleAwake(SetStatus(k, Dying)); QuietWakes(k, Step(k, e));
    case IdleBlock =>
      IdleOutside(k);
      ScheduleSame(SetStatus(k, Blocked));
      ScheduleAwake(SetStatus(k, Blocked));
      QuietWakes(k, Step(k, e));
  }

  // ---------- condition variables ----------

  /** The `cond_wait` call that a thread is in, known by its waiter, until it has passed its `sema_down`. */
  function PendingOn(pc: Pc): Option<nat> {
    match pc
    case Release(_, w) => Some(w)
    case Up(_, ThenWait(w, _)) => Some(w)
    case Down(Waiter(w), _) => Some(w)
    case _ => None
  }

  ghost predicate Pending(k: State, t: Tid, w: nat) { PendingOn(PcOf(k, t)) == Some(w) }

  /** `t` has taken `w` off its condition's list and has yet to raise its semaphore. */
  ghost predicate Signalling(k: State, t: Tid, w: nat) { PcOf(k, t).Up? && PcOf(k, t).s == Waiter(w) }

  predicate InQueue(k: State, w: nat) { w in k.condOf && w in Queue(k, k.condOf[w]) }

  ghost predicate SomePending(k: State, w: nat) { exists t :: Pending(k, t, w) }

  ghost predicate SomeSignalling(k: State, w: nat) { exists t :: Signalling(k, t, w) }

  /** How many times `w` is queued, being signalled or signalled. */
  ghost function Tokens(k: State, w: nat): nat {
    (if InQueue(k, w) then 1 else 0) + (if SomeSignalling(k, w) then 1 else 0) + Value(k, Waiter(w))
  }

  /** A pending waiter is queued, being signalled or signalled, exactly one of these; any other waiter is none. */
  ghost predicate TokenOk(k: State, w: nat) {
    && Tokens(k, w) == (if SomePending(k, w) then 1 else 0)
    && (forall t, u :: Pending(k, t, w) && Pending(k, u, w) ==> t == u)
    && (forall t, u :: Signalling(k, t, w) && Signalling(k, u, w) ==> t == u)
    && (w >= k.nextWaiter ==> !SomePending(k, w))
  }

  ghost predicate QueueOk(k: State, c: nat) {
    Distinct(Queue(k, c)) && forall w :: w in Queue(k, c) ==> w in k.condOf && k.condOf[w] == c
  }

  ghost predicate SignalInv(k: State) { (forall w :: TokenOk(k, w)) && (forall c :: QueueOk(k, c)) }

  lemma TokenFrame(k: State, k': State, w: nat)
    requires TokenOk(k, w) && (InQueue(k', w) <==> InQueue(k, w)) && Value(k', Waiter(w)) == Value(k, Waiter(w))
    requires forall t :: (Pending(k', t, w) <==> Pending(k, t, w)) && (Signalling(k', t, w) <==> Signalling(k, t, w))
    requires k'.nextWaiter >= k.nextWaiter
    ensures TokenOk(k', w)
  {
  }

  /** Steps that touch no condition variable. */
  lemma QuietSignals(k: State, k': State)
    requires SignalInv(k) && k'.conds == k.conds && k'.condOf == k.condOf && k'.nextWaiter == k.nextWaiter
    requires forall w :: Value(k', Waiter(w)) == Value(k, Waiter(w))
    requires forall t :: SameCall(PcOf(k, t), PcOf(k', t))
    ensures SignalInv(k')
  {
    forall w: nat ensures TokenOk(k', w) {
      assert TokenOk(k, w);
      forall t: Tid
        ensures (Pending(k', t, w) <==> Pending(k, t, w)) && (Signalling(k', t, w) <==> Signalling(k, t, w))
      {
        assert SameCall(PcOf(k, t), PcOf(k', t));
      }
      TokenFrame(k, k', w);
    }
    forall c ensures QueueOk(k', c) { assert QueueOk(k, c); }
  }

  predicate SignalPc(pc: Pc) { pc.Up? && pc.s.Waiter? }

  predicate SameCall(pc: Pc, pc': Pc) {
    pc' == pc || (PendingOn(pc) == PendingOn(pc') && !SignalPc(pc) && !SignalPc(pc'))
  }

  /** Lines 297-298: a fresh waiter is queued. */
  lemma PushSignals(k: State, c: nat, l: nat)
    requires SignalInv(k) && PcOf(k, k.current) == Outside
    ensures SignalInv(Push(k, c, l))
  {
    var k', w, me := Push(k, c, l), k.nextWaiter, k.current;
    assert TokenOk(k, w);
    assert forall t :: t != me ==> PcOf(k', t) == PcOf(k, t);
    assert w !in Queue(k, c) by { assert QueueOk(k, c); }
    DistinctSnoc(Queue(k, c), w);
    forall x: nat ensures TokenOk(k', x) {
      assert TokenOk(k, x);
      if x == w {
        FreshToken(k, k', w);
      } else {
        PushedQueue(k, c, l, x);
        TokenFrame(k, k', x);
      }
    }
    forall d ensures QueueOk(k', d) { assert QueueOk(k, d); PushedList(k, c, l, d); }
  }

  lemma PushedList(k: State, c: nat, l: nat, d: nat)
    requires QueueOk(k, d) && QueueOk(k, c) && k.nextWaiter !in Queue(k, c) && k.nextWaiter !in Queue(k, d)
    ensures QueueOk(Push(k, c, l), d)
  {
    DistinctSnoc(Queue(k, c), k.nextWaiter);
  }

  lemma PushedQueue(k: State, c: nat, l: nat, x: nat)
    requires x != k.nextWaiter
    ensures InQueue(Push(k, c, l), x) <==> InQueue(k, x)
  {
  }

  lemma FreshToken(k: State, k': State, w: nat)
    requires TokenOk(k, w) && !SomePending(k, w) && w == k.nextWaiter && k'.nextWaiter == w + 1
    requires InQueue(k', w) && Value(k', Waiter(w)) == Value(k, Waiter(w)) && Pending(k', k.current, w)
    requires forall t :: t != k.current ==> PcOf(k', t) == PcOf(k, t)
    requires !SignalPc(PcOf(k', k.current))
    ensures TokenOk(k', w)
  {
    assert forall t :: t != k.current ==> !Pending(k, t, w) && (Pending(k', t, w) <==> Pending(k, t, w));
    assert !SomeSignalling(k, w);
    forall t: Tid ensures !Signalling(k', t, w) { assert !Signalling(k, t, w); }
  }

  /** Lines 319-321: the first waiter leaves the list, and this thread is about to raise its semaphore. */
  lemma PopSignals(k: State, c: nat)
    requires SignalInv(k) && PcOf(k, k.current) == Outside
    ensures SignalInv(Pop(k, c))
  {
    var k', q := Pop(k, c), Queue(k, c);
    if q != [] {
      var w := q[0];
      assert QueueOk(k, c) && TokenOk(k, w) && InQueue(k, w);
      DistinctTail(q);
      assert forall t :: t != k.current ==> PcOf(k', t) == PcOf(k, t);
      forall x: nat ensures TokenOk(k', x) {
        assert TokenOk(k, x);
        PoppedQueue(k, c, x);
        if x == w { TakenToken(k, k', w); } else { TokenFrame(k, k', x); }
      }
      forall d ensures QueueOk(k', d) { assert QueueOk(k, d); }
    }
  }

  lemma PoppedQueue(k: State, c: nat, x: nat)
    requires QueueOk(k, c) && Queue(k, c) != []
    ensures InQueue(Pop(k, c), x) <==> InQueue(k, x) && x != Queue(k, c)[0]
  {
    DistinctTail(Queue(k, c));
  }

  lemma TakenToken(k: State, k': State, w: nat)
    requires TokenOk(k, w) && InQueue(k, w) && !InQueue(k', w) && Value(k', Waiter(w)) == Value(k, Waiter(w))
    requires PcOf(k, k.current) == Outside && PcOf(k', k.current) == Up(Waiter(w), Return)
    requires k'.nextWaiter == k.nextWaiter
    requires forall t :: t != k.current ==> PcOf(k', t) == PcOf(k, t)
    ensures TokenOk(k', w)
  {
    assert !SomeSignalling(k, w) && Signalling(k', k.current, w);
    assert forall t :: Pending(k', t, w) <==> Pending(k, t, w);
    forall t: Tid | t != k.current ensures !Signalling(k', t, w) { assert !Signalling(k, t, w); }
  }

  /** The `sema_up` of a signal. */
  lemma RaiseSignals(k: State, w: nat)
    requires SignalInv(k) && PcOf(k, k.current) == Up(Waiter(w), Return)
    ensures SignalInv(SetPc(SemaUp(k, Waiter(w)), Outside))
  {
    hide SemaUp;
    UpMoves(k, Waiter(w));
    var k' := SetPc(SemaUp(k, Waiter(w)), Outside);
    assert forall t :: t != k.current ==> PcOf(k', t) == PcOf(k, t);
    forall x: nat ensures TokenOk(k', x) {
      assert TokenOk(k, x);
      if x == w { RaisedToken(k, k', w); } else { TokenFrame(k, k', x); }
    }
    forall c ensures QueueOk(k', c) { assert QueueOk(k, c); }
  }

  lemma RaisedToken(k: State, k': State, w: nat)
    requires TokenOk(k, w) && (InQueue(k', w) <==> InQueue(k, w)) && Value(k', Waiter(w)) == Value(k, Waiter(w)) + 1
    requires PcOf(k, k.current) == Up(Waiter(w), Return) && PcOf(k', k.current) == Outside
    requires k'.nextWaiter == k.nextWaiter
    requires forall t :: t != k.current ==> PcOf(k', t) == PcOf(k, t)
    ensures TokenOk(k', w)
  {
    assert Signalling(k, k.current, w);
    assert forall t :: Pending(k', t, w) <==> Pending(k, t, w);
    forall t: Tid ensures !Signalling(k', t, w) { assert t != k.current ==> !Signalling(k, t, w); }
  }

  /** The waiting thread gets past its `sema_down` and goes for the lock again. */
  lemma PassSignals(k: State, w: nat, l: nat)
    requires SignalInv(k) && PcOf(k, k.current) == Down(Waiter(w), Relock(l)) && Value(k, Waiter(w)) > 0
    ensures SignalInv(DownTurn(k, Waiter(w), Relock(l)))
  {
    hide DownTurn;
    DownMoves(k, Waiter(w), Relock(l));
    var k' := DownTurn(k, Waiter(w), Relock(l));
    forall x: nat ensures TokenOk(k', x) {
      assert TokenOk(k, x);
      if x == w { PassedToken(k, k', w); } else { TokenFrame(k, k', x); }
    }
    forall c ensures QueueOk(k', c) { assert QueueOk(k, c); }
  }

  lemma PassedToken(k: State, k': State, w: nat)
    requires TokenOk(k, w) && (InQueue(k', w) <==> InQueue(k, w)) && Value(k', Waiter(w)) == Value(k, Waiter(w)) - 1
    requires Pending(k, k.current, w) && PendingOn(PcOf(k', k.current)) == None && !SignalPc(PcOf(k', k.current))
    requires !SignalPc(PcOf(k, k.current)) && k'.nextWaiter == k.nextWaiter
    requires forall t :: t != k.current ==> PcOf(k', t) == PcOf(k, t)
    ensures TokenOk(k', w)
  {
    forall t: Tid ensures !Pending(k', t, w) { assert t != k.current ==> !Pending(k, t, w); }
    assert forall t :: Signalling(k', t, w) <==> Signalling(k, t, w);
    assert SomeSignalling(k', w) <==> SomeSignalling(k, w);
  }

  lemma DownKeepsSignals(k: State, s: Sid, next: Next)
    requires SignalInv(k) && NextOk(next, s)
    requires (PcOf(k, k.current) == Down(s, next) || (PcOf(k, k.current) == Outside && !s.Waiter?))
    ensures SignalInv(DownTurn(k, s, next))
  {
    hide DownTurn, SignalInv;
    if s.Waiter? && Value(k, s) > 0 {
      PassSignals(k, s.w, next.l);
    } else {
      DownMoves(k, s, next);
      QuietSignals(k, DownTurn(k, s, next));
    }
  }

  lemma UpLockSignals(k: State, l: nat, next: Next)
    requires SignalInv(k) && PcOf(k, k.current) == Up(OfLock(l), next) && (next == Return || next.ThenWait?)
    ensures SignalInv(SetPc(SemaUp(k, OfLock(l)), After(next)))
  {
    hide SignalInv, SemaUp;
    UpMoves(k, OfLock(l));
    QuietSignals(k, SetPc(SemaUp(k, OfLock(l)), After(next)));
  }

  lemma ResumeKeepsSignals(k: State)
    requires LockInv(k) && SignalInv(k)
    ensures SignalInv(Resume(k))
  {
    hide LockOk, SignalInv, DownTurn, SemaUp;
    assert PcOk(k, k.current);
    match PcOf(k, k.current)
    case Down(s, next) => DownKeepsSignals(k, s, next);
    case Up(s, next) => if s.Waiter? { RaiseSignals(k, s.w); } else { UpLockSignals(k, s.l, next); }
    case SetHolder(_) => QuietSignals(k, Resume(k));
    case Release(_, _) => QuietSignals(k, Resume(k));
    case _ =>
  }

  lemma CallUpSignals(k: State, n: nat)
    requires SignalInv(k)
    ensures SignalInv(SemaUp(k, Plain(n)))
  {
    hide SignalInv, SemaUp;
    UpMoves(k, Plain(n));
    QuietSignals(k, SemaUp(k, Plain(n)));
  }

  lemma CallReleaseSignals(k: State, l: nat)
    requires SignalInv(k) && PcOf(k, k.current) == Outside
    ensures SignalInv(SetPc(k, Up(OfLock(l), Return)).(holders := k.holders - {l}))
  {
    hide SignalInv;
    QuietSignals(k, SetPc(k, Up(OfLock(l), Return)).(holders := k.holders - {l}));
  }

  lemma SleepSignals(k: State, n: int)
    requires SignalInv(k) && PcOf(k, k.current) == Outside
    ensures SignalInv(Sleep(k, n))
  {
    hide SignalInv, Schedule, InsertOrdered;
    ScheduleSame(FallAsleep(k, n));
    QuietSignals(k, Sleep(k, n));
  }

  lemma YieldSignals(k: State)
    requires SignalInv(k)
    ensures SignalInv(Yield(k))
  {
    hide SignalInv, Yield;
    YieldSame(k);
    QuietSignals(k, Yield(k));
  }

  lemma TickSignals(k: State)
    requires SignalInv(k) && ListInv(k)
    ensures SignalInv(Tick(k))
  {
    hide SignalInv, ListInv, Tick;
    WakeQuiet(k);
    QuietSignals(k, Tick(k));
  }

  lemma CreateSignals(k: State, t: Tid)
    requires SignalInv(k) && t !in k.threads
    ensures SignalInv(Unblock(k, t, Outside))
  {
    hide SignalInv;
    QuietSignals(k, Unblock(k, t, Outside));
  }

  lemma LeaveSignals(k: State, status: Status)
    requires SignalInv(k)
    ensures SignalInv(Schedule(SetStatus(k, status)))
  {
    hide SignalInv, Schedule;
    ScheduleSame(SetStatus(k, status));
    QuietSignals(k, Schedule(SetStatus(k, status)));
  }

  lemma StepKeepsSignals(k: State, e: Event)
    requires ListInv(k) && LockInv(k) && SignalInv(k) && Enabled(k, e)
    ensures SignalInv(Step(k, e))
  {
    hide ListInv, LockInv, SignalInv, DownTurn, SemaUp, Schedule, Push, Pop, Sleep, Yield, Tick, Resume, Unblock,
        SetStatus, SetPc;
    match e
    case CallDown(n) => DownKeepsSignals(k, Plain(n), Return);
    case CallUp(n) => CallUpSignals(k, n);
    case CallAcquire(l) => DownKeepsSignals(k, OfLock(l), TakeLock(l));
    case CallRelease(l) => CallReleaseSignals(k, l);
    case CallWait(c, l) => PushSignals(k, c, l);
    case CallSignal(c, _) => PopSignals(k, c);
    case CallSleep(n) => if n > 0 { SleepSignals(k, n); }
    case Continue => ResumeKeepsSignals(k);
    case Preempt => YieldSignals(k);
    case Interrupt => TickSignals(k);
    case Create(t) => CreateSignals(k, t);
    case Exit => LeaveSignals(k, Dying);
    case IdleBlock => LeaveSignals(k, Blocked);
  }

  // ---------- runs ----------

  ghost predicate Inv(k: State) { ListInv(k) && LockInv(k) && WakeInv(k) && SignalInv(k) }

  lemma InitialInv(k: State)
    requires Initial(k)
    ensures Inv(k)
  {
    assert forall t :: PcOf(k, t) == Outside;
    assert forall s :: Waiters(k, s) == [];
    forall t: Tid ensures Placed(k, t) { }
    forall w: nat ensures TokenOk(k, w) { assert !SomePending(k, w) && !SomeSignalling(k, w) && !InQueue(k, w); }
  }

  /** In every interleaving of calls, preemptions and interrupts, all of it holds. */
  lemma {:induction false} RunInv(states: seq<State>, events: seq<Event>, i: nat)
    requires Run(states, events) && i < |states|
    ensures Inv(states[i])
  {
    hide ListInv, LockInv, WakeInv, SignalInv, Step, Enabled, Initial;
    if i == 0 {
      InitialInv(states[0]);
    } else {
      RunInv(states, events, i - 1);
      assert StepAt(states, events, i - 1);
      var k, e := states[i - 1], events[i - 1];
      StepKeepsLists(k, e);
      StepKeepsLocks(k, e);
      StepKeepsWakes(k, e);
      StepKeepsSignals(k, e);
    }
  }

  /** A wake-up is never lost: while threads wait on a semaphore with a positive value, some thread that is not
      blocked stands in `sema_down` on it and will take it. */
  lemma WakeUpNotLost(k: State, s: Sid)
    requires Inv(k) && Waiters(k, s) != [] && Value(k, s) > 0
    ensures exists t :: t in k.threads && Awake(k, t, s)
  {
    hide ListInv, LockInv, SignalInv;
    assert WakeOk(k, s) && AwakeSet(k, s) != {};
    var t :| t in AwakeSet(k, s);
  }

  /** A signal is never lost: once a pending waiter has left the queue and its signal has been raised, its
      semaphore is 1 and its thread is not blocked on it, even if it had not yet slept when the signal came. */
  lemma SignalNotLost(k: State, t: Tid, w: nat)
    requires Inv(k) && Pending(k, t, w) && !InQueue(k, w) && !SomeSignalling(k, w)
    ensures Value(k, Waiter(w)) == 1 && Waiters(k, Waiter(w)) == [] && (PcOf(k, t).Down? ==> St(k, t) != Blocked)
  {
    hide LockInv, Core, Sleepers;
    assert TokenOk(k, w) && SomePending(k, w) && WakeOk(k, Waiter(w));
    if Waiters(k, Waiter(w)) != [] {
      NoneAwake(k, w);
    }
    BlockedWaits(k, t);
  }

  /** Only the thread that made a waiter stands in `sema_down` on it. */
  lemma NoneAwake(k: State, w: nat)
    requires Core(k) && TokenOk(k, w) && Waiters(k, Waiter(w)) != []
    ensures AwakeSet(k, Waiter(w)) == {}
  {
    hide Core;
    var u := Waiters(k, Waiter(w))[0];
    WaiterBlocked(k, u, Waiter(w));
    assert Pending(k, u, w);
    forall x: Tid
      ensures !Awake(k, x, Waiter(w))
    {
      assert PcOf(k, x).Down? && PcOf(k, x).s == Waiter(w) ==> Pending(k, x, w);
    }
  }

  lemma BlockedWaits(k: State, t: Tid)
    requires Core(k)
    ensures PcOf(k, t).Down? && St(k, t) == Blocked ==> t in Waiters(k, PcOf(k, t).s)
  {
    if PcOf(k, t).Down? { assert Queued(k, t, PcOf(k, t).s); }
  }

  /** Nobody passes without a signal: while its waiter is queued, or its signal still to be raised, a thread
      that reaches its `sema_down` blocks. */
  lemma NoPassWithoutSignal(k: State, t: Tid, w: nat)
    requires Inv(k) && Pending(k, t, w) && (InQueue(k, w) || SomeSignalling(k, w))
    ensures Value(k, Waiter(w)) == 0
  {
    assert TokenOk(k, w);
  }

  /** One signal takes one waiter from the queue, the longest waiting, and leaves every other where it was. */
  lemma SignalTakesOne(k: State, c: nat, l: nat, w: nat)
    requires Inv(k) && Enabled(k, CallSignal(c, l)) && Queue(k, c) != []
    ensures var k' := Step(k, CallSignal(c, l));
            && Signalling(k', k.current, Queue(k, c)[0]) && SomePending(k, Queue(k, c)[0])
            && (InQueue(k', w) <==> InQueue(k, w) && w != Queue(k, c)[0])
            && Value(k', Waiter(w)) == Value(k, Waiter(w))
  {
    hide ListInv, LockInv, WakeInv;
    var first := Queue(k, c)[0];
    assert QueueOk(k, c) && TokenOk(k, first) && InQueue(k, first);
    PoppedQueue(k, c, w);
  }

  // ---------- signals over runs ----------

  /** The condition variables are as before. */
  ghost predicate SameConds(k: State, k': State) {
    k'.conds == k.conds && k'.condOf == k.condOf && k'.nextWaiter == k.nextWaiter
  }

  lemma ResumeConds(k: State)
    ensures SameConds(k, Resume(k))
  {
    hide DownTurn, SemaUp;
    match PcOf(k, k.current)
    case Down(s, next) => DownMoves(k, s, next);
    case Up(s, _) => UpMoves(k, s);
    case _ =>
  }

  /** Only `cond_wait` and `cond_signal` touch a condition variable. */
  lemma StepConds(k: State, e: Event)
    requires ListInv(k) && !e.CallWait? && !e.CallSignal?
    ensures SameConds(k, Step(k, e))
  {
    hide ListInv, DownTurn, SemaUp, Schedule, Yield, Tick, Resume;
    match e
    case CallDown(n) => DownMoves(k, Plain(n), Return);
    case CallUp(n) => UpMoves(k, Plain(n));
    case CallAcquire(l) => DownMoves(k, OfLock(l), TakeLock(l));
    case CallSleep(n) => if n > 0 { ScheduleSame(FallAsleep(k, n)); }
    case Continue => ResumeConds(k);
    case Preempt => YieldSame(k);
    case Interrupt => WakeQuiet(k);
    case Exit => ScheduleSame(SetStatus(k, Dying));
    case IdleBlock => ScheduleSame(SetStatus(k, Blocked));
    case _ =>
  }

  /** Waiter `w` exists, and is in no queue. */
  ghost predicate Unqueued(k: State, w: nat) { w < k.nextWaiter && !InQueue(k, w) }

  /** A waiter never goes back into a queue. */
  lemma StaysUnqueued(k: State, e: Event, w: nat)
    requires Inv(k) && Unqueued(k, w)
    ensures Unqueued(Step(k, e), w)
  {
    hide ListInv, LockInv, WakeInv, TokenOk, Step;
    match e
    case CallWait(c, l) => StepIsPush(k, c, l); PushedQueue(k, c, l, w);
    case CallSignal(c, l) =>
      StepIsPop(k, c, l);
      assert QueueOk(k, c);
      if Queue(k, c) != [] { PoppedQueue(k, c, w); }
    case _ => StepConds(k, e);
  }

  lemma StepIsPush(k: State, c: nat, l: nat)
    ensures Step(k, CallWait(c, l)) == Push(k, c, l) && Push(k, c, l).nextWaiter == k.nextWaiter + 1
  {
  }

  lemma StepIsPop(k: State, c: nat, l: nat)
    ensures Step(k, CallSignal(c, l)) == Pop(k, c) && Pop(k, c).nextWaiter == k.nextWaiter
  {
  }

  lemma {:induction false} UnqueuedForGood(states: seq<State>, events: seq<Event>, i: nat, j: nat, w: nat)
    requires Run(states, events) && i <= j < |states| && Unqueued(states[i], w)
    ensures Unqueued(states[j], w)
    decreases j
  {
    hide Inv, Step, Enabled, Initial, Unqueued;
    if i < j {
      UnqueuedForGood(states, events, i, j - 1, w);
      RunInv(states, events, j - 1);
      assert StepAt(states, events, j - 1);
      StaysUnqueued(states[j - 1], events[j - 1], w);
    }
  }

  lemma TakenOff(k: State, c: nat, l: nat)
    requires Inv(k) && Enabled(k, CallSignal(c, l)) && Queue(k, c) != []
    ensures Unqueued(Step(k, CallSignal(c, l)), Queue(k, c)[0])
  {
    hide ListInv, LockInv, WakeInv;
    var w := Queue(k, c)[0];
    assert QueueOk(k, c) && TokenOk(k, w) && InQueue(k, w);
    SignalTakesOne(k, c, l, w);
  }

  /** In every run, from a `cond_signal` that finds a waiter on, that waiter is in no queue, and a thread that still has
      to pass it has its semaphore at 1 and is not blocked on it, as soon as the signaller has raised it: the signal
      is not lost, whenever the waiter gets to sleep. */
  lemma SignalReleases(states: seq<State>, events: seq<Event>, i: nat, j: nat, c: nat, l: nat, t: Tid)
    requires Run(states, events) && i < |events| && events[i] == CallSignal(c, l) && Queue(states[i], c) != []
    requires i < j < |states|
    ensures var k, w := states[j], Queue(states[i], c)[0];
            && !InQueue(k, w)
            && (Pending(k, t, w) && !SomeSignalling(k, w) ==>
                  Value(k, Waiter(w)) == 1 && Waiters(k, Waiter(w)) == [] && (PcOf(k, t).Down? ==> St(k, t) != Blocked))
  {
    hide Inv, Step, Enabled, Initial;
    RunInv(states, events, i);
    RunInv(states, events, j);
    assert StepAt(states, events, i);
    var w := Queue(states[i], c)[0];
    TakenOff(states[i], c, l);
    UnqueuedForGood(states, events, i + 1, j, w);
    if Pending(states[j], t, w) && !SomeSignalling(states[j], w) { SignalNotLost(states[j], t, w); }
  }
}
