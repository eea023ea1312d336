/** Mutual exclusion: a lock's semaphore value plus its number of owners is one. */
module SchedulingLocks {
  import opened Prelude
  import opened Scheduling
  import opened SchedulingLists

  /** `t` has taken the lock's semaphore and not given it back: `holder` is set only in the middle of that. */
  ghost predicate Owns(k: State, t: Tid, l: nat) {
    PcOf(k, t) == SetHolder(l) || (PcOf(k, t).Up? && PcOf(k, t).s == OfLock(l)) || Holder(k, l) == Some(t)
  }

  ghost predicate SoleOwner(k: State, t: Tid, l: nat) {
    Owns(k, t, l) && forall u :: Owns(k, u, l) ==> u == t
  }

  ghost predicate LockOk(k: State, l: nat) {
    if Value(k, OfLock(l)) == 0 then exists t :: SoleOwner(k, t, l)
    else Value(k, OfLock(l)) == 1 && forall t :: !Owns(k, t, l)
  }

  predicate NextOk(next: Next, s: Sid) {
    match s
    case Plain(_) => next.Return?
    case OfLock(l) => next == TakeLock(l)
    case Waiter(_) => next.Relock?
  }

  /** Where a thread stands agrees with the holders, so that no assertion on a holder fails. */
  ghost predicate PcOk(k: State, t: Tid) {
    match PcOf(k, t)
    case Down(s, next) => NextOk(next, s) && (next.TakeLock? || next.Relock? ==> Holder(k, next.l) != Some(t))
    case Up(OfLock(l), next) => Holder(k, l) == None && (next == Return || (next.ThenWait? && next.l == l))
    case Up(s, next) => s.Waiter? && next == Return
    case SetHolder(l) => Holder(k, l) == None
    case Release(l, _) => Holder(k, l) == Some(t)
    case _ => true
  }

  ghost predicate LockInv(k: State) {
    (forall l :: LockOk(k, l)) && (forall t :: PcOk(k, t))
  }

  /** The steps that touch no lock: threads stand where they did, or elsewhere away from locks. */
  predicate Clear(pc: Pc) { pc == Outside || pc == Asleep || (pc.Up? && pc.s.Waiter?) }

  ghost predicate SameLocks(k: State, k': State) {
    && k'.holders == k.holders && (forall l :: Value(k', OfLock(l)) == Value(k, OfLock(l)))
    && forall t :: PcOf(k', t) == PcOf(k, t) || SameStance(k, k', t)
  }

  ghost predicate SameStance(k: State, k': State, t: Tid) {
    PcOk(k', t) && forall l :: Owns(k', t, l) <==> Owns(k, t, l)
  }

  lemma SameLocksKeep(k: State, k': State)
    requires LockInv(k) && SameLocks(k, k')
    ensures LockInv(k')
  {
    forall t: Tid ensures PcOk(k', t) { assert PcOk(k, t); }
    forall t: Tid, l
      ensures Owns(k', t, l) <==> Owns(k, t, l)
    {
      if PcOf(k', t) != PcOf(k, t) { assert SameStance(k, k', t); }
    }
    forall l ensures LockOk(k', l) {
      assert LockOk(k, l);
      if t: Tid :| SoleOwner(k, t, l) { assert SoleOwner(k', t, l); }
    }
  }

  lemma ScheduleSame(k: State)
    ensures var k' := Schedule(k);
            && k'.holders == k.holders && k'.semas == k.semas && k'.conds == k.conds && k'.condOf == k.condOf
            && k'.nextWaiter == k.nextWaiter
            && forall t :: PcOf(k', t) == PcOf(k, t)
  {
    var k', u := Schedule(k), if k.ready == [] then k.idle else k.ready[0];
    assert k'.threads == k.threads[u := Thread(Running, PcOf(k, u))];
    forall t: Tid ensures PcOf(k', t) == PcOf(k, t) { }
  }

  /** A step changes where one thread stands, its semaphore counters and holders aside. */
  ghost predicate OnlyMoves(k: State, k': State, me: Tid, pc: Pc) {
    PcOf(k', me) == pc && forall t :: t != me ==> PcOf(k', t) == PcOf(k, t)
  }

  lemma DownMoves(k: State, s: Sid, next: Next)
    ensures var k' := DownTurn(k, s, next);
            && k'.holders == k.holders && k'.conds == k.conds && k'.condOf == k.condOf && k'.nextWaiter == k.nextWaiter
            && OnlyMoves(k, k', k.current, if Value(k, s) > 0 then After(next) else Down(s, next))
            && Value(k', s) == (if Value(k, s) > 0 then Value(k, s) - 1 else 0)
            && forall x :: x != s ==> Value(k', x) == Value(k, x)
  {
    if Value(k, s) == 0 {
      var k1 := QueueUp(k, s, next);
      ScheduleSame(k1);
    }
  }

  lemma UpMoves(k: State, s: Sid)
    ensures var k' := SemaUp(k, s);
            && k'.holders == k.holders && k'.conds == k.conds && k'.condOf == k.condOf && k'.nextWaiter == k.nextWaiter
            && k'.current == k.current && (forall t :: PcOf(k', t) == PcOf(k, t))
            && Value(k', s) == Value(k, s) + 1 && forall x :: x != s ==> Value(k', x) == Value(k, x)
  {
    var k', sema := SemaUp(k, s), SemaOf(k, s);
    if sema.waiters == [] {
      assert k' == k.(semas := k'.semas);
    } else {
      var u := sema.waiters[0];
      assert k' == k.(semas := k'.semas, ready := k'.ready, threads := k.threads[u := Thread(Ready, PcOf(k, u))]);
    }
    forall t: Tid ensures PcOf(k', t) == PcOf(k, t) { }
    assert k'.semas == k.semas[s := k'.semas[s]];
  }

  lemma DownKeepsLocks(k: State, s: Sid, next: Next)
    requires LockInv(k) && NextOk(next, s) && (PcOf(k, k.current) == Outside || PcOf(k, k.current) == Down(s, next))
    requires next.TakeLock? || next.Relock? ==> Holder(k, next.l) != Some(k.current)
    ensures LockInv(DownTurn(k, s, next))
  {
    hide DownTurn;
    var k', me := DownTurn(k, s, next), k.current;
    DownMoves(k, s, next);
    if s.OfLock? && Value(k, s) > 0 {
      assert forall t, l :: t != me ==> (Owns(k', t, l) <==> Owns(k, t, l));
      assert LockOk(k, s.l) && SoleOwner(k', me, s.l);
      forall l | l != s.l ensures LockOk(k', l) {
        assert LockOk(k, l) && forall t :: Owns(k', t, l) <==> Owns(k, t, l);
        if t: Tid :| SoleOwner(k, t, l) { assert SoleOwner(k', t, l); }
      }
      assert Holder(k, s.l).Some? ==> Owns(k, Holder(k, s.l).value, s.l);
      forall t: Tid ensures PcOk(k', t) { assert PcOk(k, t) && !Owns(k, t, s.l); }
    } else {
      assert SameStance(k, k', me);
      SameLocksKeep(k, k');
    }
  }

  lemma UpLockKeeps(k: State, l: nat, next: Next)
    requires LockInv(k) && PcOf(k, k.current) == Up(OfLock(l), next)
    ensures LockInv(SetPc(SemaUp(k, OfLock(l)), After(next)))
  {
    hide SemaUp;
    var k1, me := SemaUp(k, OfLock(l)), k.current;
    var k' := SetPc(k1, After(next));
    UpMoves(k, OfLock(l));
    assert LockOk(k, l) && Owns(k, me, l) && PcOk(k, me);
    forall x ensures LockOk(k', x) {
      assert LockOk(k, x);
      if x != l {
        assert forall t :: Owns(k', t, x) <==> Owns(k, t, x);
        if t: Tid :| SoleOwner(k, t, x) { assert SoleOwner(k', t, x); }
      } else {
        assert forall t :: t != me ==> (Owns(k', t, l) <==> Owns(k, t, l));
        assert forall t :: t != me ==> !Owns(k, t, l);
        assert !Owns(k', me, l);
      }
    }
    forall t: Tid ensures PcOk(k', t) { assert PcOk(k, t); }
  }

  lemma UpOtherKeeps(k: State, s: Sid, pc: Pc)
    requires LockInv(k) && !s.OfLock? && Clear(pc) && Clear(PcOf(k, k.current)) && (pc.Up? ==> pc == PcOf(k, k.current))
    ensures LockInv(SetPc(SemaUp(k, s), pc))
  {
    hide SemaUp;
    UpMoves(k, s);
    var k' := SetPc(SemaUp(k, s), pc);
    assert PcOk(k, k.current) && SameStance(k, k', k.current);
    SameLocksKeep(k, k');
  }

  /** Line 200: the owner becomes the holder. */
  lemma SetHolderKeeps(k: State, l: nat)
    requires LockInv(k) && PcOf(k, k.current) == SetHolder(l)
    ensures LockInv(SetPc(k, Outside).(holders := k.holders[l := k.current]))
  {
    var me := k.current;
    var k' := SetPc(k, Outside).(holders := k.holders[l := me]);
    assert LockOk(k, l) && Owns(k, me, l) && PcOk(k, me);
    assert forall t :: t != me ==> !Owns(k, t, l);
    forall x ensures LockOk(k', x) {
      assert LockOk(k, x) && forall t :: Owns(k', t, x) <==> Owns(k, t, x);
      if t: Tid :| SoleOwner(k, t, x) { assert SoleOwner(k', t, x); }
    }
    forall t: Tid ensures PcOk(k', t) { assert PcOk(k, t) && (t != me ==> !Owns(k, t, l)); }
  }

  /** Line 234: the holder is cleared, and still owns the lock until its `sema_up`. */
  lemma ClearHolderKeeps(k: State, l: nat, next: Next)
    requires LockInv(k) && Holder(k, l) == Some(k.current) && (next == Return || (next.ThenWait? && next.l == l))
    requires PcOf(k, k.current) == Outside || PcOf(k, k.current).Release?
    ensures LockInv(SetPc(k, Up(OfLock(l), next)).(holders := k.holders - {l}))
  {
    var me := k.current;
    var k' := SetPc(k, Up(OfLock(l), next)).(holders := k.holders - {l});
    assert forall x :: Holder(k', x) == if x == l then None else Holder(k, x);
    assert LockOk(k, l) && Owns(k, me, l);
    assert forall t :: t != me ==> !Owns(k, t, l);
    forall x ensures LockOk(k', x) {
      assert LockOk(k, x) && forall t :: Owns(k', t, x) <==> Owns(k, t, x);
      if t: Tid :| SoleOwner(k, t, x) { assert SoleOwner(k', t, x); }
    }
    forall t: Tid ensures PcOk(k', t) { assert PcOk(k, t); }
  }

  predicate StaysClear(pc: Pc, pc': Pc) { Clear(pc) && Clear(pc') && (pc'.Up? ==> pc'.next == Return) }

  lemma QuietKeeps(k: State, k': State)
    requires LockInv(k) && k'.holders == k.holders && k'.semas == k.semas
    requires forall t :: PcOf(k', t) == PcOf(k, t) || StaysClear(PcOf(k, t), PcOf(k', t))
    ensures LockInv(k')
  {
    forall t: Tid | PcOf(k', t) != PcOf(k, t) ensures SameStance(k, k', t) { }
    SameLocksKeep(k, k');
  }

  lemma ResumeKeepsLocks(k: State)
    requires LockInv(k)
    ensures LockInv(Resume(k))
  {
    hide LockOk, DownTurn, SemaUp, Owns;
    assert PcOk(k, k.current);
    match PcOf(k, k.current)
    case Down(s, next) => DownKeepsLocks(k, s, next);
    case Up(s, next) => if s.OfLock? { UpLockKeeps(k, s.l, next); } else { UpOtherKeeps(k, s, After(next)); }
    case SetHolder(l) => SetHolderKeeps(k, l);
    case Release(l, w) => ClearHolderKeeps(k, l, ThenWait(w, l));
    case _ =>
  }

  lemma WakeQuiet(k: State)
    requires ListInv(k)
    ensures var k' := Tick(k);
            && k'.holders == k.holders && k'.semas == k.semas && k'.conds == k.conds && k'.condOf == k.condOf
            && k'.nextWaiter == k.nextWaiter
            && forall t :: PcOf(k', t) == PcOf(k, t) || (PcOf(k, t) == Asleep && PcOf(k', t) == Outside)
  {
    var k1 := k.(ticks := k.ticks + 1);
    TickCore(k);
    WakeLists(k1);
    forall t: Tid
      ensures PcOf(Wake(k1), t) == PcOf(k, t) || (PcOf(k, t) == Asleep && PcOf(Wake(k1), t) == Outside)
    {
      WakesDue(k1, t);
    }
  }

  lemma CallUpKeepsLocks(k: State, n: nat)
    requires LockInv(k) && PcOf(k, k.current) == Outside
    ensures LockInv(SemaUp(k, Plain(n)))
  {
    hide LockInv, SemaUp;
    UpMoves(k, Plain(n));
    UpOtherKeeps(k, Plain(n), Outside);
    QuietKeeps(SetPc(SemaUp(k, Plain(n)), Outside), SemaUp(k, Plain(n)));
  }

  lemma PopKeepsLocks(k: State, c: nat)
    requires LockInv(k) && PcOf(k, k.current) == Outside
    ensures LockInv(Pop(k, c))
  {
    hide LockInv;
    QuietKeeps(k, Pop(k, c));
  }

  lemma SleepKeepsLocks(k: State, n: int)
    requires LockInv(k) && PcOf(k, k.current) == Outside
    ensures LockInv(Sleep(k, n))
  {
    hide LockInv, Schedule, InsertOrdered;
    ScheduleSame(FallAsleep(k, n));
    QuietKeeps(k, Sleep(k, n));
  }

  lemma YieldKeepsLocks(k: State)
    requires LockInv(k)
    ensures LockInv(Yield(k))
  {
    hide LockInv, Yield;
    YieldSame(k);
    QuietKeeps(k, Yield(k));
  }

  lemma TickKeepsLocks(k: State)
    requires LockInv(k) && ListInv(k)
    ensures LockInv(Tick(k))
  {
    hide LockInv, ListInv, Tick;
    WakeQuiet(k);
    QuietKeeps(k, Tick(k));
  }

  lemma CreateKeepsLocks(k: State, t: Tid)
    requires LockInv(k) && t !in k.threads
    ensures LockInv(Unblock(k, t, Outside))
  {
    hide LockInv;
    QuietKeeps(k, Unblock(k, t, Outside));
  }

  lemma LeaveKeepsLocks(k: State, status: Status)
    requires LockInv(k)
    ensures LockInv(Schedule(SetStatus(k, status)))
  {
    hide LockInv, Schedule;
    ScheduleSame(SetStatus(k, status));
    QuietKeeps(k, Schedule(SetStatus(k, status)));
  }

  lemma StepKeepsLocks(k: State, e: Event)
    requires ListInv(k) && LockInv(k) && Enabled(k, e)
    ensures LockInv(Step(k, e))
  {
    hide ListInv, LockInv, DownTurn, SemaUp, Schedule, Push, Pop, Sleep, Yield, Tick, Resume, Unblock, SetStatus, SetPc;
    match e
    case CallDown(n) => DownKeepsLocks(k, Plain(n), Return);
    case CallUp(n) => CallUpKeepsLocks(k, n);
    case CallAcquire(l) => DownKeepsLocks(k, OfLock(l), TakeLock(l));
    case CallRelease(l) => ClearHolderKeeps(k, l, Return);
    case CallWait(c, l) => PushKeepsLocks(k, c, l);
    case CallSignal(c, _) => PopKeepsLocks(k, c);
    case CallSleep(n) => if n > 0 { SleepKeepsLocks(k, n); }
    case Continue => ResumeKeepsLocks(k);
    case Preempt => YieldKeepsLocks(k);
    case Interrupt => TickKeepsLocks(k);
    case Create(t) => CreateKeepsLocks(k, t);
    case Exit => LeaveKeepsLocks(k, Dying);
    case IdleBlock => LeaveKeepsLocks(k, Blocked);
  }

  lemma YieldSame(k: State)
    ensures var k' := Yield(k);
            && k'.holders == k.holders && k'.semas == k.semas && k'.conds == k.conds && k'.condOf == k.condOf
            && k'.nextWaiter == k.nextWaiter
            && forall t :: PcOf(k', t) == PcOf(k, t)
  {
    hide Schedule;
    var k1 := SetStatus(k, Ready);
    ScheduleSame(if k.current == k.idle then k1 else k1.(ready := k.ready + [k.current]));
  }

  lemma PushKeepsLocks(k: State, c: nat, l: nat)
    requires LockInv(k) && PcOf(k, k.current) == Outside && Holder(k, l) == Some(k.current)
    ensures LockInv(Push(k, c, l))
  {
    assert SameStance(k, Push(k, c, l), k.current);
    SameLocksKeep(k, Push(k, c, l));
  }

  // ---------- what it means ----------

  ghost function Owners(k: State, l: nat): set<Tid> { set t | t in k.threads.Keys + k.holders.Values && Owns(k, t, l) }

  /** The semaphore's value and the number of owners add up to one, and a holder is the owner. */
  lemma ValuePlusOwners(k: State, l: nat)
    requires LockInv(k)
    ensures Value(k, OfLock(l)) + |Owners(k, l)| == 1
    ensures Holder(k, l).Some? ==> Owners(k, l) == {Holder(k, l).value}
  {
    assert LockOk(k, l);
    assert Holder(k, l).Some? ==> Owns(k, Holder(k, l).value, l);
    if t: Tid :| SoleOwner(k, t, l) {
      assert t in k.threads.Keys + k.holders.Values;
      assert Owners(k, l) == {t};
    } else {
      assert Owners(k, l) == {};
    }
  }
}
