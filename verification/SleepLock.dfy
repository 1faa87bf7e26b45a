/** acquiresleep and releasesleep (xv6-public/sleeplock.c) over sleep and wakeup (xv6-public/proc.c),
    for any number of processes. A step is one lock operation or the work done between two of them,
    and the steps of all processes interleave in every way. */
module SleepLock {
  import opened Param

  // Where a process is.
  datatype Pc =
    | Idle
    | WantLk        // acquiresleep: acquire(&lk->lk)
    | Test          // while (lk->locked)
    | SleepFirst    // sleep: the first of acquire(&ptable.lock) and release(lk)
    | SleepSecond   // sleep: the second of the two
    | SleepMark     // sleep: set chan and SLEEPING, then sched()
    | Asleep
    | Woken         // runnable again, not yet scheduled
    | Tidy          // sleep after sched(): release(&ptable.lock)
    | Took          // locked is set: release(&lk->lk)
    | Hold          // acquiresleep has returned
    | RelWantLk     // releasesleep: acquire(&lk->lk)
    | RelClear      // lk->locked = 0
    | RelWantPt     // wakeup: acquire(&ptable.lock)
    | RelWake       // wakeup1
    | RelUnlockPt   // wakeup: release(&ptable.lock)
    | RelUnlock     // release(&lk->lk)
    | InPt          // any other section under ptable.lock

  // lk and pt: who holds lk->lk and ptable.lock.
  datatype State = State(pcs: map<Pid, Pc>, lk: Option<Pid>, pt: Option<Pid>, locked: bool)

  datatype Event =
    | Step(p: Pid)         // the next step of p
    | Acquire(p: Pid)      // p calls acquiresleep
    | Release(p: Pid)      // p calls releasesleep
    | Enter(p: Pid)        // p takes ptable.lock for something else
    | Kill(p: Pid)         // kill() makes p runnable if it sleeps

  // early: sleep would release lk before it acquires ptable.lock. The code has early == false.
  predicate Enabled(s: State, e: Event, early: bool) {
    e.p in s.pcs &&
    match e
    case Acquire(p) => s.pcs[p] == Idle
    case Release(p) => s.pcs[p] == Hold
    case Enter(p) => s.pcs[p] == Idle && s.pt == None
    case Kill(p) => s.pt == None && s.pcs[p] == Asleep
    case Step(p) => CanStep(s, p, early)
  }

  // A step that acquires a lock waits until the lock is free.
  predicate CanStep(s: State, p: Pid, early: bool)
    requires p in s.pcs
  {
    match s.pcs[p]
    case WantLk => s.lk == None
    case SleepFirst => early || s.pt == None
    case SleepSecond => !early || s.pt == None
    case Woken => s.pt == None
    case RelWantLk => s.lk == None
    case RelWantPt => s.pt == None
    case Idle => false
    case Asleep => false
    case Hold => false
    case Test => true
    case SleepMark => true
    case Tidy => true
    case Took => true
    case RelClear => true
    case RelWake => true
    case RelUnlockPt => true
    case RelUnlock => true
    case InPt => true
  }

  function Wake(pcs: map<Pid, Pc>): map<Pid, Pc> {
    map q | q in pcs :: if pcs[q] == Asleep then Woken else pcs[q]
  }

  function At(s: State, p: Pid, pc: Pc): State { s.(pcs := s.pcs[p := pc]) }

  function Next(s: State, e: Event, early: bool): State
    requires Enabled(s, e, early)
  {
    match e
    case Acquire(p) => At(s, p, WantLk)
    case Release(p) => At(s, p, RelWantLk)
    case Enter(p) => At(s, p, InPt).(pt := Some(p))
    case Kill(p) => At(s, p, Woken)
    case Step(p) => StepOf(s, p, early)
  }

  function StepOf(s: State, p: Pid, early: bool): State
    requires p in s.pcs && CanStep(s, p, early)
  {
    match s.pcs[p]
    case WantLk => At(s, p, Test).(lk := Some(p))
    case Test => if s.locked then At(s, p, SleepFirst) else At(s, p, Took).(locked := true)
    case SleepFirst => if early then At(s, p, SleepSecond).(lk := None) else At(s, p, SleepSecond).(pt := Some(p))
    case SleepSecond => if early then At(s, p, SleepMark).(pt := Some(p)) else At(s, p, SleepMark).(lk := None)
    case SleepMark => At(s, p, Asleep).(pt := None)
    case Woken => At(s, p, Tidy).(pt := Some(p))
    case Tidy => At(s, p, WantLk).(pt := None)
    case Took => At(s, p, Hold).(lk := None)
    case RelWantLk => At(s, p, RelClear).(lk := Some(p))
    case RelClear => At(s, p, RelWantPt).(locked := false)
    case RelWantPt => At(s, p, RelWake).(pt := Some(p))
    case RelWake => s.(pcs := Wake(s.pcs)[p := RelUnlockPt])
    case RelUnlockPt => At(s, p, RelUnlock).(pt := None)
    case RelUnlock => At(s, p, Idle).(lk := None)
    case InPt => At(s, p, Idle).(pt := None)
    case Idle => s
    case Asleep => s
    case Hold => s
  }

  ghost predicate Init(s: State) {
    s.lk == None && s.pt == None && !s.locked && forall p :: p in s.pcs ==> s.pcs[p] == Idle
  }

  predicate HoldsLk(pc: Pc) {
    || pc.Test? || pc.SleepFirst? || pc.SleepSecond? || pc.Took?
    || pc.RelClear? || pc.RelWantPt? || pc.RelWake? || pc.RelUnlockPt? || pc.RelUnlock?
  }

  predicate HoldsPt(pc: Pc) {
    pc.SleepSecond? || pc.SleepMark? || pc.Tidy? || pc.RelWake? || pc.RelUnlockPt? || pc.InPt?
  }

  // Between setting locked and clearing it.
  predicate Holder(pc: Pc) { pc.Took? || pc.Hold? || pc.RelWantLk? || pc.RelClear? }

  // Asleep, or in sleep after it has seen locked set.
  predicate Committed(pc: Pc) { pc.SleepFirst? || pc.SleepSecond? || pc.SleepMark? || pc.Asleep? }

  // About to wake the sleepers.
  predicate Waking(pc: Pc) { pc.RelWantPt? || pc.RelWake? }

  ghost predicate Releasing(s: State) { exists r :: r in s.pcs && Waking(s.pcs[r]) }

  ghost predicate Locks(s: State) {
    forall p :: p in s.pcs ==> (HoldsLk(s.pcs[p]) <==> s.lk == Some(p)) && (HoldsPt(s.pcs[p]) <==> s.pt == Some(p))
  }

  // The lock is locked exactly if a process holds it, and at most one does.
  ghost predicate OneHolder(s: State) {
    && (s.locked <==> exists p :: p in s.pcs && Holder(s.pcs[p]))
    && (forall p, q :: p in s.pcs && q in s.pcs && Holder(s.pcs[p]) && Holder(s.pcs[q]) ==> p == q)
  }

  // No sleeper has missed its wakeup.
  ghost predicate Sleepers(s: State) {
    forall p :: p in s.pcs && Committed(s.pcs[p]) ==> s.locked || Releasing(s)
  }

  ghost predicate Inv(s: State) { Locks(s) && Owned(s) && OneHolder(s) && Sleepers(s) }

  ghost predicate LockOf(s: State, q: Pid)
    requires q in s.pcs
  {
    (HoldsLk(s.pcs[q]) <==> s.lk == Some(q)) && (HoldsPt(s.pcs[q]) <==> s.pt == Some(q))
  }

  lemma LocksStep(s: State, e: Event)
    requires Locks(s) && Enabled(s, e, false)
    ensures Locks(Next(s, e, false))
  {
    if e.Step? {
      LocksOwnStep(s, e.p);
    } else {
      var s' := Next(s, e, false);
      assert LockOf(s, e.p);
      forall q | q in s'.pcs ensures LockOf(s', q) {
        assert LockOf(s, q);
      }
    }
  }

  lemma LocksOwnStep(s: State, p: Pid)
    requires Locks(s) && p in s.pcs && CanStep(s, p, false)
    ensures Locks(StepOf(s, p, false))
  {
    var s' := StepOf(s, p, false);
    assert LockOf(s, p);
    forall q | q in s'.pcs ensures LockOf(s', q) {
      assert LockOf(s, q);
    }
  }

  lemma OneHolderStep(s: State, e: Event)
    requires Locks(s) && OneHolder(s) && Enabled(s, e, false)
    ensures OneHolder(Next(s, e, false))
  {
    if e.Step? {
      OneHolderOwnStep(s, e.p);
    } else {
      var s' := Next(s, e, false);
      forall q | q in s.pcs ensures q in s'.pcs && (Holder(s.pcs[q]) <==> Holder(s'.pcs[q])) { }
    }
  }

  lemma OneHolderOwnStep(s: State, p: Pid)
    requires OneHolder(s) && p in s.pcs && CanStep(s, p, false)
    ensures OneHolder(StepOf(s, p, false))
  {
    OthersHold(s, p);
    OwnHold(s, p);
    HoldersAfter(s, p, StepOf(s, p, false));
  }

  lemma HoldersAfter(s: State, p: Pid, s': State)
    requires OneHolder(s) && p in s.pcs && s'.pcs.Keys == s.pcs.Keys
    requires forall q :: q in s.pcs && q != p ==> (Holder(s'.pcs[q]) <==> Holder(s.pcs[q]))
    requires Taken(s, p, s') || Cleared(s, p, s')
             || (s'.locked == s.locked && (Holder(s'.pcs[p]) <==> Holder(s.pcs[p])))
    ensures OneHolder(s')
  {
    if s.locked && !Cleared(s, p, s') {
      var h :| h in s.pcs && Holder(s.pcs[h]);
      assert h in s'.pcs && Holder(s'.pcs[h]);
    }
  }

  ghost predicate Taken(s: State, p: Pid, s': State)
    requires p in s.pcs && p in s'.pcs
  {
    !s.locked && s'.locked && Holder(s'.pcs[p])
  }

  ghost predicate Cleared(s: State, p: Pid, s': State)
    requires p in s.pcs && p in s'.pcs
  {
    Holder(s.pcs[p]) && !s'.locked && !Holder(s'.pcs[p])
  }

  // p takes the lock, clears it, or goes on as holder or not.
  lemma OwnHold(s: State, p: Pid)
    requires p in s.pcs && CanStep(s, p, false)
    ensures var s' := StepOf(s, p, false);
            && p in s'.pcs
            && (Taken(s, p, s') || Cleared(s, p, s')
                || (s'.locked == s.locked && (Holder(s'.pcs[p]) <==> Holder(s.pcs[p]))))
  {
  }

  // A step of p makes nobody else a holder and takes the lock from nobody else.
  lemma OthersHold(s: State, p: Pid)
    requires p in s.pcs && CanStep(s, p, false)
    ensures var s' := StepOf(s, p, false);
            s'.pcs.Keys == s.pcs.Keys && forall q :: q in s.pcs && q != p ==> (Holder(s'.pcs[q]) <==> Holder(s.pcs[q]))
  {
  }

  // Inside acquiresleep.
  predicate Acquiring(pc: Pc) {
    || pc.WantLk? || pc.Test? || pc.SleepFirst? || pc.SleepSecond? || pc.SleepMark? || pc.Asleep? || pc.Woken?
    || pc.Tidy? || pc.Took?
  }

  // Inside releasesleep.
  predicate InRelease(pc: Pc) {
    pc.RelWantLk? || pc.RelClear? || pc.RelWantPt? || pc.RelWake? || pc.RelUnlockPt? || pc.RelUnlock?
  }

  // acquiresleep returns only as the holder, releasesleep only after it has given the lock up; the sleep lock is
  // taken and given up in no other way.
  lemma CallsEnd(s: State, e: Event, early: bool, p: Pid)
    requires Enabled(s, e, early) && p in s.pcs
    ensures p in Next(s, e, early).pcs && Onward(s.pcs[p], Next(s, e, early).pcs[p])
  {
    if e.Step? { StepOnward(s, e.p, early, p); }
  }

  predicate Onward(pc: Pc, pc': Pc) {
    && (Acquiring(pc) ==> Acquiring(pc') || pc' == Hold)
    && (InRelease(pc) ==> InRelease(pc') || pc' == Idle)
    && (pc == Hold ==> pc' == Hold || pc' == RelWantLk)
    && (pc == Idle ==> pc' == Idle || pc' == WantLk || pc' == InPt)
    && (pc == InPt ==> pc' == InPt || pc' == Idle)
  }

  lemma StepOnward(s: State, p: Pid, early: bool, q: Pid)
    requires p in s.pcs && q in s.pcs && CanStep(s, p, early)
    ensures q in StepOf(s, p, early).pcs && Onward(s.pcs[q], StepOf(s, p, early).pcs[q])
  {
    if q == p { OwnOnward(s, p, early); }
  }

  lemma OwnOnward(s: State, p: Pid, early: bool)
    requires p in s.pcs && CanStep(s, p, early)
    ensures p in StepOf(s, p, early).pcs && Onward(s.pcs[p], StepOf(s, p, early).pcs[p])
  {
  }

  // The spinlocks are held by processes that exist.
  ghost predicate Owned(s: State) {
    (s.lk.Some? ==> s.lk.value in s.pcs) && (s.pt.Some? ==> s.pt.value in s.pcs)
  }

  lemma OwnedStep(s: State, e: Event)
    requires Owned(s) && Enabled(s, e, false)
    ensures Owned(Next(s, e, false))
  {
  }

  // Nobody waits forever for a spinlock: a process can go on, unless each is outside, holds the lock or is asleep.
  lemma NoDeadlock(s: State)
    requires Locks(s) && Owned(s)
    ensures (exists p :: p in s.pcs && CanStep(s, p, false))
            || forall p :: p in s.pcs ==> s.pcs[p] == Idle || s.pcs[p] == Hold || s.pcs[p] == Asleep
  {
    if s.pt.Some? {
      assert LockOf(s, s.pt.value) && CanStep(s, s.pt.value, false);
    } else if s.lk.Some? {
      assert LockOf(s, s.lk.value) && CanStep(s, s.lk.value, false);
    } else {
      forall p | p in s.pcs && s.pcs[p] != Idle && s.pcs[p] != Hold && s.pcs[p] != Asleep ensures CanStep(s, p, false) {
        assert LockOf(s, p);
      }
    }
  }

  lemma SleepersStep(s: State, e: Event)
    requires Locks(s) && OneHolder(s) && Sleepers(s) && Enabled(s, e, false)
    ensures Sleepers(Next(s, e, false))
  {
    var s' := Next(s, e, false);
    assert LockOf(s, e.p);
    forall q | q in s'.pcs && Committed(s'.pcs[q]) ensures s'.locked || Releasing(s') {
      assert LockOf(s, q);
      if Releasing(s) {
        var r :| r in s.pcs && Waking(s.pcs[r]);
        assert LockOf(s, r);
        assert r in s'.pcs;
        if r != e.p { assert Waking(s'.pcs[r]); }
      }
      assert e.p in s'.pcs;
      assert s.pcs[e.p].RelClear? && e.Step? ==> Waking(s'.pcs[e.p]);
      assert s.pcs[e.p].RelWantPt? && e.Step? ==> Waking(s'.pcs[e.p]);
    }
  }

  // es is a run from s.
  ghost predicate Run(s: State, es: seq<Event>, early: bool)
    decreases |es|
  {
    es != [] ==> Enabled(s, es[0], early) && Run(Next(s, es[0], early), es[1..], early)
  }

  ghost function After(s: State, es: seq<Event>, early: bool): State
    requires Run(s, es, early)
    decreases |es|
  {
    if es == [] then s else After(Next(s, es[0], early), es[1..], early)
  }

  // When the spinlock is free, a process asleep on the sleep lock implies that it is locked, and at
  // most one process holds it.
  ghost predicate NoLostWakeup(s: State) {
    && (s.lk == None ==> forall p :: p in s.pcs && s.pcs[p] == Asleep ==> s.locked)
    && (forall p, q :: p in s.pcs && q in s.pcs && s.pcs[p] == Hold && s.pcs[q] == Hold ==> p == q)
  }

  lemma InvNoLostWakeup(s: State)
    requires Inv(s)
    ensures NoLostWakeup(s)
  {
    if Releasing(s) {
      var r :| r in s.pcs && Waking(s.pcs[r]);
      assert LockOf(s, r);
    }
  }

  lemma {:induction false} RunKeepsInv(s: State, es: seq<Event>)
    requires Inv(s) && Run(s, es, false)
    ensures Inv(After(s, es, false))
    decreases |es|
  {
    if es != [] {
      LocksStep(s, es[0]);
      OwnedStep(s, es[0]);
      OneHolderStep(s, es[0]);
      SleepersStep(s, es[0]);
      RunKeepsInv(Next(s, es[0], false), es[1..]);
    }
  }

  lemma {:induction false} Continue(s: State, es: seq<Event>, e: Event, early: bool)
    requires Run(s, es, early) && Enabled(After(s, es, early), e, early)
    ensures Run(s, es + [e], early) && After(s, es + [e], early) == Next(After(s, es, early), e, early)
    decreases |es|
  {
    if es != [] {
      Continue(Next(s, es[0], early), es[1..], e, early);
      assert (es + [e])[1..] == es[1..] + [e];
    }
  }

  // Two processes, 0 and 1.
  function Pair(a: Pc, b: Pc, lk: Option<Pid>, pt: Option<Pid>, locked: bool): State {
    State(map[0 := a, 1 := b], lk, pt, locked)
  }

  ghost predicate Leads(es: seq<Event>, t: State) {
    var s := Pair(Idle, Idle, None, None, false);
    Run(s, es, true) && After(s, es, true) == t
  }

  lemma Then(es: seq<Event>, t: State, e: Event, t': State)
    requires Leads(es, t) && Enabled(t, e, true) && Next(t, e, true) == t'
    ensures Leads(es + [e], t')
  {
    Continue(Pair(Idle, Idle, None, None, false), es, e, true);
  }

  // With lk released first: 0 takes the lock, 1 decides to sleep and releases lk ...
  lemma EarlyStart() returns (es: seq<Event>)
    ensures Leads(es, Pair(Hold, SleepSecond, None, None, true))
  {
    es := [];
    Then(es, Pair(Idle, Idle, None, None, false), Acquire(0), Pair(WantLk, Idle, None, None, false));
    es := es + [Acquire(0)];
    Then(es, Pair(WantLk, Idle, None, None, false), Step(0), Pair(Test, Idle, Some(0), None, false));
    es := es + [Step(0)];
    Then(es, Pair(Test, Idle, Some(0), None, false), Step(0), Pair(Took, Idle, Some(0), None, true));
    es := es + [Step(0)];
    Then(es, Pair(Took, Idle, Some(0), None, true), Step(0), Pair(Hold, Idle, None, None, true));
    es := es + [Step(0)];
    Then(es, Pair(Hold, Idle, None, None, true), Acquire(1), Pair(Hold, WantLk, None, None, true));
    es := es + [Acquire(1)];
    Then(es, Pair(Hold, WantLk, None, None, true), Step(1), Pair(Hold, Test, Some(1), None, true));
    es := es + [Step(1)];
    Then(es, Pair(Hold, Test, Some(1), None, true), Step(1), Pair(Hold, SleepFirst, Some(1), None, true));
    es := es + [Step(1)];
    Then(es, Pair(Hold, SleepFirst, Some(1), None, true), Step(1), Pair(Hold, SleepSecond, None, None, true));
    es := es + [Step(1)];
  }

  // ... 0 releases the lock and wakes nobody ...
  lemma EarlyRelease() returns (es: seq<Event>)
    ensures Leads(es, Pair(RelWantLk, SleepSecond, None, None, true))
  {
    es := EarlyStart();
    Then(es, Pair(Hold, SleepSecond, None, None, true), Release(0), Pair(RelWantLk, SleepSecond, None, None, true));
    es := es + [Release(0)];
  }

  lemma EarlyClear() returns (es: seq<Event>)
    ensures Leads(es, Pair(RelWantPt, SleepSecond, Some(0), None, false))
  {
    es := EarlyRelease();
    Then(es, Pair(RelWantLk, SleepSecond, None, None, true), Step(0), Pair(RelClear, SleepSecond, Some(0), None, true));
    es := es + [Step(0)];
    Then(es, Pair(RelClear, SleepSecond, Some(0), None, true), Step(0),
        Pair(RelWantPt, SleepSecond, Some(0), None, false));
    es := es + [Step(0)];
  }

  lemma EarlyWant() returns (es: seq<Event>)
    ensures Leads(es, Pair(RelWake, SleepSecond, Some(0), Some(0), false))
  {
    es := EarlyClear();
    Then(es, Pair(RelWantPt, SleepSecond, Some(0), None, false), Step(0),
        Pair(RelWake, SleepSecond, Some(0), Some(0), false));
    es := es + [Step(0)];
  }

  lemma EarlyWake() returns (es: seq<Event>)
    ensures Leads(es, Pair(RelUnlockPt, SleepSecond, Some(0), Some(0), false))
  {
    es := EarlyWant();
    Then(es, Pair(RelWake, SleepSecond, Some(0), Some(0), false), Step(0),
        Pair(RelUnlockPt, SleepSecond, Some(0), Some(0), false));
    es := es + [Step(0)];
  }

  lemma EarlyUnlock() returns (es: seq<Event>)
    ensures Leads(es, Pair(Idle, SleepSecond, None, None, false))
  {
    es := EarlyWake();
    Then(es, Pair(RelUnlockPt, SleepSecond, Some(0), Some(0), false), Step(0),
        Pair(RelUnlock, SleepSecond, Some(0), None, false));
    es := es + [Step(0)];
    Then(es, Pair(RelUnlock, SleepSecond, Some(0), None, false), Step(0), Pair(Idle, SleepSecond, None, None, false));
    es := es + [Step(0)];
  }

  // ... and 1 falls asleep for good.
  lemma EarlyLosesWakeup() returns (s: State, es: seq<Event>)
    ensures Init(s) && Run(s, es, true) && !NoLostWakeup(After(s, es, true))
  {
    s := Pair(Idle, Idle, None, None, false);
    es := EarlyUnlock();
    Then(es, Pair(Idle, SleepSecond, None, None, false), Step(1), Pair(Idle, SleepMark, None, Some(1), false));
    es := es + [Step(1)];
    Then(es, Pair(Idle, SleepMark, None, Some(1), false), Step(1), Pair(Idle, Asleep, None, None, false));
    es := es + [Step(1)];
    assert After(s, es, true).pcs[1] == Asleep;
  }

  ghost predicate AllRuns(early: bool) {
    forall s, es :: Init(s) && Run(s, es, early) ==> NoLostWakeup(After(s, es, early))
  }

  // No run loses a wakeup, exactly because sleep takes ptable.lock before it releases lk.
  lemma NoLostWakeupIff(early: bool)
    ensures AllRuns(early) <==> !early
  {
    if early {
      var s, es := EarlyLosesWakeup();
    } else {
      forall s, es | Init(s) && Run(s, es, false) ensures NoLostWakeup(After(s, es, false)) {
        RunKeepsInv(s, es);
        InvNoLostWakeup(After(s, es, false));
      }
    }
  }
}
