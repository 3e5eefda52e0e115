/** Nobody sleeps through a mark: every marked waiter can return, and from every state all marks can be settled. */
module FutexProgress {
  import opened Words
  import opened FutexProtocol
  import opened FutexSafety
  import opened FutexTheorems

  /** A waiter that was marked, or interrupted by a handler, finds its semaphore posted. */
  lemma MarkedSleeperCanWake(s: State, u: Tid)
    requires Inv(s) && InPhase(s, u, Sleeping) && s.lock.None?
    requires s.threads[u].woken || s.threads[u].interrupted
    ensures Enabled(s, SemaphoreTaken(u))
  {
    hide ScansOk, Conserved, LocalInv;
    ThreadIsOk(s, u);
    assert PostedOrPending(s, u);
  }

  // ----- a marked waiter's way out

  /** A step the thread takes by itself, without a handler or a timeout coming to its help. */
  predicate Unaided(step: Step, t: Tid) {
    !step.Store? && !step.Handler? && !step.SemaphoreFails? && !step.LockFails? && step.t == t
  }

  ghost predicate AllUnaided(steps: seq<Step>, t: Tid) {
    forall i :: 0 <= i < |steps| ==> Unaided(steps[i], t)
  }

  predicate OnWayOut(p: Phase) {
    p.Published? || p.Sleeping? || p.Awake? || p.Withdrawn? || AfterFlag(p)
  }

  function StepOut(u: Tid, p: Phase): Step
    requires OnWayOut(p)
  {
    if p.Published? then Unlock(u)
    else if p.Sleeping? then SemaphoreTaken(u)
    else if p.Awake? then Withdraw(u)
    else if p.Withdrawn? then ReadFlag(u)
    else if p.Leaving? then AcquireToLeave(u)
    else if p.Removing? then Remove(u)
    else if p.Removed? then UnlockAfterRemove(u)
    else if p.Unlinked? then Destroy(u)
    else Return(u)
  }

  function StepsLeft(p: Phase): nat {
    if p.Published? then 9
    else if p.Sleeping? then 8
    else if p.Awake? then 7
    else if p.Withdrawn? then 6
    else if p.Leaving? then 5
    else if p.Removing? then 4
    else if p.Removed? then 3
    else if p.Unlinked? then 2
    else if p.Destroyed? then 1
    else 0
  }

  /** The lock is free or the thread's own. */
  predicate Unhindered(s: State, u: Tid) {
    s.lock.None? || s.lock == Some(u)
  }

  lemma MarkedIsOnWayOut(s: State, u: Tid)
    requires Inv(s) && u in s.threads && s.threads[u].woken
    ensures OnWayOut(s.threads[u].phase)
    ensures s.lock == Some(u) <==> HoldsLock(s.threads[u].phase)
    ensures ReturnsZero(s.threads[u])
  {
    hide ScansOk, Conserved, MarksPosted, LocalInv;
    ThreadIsOk(s, u);
  }

  lemma StepOutIsEnabled(s: State, u: Tid)
    requires Inv(s) && u in s.threads && s.threads[u].woken && Unhindered(s, u)
    ensures OnWayOut(s.threads[u].phase) && Enabled(s, StepOut(u, s.threads[u].phase))
  {
    hide Inv;
    MarkedIsOnWayOut(s, u);
    if s.threads[u].phase.Sleeping? {
      MarkedSleeperCanWake(s, u);
    }
  }

  /** One unaided step brings the waiter closer to its return, or is the return. */
  ghost predicate Closer(s: State, n: State, u: Tid)
    requires u in s.threads
  {
    && Unhindered(n, u) && n.marks == s.marks && n.threads.Keys == s.threads.Keys
    && (forall v :: v in s.threads && v != u ==> n.threads[v] == s.threads[v])
    && StepsLeft(n.threads[u].phase) == StepsLeft(s.threads[u].phase) - 1
    && (StepsLeft(s.threads[u].phase) > 1 ==> n.zeros == s.zeros && n.threads[u].woken)
    && (StepsLeft(s.threads[u].phase) == 1 ==> n.zeros == s.zeros + 1 && !n.threads[u].woken && n.lock.None?)
  }

  /** The waiter's own record after a step out. */
  lemma AdvanceOut(w: Thread, u: Tid)
    requires OnWayOut(w.phase) && OwnStep(StepOut(u, w.phase)) && (w.phase.Sleeping? ==> w.semaphore > 0)
    ensures var v := Advance(w, StepOut(u, w.phase));
            StepsLeft(v.phase) == StepsLeft(w.phase) - 1 && v.woken == w.woken
  {
    hide Advance, StepsLeft;
    if w.phase.Published? || w.phase.Sleeping? || w.phase.Awake? || w.phase.Withdrawn? {
      EarlyAdvance(w, u);
    } else {
      LateAdvance(w, u);
    }
  }

  lemma EarlyAdvance(w: Thread, u: Tid)
    requires w.phase.Published? || w.phase.Awake? || w.phase.Withdrawn? || (w.phase.Sleeping? && w.semaphore > 0)
    ensures var v := Advance(w, StepOut(u, w.phase));
            StepsLeft(v.phase) == StepsLeft(w.phase) - 1 && v.woken == w.woken
  {
  }

  lemma LateAdvance(w: Thread, u: Tid)
    requires w.phase.Leaving? || w.phase.Removed? || w.phase.Unlinked?
    ensures var v := Advance(w, StepOut(u, w.phase));
            StepsLeft(v.phase) == StepsLeft(w.phase) - 1 && v.woken == w.woken
  {
  }

  lemma OwnStepOutIsCloser(s: State, u: Tid)
    requires u in s.threads && s.threads[u].woken && Unhindered(s, u) && OnWayOut(s.threads[u].phase)
    requires var step := StepOut(u, s.threads[u].phase); Enabled(s, step) && OwnStep(step)
    ensures Closer(s, Next(s, StepOut(u, s.threads[u].phase)), u)
  {
    hide Advance;
    AdvanceOut(s.threads[u], u);
  }

  lemma StepOutIsCloser(s: State, u: Tid)
    requires Inv(s) && u in s.threads && s.threads[u].woken && Unhindered(s, u)
    requires OnWayOut(s.threads[u].phase) && Enabled(s, StepOut(u, s.threads[u].phase))
    ensures Closer(s, Next(s, StepOut(u, s.threads[u].phase)), u)
  {
    hide Inv, Without, Closer, Next, Enabled;
    var p := s.threads[u].phase;
    if p.Removing? {
      RemoveIsCloser(s, u);
    } else if p.Destroyed? {
      ReturnIsCloser(s, u);
    } else {
      OwnStepOutIsCloser(s, u);
    }
  }

  lemma RemoveIsCloser(s: State, u: Tid)
    requires InPhase(s, u, Removing) && s.threads[u].woken && Unhindered(s, u)
    ensures Closer(s, Next(s, Remove(u)), u)
  {
    hide Without;
  }

  lemma ReturnIsCloser(s: State, u: Tid)
    requires Inv(s) && InPhase(s, u, Destroyed) && s.threads[u].woken && Unhindered(s, u)
    ensures Closer(s, Next(s, Return(u)), u)
  {
    hide Inv;
    MarkedIsOnWayOut(s, u);
  }

  lemma RunsCons(s: State, step: Step, rest: seq<Step>)
    requires Enabled(s, step) && Runs(Next(s, step), rest)
    ensures Runs(s, [step] + rest) && Final(s, [step] + rest) == Final(Next(s, step), rest)
  {
    hide Enabled, Next;
    assert ([step] + rest)[1..] == rest;
  }

  /** A marked waiter that is not kept out of the lock returns 0 by its own steps, settling exactly its mark. */
  lemma {:induction false} MarkedWaiterReturnsZero(s: State, u: Tid) returns (steps: seq<Step>)
    requires Inv(s) && u in s.threads && s.threads[u].woken && Unhindered(s, u)
    ensures Runs(s, steps) && AllUnaided(steps, u) && |steps| == StepsLeft(s.threads[u].phase)
    ensures var f := Final(s, steps);
            && Inv(f) && f.lock.None? && f.marks == s.marks && f.zeros == s.zeros + 1
            && Woken(f) == Woken(s) - {u}
    decreases StepsLeft(s.threads[u].phase)
  {
    hide Inv, Next, Enabled, Runs, Final;
    StepOutIsEnabled(s, u);
    var step := StepOut(u, s.threads[u].phase);
    StepOutIsCloser(s, u);
    NextKeepsInv(s, step);
    var n := Next(s, step);
    if StepsLeft(s.threads[u].phase) == 1 {
      NoSteps(n);
      RunsCons(s, step, []);
      steps := [step] + [];
      assert Woken(n) == Woken(s) - {u};
    } else {
      var rest := MarkedWaiterReturnsZero(n, u);
      RunsCons(s, step, rest);
      steps := [step] + rest;
      assert Woken(n) == Woken(s);
    }
  }

  lemma NoSteps(s: State)
    ensures Runs(s, []) && Final(s, []) == s
  {
  }

  // ----- the lock is always released

  /** What the lock holder does next. */
  function HolderStep(t: Tid, p: Phase): Step
    requires HoldsLock(p)
  {
    if p.Checking? then Check(t)
    else if p.Enqueued? then ClearFlag(t)
    else if p.Cleared? then Publish(t)
    else if p.Published? then Unlock(t)
    else if p.Removing? then Remove(t)
    else if p.Removed? then UnlockAfterRemove(t)
    else if p.Scanning? then ScanStep(t)
    else FinishScan(t)
  }

  /** How far the lock holder is from letting go; a scan comes to the end of the list. */
  function HoldLeft(p: Phase, length: nat): nat {
    if p.Checking? then 4
    else if p.Enqueued? then 3
    else if p.Cleared? then 2
    else if p.Published? then 1
    else if p.Removing? then 2
    else if p.Removed? then 1
    else if p.Scanned? then 1
    else if p.Scanning? then
      2 + (if p.posting then 0 else 1) + (if p.cursor <= length then 2 * (length - p.cursor) else 0)
    else 0
  }

  lemma HolderIsEnabled(s: State, t: Tid)
    requires Inv(s) && s.lock == Some(t)
    ensures t in s.threads && HoldsLock(s.threads[t].phase) && Enabled(s, HolderStep(t, s.threads[t].phase))
  {
    hide Conserved, ScanOk, LocalInv;
    ThreadIsOk(s, t);
    ClosedList(s);
    if s.threads[t].phase.Scanning? {
      ScanInList(s, s.threads[t].phase);
    }
  }

  lemma ScanInList(s: State, p: Phase)
    requires Closed(s.threads, s.list) && ScanOk(s, p) && p.Scanning?
    ensures p.cursor <= |s.list| && (p.posting ==> p.cursor < |s.list|)
  {
    hide CountEligible, NoneEligible;
  }

  ghost predicate Progresses(s: State, n: State, t: Tid)
    requires t in s.threads
  {
    && (n.lock.None? || n.lock == Some(t)) && t in n.threads
    && HoldLeft(n.threads[t].phase, |n.list|) < HoldLeft(s.threads[t].phase, |s.list|)
  }

  lemma VisitProgresses(w: Thread, p: Phase, length: nat)
    requires p.Scanning? && p.cursor < length
    ensures HoldLeft(VisitPhase(w, p), length) < HoldLeft(p, length)
  {
    hide Eligible;
  }

  lemma ScannerProgresses(s: State, t: Tid)
    requires Inv(s) && s.lock == Some(t) && Enabled(s, ScanStep(t))
    ensures Progresses(s, Next(s, ScanStep(t)), t)
  {
    hide Conserved, LocalInv, ScanOk, VisitWaiter, VisitPhase, MarksPosted;
    var p := s.threads[t].phase;
    ScanInList(s, p);
    if p.cursor < |s.list| {
      ScannerIsOffList(s, t);
      VisitProgresses(s.threads[s.list[p.cursor]], p, |s.list|);
    }
  }

  lemma AdvanceHolder(w: Thread, t: Tid, length: nat)
    requires HoldsLock(w.phase) && OwnStep(HolderStep(t, w.phase))
    ensures HoldLeft(Advance(w, HolderStep(t, w.phase)).phase, length) < HoldLeft(w.phase, length)
  {
  }

  lemma WaiterProgresses(s: State, t: Tid)
    requires s.lock == Some(t) && t in s.threads && HoldsLock(s.threads[t].phase) && !s.threads[t].phase.Scanning?
    requires Enabled(s, HolderStep(t, s.threads[t].phase))
    ensures Progresses(s, Next(s, HolderStep(t, s.threads[t].phase)), t)
  {
    hide Without, Advance;
    if OwnStep(HolderStep(t, s.threads[t].phase)) {
      AdvanceHolder(s.threads[t], t, |s.list|);
    }
  }

  lemma HolderProgresses(s: State, t: Tid)
    requires Inv(s) && s.lock == Some(t) && t in s.threads && HoldsLock(s.threads[t].phase)
    requires Enabled(s, HolderStep(t, s.threads[t].phase))
    ensures Progresses(s, Next(s, HolderStep(t, s.threads[t].phase)), t)
  {
    hide Inv, Next, Enabled, Progresses;
    if s.threads[t].phase.Scanning? {
      ScannerProgresses(s, t);
    } else {
      WaiterProgresses(s, t);
    }
  }

  lemma ScannerIsOffList(s: State, t: Tid)
    requires LocalInv(s) && t in s.threads && s.threads[t].phase.Scanning?
    ensures t !in s.list
  {
    ThreadIsOk(s, t);
  }

  /** Whoever holds the lock lets go of it by its own steps. */
  lemma {:induction false} LockIsReleased(s: State, t: Tid) returns (steps: seq<Step>)
    requires Inv(s) && s.lock == Some(t)
    ensures Runs(s, steps) && AllUnaided(steps, t) && Inv(Final(s, steps)) && Final(s, steps).lock.None?
    decreases if t in s.threads then HoldLeft(s.threads[t].phase, |s.list|) else 0
  {
    hide Inv, Next, Enabled, Runs, Final, HoldLeft;
    HolderIsEnabled(s, t);
    var step := HolderStep(t, s.threads[t].phase);
    HolderProgresses(s, t);
    NextKeepsInv(s, step);
    var n := Next(s, step);
    var rest := [];
    if n.lock.None? {
      NoSteps(n);
    } else {
      rest := LockIsReleased(n, t);
    }
    RunsCons(s, step, rest);
    steps := [step] + rest;
  }

  // ----- all marks are settled

  lemma {:induction false} RunsConcat(s: State, a: seq<Step>, b: seq<Step>)
    requires Runs(s, a) && Runs(Final(s, a), b)
    ensures Runs(s, a + b) && Final(s, a + b) == Final(Final(s, a), b)
    decreases |a|
  {
    hide Next, Enabled;
    if a == [] {
      assert a + b == b;
    } else {
      RunsConcat(Next(s, a[0]), a[1..], b);
      assert (a + b)[1..] == a[1..] + b;
    }
  }

  lemma {:induction false} MarksSettleUnlocked(s: State) returns (steps: seq<Step>)
    requires Inv(s) && s.lock.None?
    ensures Runs(s, steps)
    ensures var f := Final(s, steps); Inv(f) && Woken(f) == {} && f.marks == s.marks
    decreases |Woken(s)|
  {
    hide Inv, Next, Enabled, Runs, Final;
    if Woken(s) == {} {
      NoSteps(s);
      steps := [];
    } else {
      var u :| u in Woken(s);
      var first := MarkedWaiterReturnsZero(s, u);
      assert u in Woken(s) && Woken(Final(s, first)) < Woken(s);
      var rest := MarksSettleUnlocked(Final(s, first));
      RunsConcat(s, first, rest);
      steps := first + rest;
    }
  }

  /** From every reachable state some continuation settles every mark: each one has become one wait that returned 0. */
  lemma EveryMarkCanBeSettled(s: State, history: seq<Step>) returns (steps: seq<Step>)
    requires Init(s) && Runs(s, history)
    ensures Runs(s, history + steps)
    ensures var f := Final(s, history + steps); f.marks == f.zeros && Woken(f) == {} && !f.badPost
  {
    hide Inv, Next, Enabled, Runs, Final, Init;
    InitEstablishesInv(s);
    RunKeepsInv(s, history);
    var m := Final(s, history);
    var release := [];
    NoSteps(m);
    if m.lock.Some? {
      release := LockIsReleased(m, m.lock.value);
    }
    var settle := MarksSettleUnlocked(Final(m, release));
    RunsConcat(m, release, settle);
    steps := release + settle;
    RunsConcat(s, history, steps);
    InvMeaning(Final(s, history + steps));
  }
}
