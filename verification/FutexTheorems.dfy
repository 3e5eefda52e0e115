/** What the futex invariant means for callers: results, conservation, and joiners of an exiting thread. */
module FutexTheorems {
  import opened Words
  import opened FutexProtocol
  import opened FutexSafety

  /** `futex_wait` is about to return 0 exactly when its waiter was marked woken. */
  ghost predicate ZeroExactlyWhenMarked(s: State) {
    forall t :: t in s.threads && s.threads[t].phase.Destroyed? ==> (ReturnsZero(s.threads[t]) <==> s.threads[t].woken)
  }

  /** Every finished scan marked and moved exactly as many waiters as it could. */
  ghost predicate ScansExact(s: State) {
    forall t :: t in s.threads && s.threads[t].phase.Scanned? ==>
      var p := s.threads[t].phase;
      && p.woken == Min(p.op.count, p.eligible)
      && p.requeued == Min(RequeueLimit(p.op), p.eligible - p.woken)
  }

  lemma InvMeaning(s: State)
    requires Inv(s)
    ensures !s.badPost && ZeroExactlyWhenMarked(s) && ScansExact(s) && MarksPosted(s)
    ensures s.marks == s.zeros + |Woken(s)|
    ensures (forall t :: t in s.threads ==> s.threads[t].phase.Idle?) ==> s.marks == s.zeros
  {
    hide CountEligible, Distinct;
    forall t | t in s.threads && s.threads[t].phase.Destroyed?
      ensures ReturnsZero(s.threads[t]) <==> s.threads[t].woken
    {
      RecordChanges(s.threads[t], s.lock == Some(t), t in s.list);
    }
    forall t | t in s.threads && s.threads[t].phase.Scanned?
      ensures var p := s.threads[t].phase;
              && p.woken == Min(p.op.count, p.eligible)
              && p.requeued == Min(RequeueLimit(p.op), p.eligible - p.woken)
    {
      assert ScanOk(s, s.threads[t].phase);
    }
    if forall t :: t in s.threads ==> s.threads[t].phase.Idle? {
      assert Woken(s) == {};
    }
  }

  /**
    In every run of waiters, wakers, signal handlers and timeouts: no post ever hits a destroyed
    semaphore, a wait returns 0 exactly when it was marked, every scan is exact, every mark has been
    posted or is being posted, and each mark is one wait that has returned 0 or one marked waiter still returning.
   */
  lemma EveryRunIsSafe(s: State, steps: seq<Step>)
    requires Init(s) && Runs(s, steps)
    ensures var f := Final(s, steps);
            && !f.badPost && ZeroExactlyWhenMarked(f) && ScansExact(f) && MarksPosted(f)
            && f.marks == f.zeros + |Woken(f)|
            && ((forall t :: t in f.threads ==> f.threads[t].phase.Idle?) ==> f.marks == f.zeros)
  {
    hide Inv, Init, Next, Runs, Final;
    InitEstablishesInv(s);
    RunKeepsInv(s, steps);
    InvMeaning(Final(s, steps));
  }

  /** What one step leaves of a marked waiter: still marked, in place, unless it returns 0. */
  ghost predicate StaysMarked(s: State, step: Step, n: State, u: Tid)
    requires u in s.threads
  {
    && u in n.threads
    && (step == Return(u) ==> n.zeros == s.zeros + 1)
    && (step != Return(u) ==> n.threads[u].woken && n.threads[u].address == s.threads[u].address)
  }

  lemma MarkIsSettledOnce(s: State, step: Step, u: Tid)
    requires Inv(s) && Enabled(s, step) && u in s.threads && s.threads[u].woken
    ensures StaysMarked(s, step, Next(s, step), u)
  {
    hide Inv, Next, Enabled, StaysMarked, OwnStep;
    if step.ScanStep? {
      MarkedScanStep(s, step.t, u);
    } else if OwnStep(step) {
      MarkedOwnStep(s, step, u);
    } else {
      MarkedOtherStep(s, step, u);
    }
  }

  lemma MarkedPhase(s: State, u: Tid)
    requires Inv(s) && u in s.threads && s.threads[u].woken
    ensures OnList(s.threads[u].phase) || AfterFlag(s.threads[u].phase)
  {
    hide ScansOk, Conserved, MarksPosted, LocalInv;
    ThreadIsOk(s, u);
  }

  lemma MarkedScanStep(s: State, t: Tid, u: Tid)
    requires Enabled(s, ScanStep(t)) && u in s.threads && s.threads[u].woken
    ensures StaysMarked(s, ScanStep(t), Next(s, ScanStep(t)), u)
  {
    hide Scan;
    ScanPerThread(s, t, u);
  }

  lemma MarkedOwnStep(s: State, step: Step, u: Tid)
    requires Inv(s) && OwnStep(step) && Enabled(s, step) && u in s.threads && s.threads[u].woken
    ensures StaysMarked(s, step, Next(s, step), u)
  {
    hide Inv, Next, Enabled, Advance, StartsFrom;
    OwnStepStarts(s, step);
    OwnNext(s, step);
    if step.t == u {
      MarkedPhase(s, u);
      MarkedThreadSteps(s.threads[u], step);
    }
  }

  lemma MarkedOtherStep(s: State, step: Step, u: Tid)
    requires Enabled(s, step) && !OwnStep(step) && !step.ScanStep? && u in s.threads && s.threads[u].woken
    ensures StaysMarked(s, step, Next(s, step), u)
  {
    hide CountEligible, Without;
  }

  lemma MarkedThreadSteps(w: Thread, step: Step)
    requires OwnStep(step) && StartsFrom(w.phase, step) && w.woken && (step.SemaphoreTaken? ==> w.semaphore > 0)
    requires OnList(w.phase) || AfterFlag(w.phase)
    ensures Advance(w, step).woken && Advance(w, step).address == w.address
  {
  }

  /** Over any run a marked waiter stays marked and is never moved, until its own call returns. */
  lemma {:induction false} MarkLastsUntilReturn(s: State, steps: seq<Step>, u: Tid)
    requires Inv(s) && Runs(s, steps) && u in s.threads && s.threads[u].woken && Return(u) !in steps
    ensures var f := Final(s, steps);
            Inv(f) && u in f.threads && f.threads[u].woken && f.threads[u].address == s.threads[u].address
    decreases |steps|
  {
    hide Inv, Next, Enabled;
    if steps != [] {
      NextKeepsInv(s, steps[0]);
      MarkIsSettledOnce(s, steps[0], u);
      assert steps[0] in steps;
      MarkLastsUntilReturn(Next(s, steps[0]), steps[1..], u);
    }
  }

  /** However long the run and whatever else befell the waiter, its next return yields 0 and settles the mark. */
  lemma MarkBecomesOneZero(s: State, steps: seq<Step>, u: Tid)
    requires Inv(s) && Runs(s, steps) && u in s.threads && s.threads[u].woken && Return(u) !in steps
    requires Enabled(Final(s, steps), Return(u))
    ensures var f := Final(s, steps);
            var n := Next(f, Return(u));
            n.zeros == f.zeros + 1 && n.marks == f.marks && u in n.threads && !n.threads[u].woken
  {
    hide Inv, Runs, Final;
    MarkLastsUntilReturn(s, steps, u);
    MarkIsSettledOnce(Final(s, steps), Return(u), u);
  }

  // ----- joiners

  /** Nobody who expects a nonzero word is still waiting unmarked on the address. */
  ghost predicate NoJoinerLeft(s: State, address: Word)
    requires Closed(s.threads, s.list)
  {
    forall i :: 0 <= i < |s.list| ==>
      var w := s.threads[s.list[i]];
      w.address == address && !w.woken ==> w.expected == 0
  }

  ghost predicate NoRequeueOnto(s: State, address: Word) {
    forall t :: t in s.threads && s.threads[t].phase.Scanning? ==>
      var op := s.threads[t].phase.op;
      op.Requeue? ==> op.second != address
  }

  /** The child-TID word is 0, its joiners are woken, and nothing can put one back. */
  ghost predicate Retired(s: State, address: Word) {
    && Closed(s.threads, s.list)
    && Load(s.memory, address) == 0
    && NoJoinerLeft(s, address)
    && NoRequeueOnto(s, address)
  }

  lemma AnyBitMeetsAll(b: bv32)
    ensures b != 0 ==> Meets(b, MATCH_ANY)
  {
    assert b & MATCH_ANY == b;
  }

  /** When the exit wake-all has run over a word that is 0, no joiner of that word is left. */
  lemma {:induction false} WakeAllRetiresWord(s: State, t: Tid, address: Word)
    requires Inv(s) && t in s.threads
    requires s.threads[t].phase.Scanned? && s.threads[t].phase.op == Wake(address, MATCH_ANY, INT_MAX)
    requires s.threads[t].phase.eligible < INT_MAX && Load(s.memory, address) == 0
    ensures Retired(s, address)
  {
    hide CountEligible, Distinct, Conserved, Meets;
    var p := s.threads[t].phase;
    assert ScanOk(s, p);
    forall i | 0 <= i < |s.list|
      ensures s.threads[s.list[i]].address == address ==> s.threads[s.list[i]].woken
    {
      var u := s.list[i];
      assert u in s.list;
      assert ThreadOk(s.threads[u], s.lock == Some(u), u in s.list);
      AnyBitMeetsAll(s.threads[u].bitset);
      assert !Eligible(s.threads[u], p.op);
    }
    forall u | u in s.threads && s.threads[u].phase.Scanning?
      ensures s.threads[u].phase.op.Wake?
    {
      ScannerHoldsLock(s, u);
      ScannerHoldsLock(s, t);
    }
  }

  /** The steps that could disturb a retired word: storing into it, or requeueing onto it. */
  predicate Disturbs(step: Step, address: Word) {
    || (step.Store? && step.address == address && step.value != 0)
    || (step.StartScan? && step.op.Requeue? && step.op.second == address)
  }

  lemma RetiredScanStep(s: State, t: Tid, address: Word)
    requires Enabled(s, ScanStep(t)) && Retired(s, address)
    ensures Retired(Next(s, ScanStep(t)), address)
  {
    hide Scan;
    var n := Scan(s, t);
    ScanPerThread(s, t, t);
    forall i | 0 <= i < |n.list|
      ensures n.list[i] in n.threads
      ensures var w := n.threads[n.list[i]];
              w.address == address && !w.woken ==> w.expected == 0
    {
      ScanPerThread(s, t, s.list[i]);
    }
    forall v | v in n.threads && n.threads[v].phase.Scanning?
      ensures n.threads[v].phase.op.Requeue? ==> n.threads[v].phase.op.second != address
    {
      ScanPerThread(s, t, v);
    }
  }

  lemma RetiredOwnStep(s: State, step: Step, address: Word)
    requires Inv(s) && Enabled(s, step) && OwnStep(step) && Retired(s, address)
    ensures Retired(Next(s, step), address)
  {
    hide Next, Enabled, ScansOk, Conserved, LocalInv, ThreadOk, OwnStep;
    OwnStepShape(s, step);
    OwnStepKeepsExpected(s, step);
    RetiredFrame(s, Next(s, step), address);
  }

  lemma OwnStepKeepsExpected(s: State, step: Step)
    requires Core(s) && Enabled(s, step) && OwnStep(step)
    ensures step.t in s.list ==> Next(s, step).threads[step.t].expected == s.threads[step.t].expected
  {
    hide ScansOk, Conserved, LocalInv, ThreadOk, Advance;
    OwnStepStarts(s, step);
    AdvanceKeepsExpected(s.threads[step.t], step);
    if step.t in s.list {
      NotIdleOnList(s, step.t);
    }
  }

  lemma NotIdleOnList(s: State, t: Tid)
    requires LocalInv(s) && t in s.list && t in s.threads
    ensures !s.threads[t].phase.Idle?
  {
    hide Distinct;
  }

  lemma AdvanceKeepsExpected(w: Thread, step: Step)
    requires OwnStep(step) && StartsFrom(w.phase, step) && (step.SemaphoreTaken? ==> w.semaphore > 0)
    ensures !w.phase.Idle? ==> Advance(w, step).expected == w.expected
  {
  }

  /** A retired word stays retired as long as it is not stored to and nobody requeues onto it. */
  lemma RetiredIsStable(s: State, step: Step, address: Word)
    requires Inv(s) && Enabled(s, step) && Retired(s, address) && !Disturbs(step, address)
    ensures Retired(Next(s, step), address)
  {
    hide Inv, Retired, Disturbs, Next, Enabled;
    if step.ScanStep? {
      RetiredScanStep(s, step.t, address);
    } else if OwnStep(step) {
      RetiredOwnStep(s, step, address);
    } else if step.Remove? {
      RetiredRemove(s, step.t, address);
    } else if step.Check? {
      RetiredCheck(s, step.t, address);
    } else if step.Return? {
      RetiredReturn(s, step.t, address);
    } else if step.StartScan? {
      RetiredStartScan(s, step, address);
    } else {
      RetiredOutsideStep(s, step, address);
    }
  }

  /** A step that leaves the list alone and turns no listed waiter into a joiner. */
  lemma RetiredFrame(s: State, n: State, address: Word)
    requires Retired(s, address) && n.list == s.list && n.threads.Keys == s.threads.Keys
    requires Load(n.memory, address) == 0 && NoRequeueOnto(n, address)
    requires forall u :: u in s.threads && u in s.list ==>
               && n.threads[u].address == s.threads[u].address && n.threads[u].woken == s.threads[u].woken
               && n.threads[u].expected == s.threads[u].expected
    ensures Retired(n, address)
  {
    forall i | 0 <= i < |n.list|
      ensures var w := n.threads[n.list[i]];
              w.address == address && !w.woken ==> w.expected == 0
    {
      assert n.list[i] in s.list;
    }
  }

  lemma RetiredReturn(s: State, t: Tid, address: Word)
    requires Inv(s) && Enabled(s, Return(t)) && Retired(s, address)
    ensures Retired(Next(s, Return(t)), address)
  {
    hide ScansOk, Conserved, LocalInv, NoJoinerLeft, ThreadOk;
    ReturnedIsOffList(s, t);
    RetiredFrame(s, Next(s, Return(t)), address);
  }

  lemma RetiredStartScan(s: State, step: Step, address: Word)
    requires step.StartScan? && Enabled(s, step) && Retired(s, address) && !Disturbs(step, address)
    ensures Retired(Next(s, step), address)
  {
    hide NoJoinerLeft, CountEligible;
    RetiredFrame(s, Next(s, step), address);
  }

  lemma RetiredOutsideStep(s: State, step: Step, address: Word)
    requires (step.Handler? || step.Store?) && Enabled(s, step) && Retired(s, address) && !Disturbs(step, address)
    ensures Retired(Next(s, step), address)
  {
    hide NoJoinerLeft;
    RetiredFrame(s, Next(s, step), address);
  }

  lemma ReturnedIsOffList(s: State, t: Tid)
    requires LocalInv(s) && InPhase(s, t, Destroyed)
    ensures t !in s.list
  {
    ThreadIsOk(s, t);
  }

  lemma RetiredCheck(s: State, t: Tid, address: Word)
    requires Inv(s) && Enabled(s, Check(t)) && Retired(s, address)
    ensures Retired(Next(s, Check(t)), address)
  {
    hide ScansOk, Conserved, LocalInv, ThreadOk;
    var n := Next(s, Check(t));
    forall i | 0 <= i < |n.list|
      ensures n.list[i] in n.threads
      ensures var w := n.threads[n.list[i]];
              w.address == address && !w.woken ==> w.expected == 0
    {
      if |n.list| != |s.list| {
        assert i > 0 ==> n.list[i] == s.list[i - 1];
      }
    }
  }

  lemma RetiredRemove(s: State, t: Tid, address: Word)
    requires Inv(s) && Enabled(s, Remove(t)) && Retired(s, address)
    ensures Retired(Next(s, Remove(t)), address)
  {
    hide ScansOk, Conserved, ThreadOk, Without;
    var n := Next(s, Remove(t));
    forall i | 0 <= i < |n.list|
      ensures n.list[i] in n.threads
      ensures var w := n.threads[n.list[i]];
              w.address == address && !w.woken ==> w.expected == 0
    {
      var u := n.list[i];
      assert u in Without(s.list, t);
      WithoutMembers(s.list, t, u);
      var j :| 0 <= j < |s.list| && s.list[j] == u;
    }
  }

  ghost predicate NoneDisturb(steps: seq<Step>, address: Word) {
    forall i :: 0 <= i < |steps| ==> !Disturbs(steps[i], address)
  }

  /** After a thread has cleared its TID word and woken everybody, no joiner is ever left behind. */
  lemma {:induction false} ExitLosesNoJoiner(s: State, steps: seq<Step>, address: Word)
    requires Inv(s) && Retired(s, address) && Runs(s, steps) && NoneDisturb(steps, address)
    ensures Retired(Final(s, steps), address)
    decreases |steps|
  {
    hide Inv, Next, Enabled, Retired, Disturbs;
    if steps != [] {
      NextKeepsInv(s, steps[0]);
      RetiredIsStable(s, steps[0], address);
      ExitLosesNoJoiner(Next(s, steps[0]), steps[1..], address);
    }
  }
}
