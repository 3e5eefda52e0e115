/** Safety of the futex protocol over every interleaving. */
module FutexSafety {
  import opened Words
  import opened FutexProtocol

  // ----- the list

  lemma {:induction false} WithoutMembers(list: seq<Tid>, t: Tid, u: Tid)
    requires Distinct(list)
    ensures u in Without(list, t) <==> u in list && u != t
  {
    if list != [] {
      assert Distinct(list[1..]);
      WithoutMembers(list[1..], t, u);
      assert list == [list[0]] + list[1..];
    }
  }

  lemma {:induction false} WithoutDistinct(list: seq<Tid>, t: Tid)
    requires Distinct(list)
    ensures Distinct(Without(list, t))
  {
    if list != [] {
      assert Distinct(list[1..]);
      WithoutDistinct(list[1..], t);
      WithoutMembers(list[1..], t, list[0]);
      assert list[0] !in list[1..];
    }
  }

  lemma {:induction false} CountFrame(a: map<Tid, Thread>, b: map<Tid, Thread>, list: seq<Tid>, op: Op)
    requires Closed(a, list) && Closed(b, list)
    requires forall i :: 0 <= i < |list| ==> Eligible(a[list[i]], op) == Eligible(b[list[i]], op)
    ensures CountEligible(a, list, op) == CountEligible(b, list, op)
  {
    if list != [] {
      CountFrame(a, b, list[1..], op);
    }
  }

  lemma {:induction false} CountIsBounded(threads: map<Tid, Thread>, list: seq<Tid>, op: Op)
    requires Closed(threads, list)
    ensures CountEligible(threads, list, op) <= |list|
    ensures CountEligible(threads, list, op) == 0 ==>
              forall i :: 0 <= i < |list| ==> !Eligible(threads[list[i]], op)
  {
    if list != [] {
      CountIsBounded(threads, list[1..], op);
      assert forall i :: 0 < i < |list| ==> list[i] == list[1..][i - 1];
    }
  }

  // ----- frames for the local invariant

  ghost predicate Differs(s: State, n: State, t: Tid) {
    && n.threads.Keys == s.threads.Keys
    && t in s.threads
    && forall u :: u in s.threads && u != t ==> n.threads[u] == s.threads[u]
  }

  /** A step of t that touches only its own record, and perhaps takes or releases the lock. */
  lemma OwnStepKeepsLocal(s: State, n: State, t: Tid)
    requires LocalInv(s) && Differs(s, n, t) && n.list == s.list
    requires n.lock == s.lock || (s.lock.None? && n.lock == Some(t)) || (s.lock == Some(t) && n.lock.None?)
    requires ThreadOk(n.threads[t], n.lock == Some(t), t in n.list)
    ensures LocalInv(n)
  {
    hide ThreadOk;
    assert Closed(n.threads, n.list);
  }

  lemma EnqueueKeepsLocal(s: State, n: State, t: Tid)
    requires LocalInv(s) && Differs(s, n, t) && n.list == [t] + s.list && n.lock == s.lock
    requires t !in s.list
    requires ThreadOk(n.threads[t], n.lock == Some(t), true)
    ensures LocalInv(n)
  {
    hide ThreadOk;
    assert Closed(n.threads, n.list);
    assert Distinct(n.list);
    forall u | u in n.threads ensures ThreadOk(n.threads[u], n.lock == Some(u), u in n.list) {
      assert u in n.list <==> u == t || u in s.list;
    }
  }

  lemma RemoveKeepsLocal(s: State, n: State, t: Tid)
    requires LocalInv(s) && Differs(s, n, t) && n.list == Without(s.list, t) && n.lock == s.lock
    requires ThreadOk(n.threads[t], n.lock == Some(t), false)
    ensures LocalInv(n)
  {
    hide ThreadOk;
    WithoutDistinct(s.list, t);
    forall u ensures u in n.list <==> u in s.list && u != t {
      WithoutMembers(s.list, t, u);
    }
    forall i | 0 <= i < |n.list| ensures n.list[i] in n.threads {
      assert n.list[i] in n.list;
    }
    hide Without;
    forall u | u in n.threads ensures ThreadOk(n.threads[u], n.lock == Some(u), u in n.list) {
    }
  }

  // ----- frames for scans and for conservation

  predicate ScanPhase(p: Phase) {
    p.Scanning? || p.Scanned?
  }

  lemma ScannerHoldsLock(s: State, u: Tid)
    requires LocalInv(s) && u in s.threads && ScanPhase(s.threads[u].phase)
    ensures s.lock == Some(u)
  {
  }

  /** A running scan only looks at the address, bitset and mark of the waiters from its cursor on. */
  lemma ScanOkFrame(s: State, n: State, p: Phase)
    requires Closed(s.threads, s.list) && Closed(n.threads, n.list) && n.list == s.list && ScanOk(s, p)
    requires forall i :: 0 <= i < |s.list| ==>
               && n.threads[s.list[i]].address == s.threads[s.list[i]].address
               && n.threads[s.list[i]].bitset == s.threads[s.list[i]].bitset
               && n.threads[s.list[i]].woken == s.threads[s.list[i]].woken
    ensures ScanOk(n, p)
  {
    if p.Scanning? {
      var rest := s.list[p.cursor..];
      forall i | 0 <= i < |rest|
        ensures Eligible(s.threads[rest[i]], p.op) == Eligible(n.threads[rest[i]], p.op)
      {
        assert rest[i] == s.list[p.cursor + i];
      }
      CountFrame(s.threads, n.threads, rest, p.op);
    }
  }

  /** While somebody else scans, a step of t without the lock cannot change what the scan counts. */
  lemma ScansUnaffected(s: State, n: State, t: Tid)
    requires LocalInv(s) && ScansOk(s) && Differs(s, n, t) && Closed(n.threads, n.list)
    requires !ScanPhase(n.threads[t].phase)
    requires s.lock == Some(t)
          || (n.list == s.list
              && (t in s.list ==>
                    && n.threads[t].address == s.threads[t].address
                    && n.threads[t].bitset == s.threads[t].bitset
                    && n.threads[t].woken == s.threads[t].woken))
    ensures ScansOk(n)
  {
    hide ScanOk, Distinct;
    forall u | u in n.threads
      ensures ScanOk(n, n.threads[u].phase)
    {
      if ScanPhase(n.threads[u].phase) {
        ScannerHoldsLock(s, u);
        hide ThreadOk;
        ScanOkFrame(s, n, s.threads[u].phase);
      } else {
        NotScanning(n, n.threads[u].phase);
      }
    }
  }

  lemma NotScanning(n: State, p: Phase)
    requires Closed(n.threads, n.list) && !ScanPhase(p)
    ensures ScanOk(n, p)
  {
  }

  lemma WokenUnchanged(s: State, n: State, t: Tid)
    requires Conserved(s) && Differs(s, n, t) && n.threads[t].woken == s.threads[t].woken
    requires n.marks == s.marks && n.zeros == s.zeros && n.badPost == s.badPost
    ensures Conserved(n)
  {
    assert Woken(n) == Woken(s);
  }

  lemma PostIsSafe(s: State, n: State, t: Tid)
    requires Conserved(s) && Differs(s, n, t) && n.threads[t].woken == s.threads[t].woken
    requires n.marks == s.marks && n.zeros == s.zeros && n.badPost == (s.badPost || !s.threads[t].live)
    requires s.threads[t].live
    ensures Conserved(n)
  {
    assert Woken(n) == Woken(s);
  }

  // ----- every step of a waiter

  /** The phase a thread's own step starts from. */
  predicate StartsFrom(p: Phase, step: Step)
    requires OwnStep(step)
  {
    match step
    case BeginWait(_, _, _, _) => p.Idle?
    case LockFails(_) => p.Prepared?
    case AcquireToCheck(_) => p.Prepared?
    case ClearFlag(_) => p.Enqueued?
    case Publish(_) => p.Cleared?
    case Unlock(_) => p.Published?
    case SemaphoreTaken(_) => p.Sleeping?
    case SemaphoreFails(_, _) => p.Sleeping?
    case Withdraw(_) => p.Awake?
    case ReadFlag(_) => p.Withdrawn?
    case AcquireToLeave(_) => p.Leaving?
    case UnlockAfterRemove(_) => p.Removed?
    case Destroy(_) => p.Unlinked?
    case FinishScan(_) => p.Scanned?
  }

  /** Whether the thread holds the lock after its own step. */
  predicate HoldsAfter(step: Step, holds: bool) {
    if step.AcquireToCheck? || step.AcquireToLeave? then true
    else if step.Unlock? || step.UnlockAfterRemove? || step.FinishScan? then false
    else holds
  }

  /** What an own step leaves of one thread's record. */
  predicate AdvanceOk(w: Thread, v: Thread, step: Step, holds: bool, listed: bool) {
    && ThreadOk(v, HoldsAfter(step, holds), listed)
    && (step.Unlock? || step.UnlockAfterRemove? || step.FinishScan? ==> holds)
    && (listed ==> v.address == w.address && v.bitset == w.bitset)
    && v.woken == w.woken
    && !ScanPhase(v.phase) && !w.phase.Scanning?
    && (v.phase.Published? || v.phase.Sleeping? ==>
          v.semaphore == w.semaphore && (w.phase.Cleared? || w.phase.Published?))
  }

  predicate Entering(step: Step) {
    step.BeginWait? || step.LockFails? || step.AcquireToCheck? || step.ClearFlag? || step.Publish? || step.Unlock?
  }

  lemma EnteringKeepsThreadOk(w: Thread, step: Step, holds: bool, listed: bool)
    requires Entering(step) && ThreadOk(w, holds, listed) && StartsFrom(w.phase, step)
    requires step.BeginWait? ==> step.bitset != 0
    ensures AdvanceOk(w, Advance(w, step), step, holds, listed)
  {
    hide Eligible, Meets;
  }

  lemma LeavingKeepsThreadOk(w: Thread, step: Step, holds: bool, listed: bool)
    requires OwnStep(step) && !Entering(step) && ThreadOk(w, holds, listed) && StartsFrom(w.phase, step)
    requires (step.SemaphoreTaken? ==> w.semaphore > 0) && (step.SemaphoreFails? ==> step.error != NoError)
    ensures AdvanceOk(w, Advance(w, step), step, holds, listed)
  {
    hide Eligible, Meets;
  }

  /** One thread's own steps keep its record consistent with the lock and the list. */
  lemma AdvanceKeepsThreadOk(w: Thread, step: Step, holds: bool, listed: bool)
    requires OwnStep(step) && ThreadOk(w, holds, listed)
    requires (step.SemaphoreTaken? ==> w.semaphore > 0) && (step.SemaphoreFails? ==> step.error != NoError)
    requires StartsFrom(w.phase, step) && (step.BeginWait? ==> step.bitset != 0)
    ensures AdvanceOk(w, Advance(w, step), step, holds, listed)
  {
    hide ThreadOk, AdvanceOk, Advance, StartsFrom;
    if Entering(step) {
      EnteringKeepsThreadOk(w, step, holds, listed);
    } else {
      LeavingKeepsThreadOk(w, step, holds, listed);
    }
  }

  /** An own step as a change of one record, with its lock and its effect on that record. */
  lemma OwnStepShape(s: State, step: Step)
    requires LocalInv(s) && OwnStep(step) && Enabled(s, step)
    ensures !step.Store?
    ensures var n, t := Next(s, step), step.t;
            && Differs(s, n, t) && n.list == s.list && n.marks == s.marks && n.zeros == s.zeros
            && n.badPost == s.badPost && n.memory == s.memory
            && (n.lock == s.lock || (s.lock.None? && n.lock == Some(t)) || (s.lock == Some(t) && n.lock.None?))
            && HoldsAfter(step, s.lock == Some(t)) == (n.lock == Some(t))
            && AdvanceOk(s.threads[t], n.threads[t], step, s.lock == Some(t), t in s.list)
  {
    hide Advance, Next, Enabled, LocalInv, ThreadOk, AdvanceOk, StartsFrom;
    OwnStepStarts(s, step);
    OwnNext(s, step);
    var t := step.t;
    ThreadIsOk(s, t);
    AdvanceKeepsThreadOk(s.threads[t], step, s.lock == Some(t), t in s.list);
    ReleaseNeedsLock(s.threads[t], Advance(s.threads[t], step), step, s.lock == Some(t), t in s.list);
  }

  lemma ReleaseNeedsLock(w: Thread, v: Thread, step: Step, holds: bool, listed: bool)
    requires AdvanceOk(w, v, step, holds, listed)
    ensures step.Unlock? || step.UnlockAfterRemove? || step.FinishScan? ==> holds
  {
    hide ThreadOk;
  }

  /** An own step replaces one record and leaves the rest but the lock. */
  lemma OwnNext(s: State, step: Step)
    requires OwnStep(step) && Enabled(s, step)
    ensures !step.Store? && step.t in s.threads && (step.SemaphoreTaken? ==> s.threads[step.t].semaphore > 0)
    ensures var n := Next(s, step);
            && n.threads == s.threads[step.t := Advance(s.threads[step.t], step)]
            && n.list == s.list && n.marks == s.marks && n.zeros == s.zeros && n.badPost == s.badPost
            && n.memory == s.memory && n.lock == LockAfter(s.lock, step)
  {
    hide Advance;
  }

  lemma OwnStepStarts(s: State, step: Step)
    requires OwnStep(step) && Enabled(s, step)
    ensures step.t in s.threads && StartsFrom(s.threads[step.t].phase, step)
    ensures step.AcquireToCheck? || step.AcquireToLeave? ==> s.lock.None?
    ensures (step.SemaphoreTaken? ==> s.threads[step.t].semaphore > 0)
            && (step.SemaphoreFails? ==> step.error != NoError) && (step.BeginWait? ==> step.bitset != 0)
  {
  }

  lemma OwnStepKeepsCore(s: State, step: Step)
    requires Core(s) && OwnStep(step) && Enabled(s, step)
    ensures Core(Next(s, step))
  {
    hide Next, Enabled, ScansOk, Conserved, ScanPhase, LocalInv, ThreadOk, OwnStep;
    OwnStepShape(s, step);
    var n, t := Next(s, step), step.t;
    OwnStepKeepsLocal(s, n, t);
    ClosedList(n);
    ScansUnaffected(s, n, t);
    WokenUnchanged(s, n, t);
  }

  /** The remaining record changes: refused, enqueued, removed, returned, interrupted. */
  lemma RecordChanges(w: Thread, holds: bool, listed: bool)
    requires ThreadOk(w, holds, listed)
    ensures w.phase.Checking? ==>
              && holds && !listed && !w.woken
              && ThreadOk(w.(phase := Idle, live := false), false, false)
              && ThreadOk(w.(phase := Enqueued), true, true)
    ensures w.phase.Removing? ==> holds && listed && ThreadOk(w.(phase := Removed), true, false)
    ensures w.phase.Destroyed? ==>
              && !holds && !listed && (ReturnsZero(w) <==> w.woken)
              && ThreadOk(w.(phase := Idle, woken := false), false, false)
    ensures w.published ==>
              && w.live && !ScanPhase(w.phase)
              && ThreadOk(w.(interrupted := true, semaphore := w.semaphore + 1), holds, listed)
  {
  }

  lemma CheckKeepsCore(s: State, t: Tid)
    requires Core(s) && Enabled(s, Check(t))
    ensures Core(Next(s, Check(t)))
  {
    hide ScansOk, Conserved, Distinct, ThreadOk;
    var n := Next(s, Check(t));
    assert Differs(s, n, t);
    RecordChanges(s.threads[t], s.lock == Some(t), t in s.list);
    if Load(s.memory, s.threads[t].address) != s.threads[t].expected {
      OwnStepKeepsLocal(s, n, t);
    } else {
      EnqueueKeepsLocal(s, n, t);
    }
    ScansUnaffected(s, n, t);
    WokenUnchanged(s, n, t);
  }

  lemma RemoveKeepsCore(s: State, t: Tid)
    requires Core(s) && Enabled(s, Remove(t))
    ensures Core(Next(s, Remove(t)))
  {
    hide ScansOk, Conserved, Distinct, ThreadOk, Without;
    var n := Next(s, Remove(t));
    assert Differs(s, n, t);
    RecordChanges(s.threads[t], s.lock == Some(t), t in s.list);
    RemoveKeepsLocal(s, n, t);
    ScansUnaffected(s, n, t);
    WokenUnchanged(s, n, t);
  }

  /** Returning settles one mark when, and only when, the waiter was marked. */
  lemma ReturnSettles(s: State, n: State, t: Tid)
    requires Conserved(s) && Differs(s, n, t) && !n.threads[t].woken
    requires n.marks == s.marks && n.badPost == s.badPost
    requires n.zeros == if s.threads[t].woken then s.zeros + 1 else s.zeros
    ensures Conserved(n)
  {
    if s.threads[t].woken {
      assert Woken(s) == Woken(n) + {t};
    } else {
      assert Woken(s) == Woken(n);
    }
  }

  lemma ReturnKeepsCore(s: State, t: Tid)
    requires Core(s) && Enabled(s, Return(t))
    ensures Core(Next(s, Return(t)))
  {
    hide ScansOk, Conserved, Distinct, ThreadOk;
    var n := Next(s, Return(t));
    assert Differs(s, n, t);
    RecordChanges(s.threads[t], s.lock == Some(t), t in s.list);
    OwnStepKeepsLocal(s, n, t);
    ScansUnaffected(s, n, t);
    ReturnSettles(s, n, t);
  }

  lemma HandlerKeepsCore(s: State, t: Tid)
    requires Core(s) && Enabled(s, Handler(t))
    ensures Core(Next(s, Handler(t)))
  {
    hide ScansOk, Conserved, Distinct, ThreadOk;
    if s.threads[t].published {
      var n := Next(s, Handler(t));
      assert Differs(s, n, t);
      RecordChanges(s.threads[t], s.lock == Some(t), t in s.list);
      OwnStepKeepsLocal(s, n, t);
      ScansUnaffected(s, n, t);
      PostIsSafe(s, n, t);
    }
  }

  // ----- the locked scans

  lemma OnlyScanner(n: State, t: Tid)
    requires LocalInv(n) && t in n.threads && n.lock == Some(t) && ScanOk(n, n.threads[t].phase)
    ensures ScansOk(n)
  {
    hide ScanOk, Distinct;
    forall u | u in n.threads
      ensures ScanOk(n, n.threads[u].phase)
    {
      if ScanPhase(n.threads[u].phase) {
        ScannerHoldsLock(n, u);
      } else {
        NotScanning(n, n.threads[u].phase);
      }
    }
  }

  lemma StartScanKeepsCore(s: State, step: Step)
    requires Core(s) && step.StartScan? && Enabled(s, step)
    ensures Core(Next(s, step))
  {
    hide Conserved, Distinct, Eligible, ThreadOk, ScansOk;
    var n := Next(s, step);
    var t := step.t;
    assert Differs(s, n, t);
    ScannerRecord(s.threads[t], s.lock == Some(t), t in s.list, n.threads[t].phase);
    OwnStepKeepsLocal(s, n, t);
    WokenUnchanged(s, n, t);
    assert n.list[0..] == n.list;
    forall i | 0 <= i < |s.list|
      ensures Eligible(s.threads[s.list[i]], step.op) == Eligible(n.threads[s.list[i]], step.op)
    {
      assert s.list[i] in s.list;
    }
    CountFrame(s.threads, n.threads, s.list, step.op);
    OnlyScanner(n, t);
  }

  /** What is eligible from position k on is the waiter at k, if it is, and what follows. */
  lemma CountSplit(threads: map<Tid, Thread>, list: seq<Tid>, k: nat, op: Op)
    requires Closed(threads, list) && k < |list|
    ensures CountEligible(threads, list[k..], op)
         == (if Eligible(threads[list[k]], op) then 1 else 0) + CountEligible(threads, list[k + 1..], op)
  {
    assert list[k..][1..] == list[k + 1..];
  }

  /** Changing the scanner and the waiter before position k leaves the rest of the count alone. */
  lemma RestUnchanged(s: State, n: State, t: Tid, k: nat, op: Op)
    requires Closed(s.threads, s.list) && Distinct(s.list) && n.list == s.list && 0 < k <= |s.list|
    requires n.threads.Keys == s.threads.Keys && t !in s.list
    requires forall v :: v in s.threads && v != t && v != s.list[k - 1] ==> n.threads[v] == s.threads[v]
    ensures CountEligible(n.threads, n.list[k..], op) == CountEligible(s.threads, s.list[k..], op)
  {
    var rest := s.list[k..];
    forall i | 0 <= i < |rest|
      ensures Eligible(s.threads[rest[i]], op) == Eligible(n.threads[rest[i]], op)
    {
      assert rest[i] == s.list[k + i];
      assert s.list[k - 1] != s.list[k + i];
      assert rest[i] in s.list;
    }
    CountFrame(s.threads, n.threads, rest, op);
  }

  /** The scanner and the waiter under its cursor are the only records that differ. */
  ghost predicate Visits(s: State, n: State, t: Tid, u: Tid, w: Thread, q: Phase) {
    && t in s.threads && u in s.threads && t != u
    && n.threads == s.threads[u := w][t := s.threads[t].(phase := q)]
    && n.list == s.list && n.lock == s.lock
  }

  /** The scanner's own record: it holds the lock, is not on the list, and may move between scan phases. */
  lemma ScannerRecord(w: Thread, holds: bool, listed: bool, q: Phase)
    requires ThreadOk(w, holds, listed) && (w.phase.Idle? || ScanPhase(w.phase)) && ScanPhase(q)
    ensures !listed && holds == ScanPhase(w.phase)
    ensures ThreadOk(w.(phase := q), true, false)
  {
  }

  lemma VisitKeepsLocal(s: State, n: State, t: Tid, u: Tid, w: Thread, q: Phase)
    requires LocalInv(s) && Visits(s, n, t, u, w, q)
    requires s.threads[t].phase.Scanning? && ScanPhase(q)
    requires ThreadOk(w, s.lock == Some(u), u in s.list)
    ensures LocalInv(n)
  {
    hide ThreadOk, Distinct;
    ScannerRecord(s.threads[t], s.lock == Some(t), t in s.list, q);
    var m := s.(threads := s.threads[u := w]);
    OwnStepKeepsLocal(s, m, u);
    OwnStepKeepsLocal(m, n, t);
  }

  /** What the scanner finds at its cursor: a listed waiter that is not itself. */
  lemma UnderCursor(s: State, t: Tid)
    requires LocalInv(s) && ScansOk(s) && t in s.threads && s.threads[t].phase.Scanning?
    requires s.threads[t].phase.cursor < |s.list|
    ensures var u := s.list[s.threads[t].phase.cursor];
            && s.lock == Some(t) && t !in s.list
            && u in s.list && u in s.threads && u != t && ThreadOk(s.threads[u], false, true)
            && ScanOk(s, s.threads[t].phase) && (s.threads[t].phase.posting ==> s.threads[u].woken)
  {
    var u := s.list[s.threads[t].phase.cursor];
    assert u in s.list;
    assert ThreadOk(s.threads[t], s.lock == Some(t), t in s.list);
    assert ThreadOk(s.threads[u], s.lock == Some(u), u in s.list);
    assert ScanOk(s, s.threads[t].phase);
  }

  lemma ListShape(s: State)
    requires LocalInv(s)
    ensures Closed(s.threads, s.list) && Distinct(s.list)
  {
  }

  /** The count past the cursor is untouched by a visit, and the count at it changes with the waiter. */
  lemma VisitCounts(s: State, n: State, t: Tid, w: Thread, q: Phase, k: nat, op: Op)
    requires LocalInv(s) && LocalInv(n) && k < |s.list| && t !in s.list
    requires Visits(s, n, t, s.list[k], w, q)
    ensures Closed(s.threads, s.list) && Closed(n.threads, n.list)
    ensures CountEligible(n.threads, n.list[k + 1..], op) == CountEligible(s.threads, s.list[k + 1..], op)
    ensures CountEligible(s.threads, s.list[k..], op)
         == (if Eligible(s.threads[s.list[k]], op) then 1 else 0) + CountEligible(s.threads, s.list[k + 1..], op)
    ensures CountEligible(n.threads, n.list[k..], op)
         == (if Eligible(w, op) then 1 else 0) + CountEligible(s.threads, s.list[k + 1..], op)
    ensures NoneEligible(s, op, k) ==> NoneEligible(n, op, k)
    ensures NoneEligible(n, op, k) && !Eligible(w, op) ==> NoneEligible(n, op, k + 1)
  {
    ListShape(s);
    ListShape(n);
    hide LocalInv, Eligible;
    forall i | 0 <= i < k ensures n.threads[n.list[i]] == s.threads[s.list[i]] {
      assert s.list[i] != s.list[k];
      assert s.list[i] in s.list;
    }
    RestUnchanged(s, n, t, k + 1, op);
    CountSplit(s.threads, s.list, k, op);
    CountSplit(n.threads, n.list, k, op);
  }

  /** What a scan step can do to any one thread. */
  lemma ScanPerThread(s: State, t: Tid, v: Tid)
    requires Enabled(s, ScanStep(t)) && v in s.threads
    ensures var n, p := Scan(s, t), s.threads[t].phase;
            && n.threads.Keys == s.threads.Keys && n.list == s.list && n.memory == s.memory
            && n.threads[v].bitset == s.threads[v].bitset && n.threads[v].expected == s.threads[v].expected
            && (s.threads[v].woken ==> n.threads[v].woken)
            && (n.threads[v].address == s.threads[v].address
                || (p.op.Requeue? && !s.threads[v].woken && n.threads[v].address == p.op.second))
            && (v != t ==> n.threads[v].phase == s.threads[v].phase)
            && (v == t ==> ScanPhase(n.threads[v].phase) && n.threads[v].phase.op == p.op)
  {
    hide Meets, VisitPhase;
    var p := s.threads[t].phase;
    if p.cursor < |s.list| {
      VisitPhaseIsScan(s.threads[s.list[p.cursor]], p);
    }
  }

  lemma VisitPhaseIsScan(w: Thread, p: Phase)
    requires p.Scanning?
    ensures ScanPhase(VisitPhase(w, p)) && VisitPhase(w, p).op == p.op
  {
    hide Eligible;
  }

  /** A visit marks at most one waiter and counts it. */
  lemma VisitConserves(s: State, n: State, t: Tid, u: Tid, w: Thread, q: Phase)
    requires Conserved(s) && Visits(s, n, t, u, w, q)
    requires n.marks - s.marks == (if w.woken then 1 else 0) - (if s.threads[u].woken then 1 else 0)
    requires n.zeros == s.zeros && !n.badPost
    requires s.threads[u].woken ==> w.woken
    ensures Conserved(n)
  {
    if w.woken && !s.threads[u].woken {
      assert Woken(n) == Woken(s) + {u};
      assert u !in Woken(s);
    } else {
      assert Woken(n) == Woken(s);
    }
  }

  /** A visit keeps the scan's books. */
  lemma VisitKeepsScanOk(s: State, n: State, t: Tid, w: Thread)
    requires LocalInv(s) && LocalInv(n) && t in s.threads && t !in s.list
    requires var p := s.threads[t].phase;
             && p.Scanning? && p.cursor < |s.list| && w == s.threads[s.list[p.cursor]]
             && ScanOk(s, p) && Visits(s, n, t, s.list[p.cursor], VisitWaiter(w, p), VisitPhase(w, p))
    ensures Closed(n.threads, n.list) && ScanOk(n, VisitPhase(w, s.threads[t].phase))
  {
    hide Meets, LocalInv, CountEligible, NoneEligible;
    ClosedList(s);
    ClosedList(n);
    var p := s.threads[t].phase;
    var k, op := p.cursor, p.op;
    var v, q := VisitWaiter(w, p), VisitPhase(w, p);
    VisitCounts(s, n, t, v, q, k, op);
    assert n.threads[n.list[k]] == v;
  }

  lemma ClosedList(s: State)
    requires LocalInv(s)
    ensures Closed(s.threads, s.list)
  {
  }

  /** Posting, marking and moving keep a listed waiter's record consistent. */
  lemma ScannedWaiter(w: Thread, p: Phase)
    requires ThreadOk(w, false, true) && p.Scanning? && (p.posting ==> w.woken)
    ensures w.live && ThreadOk(VisitWaiter(w, p), false, true)
    ensures w.woken ==> VisitWaiter(w, p).woken
  {
    hide Meets;
  }

  lemma VisitStepKeepsCore(s: State, t: Tid)
    requires Core(s) && Enabled(s, ScanStep(t)) && s.threads[t].phase.cursor < |s.list|
    ensures Core(Scan(s, t))
  {
    hide ThreadOk, LocalInv, ScansOk, Conserved, VisitWaiter, VisitPhase;
    var p, n := s.threads[t].phase, Scan(s, t);
    UnderCursor(s, t);
    var u := s.list[p.cursor];
    var w := s.threads[u];
    var v, q := VisitWaiter(w, p), VisitPhase(w, p);
    ScannedWaiter(w, p);
    VisitPhaseIsScan(w, p);
    NoBadPost(s);
    VisitKeepsLocal(s, n, t, u, v, q);
    VisitConserves(s, n, t, u, v, q);
    VisitKeepsScanOk(s, n, t, w);
    OnlyScanner(n, t);
  }

  lemma NoBadPost(s: State)
    requires Conserved(s)
    ensures !s.badPost
  {
  }

  /** Reaching the end of the list. */
  lemma EndStepKeepsCore(s: State, t: Tid)
    requires Core(s) && Enabled(s, ScanStep(t)) && s.threads[t].phase.cursor >= |s.list|
    ensures Core(Scan(s, t))
  {
    hide Conserved, LocalInv, ScanOk, ThreadOk, VisitWaiter, VisitPhase;
    var p, n := s.threads[t].phase, Scan(s, t);
    ThreadIsOk(s, t);
    ClosedList(s);
    ScannerRecord(s.threads[t], s.lock == Some(t), t in s.list, n.threads[t].phase);
    OwnStepKeepsLocal(s, n, t);
    ClosedList(n);
    WokenUnchanged(s, n, t);
    EndOfList(s, n, t, p);
    OnlyScanner(n, t);
  }

  /** A scan that has come to the end of the list has counted everything. */
  lemma EndOfList(s: State, n: State, t: Tid, p: Phase)
    requires Closed(s.threads, s.list) && Closed(n.threads, n.list) && t !in s.list
    requires Differs(s, n, t) && n.list == s.list && p.Scanning? && p.cursor >= |s.list| && ScanOk(s, p)
    ensures ScanOk(n, Scanned(p.op, p.woken, p.requeued, p.eligible))
  {
    hide Eligible;
    assert s.list[p.cursor..] == [];
    forall i | 0 <= i < |s.list| ensures n.threads[n.list[i]] == s.threads[s.list[i]] {
      assert s.list[i] in s.list;
    }
  }

  lemma ScanStepKeepsCore(s: State, t: Tid)
    requires Core(s) && Enabled(s, ScanStep(t))
    ensures Core(Scan(s, t))
  {
    hide Core, Scan;
    if s.threads[t].phase.cursor < |s.list| {
      VisitStepKeepsCore(s, t);
    } else {
      EndStepKeepsCore(s, t);
    }
  }

  // ----- every mark is posted

  /** A posting scanner holds the lock, so no waiter that holds it is being posted to. */
  lemma HolderIsNotPosted(s: State, t: Tid, u: Tid)
    requires LocalInv(s) && t in s.threads && s.lock == Some(t) && !s.threads[t].phase.Scanning?
    ensures !PostPending(s, u)
  {
  }

  /** One record changes and no post is outstanding, or the outstanding one stays so. */
  lemma OneChangeKeepsMarksPosted(s: State, n: State, t: Tid)
    requires MarksPosted(s) && Differs(s, n, t)
    requires n.lock == s.lock || n.lock == Some(t) || n.lock.None?
    requires (n.lock == s.lock && n.list == s.list && s.lock != Some(t)) || forall u :: !PostPending(s, u)
    requires PostedOrPending(n, t)
    ensures MarksPosted(n)
  {
    forall u | u in n.threads
      ensures PostedOrPending(n, u)
    {
      assert PostedOrPending(s, u);
    }
  }

  /** Only the lock holder, and never a scanning one, gives the lock up by its own step. */
  lemma OwnStepKeepsMarksPosted(s: State, step: Step)
    requires Inv(s) && OwnStep(step) && Enabled(s, step)
    ensures MarksPosted(Next(s, step))
  {
    hide Next, Enabled, ScansOk, Conserved, LocalInv, OwnStep;
    OwnStepShape(s, step);
    var n, t := Next(s, step), step.t;
    ThreadIsOk(s, t);
    assert PostedOrPending(s, t);
    if s.lock == Some(t) {
      forall u ensures !PostPending(s, u) {
        HolderIsNotPosted(s, t, u);
      }
    }
    OneChangeKeepsMarksPosted(s, n, t);
  }

  lemma ThreadIsOk(s: State, t: Tid)
    requires LocalInv(s) && t in s.threads
    ensures ThreadOk(s.threads[t], s.lock == Some(t), t in s.list)
  {
  }

  /** Steps that need the lock leave no post outstanding. */
  lemma LockedStepKeepsMarksPosted(s: State, step: Step)
    requires Inv(s) && Enabled(s, step) && (step.Check? || step.Remove?)
    ensures MarksPosted(Next(s, step))
  {
    hide ScansOk, Conserved, LocalInv, Eligible, Without;
    var n, t := Next(s, step), step.t;
    ThreadIsOk(s, t);
    forall u ensures !PostPending(s, u) {
      HolderIsNotPosted(s, t, u);
    }
    OneChangeKeepsMarksPosted(s, n, t);
  }

  /** Returning, and the handler, which posts as well. */
  lemma FreeStepKeepsMarksPosted(s: State, step: Step)
    requires Inv(s) && Enabled(s, step) && (step.Return? || step.Handler?)
    ensures MarksPosted(Next(s, step))
  {
    hide ScansOk, Conserved, LocalInv, Eligible;
    var n, t := Next(s, step), step.t;
    ThreadIsOk(s, t);
    if step.Handler? && !s.threads[t].published {
      assert n == s;
    } else {
      if s.lock == Some(t) {
        forall u ensures !PostPending(s, u) {
          HolderIsNotPosted(s, t, u);
        }
      }
      OneChangeKeepsMarksPosted(s, n, t);
    }
  }

  lemma StartScanKeepsMarksPosted(s: State, step: Step)
    requires Inv(s) && step.StartScan? && Enabled(s, step)
    ensures MarksPosted(Next(s, step))
  {
    hide ScansOk, Conserved, Distinct, Eligible, LocalInv;
    OneChangeKeepsMarksPosted(s, Next(s, step), step.t);
  }

  /** A visit posts the waiter it marked before, or marks one and keeps the post outstanding. */
  lemma VisitPosts(w: Thread, p: Phase)
    requires p.Scanning?
    ensures var v, q := VisitWaiter(w, p), VisitPhase(w, p);
            && v.phase == w.phase
            && (p.posting ==> v.semaphore > 0)
            && (!p.posting ==> v.semaphore == w.semaphore && (v.woken && !w.woken ==>
                                 q.Scanning? && q.posting && q.cursor == p.cursor))
  {
    hide Eligible;
  }

  lemma ScanStepKeepsMarksPosted(s: State, t: Tid)
    requires Inv(s) && Enabled(s, ScanStep(t))
    ensures MarksPosted(Scan(s, t))
  {
    hide Conserved, Distinct, Eligible, VisitWaiter, VisitPhase, ScanOk;
    var n, p := Scan(s, t), s.threads[t].phase;
    ScannerHoldsLock(s, t);
    if p.cursor < |s.list| {
      UnderCursor(s, t);
      VisitPosts(s.threads[s.list[p.cursor]], p);
    }
    hide LocalInv, ThreadOk;
    forall u | u in n.threads
      ensures PostedOrPending(n, u)
    {
      assert PostedOrPending(s, u);
    }
  }

  lemma NextKeepsMarksPosted(s: State, step: Step)
    requires Inv(s) && Enabled(s, step)
    ensures MarksPosted(Next(s, step))
  {
    hide Core, MarksPosted;
    if OwnStep(step) {
      OwnStepKeepsMarksPosted(s, step);
    } else if step.StartScan? {
      StartScanKeepsMarksPosted(s, step);
    } else if step.ScanStep? {
      ScanStepKeepsMarksPosted(s, step.t);
    } else if step.Store? {
      StoreKeepsMarksPosted(s, step);
    } else if step.Check? || step.Remove? {
      LockedStepKeepsMarksPosted(s, step);
    } else {
      FreeStepKeepsMarksPosted(s, step);
    }
  }

  lemma StoreKeepsMarksPosted(s: State, step: Step)
    requires MarksPosted(s) && step.Store?
    ensures MarksPosted(Next(s, step))
  {
    forall u | u in s.threads
      ensures PostedOrPending(Next(s, step), u)
    {
      assert PostedOrPending(s, u);
    }
  }

  // ----- safety over whole runs

  lemma NextKeepsCore(s: State, step: Step)
    requires Core(s) && Enabled(s, step)
    ensures Core(Next(s, step))
  {
    if OwnStep(step) {
      OwnStepKeepsCore(s, step);
    } else {
      match step
      case Check(t) => CheckKeepsCore(s, t);
      case Remove(t) => RemoveKeepsCore(s, t);
      case Return(t) => ReturnKeepsCore(s, t);
      case Handler(t) => HandlerKeepsCore(s, t);
      case StartScan(_, _, _) => StartScanKeepsCore(s, step);
      case ScanStep(t) => ScanStepKeepsCore(s, t);
      case Store(_, _) =>
    }
  }

  lemma NextKeepsInv(s: State, step: Step)
    requires Inv(s) && Enabled(s, step)
    ensures Inv(Next(s, step))
  {
    hide Core, MarksPosted, Next, Enabled;
    NextKeepsCore(s, step);
    NextKeepsMarksPosted(s, step);
  }

  lemma InitEstablishesInv(s: State)
    requires Init(s)
    ensures Inv(s)
  {
    assert Woken(s) == {};
  }

  /** A run: each step possible in the state the previous ones produced. */
  ghost predicate Runs(s: State, steps: seq<Step>)
    decreases |steps|
  {
    steps == [] || (Enabled(s, steps[0]) && Runs(Next(s, steps[0]), steps[1..]))
  }

  ghost function Final(s: State, steps: seq<Step>): State
    requires Runs(s, steps)
    decreases |steps|
  {
    if steps == [] then s else Final(Next(s, steps[0]), steps[1..])
  }

  lemma {:induction false} RunKeepsInv(s: State, steps: seq<Step>)
    requires Inv(s) && Runs(s, steps)
    ensures Inv(Final(s, steps))
    decreases |steps|
  {
    hide Inv, Next, Enabled;
    if steps != [] {
      NextKeepsInv(s, steps[0]);
      RunKeepsInv(Next(s, steps[0]), steps[1..]);
    }
  }
}
