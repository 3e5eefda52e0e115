/**
  What waits and wakes do for each other (src/linux_futex.c): a wait sleeps exactly when the word matches, a scan
  picks exactly the first waiters that are eligible, and a waiter that was picked returns 0.
 */
module FutexWait {
  import opened Words
  import opened FutexProtocol
  import opened FutexSafety
  import opened FutexTheorems
  import opened FutexProgress

  // ----- entering a wait

  /** The steps of `futex_wait` up to its semaphore wait. */
  function EnterSteps(t: Tid, address: Word, expected: Word, bitset: bv32): seq<Step> {
    [BeginWait(t, address, expected, bitset), AcquireToCheck(t), Check(t), ClearFlag(t), Publish(t), Unlock(t)]
  }

  /** A fresh waiter inside its semaphore wait. */
  function Asleep(address: Word, expected: Word, bitset: bv32): Thread {
    Thread(Sleeping, address, expected, bitset, false, 0, true, true, false, NoError)
  }

  /** One step more at the end of a run. */
  lemma {:induction false} Continue(s: State, path: seq<Step>, m: State, step: Step)
    requires Runs(s, path) && Final(s, path) == m
    ensures Runs(s, path + [step]) <==> Enabled(m, step)
    ensures Enabled(m, step) ==> Final(s, path + [step]) == Next(m, step)
    decreases |path|
  {
    hide Enabled, Next;
    if path == [] {
      assert path + [step] == [step] && [step][1..] == [];
    } else {
      assert (path + [step])[1..] == path[1..] + [step];
      Continue(Next(s, path[0]), path[1..], m, step);
    }
  }

  lemma {:induction false} Prefix(s: State, path: seq<Step>, rest: seq<Step>)
    requires Runs(s, path + rest)
    ensures Runs(s, path)
    decreases |path|
  {
    hide Enabled, Next;
    if path != [] {
      assert (path + rest)[1..] == path[1..] + rest;
      Prefix(Next(s, path[0]), path[1..], rest);
    }
  }

  /** The word is compared under the lock; a match queues the thread at the head, a mismatch ends the call. */
  lemma CheckDecides(s: State, t: Tid)
    requires InPhase(s, t, Checking)
    ensures var n := Next(s, Check(t));
            if Load(s.memory, s.threads[t].address) == s.threads[t].expected
            then InPhase(n, t, Enqueued) && n == s.(threads := n.threads, list := [t] + s.list)
            else InPhase(n, t, Idle) && n == s.(threads := n.threads, lock := None)
  {
  }

  /** One own step more, with its effect on the state. */
  lemma ContinueOwn(s: State, path: seq<Step>, m: State, step: Step) returns (n: State)
    requires Runs(s, path) && Final(s, path) == m && OwnStep(step) && Enabled(m, step)
    ensures !step.Store? && step.t in m.threads && (step.SemaphoreTaken? ==> m.threads[step.t].semaphore > 0)
    ensures n == m.(threads := m.threads[step.t := Advance(m.threads[step.t], step)], lock := LockAfter(m.lock, step))
    ensures Runs(s, path + [step]) && Final(s, path + [step]) == n
  {
    hide Runs, Final, Enabled, Next, Advance, LockAfter;
    OwnNext(m, step);
    Continue(s, path, m, step);
    n := Next(m, step);
  }

  lemma IdleIsQuiet(s: State, t: Tid)
    requires Inv(s) && InPhase(s, t, Idle)
    ensures !s.threads[t].published && !s.threads[t].live && t !in s.list && s.lock != Some(t)
  {
    hide ScansOk, Conserved, MarksPosted, LocalInv;
    ThreadIsOk(s, t);
  }

  /** A waiter about to compare the word. */
  function AtCheck(w: Thread, address: Word, expected: Word, bitset: bv32): Thread {
    Thread(Checking, address, expected, bitset, false, 0, true, false, w.interrupted, NoError)
  }

  /** Up to the comparison. */
  lemma WaitReachesCheck(s: State, t: Tid, address: Word, expected: Word, bitset: bv32)
    requires Inv(s) && InPhase(s, t, Idle) && s.lock.None? && bitset != 0
    ensures var steps, w := EnterSteps(t, address, expected, bitset), AtCheck(s.threads[t], address, expected, bitset);
            Runs(s, steps[..2]) && Final(s, steps[..2]) == s.(threads := s.threads[t := w], lock := Some(t))
  {
    hide Inv, Runs, Final, Next;
    IdleIsQuiet(s, t);
    NoSteps(s);
    var begin := BeginWait(t, address, expected, bitset);
    var a := ContinueOwn(s, [], s, begin);
    var b := ContinueOwn(s, [] + [begin], a, AcquireToCheck(t));
    assert [] + [begin] + [AcquireToCheck(t)] == EnterSteps(t, address, expected, bitset)[..2];
    assert b.threads == s.threads[t := AtCheck(s.threads[t], address, expected, bitset)];
  }

  /** From the list to the semaphore wait. */
  lemma QueuedFallsAsleep(s: State, path: seq<Step>, m: State, t: Tid)
    requires Runs(s, path) && Final(s, path) == m && InPhase(m, t, Enqueued)
    ensures Runs(s, path + [ClearFlag(t), Publish(t), Unlock(t)])
    ensures Final(s, path + [ClearFlag(t), Publish(t), Unlock(t)])
         == m.(threads := m.threads[t := m.threads[t].(phase := Sleeping, interrupted := false, published := true)],
               lock := None)
  {
    hide Runs, Final, Next;
    var a := ContinueOwn(s, path, m, ClearFlag(t));
    var b := ContinueOwn(s, path + [ClearFlag(t)], a, Publish(t));
    var c := ContinueOwn(s, path + [ClearFlag(t)] + [Publish(t)], b, Unlock(t));
    assert path + [ClearFlag(t)] + [Publish(t)] + [Unlock(t)] == path + [ClearFlag(t), Publish(t), Unlock(t)];
    assert c.threads == m.threads[t := m.threads[t].(phase := Sleeping, interrupted := false, published := true)];
  }

  /** How a wait that matches, and one that does not, leave the state. */
  ghost predicate WaitDecided(s: State, t: Tid, address: Word, expected: Word, bitset: bv32)
    requires t in s.threads
  {
    var steps := EnterSteps(t, address, expected, bitset);
    && Runs(s, steps[..3])
    && (Runs(s, steps) <==> Load(s.memory, address) == expected)
    && (Runs(s, steps) ==>
          Final(s, steps) == s.(threads := s.threads[t := Asleep(address, expected, bitset)], list := [t] + s.list))
    && (Load(s.memory, address) != expected ==>
          var f := Final(s, steps[..3]);
          InPhase(f, t, Idle) && f == s.(threads := s.threads[t := f.threads[t]]))
  }

  /**
    From every reachable state with the lock free, an idle thread's own steps through `futex_wait` lead into the
    semaphore wait, at the head of the list, if and only if the word has the expected value; otherwise the
    comparison ends the call and nothing but the thread's own record has changed.
   */
  lemma WaitSleepsIffWordMatches(start: State, history: seq<Step>, t: Tid, address: Word, expected: Word, bitset: bv32)
    requires Init(start) && Runs(start, history)
    requires var s := Final(start, history); InPhase(s, t, Idle) && s.lock.None? && bitset != 0
    ensures WaitDecided(Final(start, history), t, address, expected, bitset)
  {
    hide Inv, Init, Runs, Final;
    InitEstablishesInv(start);
    RunKeepsInv(start, history);
    WaitFromInv(Final(start, history), t, address, expected, bitset);
  }

  lemma WaitFromInv(s: State, t: Tid, address: Word, expected: Word, bitset: bv32)
    requires Inv(s) && InPhase(s, t, Idle) && s.lock.None? && bitset != 0
    ensures WaitDecided(s, t, address, expected, bitset)
  {
    hide Inv, Runs, Final, Next, Enabled;
    if Load(s.memory, address) == expected {
      MatchSleeps(s, t, address, expected, bitset);
    } else {
      MismatchEnds(s, t, address, expected, bitset);
    }
  }

  lemma MatchSleeps(s: State, t: Tid, address: Word, expected: Word, bitset: bv32)
    requires Inv(s) && InPhase(s, t, Idle) && s.lock.None? && bitset != 0 && Load(s.memory, address) == expected
    ensures var steps := EnterSteps(t, address, expected, bitset);
            && Runs(s, steps[..3]) && Runs(s, steps)
            && Final(s, steps) == s.(threads := s.threads[t := Asleep(address, expected, bitset)], list := [t] + s.list)
  {
    hide Inv, Runs, Final;
    var steps := EnterSteps(t, address, expected, bitset);
    WaitReachesCheck(s, t, address, expected, bitset);
    var m := Final(s, steps[..2]);
    Continue(s, steps[..2], m, Check(t));
    assert steps[..2] + [Check(t)] == steps[..3];
    var n := Next(m, Check(t));
    QueuedFallsAsleep(s, steps[..3], n, t);
    assert steps[..3] + [ClearFlag(t), Publish(t), Unlock(t)] == steps;
    assert Final(s, steps).threads == s.threads[t := Asleep(address, expected, bitset)];
  }

  lemma MismatchEnds(s: State, t: Tid, address: Word, expected: Word, bitset: bv32)
    requires Inv(s) && InPhase(s, t, Idle) && s.lock.None? && bitset != 0 && Load(s.memory, address) != expected
    ensures var steps := EnterSteps(t, address, expected, bitset);
            && Runs(s, steps[..3]) && !Runs(s, steps)
            && var f := Final(s, steps[..3]);
               InPhase(f, t, Idle) && f == s.(threads := s.threads[t := f.threads[t]])
  {
    hide Inv, Runs, Final;
    var steps := EnterSteps(t, address, expected, bitset);
    WaitReachesCheck(s, t, address, expected, bitset);
    var m := Final(s, steps[..2]);
    Continue(s, steps[..2], m, Check(t));
    assert steps[..2] + [Check(t)] == steps[..3];
    var n := Next(m, Check(t));
    assert n.threads == s.threads[t := n.threads[t]];
    Continue(s, steps[..3], n, ClearFlag(t));
    if Runs(s, steps) {
      assert steps == (steps[..3] + [ClearFlag(t)]) + [Publish(t), Unlock(t)];
      Prefix(s, steps[..3] + [ClearFlag(t)], [Publish(t), Unlock(t)]);
    }
  }

  // ----- who is on the list

  /** Reference meaning of the list: the last comparison of t matched, and t has not been removed since. */
  ghost predicate Waits(s: State, steps: seq<Step>, t: Tid, was: bool)
    requires Runs(s, steps)
    decreases |steps|
  {
    if steps == [] then was
    else
      Waits(Next(s, steps[0]), steps[1..], t,
            if steps[0] == Check(t) then Load(s.memory, s.threads[t].address) == s.threads[t].expected
            else if steps[0] == Remove(t) then false
            else was)
  }

  lemma ListAfter(s: State, step: Step, t: Tid)
    requires Inv(s) && Enabled(s, step)
    ensures t in Next(s, step).list
       <==> if step == Check(t) then Load(s.memory, s.threads[t].address) == s.threads[t].expected
            else if step == Remove(t) then false
            else t in s.list
  {
    hide ScansOk, Conserved, MarksPosted, Without, CountEligible, ThreadOk;
    if OwnStep(step) {
      OwnNext(s, step);
    } else if step.Remove? {
      WithoutMembers(s.list, step.t, t);
    } else if step.Check? {
      CheckingIsOffList(s, step.t);
    } else if step.ScanStep? {
      hide Scan;
      ScanPerThread(s, step.t, step.t);
    }
  }

  lemma CheckingIsOffList(s: State, t: Tid)
    requires LocalInv(s) && InPhase(s, t, Checking)
    ensures t !in s.list
  {
    ThreadIsOk(s, t);
  }

  /** Over every interleaving a thread is on the list exactly when its last comparison matched and it has not left. */
  lemma {:induction false} ListHoldsTheWaiting(s: State, steps: seq<Step>, t: Tid)
    requires Inv(s) && Runs(s, steps)
    ensures t in Final(s, steps).list <==> Waits(s, steps, t, t in s.list)
    decreases |steps|
  {
    hide Inv, Next, Enabled;
    if steps != [] {
      NextKeepsInv(s, steps[0]);
      ListAfter(s, steps[0], t);
      ListHoldsTheWaiting(Next(s, steps[0]), steps[1..], t);
    }
  }

  // ----- which waiters a scan picks

  /** How many eligible waiters stand before position j. */
  ghost function Rank(s: State, op: Op, j: nat): nat
    requires Closed(s.threads, s.list) && j <= |s.list|
  {
    CountEligible(s.threads, s.list[..j], op)
  }

  /** The waiter at position j is among the first `count` eligible ones. */
  ghost predicate Chosen(s: State, op: Op, j: nat)
    requires Closed(s.threads, s.list) && j < |s.list|
  {
    Eligible(s.threads[s.list[j]], op) && Rank(s, op, j) < op.count
  }

  /** The waiter at position j is among the next `requeueCount` eligible ones. */
  ghost predicate Moved(s: State, op: Op, j: nat)
    requires Closed(s.threads, s.list) && j < |s.list|
  {
    op.Requeue? && Eligible(s.threads[s.list[j]], op) && op.count <= Rank(s, op, j) < op.count + op.requeueCount
  }

  lemma {:induction false} CountSnoc(threads: map<Tid, Thread>, list: seq<Tid>, u: Tid, op: Op)
    requires Closed(threads, list + [u])
    ensures Closed(threads, list)
    ensures u in threads && CountEligible(threads, list + [u], op)
                            == CountEligible(threads, list, op) + if Eligible(threads[u], op) then 1 else 0
    decreases |list|
  {
    hide Eligible;
    assert (list + [u])[|list|] == u;
    assert forall i :: 0 <= i < |list| ==> (list + [u])[i] == list[i];
    if list == [] {
      assert list + [u] == [u] && [u][1..] == [];
    } else {
      assert (list + [u])[1..] == list[1..] + [u];
      CountSnoc(threads, list[1..], u, op);
    }
  }

  lemma RankNext(s: State, op: Op, j: nat)
    requires Closed(s.threads, s.list) && j < |s.list|
    ensures Rank(s, op, j + 1) == Rank(s, op, j) + if Eligible(s.threads[s.list[j]], op) then 1 else 0
  {
    hide Eligible, CountEligible;
    assert s.list[..j + 1] == s.list[..j] + [s.list[j]];
    CountSnoc(s.threads, s.list[..j], s.list[j], op);
  }

  lemma {:induction false} RankGrows(s: State, op: Op, i: nat, j: nat)
    requires Closed(s.threads, s.list) && i <= j <= |s.list|
    ensures Rank(s, op, i) <= Rank(s, op, j)
    decreases j - i
  {
    hide Rank, Eligible;
    if i < j {
      RankGrows(s, op, i, j - 1);
      RankNext(s, op, j - 1);
    }
  }

  /** How a waiter looks once the scan has dealt with position j: marked if chosen, moved if due, else as it was. */
  ghost predicate DealtWith(s: State, op: Op, j: nat, v: Thread)
    requires Closed(s.threads, s.list) && j < |s.list|
  {
    var w := s.threads[s.list[j]];
    && v.bitset == w.bitset && v.woken == (w.woken || Chosen(s, op, j))
    && v.address == if Moved(s, op, j) then op.second else w.address
  }

  predicate SameKey(w: Thread, v: Thread) {
    v.bitset == w.bitset && v.woken == w.woken && v.address == w.address
  }

  /** How far the scan has dealt with the list. */
  function DealtUpTo(p: Phase, length: nat): nat {
    if p.Scanning? then p.cursor + (if p.posting then 1 else 0) else length
  }

  /** What a scan has counted after it dealt with `rank` eligible waiters. */
  predicate Counted(p: Phase, op: Op, rank: nat)
    requires p.Scanning?
  {
    && p.woken + (if p.posting then 1 else 0) == Min(op.count, rank)
    && p.requeued == Min(RequeueLimit(op), rank - Min(op.count, rank))
    && (p.posting ==> p.requeued == 0)
  }

  /** The scan of t that began in s, wherever it is: it has dealt with a prefix of the list and counted it right. */
  ghost predicate ScanSoFar(s: State, m: State, t: Tid, op: Op)
    requires Closed(s.threads, s.list)
  {
    && m.list == s.list && m.lock == Some(t) && Closed(m.threads, m.list) && t in m.threads
    && var p := m.threads[t].phase;
       && ScanPhase(p) && p.op == op
       && var done := DealtUpTo(p, |s.list|);
          && done <= |s.list|
          && (p.Scanning? ==> Counted(p, op, Rank(s, op, done)))
          && (forall j :: 0 <= j < done ==> DealtWith(s, op, j, m.threads[m.list[j]]))
          && (forall j :: done <= j < |s.list| ==> SameKey(s.threads[s.list[j]], m.threads[m.list[j]]))
  }

  lemma StartSoFar(s: State, t: Tid, op: Op, compare: Option<Word>)
    requires Inv(s) && Enabled(s, StartScan(t, op, compare))
    ensures ScanSoFar(s, Next(s, StartScan(t, op, compare)), t, op)
  {
    hide ScansOk, Conserved, MarksPosted, Distinct, ThreadOk, Eligible;
    var n := Next(s, StartScan(t, op, compare));
    assert s.list[..0] == [];
    assert Rank(s, op, 0) == 0;
  }

  /** Beyond the limits nothing is chosen and nothing moved. */
  lemma RestUntouched(s: State, op: Op, done: nat, j: nat, v: Thread)
    requires Closed(s.threads, s.list) && done <= j < |s.list|
    requires Rank(s, op, done) >= op.count + RequeueLimit(op) && SameKey(s.threads[s.list[j]], v)
    ensures DealtWith(s, op, j, v)
  {
    hide Rank, Eligible;
    RankGrows(s, op, done, j);
  }

  /** One visit deals with the waiter under the cursor, and a scan that stops has reached its limits. */
  lemma VisitDeals(s: State, op: Op, p: Phase, w: Thread)
    requires Closed(s.threads, s.list) && p.Scanning? && p.op == op && p.cursor < |s.list|
    requires Counted(p, op, Rank(s, op, DealtUpTo(p, |s.list|)))
    requires if p.posting then DealtWith(s, op, p.cursor, w) else SameKey(s.threads[s.list[p.cursor]], w)
    ensures DealtWith(s, op, p.cursor, VisitWaiter(w, p))
    ensures var q := VisitPhase(w, p);
            && ScanPhase(q) && q.op == op
            && (q.Scanning? ==>
                  DealtUpTo(q, |s.list|) == p.cursor + 1 && Counted(q, op, Rank(s, op, p.cursor + 1)))
            && (q.Scanned? ==> Rank(s, op, p.cursor + 1) >= op.count + RequeueLimit(op))
  {
    hide Rank, Meets;
    RankNext(s, op, p.cursor);
  }

  /** What a scan step leaves of the others. */
  lemma VisitNext(m: State, t: Tid)
    requires Enabled(m, ScanStep(t)) && m.threads[t].phase.cursor < |m.list| && t !in m.list && Distinct(m.list)
    ensures var n, p := Next(m, ScanStep(t)), m.threads[t].phase;
            var w := m.threads[m.list[p.cursor]];
            && n.list == m.list && n.lock == m.lock && n.threads.Keys == m.threads.Keys
            && n.threads[m.list[p.cursor]] == VisitWaiter(w, p) && n.threads[t].phase == VisitPhase(w, p)
            && forall j :: 0 <= j < |m.list| && j != p.cursor ==> n.threads[m.list[j]] == m.threads[m.list[j]]
  {
    hide VisitWaiter, VisitPhase;
    var c := m.threads[t].phase.cursor;
    assert m.list[c] in m.list;
    forall j | 0 <= j < |m.list| && j != c
      ensures Next(m, ScanStep(t)).threads[m.list[j]] == m.threads[m.list[j]]
    {
      assert m.list[j] in m.list && m.list[j] != m.list[c];
    }
  }

  /** The scan step of t deals with one more waiter. */
  lemma ScanStepSoFar(s: State, m: State, t: Tid, op: Op)
    requires Closed(s.threads, s.list) && ScanSoFar(s, m, t, op) && Enabled(m, ScanStep(t))
    requires t !in m.list && Distinct(m.list)
    ensures ScanSoFar(s, Next(m, ScanStep(t)), t, op)
  {
    hide Rank, DealtWith, SameKey, Counted;
    var p := m.threads[t].phase;
    if p.cursor < |m.list| {
      hide Next, VisitWaiter, VisitPhase, Enabled;
      var w := m.threads[m.list[p.cursor]];
      VisitDeals(s, op, p, w);
      VisitNext(m, t);
      if VisitPhase(w, p).Scanned? {
        forall j | p.cursor + 1 <= j < |s.list| ensures DealtWith(s, op, j, m.threads[m.list[j]]) {
          RestUntouched(s, op, p.cursor + 1, j, m.threads[m.list[j]]);
        }
      }
    }
  }

  /** While t holds the lock for its scan, nobody else changes the list or what the scan looks at. */
  ghost predicate Frozen(m: State, n: State, t: Tid)
    requires t in m.threads && Closed(m.threads, m.list)
  {
    && n.list == m.list && n.lock == m.lock && n.threads.Keys == m.threads.Keys
    && n.threads[t].phase == m.threads[t].phase
    && forall j :: 0 <= j < |m.list| ==> SameKey(m.threads[m.list[j]], n.threads[m.list[j]])
  }

  lemma OthersLeaveScan(m: State, step: Step, t: Tid)
    requires Inv(m) && t in m.threads && ScanPhase(m.threads[t].phase) && Enabled(m, step)
    requires step != ScanStep(t) && step != FinishScan(t)
    ensures Closed(m.threads, m.list) && Frozen(m, Next(m, step), t)
  {
    hide Inv, Frozen, Next, Enabled, ScanPhase, OwnStep;
    InvParts(m);
    ScannerHoldsLock(m, t);
    if OwnStep(step) {
      OwnStepLeavesScan(m, step, t);
    } else {
      OtherStepLeavesScan(m, step, t);
    }
  }

  lemma InvParts(m: State)
    requires Inv(m)
    ensures LocalInv(m) && Closed(m.threads, m.list) && Distinct(m.list)
  {
  }

  lemma OwnStepLeavesScan(m: State, step: Step, t: Tid)
    requires LocalInv(m) && t in m.threads && ScanPhase(m.threads[t].phase) && m.lock == Some(t)
    requires OwnStep(step) && Enabled(m, step) && step != FinishScan(t)
    ensures Closed(m.threads, m.list) && Frozen(m, Next(m, step), t)
  {
    hide Next, Enabled, LocalInv, ThreadOk;
    InvList(m);
    OwnStepShape(m, step);
    OwnStepStarts(m, step);
    forall j | 0 <= j < |m.list| ensures SameKey(m.threads[m.list[j]], Next(m, step).threads[m.list[j]]) {
      assert m.list[j] in m.list;
    }
  }

  lemma InvList(m: State)
    requires LocalInv(m)
    ensures Closed(m.threads, m.list)
  {
  }

  lemma OtherStepLeavesScan(m: State, step: Step, t: Tid)
    requires LocalInv(m) && t in m.threads && ScanPhase(m.threads[t].phase) && m.lock == Some(t)
    requires !OwnStep(step) && Enabled(m, step) && step != ScanStep(t)
    ensures Closed(m.threads, m.list) && Frozen(m, Next(m, step), t)
  {
    hide LocalInv, CountEligible, Without, Scan;
    InvList(m);
    if step.Check? || step.Remove? || step.ScanStep? || step.Return? {
      ThreadIsOk(m, step.t);
    }
  }

  lemma FrozenSoFar(s: State, m: State, n: State, t: Tid, op: Op)
    requires Closed(s.threads, s.list) && ScanSoFar(s, m, t, op) && Frozen(m, n, t)
    ensures ScanSoFar(s, n, t, op)
  {
    hide Rank, Counted, Chosen, Moved;
  }

  lemma {:induction false} RunSoFar(s: State, m: State, steps: seq<Step>, t: Tid, op: Op)
    requires Closed(s.threads, s.list) && Inv(m) && ScanSoFar(s, m, t, op)
    requires Runs(m, steps) && FinishScan(t) !in steps
    ensures ScanSoFar(s, Final(m, steps), t, op) && Inv(Final(m, steps))
    decreases |steps|
  {
    hide Inv, Next, Enabled, ScanSoFar;
    if steps != [] {
      var step := steps[0];
      assert step in steps;
      NextKeepsInv(m, step);
      StepSoFar(s, m, step, t, op);
      RunSoFar(s, Next(m, step), steps[1..], t, op);
    }
  }

  lemma StepSoFar(s: State, m: State, step: Step, t: Tid, op: Op)
    requires Closed(s.threads, s.list) && Inv(m) && ScanSoFar(s, m, t, op) && Enabled(m, step) && step != FinishScan(t)
    ensures ScanSoFar(s, Next(m, step), t, op)
  {
    hide Inv, Next, Enabled;
    InvParts(m);
    if step == ScanStep(t) {
      hide Rank, DealtWith, SameKey, Counted;
      OffItsList(m, t);
      ScanStepSoFar(s, m, t, op);
    } else {
      hide Rank, DealtWith, SameKey, Counted;
      OthersLeaveScan(m, step, t);
      FrozenSoFar(s, m, Next(m, step), t, op);
    }
  }

  lemma OffItsList(m: State, t: Tid)
    requires LocalInv(m) && t in m.threads && ScanPhase(m.threads[t].phase)
    ensures t !in m.list
  {
    ThreadIsOk(m, t);
  }

  /**
    Over every interleaving of other threads, handlers, stores and timeouts, a finished scan has marked exactly the
    first `count` eligible waiters of the list it found, moved exactly the next `requeueCount` of them to the second
    address, and left all others alone.
   */
  lemma ScanPicksExactly(s: State, t: Tid, op: Op, compare: Option<Word>, steps: seq<Step>)
    requires Inv(s) && Enabled(s, StartScan(t, op, compare))
    requires Runs(Next(s, StartScan(t, op, compare)), steps) && FinishScan(t) !in steps
    requires var f := Final(Next(s, StartScan(t, op, compare)), steps); t in f.threads && f.threads[t].phase.Scanned?
    ensures Closed(s.threads, s.list)
    ensures var f := Final(Next(s, StartScan(t, op, compare)), steps);
            && f.list == s.list && Closed(f.threads, f.list)
            && forall j :: 0 <= j < |s.list| ==>
                 var w, v := s.threads[s.list[j]], f.threads[s.list[j]];
                 && (v.woken <==> w.woken || Chosen(s, op, j))
                 && v.address == (if Moved(s, op, j) then op.second else w.address)
  {
    hide Inv, Next, Enabled, Runs, Final, Rank, Chosen, Moved, Counted;
    InvParts(s);
    StartSoFar(s, t, op, compare);
    NextKeepsInv(s, StartScan(t, op, compare));
    RunSoFar(s, Next(s, StartScan(t, op, compare)), steps, t, op);
    var f := Final(Next(s, StartScan(t, op, compare)), steps);
    forall j | 0 <= j < |s.list| ensures DealtWith(s, op, j, f.threads[f.list[j]]) {
    }
  }

  // ----- a wake as a run of its own

  /** A scan runs to its end by its own steps. */
  lemma {:induction false} ScanCompletes(m: State, t: Tid) returns (steps: seq<Step>)
    requires Inv(m) && t in m.threads && ScanPhase(m.threads[t].phase)
    ensures Runs(m, steps) && AllUnaided(steps, t) && FinishScan(t) !in steps && Inv(Final(m, steps))
    ensures forall i :: 0 <= i < |steps| ==> steps[i] == ScanStep(t)
    ensures var f := Final(m, steps); t in f.threads && f.threads[t].phase.Scanned? && f.lock == Some(t)
    decreases if t in m.threads then HoldLeft(m.threads[t].phase, |m.list|) else 0
  {
    hide Inv, Next, Enabled, Runs, Final, HoldLeft;
    InvParts(m);
    ScannerHoldsLock(m, t);
    NoSteps(m);
    steps := [];
    if m.threads[t].phase.Scanning? {
      HolderIsEnabled(m, t);
      HolderProgresses(m, t);
      NextKeepsInv(m, ScanStep(t));
      var n := Next(m, ScanStep(t));
      StillScans(m, t);
      var rest := ScanCompletes(n, t);
      RunsCons(m, ScanStep(t), rest);
      steps := [ScanStep(t)] + rest;
    }
  }

  lemma StillScans(m: State, t: Tid)
    requires Enabled(m, ScanStep(t))
    ensures t in Next(m, ScanStep(t)).threads && ScanPhase(Next(m, ScanStep(t)).threads[t].phase)
  {
    hide Scan;
    ScanPerThread(m, t, t);
  }

  /** A wake or requeue of an idle thread, run to its end: which waiters it marked, and that the lock is free again. */
  lemma ScanRuns(s: State, t: Tid, op: Op, compare: Option<Word>) returns (steps: seq<Step>)
    requires Inv(s) && Enabled(s, StartScan(t, op, compare))
    ensures Runs(s, steps) && AllUnaided(steps, t) && Closed(s.threads, s.list)
    ensures var f := Final(s, steps);
            && Inv(f) && f.lock.None? && f.list == s.list && Closed(f.threads, f.list)
            && forall j :: 0 <= j < |s.list| ==>
                 (f.threads[s.list[j]].woken <==> s.threads[s.list[j]].woken || Chosen(s, op, j))
  {
    hide Inv, Next, Enabled, Runs, Final, Rank, Chosen, Moved;
    var start := StartScan(t, op, compare);
    NextKeepsInv(s, start);
    InvParts(s);
    ScannerStarts(s, t, op, compare);
    var n := Next(s, start);
    var scan := ScanCompletes(n, t);
    ScanPicksExactly(s, t, op, compare, scan);
    var f := Final(n, scan);
    RunsCons(s, start, scan);
    Finishes(f, t);
    NextKeepsInv(f, FinishScan(t));
    Continue(s, [start] + scan, f, FinishScan(t));
    steps := [start] + scan + [FinishScan(t)];
    InvParts(Next(f, FinishScan(t)));
  }

  lemma ScannerStarts(s: State, t: Tid, op: Op, compare: Option<Word>)
    requires Enabled(s, StartScan(t, op, compare))
    ensures var n := Next(s, StartScan(t, op, compare)); t in n.threads && ScanPhase(n.threads[t].phase)
  {
  }

  lemma Finishes(f: State, t: Tid)
    requires t in f.threads && f.threads[t].phase.Scanned? && f.lock == Some(t) && Closed(f.threads, f.list)
    ensures Enabled(f, FinishScan(t))
    ensures var n := Next(f, FinishScan(t));
            && n.lock.None? && n.list == f.list && n.threads.Keys == f.threads.Keys
            && forall u :: u in f.threads ==> n.threads[u].woken == f.threads[u].woken
  {
  }

  /**
    Whoever goes to sleep on a word that matches and is then the target of a wake of that word, with a bitset in
    common and a count of at least one, returns 0: newcomers stand at the head of the list, so nobody is picked first.
   */
  lemma WaitThenWakeReturnsZero(start: State, history: seq<Step>, t: Tid, waker: Tid, address: Word, expected: Word,
                                bitset: bv32, wake: Op)
    returns (steps: seq<Step>, out: seq<Step>)
    requires Init(start) && Runs(start, history) && t != waker && bitset != 0
    requires var s := Final(start, history);
             InPhase(s, t, Idle) && InPhase(s, waker, Idle) && s.lock.None? && Load(s.memory, address) == expected
    requires wake.Wake? && wake.address == address && Meets(bitset, wake.bitset) && wake.count >= 1
    ensures var s := Final(start, history);
            var both := EnterSteps(t, address, expected, bitset) + steps;
            && AllUnaided(steps, waker) && AllUnaided(out, t) && Runs(s, both) && Runs(s, both + out)
            && t in Woken(Final(s, both)) && t !in Woken(Final(s, both + out))
            && Final(s, both + out).zeros == Final(s, both).zeros + 1
  {
    hide Inv, Init, Next, Enabled, Runs, Final, Rank, Moved;
    InitEstablishesInv(start);
    RunKeepsInv(start, history);
    var s := Final(start, history);
    var enter := EnterSteps(t, address, expected, bitset);
    WaitFromInv(s, t, address, expected, bitset);
    RunKeepsInv(s, enter);
    var a := Final(s, enter);
    InvParts(a);
    CanStart(a, waker, wake);
    steps := ScanRuns(a, waker, wake, None);
    HeadIsChosen(a, t, wake);
    var b := Final(a, steps);
    RunsConcat(s, enter, steps);
    assert b.list[0] == t && b.threads[b.list[0]].woken;
    out := MarkedWaiterReturnsZero(b, t);
    RunsConcat(s, enter + steps, out);
  }

  lemma CanStart(s: State, t: Tid, op: Op)
    requires InPhase(s, t, Idle) && s.lock.None? && Closed(s.threads, s.list)
    ensures Enabled(s, StartScan(t, op, None))
  {
  }

  lemma HeadIsChosen(s: State, t: Tid, op: Op)
    requires Closed(s.threads, s.list) && s.list != [] && s.list[0] == t
    requires Eligible(s.threads[t], op) && op.count >= 1
    ensures Chosen(s, op, 0)
  {
    assert s.list[..0] == [];
  }

  // ----- a wait that is not woken

  /** A sleeper can go on exactly when it was marked or interrupted: there are no other wake-ups. */
  lemma SleeperWakesIffMarkedOrInterrupted(s: State, u: Tid)
    requires Inv(s) && InPhase(s, u, Sleeping) && s.lock.None?
    ensures Enabled(s, SemaphoreTaken(u)) <==> s.threads[u].woken || s.threads[u].interrupted
  {
    hide ScansOk, Conserved, LocalInv;
    ThreadIsOk(s, u);
    assert PostedOrPending(s, u);
  }

  /** From the end of the semaphore wait to the return. */
  function LeaveSteps(u: Tid): seq<Step> {
    [Withdraw(u), ReadFlag(u), AcquireToLeave(u), Remove(u), UnlockAfterRemove(u), Destroy(u)]
  }

  /** The record a wait returns with: a handler that ran counts as an error only if there was none. */
  function Left(w: Thread): Thread {
    w.(phase := Destroyed, live := false, published := false, interrupted := false,
       error := if w.interrupted && w.error == NoError then Interrupted else w.error)
  }

  /** The record of a waiter that holds the lock to leave. */
  function AtRemove(w: Thread): Thread {
    Left(w).(phase := Removing, live := w.live)
  }

  lemma AwakeAdvances(w: Thread, u: Tid)
    requires w.phase.Awake?
    ensures var a := Advance(w, Withdraw(u));
            var b := Advance(a, ReadFlag(u));
            a.phase.Withdrawn? && b.phase.Leaving? && Advance(b, AcquireToLeave(u)) == AtRemove(w)
  {
  }

  lemma AwakeLocks(s: State, path: seq<Step>, m: State, u: Tid)
    requires Runs(s, path) && Final(s, path) == m && InPhase(m, u, Awake) && m.lock.None?
    ensures var steps := path + [Withdraw(u), ReadFlag(u), AcquireToLeave(u)];
            && Runs(s, steps)
            && Final(s, steps) == m.(threads := m.threads[u := AtRemove(m.threads[u])], lock := Some(u))
  {
    hide Runs, Final, Next, Advance, AtRemove;
    AwakeAdvances(m.threads[u], u);
    var a := ContinueOwn(s, path, m, Withdraw(u));
    var b := ContinueOwn(s, path + [Withdraw(u)], a, ReadFlag(u));
    var c := ContinueOwn(s, path + [Withdraw(u)] + [ReadFlag(u)], b, AcquireToLeave(u));
    assert path + [Withdraw(u)] + [ReadFlag(u)] + [AcquireToLeave(u)]
        == path + [Withdraw(u), ReadFlag(u), AcquireToLeave(u)];
    assert c.threads == m.threads[u := AtRemove(m.threads[u])];
  }

  lemma AwakeLeaves(s: State, path: seq<Step>, m: State, u: Tid)
    requires Runs(s, path) && Final(s, path) == m && InPhase(m, u, Awake) && m.lock.None?
    ensures Runs(s, path + LeaveSteps(u))
    ensures Final(s, path + LeaveSteps(u))
         == m.(threads := m.threads[u := Left(m.threads[u])], list := Without(m.list, u))
  {
    hide Runs, Final, Without, Next, Enabled;
    AwakeLocks(s, path, m, u);
    var half := path + [Withdraw(u), ReadFlag(u), AcquireToLeave(u)];
    var c := Final(s, half);
    LockedLeaves(s, half, c, u);
    assert half + [Remove(u), UnlockAfterRemove(u), Destroy(u)] == path + LeaveSteps(u);
    assert c.threads[u := Left(m.threads[u])] == m.threads[u := Left(m.threads[u])];
  }

  lemma LockedLeaves(s: State, path: seq<Step>, m: State, u: Tid)
    requires Runs(s, path) && Final(s, path) == m && InPhase(m, u, Removing)
    ensures var steps := path + [Remove(u), UnlockAfterRemove(u), Destroy(u)];
            && Runs(s, steps)
            && Final(s, steps) == m.(threads := m.threads[u := m.threads[u].(phase := Destroyed, live := false)],
                                     list := Without(m.list, u), lock := None)
  {
    hide Runs, Final, Without, Next;
    Continue(s, path, m, Remove(u));
    var a := RemoveNext(m, u);
    var b := ContinueOwn(s, path + [Remove(u)], a, UnlockAfterRemove(u));
    var c := ContinueOwn(s, path + [Remove(u)] + [UnlockAfterRemove(u)], b, Destroy(u));
    assert path + [Remove(u)] + [UnlockAfterRemove(u)] + [Destroy(u)]
        == path + [Remove(u), UnlockAfterRemove(u), Destroy(u)];
    assert c.threads == m.threads[u := m.threads[u].(phase := Destroyed, live := false)];
  }

  lemma RemoveNext(m: State, u: Tid) returns (n: State)
    requires InPhase(m, u, Removing)
    ensures Enabled(m, Remove(u)) && n == Next(m, Remove(u))
    ensures n == m.(threads := m.threads[u := m.threads[u].(phase := Removed)], list := Without(m.list, u))
  {
    hide Without;
    n := Next(m, Remove(u));
  }

  /** A signal handler that runs while its thread sleeps ends the wait: with EINTR, or with 0 if it was marked too. */
  lemma HandlerEndsWait(s: State, u: Tid)
    requires Inv(s) && InPhase(s, u, Sleeping) && s.lock.None?
    ensures var steps := [Handler(u), SemaphoreTaken(u)] + LeaveSteps(u);
            && Runs(s, steps) && InPhase(Final(s, steps), u, Destroyed)
            && var v := Final(s, steps).threads[u]; v.error == Interrupted && (ReturnsZero(v) <==> s.threads[u].woken)
  {
    hide Inv, Runs, Final, Without;
    SleeperIsPublished(s, u);
    NoSteps(s);
    Continue(s, [], s, Handler(u));
    var a := Next(s, Handler(u));
    Continue(s, [] + [Handler(u)], a, SemaphoreTaken(u));
    var b := Next(a, SemaphoreTaken(u));
    assert [] + [Handler(u)] + [SemaphoreTaken(u)] == [Handler(u), SemaphoreTaken(u)];
    AwakeLeaves(s, [Handler(u), SemaphoreTaken(u)], b, u);
  }

  /** A semaphore wait that fails, by timeout or otherwise, ends the wait with that error, or with 0 if marked. */
  lemma FailureEndsWait(s: State, u: Tid, error: Error)
    requires Inv(s) && InPhase(s, u, Sleeping) && s.lock.None? && error != NoError
    ensures var steps := [SemaphoreFails(u, error)] + LeaveSteps(u);
            && Runs(s, steps) && InPhase(Final(s, steps), u, Destroyed)
            && var v := Final(s, steps).threads[u]; v.error == error && (ReturnsZero(v) <==> s.threads[u].woken)
  {
    hide Inv, Runs, Final, Without;
    NoSteps(s);
    Continue(s, [], s, SemaphoreFails(u, error));
    assert [] + [SemaphoreFails(u, error)] == [SemaphoreFails(u, error)];
    AwakeLeaves(s, [SemaphoreFails(u, error)], Next(s, SemaphoreFails(u, error)), u);
  }

  lemma SleeperIsPublished(s: State, u: Tid)
    requires Inv(s) && InPhase(s, u, Sleeping)
    ensures s.threads[u].published
  {
    hide ScansOk, Conserved, MarksPosted, LocalInv;
    ThreadIsOk(s, u);
  }

  // ----- posts

  /** Whoever is about to post, a handler or a scan, finds a live semaphore. */
  lemma PostsHitLiveSemaphores(start: State, history: seq<Step>)
    requires Init(start) && Runs(start, history)
    ensures var s := Final(start, history);
            && Closed(s.threads, s.list)
            && (forall t :: t in s.threads && s.threads[t].published ==> s.threads[t].live)
            && forall t :: t in s.threads && s.threads[t].phase.Scanning? && s.threads[t].phase.posting ==>
                 s.threads[t].phase.cursor < |s.list| && s.threads[s.list[s.threads[t].phase.cursor]].live
  {
    hide Init, Runs, Final, Inv;
    InitEstablishesInv(start);
    RunKeepsInv(start, history);
    var s := Final(start, history);
    InvParts(s);
    forall t | t in s.threads ensures s.threads[t].published ==> s.threads[t].live {
      ThreadIsOk(s, t);
    }
    forall t | t in s.threads && s.threads[t].phase.Scanning? && s.threads[t].phase.posting
      ensures s.threads[t].phase.cursor < |s.list| && s.threads[s.list[s.threads[t].phase.cursor]].live
    {
      PostingScan(s, t);
    }
  }

  lemma PostingScan(s: State, t: Tid)
    requires Inv(s) && t in s.threads && s.threads[t].phase.Scanning? && s.threads[t].phase.posting
    ensures Closed(s.threads, s.list) && s.threads[t].phase.cursor < |s.list|
    ensures s.threads[s.list[s.threads[t].phase.cursor]].live
  {
    hide Conserved, MarksPosted, CountEligible, NoneEligible, LocalInv;
    InvParts(s);
    var c := s.threads[t].phase.cursor;
    assert ScanOk(s, s.threads[t].phase);
    assert s.list[c] in s.list;
    ThreadIsOk(s, s.list[c]);
  }
}
