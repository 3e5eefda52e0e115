/**
  Thread exit and its joiners (src/guest_thread.c, src/linux_futex.c): the lifecycle and the futex protocol
  run side by side on one memory, and a thread's exit ends with its wake-all.
 */
module ThreadExit {
  import opened Words
  import L = ThreadLifecycle
  import F = FutexProtocol
  import FutexSafety
  import FutexTheorems
  import FutexWait

  type Id = nat

  datatype Joint = Joint(life: L.State, futex: F.State)

  datatype Event =
    | Life(step: L.Step)    // clone, start, exit, guest stores
    | Futex(call: F.Step)   // futex calls of any thread
    | Woken(t: Id)          // the wake-all of an exiting thread returns

  /** The thread has cleared its word and is inside the wake-all that follows. */
  predicate Waking(j: Joint, t: Id) {
    L.ChildAt(j.life, t, L.TidCleared) && j.life.threads[t].clearTid.Some?
  }

  function WakeAll(j: Joint, t: Id): F.Op
    requires Waking(j, t)
  {
    F.Wake(j.life.threads[t].clearTid.value, F.MATCH_ANY, F.INT_MAX)
  }

  predicate Enabled(j: Joint, e: Event) {
    match e
    case Life(step) =>
      L.Enabled(j.life, step) && (step.WakeJoiners? ==> j.life.threads[step.t].clearTid.None?)
    case Futex(call) =>
      && F.Enabled(j.futex, call) && !call.Store?
      && (call.StartScan? && Waking(j, call.t) ==> call.op == WakeAll(j, call.t))
      && (call.FinishScan? ==> !Waking(j, call.t))
    case Woken(t) =>
      Waking(j, t) && F.Enabled(j.futex, F.FinishScan(t)) && j.futex.threads[t].phase.op == WakeAll(j, t)
  }

  function Next(j: Joint, e: Event): Joint
    requires Enabled(j, e)
  {
    match e
    case Life(step) =>
      var w := L.Stored(j.life, step);
      Joint(L.Next(j.life, step), if w.Some? then F.Next(j.futex, F.Store(w.value.0, w.value.1)) else j.futex)
    case Futex(call) => Joint(j.life, F.Next(j.futex, call))
    case Woken(t) => Joint(L.Next(j.life, L.WakeJoiners(t)), F.Next(j.futex, F.FinishScan(t)))
  }

  ghost predicate Inv(j: Joint) {
    L.Inv(j.life) && F.Inv(j.futex) && j.life.memory == j.futex.memory
  }

  ghost predicate Init(j: Joint) {
    L.Init(j.life) && F.Init(j.futex) && j.life.memory == j.futex.memory
  }

  /** Only a store changes the futex protocol's memory. */
  lemma FutexKeepsMemory(s: F.State, call: F.Step)
    requires F.Enabled(s, call) && !call.Store?
    ensures F.Next(s, call).memory == s.memory
  {
    hide F.Advance, F.Without, F.VisitWaiter, F.VisitPhase, F.CountEligible;
  }

  lemma LifeMemory(s: L.State, step: L.Step)
    requires L.Enabled(s, step)
    ensures L.Next(s, step).memory == L.MemoryAfter(s, step)
  {
    hide L.Advance, L.Without;
  }

  lemma NextKeepsInv(j: Joint, e: Event)
    requires Inv(j) && Enabled(j, e)
    ensures Inv(Next(j, e))
  {
    hide L.Inv, F.Inv, L.Enabled, F.Enabled, L.Next, F.Next, L.Stored;
    match e
    case Life(step) =>
      L.NextKeepsInv(j.life, step);
      LifeMemory(j.life, step);
      var w := L.Stored(j.life, step);
      if w.Some? {
        StoreMemory(j.futex, w.value.0, w.value.1);
      }
    case Futex(call) =>
      FutexSafety.NextKeepsInv(j.futex, call);
      FutexKeepsMemory(j.futex, call);
    case Woken(t) =>
      WakingIsEnabled(j, t);
      L.NextKeepsInv(j.life, L.WakeJoiners(t));
      LifeMemory(j.life, L.WakeJoiners(t));
      NoStore(j.life, t);
      FutexSafety.NextKeepsInv(j.futex, F.FinishScan(t));
      FutexKeepsMemory(j.futex, F.FinishScan(t));
  }

  lemma StoreMemory(s: F.State, address: Word, value: Word)
    requires F.Inv(s)
    ensures F.Enabled(s, F.Store(address, value)) && F.Inv(F.Next(s, F.Store(address, value)))
    ensures F.Next(s, F.Store(address, value)).memory == s.memory[address := value]
  {
    hide F.Inv;
    FutexSafety.NextKeepsInv(s, F.Store(address, value));
  }

  lemma WakingIsEnabled(j: Joint, t: Id)
    requires Waking(j, t)
    ensures L.Enabled(j.life, L.WakeJoiners(t))
  {
  }

  lemma NoStore(s: L.State, t: Id)
    requires L.Enabled(s, L.WakeJoiners(t))
    ensures L.Stored(s, L.WakeJoiners(t)).None?
  {
  }

  // ----- runs

  ghost predicate Runs(j: Joint, events: seq<Event>)
    decreases |events|
  {
    events == [] || (Enabled(j, events[0]) && Runs(Next(j, events[0]), events[1..]))
  }

  ghost function Final(j: Joint, events: seq<Event>): Joint
    requires Runs(j, events)
    decreases |events|
  {
    if events == [] then j else Final(Next(j, events[0]), events[1..])
  }

  /** Nobody else stores into t's word, nobody requeues onto it, and fewer than INT_MAX threads wait on it. */
  ghost predicate Respects(j: Joint, e: Event, t: Id, w: Word)
    requires Enabled(j, e)
  {
    t in j.life.threads ==>
      match e
      case Life(step) =>
        L.Stored(j.life, step).Some? && L.Stored(j.life, step).value.0 == w ==> L.ObjectStep(step) && step.t == t
      case Futex(call) => !FutexTheorems.Disturbs(call, w)
      case Woken(u) => u == t ==> j.futex.threads[t].phase.eligible < F.INT_MAX
  }

  ghost predicate Undisturbed(j: Joint, events: seq<Event>, t: Id, w: Word)
    requires Runs(j, events)
    decreases |events|
  {
    events == [] || (Respects(j, events[0], t, w) && Undisturbed(Next(j, events[0]), events[1..], t, w))
  }

  /** The thread has exited through its wake-all on w. */
  predicate Departed(s: L.State, t: Id, w: Word) {
    t in s.threads && L.Past(s.threads[t].child, L.Woken) && s.threads[t].clearTid == Some(w)
  }

  ghost predicate JoinOk(j: Joint, t: Id, w: Word) {
    L.WordOk(j.life, t, w) && (Departed(j.life, t, w) ==> FutexTheorems.Retired(j.futex, w))
  }

  lemma LastSteps(th: L.Thread, listed: bool, step: L.Step)
    requires L.ObjectStep(step) && L.ThreadOk(th, listed) && L.StartsFrom(th, step)
    requires L.Past(L.Advance(th, step).child, L.Woken)
    ensures step.WakeJoiners? || step.Free?
    ensures L.Advance(th, step).clearTid == th.clearTid
  {
  }

  /** Only the end of the wake-all makes a thread with a clear word depart. */
  lemma DepartsByWaking(s: L.State, step: L.Step, t: Id, w: Word)
    requires L.Inv(s) && L.Enabled(s, step) && Departed(L.Next(s, step), t, w)
    requires step.WakeJoiners? && step.t == t ==> s.threads[t].clearTid.None?
    ensures Departed(s, t, w)
    ensures L.ObjectStep(step) && step.t == t ==> L.Stored(s, step).None?
  {
    hide L.Without, L.MemoryAfter, L.Advance, L.ThreadOk, L.StartsFrom, L.Past;
    if L.ObjectStep(step) && step.t == t {
      L.EnabledStarts(s, step);
      LastSteps(s.threads[t], t in s.registry, step);
      if step.Free? {
        FreeIsLast(s.threads[t], step);
      }
    } else if t !in s.threads {
      NewThreadStays(s, step, t, w);
    }
  }

  lemma FreeIsLast(th: L.Thread, step: L.Step)
    requires step.Free? && L.StartsFrom(th, step)
    ensures L.Past(th.child, L.Woken)
  {
  }

  lemma NewThreadStays(s: L.State, step: L.Step, t: Id, w: Word)
    requires L.Enabled(s, step) && t !in s.threads
    ensures !Departed(L.Next(s, step), t, w)
  {
    hide L.Without, L.MemoryAfter, L.Advance;
  }

  lemma LifeKeepsJoinOk(j: Joint, step: L.Step, t: Id, w: Word)
    requires Inv(j) && Enabled(j, Life(step)) && Respects(j, Life(step), t, w) && JoinOk(j, t, w)
    ensures JoinOk(Next(j, Life(step)), t, w)
  {
    hide L.Inv, F.Inv, L.Enabled, F.Enabled, L.Next, F.Next, L.Stored, L.WordOk, FutexTheorems.Retired, L.Past,
         Departed;
    L.StepKeepsWord(j.life, step, t, w);
    if Departed(L.Next(j.life, step), t, w) {
      DepartsByWaking(j.life, step, t, w);
      DepartedExists(j.life, t, w);
      var s := L.Stored(j.life, step);
      if s.Some? {
        StoreMemory(j.futex, s.value.0, s.value.1);
        FutexTheorems.RetiredIsStable(j.futex, F.Store(s.value.0, s.value.1), w);
      }
    }
  }

  lemma DepartedExists(s: L.State, t: Id, w: Word)
    requires Departed(s, t, w)
    ensures t in s.threads
  {
  }

  lemma FutexKeepsJoinOk(j: Joint, call: F.Step, t: Id, w: Word)
    requires Inv(j) && Enabled(j, Futex(call)) && Respects(j, Futex(call), t, w) && JoinOk(j, t, w)
    ensures JoinOk(Next(j, Futex(call)), t, w)
  {
    hide L.Inv, F.Inv, F.Enabled, F.Next, L.WordOk, FutexTheorems.Retired, L.Past;
    if Departed(j.life, t, w) {
      FutexTheorems.RetiredIsStable(j.futex, call, w);
    }
  }

  lemma NotDisturbing(t: Id, w: Word)
    ensures !FutexTheorems.Disturbs(F.FinishScan(t), w)
  {
  }

  lemma WokenKeepsJoinOk(j: Joint, u: Id, t: Id, w: Word)
    requires Inv(j) && Enabled(j, Woken(u)) && Respects(j, Woken(u), t, w) && JoinOk(j, t, w)
    ensures JoinOk(Next(j, Woken(u)), t, w)
  {
    hide L.Inv, F.Inv, F.Enabled, F.Next, L.Enabled, L.Next, L.Stored, L.WordOk, FutexTheorems.Retired, Departed,
         Waking;
    WakingIsEnabled(j, u);
    NoStore(j.life, u);
    NotDisturbing(u, w);
    L.StepKeepsWord(j.life, L.WakeJoiners(u), t, w);
    if Departed(L.Next(j.life, L.WakeJoiners(u)), t, w) {
      if u == t {
        WakeAllRetires(j, t, w);
      } else {
        DepartsByWaking(j.life, L.WakeJoiners(u), t, w);
      }
      FutexTheorems.RetiredIsStable(j.futex, F.FinishScan(u), w);
    }
  }

  lemma WakeAllRetires(j: Joint, t: Id, w: Word)
    requires Inv(j) && Enabled(j, Woken(t)) && Respects(j, Woken(t), t, w) && L.WordOk(j.life, t, w)
    requires L.Enabled(j.life, L.WakeJoiners(t)) && Departed(L.Next(j.life, L.WakeJoiners(t)), t, w)
    ensures FutexTheorems.Retired(j.futex, w)
  {
    hide L.Inv, F.Inv, FutexTheorems.Retired, L.Without, L.MemoryAfter;
    FutexTheorems.WakeAllRetiresWord(j.futex, t, w);
  }

  lemma {:induction false} RunKeepsJoinOk(j: Joint, events: seq<Event>, t: Id, w: Word)
    requires Inv(j) && Runs(j, events) && Undisturbed(j, events, t, w) && JoinOk(j, t, w)
    ensures Inv(Final(j, events)) && JoinOk(Final(j, events), t, w)
    decreases |events|
  {
    hide Inv, Next, Enabled, JoinOk, Respects;
    if events != [] {
      var e := events[0];
      NextKeepsInv(j, e);
      match e {
        case Life(step) => LifeKeepsJoinOk(j, step, t, w);
        case Futex(call) => FutexKeepsJoinOk(j, call, t, w);
        case Woken(u) => WokenKeepsJoinOk(j, u, t, w);
      }
      RunKeepsJoinOk(Next(j, e), events[1..], t, w);
    }
  }

  lemma InitIsOk(j: Joint, t: Id, w: Word)
    requires Init(j)
    ensures Inv(j) && JoinOk(j, t, w)
  {
    FutexSafety.InitEstablishesInv(j.futex);
    hide F.Inv;
  }

  /**
    After a thread has exited through its wake-all, in every run: its word is 0, its stack is unmapped, it is
    off the registry, and no joiner that expects its TID is left unmarked on the word.
   */
  lemma ExitReleasesJoiners(j: Joint, events: seq<Event>, t: Id, w: Word)
    requires Init(j) && Runs(j, events) && Undisturbed(j, events, t, w)
    requires Departed(Final(j, events).life, t, w)
    ensures var f := Final(j, events);
            && Load(f.futex.memory, w) == 0 && FutexTheorems.Retired(f.futex, w)
            && !f.life.threads[t].unmapPending && t !in f.life.registry
  {
    hide Runs, Final, Undisturbed, Next, Enabled, F.Inv, FutexTheorems.Retired;
    InitIsOk(j, t, w);
    RunKeepsJoinOk(j, events, t, w);
  }

  // ----- an exit comes to its end

  /** Futex steps of a scan, as events of the joint system. */
  function AsEvents(steps: seq<F.Step>): seq<Event> {
    seq(|steps|, i requires 0 <= i < |steps| => Futex(steps[i]))
  }

  lemma {:induction false} ScanLifts(j: Joint, t: Id, steps: seq<F.Step>)
    requires FutexSafety.Runs(j.futex, steps) && forall i :: 0 <= i < |steps| ==> steps[i] == F.ScanStep(t)
    ensures Runs(j, AsEvents(steps))
    ensures Final(j, AsEvents(steps)) == Joint(j.life, FutexSafety.Final(j.futex, steps))
    decreases |steps|
  {
    hide F.Enabled, F.Next;
    if steps != [] {
      assert AsEvents(steps)[1..] == AsEvents(steps[1..]);
      ScanLifts(Joint(j.life, F.Next(j.futex, steps[0])), t, steps[1..]);
    }
  }

  lemma {:induction false} RunsConcat(j: Joint, a: seq<Event>, b: seq<Event>)
    requires Runs(j, a) && Runs(Final(j, a), b)
    ensures Runs(j, a + b) && Final(j, a + b) == Final(Final(j, a), b)
    decreases |a|
  {
    hide Enabled, Next;
    if a == [] {
      assert a + b == b;
    } else {
      RunsConcat(Next(j, a[0]), a[1..], b);
      assert (a + b)[1..] == a[1..] + b;
    }
  }

  lemma OneEvent(j: Joint, e: Event)
    requires Enabled(j, e)
    ensures Runs(j, [e]) && Final(j, [e]) == Next(j, e)
  {
    hide Enabled, Next;
    assert [e][1..] == [];
  }

  /** The wake-all, up to where it would let go of the lock. */
  lemma WakeAllScans(j: Joint, t: Id) returns (events: seq<Event>, b: Joint)
    requires Inv(j) && Waking(j, t) && F.InPhase(j.futex, t, F.Idle) && j.futex.lock.None?
    ensures Runs(j, events) && Final(j, events) == b && b.life == j.life && F.Inv(b.futex)
    ensures t in b.futex.threads && b.futex.threads[t].phase.Scanned? && b.futex.threads[t].phase.op == WakeAll(j, t)
    ensures b.futex.lock == Some(t) && MarksFirst(j.futex, WakeAll(j, t), b.futex)
  {
    hide L.Inv, F.Inv, F.Enabled, F.Next, L.Next, Runs, Final, FutexWait.Chosen;
    var op := WakeAll(j, t);
    FutexWait.InvParts(j.futex);
    FutexWait.CanStart(j.futex, t, op);
    var start := F.StartScan(t, op, None);
    OneEvent(j, Futex(start));
    var a := Next(j, Futex(start));
    FutexSafety.NextKeepsInv(j.futex, start);
    FutexWait.ScannerStarts(j.futex, t, op, None);
    var scan := FutexWait.ScanCompletes(a.futex, t);
    FutexWait.ScanPicksExactly(j.futex, t, op, None, scan);
    OpStays(j.futex, t, op, scan);
    ScanLifts(a, t, scan);
    RunsConcat(j, [Futex(start)], AsEvents(scan));
    events, b := [Futex(start)] + AsEvents(scan), Final(a, AsEvents(scan));
  }

  /** Between the two states exactly the first waiters have been marked. */
  ghost predicate MarksFirst(s: F.State, op: F.Op, f: F.State) {
    && f.list == s.list && F.Closed(s.threads, s.list) && F.Closed(f.threads, f.list)
    && forall i :: 0 <= i < |s.list| ==>
         (f.threads[f.list[i]].woken <==> s.threads[s.list[i]].woken || FutexWait.Chosen(s, op, i))
  }

  /**
    A thread that has cleared its TID word and finds the futex lock free can finish its exit by its own steps: the
    wake-all runs to its end, and every joiner that was asleep on the word, with any bitset, is marked, up to INT_MAX.
   */
  lemma WakeAllCanFinish(j: Joint, t: Id) returns (events: seq<Event>)
    requires Inv(j) && Waking(j, t) && F.InPhase(j.futex, t, F.Idle) && j.futex.lock.None?
    ensures Runs(j, events)
    ensures var f := Final(j, events);
            Departed(f.life, t, j.life.threads[t].clearTid.value) && MarksFirst(j.futex, WakeAll(j, t), f.futex)
  {
    hide L.Inv, F.Inv, F.Enabled, F.Next, L.Next, Runs, Final, FutexWait.Chosen;
    var scan, b := WakeAllScans(j, t);
    FutexWait.Finishes(b.futex, t);
    OneEvent(b, Woken(t));
    WokenDeparts(b, t);
    RunsConcat(j, scan, [Woken(t)]);
    events := scan + [Woken(t)];
  }

  lemma OpStays(s: F.State, t: Id, op: F.Op, scan: seq<F.Step>)
    requires F.Inv(s) && F.Enabled(s, F.StartScan(t, op, None))
    requires FutexSafety.Runs(F.Next(s, F.StartScan(t, op, None)), scan) && F.FinishScan(t) !in scan
    requires var f := FutexSafety.Final(F.Next(s, F.StartScan(t, op, None)), scan);
             t in f.threads && f.threads[t].phase.Scanned?
    ensures FutexSafety.Final(F.Next(s, F.StartScan(t, op, None)), scan).threads[t].phase.op == op
  {
    hide F.Inv, F.Next, F.Enabled, FutexSafety.Runs, FutexSafety.Final;
    FutexWait.InvParts(s);
    FutexWait.StartSoFar(s, t, op, None);
    FutexSafety.NextKeepsInv(s, F.StartScan(t, op, None));
    FutexWait.RunSoFar(s, F.Next(s, F.StartScan(t, op, None)), scan, t, op);
  }

  lemma WokenDeparts(b: Joint, t: Id)
    requires Enabled(b, Woken(t))
    ensures var n := Next(b, Woken(t));
            && Departed(n.life, t, b.life.threads[t].clearTid.value) && n.futex == F.Next(b.futex, F.FinishScan(t))
  {
    hide F.Next, F.Enabled;
  }
}
