/**
  Waits with a temporary mask. ppoll and pselect6 (src/guest_thread.c, src/linux_poll.c) publish a wake pipe,
  swap host and software mask, look once at what was already pending, and block on the pipe as well; sigsuspend
  (src/guest_signal.c) swaps the software mask and leaves the host mask and the blocking to the host.
 */
module PollWait {
  import opened Words
  import opened PendingSignals

  datatype Phase =
    | Running                   // before the call
    | PipeMade                  // pipe created, read end stored
    | Published                 // write end stored
    | HostMasked                // temporary mask installed on the host
    | MaskSwapped               // and in the thread's software mask
    | Arming(next: int)         // realtime numbers below `next` looked at
    | Armed                     // ready to enter the host wait
    | Suspending                // software mask swapped, sigsuspend not yet entered
    | Suspended                 // inside sigsuspend
    | Interrupted               // old mask parked for the next delivery
    | Completed                 // old mask reinstalled
    | Closing(interrupted: bool) // host mask put back
    | Ended(interrupted: bool)  // pipe closed, about to return to the caller

  /**
    `mask` is the software mask and `host` the set the host blocks for the thread; `readable` is whether the pipe
    holds a byte, and a full pipe that refuses a byte is readable too. `before`, `hostBefore` and `parked` are the
    masks and the parked mask the wait began with.
   */
  datatype State = State(phase: Phase, pending: Pending, mask: Mask, host: Mask, restore: Option<Mask>,
                         requested: Mask, before: Mask, hostBefore: Mask, parked: Option<Mask>, published: bool,
                         readable: bool)

  datatype Step =
    | MakePipe(requested: Mask)
    | PublishPipe
    | SetHostMask
    | SwapMask
    | LookAtStandard
    | LookAtRealtime
    | HostSignal(number: int, info: Option<Info>) // the host handler, between any two steps
    | WaitEnds(sawPipe: bool)                   // select or poll returned; sawPipe if the pipe was reported
    | HostInterrupts                            // select or poll failed with EINTR
    | RestoreHostMask
    | EndWait
    | GiveUp                                    // the host mask could not be set
    | Suspend(requested: Mask)
    | EnterSuspend
    | SuspendEnds(interrupted: bool)            // sigsuspend failed with EINTR, or otherwise returned

  predicate Enabled(s: State, step: Step) {
    match step
    case MakePipe(_) => s.phase.Running?
    case PublishPipe => s.phase.PipeMade?
    case SetHostMask => s.phase.Published?
    case SwapMask => s.phase.HostMasked?
    case LookAtStandard => s.phase.MaskSwapped?
    case LookAtRealtime => s.phase.Arming?
    case HostSignal(_, _) => true
    case WaitEnds(sawPipe) => s.phase.Armed? && (sawPipe ==> s.readable)
    case HostInterrupts => s.phase.Armed?
    case RestoreHostMask => s.phase.Interrupted? || s.phase.Completed?
    case EndWait => s.phase.Closing?
    case GiveUp => s.phase.Published?
    case Suspend(_) => s.phase.Running?
    case EnterSuspend => s.phase.Suspending?
    case SuspendEnds(_) => s.phase.Suspended?
  }

  /**
    Signals the host handler is ever installed for: SIGILL and SIGSEGV go to the trap handler, SIGKILL and SIGSTOP
    cannot be caught, and the others have no number on the host.
   */
  predicate Catchable(number: int) {
    1 <= number <= LAST_REALTIME && number !in {4, 9, 11, 16, 19}
  }

  /** `linux_set_to_host`, as far as the host handler is concerned. */
  function HostSet(mask: Mask): Mask {
    set n | n in mask && Catchable(n)
  }

  /** The host runs its handler only for a signal it can catch and does not block. */
  predicate Admitted(s: State, step: Step) {
    step.HostSignal? ==> Catchable(step.number) && step.number !in s.host
  }

  /** SIGKILL and SIGSTOP cannot be blocked. */
  function Unblockable(requested: Mask): Mask {
    requested - {9, 19}
  }

  ghost predicate StandardDeliverable(p: Pending, mask: Mask) {
    exists n :: n in p.standard && n !in mask
  }

  ghost function Next(s: State, step: Step): State
    requires Inv(s) && Enabled(s, step)
  {
    match step
    case MakePipe(requested) =>
      s.(phase := PipeMade, requested := Unblockable(requested), before := s.mask, hostBefore := s.host,
         parked := s.restore, readable := false)
    case PublishPipe => s.(phase := Published, published := true)
    case SetHostMask => s.(phase := HostMasked, host := HostSet(s.requested))
    case SwapMask => s.(phase := MaskSwapped, mask := s.requested)
    case LookAtStandard =>
      if StandardDeliverable(s.pending, s.mask) then s.(phase := Armed, readable := true)
      else s.(phase := Arming(FIRST_REALTIME))
    case LookAtRealtime =>
      var n := s.phase.next;
      if !Realtime(n) then s.(phase := Armed)
      else if n !in s.mask && s.pending.queues[n - FIRST_REALTIME] != [] then s.(phase := Armed, readable := true)
      else s.(phase := Arming(n + 1))
    case HostSignal(number, info) =>
      var arrived := s.(pending := Pend(s.pending, number, info));
      if 1 <= number <= 64 && s.published then arrived.(readable := true) else arrived
    case WaitEnds(sawPipe) =>
      if sawPipe then s.(phase := Interrupted, restore := Some(s.before))
      else s.(phase := Completed, restore := None, mask := s.before)
    case HostInterrupts => s.(phase := Interrupted, restore := Some(s.before))
    case RestoreHostMask => s.(phase := Closing(s.phase.Interrupted?), host := s.hostBefore)
    case EndWait => s.(phase := Ended(s.phase.interrupted), published := false)
    case GiveUp => s.(phase := Ended(false), published := false)
    case Suspend(requested) =>
      s.(phase := Suspending, requested := Unblockable(requested), before := s.mask, hostBefore := s.host,
         parked := s.restore, mask := Unblockable(requested))
    case EnterSuspend => s.(phase := Suspended, host := HostSet(s.requested))
    case SuspendEnds(interrupted) =>
      if interrupted then s.(phase := Ended(true), host := s.hostBefore, restore := Some(s.before))
      else s.(phase := Ended(false), host := s.hostBefore, mask := s.before)
  }

  predicate Waiting(p: Phase) {
    p.Published? || p.HostMasked? || p.MaskSwapped? || p.Arming? || p.Armed?
  }

  /** The software mask is the temporary one. */
  predicate OnTemporaryMask(p: Phase) {
    p.MaskSwapped? || p.Arming? || p.Armed? || p.Suspending? || p.Suspended? || p.Interrupted?
  }

  /** The host mask is the temporary one. */
  predicate OnTemporaryHostMask(p: Phase) {
    p.HostMasked? || p.MaskSwapped? || p.Arming? || p.Armed? || p.Suspended? || p.Interrupted? || p.Completed?
  }

  /** No deliverable realtime signal among the numbers already looked at. */
  ghost predicate NoneBelow(s: State, next: int)
    requires Shape(s.pending)
  {
    forall n :: FIRST_REALTIME <= n < next && Realtime(n) ==> n in s.mask || s.pending.queues[n - FIRST_REALTIME] == []
  }

  ghost predicate Inv(s: State) {
    Shape(s.pending) && MasksOk(s) && WakeOk(s)
  }

  predicate MasksOk(s: State) {
    && (s.phase.PipeMade? || s.phase.Published? || s.phase.HostMasked? ==> s.mask == s.before)
    && (OnTemporaryMask(s.phase) ==> s.mask == s.requested)
    && (!s.phase.Running? ==> s.host == if OnTemporaryHostMask(s.phase) then HostSet(s.requested) else s.hostBefore)
    && (Waiting(s.phase) || s.phase.PipeMade? || s.phase.Suspending? || s.phase.Suspended? ==> s.restore == s.parked)
    && (s.phase.Completed? ==> s.mask == s.before && s.restore.None?)
    && (s.phase.Interrupted? ==> s.restore == Some(s.before))
    && (s.phase.Closing? || s.phase.Ended? ==> Settled(s, s.phase.interrupted))
  }

  /** Once the looks are behind it, the pipe of a wait is readable or nothing is deliverable. */
  ghost predicate WakeOk(s: State)
    requires Shape(s.pending)
  {
    && (Waiting(s.phase) ==> s.published)
    && (s.phase.Arming? ==> FIRST_REALTIME <= s.phase.next <= LAST_REALTIME + 1)
    && (s.phase.Arming? && !s.readable ==> !StandardDeliverable(s.pending, s.mask) && NoneBelow(s, s.phase.next))
    && (s.phase.Armed? && !s.readable ==> forall n :: !Deliverable(s.pending, s.mask, n))
  }

  /**
    What a wait leaves its caller with: the old mask, and no parked mask or the one that was there; or, when it was
    interrupted, the temporary mask with the old one parked for the next delivery.
   */
  predicate Settled(s: State, interrupted: bool) {
    if interrupted then s.mask == s.requested && s.restore == Some(s.before)
    else s.mask == s.before && (s.restore.None? || s.restore == s.parked)
  }

  lemma NextKeepsMasks(s: State, step: Step)
    requires Inv(s) && Enabled(s, step)
    ensures MasksOk(Next(s, step))
  {
    hide WakeOk, StandardDeliverable, Shape, Pend;
  }

  lemma NextKeepsWake(s: State, step: Step)
    requires Inv(s) && Enabled(s, step) && Shape(Next(s, step).pending)
    ensures WakeOk(Next(s, step))
  {
    hide MasksOk;
    if step.LookAtRealtime? && !s.readable && s.phase.next > LAST_REALTIME {
      forall n ensures !Deliverable(s.pending, s.mask, n) {
      }
    }
  }

  lemma NextKeepsShape(s: State, step: Step)
    requires Inv(s) && Enabled(s, step)
    ensures Shape(Next(s, step).pending)
  {
    hide MasksOk, WakeOk, Shape, Pend, StandardDeliverable;
    if step.HostSignal? {
      PendKeepsShape(s.pending, step.number, step.info);
    }
  }

  lemma NextKeepsInv(s: State, step: Step)
    requires Inv(s) && Enabled(s, step)
    ensures Inv(Next(s, step))
  {
    hide Enabled, Next, MasksOk, WakeOk;
    NextKeepsShape(s, step);
    NextKeepsMasks(s, step);
    NextKeepsWake(s, step);
  }

  ghost predicate Runs(s: State, steps: seq<Step>)
    requires Inv(s)
    decreases |steps|
  {
    steps == [] ||
    (Enabled(s, steps[0]) && (NextKeepsInv(s, steps[0]); Runs(Next(s, steps[0]), steps[1..])))
  }

  ghost function Final(s: State, steps: seq<Step>): (f: State)
    requires Inv(s) && Runs(s, steps)
    ensures Inv(f)
    decreases |steps|
  {
    if steps == [] then s
    else
      NextKeepsInv(s, steps[0]);
      Final(Next(s, steps[0]), steps[1..])
  }

  /**
    No wake-up is lost: whenever the call is about to block, for every arrival time of every signal, a
    signal the temporary mask lets through is matched by a readable pipe.
   */
  lemma {:induction false} NoLostWakeup(s: State, steps: seq<Step>)
    requires s.phase.Running? && Shape(s.pending) && !s.published
    ensures Inv(s)
    ensures Runs(s, steps) && Final(s, steps).phase.Armed? ==>
              var f := Final(s, steps);
              f.mask == f.requested && (f.readable || forall n :: !Deliverable(f.pending, f.requested, n))
  {
    assert Inv(s);
  }

  /**
    However the wait went, the caller finds its masks settled, `before` is the mask it had, and the host blocks what
    it blocked before the call, even where the temporary software mask stays.
   */
  lemma {:induction false} WaitSettlesMasks(s: State, steps: seq<Step>)
    requires s.phase.Running? && Shape(s.pending) && !s.published
    ensures Inv(s)
    ensures Runs(s, steps) && Final(s, steps).phase.Ended? ==>
              var f := Final(s, steps);
              && Settled(f, f.phase.interrupted) && f.before == s.mask && f.parked == s.restore
              && f.host == s.host
  {
    assert Inv(s);
    if Runs(s, steps) {
      StartIsRemembered(s, s, steps);
    }
  }

  /** The masks and the parked mask at the start of the wait, wherever it is. */
  predicate Remembers(start: State, s: State) {
    if s.phase.Running? then s.mask == start.mask && s.host == start.host && s.restore == start.restore
    else s.before == start.mask && s.hostBefore == start.host && s.parked == start.restore
  }

  lemma {:induction false} StartIsRemembered(start: State, s: State, steps: seq<Step>)
    requires Inv(s) && Runs(s, steps) && Remembers(start, s)
    ensures Remembers(start, Final(s, steps))
    decreases |steps|
  {
    hide Enabled, Remembers, Next, Settled, NoneBelow, StandardDeliverable, Deliverable;
    if steps != [] {
      NextKeepsInv(s, steps[0]);
      NextRemembers(start, s, steps[0]);
      StartIsRemembered(start, Next(s, steps[0]), steps[1..]);
    }
  }

  lemma NextRemembers(start: State, s: State, step: Step)
    requires Inv(s) && Enabled(s, step) && Remembers(start, s)
    ensures Remembers(start, Next(s, step))
  {
  }

  // ----- runs the host can have

  /** Every arrival is one the host admits where it happens. */
  ghost predicate HostAdmits(s: State, steps: seq<Step>)
    requires Inv(s) && Runs(s, steps)
    decreases |steps|
  {
    steps == [] ||
    (Admitted(s, steps[0]) && (NextKeepsInv(s, steps[0]); HostAdmits(Next(s, steps[0]), steps[1..])))
  }

  lemma {:induction false} RunsConcat(s: State, a: seq<Step>, b: seq<Step>)
    requires Inv(s) && Runs(s, a) && Runs(Final(s, a), b)
    ensures Runs(s, a + b) && Final(s, a + b) == Final(Final(s, a), b)
    ensures HostAdmits(s, a + b) <==> HostAdmits(s, a) && HostAdmits(Final(s, a), b)
    decreases |a|
  {
    hide Enabled, Admitted, Next, Inv;
    if a == [] {
      assert a + b == b;
    } else {
      NextKeepsInv(s, a[0]);
      RunsConcat(Next(s, a[0]), a[1..], b);
      assert (a + b)[1..] == a[1..] + b;
    }
  }

  lemma OneStep(s: State, step: Step)
    requires Inv(s) && Enabled(s, step)
    ensures Inv(Next(s, step)) && Runs(s, [step]) && Final(s, [step]) == Next(s, step)
    ensures HostAdmits(s, [step]) <==> Admitted(s, step)
  {
    hide Inv, Enabled, Admitted, Next;
    NextKeepsInv(s, step);
    assert [step][1..] == [];
  }

  /** A run the host can have from s to f. */
  ghost predicate Reaches(s: State, steps: seq<Step>, f: State) {
    Inv(s) && Runs(s, steps) && HostAdmits(s, steps) && Final(s, steps) == f
  }

  lemma MoveOn(start: State, path: seq<Step>, s: State, step: Step) returns (steps: seq<Step>, n: State)
    requires Reaches(start, path, s) && Enabled(s, step) && Admitted(s, step)
    ensures steps == path + [step] && Inv(s) && n == Next(s, step) && Inv(n) && Reaches(start, steps, n)
  {
    hide Inv, Enabled, Admitted, Next, Runs, HostAdmits, Final;
    OneStep(s, step);
    RunsConcat(start, path, [step]);
    steps, n := path + [step], Next(s, step);
  }

  // ----- a wait that is woken for nothing

  /** With nothing deliverable the looks at the rings come to the armed state. */
  lemma {:induction false} LooksEnd(start: State, path: seq<Step>, s: State) returns (steps: seq<Step>)
    requires Reaches(start, path, s)
    requires Inv(s) && s.phase.Arming? && forall n :: !Deliverable(s.pending, s.mask, n)
    ensures Reaches(start, steps, s.(phase := Armed)) && Inv(s.(phase := Armed))
    decreases LAST_REALTIME + 1 - s.phase.next
  {
    hide Reaches;
    var n;
    assert !Deliverable(s.pending, s.mask, s.phase.next);
    steps, n := MoveOn(start, path, s, LookAtRealtime);
    if s.phase.next <= LAST_REALTIME {
      steps := LooksEnd(start, steps, n);
    }
  }

  /** The first half of such a wait: the signal arrives between the published pipe and the host mask. */
  lemma EarlyArrival(s: State, requested: Mask, signal: int) returns (steps: seq<Step>, n: State)
    requires s.phase.Running? && Shape(s.pending) && !s.published
    requires Catchable(signal) && signal !in s.host
    ensures Reaches(s, steps, n) && Inv(n) && n.phase.MaskSwapped? && n.readable && n.mask == Unblockable(requested)
    ensures n.requested == n.mask && n.before == s.mask && n.hostBefore == s.host
    ensures n.pending == Pend(s.pending, signal, None)
  {
    assert Reaches(s, [], s);
    hide Reaches, Inv, Pend;
    steps, n := MoveOn(s, [], s, MakePipe(requested));
    steps, n := MoveOn(s, steps, n, PublishPipe);
    steps, n := MoveOn(s, steps, n, HostSignal(signal, None));
    steps, n := MoveOn(s, steps, n, SetHostMask);
    steps, n := MoveOn(s, steps, n, SwapMask);
  }

  /**
    A signal the host does not block yet and the temporary mask blocks arrives after the pipe is published and before
    the host mask is set: it wakes the wait, which ends interrupted with nothing to deliver.
   */
  lemma SpuriousWait(s: State, requested: Mask, signal: int) returns (steps: seq<Step>)
    requires s.phase.Running? && Shape(s.pending) && !s.published
    requires Standard(signal) && Catchable(signal) && signal !in s.host && signal in Unblockable(requested)
    requires forall n :: !Deliverable(s.pending, Unblockable(requested), n)
    ensures Inv(s) && Runs(s, steps) && HostAdmits(s, steps)
    ensures var f := Final(s, steps);
            && f.phase == Ended(true) && f.mask == Unblockable(requested) && f.restore == Some(s.mask)
            && f.requested == f.mask && f.before == s.mask && f.host == s.host
            && f.pending == Pend(s.pending, signal, None) && forall n :: !Deliverable(f.pending, f.mask, n)
  {
    hide Inv, Runs, HostAdmits, Final, Pend;
    var n;
    steps, n := EarlyArrival(s, requested, signal);
    BlockedArrival(s.pending, Unblockable(requested), signal);
    NoStandard(n.pending, n.mask);
    steps, n := MoveOn(s, steps, n, LookAtStandard);
    steps := LooksEnd(s, steps, n);
    n := n.(phase := Armed);
    steps, n := MoveOn(s, steps, n, WaitEnds(true));
    steps, n := MoveOn(s, steps, n, RestoreHostMask);
    steps, n := MoveOn(s, steps, n, EndWait);
  }

  lemma BlockedArrival(p: Pending, mask: Mask, signal: int)
    requires Shape(p) && signal in mask && forall n :: !Deliverable(p, mask, n)
    ensures Shape(Pend(p, signal, None)) && forall n :: !Deliverable(Pend(p, signal, None), mask, n)
  {
    PendKeepsShape(p, signal, None);
    forall n ensures !Deliverable(Pend(p, signal, None), mask, n) {
      assert !Deliverable(p, mask, n);
    }
  }

  lemma NoStandard(p: Pending, mask: Mask)
    requires Shape(p) && forall n :: !Deliverable(p, mask, n)
    ensures !StandardDeliverable(p, mask)
  {
    assert forall n :: n in p.standard && n !in mask ==> Deliverable(p, mask, n);
  }

  // ----- sigsuspend and what is already pending

  /** Signals that the host admits one after the other while its mask is that of s. */
  ghost predicate Early(s: State, arrivals: seq<Step>) {
    forall i :: 0 <= i < |arrivals| ==> arrivals[i].HostSignal? && Admitted(s, arrivals[i])
  }

  ghost predicate Arrives(arrivals: seq<Step>, n: int) {
    exists i :: 0 <= i < |arrivals| && arrivals[i].HostSignal? && arrivals[i].number == n
  }

  /** sigsuspend with the signals that arrive between its two mask changes. */
  function SuspendSteps(requested: Mask, arrivals: seq<Step>): seq<Step> {
    [Suspend(requested)] + (arrivals + [EnterSuspend])
  }

  /** With these arrivals sigsuspend falls asleep although n is pending and its mask lets n through. */
  ghost predicate SleepsOn(s: State, requested: Mask, arrivals: seq<Step>, n: int)
    requires Inv(s)
  {
    var steps := SuspendSteps(requested, arrivals);
    && Early(s, arrivals) && Runs(s, steps) && HostAdmits(s, steps)
    && Final(s, steps).phase.Suspended? && Deliverable(Final(s, steps).pending, Final(s, steps).mask, n)
  }

  lemma PendAdds(p: Pending, signal: int, info: Option<Info>, n: int)
    requires Shape(p) && Catchable(signal)
    ensures Shape(Pend(p, signal, info))
    ensures Deliverable(Pend(p, signal, info), {}, n) <==> Deliverable(p, {}, n) || n == signal
  {
    PendKeepsShape(p, signal, info);
  }

  lemma ArrivalStep(s: State, a: Step, n: int)
    requires Inv(s) && s.phase.Suspending? && a.HostSignal? && Catchable(a.number)
    ensures Inv(Next(s, a)) && Next(s, a).phase.Suspending?
    ensures var m := Next(s, a);
            && m.mask == s.mask && m.requested == s.requested && m.host == s.host
            && (Deliverable(m.pending, {}, n) <==> Deliverable(s.pending, {}, n) || n == a.number)
  {
    hide Pend, Catchable;
    NextKeepsInv(s, a);
    PendAdds(s.pending, a.number, a.info, n);
  }

  lemma ArrivesFirst(arrivals: seq<Step>, n: int)
    requires arrivals != [] && arrivals[0].HostSignal?
    ensures Arrives(arrivals, n) <==> n == arrivals[0].number || Arrives(arrivals[1..], n)
  {
    assert arrivals == [arrivals[0]] + arrivals[1..];
  }

  lemma NoArrival(n: int)
    ensures !Arrives([], n)
  {
  }

  lemma Arrived(n: int)
    ensures Arrives([HostSignal(n, None)], n)
  {
    assert [HostSignal(n, None)][0].HostSignal?;
  }

  lemma ArrivedFrom(s: State, arrivals: seq<Step>, n: int)
    requires Early(s, arrivals) && Arrives(arrivals, n)
    ensures Catchable(n) && n !in s.host
  {
  }

  /** Arrivals change nothing but what is pending, and add exactly the signals that arrive. */
  lemma {:induction false} ArrivalsRun(s: State, arrivals: seq<Step>, n: int)
    requires Inv(s) && s.phase.Suspending? && Early(s, arrivals)
    ensures Runs(s, arrivals) && HostAdmits(s, arrivals)
    ensures var f := Final(s, arrivals);
            && f.phase.Suspending? && f.mask == s.mask && f.requested == s.requested && f.host == s.host
            && (Deliverable(f.pending, {}, n) <==> Deliverable(s.pending, {}, n) || Arrives(arrivals, n))
    decreases |arrivals|
  {
    hide Inv, Next, Catchable, Deliverable, Arrives;
    if arrivals == [] {
      NoArrival(n);
    } else {
      ArrivalStep(s, arrivals[0], n);
      ArrivalsRun(Next(s, arrivals[0]), arrivals[1..], n);
      ArrivesFirst(arrivals, n);
    }
  }

  lemma Unmasked(s: State, n: int)
    requires Inv(s)
    ensures Deliverable(s.pending, s.mask, n) <==> n !in s.mask && Deliverable(s.pending, {}, n)
  {
  }

  /** What sigsuspend sleeps on, for one schedule. */
  lemma SleepsOnArrivals(s: State, requested: Mask, arrivals: seq<Step>, n: int)
    requires s.phase.Running? && Inv(s) && Early(s, arrivals)
    ensures SleepsOn(s, requested, arrivals, n)
       <==> n !in Unblockable(requested) && (Deliverable(s.pending, {}, n) || Arrives(arrivals, n))
  {
    hide Inv, Deliverable, Catchable, Arrives, Unblockable, Runs, Final, HostAdmits;
    OneStep(s, Suspend(requested));
    var a := Next(s, Suspend(requested));
    ArrivalsRun(a, arrivals, n);
    var b := Final(a, arrivals);
    OneStep(b, EnterSuspend);
    Unmasked(b, n);
    RunsConcat(a, arrivals, [EnterSuspend]);
    RunsConcat(s, [Suspend(requested)], arrivals + [EnterSuspend]);
  }

  /**
    sigsuspend does not look at what is pending. Some schedule lets it fall asleep on a signal that its mask lets
    through exactly when that signal was pending before the call, or the host can deliver it before sigsuspend
    is entered.
   */
  lemma SuspendSleepsOnIff(s: State, requested: Mask, n: int)
    requires s.phase.Running? && Inv(s)
    ensures (exists arrivals :: SleepsOn(s, requested, arrivals, n))
       <==> n !in Unblockable(requested) && (Deliverable(s.pending, {}, n) || (Catchable(n) && n !in s.host))
  {
    hide Inv, Deliverable, Catchable, Arrives, Unblockable, SleepsOn;
    SleepsOnArrivals(s, requested, [], n);
    var one := [HostSignal(n, None)];
    Arrived(n);
    if Catchable(n) && n !in s.host {
      SleepsOnArrivals(s, requested, one, n);
    }
    if arrivals :| SleepsOn(s, requested, arrivals, n) {
      OnlyEarly(s, requested, arrivals, n);
      SleepsOnArrivals(s, requested, arrivals, n);
      if Arrives(arrivals, n) {
        ArrivedFrom(s, arrivals, n);
      }
    }
  }

  lemma OnlyEarly(s: State, requested: Mask, arrivals: seq<Step>, n: int)
    requires Inv(s) && SleepsOn(s, requested, arrivals, n)
    ensures Early(s, arrivals)
  {
  }

  // ----- a wait during which nothing arrives

  ghost predicate NoArrivals(steps: seq<Step>) {
    forall i :: 0 <= i < |steps| ==> !steps[i].HostSignal?
  }

  ghost predicate SomeDeliverable(p: Pending, mask: Mask)
    requires Shape(p)
  {
    exists n :: Deliverable(p, mask, n)
  }

  /** The looks at the rings end armed, with a byte in the pipe exactly if something is deliverable. */
  lemma {:induction false} LooksArm(start: State, path: seq<Step>, s: State) returns (steps: seq<Step>, n: State)
    requires Reaches(start, path, s) && NoArrivals(path) && Inv(s) && s.phase.Arming? && !s.readable
    ensures Reaches(start, steps, n) && NoArrivals(steps) && Inv(n) && n.phase.Armed?
    ensures n == s.(phase := Armed, readable := n.readable)
    ensures n.readable <==> SomeDeliverable(s.pending, s.mask)
    decreases LAST_REALTIME + 1 - s.phase.next
  {
    hide Reaches;
    steps, n := MoveOn(start, path, s, LookAtRealtime);
    if n.phase.Arming? {
      steps, n := LooksArm(start, steps, n);
    } else if n.readable {
      assert Deliverable(s.pending, s.mask, s.phase.next);
    }
  }

  /** A wait on its own: it comes to the host call with a byte in the pipe exactly if something is deliverable. */
  lemma QuietWaitArms(s: State, requested: Mask) returns (steps: seq<Step>, n: State)
    requires s.phase.Running? && Shape(s.pending) && !s.published
    ensures Reaches(s, steps, n) && NoArrivals(steps) && Inv(n) && n.phase.Armed? && n.pending == s.pending
    ensures n.mask == Unblockable(requested) && n.host == HostSet(n.mask)
    ensures n.before == s.mask && n.hostBefore == s.host
    ensures n.readable <==> SomeDeliverable(s.pending, Unblockable(requested))
  {
    assert Reaches(s, [], s);
    hide Reaches, Deliverable, SomeDeliverable, Inv;
    steps, n := MoveOn(s, [], s, MakePipe(requested));
    steps, n := MoveOn(s, steps, n, PublishPipe);
    steps, n := MoveOn(s, steps, n, SetHostMask);
    steps, n := MoveOn(s, steps, n, SwapMask);
    StandardIsDeliverable(n);
    steps, n := MoveOn(s, steps, n, LookAtStandard);
    if n.phase.Arming? {
      steps, n := LooksArm(s, steps, n);
    }
    MasksOf(n);
  }

  lemma StandardIsDeliverable(s: State)
    requires Inv(s)
    ensures StandardDeliverable(s.pending, s.mask) ==> SomeDeliverable(s.pending, s.mask)
  {
    if n :| n in s.pending.standard && n !in s.mask {
      assert Deliverable(s.pending, s.mask, n);
    }
  }

  lemma MasksOf(s: State)
    requires Inv(s) && s.phase.Armed?
    ensures s.host == HostSet(s.mask)
  {
  }
}
