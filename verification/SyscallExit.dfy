/**
  The way out of a system call (src/trap.c, src/guest_signal.c): pending signals are delivered before
  the guest resumes, interrupted calls are restarted, and temporary masks are put back.
 */
module SyscallExit {
  import opened Words
  import opened PendingSignals
  import opened SignalFrame
  import opened SignalDelivery
  import PollWait

  /** `(uint32_t)-EINTR`. */
  const INTERRUPTED: Word := MODULUS - 4

  predicate Restartable(number: Word) {
    number in {3, 4, 54, 114, 145, 146, 240, 283, 285, 291, 292, 297, 366}
  }

  /** A thread at a system call: machine state and pending signals. */
  datatype Thread = Thread(guest: Guest, pending: Pending)

  /** What `guest_signal_deliver_pending` did. */
  datatype Exit =
    | Resumed(thread: Thread)                                  // nothing pending
    | EnteredHandler(thread: Thread, signal: int, saved: Saved) // 1
    | Undelivered(thread: Thread, signal: int)                 // -1

  /** The siginfo payload behind the signal number; the field-by-field translation is a parameter. */
  datatype Encoder = Encoder(words: Info -> seq<Word>, fault: Info -> Word)

  ghost predicate ValidEncoder(e: Encoder) {
    forall i :: |e.words(i)| == INFO_WORDS - 1
  }

  function WithRegister(g: Guest, n: nat, value: Word): Guest
    requires n < 16
  {
    g.(context := g.context.(regs := g.context.regs[n := value]))
  }

  /** Put the call's first argument back and step back onto the trapping instruction. */
  function Rewound(g: Guest, originalR0: Word): Guest {
    var h := WithRegister(g, 0, originalR0);
    WithRegister(h, 15, Wrap(h.context.regs[15] as int - 4))
  }

  predicate Restarts(g: Guest, signal: int, number: Word) {
    && g.context.regs[0] == INTERRUPTED
    && ActionFor(g.actions, signal).restart
    && Restartable(number)
  }

  ghost function DeliverPending(th: Thread, t: Trampolines, e: Encoder, number: Word, originalR0: Word): Exit
    requires Shape(th.pending) && ValidEncoder(e)
  {
    var (left, taken) := Take(th.pending, th.guest.mask);
    if taken.Nothing? then Resumed(th)
    else
      var g := if Restarts(th.guest, taken.number, number) then Rewound(th.guest, originalR0) else th.guest;
      var d := Deliver(g, t, taken.number, e.words(taken.info), e.fault(taken.info));
      if d.Entered?
      then EnteredHandler(Thread(d.guest, left), taken.number, SavedBy(g, taken.number, e.fault(taken.info)))
      else Undelivered(Thread(g, left), taken.number)
  }

  /** The syscall branch of `trap_handler`: result in r0, then past the instruction. */
  function AfterDispatch(g: Guest, result: Word): Guest {
    WithRegister(WithRegister(g, 0, result), 15, Wrap(g.context.regs[15] as int + 4))
  }

  // ----- which signal, and whether a handler runs

  /** A pending signal that is taken is unmasked, so it is delivered exactly when it has a handler. */
  lemma TakenIsDeliveredIffHandled(th: Thread, t: Trampolines, e: Encoder, number: Word, originalR0: Word)
    requires Shape(th.pending) && ValidEncoder(e)
    ensures var x := DeliverPending(th, t, e, number, originalR0);
            && (x.Resumed? <==> forall m :: !Deliverable(th.pending, th.guest.mask, m))
            && (!x.Resumed? ==>
                  && Deliverable(th.pending, th.guest.mask, x.signal)
                  && 1 <= x.signal <= 64
                  && (x.EnteredHandler? <==> ActionFor(th.guest.actions, x.signal).handler > 1))
  {
    TakeSelects(th.pending, th.guest.mask);
    hide Take, Frame, FrameAddress, HandlerRegisters, HandlerMask, Write;
    var (left, taken) := Take(th.pending, th.guest.mask);
    if taken.Signal? {
      assert Deliverable(th.pending, th.guest.mask, taken.number);
    }
  }

  // ----- restart

  /**
    A call that returned `result` and was interrupted by a handled signal re-executes from its exact
    pre-trap registers after the handler returns if and only if the result was EINTR, the handler
    asked for SA_RESTART and the call is one that restarts.
   */
  lemma RestartIffInterrupted(pre: Guest, result: Word, pending: Pending, t: Trampolines, e: Encoder)
    requires Shape(pending) && ValidEncoder(e)
    requires DeliverPending(Thread(AfterDispatch(pre, result), pending), t, e,
                            pre.context.regs[7], pre.context.regs[0]).EnteredHandler?
    ensures var x := DeliverPending(Thread(AfterDispatch(pre, result), pending), t, e,
                                    pre.context.regs[7], pre.context.regs[0]);
            && x.saved.context.cpsr == pre.context.cpsr && x.saved.context.vfp == pre.context.vfp
            && (x.saved.context.regs == pre.context.regs
                <==> result == INTERRUPTED && ActionFor(pre.actions, x.signal).restart
                     && Restartable(pre.context.regs[7]))
            && (x.saved.context.regs != pre.context.regs ==>
                  x.saved.context.regs == AfterDispatch(pre, result).context.regs)
  {
    hide Take, Frame, FrameAddress, HandlerRegisters, HandlerMask, Write, Restartable, SavedStack;
    var g := AfterDispatch(pre, result);
    var back := Rewound(g, pre.context.regs[0]);
    assert g.context.regs[15] != pre.context.regs[15];
    assert back.context.regs == pre.context.regs;
  }

  /** Dispatch, PC advance, rewind, frame push and frame pop compose to the identity on the registers. */
  lemma RestartedCallRunsAgain(pre: Guest, pending: Pending, t: Trampolines, e: Encoder, back: Guest)
    requires Shape(pending) && ValidEncoder(e) && ValidMasks(pre)
    requires DeliverPending(Thread(AfterDispatch(pre, INTERRUPTED), pending), t, e,
                            pre.context.regs[7], pre.context.regs[0]).EnteredHandler?
    requires var x := DeliverPending(Thread(AfterDispatch(pre, INTERRUPTED), pending), t, e,
                                     pre.context.regs[7], pre.context.regs[0]);
             && ActionFor(pre.actions, x.signal).restart && Restartable(pre.context.regs[7])
             && back.context.regs[13] == x.saved.frame && x.saved.frame % 8 == 0 && Holds(back.memory, x.saved)
    ensures var x := DeliverPending(Thread(AfterDispatch(pre, INTERRUPTED), pending), t, e,
                                    pre.context.regs[7], pre.context.regs[0]);
            && Return(back, x.saved.realtime).Some?
            && Return(back, x.saved.realtime).value.context == pre.context
            && Return(back, x.saved.realtime).value.mask == SavedMask(pre)
  {
    var x := DeliverPending(Thread(AfterDispatch(pre, INTERRUPTED), pending), t, e,
                            pre.context.regs[7], pre.context.regs[0]);
    RestartIffInterrupted(pre, INTERRUPTED, pending, t, e);
    assert x.saved.mask == SavedMask(pre) by {
      hide Take, Frame, FrameAddress, HandlerRegisters, HandlerMask, Write, Restartable, SavedStack;
    }
    hide DeliverPending, Holds, Return;
    ReturnRestores(back, x.saved);
  }

  // ----- temporary masks

  /** The guest as a wait with a temporary mask leaves it. */
  predicate LeftBy(g: Guest, w: PollWait.State) {
    w.phase.Ended? && g.mask == w.mask && g.restore == w.restore
  }

  /** The thread stands on the frame of the handler it entered, and the frame is intact. */
  ghost predicate OnFrame(back: Guest, saved: Saved) {
    back.context.regs[13] == saved.frame && saved.frame % 8 == 0 && Holds(back.memory, saved)
  }

  /** The signal a wait's caller would take has a handler. */
  ghost predicate Handled(pending: Pending, mask: Mask, actions: map<int, Action>)
    requires Shape(pending)
  {
    var taken := Take(pending, mask).1;
    taken.Signal? && ActionFor(actions, taken.number).handler > 1
  }

  lemma EnteredIffHandled(th: Thread, t: Trampolines, e: Encoder, number: Word, originalR0: Word)
    requires Shape(th.pending) && ValidEncoder(e)
    ensures var x := DeliverPending(th, t, e, number, originalR0);
            && (x.EnteredHandler? <==> Handled(th.pending, th.guest.mask, th.guest.actions))
            && (x.EnteredHandler? ==>
                  x.saved.mask == SavedMask(th.guest) && x.thread.guest.restore.None?
                  && Deliverable(th.pending, th.guest.mask, x.signal))
            && (!x.EnteredHandler? ==>
                  x.thread.guest.mask == th.guest.mask && x.thread.guest.restore == th.guest.restore)
  {
    hide Take, Frame, FrameAddress, HandlerRegisters, HandlerMask, Write, Restartable, SavedStack, Deliverable;
    TakenIsDeliveredIffHandled(th, t, e, number, originalR0);
    TakeSelects(th.pending, th.guest.mask);
  }

  /** The mask the guest program runs with once the call is over, and with it the handler it entered, if any. */
  ghost function MaskAtEnd(x: Exit, back: Guest): Option<Mask> {
    if !x.EnteredHandler? then Some(x.thread.guest.mask)
    else
      var r := Return(back, x.saved.realtime);
      if r.None? then None else Some(r.value.mask)
  }

  /**
    After an interrupted sigsuspend, ppoll or pselect6, with signals arriving at any time, the guest ends up on
    the mask it had before the call exactly when the signal that the temporary mask selects has a handler, or
    the two masks are equal. The mask is the one the handler's own return restores.
   */
  lemma InterruptedWaitRestoresMaskIffHandled(s: PollWait.State, steps: seq<PollWait.Step>, g: Guest, t: Trampolines,
                                              e: Encoder, number: Word, originalR0: Word, result: Word, back: Guest)
    requires s.phase.Running? && Shape(s.pending) && !s.published && ValidMask(s.mask) && ValidEncoder(e)
    requires PollWait.Inv(s) && PollWait.Runs(s, steps)
    requires var f := PollWait.Final(s, steps); LeftBy(g, f) && f.phase.interrupted
    requires var x := DeliverPending(Thread(AfterDispatch(g, result), PollWait.Final(s, steps).pending), t, e, number,
                                     originalR0);
             x.EnteredHandler? ==> OnFrame(back, x.saved)
    ensures var f := PollWait.Final(s, steps);
            var x := DeliverPending(Thread(AfterDispatch(g, result), f.pending), t, e, number, originalR0);
            && (MaskAtEnd(x, back) == Some(s.mask)
                <==> Handled(f.pending, f.requested, g.actions) || f.requested == s.mask)
            && (x.EnteredHandler? ==> Deliverable(f.pending, f.requested, x.signal) && x.thread.guest.restore.None?)
            && (!x.EnteredHandler? ==> x.thread.guest.mask == f.requested && x.thread.guest.restore == Some(s.mask))
  {
    hide PollWait.Runs, DeliverPending, Handled, Return, Holds, Deliverable;
    PollWait.WaitSettlesMasks(s, steps);
    var f := PollWait.Final(s, steps);
    var th := Thread(AfterDispatch(g, result), f.pending);
    EnteredIffHandled(th, t, e, number, originalR0);
    var x := DeliverPending(th, t, e, number, originalR0);
    if x.EnteredHandler? {
      ReturnRestores(back, x.saved);
    }
  }

  /**
    A wait that completes, gives up or fails otherwise returns to the old mask; what is delivered next is selected
    by it.
   */
  lemma CompletedWaitDeliversUnderOldMask(s: PollWait.State, steps: seq<PollWait.Step>, g: Guest, t: Trampolines,
                                          e: Encoder, number: Word, originalR0: Word, result: Word)
    requires s.phase.Running? && Shape(s.pending) && !s.published && ValidEncoder(e)
    requires PollWait.Inv(s) && PollWait.Runs(s, steps)
    requires var f := PollWait.Final(s, steps); LeftBy(g, f) && !f.phase.interrupted
    ensures var f := PollWait.Final(s, steps);
            var x := DeliverPending(Thread(AfterDispatch(g, result), f.pending), t, e, number, originalR0);
            && g.mask == s.mask
            && (x.EnteredHandler? <==> Handled(f.pending, s.mask, g.actions))
            && (!x.EnteredHandler? ==> x.thread.guest.mask == s.mask)
            && (x.EnteredHandler? && s.restore.None? ==> x.saved.mask == s.mask)
  {
    hide PollWait.Runs, DeliverPending, Handled, Deliverable;
    PollWait.WaitSettlesMasks(s, steps);
    var f := PollWait.Final(s, steps);
    EnteredIffHandled(Thread(AfterDispatch(g, result), f.pending), t, e, number, originalR0);
  }

  /**
    A run of ppoll that the host can have: a signal the host does not block yet and the temporary mask blocks arrives
    after the pipe is published and before the host mask is set. Nothing is delivered, the temporary mask stays,
    and the old mask stays parked.
   */
  lemma SpuriousWakeKeepsTemporaryMask(s: PollWait.State, requested: Mask, signal: int, g: Guest, t: Trampolines,
                                       e: Encoder, number: Word, originalR0: Word, result: Word)
    returns (steps: seq<PollWait.Step>)
    requires ValidEncoder(e) && s.phase.Running? && Shape(s.pending) && !s.published
    requires Standard(signal) && PollWait.Catchable(signal)
    requires signal !in s.host && signal in PollWait.Unblockable(requested)
    requires forall n :: !Deliverable(s.pending, PollWait.Unblockable(requested), n)
    requires g.mask == PollWait.Unblockable(requested) && g.restore == Some(s.mask)
    ensures PollWait.Inv(s) && PollWait.Runs(s, steps) && PollWait.HostAdmits(s, steps)
    ensures LeftBy(g, PollWait.Final(s, steps))
    ensures DeliverPending(Thread(AfterDispatch(g, result), PollWait.Final(s, steps).pending), t, e, number, originalR0)
         == Resumed(Thread(AfterDispatch(g, result), PollWait.Final(s, steps).pending))
  {
    hide DeliverPending, Deliverable;
    steps := PollWait.SpuriousWait(s, requested, signal);
    var f := PollWait.Final(s, steps);
    NothingDelivered(Thread(AfterDispatch(g, result), f.pending), t, e, number, originalR0);
  }

  lemma NothingDelivered(th: Thread, t: Trampolines, e: Encoder, number: Word, originalR0: Word)
    requires Shape(th.pending) && ValidEncoder(e) && forall n :: !Deliverable(th.pending, th.guest.mask, n)
    ensures DeliverPending(th, t, e, number, originalR0) == Resumed(th)
  {
    hide Take, Deliverable;
    TakeSelects(th.pending, th.guest.mask);
  }

  // ----- what a parked mask does next

  /** `guest_signal_mask`: the guest changes its mask; a parked mask stays parked. */
  function SetMask(g: Guest, mask: Mask): Guest {
    g.(mask := PollWait.Unblockable(mask))
  }

  /**
    The next handler's return leaves the guest on the mask it had when the handler was entered exactly when no
    mask is parked or the parked one is that mask, whatever the guest has set meanwhile.
   */
  lemma NextReturnKeepsMaskIff(th: Thread, t: Trampolines, e: Encoder, number: Word, originalR0: Word, back: Guest)
    requires Shape(th.pending) && ValidEncoder(e) && ValidMasks(th.guest)
    requires var x := DeliverPending(th, t, e, number, originalR0); x.EnteredHandler? && OnFrame(back, x.saved)
    ensures var x := DeliverPending(th, t, e, number, originalR0);
            && (MaskAtEnd(x, back) == Some(th.guest.mask)
                <==> th.guest.restore.None? || th.guest.restore.value == th.guest.mask)
            && (th.guest.restore.Some? ==> MaskAtEnd(x, back) == th.guest.restore)
  {
    hide DeliverPending, Handled, Return, Holds, Deliverable;
    EnteredIffHandled(th, t, e, number, originalR0);
    ReturnRestores(back, DeliverPending(th, t, e, number, originalR0).saved);
  }

  /**
    After a spurious wake a mask the guest sets is lost: the next handler's return brings back the mask from before
    the wait.
   */
  lemma ParkedMaskOverridesGuest(g: Guest, before: Mask, chosen: Mask, pending: Pending, t: Trampolines, e: Encoder,
                                 number: Word, originalR0: Word, back: Guest)
    requires Shape(pending) && ValidEncoder(e) && ValidMask(before) && ValidMask(chosen)
    requires g.restore == Some(before) && PollWait.Unblockable(chosen) != before
    requires var x := DeliverPending(Thread(SetMask(g, chosen), pending), t, e, number, originalR0);
             x.EnteredHandler? && OnFrame(back, x.saved)
    ensures var x := DeliverPending(Thread(SetMask(g, chosen), pending), t, e, number, originalR0);
            MaskAtEnd(x, back) == Some(before) && MaskAtEnd(x, back) != Some(SetMask(g, chosen).mask)
  {
    hide DeliverPending, Return, Holds, MaskAtEnd;
    NextReturnKeepsMaskIff(Thread(SetMask(g, chosen), pending), t, e, number, originalR0, back);
  }

  // ----- one signal per exit, and sigsuspend

  lemma TakeLeavesOthers(p: Pending, mask: Mask, m: int)
    requires Shape(p) && Deliverable(p, {}, m)
    ensures var (left, taken) := Take(p, mask);
            Shape(left) && (taken.Signal? && taken.number != m ==> Deliverable(left, {}, m))
  {
    hide LowestStandard, LowestRealtime;
    SelectedStandard(p, mask);
    SelectedRealtime(p, mask, FIRST_REALTIME);
    TakeSelects(p, mask);
  }

  /**
    Two signals are pending at the end of a call and the handler of the first is entered. If it then waits in
    sigsuspend for the second, it sleeps on it, although nothing has arrived meanwhile.
   */
  lemma SuspendInHandlerSleeps(th: Thread, t: Trampolines, e: Encoder, number: Word, originalR0: Word, second: int,
                               w: PollWait.State, requested: Mask)
    requires Shape(th.pending) && ValidEncoder(e) && PollWait.Inv(w) && w.phase.Running?
    requires var x := DeliverPending(th, t, e, number, originalR0);
             x.EnteredHandler? && x.signal != second && w.pending == x.thread.pending
    requires Deliverable(th.pending, th.guest.mask, second) && second !in PollWait.Unblockable(requested)
    ensures PollWait.SleepsOn(w, requested, [], second)
  {
    hide Take, Deliver, PollWait.Inv, PollWait.SleepsOn, PollWait.Unblockable;
    var (left, taken) := Take(th.pending, th.guest.mask);
    assert w.pending == left;
    TakeLeavesOthers(th.pending, th.guest.mask, second);
    PollWait.SleepsOnArrivals(w, requested, [], second);
  }
}
