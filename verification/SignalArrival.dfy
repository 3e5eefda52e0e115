/** A signal that arrives from the host (`host_signal_handler` of src/guest_signal.c). */
module SignalArrival {
  import opened Words
  import opened PendingSignals
  import opened SignalFrame
  import opened SignalDelivery
  import opened SyscallExit
  import PollWait

  /**
    The handler tries a delivery when guest code was interrupted; a delivery that leaves the signal pending has
    already recorded it, and the handler records it again.
   */
  ghost function Arrive(th: Thread, t: Trampolines, e: Encoder, inGuestCode: bool, signal: int, info: Info): Thread
    requires Shape(th.pending) && ValidEncoder(e)
  {
    PendKeepsShape(th.pending, signal, Some(info));
    if !inGuestCode then th.(pending := Pend(th.pending, signal, Some(info)))
    else
      match Deliver(th.guest, t, signal, e.words(info), e.fault(info))
      case Entered(guest, _) => th.(guest := guest)
      case LeftPending => th.(pending := Pend(Pend(th.pending, signal, Some(info)), signal, Some(info)))
      case Refused => th.(pending := Pend(th.pending, signal, Some(info)))
  }

  predicate Blocked(g: Guest, signal: int) {
    signal in g.mask && !Synchronous(signal)
  }

  /** The signal enters its handler now. */
  predicate EntersNow(g: Guest, inGuestCode: bool, signal: int) {
    inGuestCode && 1 <= signal <= 64 && !Blocked(g, signal) && ActionFor(g.actions, signal).handler > 1
  }

  /**
    An arrival either enters its handler, which happens exactly in guest code for an unblocked signal with a handler,
    or leaves the guest alone and the signal pending, to be taken once it is unmasked. Other signals stay as they are.
   */
  lemma ArrivalIsDeliveredOrKept(th: Thread, t: Trampolines, e: Encoder, inGuestCode: bool, signal: int, info: Info)
    requires Shape(th.pending) && ValidEncoder(e) && (Standard(signal) || Realtime(signal))
    ensures var n := Arrive(th, t, e, inGuestCode, signal, info);
            && Shape(n.pending)
            && (EntersNow(th.guest, inGuestCode, signal) ==>
                  n.pending == th.pending && n.guest.context.regs[0] == signal
                  && n.guest.context.regs[15] == ActionFor(th.guest.actions, signal).handler)
            && (!EntersNow(th.guest, inGuestCode, signal) ==>
                  && n.guest == th.guest && Deliverable(n.pending, {}, signal)
                  && forall m :: m != signal ==> (Deliverable(n.pending, {}, m) <==> Deliverable(th.pending, {}, m)))
  {
    hide Frame, Write, FrameAddress, HandlerMask;
    DeliveryIsDecided(th.guest, t, signal, e.words(info), e.fault(info));
    PendKeepsShape(th.pending, signal, Some(info));
    PendKeepsShape(Pend(th.pending, signal, Some(info)), signal, Some(info));
  }

  /** A pending signal is recorded once, except a blocked realtime one that interrupts guest code with room for two. */
  lemma RecordedOnceIff(th: Thread, t: Trampolines, e: Encoder, inGuestCode: bool, signal: int, info: Info)
    requires Shape(th.pending) && ValidEncoder(e) && (Standard(signal) || Realtime(signal))
    requires !EntersNow(th.guest, inGuestCode, signal)
    ensures Arrive(th, t, e, inGuestCode, signal, info).pending == Pend(th.pending, signal, Some(info))
       <==> !(inGuestCode && Blocked(th.guest, signal) && Realtime(signal)
              && |th.pending.queues[signal - FIRST_REALTIME]| + 2 <= QUEUE_LENGTH)
  {
    hide Frame, Write, FrameAddress, HandlerMask, HandlerRegisters;
    DeliveryIsDecided(th.guest, t, signal, e.words(info), e.fault(info));
    var once := Pend(th.pending, signal, Some(info));
    PendKeepsShape(th.pending, signal, Some(info));
    if Realtime(signal) {
      var k := signal - FIRST_REALTIME;
      if |once.queues[k]| < QUEUE_LENGTH {
        assert |Pend(once, signal, Some(info)).queues[k]| == |once.queues[k]| + 1;
      }
    }
  }

  /**
    After a spurious wake the host no longer blocks what the temporary mask still blocks. A realtime signal of that
    mask that then arrives in guest code is queued twice, though it was sent once.
   */
  lemma SentOnceQueuedTwice(s: PollWait.State, requested: Mask, wake: int, signal: int, g: Guest, t: Trampolines,
                            e: Encoder, info: Info)
    returns (steps: seq<PollWait.Step>)
    requires ValidEncoder(e) && s.phase.Running? && Shape(s.pending) && !s.published
    requires Standard(wake) && PollWait.Catchable(wake) && wake !in s.host && wake in PollWait.Unblockable(requested)
    requires forall n :: !Deliverable(s.pending, PollWait.Unblockable(requested), n)
    requires Realtime(signal) && signal !in s.host && signal in PollWait.Unblockable(requested)
    requires s.pending.queues[signal - FIRST_REALTIME] == []
    requires g.mask == PollWait.Unblockable(requested)
    ensures PollWait.Inv(s) && PollWait.Runs(s, steps) && PollWait.HostAdmits(s, steps)
    ensures var f := PollWait.Final(s, steps);
            && f.phase.Ended? && f.mask == g.mask
            && PollWait.Admitted(f, PollWait.HostSignal(signal, Some(info)))
            && Arrive(Thread(g, f.pending), t, e, true, signal, info).pending.queues[signal - FIRST_REALTIME]
               == [info, info]
  {
    hide PollWait.Inv, PollWait.Runs, PollWait.HostAdmits, PollWait.Final, Frame, Write, FrameAddress, HandlerMask;
    steps := PollWait.SpuriousWait(s, requested, wake);
    var f := PollWait.Final(s, steps);
    var k := signal - FIRST_REALTIME;
    assert f.pending.queues[k] == [];
    DeliveryIsDecided(g, t, signal, e.words(info), e.fault(info));
    var once := Pend(f.pending, signal, Some(info));
    PendKeepsShape(f.pending, signal, Some(info));
    assert once.queues[k] == [info];
    assert Pend(once, signal, Some(info)).queues[k] == [info, info];
  }
}
