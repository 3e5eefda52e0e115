/** Delivering signals to guest handlers and returning from them (src/guest_signal.c). */
module SignalDelivery {
  import opened Words
  import opened PendingSignals
  import opened SignalFrame

  const HOST_SIGNAL_STACK_RESERVE: int := 8192
  const MINIMUM_STACK: int := 2048
  const SIGILL: int := 4
  const SIGSEGV: int := 11

  /** A `struct linux_sigaction` with its flag bits named; `restorer` is present when flag and address are set. */
  datatype Action = Action(handler: Word, mask: Mask, siginfo: bool, restorer: Option<Word>, onStack: bool,
                           restart: bool, noDefer: bool, resetHandler: bool)

  const NO_ACTION := Action(0, {}, false, None, false, false, false, false)

  /** The thread as the signal code sees it. */
  datatype Guest = Guest(context: Context, mask: Mask, restore: Option<Mask>, altPointer: Word, altSize: Word,
                         actions: map<int, Action>, memory: Memory)

  /** Where the emulator's own return trampolines live. */
  datatype Trampolines = Trampolines(plain: Word, realtime: Word)

  /** `guest_signal_deliver`: -1, 1 (left pending), or 0 with the handler entered on a new frame. */
  datatype Delivery = Refused | LeftPending | Entered(guest: Guest, frame: Word)

  function ActionFor(actions: map<int, Action>, signal: int): Action {
    if signal in actions then actions[signal] else NO_ACTION
  }

  function OnAltStack(g: Guest): bool {
    g.altSize != 0 && g.altPointer <= g.context.regs[13] < Wrap(g.altPointer + g.altSize)
  }

  /** The handler runs on the alternate stack only when it asks to and the thread is not there already. */
  predicate SwitchesStack(g: Guest, a: Action) {
    a.onStack && g.altSize != 0 && !OnAltStack(g)
  }

  function StackTop(g: Guest, a: Action): Word {
    if SwitchesStack(g, a) then Wrap(g.altPointer + g.altSize)
    else Wrap(g.context.regs[13] - HOST_SIGNAL_STACK_RESERVE)
  }

  function FrameAddress(g: Guest, a: Action): Word {
    AlignDown(Wrap(StackTop(g, a) - FrameBytes(a.siginfo)), 8)
  }

  /** `guest_thread_signal_delivery_mask`: the mask the frame will bring back. */
  function SavedMask(g: Guest): Mask {
    if g.restore.Some? then g.restore.value else g.mask
  }

  function SavedStack(g: Guest): AltStack {
    AltStack(g.altPointer, if OnAltStack(g) then 1 else if g.altSize == 0 then 2 else 0, g.altSize)
  }

  function HandlerMask(saved: Mask, a: Action, signal: int): Mask {
    saved + a.mask + (if a.noDefer then {} else {signal})
  }

  /** A frame's words: siginfo for realtime frames, the context, the return code slot. */
  function Frame(g: Guest, a: Action, signal: Word, information: seq<Word>, fault: Word): (r: seq<Word>)
    requires |information| == INFO_WORDS - 1
    ensures |r| == FrameWords(a.siginfo)
  {
    (if a.siginfo then [signal] + information else [])
    + UcontextWords(g.context, SavedMask(g), SavedStack(g), fault)
    + Zeros(RETURN_CODE_WORDS)
  }

  function HandlerRegisters(regs: Registers, a: Action, signal: Word, frame: Word, t: Trampolines): Registers {
    var r := regs[0 := signal];
    var s := if a.siginfo then r[1 := frame][2 := Wrap(frame + 128)] else r;
    s[13 := frame]
    [14 := if a.restorer.Some? then a.restorer.value else if a.siginfo then t.realtime else t.plain]
    [15 := a.handler]
  }

  function Deliver(g: Guest, t: Trampolines, signal: int, information: seq<Word>, fault: Word): Delivery
    requires |information| == INFO_WORDS - 1
  {
    if !(1 <= signal <= 64) then Refused
    else if signal != SIGILL && signal != SIGSEGV && signal in g.mask then LeftPending
    else
      var a := ActionFor(g.actions, signal);
      if a.handler <= 1 then Refused
      else
        var frame := FrameAddress(g, a);
        Entered(
          g.(context := g.context.(regs := HandlerRegisters(g.context.regs, a, signal, frame, t)),
             mask := HandlerMask(SavedMask(g), a, signal),
             restore := None,
             actions := if a.resetHandler then g.actions[signal := a.(handler := 0)] else g.actions,
             memory := Write(g.memory, frame / 4, Frame(g, a, signal, information, fault))),
          frame)
  }

  /** `guest_signal_return`: None is the -1 that makes the trap handler fatal. */
  function Return(g: Guest, realtime: bool): Option<Guest> {
    var sp := g.context.regs[13];
    if sp % 8 != 0 then None
    else
      var words := Read(g.memory, (sp + ContextOffset(realtime)) / 4, UCONTEXT_WORDS);
      var r := ReadUcontext(words, g.context.vfp);
      if r.None? then None
      else
        var (pointer, size) :=
          if !realtime then (g.altPointer, g.altSize)
          else if r.value.stack.flags == 2 then (0, 0)
          else if r.value.stack.flags == 0 then (r.value.stack.pointer, r.value.stack.size)
          else (g.altPointer, g.altSize);
        Some(g.(context := r.value.context, mask := r.value.mask, altPointer := pointer, altSize := size))
  }

  ghost predicate ValidMasks(g: Guest) {
    ValidMask(g.mask) && (g.restore.Some? ==> ValidMask(g.restore.value))
  }

  // ----- one delivery and its return

  /** What a live frame must bring back. */
  datatype Saved = Saved(frame: int, realtime: bool, context: Context, mask: Mask, stack: AltStack, fault: Word)

  ghost predicate Holds(m: Memory, s: Saved) {
    Read(m, (s.frame + ContextOffset(s.realtime)) / 4, UCONTEXT_WORDS)
    == UcontextWords(s.context, s.mask, s.stack, s.fault)
  }

  function SavedBy(g: Guest, signal: int, fault: Word): Saved {
    var a := ActionFor(g.actions, signal);
    Saved(FrameAddress(g, a), a.siginfo, g.context, SavedMask(g), SavedStack(g), fault)
  }

  lemma WrittenContext(m: Memory, frame: int, head: seq<Word>, u: seq<Word>)
    requires frame % 8 == 0 && |u| == UCONTEXT_WORDS
    ensures Read(Write(m, frame / 4, head + u + Zeros(RETURN_CODE_WORDS)), (frame + 4 * |head|) / 4, UCONTEXT_WORDS)
         == u
  {
    Slice(head, u, Zeros(RETURN_CODE_WORDS));
    ReadOwnWrite(m, frame / 4, head + u + Zeros(RETURN_CODE_WORDS), |head|, UCONTEXT_WORDS);
    assert (frame + 4 * |head|) / 4 == frame / 4 + |head|;
  }

  lemma FrameIsAligned(g: Guest, a: Action)
    ensures FrameAddress(g, a) % 8 == 0
  {
    MultipleBelow(Wrap(StackTop(g, a) - FrameBytes(a.siginfo)), 8);
  }

  /** SIGILL and SIGSEGV come from the guest's own instruction and cannot wait. */
  predicate Synchronous(signal: int) {
    signal == 4 || signal == 11
  }

  /**
    A handler is entered exactly for a signal that has one and is not blocked, or cannot wait; a blocked signal is
    left pending whether it has a handler or not, and everything else is refused.
   */
  lemma DeliveryIsDecided(g: Guest, t: Trampolines, signal: int, information: seq<Word>, fault: Word)
    requires |information| == INFO_WORDS - 1
    ensures var d, handler := Deliver(g, t, signal, information, fault), ActionFor(g.actions, signal).handler;
            var blocked := signal in g.mask && !Synchronous(signal);
            && (d.Entered? <==> 1 <= signal <= 64 && !blocked && handler != 0 && handler != 1)
            && (d.LeftPending? <==> 1 <= signal <= 64 && blocked)
            && (d.Refused? <==> !(1 <= signal <= 64) || (!blocked && (handler == 0 || handler == 1)))
  {
    hide Frame, Write, FrameAddress, HandlerMask, HandlerRegisters;
  }

  /** A delivery writes a frame that holds the interrupted state. */
  lemma DeliveryWritesFrame(g: Guest, t: Trampolines, signal: int, information: seq<Word>, fault: Word)
    requires |information| == INFO_WORDS - 1
    requires Deliver(g, t, signal, information, fault).Entered?
    ensures Holds(Deliver(g, t, signal, information, fault).guest.memory, SavedBy(g, signal, fault))
    ensures Deliver(g, t, signal, information, fault).frame == SavedBy(g, signal, fault).frame
    ensures SavedBy(g, signal, fault).frame % 8 == 0
  {
    hide UcontextWords, FrameAddress, HandlerRegisters, HandlerMask, SavedMask, SavedStack, Read, Write;
    var a := ActionFor(g.actions, signal);
    FrameIsAligned(g, a);
    WrittenContext(g.memory, FrameAddress(g, a), if a.siginfo then [signal] + information else [],
                   UcontextWords(g.context, SavedMask(g), SavedStack(g), fault));
  }

  /** What the handler is called with, what it finds there, and what is blocked while it runs. */
  lemma HandlerSeesItsArguments(g: Guest, t: Trampolines, signal: int, information: seq<Word>, fault: Word)
    requires |information| == INFO_WORDS - 1
    requires Deliver(g, t, signal, information, fault).Entered?
    requires FrameAddress(g, ActionFor(g.actions, signal)) + 128 <= UINTPTR_MAX
    ensures var d := Deliver(g, t, signal, information, fault);
            var a, r := ActionFor(g.actions, signal), d.guest.context.regs;
            && r[0] == signal && r[13] == d.frame && r[15] == a.handler
            && (a.siginfo ==>
                  && Read(d.guest.memory, r[1] / 4, INFO_WORDS) == [signal] + information
                  && Read(d.guest.memory, r[2] / 4, UCONTEXT_WORDS)
                     == UcontextWords(g.context, SavedMask(g), SavedStack(g), fault))
            && r[14] == (if a.restorer.Some? then a.restorer.value else if a.siginfo then t.realtime else t.plain)
            && (forall i :: 3 <= i < 13 ==> r[i] == g.context.regs[i])
            && SavedMask(g) <= d.guest.mask && a.mask <= d.guest.mask && (signal in d.guest.mask || a.noDefer)
            && (forall s :: s != signal ==> (s in d.guest.mask <==> s in SavedMask(g) || s in a.mask))
            && d.guest.restore.None?
            && (forall s :: s != signal || !a.resetHandler ==> ActionFor(d.guest.actions, s) == ActionFor(g.actions, s))
            && (a.resetHandler ==> ActionFor(d.guest.actions, signal).handler == 0)
  {
    hide UcontextWords, FrameAddress, SavedMask, SavedStack, Read, Write;
    DeliveryWritesFrame(g, t, signal, information, fault);
    var a := ActionFor(g.actions, signal);
    var frame := FrameAddress(g, a);
    if a.siginfo {
      var words := Frame(g, a, signal, information, fault);
      ReadOwnWrite(g.memory, frame / 4, words, 0, INFO_WORDS);
      assert words[0..INFO_WORDS] == [signal] + information;
      assert Wrap(frame + 128) == frame + 128;
    }
  }

  /** The alternate stack after a return: realtime frames bring back the one they saved, unless it was in use. */
  function StackAfter(g: Guest, s: Saved): (Word, Word) {
    if !s.realtime then (g.altPointer, g.altSize)
    else if s.stack.flags == 2 then (0, 0)
    else if s.stack.flags == 0 then (s.stack.pointer, s.stack.size)
    else (g.altPointer, g.altSize)
  }

  /** Returning on an intact frame restores registers, flags, VFP state, mask and stack, and never rejects. */
  lemma ReturnRestores(g: Guest, s: Saved)
    requires g.context.regs[13] == s.frame && s.frame % 8 == 0 && Holds(g.memory, s) && ValidMask(s.mask)
    ensures Return(g, s.realtime).Some?
    ensures var r := Return(g, s.realtime).value;
            && r.context == s.context && r.mask == s.mask && r.memory == g.memory
            && r.restore == g.restore && r.actions == g.actions
            && (r.altPointer, r.altSize) == StackAfter(g, s)
  {
    hide UcontextWords, ReadUcontext, ValidMask, Read;
    UcontextRoundTrip(s.context, s.mask, s.stack, s.fault, g.context.vfp);
  }

  // ----- nested deliveries

  function FrameEnd(s: Saved): int {
    s.frame + FrameBytes(s.realtime)
  }

  predicate Apart(x: Saved, y: Saved) {
    FrameEnd(x) <= y.frame || FrameEnd(y) <= x.frame
  }

  /** Live frames, oldest first: aligned, pairwise disjoint, each intact in memory. */
  ghost predicate Nested(m: Memory, live: seq<Saved>) {
    && (forall i :: 0 <= i < |live| ==>
          live[i].frame >= 0 && live[i].frame % 8 == 0 && Holds(m, live[i]) && ValidMask(live[i].mask))
    && forall i, j :: 0 <= i < j < |live| ==> Apart(live[i], live[j])
  }

  datatype Event =
    | Enter(signal: int, information: seq<Word>, fault: Word)
    | Compute(next: Guest)
    | Leave

  /** The thread with its live frames. */
  datatype Run = Run(guest: Guest, live: seq<Saved>)

  /** The lowest address a frame pushed below the stack pointer can reach: reserve, frame and alignment. */
  function LowestByte(g: Guest, a: Action): int {
    g.context.regs[13] - HOST_SIGNAL_STACK_RESERVE - FrameBytes(a.siginfo) - 7
  }

  /**
    There is room for a frame. On the alternate stack: it is a stack `guest_signal_altstack` accepts, it lies in the
    address space, and no live frame is on it. Below the stack pointer: no live frame is where the new one goes.
   */
  predicate Room(g: Guest, a: Action, live: seq<Saved>) {
    if SwitchesStack(g, a) then
      && g.altSize >= MINIMUM_STACK && g.altPointer + g.altSize <= MODULUS
      && forall i :: 0 <= i < |live| ==> FrameEnd(live[i]) <= g.altPointer || g.altPointer + g.altSize <= live[i].frame
    else
      && g.context.regs[13] >= HOST_SIGNAL_STACK_RESERVE + FrameBytes(a.siginfo)
      && forall i :: 0 <= i < |live| ==> g.context.regs[13] <= live[i].frame || FrameEnd(live[i]) <= LowestByte(g, a)
  }

  /**
    The program keeps to the stack discipline: a handler is entered where there is room for its frame, guest code
    leaves live frames alone, and a handler returns on its own frame.
   */
  ghost predicate Allowed(r: Run, t: Trampolines, e: Event) {
    match e
    case Enter(signal, information, fault) =>
      && |information| == INFO_WORDS - 1
      && Deliver(r.guest, t, signal, information, fault).Entered?
      && Room(r.guest, ActionFor(r.guest.actions, signal), r.live)
    case Compute(next) =>
      && ValidMasks(next)
      && forall i :: 0 <= i < |r.live| ==>
           SameBlock(r.guest.memory, next.memory, r.live[i].frame / 4, FrameWords(r.live[i].realtime))
    case Leave => r.live != [] && r.guest.context.regs[13] == r.live[|r.live| - 1].frame
  }

  /** The run after an event; None where `guest_signal_return` would have rejected the frame. */
  ghost function Next(r: Run, t: Trampolines, e: Event): Option<Run>
    requires Allowed(r, t, e)
  {
    match e
    case Enter(signal, information, fault) =>
      Some(Run(Deliver(r.guest, t, signal, information, fault).guest, r.live + [SavedBy(r.guest, signal, fault)]))
    case Compute(next) => Some(r.(guest := next))
    case Leave =>
      var back := Return(r.guest, r.live[|r.live| - 1].realtime);
      if back.None? then None else Some(Run(back.value, r.live[..|r.live| - 1]))
  }

  ghost predicate RunOk(r: Run) {
    ValidMasks(r.guest) && Nested(r.guest.memory, r.live)
  }

  lemma NoWrap(v: int)
    requires 0 <= v <= UINTPTR_MAX
    ensures Wrap(v) == v
  {
  }

  lemma AlignDown8(v: Word)
    ensures v - 8 < AlignDown(v, 8) <= v && AlignDown(v, 8) % 8 == 0
  {
  }

  /** Where the frame goes when there is room for it below the chosen stack top. */
  lemma FrameBelow(g: Guest, a: Action, top: int)
    requires StackTop(g, a) == top >= FrameBytes(a.siginfo)
    ensures top - FrameBytes(a.siginfo) - 8 < FrameAddress(g, a) <= top - FrameBytes(a.siginfo)
    ensures FrameAddress(g, a) % 8 == 0
  {
    hide StackTop, Wrap, AlignDown, FrameBytes;
    NoWrap(top - FrameBytes(a.siginfo));
    AlignDown8(top - FrameBytes(a.siginfo));
  }

  lemma FrameBelowStack(g: Guest, a: Action)
    requires !SwitchesStack(g, a) && g.context.regs[13] >= HOST_SIGNAL_STACK_RESERVE + FrameBytes(a.siginfo)
    ensures 0 <= FrameAddress(g, a) && FrameAddress(g, a) + FrameBytes(a.siginfo) <= g.context.regs[13]
    ensures LowestByte(g, a) <= FrameAddress(g, a)
  {
    hide FrameAddress, Wrap;
    NoWrap(g.context.regs[13] - HOST_SIGNAL_STACK_RESERVE);
    FrameBelow(g, a, g.context.regs[13] - HOST_SIGNAL_STACK_RESERVE);
  }

  lemma WrapIs(x: int, y: int, k: int)
    requires x == y + k * MODULUS && 0 <= y < MODULUS
    ensures Wrap(x) == y
  {
  }

  /** Where a frame goes that starts a stack, counted from the bottom of the stack. */
  lemma FrameOffset(g: Guest, a: Action)
    requires SwitchesStack(g, a) && g.altSize >= MINIMUM_STACK
    ensures var offset := Wrap(FrameAddress(g, a) - g.altPointer);
            && offset + FrameBytes(a.siginfo) <= g.altSize
            && FrameAddress(g, a) == Wrap(g.altPointer + offset)
  {
    hide Wrap, AlignDown;
    var end, bytes := g.altPointer + g.altSize, FrameBytes(a.siginfo);
    var k := if end < MODULUS then 0 else 1;
    WrapIs(end, end - k * MODULUS, k);
    var j := if end - bytes < MODULUS then 0 else 1;
    var target := end - bytes - j * MODULUS;
    WrapIs(Wrap(end) - bytes, target, j - k);
    AlignDown8(target);
    var slack := target - AlignDown(target, 8);
    var offset := g.altSize - bytes - slack;
    WrapIs(AlignDown(target, 8) - g.altPointer, offset, -j);
    WrapIs(g.altPointer + offset, AlignDown(target, 8), j);
  }

  /** A size `guest_signal_altstack` accepts always has room for one frame, even on a stack that wraps around. */
  lemma FirstFrameFitsAltStack(g: Guest, a: Action)
    requires SwitchesStack(g, a) && g.altSize >= MINIMUM_STACK
    ensures Wrap(FrameAddress(g, a) - g.altPointer) + FrameBytes(a.siginfo) <= g.altSize
    ensures g.altPointer + g.altSize <= MODULUS ==>
              && g.altPointer <= FrameAddress(g, a)
              && FrameAddress(g, a) + FrameBytes(a.siginfo) <= g.altPointer + g.altSize
  {
    hide FrameAddress, Wrap;
    FrameOffset(g, a);
    var offset := Wrap(FrameAddress(g, a) - g.altPointer);
    if g.altPointer + g.altSize <= MODULUS {
      NoWrap(g.altPointer + offset);
    }
  }

  /** Where there is room, the new frame touches no live one. */
  lemma RoomIsApart(g: Guest, a: Action, live: seq<Saved>, s: Saved, i: nat)
    requires Room(g, a, live) && i < |live|
    requires s.frame == FrameAddress(g, a) && s.realtime == a.siginfo
    ensures s.frame >= 0 && Apart(live[i], s)
  {
    hide FrameAddress, SwitchesStack, FrameBytes;
    if SwitchesStack(g, a) {
      FirstFrameFitsAltStack(g, a);
    } else {
      FrameBelowStack(g, a);
    }
  }

  lemma ReadPart(m: Memory, base: int, total: nat, offset: nat, count: nat)
    requires offset + count <= total
    ensures Read(m, base + offset, count) == Read(m, base, total)[offset..offset + count]
  {
  }

  /** A frame's words are a block, of which its context is a part. */
  lemma BlockKeepsFrame(m: Memory, n: Memory, s: Saved)
    requires Holds(m, s) && s.frame % 8 == 0 && SameBlock(m, n, s.frame / 4, FrameWords(s.realtime))
    ensures Holds(n, s)
  {
    var base, offset := s.frame / 4, if s.realtime then INFO_WORDS else 0;
    assert (s.frame + ContextOffset(s.realtime)) / 4 == base + offset;
    ReadPart(m, base, FrameWords(s.realtime), offset, UCONTEXT_WORDS);
    ReadPart(n, base, FrameWords(s.realtime), offset, UCONTEXT_WORDS);
    hide UcontextWords, Read;
  }

  lemma EnterKeepsRun(r: Run, t: Trampolines, e: Event)
    requires RunOk(r) && e.Enter? && Allowed(r, t, e)
    requires forall n :: n in ActionFor(r.guest.actions, e.signal).mask ==> 1 <= n <= 64
    ensures Next(r, t, e).Some? && RunOk(Next(r, t, e).value)
  {
    hide Holds, FrameAddress, UcontextWords, Write, Read, HandlerRegisters;
    var a := ActionFor(r.guest.actions, e.signal);
    var n := Next(r, t, e).value;
    var s := SavedBy(r.guest, e.signal, e.fault);
    DeliveryWritesFrame(r.guest, t, e.signal, e.information, e.fault);
    var words := Frame(r.guest, a, e.signal, e.information, e.fault);
    forall i | 0 <= i < |r.live|
      ensures Holds(n.guest.memory, r.live[i]) && Apart(r.live[i], s)
    {
      RoomIsApart(r.guest, a, r.live, s, i);
      WriteElsewhere(r.guest.memory, s.frame / 4, words, r.live[i].frame / 4, FrameWords(r.live[i].realtime));
      BlockKeepsFrame(r.guest.memory, n.guest.memory, r.live[i]);
    }
  }

  lemma ComputeKeepsRun(r: Run, t: Trampolines, e: Event)
    requires RunOk(r) && e.Compute? && Allowed(r, t, e)
    ensures Next(r, t, e).Some? && RunOk(Next(r, t, e).value)
  {
    hide Holds;
    forall i | 0 <= i < |r.live| ensures Holds(e.next.memory, r.live[i]) {
      BlockKeepsFrame(r.guest.memory, e.next.memory, r.live[i]);
    }
  }

  /** A return pops the newest frame and brings back exactly what its delivery saved. */
  lemma LeaveRestores(r: Run, t: Trampolines)
    requires RunOk(r) && Allowed(r, t, Leave)
    ensures Next(r, t, Leave).Some? && RunOk(Next(r, t, Leave).value)
    ensures var s, n := r.live[|r.live| - 1], Next(r, t, Leave).value;
            && n.guest.context == s.context && n.guest.mask == s.mask && n.live == r.live[..|r.live| - 1]
            && n.guest.restore == r.guest.restore && (n.guest.altPointer, n.guest.altSize) == StackAfter(r.guest, s)
  {
    hide Holds, Return, ValidMask;
    var s := r.live[|r.live| - 1];
    ReturnRestores(r.guest, s);
  }

  ghost predicate SaneActions(r: Run) {
    forall n :: n in r.guest.actions ==> ValidMask(r.guest.actions[n].mask)
  }

  /** A whole run: every event allowed where it happens, no handler with an impossible mask. */
  ghost predicate Runs(r: Run, t: Trampolines, events: seq<Event>)
    decreases |events|
  {
    events == [] ||
    (&& SaneActions(r)
     && Allowed(r, t, events[0])
     && Next(r, t, events[0]).Some?
     && Runs(Next(r, t, events[0]).value, t, events[1..]))
  }

  /** Every event allowed where it happens, stopping only if a return rejects its frame. */
  ghost predicate Disciplined(r: Run, t: Trampolines, events: seq<Event>)
    decreases |events|
  {
    events == [] ||
    (&& SaneActions(r)
     && Allowed(r, t, events[0])
     && (Next(r, t, events[0]).Some? ==> Disciplined(Next(r, t, events[0]).value, t, events[1..])))
  }

  ghost function Final(r: Run, t: Trampolines, events: seq<Event>): Run
    requires Runs(r, t, events)
    decreases |events|
  {
    if events == [] then r else Final(Next(r, t, events[0]).value, t, events[1..])
  }

  lemma NextKeepsRun(r: Run, t: Trampolines, e: Event)
    requires RunOk(r) && SaneActions(r) && Allowed(r, t, e)
    ensures Next(r, t, e).Some? && RunOk(Next(r, t, e).value)
  {
    hide RunOk, Allowed, Next;
    match e
    case Enter(_, _, _) => EnterKeepsRun(r, t, e);
    case Compute(_) => ComputeKeepsRun(r, t, e);
    case Leave => LeaveRestores(r, t);
  }

  /**
    In every disciplined run no return is ever rejected, and live frames stay 8-aligned, pairwise
    disjoint and intact.
   */
  lemma {:induction false} NestedRunsNeverFail(r: Run, t: Trampolines, events: seq<Event>)
    requires RunOk(r) && Disciplined(r, t, events)
    ensures Runs(r, t, events) && RunOk(Final(r, t, events))
    decreases |events|
  {
    hide RunOk, Allowed, Next, SaneActions;
    if events != [] {
      NextKeepsRun(r, t, events[0]);
      NestedRunsNeverFail(Next(r, t, events[0]).value, t, events[1..]);
    }
  }

  // ----- matching deliveries and returns

  /** How many more frames are live after the events than before. */
  ghost function Depth(events: seq<Event>): int {
    if events == [] then 0
    else Depth(events[..|events| - 1])
         + (match events[|events| - 1] case Enter(_, _, _) => 1 case Compute(_) => 0 case Leave => -1)
  }

  /** The events never return from a frame that was live before they began. */
  ghost predicate StaysAbove(events: seq<Event>) {
    forall k :: 0 <= k <= |events| ==> Depth(events[..k]) >= 0
  }

  lemma RunsHead(r: Run, t: Trampolines, events: seq<Event>)
    requires events != [] && Runs(r, t, events)
    ensures Next(r, t, events[0]).Some?
    ensures var n := Next(r, t, events[0]).value;
            Runs(n, t, events[1..]) && Final(r, t, events) == Final(n, t, events[1..])
  {
    hide Allowed, Next, SaneActions;
  }

  /** A run's first event followed by a run from there. */
  lemma RunsAgain(r: Run, t: Trampolines, events: seq<Event>, rest: seq<Event>)
    requires events != [] && Runs(r, t, events) && Next(r, t, events[0]).Some?
    requires Runs(Next(r, t, events[0]).value, t, rest)
    ensures Runs(r, t, [events[0]] + rest)
    ensures Final(r, t, [events[0]] + rest) == Final(Next(r, t, events[0]).value, t, rest)
  {
    hide Allowed, Next, SaneActions;
    assert ([events[0]] + rest)[1..] == rest;
  }

  lemma {:induction false} RunPrefix(r: Run, t: Trampolines, events: seq<Event>, k: nat)
    requires Runs(r, t, events) && k <= |events|
    ensures Runs(r, t, events[..k])
    ensures Runs(Final(r, t, events[..k]), t, events[k..])
    ensures Final(Final(r, t, events[..k]), t, events[k..]) == Final(r, t, events)
    decreases k
  {
    if k == 0 {
      hide Allowed, Next, SaneActions;
      assert events[..0] == [] && events[0..] == events;
    } else {
      hide Allowed, Next, SaneActions, Runs, Final;
      RunsHead(r, t, events);
      var n := Next(r, t, events[0]).value;
      RunPrefix(n, t, events[1..], k - 1);
      RunsAgain(r, t, events, events[1..][..k - 1]);
      assert [events[0]] + events[1..][..k - 1] == events[..k];
      assert events[1..][k - 1..] == events[k..];
    }
  }

  /** Frames that were live before stay live, in place and unchanged, while the events stay above them. */
  lemma {:induction false} OuterFramesSurvive(r: Run, t: Trampolines, events: seq<Event>)
    requires Runs(r, t, events) && StaysAbove(events)
    ensures r.live <= Final(r, t, events).live
    ensures |Final(r, t, events).live| == |r.live| + Depth(events)
    decreases |events|
  {
    hide Next, Allowed;
    if events != [] {
      var k := |events| - 1;
      var front := events[..k];
      RunPrefix(r, t, events, k);
      assert forall j :: 0 <= j <= |front| ==> front[..j] == events[..j];
      OuterFramesSurvive(r, t, front);
      var m := Final(r, t, front);
      assert events[k..] == [events[k]] && [events[k]][1..] == [];
      assert Depth(events[..|events|]) >= 0 && events[..|events|] == events;
      OneMore(m, t, events[k]);
    }
  }

  lemma OneMore(m: Run, t: Trampolines, e: Event)
    requires Runs(m, t, [e])
    ensures Final(m, t, [e]) == Next(m, t, e).value
    ensures var n := Next(m, t, e).value;
            match e
            case Enter(_, _, _) => |n.live| == |m.live| + 1 && m.live <= n.live
            case Compute(next) => n == m.(guest := next)
            case Leave => m.live != [] && n.live == m.live[..|m.live| - 1]
  {
    assert [e][1..] == [];
    hide Deliver, Return;
  }

  /**
    However deeply other handlers nested in between, the return that matches a delivery brings back all 16
    registers, the flags and the VFP state of that moment, and its mask, or the mask that was parked then. A handler
    with siginfo that was entered off the alternate stack also brings back the alternate stack of that moment.
   */
  lemma MatchingReturnRestores(r: Run, t: Trampolines, enter: Event, body: seq<Event>)
    requires RunOk(r) && enter.Enter? && StaysAbove(body) && Depth(body) == 0
    requires Runs(r, t, [enter] + body + [Leave])
    ensures var f := Final(r, t, [enter] + body + [Leave]);
            && f.guest.context == r.guest.context && f.guest.mask == SavedMask(r.guest) && f.live == r.live
            && (ActionFor(r.guest.actions, enter.signal).siginfo && !OnAltStack(r.guest) ==>
                  f.guest.altSize == r.guest.altSize
                  && (r.guest.altSize != 0 ==> f.guest.altPointer == r.guest.altPointer))
  {
    hide Deliver, Return, RunOk, SaneActions, OnAltStack;
    var events := [enter] + body + [Leave];
    RunPrefix(r, t, events, 1);
    assert events[..1] == [enter] && events[1..] == body + [Leave];
    OneMore(r, t, enter);
    var entered := Next(r, t, enter).value;
    var s := SavedBy(r.guest, enter.signal, enter.fault);
    assert entered.live == r.live + [s];
    NextKeepsRun(r, t, enter);
    var rest := body + [Leave];
    RunPrefix(entered, t, rest, |body|);
    assert rest[..|body|] == body && rest[|body|..] == [Leave];
    var before := Final(entered, t, body);
    OuterFramesSurvive(entered, t, body);
    assert before.live == entered.live;
    RunKeepsOk(entered, t, body);
    OneMore(before, t, Leave);
    assert Allowed(before, t, Leave);
    LeaveRestores(before, t);
    assert r.live + [s] == before.live && (r.live + [s])[..|r.live|] == r.live;
  }

  lemma {:induction false} RunKeepsOk(r: Run, t: Trampolines, events: seq<Event>)
    requires RunOk(r) && Runs(r, t, events)
    ensures RunOk(Final(r, t, events))
    decreases |events|
  {
    hide RunOk, Allowed, Next, SaneActions;
    if events != [] {
      NextKeepsRun(r, t, events[0]);
      RunKeepsOk(Next(r, t, events[0]).value, t, events[1..]);
    }
  }

  // ----- blocked signals

  /** Over every run a handler is entered only for a signal that has one and is not blocked at that moment. */
  lemma BlockedStaysOut(r: Run, t: Trampolines, events: seq<Event>, k: nat)
    requires Runs(r, t, events) && k < |events| && events[k].Enter?
    ensures Runs(r, t, events[..k])
    ensures var g, signal := Final(r, t, events[..k]).guest, events[k].signal;
            1 <= signal <= 64 && (signal !in g.mask || Synchronous(signal)) && ActionFor(g.actions, signal).handler > 1
  {
    hide Next, Room, SaneActions, Deliver;
    RunPrefix(r, t, events, k);
    var m := Final(r, t, events[..k]);
    assert events[k..][0] == events[k] && Allowed(m, t, events[k]);
    DeliveryIsDecided(m.guest, t, events[k].signal, events[k].information, events[k].fault);
  }

  /** The guest's own code takes none of these signals out of its mask, nor parks a mask without them. */
  ghost predicate NeverUnblocks(events: seq<Event>, blocked: Mask) {
    forall i :: 0 <= i < |events| && events[i].Compute? ==>
      && blocked <= events[i].next.mask
      && (events[i].next.restore.Some? ==> blocked <= events[i].next.restore.value)
  }

  /** The signals are blocked now and in every frame above the first `base`. */
  ghost predicate Blocks(r: Run, base: nat, blocked: Mask) {
    && base <= |r.live| && blocked <= r.guest.mask
    && (r.guest.restore.Some? ==> blocked <= r.guest.restore.value)
    && forall i :: base <= i < |r.live| ==> blocked <= r.live[i].mask
  }

  lemma NextBlocks(r: Run, t: Trampolines, e: Event, base: nat, blocked: Mask)
    requires RunOk(r) && SaneActions(r) && Allowed(r, t, e) && Blocks(r, base, blocked) && NeverUnblocks([e], blocked)
    requires e.Leave? ==> |r.live| > base
    ensures Next(r, t, e).Some? && Blocks(Next(r, t, e).value, base, blocked)
  {
    hide RunOk, Return, Room, Frame, Write, FrameAddress, HandlerRegisters, SavedStack;
    match e
    case Enter(_, _, _) =>
    case Compute(next) => assert [e][0] == e;
    case Leave => LeaveRestores(r, t);
  }

  lemma {:induction false} StaysBlocked(r: Run, t: Trampolines, events: seq<Event>, base: nat, blocked: Mask)
    requires RunOk(r) && Runs(r, t, events) && StaysAbove(events) && base == |r.live|
    requires Blocks(r, base, blocked) && NeverUnblocks(events, blocked)
    ensures Blocks(Final(r, t, events), base, blocked)
    decreases |events|
  {
    hide Next, Allowed, RunOk, Blocks, SaneActions;
    if events != [] {
      var k := |events| - 1;
      var front := events[..k];
      RunPrefix(r, t, events, k);
      assert forall j :: 0 <= j <= |front| ==> front[..j] == events[..j];
      StaysBlocked(r, t, front, base, blocked);
      RunKeepsOk(r, t, front);
      OuterFramesSurvive(r, t, front);
      var m := Final(r, t, front);
      assert events[k..] == [events[k]] && [events[k]][1..] == [];
      assert Depth(events[..|events|]) >= 0 && events[..|events|] == events;
      NextBlocks(m, t, events[k], base, blocked);
      OneMore(m, t, events[k]);
    }
  }

  /**
    While a handler runs, and as long as the guest unblocks nothing itself, neither its own signal nor any signal of
    its mask or of the mask it interrupted enters a handler, however deep other handlers nest.
   */
  lemma HandlerIsNotReentered(r: Run, t: Trampolines, enter: Event, body: seq<Event>, k: nat)
    requires RunOk(r) && enter.Enter? && Runs(r, t, [enter] + body) && StaysAbove(body)
    requires var a := ActionFor(r.guest.actions, enter.signal);
             NeverUnblocks(body, HandlerMask(SavedMask(r.guest), a, enter.signal))
    requires k < |body| && body[k].Enter? && !Synchronous(body[k].signal)
    ensures var a := ActionFor(r.guest.actions, enter.signal);
            && body[k].signal !in SavedMask(r.guest) && body[k].signal !in a.mask
            && (body[k].signal != enter.signal || a.noDefer)
  {
    hide Next, RunOk, SaneActions, Runs, Final, Depth;
    var events := [enter] + body;
    var blocked := HandlerMask(SavedMask(r.guest), ActionFor(r.guest.actions, enter.signal), enter.signal);
    var entered := EntersBlocking(r, t, events);
    assert events[1..] == body;
    var front := body[..k];
    RunPrefix(entered, t, body, k);
    PrefixStaysAbove(body, k);
    assert forall i :: 0 <= i < |front| ==> front[i] == body[i];
    StaysBlocked(entered, t, front, |entered.live|, blocked);
    BlockedStaysOut(entered, t, body, k);
  }

  lemma PrefixStaysAbove(events: seq<Event>, k: nat)
    requires StaysAbove(events) && k <= |events|
    ensures StaysAbove(events[..k])
  {
    hide Depth;
    assert forall j :: 0 <= j <= k ==> events[..k][..j] == events[..j];
  }

  lemma EntersBlocking(r: Run, t: Trampolines, events: seq<Event>) returns (n: Run)
    requires RunOk(r) && events != [] && events[0].Enter? && Runs(r, t, events)
    ensures RunOk(n) && Runs(n, t, events[1..])
    ensures var e := events[0];
            Blocks(n, |n.live|, HandlerMask(SavedMask(r.guest), ActionFor(r.guest.actions, e.signal), e.signal))
  {
    hide RunOk, Frame, Write, FrameAddress, HandlerRegisters, HandlerMask, Room;
    NextKeepsRun(r, t, events[0]);
    n := Next(r, t, events[0]).value;
  }

  // ----- the alternate stack

  /**
    From off the alternate stack a frame goes onto it exactly when the handler asks for it, unless the ordinary stack
    runs into it anyway.
   */
  lemma FrameIsOnAltStackIffAsked(g: Guest, a: Action)
    requires g.altSize >= MINIMUM_STACK && g.altPointer + g.altSize < MODULUS
    requires !(g.altPointer <= g.context.regs[13] < g.altPointer + g.altSize)
    requires !a.onStack ==>
               && g.context.regs[13] >= HOST_SIGNAL_STACK_RESERVE + FrameBytes(a.siginfo)
               && (g.context.regs[13] <= g.altPointer || g.altPointer + g.altSize <= LowestByte(g, a))
    ensures g.altPointer <= FrameAddress(g, a) < g.altPointer + g.altSize <==> a.onStack
  {
    hide FrameAddress, Wrap, FrameBytes;
    NoWrap(g.altPointer + g.altSize);
    FrameHasBytes(a.siginfo);
    if a.onStack {
      FirstFrameFitsAltStack(g, a);
    } else {
      FrameBelowStack(g, a);
    }
  }

  lemma FrameHasBytes(realtime: bool)
    ensures FrameBytes(realtime) > 0
  {
  }

  /**
    A second frame pushed while on the alternate stack stays on it, below the stack pointer, exactly when the
    reserve fits too.
   */
  lemma NestedFrameFitsAltStackIff(g: Guest, a: Action)
    requires OnAltStack(g)
    ensures g.altPointer <= FrameAddress(g, a) && FrameAddress(g, a) + FrameBytes(a.siginfo) <= g.context.regs[13]
       <==> g.context.regs[13] - RoundedUp8(g.altPointer) >= HOST_SIGNAL_STACK_RESERVE + FrameBytes(a.siginfo)
  {
    hide OnAltStack;
    var target := g.context.regs[13] - HOST_SIGNAL_STACK_RESERVE - FrameBytes(a.siginfo);
    if target >= 0 {
      StaysOnAltStack(g, a);
      RoundedBound(g.altPointer, target);
    } else {
      FrameWraps(g, a);
    }
  }

  /** A stack pointer below reserve and frame: the frame lands at the other end of the address space. */
  lemma FrameWraps(g: Guest, a: Action)
    requires OnAltStack(g) && g.context.regs[13] < HOST_SIGNAL_STACK_RESERVE + FrameBytes(a.siginfo)
    ensures FrameAddress(g, a) > g.context.regs[13]
  {
    hide Wrap, AlignDown, OnAltStack;
    var sp, bytes := g.context.regs[13], FrameBytes(a.siginfo);
    var k := if sp >= HOST_SIGNAL_STACK_RESERVE then 0 else 1;
    WrapIs(sp - HOST_SIGNAL_STACK_RESERVE, sp - HOST_SIGNAL_STACK_RESERVE + k * MODULUS, -k);
    var target := sp - HOST_SIGNAL_STACK_RESERVE - bytes + MODULUS;
    WrapIs(StackTop(g, a) - bytes, target, k - 1);
    AlignDown8(target);
  }

  /** On a stack no larger than the reserve every handler entered from a handler leaves the stack. */
  lemma SmallAltStackOverflows(g: Guest, t: Trampolines, signal: int, information: seq<Word>, fault: Word, b: Action)
    requires |information| == INFO_WORDS - 1 && Deliver(g, t, signal, information, fault).Entered?
    requires SwitchesStack(g, ActionFor(g.actions, signal))
    requires MINIMUM_STACK <= g.altSize <= HOST_SIGNAL_STACK_RESERVE && g.altPointer + g.altSize <= UINTPTR_MAX
    ensures var h := Deliver(g, t, signal, information, fault).guest;
            && OnAltStack(h) && h.altPointer == g.altPointer
            && !(h.altPointer <= FrameAddress(h, b) && FrameAddress(h, b) + FrameBytes(b.siginfo) <= h.context.regs[13])
  {
    hide FrameAddress, Frame, Write, RoundedUp8;
    FirstFrameFitsAltStack(g, ActionFor(g.actions, signal));
    NoWrap(g.altPointer + g.altSize);
    var h := Deliver(g, t, signal, information, fault).guest;
    NestedFrameFitsAltStackIff(h, b);
    RoundsUp(h.altPointer);
  }

  lemma RoundsUp(p: Word)
    ensures RoundedUp8(p) >= p
  {
  }

  /** The first multiple of 8 from an address on. */
  function RoundedUp8(p: Word): int {
    p + (8 - p % 8) % 8
  }

  lemma RoundedBound(p: Word, target: int)
    requires target >= 0
    ensures p <= target - target % 8 <==> RoundedUp8(p) <= target
  {
  }

  lemma StaysOnAltStack(g: Guest, a: Action)
    requires OnAltStack(g) && g.context.regs[13] >= HOST_SIGNAL_STACK_RESERVE + FrameBytes(a.siginfo)
    ensures var target := g.context.regs[13] - HOST_SIGNAL_STACK_RESERVE - FrameBytes(a.siginfo);
            FrameAddress(g, a) == target - target % 8
  {
    hide FrameAddress, Wrap;
    NoWrap(g.context.regs[13] - HOST_SIGNAL_STACK_RESERVE);
    var target := g.context.regs[13] - HOST_SIGNAL_STACK_RESERVE - FrameBytes(a.siginfo);
    FrameBelow(g, a, g.context.regs[13] - HOST_SIGNAL_STACK_RESERVE);
    UniqueMultiple(FrameAddress(g, a), target);
  }

  lemma UniqueMultiple(r: int, target: int)
    requires target - 8 < r <= target && r % 8 == 0
    ensures r == target - target % 8
  {
  }
}
