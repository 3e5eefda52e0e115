/** The in-place form of delivery and return (src/guest_signal.c) on one thread's saved context. */
module SignalState {
  import opened Words
  import opened PendingSignals
  import opened SignalFrame
  import opened SignalDelivery

  class SignalThread {
    const regs: array<Word>
    var cpsr: Word
    var vfp: Vfp
    var mask: Mask
    var restore: Option<Mask>
    var altPointer: Word
    var altSize: Word
    var actions: map<int, Action>
    var memory: Memory

    ghost predicate Valid() {
      regs.Length == 16
    }

    /** The thread as a value. */
    function State(): Guest
      requires Valid()
      reads this, regs
    {
      Guest(Context(regs[..], cpsr, vfp), mask, restore, altPointer, altSize, actions, memory)
    }

    constructor (g: Guest)
      ensures Valid() && fresh(regs) && State() == g
    {
      var r := g.context.regs;
      regs := new Word[16](i requires 0 <= i < 16 => r[i]);
      cpsr, vfp := g.context.cpsr, g.context.vfp;
      mask, restore, altPointer, altSize := g.mask, g.restore, g.altPointer, g.altSize;
      actions, memory := g.actions, g.memory;
      new;
      assert regs[..] == r;
    }

    /** `guest_signal_deliver`: -1, 1 or 0. Unless it returns 0 the thread is untouched. */
    method Enter(t: Trampolines, signal: int, information: seq<Word>, fault: Word) returns (code: int)
      requires Valid() && |information| == INFO_WORDS - 1
      modifies this, regs
      ensures var d := Deliver(old(State()), t, signal, information, fault);
              && (code == -1 <==> d.Refused?) && (code == 1 <==> d.LeftPending?) && (code == 0 <==> d.Entered?)
              && State() == if d.Entered? then d.guest else old(State())
    {
      hide Frame, Write, FrameAddress, HandlerMask, HandlerRegisters;
      if signal <= 0 || signal > 64 {
        return -1;
      }
      if signal != SIGILL && signal != SIGSEGV && signal in mask {
        return 1;
      }
      var a := ActionFor(actions, signal);
      if a.handler <= 1 {
        return -1;
      }
      var sp := PushFrame(a, signal, information, fault);
      EnterMask(a, signal);
      SetHandlerRegisters(a, t, signal, sp);
      if a.resetHandler {
        actions := actions[signal := a.(handler := 0)];
      }
      return 0;
    }

    /** The frame is written below the chosen stack; nothing but memory changes. */
    method PushFrame(a: Action, signal: Word, information: seq<Word>, fault: Word) returns (sp: Word)
      requires Valid() && |information| == INFO_WORDS - 1
      modifies `memory
      ensures sp == FrameAddress(old(State()), a)
      ensures memory == Write(old(memory), sp / 4, Frame(old(State()), a, signal, information, fault))
    {
      hide UcontextWords, Write, Wrap, AlignDown, FrameBytes;
      var saved := if restore.Some? then restore.value else mask;
      var on := altSize != 0 && altPointer <= regs[13] < Wrap(altPointer + altSize);
      var top := if a.onStack && altSize != 0 && !on then Wrap(altPointer + altSize)
                 else Wrap(regs[13] - HOST_SIGNAL_STACK_RESERVE);
      sp := AlignDown(Wrap(top - FrameBytes(a.siginfo)), 8);
      var stack := AltStack(altPointer, if on then 1 else if altSize == 0 then 2 else 0, altSize);
      var words := UcontextWords(Context(regs[..], cpsr, vfp), saved, stack, fault);
      if a.siginfo {
        memory := Write(memory, sp / 4, [signal] + information + words + Zeros(RETURN_CODE_WORDS));
      } else {
        memory := Write(memory, sp / 4, [] + words + Zeros(RETURN_CODE_WORDS));
      }
    }

    /** `guest_thread_signal_delivery_mask`, then the handler's own mask. */
    method EnterMask(a: Action, signal: int)
      requires Valid()
      modifies `mask, `restore
      ensures restore == None && mask == HandlerMask(SavedMask(old(State())), a, signal)
    {
      if restore.Some? {
        mask := restore.value;
        restore := None;
      }
      mask := mask + a.mask;
      if !a.noDefer {
        mask := mask + {signal};
      }
    }

    method SetHandlerRegisters(a: Action, t: Trampolines, signal: Word, sp: Word)
      requires Valid()
      modifies regs
      ensures regs[..] == HandlerRegisters(old(regs[..]), a, signal, sp, t)
    {
      hide Wrap;
      regs[0] := signal;
      if a.siginfo {
        regs[1] := sp;
        regs[2] := Wrap(sp + 128);
      }
      regs[13] := sp;
      regs[14] := if a.restorer.Some? then a.restorer.value else if a.siginfo then t.realtime else t.plain;
      regs[15] := a.handler;
    }

    /** `guest_signal_return`: false rejects the frame and leaves the thread as it was. */
    method Leave(realtime: bool) returns (ok: bool)
      requires Valid()
      modifies this, regs
      ensures var r := Return(old(State()), realtime);
              ok == r.Some? && State() == if ok then r.value else old(State())
    {
      hide ReadVfp, WordsMask, Read;
      var sp := regs[13];
      if sp % 8 != 0 {
        return false;
      }
      var words := Read(memory, (sp + ContextOffset(realtime)) / 4, UCONTEXT_WORDS);
      var v := ReadVfp(words[58..186], vfp);
      if v.None? {
        return false;
      }
      vfp := v.value;
      mask := WordsMask(words[26], words[27]);
      for i := 0 to 16
        modifies regs
        invariant forall k :: 0 <= k < i ==> regs[k] == words[8 + k]
      {
        regs[i] := words[8 + i];
      }
      assert regs[..] == words[8..24];
      cpsr := words[24];
      if realtime {
        if words[3] == 2 {
          altPointer, altSize := 0, 0;
        } else if words[3] == 0 {
          altPointer, altSize := words[2], words[4];
        }
      }
      return true;
    }
  }
}
