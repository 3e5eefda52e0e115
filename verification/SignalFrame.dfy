/**
  The Linux ARM signal frame (src/guest_signal.c): how registers, flags, floating-point state and the
  signal mask are laid out in guest memory, and how they are read back.
 */
module SignalFrame {
  import opened Words
  import opened PendingSignals

  const VFP_MAGIC: Word := 0x5646_5001
  const VFP_FRAME_SIZE: Word := 288
  const UCONTEXT_WORDS: nat := 186
  const INFO_WORDS: nat := 32
  const RETURN_CODE_WORDS: nat := 4

  type Registers = r: seq<Word> | |r| == 16 witness seq(16, _ => 0)
  type VfpRegisters = r: seq<Word> | |r| == 64 witness seq(64, _ => 0)

  datatype Vfp = Vfp(x: VfpRegisters, fpscr: Word, fpexc: Word, fpinst: Word, fpinst2: Word)

  /** The interrupted machine state a frame has to bring back. */
  datatype Context = Context(regs: Registers, cpsr: Word, vfp: Vfp)

  /** Guest memory by word index (byte address divided by four). */
  type Memory = int -> Word

  // ----- masks as two words

  ghost predicate ValidMask(mask: Mask) {
    forall n :: n in mask ==> 1 <= n <= 64
  }

  /** Bits for signals first .. first+count-1, lowest signal in the lowest bit. */
  function MaskBits(mask: Mask, first: int, count: nat): (w: nat)
    decreases count
  {
    if count == 0 then 0 else (if first in mask then 1 else 0) + 2 * MaskBits(mask, first + 1, count - 1)
  }

  function BitsMask(w: nat, first: int, count: nat): Mask
    decreases count
  {
    if count == 0 then {} else (if w % 2 == 1 then {first} else {}) + BitsMask(w / 2, first + 1, count - 1)
  }

  ghost function Pow2(n: nat): nat {
    if n == 0 then 1 else 2 * Pow2(n - 1)
  }

  lemma {:induction false} MaskBitsBound(mask: Mask, first: int, count: nat)
    ensures MaskBits(mask, first, count) < Pow2(count)
    decreases count
  {
    if count > 0 {
      MaskBitsBound(mask, first + 1, count - 1);
    }
  }

  lemma {:induction false} BitsMaskInverse(mask: Mask, first: int, count: nat)
    ensures BitsMask(MaskBits(mask, first, count), first, count) == set n | n in mask && first <= n < first + count
    decreases count
  {
    if count > 0 {
      BitsMaskInverse(mask, first + 1, count - 1);
      var rest := MaskBits(mask, first + 1, count - 1);
      assert ((if first in mask then 1 else 0) + 2 * rest) / 2 == rest;
    }
  }

  lemma Pow2Of32()
    ensures Pow2(32) == MODULUS
  {
    assert Pow2(8) == 256 by {
      assert Pow2(4) == 16;
    }
    assert Pow2(16) == 65536 by {
      assert Pow2(12) == 4096;
    }
    assert Pow2(24) == 0x100_0000 by {
      assert Pow2(20) == 0x10_0000;
    }
    assert Pow2(28) == 0x1000_0000;
  }

  function MaskWords(mask: Mask): (r: seq<Word>)
    ensures |r| == 2
  {
    MaskBitsBound(mask, 1, 32);
    MaskBitsBound(mask, 33, 32);
    Pow2Of32();
    [MaskBits(mask, 1, 32), MaskBits(mask, 33, 32)]
  }

  function WordsMask(low: Word, high: Word): Mask {
    BitsMask(low, 1, 32) + BitsMask(high, 33, 32)
  }

  lemma MaskRoundTrip(mask: Mask)
    requires ValidMask(mask)
    ensures WordsMask(MaskWords(mask)[0], MaskWords(mask)[1]) == mask
  {
    BitsMaskInverse(mask, 1, 32);
    BitsMaskInverse(mask, 33, 32);
  }

  // ----- layout

  function Zeros(n: nat): (r: seq<Word>)
    ensures |r| == n
  {
    seq(n, _ => 0)
  }

  /** `save_vfp`: 128 words of coprocessor space. */
  function VfpWords(v: Vfp): (r: seq<Word>)
    ensures |r| == 128
  {
    [VFP_MAGIC, VFP_FRAME_SIZE] + v.x + [v.fpscr, 0, v.fpexc, v.fpinst, v.fpinst2] + Zeros(57)
  }

  /** `restore_vfp`: None rejects the frame, a zero magic keeps the current state. */
  function ReadVfp(space: seq<Word>, current: Vfp): Option<Vfp>
    requires |space| == 128
  {
    if space[0] == 0 then Some(current)
    else if space[0] != VFP_MAGIC || space[1] != VFP_FRAME_SIZE then None
    else Some(Vfp(space[2..66], space[66], space[68], space[69], space[70]))
  }

  lemma Slice<T>(a: seq<T>, b: seq<T>, c: seq<T>)
    ensures (a + b + c)[|a|..|a| + |b|] == b
  {
  }

  lemma VfpRoundTrip(v: Vfp, current: Vfp)
    ensures ReadVfp(VfpWords(v), current) == Some(v)
  {
    var head: seq<Word> := [VFP_MAGIC, VFP_FRAME_SIZE];
    var tail: seq<Word> := [v.fpscr, 0, v.fpexc, v.fpinst, v.fpinst2] + Zeros(57);
    assert VfpWords(v) == head + v.x + tail;
    Slice(head, v.x, tail);
    assert VfpWords(v)[66..] == tail;
  }

  /** The saved stack description: pointer, flags and size. */
  datatype AltStack = AltStack(pointer: Word, flags: Word, size: Word)

  /** `prepare_context` and the stack fields: `struct linux_ucontext` as words. */
  function UcontextWords(c: Context, mask: Mask, stack: AltStack, fault: Word): (r: seq<Word>)
    ensures |r| == UCONTEXT_WORDS
  {
    UcontextHead(mask, stack) + c.regs + UcontextTail(c, mask, fault)
  }

  function UcontextHead(mask: Mask, stack: AltStack): (r: seq<Word>)
    ensures |r| == 8
  {
    [0, 0, stack.pointer, stack.flags, stack.size, 0, 0, MaskWords(mask)[0]]
  }

  function UcontextTail(c: Context, mask: Mask, fault: Word): (r: seq<Word>)
    ensures |r| == 162
  {
    [c.cpsr, fault] + MaskWords(mask) + Zeros(30) + VfpWords(c.vfp)
  }

  /** What `guest_signal_return` reads from a ucontext. */
  datatype Restored = Restored(context: Context, mask: Mask, stack: AltStack)

  function ReadUcontext(words: seq<Word>, current: Vfp): Option<Restored>
    requires |words| == UCONTEXT_WORDS
  {
    var vfp := ReadVfp(words[58..186], current);
    if vfp.None? then None
    else Some(Restored(Context(words[8..24], words[24], vfp.value), WordsMask(words[26], words[27]),
                       AltStack(words[2], words[3], words[4])))
  }

  /** Reading back a prepared context gives exactly what was saved, whatever the current VFP state. */
  lemma UcontextRoundTrip(c: Context, mask: Mask, stack: AltStack, fault: Word, current: Vfp)
    requires ValidMask(mask)
    ensures ReadUcontext(UcontextWords(c, mask, stack, fault), current) == Some(Restored(c, mask, stack))
  {
    var head, tail := UcontextHead(mask, stack), UcontextTail(c, mask, fault);
    var words := head + c.regs + tail;
    hide MaskWords, WordsMask, VfpWords, ReadVfp;
    Slice(head, c.regs, tail);
    assert words[24..] == tail;
    var fixed: seq<Word> := [c.cpsr, fault] + MaskWords(mask) + Zeros(30);
    assert tail == fixed + VfpWords(c.vfp);
    assert words[58..186] == VfpWords(c.vfp);
    assert words[24] == tail[0] && words[26] == tail[2] && words[27] == tail[3];
    VfpRoundTrip(c.vfp, current);
    MaskRoundTrip(mask);
  }

  // ----- frames in memory

  function FrameWords(realtime: bool): nat {
    (if realtime then INFO_WORDS else 0) + UCONTEXT_WORDS + RETURN_CODE_WORDS
  }

  /** `sizeof(struct linux_rt_sigframe)` is 888 and `sizeof(struct linux_sigframe)` is 760. */
  function FrameBytes(realtime: bool): nat {
    4 * FrameWords(realtime)
  }

  function ContextOffset(realtime: bool): nat {
    if realtime then 4 * INFO_WORDS else 0
  }

  function Write(m: Memory, base: int, words: seq<Word>): Memory {
    (i: int) => if base <= i < base + |words| then words[i - base] else m(i)
  }

  function Read(m: Memory, base: int, count: nat): (r: seq<Word>)
    ensures |r| == count && forall i :: 0 <= i < count ==> r[i] == m(base + i)
  {
    seq(count, i requires 0 <= i < count => m(base + i))
  }

  lemma ReadOwnWrite(m: Memory, base: int, words: seq<Word>, offset: nat, count: nat)
    requires offset + count <= |words|
    ensures Read(Write(m, base, words), base + offset, count) == words[offset..offset + count]
  {
  }

  /** Two memories agree on a block of words. */
  ghost predicate SameBlock(m: Memory, n: Memory, base: int, count: nat) {
    Read(m, base, count) == Read(n, base, count)
  }

  /** A write above or below a block does not disturb it. */
  lemma WriteElsewhere(m: Memory, base: int, words: seq<Word>, block: int, count: nat)
    requires base + |words| <= block || block + count <= base
    ensures SameBlock(m, Write(m, base, words), block, count)
  {
  }

  // ----- the layout Linux programs rely on

  /** Frames are 888 and 760 bytes long, as `struct linux_rt_sigframe` and `struct linux_sigframe` are. */
  lemma FrameSizes()
    ensures FrameBytes(true) == 888 && FrameBytes(false) == 760
    ensures ContextOffset(true) == 128 && ContextOffset(false) == 0
  {
  }

  lemma {:induction false} BitOf(mask: Mask, first: int, count: nat, k: nat)
    requires k < count
    ensures Pow2(k) > 0 && (MaskBits(mask, first, count) / Pow2(k) % 2 == 1 <==> first + k in mask)
    decreases count
  {
    hide MaskBits, Pow2;
    MaskBitsStep(mask, first, count);
    Pow2Step(k);
    if k > 0 {
      BitOf(mask, first + 1, count - 1, k - 1);
      HalveDivision(if first in mask then 1 else 0, MaskBits(mask, first + 1, count - 1), Pow2(k - 1));
    }
  }

  lemma MaskBitsStep(mask: Mask, first: int, count: nat)
    requires count > 0
    ensures MaskBits(mask, first, count)
         == (if first in mask then 1 else 0) + 2 * MaskBits(mask, first + 1, count - 1)
  {
  }

  lemma Pow2Step(k: nat)
    ensures Pow2(k) == if k == 0 then 1 else 2 * Pow2(k - 1)
  {
  }

  lemma HalveDivision(low: nat, rest: nat, p: nat)
    requires low <= 1 && p > 0
    ensures (low + 2 * rest) / (2 * p) == rest / p
  {
    var q, r := rest / p, rest % p;
    assert rest == q * p + r;
    assert low + 2 * rest == q * (2 * p) + (low + 2 * r);
    assert 0 <= low + 2 * r < 2 * p;
    DivisionIs(low + 2 * rest, 2 * p, q, low + 2 * r);
  }

  /** Signal n is bit (n - 1) % 32 of word (n - 1) / 32. */
  lemma MaskBit(mask: Mask, n: int)
    requires 1 <= n <= 64
    ensures var bit := Pow2((n - 1) % 32);
            bit > 0 && (MaskWords(mask)[(n - 1) / 32] / bit % 2 == 1 <==> n in mask)
  {
    hide MaskBits, Pow2;
    if n <= 32 {
      BitOf(mask, 1, 32, n - 1);
    } else {
      BitOf(mask, 33, 32, n - 33);
    }
  }

  /** Where a program finds the parts of `struct linux_ucontext`, by byte offset divided by four. */
  lemma UcontextLayout(c: Context, mask: Mask, stack: AltStack, fault: Word)
    ensures var u := UcontextWords(c, mask, stack, fault);
            && u[8 / 4] == stack.pointer && u[12 / 4] == stack.flags && u[16 / 4] == stack.size
            && u[28 / 4] == MaskWords(mask)[0]
            && (forall i :: 0 <= i < 16 ==> u[32 / 4 + i] == c.regs[i])
            && u[96 / 4] == c.cpsr && u[100 / 4] == fault
            && u[104 / 4] == MaskWords(mask)[0] && u[108 / 4] == MaskWords(mask)[1]
            && u[232 / 4] == 0x5646_5001 && u[236 / 4] == 288
            && (forall i :: 0 <= i < 64 ==> u[240 / 4 + i] == c.vfp.x[i])
            && u[496 / 4] == c.vfp.fpscr && u[504 / 4] == c.vfp.fpexc && u[508 / 4] == c.vfp.fpinst
            && u[512 / 4] == c.vfp.fpinst2
  {
    hide MaskWords;
    var head, tail := UcontextHead(mask, stack), UcontextTail(c, mask, fault);
    var u := UcontextWords(c, mask, stack, fault);
    assert u[24..] == tail;
    assert tail[34..] == VfpWords(c.vfp);
    assert u[58..] == VfpWords(c.vfp);
  }
}
