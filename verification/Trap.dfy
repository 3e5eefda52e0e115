/**
  Trap emulation (src/trap.c): running patched code under the SIGILL handler is running the
  unpatched program on a Linux machine.
 */
module Trap {
  import opened Words
  import opened ArmPatch

  type Registers = r: seq<Word> | |r| == 16 witness seq(16, _ => 0)

  /** Guest registers, flags, the guest thread pointer, and everything else a system call can touch. */
  datatype Machine<W> = Machine(regs: Registers, cpsr: Word, tls: Word, world: W) {
    function Pc(): Word {
      regs[15]
    }

    function With(register: nat, value: Word): Machine<W>
      requires register < 16
    {
      this.(regs := regs[register := value])
    }
  }

  /** Either the guest goes on, or the emulator ends the process with `fatal_signal`. */
  datatype Effect<W> = Continue(m: Machine<W>) | Fatal

  /**
    The surroundings of the handler: the processor's other instructions, what the host would do for
    a native system call, the system-call translator and the signal machinery. Instructions and system calls
    may look at the code; `looksAt` says where.
   */
  datatype Env<!W> = Env(
    undefined: bv32 -> bool,
    looksAt: (bv32, Machine<W>) -> set<Word>,
    execute: (bv32, Machine<W>, Code) -> Machine<W>,
    hostService: Machine<W> -> Machine<W>,
    hostThreadPointer: Word,
    executable: Word -> bool,
    dispatch: (Machine<W>, Code) -> Machine<W>,
    deliverPending: (Machine<W>, Word, Word) -> Machine<W>,
    sigreturn: (Machine<W>, bool) -> Option<Machine<W>>,
    deliverIllegal: Machine<W> -> Option<Machine<W>>,
    plainTrampoline: Word,
    realtimeTrampoline: Word)

  predicate SameOn(at: set<Word>, c: Code, d: Code) {
    forall a :: a in at ==> (a in c <==> a in d) && (a in c ==> c[a] == d[a])
  }

  /** Instructions and system calls depend on the code only where they read it. */
  ghost predicate Local<W(!new)>(env: Env<W>) {
    && (forall w, m, c, d :: SameOn(env.looksAt(w, m), c, d) ==> env.execute(w, m, c) == env.execute(w, m, d))
    && (forall m, c, d :: SameOn(env.looksAt(ARM_LINUX_SVC_0, m), c, d) ==> env.dispatch(m, c) == env.dispatch(m, d))
  }

  /** The trap word is undefined on the processor; the words being replaced are not. */
  ghost predicate Sane<W(!new)>(env: Env<W>) {
    && env.undefined(ARM_UDF_TRAP)
    && (forall w :: Patchable(w) ==> !env.undefined(w))
    && Local(env)
  }

  function Destination(word: bv32): (d: nat)
    ensures d < 16
  {
    ((word >> 12) & 15) as nat
  }

  function Following(pc: Word): Word {
    Wrap(pc + 4)
  }

  function OrFatal<W>(m: Option<Machine<W>>): Effect<W> {
    if m.Some? then Continue(m.value) else Fatal
  }

  function Illegal<W>(env: Env<W>, m: Machine<W>): Effect<W> {
    if env.executable(m.Pc()) then OrFatal(env.deliverIllegal(m)) else Fatal
  }

  // ----- the program the guest wrote, on a Linux machine

  function LinuxService<W>(env: Env<W>, program: Code, m: Machine<W>): Effect<W> {
    if m.regs[7] == 119 then OrFatal(env.sigreturn(m, false))
    else if m.regs[7] == 173 then OrFatal(env.sigreturn(m, true))
    else Continue(env.deliverPending(env.dispatch(m, program).With(15, Following(m.Pc())), m.regs[7], m.regs[0]))
  }

  /** Reading into r15 sets the condition flags instead of a register. */
  function LinuxTlsRead<W>(m: Machine<W>, d: nat): Machine<W>
    requires d < 16
  {
    (if d == 15 then m.(cpsr := m.cpsr % 0x1000_0000 + m.tls / 0x1000_0000 * 0x1000_0000) else m.With(d, m.tls))
    .With(15, Following(m.Pc()))
  }

  function LinuxStep<W>(env: Env<W>, program: Code, word: bv32, m: Machine<W>): Effect<W> {
    if word == ARM_LINUX_SVC_0 then LinuxService(env, program, m)
    else if IsTlsRead(word) then Continue(LinuxTlsRead(m, Destination(word)))
    else if env.undefined(word) then Illegal(env, m)
    else Continue(env.execute(word, m, program))
  }

  // ----- the patched program on the host

  /** `trap_handler` for SIGILL. */
  ghost function HandleIllegal<W>(env: Env<W>, code: Code, table: seq<Record>, m: Machine<W>): Effect<W> {
    var pc := m.Pc();
    var original := First(table, pc);
    if pc == env.plainTrampoline then OrFatal(env.sigreturn(m, false))
    else if pc == env.realtimeTrampoline then OrFatal(env.sigreturn(m, true))
    else if original.None? then Illegal(env, m)
    else if IsTlsRead(original.value) then
      Continue(m.With(Destination(original.value), m.tls).With(15, Following(pc)))
    else if original.value == ARM_LINUX_SVC_0 then
      if m.regs[7] == 119 then OrFatal(env.sigreturn(m, false))
      else if m.regs[7] == 173 then OrFatal(env.sigreturn(m, true))
      else Continue(env.deliverPending(env.dispatch(m, code).With(15, Following(pc)), m.regs[7], m.regs[0]))
    else Fatal
  }

  ghost function HostStep<W>(env: Env<W>, code: Code, table: seq<Record>, m: Machine<W>): Effect<W>
    requires m.Pc() in code
  {
    var word := code[m.Pc()];
    if env.undefined(word) then HandleIllegal(env, code, table, m)
    else if word == ARM_LINUX_SVC_0 then Continue(env.hostService(m))
    else if IsTlsRead(word) then
      Continue(m.With(Destination(word), env.hostThreadPointer).With(15, Following(m.Pc())))
    else Continue(env.execute(word, m, code))
  }

  /** The saved context of one trap, edited in place by the handler. */
  class Context<W(==)> {
    const gpr: array<Word>
    var cpsr: Word
    var tls: Word
    var world: W

    constructor (m: Machine<W>)
      ensures gpr.Length == 16 && fresh(gpr) && State() == m
    {
      gpr := new Word[16](i requires 0 <= i < 16 => m.regs[i]);
      cpsr, tls, world := m.cpsr, m.tls, m.world;
      new;
      assert gpr[..] == m.regs;
    }

    function State(): Machine<W>
      requires gpr.Length == 16
      reads this, gpr
    {
      Machine(gpr[..], cpsr, tls, world)
    }

    method Store(m: Machine<W>)
      requires gpr.Length == 16
      modifies this, gpr
      ensures State() == m
    {
      var i := 0;
      while i < 16
        invariant i <= 16 && gpr[..i] == m.regs[..i]
      {
        gpr[i] := m.regs[i];
        i := i + 1;
      }
      cpsr, tls, world := m.cpsr, m.tls, m.world;
      assert gpr[..] == gpr[..16] == m.regs;
    }

    method StoreOrFail(m: Option<Machine<W>>) returns (alive: bool)
      requires gpr.Length == 16
      modifies this, gpr
      ensures alive == m.Some? && (alive ==> State() == m.value)
    {
      if m.Some? {
        Store(m.value);
      }
      return m.Some?;
    }

    /** `trap_handler` on SIGILL: branch on the patch record and edit the saved registers. */
    method Handle(env: Env<W>, patches: PatchTable) returns (alive: bool)
      requires gpr.Length == 16 && patches.Valid() && gpr as object != patches.patches
      modifies this, gpr
      ensures HandleIllegal(env, patches.code, patches.Table(), old(State()))
           == if alive then Continue(State()) else Fatal
    {
      hide First;
      var pc := gpr[15];
      var original := patches.Original(pc);
      ghost var m := State();
      ghost var table := patches.Table();
      if pc == env.plainTrampoline {
        alive := StoreOrFail(env.sigreturn(State(), false));
        return;
      }
      if pc == env.realtimeTrampoline {
        alive := StoreOrFail(env.sigreturn(State(), true));
        return;
      }
      if original.None? {
        if env.executable(pc) {
          alive := StoreOrFail(env.deliverIllegal(State()));
          return;
        }
        return false;
      }
      if IsTlsRead(original.value) {
        gpr[Destination(original.value)] := tls;
        assert State() == m.With(Destination(original.value), m.tls);
      } else if original.value == ARM_LINUX_SVC_0 {
        var syscallNumber := gpr[7];
        var originalR0 := gpr[0];
        if gpr[7] == 119 {
          alive := StoreOrFail(env.sigreturn(State(), false));
          return;
        }
        if gpr[7] == 173 {
          alive := StoreOrFail(env.sigreturn(State(), true));
          return;
        }
        Store(env.dispatch(State(), patches.code));
        ghost var dispatched := State();
        gpr[15] := Following(pc);
        assert State() == dispatched.With(15, Following(pc));
        Store(env.deliverPending(State(), syscallNumber, originalR0));
        return true;
      } else {
        return false;
      }
      ghost var emulated := State();
      gpr[15] := Following(pc);
      assert State() == emulated.With(15, Following(pc));
      return true;
    }
  }

  // ----- simulation

  /** The word the guest means at an address: the remembered original behind an undefined word. */
  ghost function Intended<W>(env: Env<W>, code: Code, table: seq<Record>, a: Word): bv32
    requires a in code
  {
    if env.undefined(code[a]) && First(table, a).Some? then First(table, a).value else code[a]
  }

  ghost predicate OnlyPatchable(table: seq<Record>) {
    forall i :: 0 <= i < |table| ==> Patchable(table[i].original)
  }

  /** The address runs guest code in which nothing is left to patch. */
  ghost predicate Clean<W>(env: Env<W>, code: Code, pc: Word) {
    && pc in code
    && !Patchable(code[pc])
    && pc != env.plainTrampoline
    && pc != env.realtimeTrampoline
  }

  ghost predicate ReadsIntoPc(word: bv32) {
    IsTlsRead(word) && Destination(word) == 15
  }

  lemma OriginalIsPatchable(table: seq<Record>, a: Word)
    requires OnlyPatchable(table) && First(table, a).Some?
    ensures Patchable(First(table, a).value)
  {
    FirstFindsRecords(table, a);
    hide First;
    var i :| 0 <= i < |table| && table[i] == Record(a, First(table, a).value);
  }

  /** The code word means what the program says at every address. */
  ghost predicate Represents<W>(env: Env<W>, code: Code, table: seq<Record>, program: Code) {
    && OnlyPatchable(table) && program.Keys == code.Keys
    && forall a: Word :: a in code ==> program[a] == Intended(env, code, table, a)
  }

  /** A trap word stands where the program has another. */
  ghost predicate Hidden<W>(env: Env<W>, code: Code, table: seq<Record>, a: Word) {
    a in code && env.undefined(code[a]) && First(table, a).Some?
  }

  /** What the word at the program counter reads of the code is not hidden behind a trap word. */
  ghost predicate LooksAway<W>(env: Env<W>, code: Code, table: seq<Record>, word: bv32, m: Machine<W>) {
    forall a :: a in env.looksAt(word, m) ==> !Hidden(env, code, table, a)
  }

  /** Code and program agree at an address exactly when no trap word hides the program there. */
  lemma SameWordIffNotHidden<W(!new)>(env: Env<W>, code: Code, table: seq<Record>, program: Code, a: Word)
    requires Sane(env) && Represents(env, code, table, program) && a in code
    ensures code[a] == program[a] <==> !Hidden(env, code, table, a)
  {
    hide First, Local, Patchable;
    if Hidden(env, code, table, a) {
      OriginalIsPatchable(table, a);
    }
  }

  lemma LooksAwayIsSame<W(!new)>(env: Env<W>, code: Code, table: seq<Record>, program: Code, word: bv32, m: Machine<W>)
    requires Sane(env) && Represents(env, code, table, program) && LooksAway(env, code, table, word, m)
    ensures SameOn(env.looksAt(word, m), code, program)
  {
    hide Hidden, Intended, Sane, OnlyPatchable;
    forall a | a in env.looksAt(word, m) && a in code ensures code[a] == program[a] {
      SameWordIffNotHidden(env, code, table, program, a);
    }
  }

  lemma ReadsTheSame<W(!new)>(env: Env<W>, code: Code, table: seq<Record>, program: Code, m: Machine<W>)
    requires Sane(env) && Represents(env, code, table, program) && m.Pc() in program
    requires LooksAway(env, code, table, program[m.Pc()], m)
    ensures env.execute(program[m.Pc()], m, code) == env.execute(program[m.Pc()], m, program)
    ensures program[m.Pc()] == ARM_LINUX_SVC_0 ==> env.dispatch(m, code) == env.dispatch(m, program)
  {
    hide LooksAway, Represents, SameOn, Patchable;
    LooksAwayIsSame(env, code, table, program, program[m.Pc()], m);
  }

  /** One host step on patched code is one Linux step on the program, for every machine state. */
  lemma StepSimulates<W(!new)>(env: Env<W>, code: Code, table: seq<Record>, program: Code, m: Machine<W>)
    requires Sane(env) && Represents(env, code, table, program) && Clean(env, code, m.Pc())
    requires !ReadsIntoPc(program[m.Pc()]) && LooksAway(env, code, table, program[m.Pc()], m)
    ensures HostStep(env, code, table, m) == LinuxStep(env, program, program[m.Pc()], m)
  {
    ReadsTheSame(env, code, table, program, m);
    hide First, Local, LooksAway, OnlyPatchable;
    assert program[m.Pc()] == Intended(env, code, table, m.Pc());
    if env.undefined(code[m.Pc()]) && First(table, m.Pc()).Some? {
      OriginalIsPatchable(table, m.Pc());
    }
    if IsTlsRead(program[m.Pc()]) {
      assert program[m.Pc()] != ARM_LINUX_SVC_0;
    }
  }

  /**
    An undefined word without a record is the guest's own: it gets the signal when its address is executable and the
    delivery succeeds, and ends the process otherwise.
   */
  lemma OwnIllegalIsDelivered<W>(env: Env<W>, code: Code, table: seq<Record>, m: Machine<W>)
    requires Clean(env, code, m.Pc()) && env.undefined(code[m.Pc()]) && First(table, m.Pc()).None?
    ensures var delivered := env.deliverIllegal(m);
            HostStep(env, code, table, m)
            == if env.executable(m.Pc()) && delivered.Some? then Continue(delivered.value) else Fatal
  {
    hide First;
  }

  /** The thread-pointer read into register d. */
  function TlsRead(d: nat): bv32
    requires d < 16
  {
    ARM_TPIDRURO_READ | ((d as bv32) << 12)
  }

  /** Each of the sixteen reads names its register. */
  lemma DestinationOfRead(d: nat)
    requires d < 16
    ensures IsTlsRead(TlsRead(d)) && Destination(TlsRead(d)) == d
  {
    var b := d as bv32;
    assert b as nat == d;
    assert b < 16;
    FieldOfRead(b);
  }

  lemma FieldOfRead(b: bv32)
    requires b < 16
    ensures ((ARM_TPIDRURO_READ | (b << 12)) >> 12) & 15 == b
    ensures (ARM_TPIDRURO_READ | (b << 12)) & ARM_TPIDRURO_MASK == ARM_TPIDRURO_READ
  {
  }

  /** There are no other reads. */
  lemma ReadsAreSixteen(word: bv32)
    requires IsTlsRead(word)
    ensures word == TlsRead(Destination(word))
  {
    assert word == ARM_TPIDRURO_READ | (((word >> 12) & 15) << 12);
  }

  /** What a trap on a patched read leaves: the thread pointer in its register, the next instruction, nothing else. */
  lemma PatchedReadIsEmulated<W(!new)>(env: Env<W>, code: Code, table: seq<Record>, m: Machine<W>, d: nat)
    requires Sane(env) && Clean(env, code, m.Pc()) && env.undefined(code[m.Pc()])
    requires d < 15 && First(table, m.Pc()) == Some(TlsRead(d))
    ensures var e := HostStep(env, code, table, m);
            && e.Continue? && e.m.regs[d] == m.tls && e.m.regs[15] == (m.Pc() + 4) % 0x1_0000_0000
            && (forall i :: 0 <= i < 15 && i != d ==> e.m.regs[i] == m.regs[i])
            && e.m.cpsr == m.cpsr && e.m.tls == m.tls && e.m.world == m.world
  {
    hide First, Local, Destination, IsTlsRead, TlsRead;
    DestinationOfRead(d);
  }

  /**
    What a trap on a patched system call does: the two returns from handlers go to sigreturn; any other call is
    dispatched, continues behind the instruction, and ends with the delivery of pending signals, which is told the
    call's number and first argument as they were before.
   */
  lemma PatchedCallIsDispatched<W(!new)>(env: Env<W>, code: Code, table: seq<Record>, m: Machine<W>)
    requires Sane(env) && Clean(env, code, m.Pc()) && env.undefined(code[m.Pc()])
    requires First(table, m.Pc()) == Some(ARM_LINUX_SVC_0)
    ensures var e, number := HostStep(env, code, table, m), m.regs[7];
            if number == 119 || number == 173 then
              var back := env.sigreturn(m, number == 173);
              e == if back.Some? then Continue(back.value) else Fatal
            else
              var after := env.dispatch(m, code);
              var next: Registers := after.regs[15 := (m.Pc() + 4) % 0x1_0000_0000];
              e == Continue(env.deliverPending(after.(regs := next), number, m.regs[0]))
  {
    hide First, Local;
  }

  /** A patched read into r15 is emulated exactly when the flags already equal the thread pointer's top bits. */
  lemma ReadIntoPcIsExactIffFlagsAgree<W(!new)>(env: Env<W>, code: Code, table: seq<Record>, program: Code,
                                                m: Machine<W>)
    requires Sane(env) && Clean(env, code, m.Pc()) && env.undefined(code[m.Pc()])
    requires ReadsIntoPc(Intended(env, code, table, m.Pc()))
    ensures HostStep(env, code, table, m) == LinuxStep(env, program, Intended(env, code, table, m.Pc()), m)
       <==> m.cpsr / 0x1000_0000 == m.tls / 0x1000_0000
  {
    hide First, Local;
    var w := Intended(env, code, table, m.Pc());
    assert w != ARM_LINUX_SVC_0;
    var pc := m.Pc();
    assert m.regs[15 := m.tls][15 := Following(pc)] == m.regs[15 := Following(pc)];
    assert First(table, pc) == Some(w);
    var high, low := m.cpsr / 0x1000_0000, m.cpsr % 0x1000_0000;
    assert m.cpsr == low + high * 0x1000_0000;
    var emulated := m.With(15, m.tls).With(15, Following(pc));
    assert HostStep(env, code, table, m) == Continue(emulated);
    assert LinuxStep(env, program, w, m) == Continue(LinuxTlsRead(m, 15));
    assert emulated == LinuxTlsRead(m, 15) <==> m.cpsr == LinuxTlsRead(m, 15).cpsr;
  }

  /** The word is an ordinary instruction that loads the code word at a into a register; `value` is its number. */
  ghost predicate LoadsWord<W(!new)>(env: Env<W>, word: bv32, m: Machine<W>, a: Word, register: nat,
                                     value: bv32 -> Word)
  {
    && register < 15 && !Patchable(word) && !env.undefined(word)
    && (forall x, y :: value(x) == value(y) ==> x == y)
    && forall c: Code :: a in c ==>
         env.execute(word, m, c) == m.With(register, value(c[a])).With(15, Following(m.Pc()))
  }

  /** A load from code is exact if and only if no trap word hides what it loads. */
  lemma LoadIsExactIffNotHidden<W(!new)>(env: Env<W>, code: Code, table: seq<Record>, program: Code, m: Machine<W>,
                                         a: Word, register: nat, value: bv32 -> Word)
    requires Sane(env) && Represents(env, code, table, program) && Clean(env, code, m.Pc()) && a in code
    requires LoadsWord(env, program[m.Pc()], m, a, register, value)
    ensures HostStep(env, code, table, m) == LinuxStep(env, program, program[m.Pc()], m)
       <==> !Hidden(env, code, table, a)
  {
    SameWordIffNotHidden(env, code, table, program, a);
    OrdinaryIsNotHidden(env, code, table, program, m.Pc());
    hide First, Sane, Hidden, OnlyPatchable, Represents;
    var word := program[m.Pc()];
    var host, linux := env.execute(word, m, code), env.execute(word, m, program);
    assert host.regs[register] == value(code[a]) && linux.regs[register] == value(program[a]);
  }

  lemma OrdinaryIsNotHidden<W(!new)>(env: Env<W>, code: Code, table: seq<Record>, program: Code, a: Word)
    requires Sane(env) && Represents(env, code, table, program) && a in code && !Patchable(program[a])
    ensures code[a] == program[a]
  {
    hide First, Local, Patchable;
    if Hidden(env, code, table, a) {
      OriginalIsPatchable(table, a);
    }
  }

  // ----- patching keeps the meaning

  /** No word the scan will rewrite hides behind an older record that remembers something else. */
  ghost predicate NoStaleRecord(code: Code, table: seq<Record>, address: int, end: int)
    requires 0 <= address && end <= UINTPTR_MAX && address % 4 == 0 && Mapped(code, address, end)
  {
    forall a: Word :: a in code && Reached(code, table, address, end, a) ==>
      First(table, a).None? || First(table, a) == Some(code[a])
  }

  ghost predicate SameMeaning<W>(env: Env<W>, code: Code, table: seq<Record>, r: Patched)
    requires r.code.Keys == code.Keys
  {
    forall a: Word :: a in code ==> Intended(env, r.code, r.table, a) == Intended(env, code, table, a)
  }

  lemma MeaningOfWord<W(!new)>(env: Env<W>, code: Code, table: seq<Record>, address: int, end: int, a: Word)
    requires Sane(env) && a in code
    requires 0 <= address && end <= UINTPTR_MAX && address % 4 == 0 && end % 4 == 0 && Mapped(code, address, end)
    ensures var r := PatchFrom(code, table, address, end);
            && a in r.code
            && (Intended(env, r.code, r.table, a) == Intended(env, code, table, a)
                <==> (Reached(code, table, address, end, a) ==>
                        First(table, a).None? || First(table, a) == Some(code[a])))
  {
    hide First, PatchFrom, Patchable, CountPatchable, Room;
    PatchFromEffect(code, table, address, end, a);
  }

  /** A scan keeps the meaning of every address exactly when no word it will rewrite has a stale record. */
  lemma PatchingPreservesMeaningIffNoStaleRecord<W(!new)>(env: Env<W>, code: Code, table: seq<Record>,
                                                         address: int, end: int)
    requires Sane(env)
    requires 0 <= address && end <= UINTPTR_MAX && address % 4 == 0 && end % 4 == 0 && Mapped(code, address, end)
    ensures SameMeaning(env, code, table, PatchFrom(code, table, address, end))
       <==> NoStaleRecord(code, table, address, end)
  {
    hide First, PatchFrom, Reached, Intended, Sane;
    forall a: Word | a in code
      ensures Intended(env, PatchFrom(code, table, address, end).code, PatchFrom(code, table, address, end).table, a)
              == Intended(env, code, table, a)
         <==> (Reached(code, table, address, end, a) ==> First(table, a).None? || First(table, a) == Some(code[a]))
    {
      MeaningOfWord(env, code, table, address, end, a);
    }
  }

  /** Every recorded address still holds the trap word, each recorded once. */
  ghost predicate Live(code: Code, table: seq<Record>) {
    && (forall i :: 0 <= i < |table| ==> table[i].address in code && code[table[i].address] == ARM_UDF_TRAP)
    && (forall i, j :: 0 <= i < j < |table| ==> table[i].address != table[j].address)
  }

  /** A live table has no stale records, and a scan, complete or cut short, keeps the table live. */
  lemma {:induction false} ScanKeepsTableLive(code: Code, table: seq<Record>, address: int, end: int)
    requires 0 <= address && end <= UINTPTR_MAX && address % 4 == 0 && end % 4 == 0
    requires Mapped(code, address, end) && Live(code, table) && OnlyPatchable(table)
    ensures var r := PatchFrom(code, table, address, end);
            Live(r.code, r.table) && OnlyPatchable(r.table)
    decreases end - address
  {
    TrapIsNotPatchable();
    hide Patchable;
    if address < end {
      if !Patchable(code[address]) {
        ScanKeepsTableLive(code, table, address + 4, end);
      } else if |table| != MAX_PATCHES {
        var c, t := code[address := ARM_UDF_TRAP], table + [Record(address, code[address])];
        assert Live(c, t) && OnlyPatchable(t);
        ScanKeepsTableLive(c, t, address + 4, end);
      }
    }
  }

  lemma {:induction false} ScanRecordsPatchable(code: Code, table: seq<Record>, address: int, end: int)
    requires 0 <= address && end <= UINTPTR_MAX && address % 4 == 0 && end % 4 == 0
    requires Mapped(code, address, end) && OnlyPatchable(table)
    ensures OnlyPatchable(PatchFrom(code, table, address, end).table)
    decreases end - address
  {
    hide Patchable;
    if address < end {
      if !Patchable(code[address]) {
        ScanRecordsPatchable(code, table, address + 4, end);
      } else if |table| != MAX_PATCHES {
        ScanRecordsPatchable(code[address := ARM_UDF_TRAP], table + [Record(address, code[address])], address + 4, end);
      }
    }
  }

  lemma LiveTableHasNoStaleRecord(code: Code, table: seq<Record>, address: int, end: int)
    requires 0 <= address && end <= UINTPTR_MAX && address % 4 == 0 && end % 4 == 0
    requires Mapped(code, address, end) && Live(code, table)
    ensures NoStaleRecord(code, table, address, end)
  {
    hide First, Patchable, CountPatchable, Room;
    TrapIsNotPatchable();
    forall a: Word | a in code && Reached(code, table, address, end, a)
      ensures First(table, a).None?
    {
      FirstFindsRecords(table, a);
    }
  }

  /** Scanning one word that needs a patch. */
  lemma ScanOfOne(word: bv32, table: seq<Record>)
    requires Patchable(word) && |table| < MAX_PATCHES
    ensures PatchFrom(map[0 := word], table, 0, 4) == Patched(map[0 := ARM_UDF_TRAP], table + [Record(0, word)], true)
  {
    hide Patchable;
    var code: Code := map[0 := word];
    PatchTurn(code, table, 0, 4);
    assert code[0 := ARM_UDF_TRAP] == map[0 := ARM_UDF_TRAP];
  }

  /**
    A thread-pointer read is patched, the guest overwrites it with `svc #0`, and the page is patched again: the
    guest means a system call, the emulator performs the read.
   */
  lemma StaleRecordIsMisread<W(!new)>(env: Env<W>)
    requires Sane(env)
    ensures var first := PatchFrom(map[0 := ARM_TPIDRURO_READ], [], 0, 4);
            var overwritten := first.code[0 := ARM_LINUX_SVC_0];
            var second := PatchFrom(overwritten, first.table, 0, 4);
            && first.ok && second.ok && !NoStaleRecord(overwritten, first.table, 0, 4)
            && Intended(env, overwritten, first.table, 0) == ARM_LINUX_SVC_0
            && Intended(env, second.code, second.table, 0) == ARM_TPIDRURO_READ
  {
    hide PatchFrom, Reached;
    var word := ARM_TPIDRURO_READ;
    ScanOfOne(word, []);
    var table := [] + [Record(0, word)];
    var trapped: Code := map[0 := ARM_UDF_TRAP];
    var overwritten: Code := map[0 := ARM_LINUX_SVC_0];
    assert trapped[0 := ARM_LINUX_SVC_0] == overwritten;
    ScanOfOne(ARM_LINUX_SVC_0, table);
    FirstOfPush([], Record(0, word), 0);
    FirstOfPush(table, Record(0, ARM_LINUX_SVC_0), 0);
    MeaningOfWord(env, overwritten, table, 0, 4, 0);
  }

  // ----- whole runs

  /** One turn of the guest on the host; the emulator's return trampolines are trap words outside guest code. */
  ghost function HostAt<W>(env: Env<W>, code: Code, table: seq<Record>, m: Machine<W>): Effect<W> {
    if m.Pc() == env.plainTrampoline || m.Pc() == env.realtimeTrampoline then HandleIllegal(env, code, table, m)
    else if m.Pc() !in code then Fatal
    else HostStep(env, code, table, m)
  }

  /** The same turn on Linux, where returning to a trampoline is the sigreturn system call. */
  ghost function LinuxAt<W>(env: Env<W>, program: Code, m: Machine<W>): Effect<W> {
    if m.Pc() == env.plainTrampoline then OrFatal(env.sigreturn(m, false))
    else if m.Pc() == env.realtimeTrampoline then OrFatal(env.sigreturn(m, true))
    else if m.Pc() !in program then Fatal
    else LinuxStep(env, program, program[m.Pc()], m)
  }

  ghost function HostRun<W>(env: Env<W>, code: Code, table: seq<Record>, m: Machine<W>, n: nat): Effect<W> {
    if n == 0 then Continue(m)
    else
      var before := HostRun(env, code, table, m, n - 1);
      if before.Fatal? then Fatal else HostAt(env, code, table, before.m)
  }

  ghost function LinuxRun<W>(env: Env<W>, program: Code, m: Machine<W>, n: nat): Effect<W> {
    if n == 0 then Continue(m)
    else
      var before := LinuxRun(env, program, m, n - 1);
      if before.Fatal? then Fatal else LinuxAt(env, program, before.m)
  }

  /** Where the machine stands there is nothing left to patch, and no read into r15. */
  ghost predicate CleanAt(code: Code, program: Code, pc: Word) {
    pc in code && pc in program ==> !Patchable(code[pc]) && !ReadsIntoPc(program[pc])
  }

  ghost predicate Trampoline<W>(env: Env<W>, pc: Word) {
    pc == env.plainTrampoline || pc == env.realtimeTrampoline
  }

  /** The machine is at a trampoline, nowhere in the program, or on clean code that reads no hidden word. */
  ghost predicate CleanTurn<W>(env: Env<W>, code: Code, table: seq<Record>, program: Code, m: Machine<W>) {
    || Trampoline(env, m.Pc())
    || (CleanAt(code, program, m.Pc()) && (m.Pc() in program ==> LooksAway(env, code, table, program[m.Pc()], m)))
  }

  /** One turn on the host is one turn on Linux, trampolines and wild jumps included. */
  lemma TurnSimulates<W(!new)>(env: Env<W>, code: Code, table: seq<Record>, program: Code, m: Machine<W>)
    requires Sane(env) && Represents(env, code, table, program) && CleanTurn(env, code, table, program, m)
    ensures HostAt(env, code, table, m) == LinuxAt(env, program, m)
  {
    hide HostStep, LinuxStep, Intended, Patchable, ReadsIntoPc, First, LooksAway, Sane;
    if !Trampoline(env, m.Pc()) && m.Pc() in code {
      StepSimulates(env, code, table, program, m);
    }
  }

  /** Every turn of the Linux run before step n is clean. */
  ghost predicate StaysClean<W>(env: Env<W>, code: Code, table: seq<Record>, program: Code, m: Machine<W>, n: nat) {
    forall k :: 0 <= k < n ==>
      var e := LinuxRun(env, program, m, k);
      e.Continue? ==> CleanTurn(env, code, table, program, e.m)
  }

  /** Running the patched image is running the original program, step for step and for any length. */
  lemma {:induction false} RunSimulates<W(!new)>(env: Env<W>, code: Code, table: seq<Record>, program: Code,
                                                 m: Machine<W>, n: nat)
    requires Sane(env) && Represents(env, code, table, program) && StaysClean(env, code, table, program, m, n)
    ensures HostRun(env, code, table, m, n) == LinuxRun(env, program, m, n)
  {
    hide HostAt, LinuxAt, Represents, Sane, CleanTurn;
    if n > 0 {
      assert StaysClean(env, code, table, program, m, n - 1);
      RunSimulates(env, code, table, program, m, n - 1);
      var before := LinuxRun(env, program, m, n - 1);
      if before.Continue? {
        TurnSimulates(env, code, table, program, before.m);
      }
    }
  }

  /** A scan whose words have no stale records still represents the same program. */
  lemma ScanRepresents<W(!new)>(env: Env<W>, code: Code, table: seq<Record>, program: Code, start: int, end: int)
    requires Sane(env) && Represents(env, code, table, program)
    requires 0 <= start && end <= UINTPTR_MAX && start % 4 == 0 && end % 4 == 0 && Mapped(code, start, end)
    requires NoStaleRecord(code, table, start, end)
    ensures var r := PatchFrom(code, table, start, end); Represents(env, r.code, r.table, program)
  {
    hide PatchFrom, Intended, NoStaleRecord, Sane, OnlyPatchable;
    ScanRecordsPatchable(code, table, start, end);
    PatchingPreservesMeaningIffNoStaleRecord(env, code, table, start, end);
  }

  /** What the instruction reads of the program is no word that a scan would replace. */
  ghost predicate ReadsNoPatchable<W>(env: Env<W>, program: Code, m: Machine<W>)
    requires m.Pc() in program
  {
    forall a :: a in env.looksAt(program[m.Pc()], m) && a in program ==> !Patchable(program[a])
  }

  lemma ReadsNothingHidden<W(!new)>(env: Env<W>, code: Code, table: seq<Record>, program: Code, m: Machine<W>)
    requires Represents(env, code, table, program) && m.Pc() in program && ReadsNoPatchable(env, program, m)
    ensures LooksAway(env, code, table, program[m.Pc()], m)
  {
    hide First, Patchable, OnlyPatchable;
    forall a | a in env.looksAt(program[m.Pc()], m) ensures !Hidden(env, code, table, a) {
      if Hidden(env, code, table, a) {
        OriginalIsPatchable(table, a);
      }
    }
  }

  /** Patch a range in which no stale record is rewritten, and every run inside it is the original's. */
  lemma PatchedRunIsOriginalRun<W(!new)>(env: Env<W>, code: Code, table: seq<Record>, start: int, end: int,
                                         program: Code, m: Machine<W>, n: nat)
    requires Sane(env) && Represents(env, code, table, program)
    requires 0 <= start && end <= UINTPTR_MAX && start % 4 == 0 && end % 4 == 0 && Mapped(code, start, end)
    requires NoStaleRecord(code, table, start, end) && PatchFrom(code, table, start, end).ok
    requires forall k :: 0 <= k < n ==>
               var e := LinuxRun(env, program, m, k);
               e.Continue? && e.m.Pc() in program && !Trampoline(env, e.m.Pc()) ==>
                 && InScan(e.m.Pc(), start, end) && !ReadsIntoPc(program[e.m.Pc()])
                 && ReadsNoPatchable(env, program, e.m)
    ensures var r := PatchFrom(code, table, start, end);
            HostRun(env, r.code, r.table, m, n) == LinuxRun(env, program, m, n)
  {
    hide PatchFrom, Intended, LinuxRun, Patchable, ReadsIntoPc, NoStaleRecord, Sane, HostRun, First, CountPatchable;
    hide Room, ReadsNoPatchable, LooksAway, Represents;
    var r := PatchFrom(code, table, start, end);
    ScanRepresents(env, code, table, program, start, end);
    forall k | 0 <= k < n
      ensures var e := LinuxRun(env, program, m, k);
              e.Continue? ==> CleanTurn(env, r.code, r.table, program, e.m)
    {
      var e := LinuxRun(env, program, m, k);
      if e.Continue? && e.m.Pc() in program && !Trampoline(env, e.m.Pc()) {
        SameDomain(env, code, table, program);
        PatchFromEffect(code, table, start, end, e.m.Pc());
        ReadsNothingHidden(env, r.code, r.table, program, e.m);
      }
    }
    RunSimulates(env, r.code, r.table, program, m, n);
  }

  lemma SameDomain<W>(env: Env<W>, code: Code, table: seq<Record>, program: Code)
    requires Represents(env, code, table, program)
    ensures program.Keys == code.Keys
  {
  }
}
