/**
  Guest code that changes while it runs (src/arm_patch.c, src/trap.c, src/linux_syscall.c): stores, new and
  discarded mappings, and re-patching when a page becomes executable again.
 */
module CodeChanges {
  import opened Words
  import opened ArmPatch
  import opened Trap

  /** What happens between two looks at the guest. */
  datatype Event =
    | Turn                                    // the guest executes one instruction
    | Write(address: Word, word: bv32)        // a store into code
    | Rescan(start: Word, length: Word)       // mprotect to executable
    | Discard(start: Word, length: Word)      // munmap
    | Map(words: Code)                        // mmap of fresh memory

  datatype Host<W> = Host(effect: Effect<W>, code: Code, table: seq<Record>)
  datatype Linux<W> = Linux(effect: Effect<W>, program: Code)

  function DiscardEnd(start: Word, length: Word): int {
    if length > UINTPTR_MAX - start then UINTPTR_MAX else start + length
  }

  function Without(code: Code, start: int, end: int): Code {
    map a | a in code && !(start <= a < end) :: code[a]
  }

  /** The host side: the handler's table follows the mapping calls, not the guest's stores. */
  ghost function HostNext<W>(env: Env<W>, h: Host<W>, e: Event): Host<W>
    requires e.Rescan? && e.start % 4 == 0 && e.length % 4 == 0 && e.length <= UINTPTR_MAX - e.start ==>
               Mapped(h.code, e.start, e.start + e.length)
  {
    match e
    case Turn => h.(effect := if h.effect.Fatal? then Fatal else HostAt(env, h.code, h.table, h.effect.m))
    case Write(a, word) => if a in h.code then h.(code := h.code[a := word]) else h
    case Rescan(start, length) =>
      // a scan that fails is rolled back
      var r := ScanRange(h.code, h.table, start, length);
      if r.ok then h.(code := r.code, table := r.table) else h
    case Discard(start, length) =>
      h.(code := Without(h.code, start, DiscardEnd(start, length)),
         table := Forget(h.table, start, DiscardEnd(start, length)))
    case Map(words) => h.(code := h.code + words)
  }

  /** The Linux side: the same program without any patching. */
  ghost function LinuxNext<W>(env: Env<W>, l: Linux<W>, e: Event): Linux<W> {
    match e
    case Turn => l.(effect := if l.effect.Fatal? then Fatal else LinuxAt(env, l.program, l.effect.m))
    case Write(a, word) => if a in l.program then l.(program := l.program[a := word]) else l
    case Rescan(_, _) => l
    case Discard(start, length) => l.(program := Without(l.program, start, DiscardEnd(start, length)))
    case Map(words) => l.(program := l.program + words)
  }

  /** What each event needs, all of it visible before the event. */
  ghost predicate Sound<W>(env: Env<W>, h: Host<W>, l: Linux<W>, e: Event) {
    match e
    case Turn =>
      l.effect.Continue? ==> CleanTurn(env, h.code, h.table, l.program, l.effect.m)
    case Write(a, word) =>
      env.undefined(word) ==> First(h.table, a).None? || First(h.table, a) == Some(word)
    case Rescan(start, length) =>
      start % 4 == 0 && length % 4 == 0 && length <= UINTPTR_MAX - start ==>
        Mapped(h.code, start, start + length) && NoStaleRecord(h.code, h.table, start, start + length)
    case Discard(_, _) => true
    case Map(words) =>
      words.Keys !! h.code.Keys && forall a: Word :: a in words && env.undefined(words[a]) ==> First(h.table, a).None?
  }

  ghost predicate Agree<W>(env: Env<W>, h: Host<W>, l: Linux<W>) {
    h.effect == l.effect && Represents(env, h.code, h.table, l.program)
  }

  /** A store keeps the agreement exactly when it does not put an undefined word over another's record. */
  lemma WriteKeepsAgreementIff<W(!new)>(env: Env<W>, h: Host<W>, l: Linux<W>, a: Word, word: bv32)
    requires Agree(env, h, l) && a in h.code
    ensures Agree(env, HostNext(env, h, Write(a, word)), LinuxNext(env, l, Write(a, word)))
       <==> Sound(env, h, l, Write(a, word))
  {
    hide First, OnlyPatchable;
    var n, k := HostNext(env, h, Write(a, word)), LinuxNext(env, l, Write(a, word));
    assert n.code.Keys == h.code.Keys && k.program.Keys == l.program.Keys;
    assert Intended(env, n.code, n.table, a) == word <==> Sound(env, h, l, Write(a, word));
    if Sound(env, h, l, Write(a, word)) {
      forall b: Word | b in n.code
        ensures k.program[b] == Intended(env, n.code, n.table, b)
      {
        assert b != a ==> Intended(env, n.code, n.table, b) == Intended(env, h.code, h.table, b);
      }
    }
  }

  /**
    A system call is patched and the guest stores the trap word over it: on Linux that word is illegal, the emulator
    still performs the call.
   */
  lemma StoreOverPatchIsMisread<W(!new)>(env: Env<W>, effect: Effect<W>)
    requires Sane(env)
    ensures var r := PatchFrom(map[0 := ARM_LINUX_SVC_0], [], 0, 4);
            var h, l := Host(effect, r.code, r.table), Linux(effect, map[0 := ARM_LINUX_SVC_0]);
            var n, k := HostNext(env, h, Write(0, ARM_UDF_TRAP)), LinuxNext(env, l, Write(0, ARM_UDF_TRAP));
            && Agree(env, h, l) && !Agree(env, n, k)
            && 0 in n.code && Intended(env, n.code, n.table, 0) == ARM_LINUX_SVC_0
            && 0 in k.program && k.program[0] == ARM_UDF_TRAP
  {
    hide PatchFrom, Local;
    var program: Code := map[0 := ARM_LINUX_SVC_0];
    ScanOfOne(ARM_LINUX_SVC_0, []);
    var record := Record(0, ARM_LINUX_SVC_0);
    FirstOfPush([], record, 0);
    var h, l := Host(effect, map[0 := ARM_UDF_TRAP], [] + [record]), Linux(effect, program);
    assert Agree(env, h, l);
    WriteKeepsAgreementIff(env, h, l, 0, ARM_UDF_TRAP);
  }

  lemma {:induction false} ForgetKeepsPatchable(table: seq<Record>, start: Word, end: int)
    requires OnlyPatchable(table)
    ensures OnlyPatchable(Forget(table, start, end))
  {
    hide Patchable, Forget;
    if table == [] {
      NothingForgotten(start, end);
    } else {
      ForgetKeepsPatchable(table[..|table| - 1], start, end);
      ForgetStep(table, |table| - 1, start, end);
      assert table == table[..|table|];
    }
  }

  lemma DiscardKeepsAgreement<W(!new)>(env: Env<W>, h: Host<W>, l: Linux<W>, start: Word, length: Word)
    requires Agree(env, h, l)
    ensures Agree(env, HostNext(env, h, Discard(start, length)), LinuxNext(env, l, Discard(start, length)))
  {
    hide First, OnlyPatchable, Forget;
    var n, k := HostNext(env, h, Discard(start, length)), LinuxNext(env, l, Discard(start, length));
    ForgetKeepsPatchable(h.table, start, DiscardEnd(start, length));
    assert n.code.Keys == k.program.Keys;
    forall a: Word | a in n.code
      ensures k.program[a] == Intended(env, n.code, n.table, a)
    {
      ForgetHidesExactlyTheRange(h.table, start, DiscardEnd(start, length), a);
    }
  }

  lemma MapKeepsAgreement<W(!new)>(env: Env<W>, h: Host<W>, l: Linux<W>, words: Code)
    requires Agree(env, h, l) && Sound(env, h, l, Map(words))
    ensures Agree(env, HostNext(env, h, Map(words)), LinuxNext(env, l, Map(words)))
  {
    hide First, OnlyPatchable;
    var n, k := HostNext(env, h, Map(words)), LinuxNext(env, l, Map(words));
    assert n.code.Keys == k.program.Keys;
    forall a: Word | a in n.code
      ensures k.program[a] == Intended(env, n.code, n.table, a)
    {
      assert a !in words ==> Intended(env, n.code, n.table, a) == Intended(env, h.code, h.table, a);
    }
  }

  lemma EventKeepsAgreement<W(!new)>(env: Env<W>, h: Host<W>, l: Linux<W>, e: Event)
    requires Sane(env) && Agree(env, h, l) && Sound(env, h, l, e)
    ensures Agree(env, HostNext(env, h, e), LinuxNext(env, l, e))
  {
    hide Sane, Represents, CleanTurn, HostAt, LinuxAt, Forget, First, PatchFrom, NoStaleRecord, Without;
    match e
    case Turn =>
      if l.effect.Continue? {
        TurnSimulates(env, h.code, h.table, l.program, l.effect.m);
      }
    case Write(a, word) =>
      SameKeys(env, h, l);
      if a in h.code {
        WriteKeepsAgreementIff(env, h, l, a, word);
      }
    case Rescan(start, length) =>
      if start % 4 == 0 && length % 4 == 0 && length <= UINTPTR_MAX - start {
        ScanRepresents(env, h.code, h.table, l.program, start, start + length);
      }
    case Discard(start, length) => DiscardKeepsAgreement(env, h, l, start, length);
    case Map(words) => MapKeepsAgreement(env, h, l, words);
  }

  lemma SameKeys<W>(env: Env<W>, h: Host<W>, l: Linux<W>)
    requires Agree(env, h, l)
    ensures h.code.Keys == l.program.Keys
  {
  }

  // ----- histories

  ghost predicate SoundHistory<W>(env: Env<W>, h: Host<W>, l: Linux<W>, events: seq<Event>)
    decreases |events|
  {
    events == [] ||
    (&& Sound(env, h, l, events[0])
     && SoundHistory(env, HostNext(env, h, events[0]), LinuxNext(env, l, events[0]), events[1..]))
  }

  ghost function HostAfter<W>(env: Env<W>, h: Host<W>, l: Linux<W>, events: seq<Event>): Host<W>
    requires SoundHistory(env, h, l, events)
    decreases |events|
  {
    if events == [] then h
    else HostAfter(env, HostNext(env, h, events[0]), LinuxNext(env, l, events[0]), events[1..])
  }

  ghost function LinuxAfter<W>(env: Env<W>, l: Linux<W>, events: seq<Event>): Linux<W>
    decreases |events|
  {
    if events == [] then l else LinuxAfter(env, LinuxNext(env, l, events[0]), events[1..])
  }

  /**
    However code is written, mapped, discarded and re-patched, host and Linux stay in step while each event is
    sound.
   */
  lemma {:induction false} ChangingCodeSimulates<W(!new)>(env: Env<W>, h: Host<W>, l: Linux<W>, events: seq<Event>)
    requires Sane(env) && Agree(env, h, l) && SoundHistory(env, h, l, events)
    ensures Agree(env, HostAfter(env, h, l, events), LinuxAfter(env, l, events))
    decreases |events|
  {
    hide Sane, Agree, HostNext, LinuxNext, NoStaleRecord, CleanTurn, First;
    if events != [] {
      EventKeepsAgreement(env, h, l, events[0]);
      ChangingCodeSimulates(env, HostNext(env, h, events[0]), LinuxNext(env, l, events[0]), events[1..]);
    }
  }
}
