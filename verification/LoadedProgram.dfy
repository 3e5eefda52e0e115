/** From the file to the run: an image that was loaded and patched runs as the program that was mapped. */
module LoadedProgram {
  import opened Words
  import opened ArmPatch
  import opened LoadTransaction
  import opened ElfLoader
  import opened ImageLoader
  import Trap

  lemma StepKeepsLive(m: Machine, step: LoadStep)
    requires Legal(m, step) && Trap.Live(m.memory, m.patches) && Trap.OnlyPatchable(m.patches)
    ensures var n := Perform(m, step); Trap.Live(n.memory, n.patches) && Trap.OnlyPatchable(n.patches)
  {
    hide PatchFrom, Region, Patchable;
    match step
    case MapSegment(_, _) =>
    case PatchCode(start, length) => Trap.ScanKeepsTableLive(m.memory, m.patches, start, start + length);
  }

  lemma {:induction false} RunKeepsLive(m: Machine, steps: seq<LoadStep>)
    requires LegalRun(m, steps) && Trap.Live(m.memory, m.patches) && Trap.OnlyPatchable(m.patches)
    ensures var n := PerformAll(m, steps); Trap.Live(n.memory, n.patches) && Trap.OnlyPatchable(n.patches)
    decreases |steps|
  {
    hide Perform, Legal;
    if steps != [] {
      RunKeepsLive(m, steps[..|steps| - 1]);
      StepKeepsLive(PerformAll(m, steps[..|steps| - 1]), steps[|steps| - 1]);
    }
  }

  /** Loading never leaves a stale or doubled patch record. */
  lemma LoadingKeepsTableLive(m: Machine, n: Machine)
    requires Reaches(m, n) && Trap.Live(m.memory, m.patches) && Trap.OnlyPatchable(m.patches)
    ensures Trap.Live(n.memory, n.patches) && Trap.OnlyPatchable(n.patches)
  {
    var steps :| LegalRun(m, steps) && PerformAll(m, steps) == n;
    RunKeepsLive(m, steps);
  }

  lemma LastRecordWins<W(!new)>(env: Trap.Env<W>, code: Code, table: seq<Record>, a: Word)
    requires Trap.Sane(env) && Trap.Live(code, table) && Trap.OnlyPatchable(table) && a in code && table != []
    ensures var last := table[|table| - 1];
            var c, t := code[last.address := last.original], table[..|table| - 1];
            && Trap.Live(c, t) && Trap.OnlyPatchable(t)
            && Trap.Intended(env, c, t, a) == Trap.Intended(env, code, table, a)
  {
    hide Patchable;
    var front := table[..|table| - 1];
    FirstFindsRecords(front, a);
    assert Patchable(table[|table| - 1].original);
  }

  /** Under a live table the emulator's meaning of a word is the word that was mapped there. */
  lemma {:induction false} UnpatchedIsIntended<W(!new)>(env: Trap.Env<W>, code: Code, table: seq<Record>, a: Word)
    requires Trap.Sane(env) && Trap.Live(code, table) && Trap.OnlyPatchable(table) && a in code
    ensures var c := Rollback(code, table, 0).0; a in c && c[a] == Trap.Intended(env, code, table, a)
    decreases |table|
  {
    hide Patchable, Trap.Live, Trap.OnlyPatchable;
    if table != [] {
      var last := table[|table| - 1];
      LastRecordWins(env, code, table, a);
      UnpatchedIsIntended(env, code[last.address := last.original], table[..|table| - 1], a);
    }
  }

  lemma UnpatchedKeys(n: Machine)
    requires Trap.Live(n.memory, n.patches)
    ensures Unpatched(n).Keys == n.memory.Keys
  {
    hide Rollback;
    RollbackKeepsKeys(n.memory, n.patches, 0);
  }

  /** An address in an executable section of an image at its bias. */
  ghost predicate InCodeOf(image: Image, bias: Word, a: Word) {
    exists j: nat :: j < |image.sections| && InSection(image.sections[j], bias, a)
  }

  lemma CodeIsSafe(image: Image, interpreter: bool, bias: Word, entry: Word, n: Machine, a: Word)
    requires ObjectSound(image, interpreter, bias, entry, n) && InCodeOf(image, bias, a)
    ensures a in n.memory && !Patchable(n.memory[a])
  {
    hide Patchable, InSection, Biases;
    var j: nat :| j < |image.sections| && InSection(image.sections[j], bias, a);
    assert Safe(n.memory, a);
  }

  /**
    The run stays in executable sections of the program or its interpreter, and on the return trampolines, and reads
    none of the words there that are replaced.
   */
  ghost predicate StaysInCode<W>(env: Trap.Env<W>, program: Code, main: Image, interpreter: Interpreter, bias: Word,
                                 base: Word, s: Trap.Machine<W>, steps: nat)
  {
    forall k :: 0 <= k < steps ==>
      var e := Trap.LinuxRun(env, program, s, k);
      e.Continue? && e.m.Pc() in program && !Trap.Trampoline(env, e.m.Pc()) ==>
        && (InCodeOf(main, bias, e.m.Pc()) || (interpreter.Resolved? && InCodeOf(interpreter.image, base, e.m.Pc())))
        && !Trap.ReadsIntoPc(program[e.m.Pc()]) && Trap.ReadsNoPatchable(env, program, e.m)
  }

  /** What the emulator makes of the loaded memory is the program the files describe. */
  lemma LoadedRepresents<W(!new)>(env: Trap.Env<W>, n: Machine, program: Code)
    requires Trap.Sane(env) && Trap.Live(n.memory, n.patches) && Trap.OnlyPatchable(n.patches)
    requires Unpatched(n) == program
    ensures Trap.Represents(env, n.memory, n.patches, program)
  {
    hide Trap.Sane, Trap.Live, Trap.OnlyPatchable, Trap.Intended, Unpatched;
    UnpatchedKeys(n);
    forall a: Word | a in n.memory
      ensures a in program && program[a] == Trap.Intended(env, n.memory, n.patches, a)
    {
      MeaningOf(env, n, a);
    }
  }

  lemma StaysCleanInCode<W(!new)>(env: Trap.Env<W>, program: Code, main: Image, interpreter: Interpreter, r: Load,
                                  s: Trap.Machine<W>, steps: nat)
    requires r.Running? && ObjectSound(main, false, r.bias, r.entry, r.machine)
    requires interpreter.Resolved? ==> ObjectSound(interpreter.image, true, r.base, r.start, r.machine)
    requires StaysInCode(env, program, main, interpreter, r.bias, r.base, s, steps)
    requires Trap.Represents(env, r.machine.memory, r.machine.patches, program)
    ensures Trap.StaysClean(env, r.machine.memory, r.machine.patches, program, s, steps)
  {
    hide Trap.LinuxRun, ObjectSound, InCodeOf, Trap.ReadsIntoPc, Patchable, Trap.Trampoline, Trap.Represents;
    hide Trap.ReadsNoPatchable, Trap.LooksAway;
    forall k | 0 <= k < steps
      ensures var e := Trap.LinuxRun(env, program, s, k);
              e.Continue? ==> Trap.CleanTurn(env, r.machine.memory, r.machine.patches, program, e.m)
    {
      var e := Trap.LinuxRun(env, program, s, k);
      if e.Continue? && e.m.Pc() in program && !Trap.Trampoline(env, e.m.Pc()) {
        Trap.ReadsNothingHidden(env, r.machine.memory, r.machine.patches, program, e.m);
        if InCodeOf(main, r.bias, e.m.Pc()) {
          CodeIsSafe(main, false, r.bias, r.entry, r.machine, e.m.Pc());
        } else {
          CodeIsSafe(interpreter.image, true, r.base, r.start, r.machine, e.m.Pc());
        }
      }
    }
  }

  /**
    A program loaded into a fresh process, run on the host under the trap handler, does step for step what the
    words of its ELF files do on Linux, for every machine state and any number of steps.
   */
  lemma LoadedProgramRunsAsMapped<W(!new)>(main: Image, interpreter: Interpreter, page: int,
                                           mainHost: nat -> nat -> Reply, interpreterHost: nat -> nat -> Reply,
                                           finish: Finish, errno: Errno, env: Trap.Env<W>, s: Trap.Machine<W>,
                                           steps: nat)
    requires LoadPage(page) && Trap.Sane(env)
    requires var r := LoadImage(Machine([], [], map[]), main, interpreter, page, mainHost, interpreterHost, finish,
                                errno);
             r.Running? && StaysInCode(env, ProgramCode(main, interpreter, page, r.bias, r.base), main, interpreter,
                                       r.bias, r.base, s, steps)
    ensures var r := LoadImage(Machine([], [], map[]), main, interpreter, page, mainHost, interpreterHost, finish,
                               errno);
            Trap.HostRun(env, r.machine.memory, r.machine.patches, s, steps)
            == Trap.LinuxRun(env, ProgramCode(main, interpreter, page, r.bias, r.base), s, steps)
  {
    hide LoadImage, SegmentsMapped, Trap.LinuxRun, Trap.HostRun, Trap.Sane, Unpatched, Reaches, ObjectSound,
         Trap.Live, Trap.OnlyPatchable, LoadPage, Trap.Represents, Trap.StaysClean, StaysInCode, ProgramCode,
         WellPlaced, RecordsMapped;
    var m := Machine([], [], map[]);
    FreshIsSound(page);
    var r := LoadImage(m, main, interpreter, page, mainHost, interpreterHost, finish, errno);
    var program := ProgramCode(main, interpreter, page, r.bias, r.base);
    RunningImageReaches(m, main, interpreter, page, mainHost, interpreterHost, finish, errno);
    RunningImageIsSound(m, main, interpreter, page, mainHost, interpreterHost, finish, errno);
    RunningImageContents(m, main, interpreter, page, mainHost, interpreterHost, finish, errno);
    assert map[] + program == program;
    LoadingKeepsTableLive(m, r.machine);
    LoadedRepresents(env, r.machine, program);
    StaysCleanInCode(env, program, main, interpreter, r, s, steps);
    Trap.RunSimulates(env, r.machine.memory, r.machine.patches, program, s, steps);
  }

  lemma MeaningOf<W(!new)>(env: Trap.Env<W>, n: Machine, a: Word)
    requires Trap.Sane(env) && Trap.Live(n.memory, n.patches) && Trap.OnlyPatchable(n.patches) && a in n.memory
    ensures a in Unpatched(n) && Unpatched(n)[a] == Trap.Intended(env, n.memory, n.patches, a)
  {
    UnpatchedIsIntended(env, n.memory, n.patches, a);
  }

  /** A process that has loaded nothing. */
  lemma FreshIsSound(page: int)
    requires LoadPage(page)
    ensures var m := Machine([], [], map[]);
            && SegmentsMapped(m) && page > 0 && WellPlaced(m.segments, page)
            && RecordsMapped(m, 0) && Unpatched(m) == map[]
            && Trap.Live(m.memory, m.patches) && Trap.OnlyPatchable(m.patches)
  {
  }

  lemma RunningImageReaches(m: Machine, main: Image, interpreter: Interpreter, page: int,
                            mainHost: nat -> nat -> Reply, interpreterHost: nat -> nat -> Reply, finish: Finish,
                            errno: Errno)
    requires LoadPage(page) && SegmentsMapped(m)
    ensures var r := LoadImage(m, main, interpreter, page, mainHost, interpreterHost, finish, errno);
            r.Running? ==> Reaches(m, r.machine)
  {
    hide Reaches, LoadPage, SegmentsMapped, LoadObject, Undo, InExecutableSegment, GuardedUndo, Entry, Finalize;
    LoadObjectReaches(m, main, false, page, mainHost, errno);
    var a := LoadObject(m, main, false, page, mainHost, errno);
    if a.result.Loaded? && interpreter.Resolved? {
      LoadObjectReaches(a.machine, interpreter.image, true, page, interpreterHost, a.result.errno);
      var b := LoadObject(a.machine, interpreter.image, true, page, interpreterHost, a.result.errno);
      ReachesTransitively(m, a.machine, b.machine);
    }
  }
}
