/** Loading a program and its interpreter (src/elf_loader.c): what success leaves and what failure undoes. */
module ImageLoader {
  import opened Words
  import opened ArmPatch
  import opened LoadTransaction
  import opened ElfLoader

  datatype Interpreter = Static | Unresolved(errno: Errno) | Resolved(image: Image)

  /** The host's answers to `mprotect` and the instruction-cache flush of one segment. */
  datatype Answer = Answer(protects: bool, flushes: bool, errno: Errno)

  /** How the end of a load goes: break initialization, then `guest_memory_finalize` with these answers. */
  datatype Finish = Finish(breakErrno: Option<Errno>, host: nat -> Answer)

  function Willing(): nat -> Answer {
    (i: nat) => Answer(true, true, Clear)
  }

  /**
    `bias` and `base` are where program and interpreter were placed; `Faulted` is the emulator writing into a page
    it has made read-only.
   */
  datatype Load =
    | Running(machine: Machine, entry: Word, start: Word, bias: Word, base: Word)
    | Undone(machine: Machine, errno: Errno)
    | Faulted

  // ----- finalization and the rollback behind it

  /** `guest_memory_finalize`: how many segments have their final protection, and the errno of a failure. */
  function Finalize(segments: seq<Segment>, host: nat -> Answer, i: nat): (r: (nat, Option<Errno>))
    requires i <= |segments|
    ensures i <= r.0 <= |segments| && (r.1.None? ==> r.0 == |segments|)
    decreases |segments| - i
  {
    if i == |segments| then (i, None)
    else if !host(i).protects then (i, Some(host(i).errno))
    else if segments[i].executable && !host(i).flushes then (i + 1, Some(host(i).errno))
    else Finalize(segments, host, i + 1)
  }

  /** The host does everything segment i needs. */
  predicate Finalizes(segments: seq<Segment>, host: nat -> Answer, i: nat)
    requires i < |segments|
  {
    host(i).protects && (segments[i].executable ==> host(i).flushes)
  }

  /**
    Finalization stops at the first segment k the host does not finalize, with the host's errno; the segments before it
    have their final protection, and k as well if only its flush failed.
   */
  lemma {:induction false} FinalizeStopsAtFirst(segments: seq<Segment>, host: nat -> Answer, i: nat) returns (k: nat)
    requires i <= |segments|
    ensures i <= k <= |segments| && (forall j :: i <= j < k ==> Finalizes(segments, host, j))
    ensures k < |segments| ==> !Finalizes(segments, host, k)
    ensures Finalize(segments, host, i)
         == if k == |segments| then (|segments|, None)
            else (if host(k).protects then k + 1 else k, Some(host(k).errno))
    decreases |segments| - i
  {
    k := i;
    if i < |segments| && Finalizes(segments, host, i) {
      k := FinalizeStopsAtFirst(segments, host, i + 1);
    }
  }

  predicate Holds(s: Segment, address: Word) {
    s.start <= address < s.end
  }

  /** Segments are read-write while loading; the first `protected` have their final protection. */
  predicate CanWrite(segments: seq<Segment>, protected: nat, address: Word) {
    forall i :: 0 <= i < |segments| && i < protected && Holds(segments[i], address) ==> segments[i].writable
  }

  /** `arm_patch_rollback` when some segments are protected: None at the first write that faults. */
  function GuardedRollback(code: Code, table: seq<Record>, retained: nat, segments: seq<Segment>, protected: nat)
    : Option<(Code, seq<Record>)>
    decreases |table|
  {
    if |table| <= retained then Some((code, table))
    else
      var last := table[|table| - 1];
      if !CanWrite(segments, protected, last.address) then None
      else GuardedRollback(code[last.address := last.original], table[..|table| - 1], retained, segments, protected)
  }

  /** The failure path of `load_guest_image` after finalization has begun. */
  function GuardedUndo(m: Machine, patchCount: nat, segmentCount: nat, protected: nat): Option<Machine>
    requires InSpace(m.segments)
  {
    var r := GuardedRollback(m.memory, m.patches, patchCount, m.segments, protected);
    if r.None? then None else Some(Unmap(Machine(m.segments, r.value.1, r.value.0), segmentCount))
  }

  /** The rollback faults exactly when some record it visits is not writable; otherwise it is the plain rollback. */
  lemma {:induction false} GuardedRollbackIs(code: Code, table: seq<Record>, retained: nat, segments: seq<Segment>,
                                             protected: nat)
    ensures var r := GuardedRollback(code, table, retained, segments, protected);
            && (r.None? <==> exists k :: retained <= k < |table| && !CanWrite(segments, protected, table[k].address))
            && (r.Some? ==> r.value == Rollback(code, table, retained))
    decreases |table|
  {
    hide CanWrite;
    if |table| > retained {
      var front, last := table[..|table| - 1], table[|table| - 1];
      GuardedRollbackIs(code[last.address := last.original], front, retained, segments, protected);
      if k :| retained <= k < |table| && !CanWrite(segments, protected, table[k].address) {
        assert k < |front| ==> front[k] == table[k];
      }
      assert forall k :: 0 <= k < |front| ==> front[k] == table[k];
    }
  }

  // ----- the whole image

  /** `load_guest_image`. */
  function LoadImage(m: Machine, main: Image, interpreter: Interpreter, page: int, mainHost: nat -> nat -> Reply,
                     interpreterHost: nat -> nat -> Reply, finish: Finish, errno: Errno): Load
    requires LoadPage(page) && SegmentsMapped(m)
  {
    LoadObjectReaches(m, main, false, page, mainHost, errno);
    var a := LoadObject(m, main, false, page, mainHost, errno);
    if a.result.Refused? then Undone(Undo(a.machine, |m.patches|, |m.segments|), a.result.errno)
    else if interpreter.Unresolved? then Undone(Undo(a.machine, |m.patches|, |m.segments|), interpreter.errno)
    else
      var entry := Entry(main, a.result);
      if interpreter.Static? then Enter(m, Running(a.machine, entry, entry, a.result.bias, 0), a.result.errno, finish)
      else
        LoadObjectReaches(a.machine, interpreter.image, true, page, interpreterHost, a.result.errno);
        var b := LoadObject(a.machine, interpreter.image, true, page, interpreterHost, a.result.errno);
        if b.result.Refused? then Undone(Undo(b.machine, |m.patches|, |m.segments|), b.result.errno)
        else
          Enter(m, Running(b.machine, entry, Entry(interpreter.image, b.result), a.result.bias, b.result.bias),
                b.result.errno, finish)
  }

  /** The entry address; an attempt succeeds only when the sum does not wrap. */
  function Entry(image: Image, result: Result): Word
    requires result.Loaded?
  {
    Wrap(result.bias + image.entry)
  }

  /** The closing checks of `load_guest_image`. */
  function Enter(m: Machine, ready: Load, errno: Errno, finish: Finish): Load
    requires ready.Running? && InSpace(ready.machine.segments)
  {
    var n := ready.machine;
    if n.patches == [] || !InExecutableSegment(n.segments, ready.entry, 4)
       || !InExecutableSegment(n.segments, ready.start, 4)
    then Undone(Undo(n, |m.patches|, |m.segments|), OrNotExecutable(errno))
    else if finish.breakErrno.Some?
    then Undone(Undo(n, |m.patches|, |m.segments|), OrNotExecutable(finish.breakErrno.value))
    else
      var (protected, failed) := Finalize(n.segments, finish.host, 0);
      if failed.None? then ready
      else
        var u := GuardedUndo(n, |m.patches|, |m.segments|, protected);
        if u.None? then Faulted else Undone(u.value, OrNotExecutable(failed.value))
  }

  // ----- one object

  /** `errno` as attempt number `k` finds it: the attempts before it left EEXIST. */
  function ErrnoAt(k: nat, errno: Errno): Errno {
    if k == 0 then errno else Exists
  }

  function AttemptAt(m: Machine, image: Image, biases: seq<Word>, page: int, host: nat -> nat -> Reply, errno: Errno,
                     k: nat): Patching
    requires LoadPage(page) && SegmentsMapped(m) && k < |biases|
  {
    Attempt(m, image, biases[k], page, host(k), ErrnoAt(k, errno))
  }

  predicate TurnedAway(p: Patching) {
    !p.ok && p.errno == Exists
  }

  /** What the loop yields when attempt `k`, run on the machine as it was before the load, is the last one. */
  function SettledBy(m: Machine, image: Image, biases: seq<Word>, page: int, host: nat -> nat -> Reply, errno: Errno,
                     k: nat): Outcome
    requires LoadPage(page) && SegmentsMapped(m) && k <= |biases|
  {
    if k == |biases| then Outcome(m, Refused(Exists))
    else
      var p := AttemptAt(m, image, biases, page, host, errno, k);
      if p.ok then Outcome(p.machine, Loaded(biases[k], p.errno)) else Outcome(m, Refused(p.errno))
  }

  /** The loop settles on the first bias that is not turned away, and turned-away attempts leave no trace. */
  lemma {:induction false} TryBiasesIsFirstFit(m: Machine, image: Image, biases: seq<Word>, page: int,
                                               host: nat -> nat -> Reply, from: nat, errno: Errno)
    returns (k: nat)
    requires LoadPage(page) && SegmentsMapped(m) && from <= |biases|
    requires image.dynamic || |biases| == 1
    ensures from <= k <= |biases|
    ensures forall j :: from <= j < k ==> TurnedAway(AttemptAt(m, image, biases, page, host, errno, j))
    ensures k < |biases| ==> !TurnedAway(AttemptAt(m, image, biases, page, host, errno, k))
    ensures TryBiases(m, image, biases, page, host, from, ErrnoAt(from, errno))
         == SettledBy(m, image, biases, page, host, errno, k)
    decreases |biases| - from
  {
    hide Attempt, Undo, SegmentsMapped, LoadPage;
    k := from;
    if from < |biases| {
      AttemptIsUndone(m, image, biases[from], page, host(from), ErrnoAt(from, errno));
      if TurnedAway(AttemptAt(m, image, biases, page, host, errno, from)) {
        k := TryBiasesIsFirstFit(m, image, biases, page, host, from + 1, errno);
      }
    }
  }

  lemma AttemptKeepsMapped(m: Machine, image: Image, bias: Word, page: int, host: nat -> Reply, errno: Errno)
    requires LoadPage(page) && SegmentsMapped(m)
    ensures SegmentsMapped(Attempt(m, image, bias, page, host, errno).machine)
  {
    hide MapHeaders, PatchSections, SegmentsMapped, LoadPage;
    MapHeadersKeepsMapped(m, image, bias, page, host, 0);
    var (n, refused) := MapHeaders(m, image, bias, page, host, 0);
    PatchSectionsKeepsMapped(n, image, bias, 0, 0, errno);
  }

  lemma {:induction false} PatchSectionsKeepsMapped(m: Machine, image: Image, bias: Word, i: nat, count: nat,
                                                    errno: Errno)
    requires i <= |image.sections| && SegmentsMapped(m)
    ensures var n := PatchSections(m, image, bias, i, count, errno).machine;
            SegmentsMapped(n) && n.segments == m.segments
    decreases |image.sections| - i
  {
    hide SegmentsMapped, Scannable, InExecutableLoad, Mapped;
    if i < |image.sections| {
      var s := image.sections[i];
      if !s.executable || s.size == 0 {
        PatchSectionsKeepsMapped(m, image, bias, i + 1, count, errno);
      } else if PatchableSection(s, image, bias) && Scannable(m.segments, bias + s.addr, s.size) {
        ScannableIsLegal(m, bias + s.addr, s.size);
        if ScanRange(m.memory, m.patches, bias + s.addr, s.size).ok {
          PatchSectionsKeepsMapped(Perform(m, PatchCode(bias + s.addr, s.size)), image, bias, i + 1, count + 1, errno);
        }
      }
    }
  }

  /** A refused object leaves the machine exactly as it was; a loaded one is a run of load steps away. */
  lemma LoadObjectReaches(m: Machine, image: Image, interpreter: bool, page: int, host: nat -> nat -> Reply,
                          errno: Errno)
    requires LoadPage(page) && SegmentsMapped(m)
    ensures var r := LoadObject(m, image, interpreter, page, host, errno);
            && Reaches(m, r.machine)
            && SegmentsMapped(r.machine)
            && (r.result.Refused? ==> r.machine == m)
            && InSpace(r.machine.segments)
  {
    ReachesSelf(m);
    hide Reaches, TryBiases, Attempt, LoadPage;
    if image.refusal.None? && ValidHeaders(image) {
      var biases := Biases(image, interpreter);
      var k := TryBiasesIsFirstFit(m, image, biases, page, host, 0, errno);
      if k < |biases| {
        AttemptReaches(m, image, biases[k], page, host(k), ErrnoAt(k, errno));
        AttemptKeepsMapped(m, image, biases[k], page, host(k), ErrnoAt(k, errno));
      }
    }
  }

  // ----- the shape of a loaded address space

  predicate Placed(s: Segment, page: int)
    requires page > 0
  {
    && GUEST_MIN_ADDRESS <= s.start < s.end <= GUEST_MAX_ADDRESS
    && s.start % page == 0 && s.end % page == 0
    && !(s.writable && s.executable)
  }

  /** Page-aligned, inside the guest window, never both writable and executable, pairwise disjoint, and not too many. */
  predicate WellPlaced(segments: seq<Segment>, page: int)
    requires page > 0
  {
    && |segments| <= MAX_LOAD_SEGMENTS
    && (forall i :: 0 <= i < |segments| ==> Placed(segments[i], page))
    && (forall i, j :: 0 <= i < j < |segments| ==>
          !Overlaps(segments[j].start, segments[j].end, segments[i].start, segments[i].end))
  }

  lemma MapHeaderKeepsPlacement(m: Machine, h: Header, bias: Word, image: Image, page: int, reply: Reply)
    requires LoadPage(page) && WellPlaced(m.segments, page) && ValidHeader(h, image.fileSize) && Loads(h)
    ensures WellPlaced(MapHeader(m, h, bias, image, page, reply).0.segments, page)
  {
    var (n, e) := MapHeader(m, h, bias, image, page, reply);
    if e.None? {
      SegmentGeometry(h, bias, image.fileSize, page);
      hide AlignDown, AlignUp, PowerOfTwo, Region;
    }
  }

  lemma {:induction false} MapHeadersKeepsPlacement(m: Machine, image: Image, bias: Word, page: int,
                                                    host: nat -> Reply, i: nat)
    requires LoadPage(page) && WellPlaced(m.segments, page) && ValidHeaders(image) && i <= |image.headers|
    ensures WellPlaced(MapHeaders(m, image, bias, page, host, i).0.segments, page)
    decreases |image.headers| - i
  {
    hide MapHeader, WellPlaced, ValidHeader;
    if i < |image.headers| {
      if !Loads(image.headers[i]) {
        MapHeadersKeepsPlacement(m, image, bias, page, host, i + 1);
      } else {
        MapHeaderKeepsPlacement(m, image.headers[i], bias, image, page, host(i));
        MapHeadersKeepsPlacement(MapHeader(m, image.headers[i], bias, image, page, host(i)).0,
                                 image, bias, page, host, i + 1);
      }
    }
  }

  lemma AttemptKeepsPlacement(m: Machine, image: Image, bias: Word, page: int, host: nat -> Reply, errno: Errno)
    requires LoadPage(page) && SegmentsMapped(m) && WellPlaced(m.segments, page) && ValidHeaders(image)
    ensures WellPlaced(Attempt(m, image, bias, page, host, errno).machine.segments, page)
  {
    hide MapHeaders, PatchSections, SegmentsMapped, WellPlaced, ValidHeaders;
    MapHeadersKeepsMapped(m, image, bias, page, host, 0);
    MapHeadersKeepsPlacement(m, image, bias, page, host, 0);
    PatchSectionsKeepsMapped(MapHeaders(m, image, bias, page, host, 0).0, image, bias, 0, 0, errno);
  }

  // ----- no system call escapes

  /** A mapped word that is not a system call or thread-pointer read. */
  predicate Safe(code: Code, a: Word) {
    a in code && !Patchable(code[a])
  }

  predicate InSection(s: Section, bias: Word, a: Word) {
    s.executable && s.size != 0 && bias + s.addr <= a < bias + s.addr + s.size && a % 4 == 0
  }

  lemma StepKeepsSafe(m: Machine, step: LoadStep, a: Word)
    requires Legal(m, step) && Safe(m.memory, a)
    ensures Safe(Perform(m, step).memory, a)
  {
    TrapIsNotPatchable();
    match step
    case MapSegment(s, contents) =>
    case PatchCode(start, length) =>
      PatchFromEffect(m.memory, m.patches, start, start + length, a);
      hide PatchFrom, Patchable, Region, First;
  }

  lemma {:induction false} RunKeepsSafe(m: Machine, steps: seq<LoadStep>, a: Word)
    requires LegalRun(m, steps) && Safe(m.memory, a)
    ensures Safe(PerformAll(m, steps).memory, a)
    decreases |steps|
  {
    if steps != [] {
      var front := steps[..|steps| - 1];
      RunKeepsSafe(m, front, a);
      StepKeepsSafe(PerformAll(m, front), steps[|steps| - 1], a);
      hide Safe;
    }
  }

  lemma ReachesKeepsSafe(m: Machine, n: Machine, a: Word)
    requires Reaches(m, n) && Safe(m.memory, a)
    ensures Safe(n.memory, a)
  {
    var steps :| LegalRun(m, steps) && PerformAll(m, steps) == n;
    RunKeepsSafe(m, steps, a);
  }

  lemma ScanMakesSafe(m: Machine, start: Word, length: Word, a: Word)
    requires Legal(m, PatchCode(start, length)) && start <= a < start + length && a % 4 == 0
    requires ScanRange(m.memory, m.patches, start, length).ok
    ensures Safe(Perform(m, PatchCode(start, length)).memory, a)
  {
    PatchFromEffect(m.memory, m.patches, start, start + length, a);
    hide PatchFrom, Patchable, First;
  }

  lemma {:induction false} PatchSectionsMakesSafe(m: Machine, image: Image, bias: Word, i: nat, count: nat,
                                                  errno: Errno, j: nat, a: Word)
    requires i <= j < |image.sections| && SegmentsMapped(m) && InSection(image.sections[j], bias, a)
    requires PatchSections(m, image, bias, i, count, errno).ok
    ensures Safe(PatchSections(m, image, bias, i, count, errno).machine.memory, a)
    decreases |image.sections| - i
  {
    hide SegmentsMapped, Scannable, InExecutableLoad, Mapped, Safe, Reaches;
    var s := image.sections[i];
    if !s.executable || s.size == 0 {
      PatchSectionsMakesSafe(m, image, bias, i + 1, count, errno, j, a);
    } else {
      ScannableIsLegal(m, bias + s.addr, s.size);
      var n := Perform(m, PatchCode(bias + s.addr, s.size));
      if i < j {
        PatchSectionsMakesSafe(n, image, bias, i + 1, count + 1, errno, j, a);
      } else {
        ScanMakesSafe(m, bias + s.addr, s.size, a);
        PatchSectionsReaches(n, image, bias, i + 1, count + 1, errno);
        ReachesKeepsSafe(n, PatchSections(n, image, bias, i + 1, count + 1, errno).machine, a);
      }
    }
  }

  lemma AttemptMakesSafe(m: Machine, image: Image, bias: Word, page: int, host: nat -> Reply, errno: Errno, j: nat,
                         a: Word)
    requires LoadPage(page) && SegmentsMapped(m) && j < |image.sections| && InSection(image.sections[j], bias, a)
    requires Attempt(m, image, bias, page, host, errno).ok
    ensures Safe(Attempt(m, image, bias, page, host, errno).machine.memory, a)
  {
    hide MapHeaders, PatchSections, SegmentsMapped, Safe, InSection;
    MapHeadersKeepsMapped(m, image, bias, page, host, 0);
    PatchSectionsMakesSafe(MapHeaders(m, image, bias, page, host, 0).0, image, bias, 0, 0, errno, j, a);
  }

  // ----- where the patches lie

  ghost predicate InCode(segments: seq<Segment>, r: Record) {
    exists s :: 0 <= s < |segments| && segments[s].executable && Holds(segments[s], r.address)
  }

  /** Every patch made since `from` lies in an executable segment. */
  ghost predicate PatchesInCode(m: Machine, from: nat) {
    forall r :: from <= r < |m.patches| ==> InCode(m.segments, m.patches[r])
  }

  lemma {:induction false} ScanRecordsRange(code: Code, table: seq<Record>, address: int, end: int)
    requires 0 <= address && end <= UINTPTR_MAX && address % 4 == 0 && end % 4 == 0 && Mapped(code, address, end)
    ensures var t := PatchFrom(code, table, address, end).table;
            table <= t && forall r :: |table| <= r < |t| ==> address <= t[r].address < end
    decreases end - address
  {
    hide Patchable;
    if address < end {
      if !Patchable(code[address]) {
        ScanRecordsRange(code, table, address + 4, end);
      } else if |table| != MAX_PATCHES {
        ScanRecordsRange(code[address := ARM_UDF_TRAP], table + [Record(address, code[address])], address + 4, end);
      }
    }
  }

  lemma NewRecordsInCode(segments: seq<Segment>, table: seq<Record>, extended: seq<Record>, start: Word, length: Word)
    requires InExecutableSegment(segments, start, length) && table <= extended
    requires forall r :: |table| <= r < |extended| ==> start <= extended[r].address < start + length
    ensures forall r :: |table| <= r < |extended| ==> InCode(segments, extended[r])
  {
    var s :| 0 <= s < |segments| && segments[s].executable
             && segments[s].start <= start && start + length <= segments[s].end;
    forall r | |table| <= r < |extended|
      ensures InCode(segments, extended[r])
    {
      assert Holds(segments[s], extended[r].address);
    }
  }

  lemma ScanKeepsPatchesInCode(m: Machine, start: Word, length: Word, from: nat)
    requires SegmentsMapped(m) && Scannable(m.segments, start, length) && PatchesInCode(m, from)
    requires Legal(m, PatchCode(start, length))
    ensures PatchesInCode(Perform(m, PatchCode(start, length)), from)
  {
    hide SegmentsMapped, InCode, InExecutableSegment, PatchFrom;
    ScanRecordsRange(m.memory, m.patches, start, start + length);
    NewRecordsInCode(m.segments, m.patches, ScanRange(m.memory, m.patches, start, length).table, start, length);
  }

  lemma {:induction false} PatchSectionsPatchCode(m: Machine, image: Image, bias: Word, i: nat, count: nat,
                                                  errno: Errno, from: nat)
    requires i <= |image.sections| && SegmentsMapped(m) && PatchesInCode(m, from)
    ensures PatchesInCode(PatchSections(m, image, bias, i, count, errno).machine, from)
    decreases |image.sections| - i
  {
    hide SegmentsMapped, Scannable, InExecutableLoad, Mapped, PatchesInCode;
    if i < |image.sections| {
      var s := image.sections[i];
      if !s.executable || s.size == 0 {
        PatchSectionsPatchCode(m, image, bias, i + 1, count, errno, from);
      } else if PatchableSection(s, image, bias) && Scannable(m.segments, bias + s.addr, s.size) {
        ScannableIsLegal(m, bias + s.addr, s.size);
        ScanKeepsPatchesInCode(m, bias + s.addr, s.size, from);
        if ScanRange(m.memory, m.patches, bias + s.addr, s.size).ok {
          PatchSectionsPatchCode(Perform(m, PatchCode(bias + s.addr, s.size)), image, bias, i + 1, count + 1, errno,
                                 from);
        }
      }
    }
  }

  /** More segments do not take a patch out of the code. */
  lemma MoreSegmentsKeepPatchesInCode(m: Machine, n: Machine, from: nat)
    requires PatchesInCode(m, from) && m.segments <= n.segments && n.patches == m.patches
    ensures PatchesInCode(n, from)
  {
    forall r | from <= r < |n.patches|
      ensures InCode(n.segments, n.patches[r])
    {
      assert InCode(m.segments, m.patches[r]);
      var s :| 0 <= s < |m.segments| && m.segments[s].executable && Holds(m.segments[s], m.patches[r].address);
      assert n.segments[s] == m.segments[s];
    }
  }

  lemma {:induction false} MapHeadersOnlyMaps(m: Machine, image: Image, bias: Word, page: int, host: nat -> Reply,
                                              i: nat)
    requires LoadPage(page) && i <= |image.headers|
    ensures var n := MapHeaders(m, image, bias, page, host, i).0;
            m.segments <= n.segments && n.patches == m.patches
    decreases |image.headers| - i
  {
    hide Region, LoadPage, Mappable, ValidLoadRange, SegmentFor;
    if i < |image.headers| {
      if !Loads(image.headers[i]) {
        MapHeadersOnlyMaps(m, image, bias, page, host, i + 1);
      } else {
        MapHeadersOnlyMaps(MapHeader(m, image.headers[i], bias, image, page, host(i)).0,
                           image, bias, page, host, i + 1);
      }
    }
  }

  lemma AttemptPatchesCode(m: Machine, image: Image, bias: Word, page: int, host: nat -> Reply, errno: Errno,
                           from: nat)
    requires LoadPage(page) && SegmentsMapped(m) && PatchesInCode(m, from)
    ensures PatchesInCode(Attempt(m, image, bias, page, host, errno).machine, from)
  {
    hide MapHeaders, PatchSections, SegmentsMapped, PatchesInCode, LoadPage;
    var n := MapHeaders(m, image, bias, page, host, 0).0;
    MapHeadersKeepsMapped(m, image, bias, page, host, 0);
    MapHeadersOnlyMaps(m, image, bias, page, host, 0);
    MoreSegmentsKeepPatchesInCode(m, n, from);
    PatchSectionsPatchCode(n, image, bias, 0, 0, errno, from);
  }

  // ----- main results

  /** Every word of every executable section is mapped and free of system calls. */
  ghost predicate Trapped(image: Image, bias: Word, code: Code) {
    forall j: nat, a: Word :: j < |image.sections| && InSection(image.sections[j], bias, a) ==> Safe(code, a)
  }

  /** A loaded object has added exactly its image's code at its bias. */
  lemma LoadedObjectContents(m: Machine, image: Image, interpreter: bool, page: int, host: nat -> nat -> Reply,
                             errno: Errno)
    requires LoadPage(page) && SegmentsMapped(m) && RecordsMapped(m, 0)
    ensures var r := LoadObject(m, image, interpreter, page, host, errno);
            && RecordsMapped(r.machine, 0)
            && (r.result.Loaded? ==>
                  Unpatched(r.machine) == Unpatched(m) + ImageCode(image, r.result.bias, page, 0))
  {
    hide TryBiases, Attempt, LoadPage, SegmentsMapped, RecordsMapped, Unpatched, ImageCode;
    if image.refusal.None? && ValidHeaders(image) {
      var biases := Biases(image, interpreter);
      var k := TryBiasesIsFirstFit(m, image, biases, page, host, 0, errno);
      if k < |biases| {
        AttemptContents(m, image, biases[k], page, host(k), ErrnoAt(k, errno));
      }
    }
  }

  /** The code a running image was given: the program's words, and the interpreter's if it has one. */
  function ProgramCode(main: Image, interpreter: Interpreter, page: int, bias: Word, base: Word): Code
    requires LoadPage(page)
  {
    ImageCode(main, bias, page, 0)
    + if interpreter.Resolved? then ImageCode(interpreter.image, base, page, 0) else map[]
  }

  /** Behind its patches a running image is, word for word, what the two files say at the biases settled on. */
  lemma RunningImageContents(m: Machine, main: Image, interpreter: Interpreter, page: int,
                             mainHost: nat -> nat -> Reply, interpreterHost: nat -> nat -> Reply, finish: Finish,
                             errno: Errno)
    requires LoadPage(page) && SegmentsMapped(m) && RecordsMapped(m, 0)
    ensures var r := LoadImage(m, main, interpreter, page, mainHost, interpreterHost, finish, errno);
            r.Running? ==> Unpatched(r.machine) == Unpatched(m) + ProgramCode(main, interpreter, page, r.bias, r.base)
  {
    hide LoadPage, SegmentsMapped, LoadObject, Undo, InExecutableSegment, GuardedUndo, Entry, Finalize, Reaches,
         RecordsMapped, Unpatched, ImageCode;
    LoadObjectReaches(m, main, false, page, mainHost, errno);
    LoadedObjectContents(m, main, false, page, mainHost, errno);
    var a := LoadObject(m, main, false, page, mainHost, errno);
    if a.result.Loaded? {
      Append(Unpatched(m), ImageCode(main, a.result.bias, page, 0), map[]);
      assert Unpatched(a.machine) + map[] == Unpatched(a.machine);
      if interpreter.Resolved? {
        LoadObjectReaches(a.machine, interpreter.image, true, page, interpreterHost, a.result.errno);
        LoadedObjectContents(a.machine, interpreter.image, true, page, interpreterHost, a.result.errno);
        var b := LoadObject(a.machine, interpreter.image, true, page, interpreterHost, a.result.errno);
        if b.result.Loaded? {
          Append(Unpatched(m), ImageCode(main, a.result.bias, page, 0),
                 ImageCode(interpreter.image, b.result.bias, page, 0));
        }
      }
    }
  }

  /** A loaded object: placed at a permitted bias, soundly laid out, and fully patched inside executable segments. */
  lemma LoadedObjectIsSound(m: Machine, image: Image, interpreter: bool, page: int, host: nat -> nat -> Reply,
                            errno: Errno, from: nat)
    requires LoadPage(page) && SegmentsMapped(m) && WellPlaced(m.segments, page) && PatchesInCode(m, from)
    ensures var r := LoadObject(m, image, interpreter, page, host, errno);
            r.result.Loaded? ==>
              && r.result.bias in Biases(image, interpreter)
              && r.result.bias + image.entry <= UINTPTR_MAX
              && WellPlaced(r.machine.segments, page)
              && Trapped(image, r.result.bias, r.machine.memory)
              && PatchesInCode(r.machine, from)
  {
    hide Reaches, TryBiases, LoadPage, SegmentsMapped, WellPlaced, PatchesInCode, InSection, Safe, MapHeaders,
         PatchSections;
    if image.refusal.None? && ValidHeaders(image) {
      var biases := Biases(image, interpreter);
      var k := TryBiasesIsFirstFit(m, image, biases, page, host, 0, errno);
      if k < |biases| && AttemptAt(m, image, biases, page, host, errno, k).ok {
        AttemptKeepsPlacement(m, image, biases[k], page, host(k), ErrnoAt(k, errno));
        AttemptPatchesCode(m, image, biases[k], page, host(k), ErrnoAt(k, errno), from);
        forall j: nat, a: Word | j < |image.sections| && InSection(image.sections[j], biases[k], a)
          ensures Safe(Attempt(m, image, biases[k], page, host(k), ErrnoAt(k, errno)).machine.memory, a)
        {
          AttemptMakesSafe(m, image, biases[k], page, host(k), ErrnoAt(k, errno), j, a);
        }
      }
    }
  }

  /** An image load that is not running and has not faulted has changed nothing. */
  lemma UndoneImageRestores(m: Machine, main: Image, interpreter: Interpreter, page: int,
                            mainHost: nat -> nat -> Reply, interpreterHost: nat -> nat -> Reply, finish: Finish,
                            errno: Errno)
    requires LoadPage(page) && SegmentsMapped(m)
    ensures var r := LoadImage(m, main, interpreter, page, mainHost, interpreterHost, finish, errno);
            r.Undone? ==> r.machine == m
  {
    hide Reaches, LoadPage, SegmentsMapped, LoadObject, Undo, InExecutableSegment, GuardedUndo, Entry, Finalize;
    LoadObjectReaches(m, main, false, page, mainHost, errno);
    var a := LoadObject(m, main, false, page, mainHost, errno);
    InSpaceOf(m);
    ReachedIsUndone(m, a.machine);
    GuardedUndoIs(a.machine, |m.patches|, |m.segments|);
    if a.result.Loaded? && interpreter.Resolved? {
      LoadObjectReaches(a.machine, interpreter.image, true, page, interpreterHost, a.result.errno);
      var b := LoadObject(a.machine, interpreter.image, true, page, interpreterHost, a.result.errno);
      ReachesTransitively(m, a.machine, b.machine);
      ReachedIsUndone(m, b.machine);
      GuardedUndoIs(b.machine, |m.patches|, |m.segments|);
    }
  }

  /** Where it does not fault, the guarded failure path is the plain one. */
  lemma GuardedUndoIs(m: Machine, patchCount: nat, segmentCount: nat)
    requires InSpace(m.segments)
    ensures forall protected :: GuardedUndo(m, patchCount, segmentCount, protected).Some? ==>
              GuardedUndo(m, patchCount, segmentCount, protected).value == Undo(m, patchCount, segmentCount)
  {
    hide Rollback, GuardedRollback, Unmap;
    forall protected: nat
      ensures GuardedUndo(m, patchCount, segmentCount, protected).Some? ==>
                GuardedUndo(m, patchCount, segmentCount, protected).value == Undo(m, patchCount, segmentCount)
    {
      GuardedRollbackIs(m.memory, m.patches, patchCount, m.segments, protected);
    }
  }

  lemma InSpaceOf(m: Machine)
    requires SegmentsMapped(m)
    ensures InSpace(m.segments)
  {
  }

  lemma ReachesKeepsTrapped(m: Machine, n: Machine, image: Image, bias: Word)
    requires Reaches(m, n) && Trapped(image, bias, m.memory)
    ensures Trapped(image, bias, n.memory)
  {
    hide Reaches, Safe, InSection;
    forall j: nat, a: Word | j < |image.sections| && InSection(image.sections[j], bias, a)
      ensures Safe(n.memory, a)
    {
      ReachesKeepsSafe(m, n, a);
    }
  }

  /** What an entered image guarantees of one of its two objects. */
  ghost predicate ObjectSound(image: Image, interpreter: bool, bias: Word, entry: Word, n: Machine) {
    bias in Biases(image, interpreter) && entry == bias + image.entry && Trapped(image, bias, n.memory)
  }

  lemma LoadedObjectStaysSound(m: Machine, n: Machine, image: Image, interpreter: bool, result: Result)
    requires Reaches(m, n) && result.Loaded? && result.bias in Biases(image, interpreter)
    requires result.bias + image.entry <= UINTPTR_MAX && Trapped(image, result.bias, m.memory)
    ensures ObjectSound(image, interpreter, result.bias, Entry(image, result), n)
  {
    ReachesKeepsTrapped(m, n, image, result.bias);
    hide Trapped;
    assert Entry(image, result) == result.bias + image.entry;
  }

  /**
    A running image: laid out soundly, entered inside executable segments, with no system call left in any
    executable section of the program or its interpreter, and still exactly undoable.
   */
  lemma RunningImageIsSound(m: Machine, main: Image, interpreter: Interpreter, page: int,
                            mainHost: nat -> nat -> Reply, interpreterHost: nat -> nat -> Reply, finish: Finish,
                            errno: Errno)
    requires LoadPage(page) && SegmentsMapped(m) && WellPlaced(m.segments, page)
    ensures var r := LoadImage(m, main, interpreter, page, mainHost, interpreterHost, finish, errno);
            r.Running? ==>
              && WellPlaced(r.machine.segments, page)
              && InExecutableSegment(r.machine.segments, r.entry, 4)
              && InExecutableSegment(r.machine.segments, r.start, 4)
              && ObjectSound(main, false, r.bias, r.entry, r.machine)
              && (interpreter.Resolved? ==> ObjectSound(interpreter.image, true, r.base, r.start, r.machine))
              && (interpreter.Static? ==> r.start == r.entry)
              && InSpace(r.machine.segments)
              && Undo(r.machine, |m.patches|, |m.segments|) == m
  {
    hide Reaches, LoadPage, SegmentsMapped, LoadObject, Undo, InExecutableSegment, GuardedUndo, WellPlaced,
         PatchesInCode, Trapped, ObjectSound, Entry, Biases, Finalize;
    NothingPatchedYet(m);
    InSpaceOf(m);
    LoadObjectReaches(m, main, false, page, mainHost, errno);
    LoadedObjectIsSound(m, main, false, page, mainHost, errno, |m.patches|);
    var a := LoadObject(m, main, false, page, mainHost, errno);
    ReachedIsUndone(m, a.machine);
    if a.result.Loaded? {
      ReachesSelf(a.machine);
      LoadedObjectStaysSound(a.machine, a.machine, main, false, a.result);
      if interpreter.Resolved? {
        LoadObjectReaches(a.machine, interpreter.image, true, page, interpreterHost, a.result.errno);
        LoadedObjectIsSound(a.machine, interpreter.image, true, page, interpreterHost, a.result.errno, |m.patches|);
        var b := LoadObject(a.machine, interpreter.image, true, page, interpreterHost, a.result.errno);
        ReachesTransitively(m, a.machine, b.machine);
        ReachedIsUndone(m, b.machine);
        if b.result.Loaded? {
          ReachesSelf(b.machine);
          LoadedObjectStaysSound(a.machine, b.machine, main, false, a.result);
          LoadedObjectStaysSound(b.machine, b.machine, interpreter.image, true, b.result);
        }
      }
    }
  }

  lemma NothingPatchedYet(m: Machine)
    ensures PatchesInCode(m, |m.patches|)
  {
  }

  // ----- a failing guest_memory_finalize

  /** A patch of this load lies in an executable segment among the first `protected`. */
  ghost predicate PatchBehindProtection(n: Machine, from: nat, protected: nat) {
    exists r, s :: from <= r < |n.patches| && 0 <= s < |n.segments| && s < protected
                   && Holds(n.segments[s], n.patches[r].address) && n.segments[s].executable
  }

  /** In a well-placed address space the segment that holds a patch is executable, and so not writable. */
  lemma PatchedSegment(n: Machine, from: nat, page: int, r: nat, s: nat)
    requires page > 0 && WellPlaced(n.segments, page) && PatchesInCode(n, from)
    requires from <= r < |n.patches| && s < |n.segments| && Holds(n.segments[s], n.patches[r].address)
    ensures n.segments[s].executable && !n.segments[s].writable
  {
    assert InCode(n.segments, n.patches[r]);
    var c :| 0 <= c < |n.segments| && n.segments[c].executable && Holds(n.segments[c], n.patches[r].address);
    SameSegment(n.segments, page, c, s, n.patches[r].address);
  }

  lemma SameSegment(segments: seq<Segment>, page: int, i: nat, j: nat, address: Word)
    requires page > 0 && WellPlaced(segments, page) && i < |segments| && j < |segments|
    requires Holds(segments[i], address) && Holds(segments[j], address)
    ensures i == j && Placed(segments[i], page)
  {
  }

  /** The rollback's own writes fault exactly when a patch lies behind the protection. */
  lemma RollbackFaultsIff(n: Machine, from: nat, segmentCount: nat, protected: nat, page: int)
    requires page > 0 && InSpace(n.segments) && WellPlaced(n.segments, page) && PatchesInCode(n, from)
    ensures GuardedUndo(n, from, segmentCount, protected).None? <==> PatchBehindProtection(n, from, protected)
    ensures protected >= |n.segments| ==> (PatchBehindProtection(n, from, protected) <==> |n.patches| > from)
  {
    hide WellPlaced, GuardedRollback, PatchesInCode, Unmap;
    GuardedRollbackIs(n.memory, n.patches, from, n.segments, protected);
    forall r, s | from <= r < |n.patches| && 0 <= s < |n.segments| && Holds(n.segments[s], n.patches[r].address)
      ensures n.segments[s].executable && !n.segments[s].writable
    {
      PatchedSegment(n, from, page, r, s);
    }
    if |n.patches| > from {
      var s := SegmentOfPatch(n, from);
    }
  }

  lemma SegmentOfPatch(n: Machine, from: nat) returns (s: nat)
    requires PatchesInCode(n, from) && |n.patches| > from
    ensures s < |n.segments| && n.segments[s].executable && Holds(n.segments[s], n.patches[from].address)
  {
    assert InCode(n.segments, n.patches[from]);
    s :| s < |n.segments| && n.segments[s].executable && Holds(n.segments[s], n.patches[from].address);
  }

  /** With a willing host the load runs if and only if it gets as far as finalization. */
  lemma WillingFinalizes(segments: seq<Segment>, i: nat)
    requires i <= |segments|
    ensures Finalize(segments, Willing(), i) == (|segments|, None)
    decreases |segments| - i
  {
    if i < |segments| {
      WillingFinalizes(segments, i + 1);
    }
  }

  lemma EnteredHasPatchesInCode(m: Machine, main: Image, interpreter: Interpreter, page: int,
                                mainHost: nat -> nat -> Reply, interpreterHost: nat -> nat -> Reply, finish: Finish,
                                errno: Errno)
    requires LoadPage(page) && SegmentsMapped(m) && WellPlaced(m.segments, page)
    ensures var r := LoadImage(m, main, interpreter, page, mainHost, interpreterHost, finish, errno);
            r.Running? ==> PatchesInCode(r.machine, |m.patches|) && WellPlaced(r.machine.segments, page)
                           && InSpace(r.machine.segments) && r.machine.patches != []
  {
    hide Reaches, LoadPage, SegmentsMapped, LoadObject, Undo, InExecutableSegment, GuardedUndo, WellPlaced,
         PatchesInCode, Trapped, Entry, Biases, Finalize;
    NothingPatchedYet(m);
    LoadObjectReaches(m, main, false, page, mainHost, errno);
    LoadedObjectIsSound(m, main, false, page, mainHost, errno, |m.patches|);
    var a := LoadObject(m, main, false, page, mainHost, errno);
    if a.result.Loaded? && interpreter.Resolved? {
      LoadObjectReaches(a.machine, interpreter.image, true, page, interpreterHost, a.result.errno);
      LoadedObjectIsSound(a.machine, interpreter.image, true, page, interpreterHost, a.result.errno, |m.patches|);
    }
  }

  /** What the end of a load makes of a machine that would run if the host were willing. */
  lemma EndOfLoad(m: Machine, ready: Load, errno: Errno, finish: Finish)
    requires ready.Running? && InSpace(ready.machine.segments)
    ensures var w := Enter(m, ready, errno, Finish(None, Willing()));
            && (w.Running? ==> w == ready)
            && (Enter(m, ready, errno, finish).Faulted? <==>
                  && w.Running? && finish.breakErrno.None?
                  && Finalize(ready.machine.segments, finish.host, 0).1.Some?
                  && GuardedUndo(ready.machine, |m.patches|, |m.segments|,
                                 Finalize(ready.machine.segments, finish.host, 0).0).None?)
  {
    hide Finalize, GuardedUndo, Undo, InExecutableSegment;
    WillingFinalizes(ready.machine.segments, 0);
  }

  ghost predicate FaultsAtEnd(m: Machine, n: Machine, finish: Finish)
    requires InSpace(n.segments)
  {
    var (protected, failed) := Finalize(n.segments, finish.host, 0);
    finish.breakErrno.None? && failed.Some? && GuardedUndo(n, |m.patches|, |m.segments|, protected).None?
  }

  lemma ImageFaultsAtEnd(m: Machine, main: Image, interpreter: Interpreter, page: int, mainHost: nat -> nat -> Reply,
                         interpreterHost: nat -> nat -> Reply, finish: Finish, errno: Errno)
    requires LoadPage(page) && SegmentsMapped(m)
    ensures var r := LoadImage(m, main, interpreter, page, mainHost, interpreterHost, Finish(None, Willing()), errno);
            && (r.Running? ==> InSpace(r.machine.segments))
            && (LoadImage(m, main, interpreter, page, mainHost, interpreterHost, finish, errno).Faulted?
                <==> r.Running? && FaultsAtEnd(m, r.machine, finish))
  {
    hide Reaches, LoadPage, SegmentsMapped, LoadObject, Undo, Enter, GuardedUndo, Entry, Finalize;
    LoadObjectReaches(m, main, false, page, mainHost, errno);
    var a := LoadObject(m, main, false, page, mainHost, errno);
    if a.result.Loaded? {
      var entry := Entry(main, a.result);
      if interpreter.Static? {
        EndOfLoad(m, Running(a.machine, entry, entry, a.result.bias, 0), a.result.errno, finish);
        EnterKinds(m, Running(a.machine, entry, entry, a.result.bias, 0), a.result.errno, Finish(None, Willing()));
      } else if interpreter.Resolved? {
        LoadObjectReaches(a.machine, interpreter.image, true, page, interpreterHost, a.result.errno);
        var b := LoadObject(a.machine, interpreter.image, true, page, interpreterHost, a.result.errno);
        if b.result.Loaded? {
          var ready := Running(b.machine, entry, Entry(interpreter.image, b.result), a.result.bias, b.result.bias);
          EndOfLoad(m, ready, b.result.errno, finish);
        }
      }
    }
  }

  lemma EnterKinds(m: Machine, ready: Load, errno: Errno, finish: Finish)
    requires ready.Running? && InSpace(ready.machine.segments)
    ensures Enter(m, ready, errno, finish).Running? ==> Enter(m, ready, errno, finish) == ready
  {
    hide Finalize, GuardedUndo, Undo, InExecutableSegment;
  }

  /**
    A load whose finalization fails is not always undone: it faults exactly when the load would otherwise have
    run and a patch it made lies in an executable segment that has already been protected.
   */
  lemma ImageFaultsIff(m: Machine, main: Image, interpreter: Interpreter, page: int, mainHost: nat -> nat -> Reply,
                       interpreterHost: nat -> nat -> Reply, finish: Finish, errno: Errno)
    requires LoadPage(page) && SegmentsMapped(m) && WellPlaced(m.segments, page)
    ensures var r := LoadImage(m, main, interpreter, page, mainHost, interpreterHost, Finish(None, Willing()), errno);
            LoadImage(m, main, interpreter, page, mainHost, interpreterHost, finish, errno).Faulted?
            <==> && r.Running? && finish.breakErrno.None?
                 && Finalize(r.machine.segments, finish.host, 0).1.Some?
                 && PatchBehindProtection(r.machine, |m.patches|, Finalize(r.machine.segments, finish.host, 0).0)
  {
    hide LoadImage, SegmentsMapped, WellPlaced, PatchesInCode, PatchBehindProtection, Finalize, GuardedUndo, LoadPage;
    PagePositive(page);
    EnteredHasPatchesInCode(m, main, interpreter, page, mainHost, interpreterHost, Finish(None, Willing()), errno);
    ImageFaultsAtEnd(m, main, interpreter, page, mainHost, interpreterHost, finish, errno);
    var r := LoadImage(m, main, interpreter, page, mainHost, interpreterHost, Finish(None, Willing()), errno);
    if r.Running? {
      RollbackFaultsIff(r.machine, |m.patches|, |m.segments|, Finalize(r.machine.segments, finish.host, 0).0, page);
    }
  }

  lemma PagePositive(page: int)
    requires LoadPage(page)
    ensures page > 0
  {
  }

  /** On a fresh process a finalization that fails after protecting every segment can never be undone. */
  lemma LateFinalizeFailureFaults(main: Image, interpreter: Interpreter, page: int, mainHost: nat -> nat -> Reply,
                                  interpreterHost: nat -> nat -> Reply, host: nat -> Answer, errno: Errno)
    requires LoadPage(page)
    requires var m := Machine([], [], map[]);
             var r := LoadImage(m, main, interpreter, page, mainHost, interpreterHost, Finish(None, Willing()), errno);
             && r.Running? && Finalize(r.machine.segments, host, 0).1.Some?
             && Finalize(r.machine.segments, host, 0).0 == |r.machine.segments|
    ensures LoadImage(Machine([], [], map[]), main, interpreter, page, mainHost, interpreterHost, Finish(None, host),
                      errno)
         == Faulted
  {
    hide LoadImage, PatchesInCode, Finalize, GuardedUndo, PatchBehindProtection;
    var m := Machine([], [], map[]);
    PagePositive(page);
    EnteredHasPatchesInCode(m, main, interpreter, page, mainHost, interpreterHost, Finish(None, Willing()), errno);
    ImageFaultsIff(m, main, interpreter, page, mainHost, interpreterHost, Finish(None, host), errno);
    var r := LoadImage(m, main, interpreter, page, mainHost, interpreterHost, Finish(None, Willing()), errno);
    RollbackFaultsIff(r.machine, 0, 0, |r.machine.segments|, page);
  }
}
