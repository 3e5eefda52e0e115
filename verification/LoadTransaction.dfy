/**
  Loading as a transaction (src/guest_memory.c, src/arm_patch.c): segments are mapped and code words
  patched in any order, and the two rollbacks put everything back exactly.
 */
module LoadTransaction {
  import opened Words
  import opened ArmPatch

  const MAX_LOAD_SEGMENTS: nat := 32

  /** A loaded segment with its final protection (`struct load_segment`). */
  datatype Segment = Segment(start: int, end: int, readable: bool, writable: bool, executable: bool)

  /** Segment table, patch table and the mapped code words. */
  datatype Machine = Machine(segments: seq<Segment>, patches: seq<Record>, memory: Code)

  /** The word addresses of a mapped range. */
  function Region(start: int, end: int): (r: set<Word>)
    requires 0 <= start && end <= MODULUS
    decreases end - start
  {
    if start >= end then {} else {start} + Region(start + 4, end)
  }

  lemma {:induction false} RegionMembers(start: int, end: int, a: Word)
    requires 0 <= start && end <= MODULUS && start % 4 == 0
    ensures a in Region(start, end) <==> start <= a < end && a % 4 == 0
    decreases end - start
  {
    if start < end {
      RegionMembers(start + 4, end, a);
    }
  }

  /** One change a load makes. */
  datatype LoadStep =
    | MapSegment(segment: Segment, contents: Word -> bv32)
    | PatchCode(start: Word, length: Word)

  ghost predicate Legal(m: Machine, step: LoadStep) {
    match step
    case MapSegment(s, _) =>
      && 0 <= s.start && s.end <= UINTPTR_MAX && s.start % 4 == 0
      && Region(s.start, s.end) !! m.memory.Keys
    case PatchCode(start, length) =>
      start % 4 == 0 && length % 4 == 0 && length <= UINTPTR_MAX - start && Mapped(m.memory, start, start + length)
  }

  function Perform(m: Machine, step: LoadStep): Machine
    requires Legal(m, step)
  {
    match step
    case MapSegment(s, contents) =>
      m.(segments := m.segments + [s],
         memory := m.memory + (map a | a in Region(s.start, s.end) :: contents(a)))
    case PatchCode(start, length) =>
      var r := ScanRange(m.memory, m.patches, start, length);
      m.(patches := r.table, memory := r.code)
  }

  /** `guest_memory_rollback`: unmap the newest segments. */
  function Unmap(m: Machine, retained: nat): Machine
    requires forall i :: 0 <= i < |m.segments| ==> 0 <= m.segments[i].start && m.segments[i].end <= MODULUS
    decreases |m.segments|
  {
    if |m.segments| <= retained then m
    else
      var s := m.segments[|m.segments| - 1];
      Unmap(m.(segments := m.segments[..|m.segments| - 1], memory := m.memory - Region(s.start, s.end)), retained)
  }

  ghost predicate InSpace(segments: seq<Segment>) {
    forall i :: 0 <= i < |segments| ==> 0 <= segments[i].start && segments[i].end <= UINTPTR_MAX
  }

  /** The failure path of the loader: `arm_patch_rollback`, then `guest_memory_rollback`. */
  function Undo(m: Machine, patchCount: nat, segmentCount: nat): Machine
    requires InSpace(m.segments)
  {
    var (code, table) := Rollback(m.memory, m.patches, patchCount);
    Unmap(Machine(m.segments, table, code), segmentCount)
  }

  ghost predicate LegalRun(m: Machine, steps: seq<LoadStep>)
    decreases |steps|, 0
  {
    steps == [] ||
    (LegalRun(m, steps[..|steps| - 1])
     && Legal(PerformAll(m, steps[..|steps| - 1]), steps[|steps| - 1]))
  }

  ghost function PerformAll(m: Machine, steps: seq<LoadStep>): Machine
    requires LegalRun(m, steps)
    decreases |steps|, 1
  {
    if steps == [] then m
    else Perform(PerformAll(m, steps[..|steps| - 1]), steps[|steps| - 1])
  }

  // ----- rollback in the presence of later mappings

  /** Every record past the retained ones points at mapped memory. */
  ghost predicate RecordsMapped(m: Machine, retained: nat) {
    forall i :: retained <= i < |m.patches| ==> m.patches[i].address in m.memory
  }

  /** Rolling back writes only recorded addresses, so memory mapped beside them is carried along. */
  lemma {:induction false} RollbackBeside(code: Code, beside: Code, table: seq<Record>, retained: nat)
    requires code.Keys !! beside.Keys
    requires forall i :: retained <= i < |table| ==> table[i].address in code
    ensures var (c, t) := Rollback(code, table, retained);
            c.Keys == code.Keys && Rollback(code + beside, table, retained) == (c + beside, t)
    decreases |table|
  {
    if |table| > retained {
      var last := table[|table| - 1];
      var c := code[last.address := last.original];
      assert (code + beside)[last.address := last.original] == c + beside;
      RollbackBeside(c, beside, table[..|table| - 1], retained);
    }
  }

  lemma {:induction false} RollbackKeepsKeys(code: Code, table: seq<Record>, retained: nat)
    requires forall i :: retained <= i < |table| ==> table[i].address in code
    ensures Rollback(code, table, retained).0.Keys == code.Keys
    decreases |table|
  {
    if |table| > retained {
      var last := table[|table| - 1];
      RollbackKeepsKeys(code[last.address := last.original], table[..|table| - 1], retained);
    }
  }

  // ----- the main theorem

  lemma ScanExtendsTable(code: Code, table: seq<Record>, address: int, end: int)
    requires 0 <= address && end <= UINTPTR_MAX && address % 4 == 0 && end % 4 == 0 && Mapped(code, address, end)
    ensures var r := PatchFrom(code, table, address, end);
            && table <= r.table
            && forall i :: |table| <= i < |r.table| ==> r.table[i].address in code
    decreases end - address
  {
    hide Patchable, PatchFrom;
    if address >= end {
      NothingScanned(code, table, address, end);
    } else {
      PatchTurn(code, table, address, end);
      if !Patchable(code[address]) {
        ScanExtendsTable(code, table, address + 4, end);
      } else if |table| != MAX_PATCHES {
        ScanExtendsTable(code[address := ARM_UDF_TRAP], table + [Record(address, code[address])], address + 4, end);
      }
    }
  }

  lemma NothingScanned(code: Code, table: seq<Record>, address: int, end: int)
    requires 0 <= address && end <= UINTPTR_MAX && address % 4 == 0 && end % 4 == 0 && address >= end
    ensures PatchFrom(code, table, address, end) == Patched(code, table, true)
  {
  }

  /** What every load step keeps: tables only grow, and new records point at mapped words. */
  ghost predicate Grown(m: Machine, n: Machine) {
    && m.segments <= n.segments
    && m.patches <= n.patches
    && InSpace(n.segments)
    && RecordsMapped(n, |m.patches|)
  }

  lemma PerformGrows(m: Machine, n: Machine, step: LoadStep)
    requires Grown(m, n) && Legal(n, step)
    ensures Grown(m, Perform(n, step))
  {
    match step
    case MapSegment(s, contents) =>
    case PatchCode(start, length) =>
      ScanExtendsTable(n.memory, n.patches, start, start + length);
      hide PatchFrom;
  }

  lemma UndoMap(m: Machine, n: Machine, s: Segment, contents: Word -> bv32)
    requires Grown(m, n) && Legal(n, MapSegment(s, contents))
    ensures var p := Perform(n, MapSegment(s, contents));
            InSpace(p.segments) && Undo(p, |m.patches|, |m.segments|) == Undo(n, |m.patches|, |m.segments|)
  {
    var p := Perform(n, MapSegment(s, contents));
    var extra: Code := map a | a in Region(s.start, s.end) :: contents(a);
    RollbackBeside(n.memory, extra, n.patches, |m.patches|);
    hide Rollback, Region, Grown;
    var (c, t) := Rollback(n.memory, n.patches, |m.patches|);
    assert p.segments[..|p.segments| - 1] == n.segments;
    assert (c + extra) - Region(s.start, s.end) == c;
  }

  lemma UndoPatch(m: Machine, n: Machine, start: Word, length: Word)
    requires Grown(m, n) && Legal(n, PatchCode(start, length))
    ensures Undo(Perform(n, PatchCode(start, length)), |m.patches|, |m.segments|)
         == Undo(n, |m.patches|, |m.segments|)
  {
    var r := ScanRange(n.memory, n.patches, start, length);
    RollbackUndoesPatchRange(n.memory, n.patches, start, length);
    RollbackInStages(r.code, r.table, |n.patches|, |m.patches|);
    hide Rollback, ScanRange;
  }

  /** However a load mixed mapping and patching, and wherever it stopped, undoing it restores the machine. */
  lemma {:induction false} UndoRestores(m: Machine, steps: seq<LoadStep>)
    requires InSpace(m.segments) && LegalRun(m, steps)
    ensures Grown(m, PerformAll(m, steps))
    ensures Undo(PerformAll(m, steps), |m.patches|, |m.segments|) == m
    decreases |steps|
  {
    if steps != [] {
      var front, step := steps[..|steps| - 1], steps[|steps| - 1];
      UndoRestores(m, front);
      var n := PerformAll(m, front);
      PerformGrows(m, n, step);
      hide Perform, Undo, Grown;
      match step
      case MapSegment(s, contents) => UndoMap(m, n, s, contents);
      case PatchCode(start, length) => UndoPatch(m, n, start, length);
    }
  }

  lemma {:induction false} LegalRunConcat(m: Machine, a: seq<LoadStep>, b: seq<LoadStep>)
    requires LegalRun(m, a) && LegalRun(PerformAll(m, a), b)
    ensures LegalRun(m, a + b) && PerformAll(m, a + b) == PerformAll(PerformAll(m, a), b)
    decreases |b|
  {
    if b == [] {
      assert a + b == a;
    } else {
      LegalRunConcat(m, a, b[..|b| - 1]);
      assert (a + b)[..|a + b| - 1] == a + b[..|b| - 1];
      assert (a + b)[|a + b| - 1] == b[|b| - 1];
    }
  }

  // ----- reachability, for callers that do not care about the steps

  /** Some legal run of load steps leads from one machine to the other. */
  ghost predicate Reaches(m: Machine, n: Machine) {
    exists steps :: LegalRun(m, steps) && PerformAll(m, steps) == n
  }

  lemma ReachesSelf(m: Machine)
    ensures Reaches(m, m)
  {
    assert LegalRun(m, []);
  }

  lemma ReachesByStep(m: Machine, step: LoadStep)
    requires Legal(m, step)
    ensures Reaches(m, Perform(m, step))
  {
    assert [step][..0] == [];
    assert LegalRun(m, [step]);
    assert PerformAll(m, [step]) == Perform(m, step);
  }

  lemma ReachesTransitively(m: Machine, n: Machine, p: Machine)
    requires Reaches(m, n) && Reaches(n, p)
    ensures Reaches(m, p)
  {
    var a :| LegalRun(m, a) && PerformAll(m, a) == n;
    var b :| LegalRun(n, b) && PerformAll(n, b) == p;
    LegalRunConcat(m, a, b);
  }

  lemma ReachedIsUndone(m: Machine, n: Machine)
    requires InSpace(m.segments) && Reaches(m, n)
    ensures Grown(m, n) && Undo(n, |m.patches|, |m.segments|) == m
  {
    var steps :| LegalRun(m, steps) && PerformAll(m, steps) == n;
    UndoRestores(m, steps);
  }

  // ----- the code behind the patches

  /** The words the table remembers, put back in place: the code as it was mapped. */
  function Unpatched(m: Machine): Code {
    Rollback(m.memory, m.patches, 0).0
  }

  function SegmentMap(s: Segment, contents: Word -> bv32): Code
    requires 0 <= s.start && s.end <= MODULUS
  {
    map a | a in Region(s.start, s.end) :: contents(a)
  }

  /** Mapping a segment adds its contents to the code behind the patches. */
  lemma MappingAddsContents(m: Machine, s: Segment, contents: Word -> bv32)
    requires Legal(m, MapSegment(s, contents)) && RecordsMapped(m, 0)
    ensures var n := Perform(m, MapSegment(s, contents));
            Unpatched(n) == Unpatched(m) + SegmentMap(s, contents) && RecordsMapped(n, 0)
  {
    hide Rollback, Region;
    RollbackBeside(m.memory, SegmentMap(s, contents), m.patches, 0);
  }

  /** Patching leaves the code behind the patches alone. */
  lemma PatchingKeepsContents(m: Machine, start: Word, length: Word)
    requires Legal(m, PatchCode(start, length)) && RecordsMapped(m, 0)
    ensures var n := Perform(m, PatchCode(start, length)); Unpatched(n) == Unpatched(m) && RecordsMapped(n, 0)
  {
    hide Rollback, PatchFrom;
    var r := ScanRange(m.memory, m.patches, start, length);
    RollbackUndoesPatchRange(m.memory, m.patches, start, length);
    RollbackInStages(r.code, r.table, |m.patches|, 0);
    ScanExtendsTable(m.memory, m.patches, start, start + length);
  }
}
