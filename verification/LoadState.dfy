/** The loader's loops (src/elf_loader.c, src/guest_memory.c) over the tables they update. */
module LoadState {
  import opened Words
  import opened ArmPatch
  import opened LoadTransaction
  import opened ElfLoader
  import opened ImageLoader

  /** `validate_load_range`. */
  method ValidateLoadRange(segments: seq<Segment>, start: int, end: int) returns (ok: bool)
    ensures ok == ValidLoadRange(segments, start, end)
  {
    if start < GUEST_MIN_ADDRESS || end <= start || end > GUEST_MAX_ADDRESS {
      return false;
    }
    for i := 0 to |segments|
      invariant forall k :: 0 <= k < i ==> !Overlaps(start, end, segments[k].start, segments[k].end)
    {
      if Overlaps(start, end, segments[i].start, segments[i].end) {
        return false;
      }
    }
    return true;
  }

  /** `section_in_executable_load`. */
  method SectionInExecutableLoad(s: Section, headers: seq<Header>) returns (found: bool)
    ensures found == InExecutableLoad(s, headers)
  {
    for i := 0 to |headers|
      invariant forall k :: 0 <= k < i ==> !HoldsSection(headers[k], s)
    {
      if HoldsSection(headers[i], s) {
        return true;
      }
    }
    return false;
  }

  /** The validation loop of `load_elf_object`. */
  method ValidateHeaders(image: Image) returns (ok: bool)
    ensures ok == ValidHeaders(image)
  {
    for i := 0 to |image.headers|
      invariant forall k :: 0 <= k < i ==> ValidHeader(image.headers[k], image.fileSize)
    {
      if !ValidHeader(image.headers[i], image.fileSize) {
        return false;
      }
    }
    return true;
  }

  /** `guest_memory_finalize`: protects the segments in order and stops at the first failure. */
  method FinalizeSegments(segments: seq<Segment>, host: nat -> Answer) returns (protected: nat, failed: Option<Errno>)
    ensures (protected, failed) == Finalize(segments, host, 0)
  {
    var i := 0;
    while i < |segments|
      invariant 0 <= i <= |segments| && Finalize(segments, host, i) == Finalize(segments, host, 0)
    {
      if !host(i).protects {
        return i, Some(host(i).errno);
      }
      if segments[i].executable && !host(i).flushes {
        return i + 1, Some(host(i).errno);
      }
      i := i + 1;
    }
    return |segments|, None;
  }

  /** The segment array and the patch table; the table object also holds the mapped code words. */
  class Tables {
    const segments: array<Segment>
    var count: nat
    const patches: PatchTable

    constructor (table: PatchTable)
      requires table.Valid() && table.count == 0 && table.code == map[]
      ensures patches == table && fresh(segments) && Valid() && Contents() == Machine([], [], map[])
    {
      segments := new Segment[MAX_LOAD_SEGMENTS](_ => Segment(0, 0, false, false, false));
      count := 0;
      patches := table;
    }

    ghost predicate Valid()
      reads this, patches
    {
      segments.Length == MAX_LOAD_SEGMENTS && count <= MAX_LOAD_SEGMENTS && patches.Valid()
    }

    ghost function Contents(): Machine
      requires Valid()
      reads this, segments, patches, patches.patches
    {
      Machine(segments[..count], patches.Table(), patches.code)
    }

    /** Append a segment and its words. */
    method AddSegment(s: Segment, contents: Word -> bv32)
      requires Valid() && count < MAX_LOAD_SEGMENTS && Legal(Contents(), MapSegment(s, contents))
      modifies this, segments, patches
      ensures Valid() && Contents() == Perform(old(Contents()), MapSegment(s, contents))
    {
      hide Region;
      segments[count] := s;
      count := count + 1;
      patches.code := patches.code + (map a | a in Region(s.start, s.end) :: contents(a));
    }

    /** `guest_memory_map_load_segment`. */
    method MapLoadSegment(h: Header, bias: Word, image: Image, page: int, reply: Reply) returns (refused: Option<Errno>)
      requires Valid() && LoadPage(page)
      modifies this, segments, patches
      ensures Valid() && (Contents(), refused) == MapHeader(old(Contents()), h, bias, image, page, reply)
    {
      hide AlignDown, AlignUp, PowerOfTwo, ValidLoadRange, Perform, FilledContents, LoadPage;
      if !Mappable(h, bias, image.fileSize, page) {
        return Some(NotExecutable);
      }
      PagePositive(page);
      var s := SegmentFor(h, bias, page);
      var valid := ValidateLoadRange(segments[..count], s.start, s.end);
      if !valid {
        return Some(NotExecutable);
      }
      if count == MAX_LOAD_SEGMENTS {
        return Some(TooBig);
      }
      if reply.placement.Failed? {
        return Some(reply.mapErrno);
      }
      SegmentGeometry(h, bias, image.fileSize, page);
      if reply.placement.address != s.start || !(Region(s.start, s.end) !! patches.code.Keys) {
        return Some(Exists);
      }
      if h.filesz != 0 && !reply.readOk {
        return Some(reply.readErrno);
      }
      AddSegment(s, FilledContents(h, bias, image.file, s.start));
      return None;
    }

    /** The loop of `load_elf_object` over program headers. */
    method MapProgramHeaders(image: Image, bias: Word, page: int, host: nat -> Reply) returns (refused: Option<Errno>)
      requires Valid() && LoadPage(page)
      modifies this, segments, patches
      ensures Valid() && (Contents(), refused) == MapHeaders(old(Contents()), image, bias, page, host, 0)
    {
      hide MapHeader, LoadPage;
      refused := None;
      ghost var m := Contents();
      var i := 0;
      while i < |image.headers|
        invariant 0 <= i <= |image.headers| && Valid()
        invariant MapHeaders(Contents(), image, bias, page, host, i) == MapHeaders(m, image, bias, page, host, 0)
      {
        if Loads(image.headers[i]) {
          refused := MapLoadSegment(image.headers[i], bias, image, page, host(i));
          if refused.Some? {
            return;
          }
        }
        i := i + 1;
      }
      refused := None;
    }

    /** Scan one section that passed its checks. */
    method ScanSection(start: Word, length: Word) returns (ok: bool)
      requires Valid() && Legal(Contents(), PatchCode(start, length))
      modifies patches, patches.patches
      ensures Valid() && Contents() == Perform(old(Contents()), PatchCode(start, length))
      ensures ok == ScanRange(old(patches.code), old(patches.Table()), start, length).ok
    {
      hide PatchFrom;
      ok := patches.PatchRange(start, length);
    }

    /** `patch_executable_sections`, from the section table on. */
    method PatchExecutableSections(image: Image, bias: Word, errno: Errno) returns (ok: bool, error: Errno)
      requires Valid() && SegmentsMapped(Contents())
      modifies patches, patches.patches
      ensures Valid()
      ensures Patching(Contents(), ok, error) == PatchSections(old(Contents()), image, bias, 0, 0, errno)
    {
      hide SegmentsMapped, Scannable, InExecutableLoad, Mapped, PatchFrom, Perform;
      ghost var m := Contents();
      var i, found := 0, 0;
      while i < |image.sections|
        invariant 0 <= i <= |image.sections| && found >= 0 && Valid() && SegmentsMapped(Contents())
        invariant PatchSections(Contents(), image, bias, i, found, errno) == PatchSections(m, image, bias, 0, 0, errno)
      {
        var s := image.sections[i];
        if s.executable && s.size != 0 {
          var held := SectionInExecutableLoad(s, image.headers);
          if !s.progbits || !RangeInFile(s.offset, s.size, image.fileSize) || !ValidAlignment(s.addralign)
             || s.writable || !held || bias > UINTPTR_MAX - s.addr {
            return false, NotExecutable;
          }
          if !Scannable(segments[..count], bias + s.addr, s.size) {
            return false, OrNotExecutable(errno);
          }
          ScannableIsLegal(Contents(), bias + s.addr, s.size);
          var scanned := ScanSection(bias + s.addr, s.size);
          if !scanned {
            return false, TooBig;
          }
          found := found + 1;
        }
        i := i + 1;
      }
      if found == 0 {
        return false, NotExecutable;
      }
      return true, errno;
    }

    /** `guest_memory_rollback`. */
    method RollbackSegments(retained: nat)
      requires Valid() && InSpace(segments[..count])
      modifies this, segments, patches
      ensures Valid() && Contents() == Unmap(old(Contents()), retained)
    {
      while count > retained
        invariant Valid() && InSpace(segments[..count]) && patches.patches[..] == old(patches.patches[..])
        invariant patches.count == old(patches.count)
        invariant Unmap(Contents(), retained) == Unmap(old(Contents()), retained)
      {
        assert segments[..count][..count - 1] == segments[..count - 1];
        var last := segments[count - 1];
        patches.code := patches.code - Region(last.start, last.end);
        count := count - 1;
        segments[count] := Segment(0, 0, false, false, false);
      }
    }

    /** The failure path shared by `load_elf_object` and `load_guest_image`. */
    method RollbackAll(patchCount: nat, segmentCount: nat)
      requires Valid() && InSpace(segments[..count])
      modifies this, segments, patches
      ensures Valid() && Contents() == Undo(old(Contents()), patchCount, segmentCount)
    {
      hide Rollback, Unmap, InSpace;
      patches.RollbackTo(patchCount);
      RollbackSegments(segmentCount);
    }

    /** The same path when finalization has protected some segments; a write into one of them faults. */
    method RollbackOrFault(patchCount: nat, segmentCount: nat, protected: nat) returns (faulted: bool)
      requires Valid() && InSpace(segments[..count])
      modifies this, segments, patches
      ensures var u := GuardedUndo(old(Contents()), patchCount, segmentCount, protected);
              faulted == u.None? && (!faulted ==> Valid() && Contents() == u.value)
    {
      hide Unmap, InSpace, CanWrite;
      ghost var code, table := patches.code, patches.Table();
      while patches.count > patchCount
        invariant Valid() && segments[..count] == old(segments[..count]) && count == old(count)
        invariant GuardedRollback(patches.code, patches.Table(), patchCount, segments[..count], protected)
               == GuardedRollback(code, table, patchCount, old(segments[..count]), protected)
      {
        assert patches.Table()[..patches.count - 1] == patches.patches[..patches.count - 1];
        var last := patches.patches[patches.count - 1];
        if !CanWrite(segments[..count], protected, last.address) {
          return true;
        }
        patches.count := patches.count - 1;
        patches.code := patches.code[last.address := last.original];
      }
      RollbackSegments(segmentCount);
      return false;
    }

    /** One round of the attempt loop, up to the decision whether to stop. */
    method TryBias(image: Image, bias: Word, page: int, host: nat -> Reply, errno: Errno)
      returns (ok: bool, error: Errno)
      requires Valid() && LoadPage(page) && SegmentsMapped(Contents())
      modifies this, segments, patches, patches.patches
      ensures Valid()
      ensures Patching(Contents(), ok, error) == Attempt(old(Contents()), image, bias, page, host, errno)
    {
      hide MapHeaders, PatchSections, SegmentsMapped, LoadPage;
      var before := count;
      MapHeadersKeepsMapped(Contents(), image, bias, page, host, 0);
      var refused := MapProgramHeaders(image, bias, page, host);
      if refused.Some? {
        return false, OrNotExecutable(refused.value);
      }
      if count == before {
        return false, OrNotExecutable(errno);
      }
      ok, error := PatchExecutableSections(image, bias, errno);
      if !ok || bias > UINTPTR_MAX - image.entry {
        return false, OrNotExecutable(error);
      }
    }

    /** `load_elf_object`: a refusal leaves the tables and the mapped code as they were. */
    method LoadElfObject(image: Image, interpreter: bool, page: int, host: nat -> nat -> Reply, errno: Errno)
      returns (result: Result)
      requires Valid() && LoadPage(page) && SegmentsMapped(Contents())
      modifies this, segments, patches, patches.patches
      ensures Valid()
      ensures Outcome(Contents(), result) == LoadObject(old(Contents()), image, interpreter, page, host, errno)
      ensures result.Refused? ==> Contents() == old(Contents())
    {
      hide LoadPage, SegmentsMapped, Attempt, Undo, Reaches;
      ghost var m := Contents();
      LoadObjectReaches(m, image, interpreter, page, host, errno);
      if image.refusal.Some? {
        return Refused(image.refusal.value);
      }
      var valid := ValidateHeaders(image);
      if !valid {
        return Refused(NotExecutable);
      }
      result := TryAll(image, Biases(image, interpreter), page, host, errno);
    }

    /** The attempt loop. */
    method TryAll(image: Image, biases: seq<Word>, page: int, host: nat -> nat -> Reply, errno: Errno)
      returns (result: Result)
      requires Valid() && LoadPage(page) && SegmentsMapped(Contents())
      modifies this, segments, patches, patches.patches
      ensures Valid()
      ensures Outcome(Contents(), result) == TryBiases(old(Contents()), image, biases, page, host, 0, errno)
    {
      hide LoadPage, SegmentsMapped, Attempt, Undo;
      ghost var m := Contents();
      var k, error := 0, errno;
      while k < |biases|
        invariant 0 <= k <= |biases| && Valid() && Contents() == m && SegmentsMapped(m)
        invariant TryBiases(m, image, biases, page, host, k, error) == TryBiases(m, image, biases, page, host, 0, errno)
      {
        var segmentCount, patchCount := count, patches.count;
        AttemptIsUndone(m, image, biases[k], page, host(k), error);
        var ok, failure := TryBias(image, biases[k], page, host(k), error);
        if ok {
          return Loaded(biases[k], failure);
        }
        RollbackAll(patchCount, segmentCount);
        if !image.dynamic || failure != Exists {
          return Refused(failure);
        }
        k, error := k + 1, failure;
      }
      return Refused(Exists);
    }
  }
}
