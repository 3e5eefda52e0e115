/** When a load succeeds (src/elf_loader.c, src/guest_memory.c, src/arm_patch.c), and which segments it leaves. */
module LoadSuccess {
  import opened Words
  import opened ArmPatch
  import opened LoadTransaction
  import opened ElfLoader
  import opened ImageLoader

  // ----- what a file has to say

  /** The bytes of the header are in the file and fit its memory, and its end does not wrap when rounded up. */
  predicate Maps(h: Header, bias: Word, fileSize: nat, page: int) {
    && h.filesz <= h.memsz && (h.filesz == 0 || h.offset + h.filesz <= fileSize)
    && bias + h.vaddr + h.memsz + page <= 0x1_0000_0000
  }

  lemma MapsMeans(h: Header, bias: Word, fileSize: nat, page: int)
    requires page > 0
    ensures Mappable(h, bias, fileSize, page) <==> Maps(h, bias, fileSize, page)
  {
  }

  /** A header the loader accepts: its bytes exist, address and offset are congruent, and it is not both W and X. */
  predicate Accepted(h: Header, fileSize: nat) {
    if h.load && h.memsz != 0 then
      && h.filesz <= h.memsz && (h.filesz == 0 || h.offset + h.filesz <= fileSize)
      && (h.align == 0 || (PowerOfTwo(h.align) && (h.vaddr - h.offset) % h.align == 0))
      && !h.otherFlags && !(h.writable && h.executable)
    else h.interpreter ==> h.offset + h.filesz <= fileSize
  }

  lemma AcceptedMeans(h: Header, fileSize: nat)
    ensures ValidHeader(h, fileSize) <==> Accepted(h, fileSize)
  {
    hide Wrap, PowerOfTwo;
    if h.align != 0 && PowerOfTwo(h.align) {
      WrapKeepsResidue(h.vaddr - h.offset, h.align);
      if h.align == 1 {
        assert (h.vaddr - h.offset) % 1 == 0;
      }
    }
  }

  // ----- segments

  /** The segments of the loadable headers before i, in file order. */
  function SegmentsBefore(image: Image, bias: Word, page: int, i: nat): seq<Segment>
    requires LoadPage(page) && i <= |image.headers|
  {
    if i == 0 then []
    else
      var h := image.headers[i - 1];
      SegmentsBefore(image, bias, page, i - 1)
      + (if Loads(h) && Mappable(h, bias, image.fileSize, page) then [SegmentFor(h, bias, page)] else [])
  }

  predicate Apart(s: Segment, t: Segment) {
    s.end <= t.start || t.end <= s.start
  }

  predicate AllApart(segments: seq<Segment>, t: Segment) {
    forall q :: 0 <= q < |segments| ==> Apart(segments[q], t)
  }

  /** No word of the segment is mapped. */
  ghost predicate Unmapped(memory: Code, s: Segment) {
    forall a: Word :: s.start <= a < s.end && a % 4 == 0 ==> a !in memory
  }

  /**
    Header i can be mapped: it fits the file and the guest window, keeps clear of the segments that were there and of
    those of earlier headers, has a slot, and the host places it where it belongs and reads its bytes.
   */
  ghost predicate HeaderGoes(m: Machine, image: Image, bias: Word, page: int, reply: Reply, i: nat)
    requires LoadPage(page) && i < |image.headers|
  {
    var h := image.headers[i];
    && Maps(h, bias, image.fileSize, page)
    && var s, before := SegmentFor(h, bias, page), SegmentsBefore(image, bias, page, i);
       && GUEST_MIN_ADDRESS <= s.start && s.end <= GUEST_MAX_ADDRESS
       && AllApart(m.segments, s) && AllApart(before, s) && |m.segments| + |before| < 32
       && reply.placement == At(s.start) && Unmapped(m.memory, s)
       && (h.filesz != 0 ==> reply.readOk)
  }

  ghost predicate HeadersGo(m: Machine, image: Image, bias: Word, page: int, host: nat -> Reply, i: nat)
    requires LoadPage(page)
  {
    forall j: nat :: i <= j < |image.headers| && Loads(image.headers[j]) ==>
      HeaderGoes(m, image, bias, page, host(j), j)
  }

  /** A word that one of the segments covers. */
  ghost predicate CoveredBy(segments: seq<Segment>, a: Word) {
    a % 4 == 0 && exists q :: 0 <= q < |segments| && segments[q].start <= a < segments[q].end
  }

  /** The header loop before header i, when nothing has been refused. */
  ghost predicate MappedSoFar(m: Machine, n: Machine, image: Image, bias: Word, page: int, i: nat)
    requires LoadPage(page) && i <= |image.headers|
  {
    var before := SegmentsBefore(image, bias, page, i);
    && n.segments == m.segments + before && n.patches == m.patches
    && forall a: Word :: a in n.memory <==> a in m.memory || CoveredBy(before, a)
  }

  lemma RegionIsFree(memory: Code, s: Segment)
    requires 0 <= s.start && s.end <= MODULUS && s.start % 4 == 0
    ensures Region(s.start, s.end) !! memory.Keys <==> Unmapped(memory, s)
  {
    hide Region;
    forall a: Word ensures a in Region(s.start, s.end) <==> s.start <= a < s.end && a % 4 == 0 {
      RegionMembers(s.start, s.end, a);
    }
    if Region(s.start, s.end) !! memory.Keys {
      forall a: Word | s.start <= a < s.end && a % 4 == 0 ensures a !in memory {
        assert a in Region(s.start, s.end);
      }
    }
    assert forall a: Word :: a in Region(s.start, s.end) * memory.Keys ==> a in Region(s.start, s.end) && a in memory;
  }

  /** Segments apart from it do not take words of a segment. */
  lemma StillUnmapped(m: Machine, n: Machine, image: Image, bias: Word, page: int, i: nat, s: Segment)
    requires LoadPage(page) && i <= |image.headers| && MappedSoFar(m, n, image, bias, page, i)
    requires AllApart(SegmentsBefore(image, bias, page, i), s)
    ensures Unmapped(n.memory, s) <==> Unmapped(m.memory, s)
  {
    hide SegmentsBefore, LoadPage;
  }

  lemma RangeIsValid(m: Machine, before: seq<Segment>, s: Segment)
    requires s.start < s.end
    ensures ValidLoadRange(m.segments + before, s.start, s.end)
       <==> GUEST_MIN_ADDRESS <= s.start && s.end <= GUEST_MAX_ADDRESS && AllApart(m.segments, s) && AllApart(before, s)
  {
    var all := m.segments + before;
    assert forall q :: 0 <= q < |m.segments| ==> all[q] == m.segments[q];
    assert forall q :: 0 <= q < |before| ==> all[|m.segments| + q] == before[q];
    if ValidLoadRange(all, s.start, s.end) {
      forall q | 0 <= q < |before| ensures Apart(before[q], s) {
        assert !Overlaps(s.start, s.end, all[|m.segments| + q].start, all[|m.segments| + q].end);
      }
      forall q | 0 <= q < |m.segments| ensures Apart(m.segments[q], s) {
        assert !Overlaps(s.start, s.end, all[q].start, all[q].end);
      }
    }
  }

  /** One header: refused or mapped, as `HeaderGoes` says. */
  lemma HeaderMapsIff(m: Machine, n: Machine, image: Image, bias: Word, page: int, reply: Reply, i: nat)
    requires LoadPage(page) && i < |image.headers| && Loads(image.headers[i])
    requires MappedSoFar(m, n, image, bias, page, i)
    ensures MapHeader(n, image.headers[i], bias, image, page, reply).1.None?
       <==> HeaderGoes(m, image, bias, page, reply, i)
  {
    hide LoadPage, Region, SegmentsBefore, Perform, AlignUp, AlignDown, PowerOfTwo, MappedSoFar, ValidLoadRange;
    hide Unmapped, AllApart;
    var h := image.headers[i];
    PagePositive(page);
    MapsMeans(h, bias, image.fileSize, page);
    if Mappable(h, bias, image.fileSize, page) {
      SegmentGeometry(h, bias, image.fileSize, page);
      var s, before := SegmentFor(h, bias, page), SegmentsBefore(image, bias, page, i);
      RangeIsValid(m, before, s);
      SegmentsOf(m, n, image, bias, page, i);
      RegionIsFree(n.memory, s);
      if AllApart(before, s) {
        StillUnmapped(m, n, image, bias, page, i, s);
      }
    }
  }

  lemma SegmentsOf(m: Machine, n: Machine, image: Image, bias: Word, page: int, i: nat)
    requires LoadPage(page) && i <= |image.headers| && MappedSoFar(m, n, image, bias, page, i)
    ensures n.segments == m.segments + SegmentsBefore(image, bias, page, i) && n.patches == m.patches
  {
  }

  lemma HeaderKeepsMapped(m: Machine, n: Machine, image: Image, bias: Word, page: int, reply: Reply, i: nat)
    requires LoadPage(page) && i < |image.headers| && Loads(image.headers[i])
    requires MappedSoFar(m, n, image, bias, page, i)
    requires MapHeader(n, image.headers[i], bias, image, page, reply).1.None?
    ensures MappedSoFar(m, MapHeader(n, image.headers[i], bias, image, page, reply).0, image, bias, page, i + 1)
  {
    hide LoadPage, Region, AlignUp, AlignDown, PowerOfTwo, ValidLoadRange, FilledContents;
    var h := image.headers[i];
    PagePositive(page);
    SegmentGeometry(h, bias, image.fileSize, page);
    var s, before := SegmentFor(h, bias, page), SegmentsBefore(image, bias, page, i);
    var after := SegmentsBefore(image, bias, page, i + 1);
    assert after == before + [s];
    var k := MapHeader(n, h, bias, image, page, reply).0;
    assert k.segments == n.segments + [s];
    forall a: Word ensures a in k.memory <==> a in m.memory || CoveredBy(after, a) {
      RegionMembers(s.start, s.end, a);
      CoveredNext(before, s, a);
    }
  }

  lemma CoveredNext(before: seq<Segment>, s: Segment, a: Word)
    ensures CoveredBy(before + [s], a) <==> CoveredBy(before, a) || (a % 4 == 0 && s.start <= a < s.end)
  {
    var after := before + [s];
    assert after[|before|] == s;
    assert forall q :: 0 <= q < |before| ==> after[q] == before[q];
  }

  lemma SkippedKeepsMapped(m: Machine, n: Machine, image: Image, bias: Word, page: int, i: nat)
    requires LoadPage(page) && i < |image.headers| && !Loads(image.headers[i])
    requires MappedSoFar(m, n, image, bias, page, i)
    ensures MappedSoFar(m, n, image, bias, page, i + 1)
  {
    assert SegmentsBefore(image, bias, page, i + 1) == SegmentsBefore(image, bias, page, i);
  }

  lemma HeadersGoNext(m: Machine, image: Image, bias: Word, page: int, host: nat -> Reply, i: nat)
    requires LoadPage(page) && i < |image.headers|
    ensures HeadersGo(m, image, bias, page, host, i)
       <==> (Loads(image.headers[i]) ==> HeaderGoes(m, image, bias, page, host(i), i))
            && HeadersGo(m, image, bias, page, host, i + 1)
  {
    hide HeaderGoes, LoadPage;
  }

  /** The header loop refuses nothing exactly when every loadable header goes; its segments are then those asked for. */
  lemma {:induction false} HeadersMapIff(m: Machine, n: Machine, image: Image, bias: Word, page: int,
                                         host: nat -> Reply, i: nat)
    requires LoadPage(page) && i <= |image.headers| && MappedSoFar(m, n, image, bias, page, i)
    ensures var (k, e) := MapHeaders(n, image, bias, page, host, i);
            && (e.None? <==> HeadersGo(m, image, bias, page, host, i))
            && (e.None? ==> MappedSoFar(m, k, image, bias, page, |image.headers|))
    decreases |image.headers| - i
  {
    hide LoadPage, MappedSoFar, MapHeader, HeaderGoes, HeadersGo;
    if i == |image.headers| {
      NoHeadersLeft(m, image, bias, page, host);
    } else {
      HeadersGoNext(m, image, bias, page, host, i);
      if !Loads(image.headers[i]) {
        SkippedKeepsMapped(m, n, image, bias, page, i);
        HeadersMapIff(m, n, image, bias, page, host, i + 1);
      } else {
        HeaderMapsIff(m, n, image, bias, page, host(i), i);
        var (k, e) := MapHeader(n, image.headers[i], bias, image, page, host(i));
        if e.None? {
          HeaderKeepsMapped(m, n, image, bias, page, host(i), i);
          HeadersMapIff(m, k, image, bias, page, host, i + 1);
        }
      }
    }
  }

  lemma NoHeadersLeft(m: Machine, image: Image, bias: Word, page: int, host: nat -> Reply)
    requires LoadPage(page)
    ensures HeadersGo(m, image, bias, page, host, |image.headers|)
  {
  }

  // ----- what a segment may be used for

  /** The segment covers the header's memory and has exactly its permissions. */
  predicate AsAsked(s: Segment, h: Header, bias: Word) {
    && s.start <= bias + h.vaddr && bias + h.vaddr + h.memsz <= s.end
    && s.readable == h.readable && s.writable == h.writable && s.executable == h.executable
  }

  /**
    Every segment of a load belongs to a loadable header, covers its memory and has exactly the permissions the header
    asks for; so after validation none is both writable and executable.
   */
  lemma {:induction false} SegmentsAreAsAsked(image: Image, bias: Word, page: int, i: nat, q: nat) returns (j: nat)
    requires LoadPage(page) && i <= |image.headers| && q < |SegmentsBefore(image, bias, page, i)|
    ensures j < i && Loads(image.headers[j]) && AsAsked(SegmentsBefore(image, bias, page, i)[q], image.headers[j], bias)
    ensures ValidHeaders(image) ==>
              var s := SegmentsBefore(image, bias, page, i)[q]; !(s.writable && s.executable)
    decreases i
  {
    hide AlignUp, AlignDown, LoadPage;
    if q < |SegmentsBefore(image, bias, page, i - 1)| {
      j := SegmentsAreAsAsked(image, bias, page, i - 1, q);
    } else {
      j := i - 1;
      SegmentGeometry(image.headers[j], bias, image.fileSize, page);
    }
  }

  // ----- sections

  predicate Wanted(s: Section) {
    s.executable && s.size != 0
  }

  /** The section's bytes are bytes of the file that this header loads as code. */
  predicate LoadedBy(s: Section, h: Header) {
    && h.load && h.executable && h.vaddr <= s.addr && s.addr + s.size <= h.vaddr + h.filesz
    && s.addr - h.vaddr == s.offset - h.offset
  }

  /** The section is read-only code of the file, loaded as such, of whole words, and inside an executable segment. */
  predicate SectionGoes(segments: seq<Segment>, image: Image, bias: Word, s: Section) {
    var start := bias + s.addr;
    && s.progbits && !s.writable && (s.addralign == 0 || PowerOfTwo(s.addralign))
    && s.offset + s.size <= image.fileSize
    && (exists j :: 0 <= j < |image.headers| && LoadedBy(s, image.headers[j]))
    && start % 4 == 0 && s.size % 4 == 0 && start + s.size <= 0xffff_ffff
    && exists q :: 0 <= q < |segments| && segments[q].executable && segments[q].start <= start
                   && start + s.size <= segments[q].end
  }

  lemma SectionGoesMeans(segments: seq<Segment>, image: Image, bias: Word, s: Section)
    ensures SectionGoes(segments, image, bias, s)
       <==> PatchableSection(s, image, bias) && Scannable(segments, bias + s.addr, s.size)
  {
    hide PowerOfTwo;
    assert forall j :: 0 <= j < |image.headers| ==>
             (LoadedBy(s, image.headers[j]) <==> HoldsSection(image.headers[j], s));
  }

  /** A scanned section holds, byte for byte, what the file says at its offset. */
  lemma SectionHoldsFile(s: Section, h: Header, bias: Word, file: nat -> bv8, k: nat)
    requires HoldsSection(h, s) && k < s.size
    ensures SegmentByte(h, bias, file, bias + s.addr + k) == file(s.offset + k)
  {
  }

  ghost predicate SectionsGo(segments: seq<Segment>, image: Image, bias: Word, i: nat) {
    forall j :: i <= j < |image.sections| && Wanted(image.sections[j]) ==>
      SectionGoes(segments, image, bias, image.sections[j])
  }

  ghost predicate SomeWanted(image: Image, i: nat) {
    exists j :: i <= j < |image.sections| && Wanted(image.sections[j])
  }

  ghost predicate InWanted(image: Image, bias: Word, i: nat, a: Word) {
    exists j :: i <= j < |image.sections| && Wanted(image.sections[j])
                && InScan(a, bias + image.sections[j].addr, bias + image.sections[j].addr + image.sections[j].size)
  }

  /** The words of the executable sections from i on. */
  ghost function WantedWords(image: Image, bias: Word, i: nat): iset<Word> {
    iset a: Word | InWanted(image, bias, i, a)
  }

  lemma WantedNext(image: Image, bias: Word, i: nat)
    requires i < |image.sections|
    ensures var s := image.sections[i];
            WantedWords(image, bias, i)
            == (if Wanted(s) then ScanWords(bias + s.addr, bias + s.addr + s.size) else iset{})
               + WantedWords(image, bias, i + 1)
    ensures SomeWanted(image, i) <==> Wanted(image.sections[i]) || SomeWanted(image, i + 1)
  {
    hide Wanted;
    forall a: Word
      ensures InWanted(image, bias, i, a)
         <==> || (Wanted(image.sections[i])
                  && InScan(a, bias + image.sections[i].addr, bias + image.sections[i].addr + image.sections[i].size))
              || InWanted(image, bias, i + 1, a)
    {
    }
  }

  lemma SectionsGoNext(segments: seq<Segment>, image: Image, bias: Word, i: nat)
    requires i < |image.sections|
    ensures SectionsGo(segments, image, bias, i)
       <==> (Wanted(image.sections[i]) ==> SectionGoes(segments, image, bias, image.sections[i]))
            && SectionsGo(segments, image, bias, i + 1)
  {
    hide SectionGoes, Wanted;
  }

  lemma NoSectionsLeft(code: Code, segments: seq<Segment>, image: Image, bias: Word)
    ensures SectionsGo(segments, image, bias, |image.sections|) && !SomeWanted(image, |image.sections|)
    ensures Needing(code, WantedWords(image, bias, |image.sections|)) == {}
  {
  }

  /**
    The section loop succeeds exactly when there is an executable section, every one passes its checks, and the table
    has room for every word in them that needs a patch, counted once.
   */
  lemma {:induction false} SectionsPatchIff(m: Machine, image: Image, bias: Word, i: nat, count: nat, errno: Errno)
    requires i <= |image.sections| && SegmentsMapped(m) && |m.patches| <= MAX_PATCHES
    ensures PatchSections(m, image, bias, i, count, errno).ok
       <==> && (count > 0 || SomeWanted(image, i)) && SectionsGo(m.segments, image, bias, i)
            && |m.patches| + |Needing(m.memory, WantedWords(image, bias, i))| <= MAX_PATCHES
    ensures var p := PatchSections(m, image, bias, i, count, errno);
            p.ok ==> && p.machine.segments == m.segments
                     && |p.machine.patches| == |m.patches| + |Needing(m.memory, WantedWords(image, bias, i))|
    decreases |image.sections| - i
  {
    hide SegmentsMapped, Scannable, PatchableSection, Needing, WantedWords, SomeWanted, SectionsGo, PatchFrom;
    hide Patchables, Mapped, SectionGoes;
    if i == |image.sections| {
      NoSectionsLeft(m.memory, m.segments, image, bias);
    } else {
      var s := image.sections[i];
      WantedNext(image, bias, i);
      SectionsGoNext(m.segments, image, bias, i);
      SectionGoesMeans(m.segments, image, bias, s);
      if !Wanted(s) {
        assert iset{} + WantedWords(image, bias, i + 1) == WantedWords(image, bias, i + 1);
        SectionsPatchIff(m, image, bias, i + 1, count, errno);
      } else if SectionGoes(m.segments, image, bias, s) {
        OneSection(m, image, bias, i, count, errno);
      }
    }
  }

  lemma {:induction false} OneSection(m: Machine, image: Image, bias: Word, i: nat, count: nat, errno: Errno)
    requires i < |image.sections| && SegmentsMapped(m) && |m.patches| <= MAX_PATCHES
    requires Wanted(image.sections[i]) && SectionGoes(m.segments, image, bias, image.sections[i])
    ensures PatchSections(m, image, bias, i, count, errno).ok
       <==> && SectionsGo(m.segments, image, bias, i + 1)
            && |m.patches| + |Needing(m.memory, WantedWords(image, bias, i))| <= MAX_PATCHES
    ensures var p := PatchSections(m, image, bias, i, count, errno);
            p.ok ==> && p.machine.segments == m.segments
                     && |p.machine.patches| == |m.patches| + |Needing(m.memory, WantedWords(image, bias, i))|
    decreases |image.sections| - i, 0
  {
    hide SegmentsMapped, Needing, WantedWords, SomeWanted, SectionsGo, PatchFrom, Patchables, Mapped, InExecutableLoad,
         InExecutableSegment;
    var s := image.sections[i];
    SectionGoesMeans(m.segments, image, bias, s);
    hide SectionGoes;
    var start: Word := bias + s.addr;
    WantedNext(image, bias, i);
    ScannableIsLegal(m, start, s.size);
    ScanSucceedsIff(m.memory, m.patches, start, start + s.size);
    var r := ScanRange(m.memory, m.patches, start, s.size);
    if r.ok {
      ScanLeavesNeeding(m.memory, m.patches, start, start + s.size, WantedWords(image, bias, i + 1));
      SectionsPatchIff(Perform(m, PatchCode(start, s.size)), image, bias, i + 1, count + 1, errno);
    } else {
      ScanNeedsItsOwn(m.memory, start, start + s.size, WantedWords(image, bias, i + 1));
    }
  }

  // ----- one attempt

  /** Everything an attempt at a bias needs, on the machine it starts from and on what its headers leave. */
  ghost predicate AttemptGoes(m: Machine, image: Image, bias: Word, page: int, host: nat -> Reply)
    requires LoadPage(page)
  {
    var n := MapHeaders(m, image, bias, page, host, 0).0;
    && HeadersGo(m, image, bias, page, host, 0) && (exists j: nat :: j < |image.headers| && Loads(image.headers[j]))
    && SomeWanted(image, 0) && SectionsGo(n.segments, image, bias, 0)
    && |n.patches| + |Needing(n.memory, WantedWords(image, bias, 0))| <= MAX_PATCHES
    && bias + image.entry <= UINTPTR_MAX
  }

  lemma {:induction false} SomeSegmentIff(image: Image, bias: Word, page: int, i: nat)
    requires LoadPage(page) && i <= |image.headers|
    requires forall j: nat :: j < i && Loads(image.headers[j]) ==>
               Mappable(image.headers[j], bias, image.fileSize, page)
    ensures SegmentsBefore(image, bias, page, i) != [] <==> exists j: nat :: j < i && Loads(image.headers[j])
    decreases i
  {
    hide Mappable, SegmentFor, LoadPage;
    if i > 0 {
      SomeSegmentIff(image, bias, page, i - 1);
    }
  }

  lemma StartsMapped(m: Machine, image: Image, bias: Word, page: int)
    requires LoadPage(page)
    ensures MappedSoFar(m, m, image, bias, page, 0)
  {
  }

  lemma GoingIsMappable(m: Machine, image: Image, bias: Word, page: int, host: nat -> Reply)
    requires LoadPage(page) && HeadersGo(m, image, bias, page, host, 0)
    ensures forall j: nat :: j < |image.headers| && Loads(image.headers[j]) ==>
              Mappable(image.headers[j], bias, image.fileSize, page)
  {
    hide Mappable, LoadPage, SegmentsBefore, SegmentFor;
    forall j: nat | j < |image.headers| && Loads(image.headers[j])
      ensures Mappable(image.headers[j], bias, image.fileSize, page)
    {
      assert HeaderGoes(m, image, bias, page, host(j), j);
      PagePositive(page);
      MapsMeans(image.headers[j], bias, image.fileSize, page);
    }
  }

  /** An attempt at a bias succeeds exactly when everything it needs is there. */
  lemma AttemptSucceedsIff(m: Machine, image: Image, bias: Word, page: int, host: nat -> Reply, errno: Errno)
    requires LoadPage(page) && SegmentsMapped(m) && |m.patches| <= MAX_PATCHES
    ensures Attempt(m, image, bias, page, host, errno).ok <==> AttemptGoes(m, image, bias, page, host)
    ensures var p, n := Attempt(m, image, bias, page, host, errno), MapHeaders(m, image, bias, page, host, 0).0;
            p.ok ==> && p.machine.segments == m.segments + SegmentsBefore(image, bias, page, |image.headers|)
                     && |p.machine.patches| == |m.patches| + |Needing(n.memory, WantedWords(image, bias, 0))|
  {
    hide LoadPage, MapHeaders, PatchSections, HeadersGo, SectionsGo, SomeWanted, Needing, WantedWords, MappedSoFar;
    hide Loads, SegmentsMapped;
    StartsMapped(m, image, bias, page);
    HeadersMapIff(m, m, image, bias, page, host, 0);
    var (n, e) := MapHeaders(m, image, bias, page, host, 0);
    if e.None? {
      SegmentsOf(m, n, image, bias, page, |image.headers|);
      GoingIsMappable(m, image, bias, page, host);
      SomeSegmentIff(image, bias, page, |image.headers|);
      MapHeadersKeepsMapped(m, image, bias, page, host, 0);
      SectionsPatchIff(n, image, bias, 0, 0, errno);
    }
  }

  // ----- a program at its fixed address in a fresh process

  /** What a statically linked program has to fulfil, in terms of its file and of the host's answers. */
  ghost predicate Runnable(image: Image, page: int, host: nat -> Reply)
    requires LoadPage(page)
  {
    var empty := Machine([], [], map[]);
    var segments := SegmentsBefore(image, 0, page, |image.headers|);
    var need := Needing(ImageCode(image, 0, page, 0), WantedWords(image, 0, 0));
    && image.refusal.None? && (forall j :: 0 <= j < |image.headers| ==> Accepted(image.headers[j], image.fileSize))
    && HeadersGo(empty, image, 0, page, host, 0)
    && SomeWanted(image, 0) && SectionsGo(segments, image, 0, 0) && 0 < |need| <= MAX_PATCHES
    && InExecutableSegment(segments, image.entry, 4)
  }

  lemma FreshContents(image: Image, page: int, host: nat -> Reply)
    requires LoadPage(page)
    ensures var (n, e) := MapHeaders(Machine([], [], map[]), image, 0, page, host, 0);
            e.None? ==> n.memory == ImageCode(image, 0, page, 0) && n.patches == []
  {
    hide LoadPage, MapHeaders, ImageCode;
    var m := Machine([], [], map[]);
    MapHeadersContents(m, image, 0, page, host, 0);
    MapHeadersOnlyMaps(m, image, 0, page, host, 0);
  }

  /** The attempt at address 0 in a fresh process, in terms of the file. */
  lemma FreshAttempt(image: Image, page: int, host: nat -> Reply, errno: Errno)
    requires LoadPage(page)
    ensures SegmentsMapped(Machine([], [], map[]))
    ensures var p := Attempt(Machine([], [], map[]), image, 0, page, host, errno);
            var segments := SegmentsBefore(image, 0, page, |image.headers|);
            var need := Needing(ImageCode(image, 0, page, 0), WantedWords(image, 0, 0));
            && (p.ok ==> p.machine.segments == segments && |p.machine.patches| == |need|)
            && (p.ok <==> && HeadersGo(Machine([], [], map[]), image, 0, page, host, 0) && segments != []
                          && SomeWanted(image, 0) && SectionsGo(segments, image, 0, 0) && |need| <= MAX_PATCHES)
  {
    hide LoadPage, MapHeaders, ImageCode, Attempt, HeadersGo, SectionsGo, SomeWanted, Needing, WantedWords, MappedSoFar,
         SegmentsBefore, Loads;
    var m := Machine([], [], map[]);
    AttemptSucceedsIff(m, image, 0, page, host, errno);
    StartsMapped(m, image, 0, page);
    HeadersMapIff(m, m, image, 0, page, host, 0);
    var (n, e) := MapHeaders(m, image, 0, page, host, 0);
    if e.None? {
      FreshContents(image, page, host);
      SegmentsOf(m, n, image, 0, page, |image.headers|);
      assert [] + SegmentsBefore(image, 0, page, |image.headers|) == SegmentsBefore(image, 0, page, |image.headers|);
      GoingIsMappable(m, image, 0, page, host);
      SomeSegmentIff(image, 0, page, |image.headers|);
    }
  }

  /**
    A statically linked program runs in a fresh process with a willing host exactly when its file is accepted, all its
    segments go, its executable sections pass their checks and hold between one and 4096 words to patch, and its entry
    lies in an executable segment; it is then entered at the address in its file.
   */
  lemma StaticProgramRunsIff(image: Image, page: int, host: nat -> nat -> Reply, other: nat -> nat -> Reply,
                             errno: Errno)
    requires LoadPage(page) && !image.dynamic
    ensures SegmentsMapped(Machine([], [], map[]))
    ensures var r := LoadImage(Machine([], [], map[]), image, Static, page, host, other, Finish(None, Willing()),
                               errno);
            (r.Running? <==> Runnable(image, page, host(0)))
            && (r.Running? ==> r.entry == r.start == image.entry
                               && r.machine.segments == SegmentsBefore(image, 0, page, |image.headers|))
  {
    hide LoadPage, Attempt, HeadersGo, SectionsGo, SomeWanted, Needing, WantedWords, ImageCode, SegmentsBefore,
         InExecutableSegment, Finalize, ValidHeaders, Undo;
    var m := Machine([], [], map[]);
    FreshAttempt(image, page, host(0), errno);
    AllAccepted(image);
    ObjectAtZero(image, page, host, errno);
    var a := LoadObject(m, image, false, page, host, errno);
    LoadObjectReaches(m, image, false, page, host, errno);
    WillingFinalizes(a.machine.segments, 0);
    NoSegmentNoEntry(image.entry);
  }

  lemma AllAccepted(image: Image)
    ensures ValidHeaders(image) <==> forall j :: 0 <= j < |image.headers| ==> Accepted(image.headers[j], image.fileSize)
  {
    hide ValidHeader, Accepted;
    forall j | 0 <= j < |image.headers|
      ensures ValidHeader(image.headers[j], image.fileSize) <==> Accepted(image.headers[j], image.fileSize)
    {
      AcceptedMeans(image.headers[j], image.fileSize);
    }
  }

  lemma NoSegmentNoEntry(entry: Word)
    ensures !InExecutableSegment([], entry, 4)
  {
  }

  lemma ObjectAtZero(image: Image, page: int, host: nat -> nat -> Reply, errno: Errno)
    requires LoadPage(page) && !image.dynamic && SegmentsMapped(Machine([], [], map[]))
    ensures var m := Machine([], [], map[]);
            var p, o := Attempt(m, image, 0, page, host(0), errno), LoadObject(m, image, false, page, host, errno);
            && (o.result.Loaded? <==> image.refusal.None? && ValidHeaders(image) && p.ok)
            && (o.result.Loaded? ==> o.machine == p.machine && o.result.bias == 0)
  {
    hide Attempt, LoadPage, ValidHeaders, Undo;
  }

  // ----- a load that fails says why

  /** Whatever the host refuses, it names an error. */
  ghost predicate NamesErrors(host: nat -> Reply) {
    forall i :: host(i).mapErrno != Clear && host(i).readErrno != Clear
  }

  lemma {:induction false} HeadersNameError(m: Machine, image: Image, bias: Word, page: int, host: nat -> Reply, i: nat)
    requires LoadPage(page) && i <= |image.headers| && NamesErrors(host)
    ensures MapHeaders(m, image, bias, page, host, i).1 != Some(Clear)
    decreases |image.headers| - i
  {
    hide Mappable, SegmentFor, Perform, Region, ValidLoadRange, LoadPage, FilledContents;
    if i < |image.headers| {
      if !Loads(image.headers[i]) {
        HeadersNameError(m, image, bias, page, host, i + 1);
      } else {
        HeadersNameError(MapHeader(m, image.headers[i], bias, image, page, host(i)).0, image, bias, page, host, i + 1);
      }
    }
  }

  /** An attempt that fails leaves an errno, whatever stale or clear one it began with. */
  lemma AttemptNamesError(m: Machine, image: Image, bias: Word, page: int, host: nat -> Reply, errno: Errno)
    requires LoadPage(page) && SegmentsMapped(m) && NamesErrors(host)
    ensures var p := Attempt(m, image, bias, page, host, errno); !p.ok ==> p.errno != Clear
  {
    hide LoadPage, SegmentsMapped, MapHeaders, PatchSections, NamesErrors;
    HeadersNameError(m, image, bias, page, host, 0);
  }

  // ----- the smallest program

  /** One page of code at 0x10000 that holds a single system call. */
  function TinyHeader(): Header {
    Header(true, false, 0, 0x10000, 4, 4, 0x1000, true, false, true, false)
  }

  function TinyFile(): nat -> bv8 {
    (i: nat) => if i == 3 then 0xef else 0
  }

  function TinySection(): Section {
    Section(true, true, false, 0x10000, 0, 4, 0)
  }

  function TinyImage(): Image {
    Image(None, 4, TinyFile(), false, [TinyHeader()], [TinySection()], 0x10000)
  }

  function TinyHost(): nat -> Reply {
    (i: nat) => Reply(At(0x10000), Clear, true, Clear)
  }

  lemma TinyPage()
    ensures LoadPage(0x1000) && PowerOfTwo(0x1000)
  {
    assert PowerOfTwo(16);
    hide PowerOfTwo;
    SixteenTimesPower(16);
    SixteenTimesPower(0x100);
  }

  lemma TinySegment()
    requires LoadPage(0x1000)
    ensures Maps(TinyHeader(), 0, 4, 0x1000) && Mappable(TinyHeader(), 0, 4, 0x1000)
    ensures SegmentFor(TinyHeader(), 0, 0x1000) == Segment(0x10000, 0x11000, true, false, true)
    ensures SegmentsBefore(TinyImage(), 0, 0x1000, 0) == []
    ensures SegmentsBefore(TinyImage(), 0, 0x1000, 1) == [Segment(0x10000, 0x11000, true, false, true)]
  {
    hide PowerOfTwo, LoadPage;
    assert Wrap(0x10004 + 0x1000 - 1) == 0x11003;
  }

  lemma TinyWord()
    ensures SegmentWord(TinyHeader(), 0, TinyFile(), 0x10000) == ARM_LINUX_SVC_0
  {
  }

  lemma TinyCode()
    requires LoadPage(0x1000)
    ensures var code := ImageCode(TinyImage(), 0, 0x1000, 0); 0x10000 in code && code[0x10000] == ARM_LINUX_SVC_0
  {
    hide LoadPage, Region, SegmentWord, PowerOfTwo;
    TinySegment();
    TinyWord();
    RegionMembers(0x10000, 0x11000, 0x10000);
    var code := ImageCode(TinyImage(), 0, 0x1000, 0);
    assert ImageCode(TinyImage(), 0, 0x1000, 1) == map[];
    assert code == SegmentCode(TinyHeader(), 0, TinyImage(), 0x1000) + map[];
  }

  lemma TinyNeed()
    requires LoadPage(0x1000)
    ensures Needing(ImageCode(TinyImage(), 0, 0x1000, 0), WantedWords(TinyImage(), 0, 0)) == {0x10000}
  {
    hide LoadPage, ImageCode;
    TinyCode();
    assert Wanted(TinyImage().sections[0]) && InScan(0x10000, 0x10000, 0x10004);
    assert InWanted(TinyImage(), 0, 0, 0x10000);
    forall a: Word | InWanted(TinyImage(), 0, 0, a) ensures a == 0x10000 {
      assert InScan(a, 0x10000, 0x10004);
    }
  }

  lemma TinyHeadersGo()
    requires LoadPage(0x1000)
    ensures HeadersGo(Machine([], [], map[]), TinyImage(), 0, 0x1000, TinyHost(), 0)
  {
    hide LoadPage, SegmentFor, SegmentsBefore;
    TinySegment();
    assert HeaderGoes(Machine([], [], map[]), TinyImage(), 0, 0x1000, TinyHost()(0), 0);
  }

  /** A section that is the whole of one loaded header goes into that header's segment. */
  lemma SectionOfHeader(s: Section, h: Header, g: Segment, image: Image)
    requires image.headers == [h] && LoadedBy(s, h) && s.progbits && !s.writable && s.addralign == 0
    requires s.offset + s.size <= image.fileSize && s.addr % 4 == 0 && s.size % 4 == 0
    requires g.executable && g.start <= s.addr && s.addr + s.size <= g.end <= 0x7000_0000
    ensures SectionGoes([g], image, 0, s) && InExecutableSegment([g], s.addr, s.size)
  {
    hide LoadedBy, PowerOfTwo;
    assert LoadedBy(s, image.headers[0]);
    var segments := [g];
    assert segments[0] == g;
  }

  lemma TinySectionsGo()
    requires LoadPage(0x1000)
    ensures var segments := SegmentsBefore(TinyImage(), 0, 0x1000, 1);
            SomeWanted(TinyImage(), 0) && SectionsGo(segments, TinyImage(), 0, 0)
            && InExecutableSegment(segments, 0x10000, 4)
  {
    hide LoadPage, PowerOfTwo, SegmentsBefore, SectionGoes, InExecutableSegment, SegmentFor, Mappable, Maps, LoadedBy;
    hide TinyImage, TinyHeader, TinyFile;
    TinyParts();
    TinySegment();
    TinyFits();
    var g := Segment(0x10000, 0x11000, true, false, true);
    SectionOfHeader(TinySection(), TinyHeader(), g, TinyImage());
    OnlySection([g], TinyImage(), TinySection());
  }

  lemma OnlySection(segments: seq<Segment>, image: Image, s: Section)
    requires image.sections == [s] && Wanted(s) && SectionGoes(segments, image, 0, s)
    ensures SomeWanted(image, 0) && SectionsGo(segments, image, 0, 0)
  {
    hide SectionGoes, Wanted;
    assert image.sections[0] == s;
  }

  lemma TinyParts()
    ensures TinyImage().headers == [TinyHeader()] && TinyImage().sections == [TinySection()]
    ensures TinyImage().fileSize == 4
  {
  }

  lemma TinyFits()
    ensures LoadedBy(TinySection(), TinyHeader())
  {
  }

  lemma TinyAccepted()
    requires PowerOfTwo(0x1000)
    ensures Accepted(TinyHeader(), 4)
  {
    hide PowerOfTwo;
  }

  /** The conditions can be met: a file with one system call runs. */
  lemma TinyProgramRuns(other: nat -> nat -> Reply, errno: Errno)
    ensures LoadPage(0x1000) && SegmentsMapped(Machine([], [], map[]))
    ensures LoadImage(Machine([], [], map[]), TinyImage(), Static, 0x1000, (k: nat) => TinyHost(), other,
                      Finish(None, Willing()), errno).Running?
  {
    hide PowerOfTwo, ImageCode, Needing, WantedWords, SegmentsBefore, LoadImage, HeadersGo, SectionsGo, SomeWanted;
    hide InExecutableSegment, Accepted, LoadPage, TinyHeader, TinyHost;
    TinyPage();
    TinyHeadersGo();
    TinySectionsGo();
    TinyNeed();
    TinyAccepted();
    StaticProgramRunsIff(TinyImage(), 0x1000, (k: nat) => TinyHost(), other, errno);
  }
}
