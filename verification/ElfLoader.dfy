/** The ELF loader of src/elf_loader.c over the load segments of src/guest_memory.c, as functions. */
module ElfLoader {
  import opened Words
  import opened ArmPatch
  import opened LoadTransaction

  /** `errno` as far as the loader distinguishes values. */
  datatype Errno = Clear | NotExecutable | TooBig | Exists | HostErrno(code: int)

  /** A program header with its type and flag bits named. */
  datatype Header = Header(load: bool, interpreter: bool, offset: Word, vaddr: Word, filesz: Word, memsz: Word,
                           align: Word, readable: bool, writable: bool, executable: bool, otherFlags: bool)

  /** A section header with its type and flag bits named. */
  datatype Section = Section(progbits: bool, executable: bool, writable: bool, addr: Word, offset: Word, size: Word,
                             addralign: Word)

  /**
    An opened file with its bytes; `refusal` is the errno of a file whose identification, tables or
    interpreter text are rejected.
   */
  datatype Image = Image(refusal: Option<Errno>, fileSize: nat, file: nat -> bv8, dynamic: bool, headers: seq<Header>,
                         sections: seq<Section>, entry: Word)

  /** What the host answered while one segment was mapped and filled. */
  datatype Reply = Reply(placement: Placement, mapErrno: Errno, readOk: bool, readErrno: Errno)

  // ----- what a loaded segment holds

  /** The byte the ELF file puts at an address of a segment: file contents, and zero around and behind them. */
  function SegmentByte(h: Header, bias: Word, file: nat -> bv8, x: int): bv8 {
    var d := x - (bias + h.vaddr);
    if 0 <= d < h.filesz then file(h.offset + d) else 0
  }

  /** The little-endian word at an address. */
  function WordOf(bytes: int -> bv8, a: Word): bv32 {
    (bytes(a) as bv32)
    | (bytes(a + 1) as bv32 << 8)
    | (bytes(a + 2) as bv32 << 16)
    | (bytes(a + 3) as bv32 << 24)
  }

  /** Byte k of a word is the byte at its address plus k. */
  lemma BytesOfWord(bytes: int -> bv8, a: Word)
    ensures var w := WordOf(bytes, a);
            && w & 0xff == bytes(a) as bv32 && (w >> 8) & 0xff == bytes(a + 1) as bv32
            && (w >> 16) & 0xff == bytes(a + 2) as bv32 && (w >> 24) & 0xff == bytes(a + 3) as bv32
  {
  }

  /** The word the ELF file puts at an address of a segment. */
  function SegmentWord(h: Header, bias: Word, file: nat -> bv8, a: Word): bv32 {
    WordOf(x => SegmentByte(h, bias, file, x), a)
  }

  function SegmentContents(h: Header, bias: Word, file: nat -> bv8): Word -> bv32 {
    (a: Word) => SegmentWord(h, bias, file, a)
  }

  // ----- how the loader fills a segment

  /** `read_exact_at` into memory at `start`. */
  function ReadInto(bytes: int -> bv8, start: int, length: Word, file: nat -> bv8, offset: Word): int -> bv8 {
    x => if start <= x < start + length then file(offset + (x - start)) else bytes(x)
  }

  /** `memset` to zero. */
  function ClearBytes(bytes: int -> bv8, start: int, length: int): int -> bv8 {
    x => if start <= x < start + length then 0 else bytes(x)
  }

  /** A fresh mapping from `mapStart` on after the file is read and the bytes behind and before it are cleared. */
  function FilledBytes(h: Header, bias: Word, file: nat -> bv8, mapStart: int): int -> bv8 {
    var start := bias + h.vaddr;
    var zeros := (x: int) => 0 as bv8;
    var read := if h.filesz != 0 then ReadInto(zeros, start, h.filesz, file, h.offset) else zeros;
    var cleared := if h.memsz > h.filesz then ClearBytes(read, start + h.filesz, h.memsz - h.filesz) else read;
    if start != mapStart then ClearBytes(cleared, mapStart, start - mapStart) else cleared
  }

  function FilledContents(h: Header, bias: Word, file: nat -> bv8, mapStart: int): Word -> bv32 {
    (a: Word) => WordOf(FilledBytes(h, bias, file, mapStart), a)
  }

  /** The reads and clears leave exactly the bytes the ELF file puts into the segment. */
  lemma FillIsSegment(h: Header, bias: Word, file: nat -> bv8, mapStart: int, a: Word)
    requires h.memsz >= h.filesz && mapStart <= bias + h.vaddr
    ensures forall x :: FilledBytes(h, bias, file, mapStart)(x) == SegmentByte(h, bias, file, x)
    ensures FilledContents(h, bias, file, mapStart)(a) == SegmentContents(h, bias, file)(a)
  {
  }

  /** A page size that holds whole instructions. */
  predicate LoadPage(page: int) {
    PageSize(page) && page >= 4
  }

  predicate RangeInFile(offset: Word, length: Word, fileSize: nat) {
    offset <= fileSize && length <= fileSize - offset
  }

  predicate ValidAlignment(alignment: Word) {
    alignment == 0 || PowerOfTwo(alignment)
  }

  predicate Loads(h: Header) {
    h.load && h.memsz != 0
  }

  /** `validate_program_header`. */
  predicate ValidHeader(h: Header, fileSize: nat) {
    if Loads(h) then
      && h.memsz >= h.filesz
      && (h.filesz != 0 ==> RangeInFile(h.offset, h.filesz, fileSize))
      && ValidAlignment(h.align)
      && (h.align > 1 ==> Wrap(h.vaddr as int - h.offset as int) % h.align == 0)
      && !h.otherFlags
      && !(h.writable && h.executable)
    else h.interpreter ==> RangeInFile(h.offset, h.filesz, fileSize)
  }

  predicate ValidHeaders(image: Image) {
    forall i :: 0 <= i < |image.headers| ==> ValidHeader(image.headers[i], image.fileSize)
  }

  predicate Overlaps(a: int, b: int, c: int, d: int) {
    a < d && c < b
  }

  /** `validate_load_range`. */
  predicate ValidLoadRange(segments: seq<Segment>, start: int, end: int) {
    && GUEST_MIN_ADDRESS <= start < end <= GUEST_MAX_ADDRESS
    && forall i :: 0 <= i < |segments| ==> !Overlaps(start, end, segments[i].start, segments[i].end)
  }

  /** The checks of `guest_memory_map_load_segment` that involve no table: size, file range and overflow. */
  predicate Mappable(h: Header, bias: Word, fileSize: nat, page: int) {
    && h.memsz >= h.filesz
    && (h.filesz != 0 ==> RangeInFile(h.offset, h.filesz, fileSize))
    && bias <= UINTPTR_MAX - h.vaddr
    && h.memsz <= UINTPTR_MAX - (bias + h.vaddr)
    && bias + h.vaddr + h.memsz <= UINTPTR_MAX - (page - 1)
  }

  function SegmentFor(h: Header, bias: Word, page: int): Segment
    requires page > 0 && bias + h.vaddr + h.memsz <= UINTPTR_MAX
  {
    Segment(AlignDown(bias + h.vaddr, page), AlignUp(bias + h.vaddr + h.memsz, page),
            h.readable, h.writable, h.executable)
  }

  lemma SegmentGeometry(h: Header, bias: Word, fileSize: nat, page: int)
    requires LoadPage(page) && Mappable(h, bias, fileSize, page)
    ensures var s := SegmentFor(h, bias, page);
            && 0 <= s.start <= bias + h.vaddr
            && bias + h.vaddr + h.memsz <= s.end <= UINTPTR_MAX
            && s.start % page == 0 && s.end % page == 0 && s.start % 4 == 0
  {
    hide AlignUp, AlignDown, PowerOfTwo;
    WordAligned(bias + h.vaddr, page);
    AlignUpBounds(bias + h.vaddr + h.memsz, page);
    AlignUpIsMultiple(bias + h.vaddr + h.memsz, page);
  }

  lemma WordAligned(v: Word, page: int)
    requires LoadPage(page)
    ensures 0 <= AlignDown(v, page) <= v && AlignDown(v, page) % page == 0 && AlignDown(v, page) % 4 == 0
  {
    hide PowerOfTwo, AlignDown;
    DownIsMultiple(v, page);
    FourDivides(page);
    MultipleOfMultiple(AlignDown(v, page), page, 4);
  }

  lemma DownIsMultiple(v: Word, page: int)
    requires page > 0
    ensures 0 <= AlignDown(v, page) <= v && AlignDown(v, page) % page == 0
  {
    MultipleBelow(v, page);
  }

  lemma FourDivides(page: int)
    requires LoadPage(page)
    ensures page % 4 == 0
  {
    assert PowerOfTwo(4);
    PowerOfTwoDivides(4, page);
  }

  lemma MultipleOfMultiple(v: int, page: int, k: int)
    requires page > 0 && k > 0 && v % page == 0 && page % k == 0
    ensures v % k == 0
  {
    var q, p := v / page, page / k;
    assert v == q * page && page == p * k;
    assert v == (q * p) * k;
    MulModZero(q * p, k);
  }

  /** `guest_memory_map_load_segment`: the new machine, and the errno of a refusal. */
  function MapHeader(m: Machine, h: Header, bias: Word, image: Image, page: int, reply: Reply)
    : (r: (Machine, Option<Errno>))
    requires LoadPage(page)
  {
    if !Mappable(h, bias, image.fileSize, page) then (m, Some(NotExecutable))
    else
      var s := SegmentFor(h, bias, page);
      if !ValidLoadRange(m.segments, s.start, s.end) then (m, Some(NotExecutable))
      else if |m.segments| >= MAX_LOAD_SEGMENTS then (m, Some(TooBig))
      else if reply.placement.Failed? then (m, Some(reply.mapErrno))
      else
        SegmentGeometry(h, bias, image.fileSize, page);
        if reply.placement.address != s.start || !(Region(s.start, s.end) !! m.memory.Keys) then (m, Some(Exists))
        else if h.filesz != 0 && !reply.readOk then (m, Some(reply.readErrno))
        else (Perform(m, MapSegment(s, FilledContents(h, bias, image.file, s.start))), None)
  }

  /** The loop over program headers: map every loadable segment, stop at the first refusal. */
  function MapHeaders(m: Machine, image: Image, bias: Word, page: int, host: nat -> Reply, i: nat)
    : (Machine, Option<Errno>)
    requires LoadPage(page) && i <= |image.headers|
    decreases |image.headers| - i
  {
    if i == |image.headers| then (m, None)
    else if !Loads(image.headers[i]) then MapHeaders(m, image, bias, page, host, i + 1)
    else
      var (n, e) := MapHeader(m, image.headers[i], bias, image, page, host(i));
      if e.Some? then (n, e) else MapHeaders(n, image, bias, page, host, i + 1)
  }

  // ----- the code an image maps

  function SegmentCode(h: Header, bias: Word, image: Image, page: int): Code
    requires LoadPage(page) && Mappable(h, bias, image.fileSize, page)
  {
    SegmentGeometry(h, bias, image.fileSize, page);
    SegmentMap(SegmentFor(h, bias, page), SegmentContents(h, bias, image.file))
  }

  /** The code of an image at a bias: the words of its loadable segments from header i on. */
  function ImageCode(image: Image, bias: Word, page: int, i: nat): Code
    requires LoadPage(page) && i <= |image.headers|
    decreases |image.headers| - i
  {
    if i == |image.headers| then map[]
    else
      var h := image.headers[i];
      if Loads(h) && Mappable(h, bias, image.fileSize, page)
      then SegmentCode(h, bias, image, page) + ImageCode(image, bias, page, i + 1)
      else ImageCode(image, bias, page, i + 1)
  }

  lemma FilledMap(h: Header, bias: Word, file: nat -> bv8, s: Segment)
    requires h.memsz >= h.filesz && 0 <= s.start <= bias + h.vaddr && s.end <= MODULUS
    ensures SegmentMap(s, FilledContents(h, bias, file, s.start)) == SegmentMap(s, SegmentContents(h, bias, file))
  {
    hide FilledContents, SegmentContents, Region;
    forall a | a in Region(s.start, s.end)
      ensures FilledContents(h, bias, file, s.start)(a) == SegmentContents(h, bias, file)(a)
    {
      FillIsSegment(h, bias, file, s.start, a);
    }
  }

  lemma MapHeaderContents(m: Machine, h: Header, bias: Word, image: Image, page: int, reply: Reply)
    requires LoadPage(page) && RecordsMapped(m, 0)
    ensures var (n, e) := MapHeader(m, h, bias, image, page, reply);
            && RecordsMapped(n, 0)
            && (e.None? ==> Mappable(h, bias, image.fileSize, page)
                            && Unpatched(n) == Unpatched(m) + SegmentCode(h, bias, image, page))
  {
    hide Perform, PowerOfTwo, AlignUp, AlignDown, Unpatched, RecordsMapped, Region, ValidLoadRange, SegmentMap;
    hide SegmentContents, FilledContents;
    var (n, e) := MapHeader(m, h, bias, image, page, reply);
    if e.None? {
      SegmentGeometry(h, bias, image.fileSize, page);
      var s := SegmentFor(h, bias, page);
      MappingAddsContents(m, s, FilledContents(h, bias, image.file, s.start));
      FilledMap(h, bias, image.file, s);
    }
  }

  lemma Append(a: Code, b: Code, c: Code)
    ensures (a + b) + c == a + (b + c)
  {
  }

  /** A header loop that refused nothing has mapped exactly the image's code. */
  lemma {:induction false} MapHeadersContents(m: Machine, image: Image, bias: Word, page: int, host: nat -> Reply,
                                              i: nat)
    requires LoadPage(page) && RecordsMapped(m, 0) && i <= |image.headers|
    ensures var (n, e) := MapHeaders(m, image, bias, page, host, i);
            && RecordsMapped(n, 0)
            && (e.None? ==> Unpatched(n) == Unpatched(m) + ImageCode(image, bias, page, i))
    decreases |image.headers| - i
  {
    hide MapHeader, Unpatched, RecordsMapped, Mappable, SegmentCode, LoadPage;
    if i == |image.headers| {
      assert Unpatched(m) + map[] == Unpatched(m);
    } else if !Loads(image.headers[i]) {
      MapHeadersContents(m, image, bias, page, host, i + 1);
    } else {
      MapHeaderContents(m, image.headers[i], bias, image, page, host(i));
      var (n, e) := MapHeader(m, image.headers[i], bias, image, page, host(i));
      if e.None? {
        MapHeadersContents(n, image, bias, page, host, i + 1);
        Append(Unpatched(m), SegmentCode(image.headers[i], bias, image, page), ImageCode(image, bias, page, i + 1));
      }
    }
  }

  // ----- patching sections

  predicate HoldsSection(h: Header, s: Section) {
    && h.load && h.executable && s.addr >= h.vaddr && s.offset >= h.offset
    && s.addr - h.vaddr == s.offset - h.offset
    && s.offset - h.offset <= h.filesz
    && s.size <= h.filesz - (s.offset - h.offset)
  }

  /** `section_in_executable_load`. */
  predicate InExecutableLoad(s: Section, headers: seq<Header>) {
    exists i :: 0 <= i < |headers| && HoldsSection(headers[i], s)
  }

  /** `guest_memory_is_executable` while no runtime mapping is registered, which is when images are loaded. */
  predicate InExecutableSegment(segments: seq<Segment>, address: Word, length: Word) {
    && length <= UINTPTR_MAX - address
    && exists i :: 0 <= i < |segments| && segments[i].executable
                   && segments[i].start <= address && address + length <= segments[i].end
  }

  predicate PatchableSection(s: Section, image: Image, bias: Word) {
    && s.progbits
    && RangeInFile(s.offset, s.size, image.fileSize)
    && ValidAlignment(s.addralign)
    && !s.writable
    && InExecutableLoad(s, image.headers)
    && bias <= UINTPTR_MAX - s.addr
  }

  /** Every word of every loaded segment is mapped. */
  ghost predicate SegmentsMapped(m: Machine) {
    && InSpace(m.segments)
    && forall i :: 0 <= i < |m.segments| ==> Mapped(m.memory, m.segments[i].start, m.segments[i].end)
  }

  /** The last checks before a section is scanned. */
  predicate Scannable(segments: seq<Segment>, start: Word, length: Word) {
    start % 4 == 0 && length % 4 == 0 && InExecutableSegment(segments, start, length)
  }

  /** A section that passes the checks is mapped, so the scan is defined, and it leaves every segment mapped. */
  lemma ScannableIsLegal(m: Machine, start: Word, length: Word)
    requires SegmentsMapped(m) && Scannable(m.segments, start, length)
    ensures Legal(m, PatchCode(start, length))
    ensures SegmentsMapped(Perform(m, PatchCode(start, length)))
  {
    hide PatchFrom;
  }

  function OrNotExecutable(errno: Errno): Errno {
    if errno == Clear then NotExecutable else errno
  }

  datatype Patching = Patching(machine: Machine, ok: bool, errno: Errno)

  /** The section loop of `patch_executable_sections`; a stale `errno` is reported where none is set. */
  function PatchSections(m: Machine, image: Image, bias: Word, i: nat, count: nat, errno: Errno): Patching
    requires i <= |image.sections| && SegmentsMapped(m)
    decreases |image.sections| - i
  {
    if i == |image.sections| then
      if count == 0 then Patching(m, false, NotExecutable) else Patching(m, true, errno)
    else
      var s := image.sections[i];
      if !s.executable || s.size == 0 then PatchSections(m, image, bias, i + 1, count, errno)
      else if !PatchableSection(s, image, bias) then Patching(m, false, NotExecutable)
      else
        var start: Word := bias + s.addr;
        if !Scannable(m.segments, start, s.size) then Patching(m, false, OrNotExecutable(errno))
        else
          ScannableIsLegal(m, start, s.size);
          var n := Perform(m, PatchCode(start, s.size));
          if !ScanRange(m.memory, m.patches, start, s.size).ok then Patching(n, false, TooBig)
          else
            PatchSections(n, image, bias, i + 1, count + 1, errno)
  }


  /** Patching sections leaves the code behind the patches alone. */
  lemma {:induction false} PatchSectionsContents(m: Machine, image: Image, bias: Word, i: nat, count: nat, errno: Errno)
    requires i <= |image.sections| && SegmentsMapped(m) && RecordsMapped(m, 0)
    ensures var n := PatchSections(m, image, bias, i, count, errno).machine;
            Unpatched(n) == Unpatched(m) && RecordsMapped(n, 0)
    decreases |image.sections| - i
  {
    hide Perform, SegmentsMapped, Scannable, InExecutableLoad, Mapped, Unpatched, RecordsMapped;
    if i < |image.sections| {
      var s := image.sections[i];
      if !s.executable || s.size == 0 {
        PatchSectionsContents(m, image, bias, i + 1, count, errno);
      } else if PatchableSection(s, image, bias) && Scannable(m.segments, bias + s.addr, s.size) {
        ScannableIsLegal(m, bias + s.addr, s.size);
        PatchingKeepsContents(m, bias + s.addr, s.size);
        if ScanRange(m.memory, m.patches, bias + s.addr, s.size).ok {
          PatchSectionsContents(Perform(m, PatchCode(bias + s.addr, s.size)), image, bias, i + 1, count + 1, errno);
        }
      }
    }
  }

  // ----- one attempt, the bias loop, the whole image

  function Attempt(m: Machine, image: Image, bias: Word, page: int, host: nat -> Reply, errno: Errno): Patching
    requires LoadPage(page) && SegmentsMapped(m)
  {
    var (n, refused) := MapHeaders(m, image, bias, page, host, 0);
    if refused.Some? then Patching(n, false, OrNotExecutable(refused.value))
    else if |n.segments| == |m.segments| then Patching(n, false, OrNotExecutable(errno))
    else
      MapHeadersKeepsMapped(m, image, bias, page, host, 0);
      var p := PatchSections(n, image, bias, 0, 0, errno);
      if !p.ok || bias > UINTPTR_MAX - image.entry then Patching(p.machine, false, OrNotExecutable(p.errno))
      else p
  }

  lemma MappingKeepsMapped(m: Machine, s: Segment, contents: Word -> bv32)
    requires SegmentsMapped(m) && Legal(m, MapSegment(s, contents))
    ensures SegmentsMapped(Perform(m, MapSegment(s, contents)))
  {
    hide Region;
    var n := Perform(m, MapSegment(s, contents));
    forall a: Word | s.start <= a < s.end && a % 4 == 0
      ensures a in n.memory
    {
      RegionMembers(s.start, s.end, a);
    }
  }

  lemma MapHeaderKeepsMapped(m: Machine, h: Header, bias: Word, image: Image, page: int, reply: Reply)
    requires LoadPage(page) && SegmentsMapped(m)
    ensures SegmentsMapped(MapHeader(m, h, bias, image, page, reply).0)
  {
    hide SegmentsMapped, Perform, FilledContents, ValidLoadRange, AlignDown, AlignUp, PowerOfTwo, Region;
    var (n, e) := MapHeader(m, h, bias, image, page, reply);
    if e.None? {
      SegmentGeometry(h, bias, image.fileSize, page);
      var s := SegmentFor(h, bias, page);
      MappingKeepsMapped(m, s, FilledContents(h, bias, image.file, s.start));
    }
  }

  lemma {:induction false} MapHeadersKeepsMapped(m: Machine, image: Image, bias: Word, page: int, host: nat -> Reply,
                                                 i: nat)
    requires LoadPage(page) && SegmentsMapped(m) && i <= |image.headers|
    ensures SegmentsMapped(MapHeaders(m, image, bias, page, host, i).0)
    decreases |image.headers| - i
  {
    hide MapHeader, SegmentsMapped;
    if i < |image.headers| {
      if !Loads(image.headers[i]) {
        MapHeadersKeepsMapped(m, image, bias, page, host, i + 1);
      } else {
        MapHeaderKeepsMapped(m, image.headers[i], bias, image, page, host(i));
        MapHeadersKeepsMapped(MapHeader(m, image.headers[i], bias, image, page, host(i)).0,
                              image, bias, page, host, i + 1);
      }
    }
  }

  // ----- every stage is a run of load steps

  lemma MapHeaderReaches(m: Machine, h: Header, bias: Word, image: Image, page: int, reply: Reply)
    requires LoadPage(page)
    ensures Reaches(m, MapHeader(m, h, bias, image, page, reply).0)
  {
    hide Reaches, Perform, PowerOfTwo, AlignUp, AlignDown, FilledContents;
    ReachesSelf(m);
    var (n, e) := MapHeader(m, h, bias, image, page, reply);
    if e.None? {
      SegmentGeometry(h, bias, image.fileSize, page);
      var s := SegmentFor(h, bias, page);
      ReachesByStep(m, MapSegment(s, FilledContents(h, bias, image.file, s.start)));
    }
  }

  lemma {:induction false} MapHeadersReaches(m: Machine, image: Image, bias: Word, page: int, host: nat -> Reply,
                                             i: nat)
    requires LoadPage(page) && i <= |image.headers|
    ensures Reaches(m, MapHeaders(m, image, bias, page, host, i).0)
    decreases |image.headers| - i
  {
    hide Reaches, MapHeader;
    ReachesSelf(m);
    if i < |image.headers| {
      if !Loads(image.headers[i]) {
        MapHeadersReaches(m, image, bias, page, host, i + 1);
      } else {
        MapHeaderReaches(m, image.headers[i], bias, image, page, host(i));
        var (n, e) := MapHeader(m, image.headers[i], bias, image, page, host(i));
        if e.None? {
          MapHeadersReaches(n, image, bias, page, host, i + 1);
          ReachesTransitively(m, n, MapHeaders(n, image, bias, page, host, i + 1).0);
        }
      }
    }
  }

  lemma {:induction false} PatchSectionsReaches(m: Machine, image: Image, bias: Word, i: nat, count: nat, errno: Errno)
    requires i <= |image.sections| && SegmentsMapped(m)
    ensures Reaches(m, PatchSections(m, image, bias, i, count, errno).machine)
    decreases |image.sections| - i
  {
    hide Reaches, Perform, SegmentsMapped, Scannable, InExecutableLoad, Mapped;
    ReachesSelf(m);
    if i < |image.sections| {
      var s := image.sections[i];
      if !s.executable || s.size == 0 {
        PatchSectionsReaches(m, image, bias, i + 1, count, errno);
      } else if PatchableSection(s, image, bias) && Scannable(m.segments, bias + s.addr, s.size) {
        ScannableIsLegal(m, bias + s.addr, s.size);
        ReachesByStep(m, PatchCode(bias + s.addr, s.size));
        var n := Perform(m, PatchCode(bias + s.addr, s.size));
        if ScanRange(m.memory, m.patches, bias + s.addr, s.size).ok {
          PatchSectionsReaches(n, image, bias, i + 1, count + 1, errno);
          ReachesTransitively(m, n, PatchSections(n, image, bias, i + 1, count + 1, errno).machine);
        }
      }
    }
  }

  lemma AttemptReaches(m: Machine, image: Image, bias: Word, page: int, host: nat -> Reply, errno: Errno)
    requires LoadPage(page) && SegmentsMapped(m)
    ensures Reaches(m, Attempt(m, image, bias, page, host, errno).machine)
  {
    hide Reaches, MapHeaders, PatchSections, SegmentsMapped;
    var (n, refused) := MapHeaders(m, image, bias, page, host, 0);
    MapHeadersReaches(m, image, bias, page, host, 0);
    if refused.None? && |n.segments| != |m.segments| {
      MapHeadersKeepsMapped(m, image, bias, page, host, 0);
      PatchSectionsReaches(n, image, bias, 0, 0, errno);
      ReachesTransitively(m, n, PatchSections(n, image, bias, 0, 0, errno).machine);
    }
  }

  /** Whatever an attempt did, and however it ended, the two rollbacks put the machine back. */
  lemma AttemptIsUndone(m: Machine, image: Image, bias: Word, page: int, host: nat -> Reply, errno: Errno)
    requires LoadPage(page) && SegmentsMapped(m)
    ensures var n := Attempt(m, image, bias, page, host, errno).machine;
            && m.segments <= n.segments && m.patches <= n.patches && InSpace(n.segments)
            && Undo(n, |m.patches|, |m.segments|) == m
  {
    hide Reaches, Undo, Attempt;
    AttemptReaches(m, image, bias, page, host, errno);
    ReachedIsUndone(m, Attempt(m, image, bias, page, host, errno).machine);
  }

  /** A successful attempt has added exactly the image's code at its bias. */
  lemma AttemptContents(m: Machine, image: Image, bias: Word, page: int, host: nat -> Reply, errno: Errno)
    requires LoadPage(page) && SegmentsMapped(m) && RecordsMapped(m, 0)
    ensures var p := Attempt(m, image, bias, page, host, errno);
            && RecordsMapped(p.machine, 0)
            && (p.ok ==> Unpatched(p.machine) == Unpatched(m) + ImageCode(image, bias, page, 0))
  {
    hide MapHeaders, PatchSections, SegmentsMapped, Unpatched, RecordsMapped, ImageCode, LoadPage;
    MapHeadersContents(m, image, bias, page, host, 0);
    MapHeadersKeepsMapped(m, image, bias, page, host, 0);
    PatchSectionsContents(MapHeaders(m, image, bias, page, host, 0).0, image, bias, 0, 0, errno);
  }

  // ----- the bias loop

  const MAIN_BIASES: seq<Word> := [0x2000_0000, 0x3000_0000, 0x4000_0000, 0x5000_0000]
  const INTERPRETER_BIASES: seq<Word> := [0x6000_0000, 0x5000_0000, 0x4000_0000, 0x3000_0000]

  datatype Result = Loaded(bias: Word, errno: Errno) | Refused(errno: Errno)
  datatype Outcome = Outcome(machine: Machine, result: Result)

  /** The attempt loop of `load_elf_object` from one attempt on. */
  function TryBiases(m: Machine, image: Image, biases: seq<Word>, page: int, host: nat -> nat -> Reply, k: nat,
                     errno: Errno): Outcome
    requires LoadPage(page) && SegmentsMapped(m) && k <= |biases|
    decreases |biases| - k
  {
    if k == |biases| then Outcome(m, Refused(Exists))
    else
      var p := Attempt(m, image, biases[k], page, host(k), errno);
      if p.ok then Outcome(p.machine, Loaded(biases[k], p.errno))
      else
        AttemptIsUndone(m, image, biases[k], page, host(k), errno);
        var n := Undo(p.machine, |m.patches|, |m.segments|);
        if !image.dynamic || p.errno != Exists then Outcome(n, Refused(p.errno))
        else TryBiases(n, image, biases, page, host, k + 1, p.errno)
  }

  function Biases(image: Image, interpreter: bool): seq<Word> {
    if !image.dynamic then [0] else if interpreter then INTERPRETER_BIASES else MAIN_BIASES
  }

  /** Programs are tried upwards from 0x20000000, interpreters downwards from 0x60000000, 256 MiB apart. */
  lemma BiasesInOrder(image: Image, interpreter: bool, k: nat)
    requires image.dynamic
    ensures |Biases(image, interpreter)| == 4
    ensures k < 4 ==> Biases(image, interpreter)[k]
                      == if interpreter then 0x6000_0000 - 0x1000_0000 * k else 0x2000_0000 + 0x1000_0000 * k
  {
  }

  /** `load_elf_object`. */
  function LoadObject(m: Machine, image: Image, interpreter: bool, page: int, host: nat -> nat -> Reply, errno: Errno)
    : Outcome
    requires LoadPage(page) && SegmentsMapped(m)
  {
    if image.refusal.Some? then Outcome(m, Refused(image.refusal.value))
    else if !ValidHeaders(image) then Outcome(m, Refused(NotExecutable))
    else TryBiases(m, image, Biases(image, interpreter), page, host, 0, errno)
  }
}
