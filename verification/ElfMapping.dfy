/** Patching a file mapping (`arm_patch_elf_mapping` in src/arm_patch.c): which words of a mapping are scanned. */
module ElfMapping {
  import opened Words
  import opened ArmPatch

  /** A section header's file range; `code` says PROGBITS with the execute flag. */
  datatype Section = Section(code: bool, offset: Word, size: Word)

  /** `length` bytes of the file from `offset` on, mapped at `address`. */
  datatype Mapping = Mapping(offset: nat, address: Word, length: Word)

  predicate InAddressSpace(m: Mapping) {
    m.address + m.length <= UINTPTR_MAX
  }

  /** The guest address of a file offset inside the mapping. */
  function AddressOf(m: Mapping, offset: int): int {
    m.address + offset - m.offset
  }

  /** The loop that advances to an aligned guest address. */
  function WindowStart(m: Mapping, start: int, end: int): (r: int)
    requires start <= end
    ensures start <= r <= end
    ensures r < end ==> AddressOf(m, r) % 4 == 0
    decreases end - start
  {
    if start < end && AddressOf(m, start) % 4 != 0 then WindowStart(m, start + 1, end) else start
  }

  function Max(a: int, b: int): int {
    if a > b then a else b
  }

  function Min(a: int, b: int): int {
    if a < b then a else b
  }

  predicate Overlapping(m: Mapping, s: Section) {
    s.code && s.size != 0 && s.offset < m.offset + m.length && s.offset + s.size > m.offset
  }

  /** The scanned file range of an overlapping section, as (start, end). */
  function Window(m: Mapping, s: Section): (r: (int, int))
    requires Overlapping(m, s)
    ensures m.offset <= r.0 <= r.1 <= m.offset + m.length
  {
    var last := Min(s.offset + s.size, m.offset + m.length);
    var start := WindowStart(m, Max(s.offset, m.offset), last);
    (start, last - (last - start) % 4)
  }

  /** A whole aligned word whose four bytes come from both the section and the mapping. */
  predicate WholeWord(m: Mapping, s: Section, a: int) {
    var f := a - m.address + m.offset;
    && a % 4 == 0
    && s.offset <= f && f + 4 <= s.offset + s.size
    && m.offset <= f && f + 4 <= m.offset + m.length
  }

  predicate InWindow(m: Mapping, s: Section, a: int)
    requires Overlapping(m, s)
  {
    var (start, end) := Window(m, s);
    InScan(a, AddressOf(m, start), AddressOf(m, end))
  }

  /** No aligned address is skipped: the advance stops at the first one. */
  lemma {:induction false} WindowStartIsFirst(m: Mapping, start: int, end: int, f: int)
    requires start <= f < end && AddressOf(m, f) % 4 == 0
    ensures WindowStart(m, start, end) <= f
    decreases end - start
  {
    if AddressOf(m, start) % 4 != 0 {
      WindowStartIsFirst(m, start + 1, end, f);
    }
  }

  /** The window is exact: it holds a whole aligned word of the section, and nothing else. */
  lemma WindowIsExact(m: Mapping, s: Section, a: int)
    requires Overlapping(m, s)
    ensures InWindow(m, s, a) <==> WholeWord(m, s, a)
  {
    hide WindowStart;
    var first, last := Max(s.offset, m.offset), Min(s.offset + s.size, m.offset + m.length);
    var (start, end) := Window(m, s);
    var f := a - m.address + m.offset;
    assert AddressOf(m, f) == a;
    if a % 4 == 0 && first <= f < last {
      WindowStartIsFirst(m, first, last, f);
      if start < last {
        WholeWordsOnly(AddressOf(m, start), AddressOf(m, last), a);
      }
    }
  }

  lemma WholeWordsOnly(start: int, last: int, a: int)
    requires start % 4 == 0 && a % 4 == 0 && start <= a < last
    ensures a < last - (last - start) % 4 <==> a + 4 <= last
  {
  }

  /** The section loop; it stops at the first scan that fails. */
  function PatchMapping(code: Code, table: seq<Record>, m: Mapping, sections: seq<Section>, i: nat): (r: Patched)
    requires InAddressSpace(m) && Mapped(code, m.address, m.address + m.length) && i <= |sections|
    ensures r.code.Keys == code.Keys
    decreases |sections| - i
  {
    if i == |sections| then Patched(code, table, true)
    else if !Overlapping(m, sections[i]) then PatchMapping(code, table, m, sections, i + 1)
    else
      var (start, end) := Window(m, sections[i]);
      if end <= start then PatchMapping(code, table, m, sections, i + 1)
      else
        WindowIsAligned(m, sections[i]);
        var r := PatchFrom(code, table, AddressOf(m, start), AddressOf(m, end));
        if !r.ok then r else PatchMapping(r.code, r.table, m, sections, i + 1)
  }

  lemma WindowIsAligned(m: Mapping, s: Section)
    requires Overlapping(m, s) && Window(m, s).0 < Window(m, s).1
    ensures AddressOf(m, Window(m, s).0) % 4 == 0 && AddressOf(m, Window(m, s).1) % 4 == 0
  {
    hide WindowStart;
    var (start, end) := Window(m, s);
    assert (end - start) % 4 == 0;
  }

  /** A word of the mapping that some executable section holds entirely. */
  ghost predicate HeldFrom(m: Mapping, sections: seq<Section>, i: nat, a: int) {
    exists j :: i <= j < |sections| && Overlapping(m, sections[j]) && WholeWord(m, sections[j], a)
  }

  /** The two ways a scan may leave a word. */
  ghost predicate LeftOrTrapped(code: Code, r: Patched, a: Word)
    requires a in code && a in r.code
  {
    r.code[a] == code[a] || (Patchable(code[a]) && r.code[a] == ARM_UDF_TRAP)
  }

  /** One section: its whole words end up free of system calls, every other word is unchanged. */
  lemma ScanWindow(code: Code, table: seq<Record>, m: Mapping, s: Section, a: Word)
    requires InAddressSpace(m) && Mapped(code, m.address, m.address + m.length) && a in code
    requires Overlapping(m, s) && Window(m, s).0 < Window(m, s).1
    ensures var (start, end) := Window(m, s);
            AddressOf(m, start) % 4 == 0 && AddressOf(m, end) % 4 == 0
            && var r := PatchFrom(code, table, AddressOf(m, start), AddressOf(m, end));
            && LeftOrTrapped(code, r, a)
            && (!WholeWord(m, s, a) ==> r.code[a] == code[a])
            && (r.ok && WholeWord(m, s, a) ==> !Patchable(r.code[a]))
  {
    hide PatchFrom, Patchable, WindowStart, First;
    var (start, end) := Window(m, s);
    WindowIsAligned(m, s);
    WindowIsExact(m, s, a);
    PatchFromEffect(code, table, AddressOf(m, start), AddressOf(m, end), a);
  }

  /**
    Word by word: words that no executable section holds entirely are untouched; of the others only system
    calls and thread-pointer reads change, to the trap; and after success none of them is left.
   */
  lemma {:induction false} MappingIsPatchedExactly(code: Code, table: seq<Record>, m: Mapping, sections: seq<Section>,
                                                   i: nat, a: Word)
    requires InAddressSpace(m) && Mapped(code, m.address, m.address + m.length) && a in code && i <= |sections|
    ensures var r := PatchMapping(code, table, m, sections, i);
            && LeftOrTrapped(code, r, a)
            && (!HeldFrom(m, sections, i, a) ==> r.code[a] == code[a])
            && (r.ok && HeldFrom(m, sections, i, a) ==> !Patchable(r.code[a]))
    decreases |sections| - i
  {
    hide Patchable, WholeWord, Overlapping, PatchFrom;
    if i < |sections| {
      var s := sections[i];
      HeldStep(m, sections, i, a);
      if !Overlapping(m, s) {
        MappingIsPatchedExactly(code, table, m, sections, i + 1, a);
      } else if Window(m, s).1 <= Window(m, s).0 {
        EmptyWindow(m, s, a);
        MappingIsPatchedExactly(code, table, m, sections, i + 1, a);
      } else {
        ScanWindow(code, table, m, s, a);
        TrapIsNotPatchable();
        var r := PatchFrom(code, table, AddressOf(m, Window(m, s).0), AddressOf(m, Window(m, s).1));
        if r.ok {
          MappingIsPatchedExactly(r.code, r.table, m, sections, i + 1, a);
        }
      }
    }
  }

  lemma HeldStep(m: Mapping, sections: seq<Section>, i: nat, a: int)
    requires i < |sections|
    ensures HeldFrom(m, sections, i, a)
       <==> (Overlapping(m, sections[i]) && WholeWord(m, sections[i], a)) || HeldFrom(m, sections, i + 1, a)
  {
    hide Overlapping, WholeWord;
  }

  lemma EmptyWindow(m: Mapping, s: Section, a: int)
    requires Overlapping(m, s) && Window(m, s).1 <= Window(m, s).0
    ensures !WholeWord(m, s, a)
  {
    hide WindowStart;
    WindowIsExact(m, s, a);
  }

  // ----- the loops

  /** The advance loop and the trim at the end. */
  method FindWindow(m: Mapping, s: Section) returns (start: int, end: int)
    requires Overlapping(m, s)
    ensures (start, end) == Window(m, s)
    ensures forall a :: InScan(a, AddressOf(m, start), AddressOf(m, end)) <==> WholeWord(m, s, a)
  {
    start := Max(s.offset, m.offset);
    end := Min(s.offset + s.size, m.offset + m.length);
    ghost var first := start;
    while start < end && AddressOf(m, start) % 4 != 0
      invariant first <= start <= end
      invariant WindowStart(m, start, end) == WindowStart(m, first, end)
    {
      start := start + 1;
    }
    end := end - (end - start) % 4;
    forall a | true
      ensures InScan(a, AddressOf(m, start), AddressOf(m, end)) <==> WholeWord(m, s, a)
    {
      WindowIsExact(m, s, a);
    }
  }

  /** `arm_patch_elf_mapping` once the section table has been read. */
  method PatchElfMapping(code: Code, table: seq<Record>, m: Mapping, sections: seq<Section>) returns (r: Patched)
    requires InAddressSpace(m) && Mapped(code, m.address, m.address + m.length)
    ensures r == PatchMapping(code, table, m, sections, 0)
  {
    hide PatchFrom, Overlapping;
    r := Patched(code, table, true);
    var i := 0;
    while i < |sections|
      invariant 0 <= i <= |sections| && r.ok && r.code.Keys == code.Keys
      invariant PatchMapping(r.code, r.table, m, sections, i) == PatchMapping(code, table, m, sections, 0)
    {
      if Overlapping(m, sections[i]) {
        var start, end := FindWindow(m, sections[i]);
        if end > start {
          WindowIsAligned(m, sections[i]);
          r := PatchFrom(r.code, r.table, AddressOf(m, start), AddressOf(m, end));
          if !r.ok {
            return;
          }
        }
      }
      i := i + 1;
    }
  }

  // ----- when a mapping is patched to its end

  ghost function HeldWords(m: Mapping, sections: seq<Section>, i: nat): iset<Word> {
    iset a: Word | HeldFrom(m, sections, i, a)
  }

  /** The section loop succeeds exactly when the table has room for every word that needs a patch, counted once. */
  lemma {:induction false} MappingSucceedsIff(code: Code, table: seq<Record>, m: Mapping, sections: seq<Section>,
                                              i: nat)
    requires InAddressSpace(m) && Mapped(code, m.address, m.address + m.length) && i <= |sections|
    requires |table| <= MAX_PATCHES
    ensures PatchMapping(code, table, m, sections, i).ok
       <==> |table| + |Needing(code, HeldWords(m, sections, i))| <= MAX_PATCHES
    decreases |sections| - i
  {
    hide Overlapping, PatchFrom, Needing, HeldWords, Patchables;
    if i == |sections| {
      NothingHeld(code, m, sections, i);
    } else {
      HeldWordsStep(m, sections, i);
      if !Overlapping(m, sections[i]) || Window(m, sections[i]).1 <= Window(m, sections[i]).0 {
        MappingSucceedsIff(code, table, m, sections, i + 1);
      } else {
        var (start, end) := Window(m, sections[i]);
        WindowIsAligned(m, sections[i]);
        var first, last := AddressOf(m, start), AddressOf(m, end);
        ScanSucceedsIff(code, table, first, last);
        var r := PatchFrom(code, table, first, last);
        if r.ok {
          ScanLeavesNeeding(code, table, first, last, HeldWords(m, sections, i + 1));
          MappingSucceedsIff(r.code, r.table, m, sections, i + 1);
        } else {
          ScanNeedsItsOwn(code, first, last, HeldWords(m, sections, i + 1));
        }
      }
    }
  }

  lemma NothingHeld(code: Code, m: Mapping, sections: seq<Section>, i: nat)
    requires i == |sections|
    ensures Needing(code, HeldWords(m, sections, i)) == {}
  {
  }

  /** What section i adds to the words held from there on: exactly the words of its window. */
  lemma HeldWordsStep(m: Mapping, sections: seq<Section>, i: nat)
    requires i < |sections|
    ensures if !Overlapping(m, sections[i]) || Window(m, sections[i]).1 <= Window(m, sections[i]).0
            then HeldWords(m, sections, i) == HeldWords(m, sections, i + 1)
            else var (start, end) := Window(m, sections[i]);
                 HeldWords(m, sections, i)
                 == ScanWords(AddressOf(m, start), AddressOf(m, end)) + HeldWords(m, sections, i + 1)
  {
    hide Overlapping, WholeWord, Window;
    forall a: Word
      ensures HeldFrom(m, sections, i, a)
         <==> (Overlapping(m, sections[i]) && WholeWord(m, sections[i], a)) || HeldFrom(m, sections, i + 1, a)
      ensures Overlapping(m, sections[i]) ==>
                var (start, end) := Window(m, sections[i]);
                InScan(a, AddressOf(m, start), AddressOf(m, end)) <==> WholeWord(m, sections[i], a)
    {
      HeldStep(m, sections, i, a);
      if Overlapping(m, sections[i]) {
        WindowIsExact(m, sections[i], a);
      }
    }
  }
}
