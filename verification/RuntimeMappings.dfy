/**
  The registry of src/guest_memory.c as the source keeps it: a fixed array of ranges with a count,
  rebuilt through a scratch array by a split loop, an insertion sort and an in-place compaction.
 */
module RuntimeMappings {
  import opened Words
  import opened RegistrySpec

  /** Results of the public operations: 0, -1 with EINVAL, -1 with ENOMEM, and `1` for "not owned". */
  datatype Outcome = Done | Invalid | NoMemory | NotOwned

  class Table {
    const mappings: array<Mapping>
    const scratch: array<Mapping>
    var count: nat

    ghost predicate Valid()
      reads this, mappings
    {
      && mappings.Length == MAX_RUNTIME_MAPPINGS
      && scratch.Length == SCRATCH_SLOTS
      && mappings != scratch
      && count <= MAX_RUNTIME_MAPPINGS
      && WellFormed(mappings[..count])
    }

    ghost function Contents(): seq<Mapping>
      requires Valid()
      reads this, mappings
    {
      mappings[..count]
    }

    constructor ()
      ensures Valid() && fresh(mappings) && fresh(scratch)
      ensures Contents() == []
    {
      mappings := new Mapping[MAX_RUNTIME_MAPPINGS](_ => Mapping(0, 0, false));
      scratch := new Mapping[SCRATCH_SLOTS](_ => Mapping(0, 0, false));
      count := 0;
    }

    /** The sweep of `runtime_range_owned_locked`: true exactly when every address is owned. */
    method RangeOwned(start: int, end: int) returns (owned: bool)
      requires Valid()
      ensures owned <==> OwnedPointwise(Contents(), start, end)
    {
      ghost var s := Contents();
      var cursor := start;
      while cursor < end
        invariant start <= cursor
        invariant OwnedPointwise(s, start, cursor)
        decreases end - cursor
      {
        var coveredEnd := cursor;
        var i := 0;
        while i < count
          invariant i <= count && cursor <= coveredEnd
          invariant forall k :: 0 <= k < i && s[k].start <= cursor ==> s[k].end <= coveredEnd
          invariant coveredEnd > cursor ==>
                      exists k :: 0 <= k < |s| && s[k].start <= cursor && s[k].end == coveredEnd
        {
          if mappings[i].start <= cursor && mappings[i].end > coveredEnd {
            coveredEnd := mappings[i].end;
            assert s[i].start <= cursor && s[i].end == coveredEnd;
          }
          i := i + 1;
        }
        if coveredEnd == cursor {
          NotCovered(s, cursor);
          return false;
        }
        ghost var k :| 0 <= k < |s| && s[k].start <= cursor && s[k].end == coveredEnd;
        CoveredBy(s, k, cursor, coveredEnd);
        cursor := coveredEnd;
      }
      return true;
    }

    /** The runtime half of `guest_memory_is_executable`: one executable range contains the request. */
    method InExecutableMapping(address: int, length: nat) returns (found: bool)
      requires Valid()
      ensures found <==> InOneExecutableRange(Contents(), address, address + length)
      ensures length > 0 ==> (found <==> ExecutablePointwise(Contents(), address, address + length))
    {
      ghost var s := Contents();
      found := false;
      var i := 0;
      while i < count
        invariant i <= count
        invariant !found
        invariant forall k :: 0 <= k < i ==>
                    !(s[k].executable && s[k].start <= address && address + length <= s[k].end)
      {
        if mappings[i].executable && address >= mappings[i].start && address + length <= mappings[i].end {
          found := true;
          assert s[i].executable && s[i].start <= address && address + length <= s[i].end;
          break;
        }
        i := i + 1;
      }
      if length > 0 {
        SingleRangeTestIsExact(s, address, address + length);
      }
    }

    /** One range of the first loop: append what [start, end) leaves of it. */
    method SplitOne(current: Mapping, start: int, end: int, n: nat) returns (next: nat)
      requires n + |CarveOne(current, start, end)| <= scratch.Length
      modifies scratch
      ensures next == n + |CarveOne(current, start, end)|
      ensures scratch[..next] == old(scratch[..n]) + CarveOne(current, start, end)
    {
      next := n;
      if !Overlaps(start, end, current.start, current.end) {
        scratch[next] := current;
        next := next + 1;
      } else {
        if current.start < start {
          scratch[next] := Mapping(current.start, start, current.executable);
          next := next + 1;
        }
        if current.end > end {
          scratch[next] := Mapping(end, current.end, current.executable);
          next := next + 1;
        }
      }
    }

    /** First loop: copy every range outside [start, end) and the pieces of those it cuts. */
    method Split(start: int, end: int) returns (n: nat)
      requires Valid() && start < end
      modifies scratch
      ensures n <= count + 1
      ensures scratch[..n] == Carve(Contents(), start, end)
    {
      hide Carve, CarveOne, WellFormed;
      ghost var s := Contents();
      n := 0;
      var i := 0;
      CarveLast(s[..0], start, end);
      while i < count
        invariant i <= count && n <= i + 1
        invariant scratch[..n] == Carve(s[..i], start, end)
      {
        CarveNext(s, start, end, i);
        n := SplitOne(mappings[i], start, end, n);
        i := i + 1;
      }
      assert s[..i] == s;
    }

    /** Second loop: insertion sort of the first n scratch slots by start address. */
    method Sort(n: nat)
      requires n <= scratch.Length
      modifies scratch
      ensures scratch[..n] == InsertionSort(old(scratch[..n]))
    {
      ghost var was := scratch[..n];
      if n == 0 {
        return;
      }
      var i := 1;
      assert was[..1][..0] == [];
      while i < n
        invariant 1 <= i <= n
        invariant scratch[..i] == InsertionSort(was[..i])
        invariant scratch[i..n] == was[i..]
      {
        assert was[..i + 1][..i] == was[..i];
        assert scratch[i] == scratch[i..n][0] == was[i];
        Place(i, n);
        assert scratch[i + 1..n] == was[i..][1..] == was[i + 1..];
        i := i + 1;
      }
      assert was[..n] == was;
    }

    /** One pass of the insertion sort: move slot i left past every range that starts after it. */
    method Place(i: nat, n: nat)
      requires i < n <= scratch.Length
      modifies scratch
      ensures scratch[..i + 1] == Insert(old(scratch[..i]), old(scratch[i]))
      ensures scratch[i + 1..n] == old(scratch[i..n])[1..]
    {
      hide Insert;
      var item := scratch[i];
      ghost var sorted, tail := scratch[..i], scratch[i + 1..n];
      assert scratch[i..n][1..] == tail;
      var position := i;
      while position != 0 && scratch[position - 1].start > item.start
        invariant position <= i
        invariant forall k :: 0 <= k < position ==> scratch[k] == sorted[k]
        invariant forall k :: position < k <= i ==> scratch[k] == sorted[k - 1]
        invariant scratch[i + 1..n] == tail
        invariant forall k :: position <= k < i ==> sorted[k].start > item.start
      {
        scratch[position] := scratch[position - 1];
        position := position - 1;
      }
      scratch[position] := item;
      InsertPosition(sorted, item, position);
      Shifted(sorted, scratch[..i + 1], item, position);
      assert scratch[i + 1..n] == tail;
    }

    /** One compaction step: fold slot i into the kept prefix, leaving the unread slots alone. */
    method AbsorbSlot(kept: nat, i: nat, n: nat) returns (next: nat)
      requires kept <= i < n <= scratch.Length
      modifies scratch
      ensures next <= i + 1
      ensures scratch[..next] == Absorb(old(scratch[..kept]), old(scratch[i]))
      ensures scratch[i + 1..n] == old(scratch[i + 1..n])
    {
      ghost var done := scratch[..kept];
      ghost var m := scratch[i];
      ghost var rest := scratch[i + 1..n];
      if kept != 0 && scratch[kept - 1].end == scratch[i].start
         && scratch[kept - 1].executable == scratch[i].executable {
        scratch[kept - 1] := scratch[kept - 1].(end := scratch[i].end);
        assert scratch[..kept] == done[..kept - 1] + [Mapping(done[kept - 1].start, m.end, m.executable)];
        next := kept;
      } else {
        scratch[kept] := scratch[i];
        next := kept + 1;
        assert scratch[..next] == done + [m];
      }
      assert scratch[i + 1..n] == rest;
    }

    /** Third loop: merge neighbours in place, reading ahead of the write position. */
    method Compact(n: nat) returns (kept: nat)
      requires n <= scratch.Length
      modifies scratch
      ensures kept <= n
      ensures scratch[..kept] == Coalesce(old(scratch[..n]))
    {
      ghost var was := scratch[..n];
      kept := 0;
      var i := 0;
      while i < n
        invariant kept <= i <= n
        invariant scratch[..kept] == Coalesce(was[..i])
        invariant scratch[i..n] == was[i..]
      {
        assert was[..i + 1][..i] == was[..i];
        assert scratch[i] == scratch[i..n][0] == was[i];
        assert scratch[i + 1..n] == scratch[i..n][1..] == was[i + 1..];
        kept := AbsorbSlot(kept, i, n);
        i := i + 1;
      }
      assert was[..n] == was;
    }

    /** The final `memcpy` into the table. */
    method Publish(kept: nat)
      requires mappings.Length == MAX_RUNTIME_MAPPINGS && kept <= MAX_RUNTIME_MAPPINGS < scratch.Length
      requires mappings != scratch
      modifies this, mappings
      ensures count == kept && mappings[..kept] == scratch[..kept]
    {
      var i := 0;
      while i < kept
        invariant i <= kept
        invariant mappings[..i] == scratch[..i]
      {
        mappings[i] := scratch[i];
        i := i + 1;
      }
      count := kept;
    }

    /** `runtime_replace_locked`: the new contents, or no change at all when they do not fit. */
    method ReplaceLocked(start: int, end: int, replacement: Option<bool>) returns (ok: bool)
      requires Valid() && start < end
      modifies this, mappings, scratch
      ensures Valid()
      ensures (Contents(), ok) == Attempt(old(Contents()), start, end, replacement)
    {
      hide Carve, Coalesce, InsertionSort, Chain, Tight;
      ghost var s := Contents();
      assert WellFormed(Replace(s, start, end, replacement)) by {
        ReplaceRefinesOverwrite(s, start, end, replacement);
      }
      var n := Split(start, end);
      if replacement.Some? {
        ghost var carved := scratch[..n];
        scratch[n] := Mapping(start, end, replacement.value);
        n := n + 1;
        assert scratch[..n] == carved + [Mapping(start, end, replacement.value)];
      }
      assert scratch[..n] == Gathered(s, start, end, replacement);
      Sort(n);
      var kept := Compact(n);
      if kept > MAX_RUNTIME_MAPPINGS {
        return false;
      }
      Publish(kept);
      return true;
    }

    /** `guest_memory_runtime_map`. */
    method Map(address: Word, length: Word, executable: bool) returns (outcome: Outcome)
      requires Valid()
      modifies this, mappings, scratch
      ensures Valid()
      ensures (Contents(), outcome) == MapStep(old(Contents()), address, length, executable)
    {
      hide Replace;
      if length == 0 || length > UINTPTR_MAX - address {
        return Invalid;
      }
      var ok := ReplaceLocked(address, address + length, Some(executable));
      return if ok then Done else NoMemory;
    }

    /** `guest_memory_runtime_protect`. */
    method Protect(address: Word, length: Word, executable: bool) returns (outcome: Outcome)
      requires Valid()
      modifies this, mappings, scratch
      ensures Valid()
      ensures (Contents(), outcome) == ProtectStep(old(Contents()), address, length, executable)
    {
      hide Replace;
      if length == 0 || length > UINTPTR_MAX - address {
        return Invalid;
      }
      var owned := RangeOwned(address, address + length);
      if !owned {
        return NotOwned;
      }
      var ok := ReplaceLocked(address, address + length, Some(executable));
      return if ok then Done else NoMemory;
    }

    /** `guest_memory_runtime_unmap`; the result of the replacement is not reported to the caller. */
    method Unmap(address: Word, length: Word)
      requires Valid()
      modifies this, mappings, scratch
      ensures Valid()
      ensures Contents() == UnmapStep(old(Contents()), address, length)
    {
      hide Replace;
      if length == 0 || length > UINTPTR_MAX - address {
        return;
      }
      var ok := ReplaceLocked(address, address + length, None);
    }
  }

  /** One turn of the split loop: at most one piece more than ranges read. */
  lemma CarveNext(s: seq<Mapping>, start: int, end: int, i: nat)
    requires WellFormed(s) && start < end && i < |s|
    ensures Carve(s[..i + 1], start, end) == Carve(s[..i], start, end) + CarveOne(s[i], start, end)
    ensures |Carve(s[..i + 1], start, end)| <= i + 2
  {
    hide Carve, CarveOne;
    CarveLast(s[..i + 1], start, end);
    assert s[..i + 1][..i] == s[..i];
    ChainPrefix(s, i + 1);
    CarveSize(s[..i + 1], start, end);
  }

  lemma Shifted(before: seq<Mapping>, after: seq<Mapping>, item: Mapping, position: nat)
    requires |after| == |before| + 1 && position <= |before| && after[position] == item
    requires forall k :: 0 <= k < position ==> after[k] == before[k]
    requires forall k :: position < k <= |before| ==> after[k] == before[k - 1]
    ensures after == before[..position] + [item] + before[position..]
  {
  }

  /** Where the shifting loop stops is where the item belongs. */
  lemma {:induction false} InsertPosition(sorted: seq<Mapping>, item: Mapping, position: nat)
    requires position <= |sorted|
    requires forall k :: position <= k < |sorted| ==> sorted[k].start > item.start
    requires position != 0 ==> sorted[position - 1].start <= item.start
    ensures Insert(sorted, item) == sorted[..position] + [item] + sorted[position..]
  {
    if position < |sorted| {
      InsertPosition(sorted[..|sorted| - 1], item, position);
    }
  }

  lemma NotCovered(s: seq<Mapping>, cursor: int)
    requires forall k :: 0 <= k < |s| && s[k].start <= cursor ==> s[k].end <= cursor
    ensures View(s, cursor).None?
  {
  }

  lemma CoveredBy(s: seq<Mapping>, k: nat, cursor: int, end: int)
    requires k < |s| && s[k].start <= cursor && end <= s[k].end
    ensures OwnedPointwise(s, cursor, end)
  {
    forall address | cursor <= address < end ensures View(s, address).Some? {
      assert s[k] in s && Contains(s[k], address);
    }
  }

  // ----- the operations as steps on the contents, and whole runs of them

  ghost function MapStep(s: seq<Mapping>, address: Word, length: Word, executable: bool): (seq<Mapping>, Outcome) {
    if length == 0 || length > UINTPTR_MAX - address then (s, Invalid)
    else
      var (r, ok) := Attempt(s, address, address + length, Some(executable));
      (r, if ok then Done else NoMemory)
  }

  ghost function ProtectStep(s: seq<Mapping>, address: Word, length: Word, executable: bool): (seq<Mapping>, Outcome) {
    if length == 0 || length > UINTPTR_MAX - address then (s, Invalid)
    else if !OwnedPointwise(s, address, address + length) then (s, NotOwned)
    else
      var (r, ok) := Attempt(s, address, address + length, Some(executable));
      (r, if ok then Done else NoMemory)
  }

  ghost function UnmapStep(s: seq<Mapping>, address: Word, length: Word): seq<Mapping> {
    if length == 0 || length > UINTPTR_MAX - address then s
    else Attempt(s, address, address + length, None).0
  }

  datatype Call =
    | CallMap(address: Word, length: Word, executable: bool)
    | CallProtect(address: Word, length: Word, executable: bool)
    | CallUnmap(address: Word, length: Word)

  ghost function Step(s: seq<Mapping>, call: Call): seq<Mapping> {
    match call
    case CallMap(address, length, executable) => MapStep(s, address, length, executable).0
    case CallProtect(address, length, executable) => ProtectStep(s, address, length, executable).0
    case CallUnmap(address, length) => UnmapStep(s, address, length)
  }

  ghost function Run(s: seq<Mapping>, calls: seq<Call>): seq<Mapping> {
    if calls == [] then s else Step(Run(s, calls[..|calls| - 1]), calls[|calls| - 1])
  }

  /** A call takes effect unless it is malformed, protects unowned addresses or overflows the table. */
  ghost predicate TakesEffect(s: seq<Mapping>, call: Call) {
    && 0 < call.length <= UINTPTR_MAX - call.address
    && (call.CallProtect? ==> OwnedPointwise(s, call.address, call.address + call.length))
    && |Replace(s, call.address, call.address + call.length, Written(call))| <= MAX_RUNTIME_MAPPINGS
  }

  ghost function Written(call: Call): Option<bool> {
    if call.CallUnmap? then None else Some(call.executable)
  }

  /** The reference meaning of a run: the last effective call that touched the address decides. */
  ghost function Reference(s: seq<Mapping>, calls: seq<Call>, address: int): Option<bool> {
    if calls == [] then View(s, address)
    else
      var front, call := calls[..|calls| - 1], calls[|calls| - 1];
      if TakesEffect(Run(s, front), call) && call.address <= address < call.address + call.length
      then Written(call)
      else Reference(s, front, address)
  }

  lemma AttemptRefines(s: seq<Mapping>, start: int, end: int, replacement: Option<bool>)
    requires start < end && WellFormed(s) && |s| <= MAX_RUNTIME_MAPPINGS
    ensures var (r, ok) := Attempt(s, start, end, replacement);
            && WellFormed(r) && |r| <= MAX_RUNTIME_MAPPINGS
            && forall address :: View(r, address)
                 == if ok && start <= address < end then replacement else View(s, address)
  {
    ReplaceRefinesOverwrite(s, start, end, replacement);
  }

  /** A refused mapping leaves the table alone, and either way the table keeps its shape. */
  lemma MapKeepsShape(s: seq<Mapping>, address: Word, length: Word, executable: bool)
    requires WellFormed(s) && |s| <= MAX_RUNTIME_MAPPINGS
    ensures var (r, outcome) := MapStep(s, address, length, executable);
            && WellFormed(r) && |r| <= MAX_RUNTIME_MAPPINGS
            && (outcome != Done ==> r == s)
  {
    hide Replace, View;
    if 0 < length <= UINTPTR_MAX - address {
      AttemptRefines(s, address, address + length, Some(executable));
    }
  }

  lemma UnmapKeepsShape(s: seq<Mapping>, address: Word, length: Word)
    requires WellFormed(s) && |s| <= MAX_RUNTIME_MAPPINGS
    ensures WellFormed(UnmapStep(s, address, length)) && |UnmapStep(s, address, length)| <= MAX_RUNTIME_MAPPINGS
  {
    hide Replace, View;
    if 0 < length <= UINTPTR_MAX - address {
      AttemptRefines(s, address, address + length, None);
    }
  }

  lemma StepRefines(s: seq<Mapping>, call: Call)
    requires WellFormed(s) && |s| <= MAX_RUNTIME_MAPPINGS
    ensures WellFormed(Step(s, call)) && |Step(s, call)| <= MAX_RUNTIME_MAPPINGS
    ensures forall address :: View(Step(s, call), address)
              == if TakesEffect(s, call) && call.address <= address < call.address + call.length
                 then Written(call) else View(s, address)
  {
    hide Replace, View, Chain, Tight;
    var start, end := call.address, call.address + call.length;
    if TakesEffect(s, call) {
      AttemptRefines(s, start, end, Written(call));
      assert Step(s, call) == Attempt(s, start, end, Written(call)).0;
    } else {
      assert Step(s, call) == s;
    }
  }

  /** Over every sequence of calls the invariant holds and the view is the reference meaning. */
  lemma {:induction false} RunRefinesReference(s: seq<Mapping>, calls: seq<Call>)
    requires WellFormed(s) && |s| <= MAX_RUNTIME_MAPPINGS
    ensures WellFormed(Run(s, calls)) && |Run(s, calls)| <= MAX_RUNTIME_MAPPINGS
    ensures forall address :: View(Run(s, calls), address) == Reference(s, calls, address)
  {
    if calls != [] {
      RunRefinesReference(s, calls[..|calls| - 1]);
      StepRefines(Run(s, calls[..|calls| - 1]), calls[|calls| - 1]);
    }
  }

  /** After an unmap nothing in the range is owned, unless a full table had to split a range. */
  lemma UnmapErasesUnlessFull(s: seq<Mapping>, address: Word, length: Word)
    requires WellFormed(s) && |s| <= MAX_RUNTIME_MAPPINGS
    requires 0 < length <= UINTPTR_MAX - address
    ensures (forall a :: address <= a < address + length ==> View(UnmapStep(s, address, length), a).None?)
       <==> !(|s| == MAX_RUNTIME_MAPPINGS && SomeSplit(s, address, address + length))
  {
    hide Replace, Chain, Tight;
    var end := address + length;
    var (r, ok) := Attempt(s, address, end, None);
    assert UnmapStep(s, address, length) == r;
    assert ok <==> !(|s| == MAX_RUNTIME_MAPPINGS && SomeSplit(s, address, end)) by {
      EraseFailsExactlyWhenFullAndSplitting(s, address, end);
    }
    AttemptRefines(s, address, end, None);
    if !ok {
      var i :| 0 <= i < |s| && Splits(s[i], address, end);
      WellFormedMeaning(s);
      ViewOfHolder(s, i, address);
    }
  }

  /** Mapping and protecting are never refused for space while two slots are free. */
  lemma NoOverflowWithTwoFreeSlots(s: seq<Mapping>, start: int, end: int, replacement: Option<bool>)
    requires start < end && WellFormed(s) && |s| + 2 <= MAX_RUNTIME_MAPPINGS
    ensures Attempt(s, start, end, replacement).1
  {
    ScratchSuffices(s, start, end, replacement);
  }

  // ----- a full table

  /** The i-th of many mappings of three pages with a page between them. */
  function Island(i: nat): Mapping {
    Mapping(0x4000 * i, 0x4000 * i + 0x3000, false)
  }

  function Islands(n: nat): seq<Mapping> {
    seq(n, i requires 0 <= i < n => Island(i))
  }

  function MapIslands(n: nat): seq<Call>
    requires n <= MAX_RUNTIME_MAPPINGS
  {
    seq(n, i requires 0 <= i < n => CallMap(0x4000 * i, 0x3000, false))
  }

  lemma IslandsAreWellFormed(n: nat)
    ensures WellFormed(Islands(n))
  {
    WellFormedMeaning(Islands(n));
  }

  /** Mapping behind everything appends. */
  lemma MapBehind(s: seq<Mapping>, m: Mapping)
    requires WellFormed(s) && m.start < m.end && forall i :: 0 <= i < |s| ==> s[i].end < m.start
    ensures Replace(s, m.start, m.end, Some(m.executable)) == s + [m]
  {
    hide Carve, InsertionSort, Coalesce;
    CarveOutside(s, m.start, m.end);
    ChainSnoc(s, m);
    TightSnoc(s, m);
    SortOfChain(s + [m]);
    CoalesceOfTight(s + [m]);
  }

  lemma {:induction false} IslandsAreMapped(n: nat)
    requires n <= MAX_RUNTIME_MAPPINGS
    ensures Run([], MapIslands(n)) == Islands(n)
  {
    hide Replace;
    if n > 0 {
      IslandsAreMapped(n - 1);
      assert MapIslands(n)[..n - 1] == MapIslands(n - 1);
      IslandsAreWellFormed(n - 1);
      MapBehind(Islands(n - 1), Island(n - 1));
      assert Islands(n) == Islands(n - 1) + [Island(n - 1)];
    }
  }

  /** After 2048 separate mappings, unmapping the middle page of the first changes nothing: the page stays owned. */
  lemma FullTableKeepsUnmappedPage()
    ensures var s := Run([], MapIslands(MAX_RUNTIME_MAPPINGS));
            UnmapStep(s, 0x1000, 0x1000) == s && View(s, 0x1000) == Some(false)
  {
    var s := Islands(MAX_RUNTIME_MAPPINGS);
    IslandsAreMapped(MAX_RUNTIME_MAPPINGS);
    IslandsAreWellFormed(MAX_RUNTIME_MAPPINGS);
    assert Splits(s[0], 0x1000, 0x2000);
    hide Replace, Chain, Tight, Run;
    EraseFailsExactlyWhenFullAndSplitting(s, 0x1000, 0x2000);
    WellFormedMeaning(s);
    ViewOfHolder(s, 0, 0x1000);
  }

  // ----- what the callers are told

  /** The request is well-formed. */
  predicate WellFormedRange(address: Word, length: Word) {
    0 < length && address + length <= UINTPTR_MAX
  }

  /** The rewritten table would not fit. */
  ghost predicate Overflows(s: seq<Mapping>, address: Word, length: Word, executable: bool) {
    |Replace(s, address, address + length, Some(executable))| > MAX_RUNTIME_MAPPINGS
  }

  /**
    Registering a mapping is refused as invalid or for want of space, and then changes nothing; otherwise the whole
    range has the flag afterwards.
   */
  lemma MapOutcome(s: seq<Mapping>, address: Word, length: Word, executable: bool)
    requires WellFormed(s) && |s| <= MAX_RUNTIME_MAPPINGS
    ensures var (r, outcome) := MapStep(s, address, length, executable);
            && (outcome == Invalid <==> !WellFormedRange(address, length))
            && (outcome == NoMemory <==> WellFormedRange(address, length) && Overflows(s, address, length, executable))
            && (outcome == Done <==> WellFormedRange(address, length) && !Overflows(s, address, length, executable))
            && (outcome != Done ==> r == s)
            && (outcome == Done ==> forall a :: address <= a < address + length ==> View(r, a) == Some(executable))
  {
    hide Replace, View;
    if WellFormedRange(address, length) {
      AttemptRefines(s, address, address + length, Some(executable));
    }
  }

  /**
    Changing the protection of a range is refused as invalid, because some address is not owned, or for want of space,
    in that order, and then changes nothing; otherwise the whole range has the flag afterwards.
   */
  lemma ProtectOutcome(s: seq<Mapping>, address: Word, length: Word, executable: bool)
    requires WellFormed(s) && |s| <= MAX_RUNTIME_MAPPINGS
    ensures var (r, outcome) := ProtectStep(s, address, length, executable);
            var owned := forall a :: address <= a < address + length ==> View(s, a).Some?;
            && (outcome == Invalid <==> !WellFormedRange(address, length))
            && (outcome == NotOwned <==> WellFormedRange(address, length) && !owned)
            && (outcome == NoMemory <==>
                  WellFormedRange(address, length) && owned && Overflows(s, address, length, executable))
            && (outcome != Done ==> r == s)
            && (outcome == Done ==> forall a :: address <= a < address + length ==> View(r, a) == Some(executable))
  {
    hide Replace, View;
    if WellFormedRange(address, length) {
      AttemptRefines(s, address, address + length, Some(executable));
    }
  }
}
