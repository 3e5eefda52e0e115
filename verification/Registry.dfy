/**
  The runtime mapping registry of src/guest_memory.c as a transformation of sequences of ranges.
  `Replace` is the composition of the four loops of `runtime_replace_locked`; the theorems say
  what it does to the address-to-flag view and which shape it keeps.
 */
module RegistrySpec {
  import opened Words

  /** A half-open range of owned addresses and its executable flag (`struct runtime_mapping`). */
  datatype Mapping = Mapping(start: int, end: int, executable: bool)

  const MAX_RUNTIME_MAPPINGS: nat := 2048
  const SCRATCH_SLOTS: nat := MAX_RUNTIME_MAPPINGS + 2

  predicate Overlaps(firstStart: int, firstEnd: int, secondStart: int, secondEnd: int) {
    firstStart < secondEnd && secondStart < firstEnd
  }

  ghost predicate Contains(m: Mapping, address: int) {
    m.start <= address < m.end
  }

  /** The address is owned with that flag by some range of the sequence, whatever its position. */
  ghost predicate Covers(s: seq<Mapping>, address: int, executable: bool) {
    exists m :: m in s && Contains(m, address) && m.executable == executable
  }

  /** The pointwise meaning of a registry. */
  ghost function View(s: seq<Mapping>, address: int): Option<bool> {
    if Covers(s, address, true) then Some(true)
    else if Covers(s, address, false) then Some(false)
    else None
  }

  ghost predicate NonEmpty(s: seq<Mapping>) {
    forall i :: 0 <= i < |s| ==> s[i].start < s[i].end
  }

  /** Sorted by address and pairwise disjoint. */
  ghost predicate Ascending(s: seq<Mapping>) {
    && NonEmpty(s)
    && forall i, j :: 0 <= i < j < |s| ==> s[i].end <= s[j].start
  }

  predicate Mergeable(a: Mapping, b: Mapping) {
    a.end == b.start && a.executable == b.executable
  }

  /** No two neighbours could be one range. */
  ghost predicate Coalesced(s: seq<Mapping>) {
    forall i, j :: 0 <= i && j == i + 1 && j < |s| ==> !Mergeable(s[i], s[j])
  }

  // ----- the invariant by recursion on the last range, the form the loops build it in

  ghost predicate Chain(s: seq<Mapping>) {
    s == [] ||
    (var last := s[|s| - 1];
     && Chain(s[..|s| - 1])
     && last.start < last.end
     && (|s| > 1 ==> s[|s| - 2].end <= last.start))
  }

  ghost predicate Tight(s: seq<Mapping>) {
    s == [] || (Tight(s[..|s| - 1]) && (|s| > 1 ==> !Mergeable(s[|s| - 2], s[|s| - 1])))
  }

  /** The registry invariant: non-empty ranges, sorted, disjoint, maximally coalesced. */
  ghost predicate WellFormed(s: seq<Mapping>) {
    Chain(s) && Tight(s)
  }

  /** The invariant in quantified form: non-empty, sorted and disjoint pairwise, no mergeable neighbours. */
  lemma WellFormedMeaning(s: seq<Mapping>)
    ensures WellFormed(s) <==> Ascending(s) && Coalesced(s)
  {
    TightIsCoalesced(s);
    if Chain(s) {
      ChainIsAscending(s);
    }
    if Ascending(s) {
      AscendingIsChain(s);
    }
  }

  lemma ChainSnoc(s: seq<Mapping>, m: Mapping)
    ensures Chain(s + [m]) <==> Chain(s) && m.start < m.end && (s != [] ==> s[|s| - 1].end <= m.start)
  {
    assert (s + [m])[..|s|] == s;
  }

  lemma TightSnoc(s: seq<Mapping>, m: Mapping)
    ensures Tight(s + [m]) <==> Tight(s) && (s != [] ==> !Mergeable(s[|s| - 1], m))
  {
    assert (s + [m])[..|s|] == s;
  }

  lemma {:induction false} ChainBefore(s: seq<Mapping>, m: Mapping)
    requires Chain(s) && (s != [] ==> s[|s| - 1].end <= m.start)
    ensures forall i :: 0 <= i < |s| ==> s[i].end <= m.start
  {
    if s != [] {
      ChainBefore(s[..|s| - 1], s[|s| - 1]);
    }
  }

  lemma {:induction false} ChainPrefix(s: seq<Mapping>, k: nat)
    requires Chain(s) && k <= |s|
    ensures Chain(s[..k])
  {
    if k < |s| {
      ChainPrefix(s[..|s| - 1], k);
      assert s[..|s| - 1][..k] == s[..k];
    } else {
      assert s[..k] == s;
    }
  }

  lemma {:induction false} ChainIsAscending(s: seq<Mapping>)
    requires Chain(s)
    ensures Ascending(s)
  {
    if s != [] {
      ChainIsAscending(s[..|s| - 1]);
      ChainBefore(s[..|s| - 1], s[|s| - 1]);
    }
  }

  lemma {:induction false} AscendingIsChain(s: seq<Mapping>)
    requires Ascending(s)
    ensures Chain(s)
  {
    if s != [] {
      AscendingIsChain(s[..|s| - 1]);
    }
  }

  lemma {:induction false} TightIsCoalesced(s: seq<Mapping>)
    ensures Tight(s) <==> Coalesced(s)
  {
    if s != [] {
      var front := s[..|s| - 1];
      TightIsCoalesced(front);
      assert forall i, j :: 0 <= i && j == i + 1 && j < |front| ==> front[i] == s[i] && front[j] == s[j];
    }
  }

  // ----- the four loops as functions

  /** What is left of one range once [start, end) has been cut out of it. */
  function CarveOne(m: Mapping, start: int, end: int): seq<Mapping> {
    if !Overlaps(start, end, m.start, m.end) then [m]
    else
      (if m.start < start then [Mapping(m.start, start, m.executable)] else [])
      + (if m.end > end then [Mapping(end, m.end, m.executable)] else [])
  }

  function Carve(s: seq<Mapping>, start: int, end: int): seq<Mapping> {
    if s == [] then []
    else Carve(s[..|s| - 1], start, end) + CarveOne(s[|s| - 1], start, end)
  }

  /** One insertion step: walk left over every range that starts after the item. */
  function Insert(s: seq<Mapping>, item: Mapping): (r: seq<Mapping>)
    ensures |r| == |s| + 1
  {
    if s == [] || s[|s| - 1].start <= item.start then s + [item]
    else Insert(s[..|s| - 1], item) + [s[|s| - 1]]
  }

  function InsertionSort(s: seq<Mapping>): (r: seq<Mapping>)
    ensures |r| == |s|
  {
    if s == [] then [] else Insert(InsertionSort(s[..|s| - 1]), s[|s| - 1])
  }

  /** One compaction step: extend the last kept range or keep the new one. */
  function Absorb(kept: seq<Mapping>, m: Mapping): (r: seq<Mapping>)
    ensures |kept| <= |r| <= |kept| + 1
  {
    if kept != [] && Mergeable(kept[|kept| - 1], m)
    then kept[..|kept| - 1] + [Mapping(kept[|kept| - 1].start, m.end, m.executable)]
    else kept + [m]
  }

  function Coalesce(s: seq<Mapping>): (r: seq<Mapping>)
    ensures |r| <= |s|
  {
    if s == [] then [] else Absorb(Coalesce(s[..|s| - 1]), s[|s| - 1])
  }

  /** The scratch contents after the split loop and the optional append. */
  function Gathered(s: seq<Mapping>, start: int, end: int, replacement: Option<bool>): seq<Mapping> {
    Carve(s, start, end)
    + (if replacement.Some? then [Mapping(start, end, replacement.value)] else [])
  }

  /** `runtime_replace_locked` before its capacity test. */
  function Replace(s: seq<Mapping>, start: int, end: int, replacement: Option<bool>): seq<Mapping> {
    Coalesce(InsertionSort(Gathered(s, start, end, replacement)))
  }

  /** The replacement together with its capacity test. */
  function Attempt(s: seq<Mapping>, start: int, end: int, replacement: Option<bool>): (seq<Mapping>, bool) {
    var r := Replace(s, start, end, replacement);
    if |r| <= MAX_RUNTIME_MAPPINGS then (r, true) else (s, false)
  }

  // ----- carving

  lemma CoversConcat(s: seq<Mapping>, t: seq<Mapping>, address: int, executable: bool)
    ensures Covers(s + t, address, executable) <==> Covers(s, address, executable) || Covers(t, address, executable)
  {
    if Covers(s, address, executable) {
      var m :| m in s && Contains(m, address) && m.executable == executable;
      assert m in s + t;
    }
    if Covers(t, address, executable) {
      var m :| m in t && Contains(m, address) && m.executable == executable;
      assert m in s + t;
    }
  }

  lemma CoversSingle(m: Mapping, address: int, executable: bool)
    ensures Covers([m], address, executable) <==> Contains(m, address) && m.executable == executable
  {
    assert m in [m];
  }

  lemma CarveOneCovers(m: Mapping, start: int, end: int, address: int, executable: bool)
    requires start < end && m.start < m.end
    ensures Covers(CarveOne(m, start, end), address, executable)
       <==> Contains(m, address) && m.executable == executable && !(start <= address < end)
  {
    var left := if m.start < start then [Mapping(m.start, start, m.executable)] else [];
    var right := if m.end > end then [Mapping(end, m.end, m.executable)] else [];
    CoversSingle(m, address, executable);
    CoversSingle(Mapping(m.start, start, m.executable), address, executable);
    CoversSingle(Mapping(end, m.end, m.executable), address, executable);
    CoversConcat(left, right, address, executable);
  }

  /** Splitting removes exactly the addresses of [start, end) and keeps every other flag. */
  lemma {:induction false} CarveErases(s: seq<Mapping>, start: int, end: int, address: int, executable: bool)
    requires start < end && NonEmpty(s)
    ensures Covers(Carve(s, start, end), address, executable)
       <==> Covers(s, address, executable) && !(start <= address < end)
  {
    if s != [] {
      var front, last := s[..|s| - 1], s[|s| - 1];
      CarveErases(front, start, end, address, executable);
      CarveOneCovers(last, start, end, address, executable);
      CoversConcat(Carve(front, start, end), CarveOne(last, start, end), address, executable);
      CoversConcat(front, [last], address, executable);
      CoversSingle(last, address, executable);
      assert s == front + [last];
    }
  }

  /** Every piece that survives lies on one side of the hole. */
  ghost predicate Avoids(s: seq<Mapping>, start: int, end: int) {
    forall i :: 0 <= i < |s| ==> s[i].end <= start || end <= s[i].start
  }

  /** Appending the pieces of the next range to pieces that end before it. */
  lemma AppendPieces(c: seq<Mapping>, m: Mapping, start: int, end: int)
    requires start < end && m.start < m.end
    requires Chain(c) && (c != [] ==> c[|c| - 1].end <= m.start)
    ensures var r := c + CarveOne(m, start, end);
            Chain(r) && (r != [] ==> r[|r| - 1].end <= m.end)
  {
    var d := CarveOne(m, start, end);
    if |d| == 0 {
      assert c + d == c;
    } else {
      ChainSnoc(c, d[0]);
      if |d| == 1 {
        assert c + d == c + [d[0]];
      } else {
        ChainSnoc(c + [d[0]], d[1]);
        assert c + d == c + [d[0]] + [d[1]];
      }
    }
  }

  lemma {:induction false} CarveKeepsOrder(s: seq<Mapping>, start: int, end: int)
    requires start < end && Chain(s)
    ensures var c := Carve(s, start, end);
            Chain(c) && (c != [] ==> s != [] && c[|c| - 1].end <= s[|s| - 1].end)
  {
    if s != [] {
      CarveKeepsOrder(s[..|s| - 1], start, end);
      AppendPieces(Carve(s[..|s| - 1], start, end), s[|s| - 1], start, end);
    }
  }

  lemma {:induction false} CarveAvoids(s: seq<Mapping>, start: int, end: int)
    requires start < end
    ensures Avoids(Carve(s, start, end), start, end)
  {
    if s != [] {
      CarveAvoids(s[..|s| - 1], start, end);
      assert Avoids(CarveOne(s[|s| - 1], start, end), start, end);
    }
  }

  lemma {:induction false} CarveOutside(s: seq<Mapping>, start: int, end: int)
    requires forall i :: 0 <= i < |s| ==> !Overlaps(start, end, s[i].start, s[i].end)
    ensures Carve(s, start, end) == s
  {
    if s != [] {
      CarveOutside(s[..|s| - 1], start, end);
    }
  }

  /** The hole lies strictly inside the range, which therefore splits in two. */
  ghost predicate Splits(m: Mapping, start: int, end: int) {
    m.start < start && end < m.end
  }

  ghost predicate SomeSplit(s: seq<Mapping>, start: int, end: int) {
    exists i :: 0 <= i < |s| && Splits(s[i], start, end)
  }

  lemma SomeSplitSnoc(s: seq<Mapping>, m: Mapping, start: int, end: int)
    ensures SomeSplit(s + [m], start, end) <==> SomeSplit(s, start, end) || Splits(m, start, end)
  {
    var t := s + [m];
    if SomeSplit(s, start, end) {
      var i :| 0 <= i < |s| && Splits(s[i], start, end);
      assert t[i] == s[i];
    }
    assert t[|s|] == m;
  }

  /** At most one old range can split, so the split loop writes at most one slot more than it reads. */
  lemma {:induction false} CarveSize(s: seq<Mapping>, start: int, end: int)
    requires start < end && Chain(s)
    ensures |Carve(s, start, end)| <= |s| + 1
    ensures SomeSplit(s, start, end) ==> |Carve(s, start, end)| == |s| + 1
    ensures !SomeSplit(s, start, end) ==> |Carve(s, start, end)| <= |s|
  {
    if s != [] {
      var front, last := s[..|s| - 1], s[|s| - 1];
      assert s == front + [last];
      CarveSize(front, start, end);
      SomeSplitSnoc(front, last, start, end);
      ChainBefore(front, last);
      if Splits(last, start, end) {
        CarveOutside(front, start, end);
      }
    }
  }

  // ----- sorting

  lemma {:induction false} InsertCovers(s: seq<Mapping>, item: Mapping, address: int, executable: bool)
    ensures Covers(Insert(s, item), address, executable)
       <==> Covers(s, address, executable) || (Contains(item, address) && item.executable == executable)
  {
    CoversSingle(item, address, executable);
    if s == [] || s[|s| - 1].start <= item.start {
      CoversConcat(s, [item], address, executable);
    } else {
      var front, last := s[..|s| - 1], s[|s| - 1];
      InsertCovers(front, item, address, executable);
      assert s == front + [last];
      CoversConcat(front, [last], address, executable);
      CoversConcat(Insert(front, item), [last], address, executable);
    }
  }

  /** On an ascending sequence the sort loop moves nothing. */
  lemma {:induction false} SortOfChain(s: seq<Mapping>)
    requires Chain(s)
    ensures InsertionSort(s) == s
  {
    if s != [] {
      var front := s[..|s| - 1];
      SortOfChain(front);
      assert s == front + [s[|s| - 1]];
    }
  }

  /** Inserting the replacement into the hole that was carved for it keeps the sequence ascending. */
  lemma {:induction false} InsertIntoHole(s: seq<Mapping>, item: Mapping)
    requires Chain(s) && item.start < item.end && Avoids(s, item.start, item.end)
    ensures Chain(Insert(s, item))
    ensures var r := Insert(s, item);
            r[|r| - 1] == item || (s != [] && r[|r| - 1] == s[|s| - 1])
  {
    if s == [] || s[|s| - 1].start <= item.start {
      ChainSnoc(s, item);
    } else {
      var front, last := s[..|s| - 1], s[|s| - 1];
      InsertIntoHole(front, item);
      ChainSnoc(Insert(front, item), last);
    }
  }

  // ----- coalescing

  lemma AbsorbKeepsShape(kept: seq<Mapping>, m: Mapping)
    requires Chain(kept) && Tight(kept) && m.start < m.end
    requires kept != [] ==> kept[|kept| - 1].end <= m.start
    ensures var r := Absorb(kept, m);
            Chain(r) && Tight(r) && r != [] && r[|r| - 1].end == m.end
  {
    if kept != [] && Mergeable(kept[|kept| - 1], m) {
      var merged := Mapping(kept[|kept| - 1].start, m.end, m.executable);
      ChainSnoc(kept[..|kept| - 1], merged);
      TightSnoc(kept[..|kept| - 1], merged);
    } else {
      ChainSnoc(kept, m);
      TightSnoc(kept, m);
    }
  }

  lemma {:induction false} CoalesceKeepsShape(s: seq<Mapping>)
    requires Chain(s)
    ensures Chain(Coalesce(s)) && Tight(Coalesce(s))
    ensures s != [] ==> Coalesce(s) != [] && Coalesce(s)[|Coalesce(s)| - 1].end == s[|s| - 1].end
  {
    if s != [] {
      CoalesceKeepsShape(s[..|s| - 1]);
      AbsorbKeepsShape(Coalesce(s[..|s| - 1]), s[|s| - 1]);
    }
  }

  lemma AbsorbCovers(kept: seq<Mapping>, m: Mapping, address: int, executable: bool)
    requires m.start < m.end
    requires Chain(kept)
    ensures Covers(Absorb(kept, m), address, executable)
       <==> Covers(kept, address, executable) || Covers([m], address, executable)
  {
    if kept != [] && Mergeable(kept[|kept| - 1], m) {
      var head, tail := kept[..|kept| - 1], kept[|kept| - 1];
      var merged := Mapping(tail.start, m.end, m.executable);
      assert kept == head + [tail];
      CoversConcat(head, [tail], address, executable);
      CoversConcat(head, [merged], address, executable);
      CoversSingle(tail, address, executable);
      CoversSingle(merged, address, executable);
      CoversSingle(m, address, executable);
    } else {
      CoversConcat(kept, [m], address, executable);
    }
  }

  lemma {:induction false} CoalesceKeepsView(s: seq<Mapping>, address: int, executable: bool)
    requires Chain(s)
    ensures Covers(Coalesce(s), address, executable) <==> Covers(s, address, executable)
  {
    hide Absorb, Covers, Tight;
    if s != [] {
      var front, last := s[..|s| - 1], s[|s| - 1];
      CoalesceKeepsView(front, address, executable);
      CoalesceKeepsShape(front);
      AbsorbCovers(Coalesce(front), last, address, executable);
      assert s == front + [last];
      CoversConcat(front, [last], address, executable);
    }
  }

  lemma {:induction false} CoalesceOfTight(s: seq<Mapping>)
    requires Tight(s)
    ensures Coalesce(s) == s
  {
    if s != [] {
      var front, last := s[..|s| - 1], s[|s| - 1];
      hide Coalesce;
      CoalesceOfTight(front);
      CoalesceLast(s);
      assert front != [] ==> front[|front| - 1] == s[|s| - 2];
      assert s == front + [last];
    }
  }

  lemma CoalesceLast(s: seq<Mapping>)
    requires s != []
    ensures Coalesce(s) == Absorb(Coalesce(s[..|s| - 1]), s[|s| - 1])
  {
  }

  // ----- the main theorem about one replacement

  lemma GatheredSorted(s: seq<Mapping>, start: int, end: int, replacement: Option<bool>)
    requires start < end && Chain(s)
    ensures InsertionSort(Gathered(s, start, end, replacement))
            == if replacement.Some?
               then Insert(Carve(s, start, end), Mapping(start, end, replacement.value))
               else Carve(s, start, end)
    ensures Chain(InsertionSort(Gathered(s, start, end, replacement)))
  {
    var c := Carve(s, start, end);
    CarveKeepsOrder(s, start, end);
    CarveAvoids(s, start, end);
    SortOfChain(c);
    if replacement.Some? {
      var item := Mapping(start, end, replacement.value);
      assert (c + [item])[..|c + [item]| - 1] == c;
      InsertIntoHole(c, item);
    } else {
      assert Gathered(s, start, end, replacement) == c;
    }
  }

  lemma GatheredCovers(s: seq<Mapping>, start: int, end: int, replacement: Option<bool>,
                       address: int, executable: bool)
    requires start < end && Chain(s)
    ensures Covers(InsertionSort(Gathered(s, start, end, replacement)), address, executable)
       <==> if start <= address < end then replacement == Some(executable) else Covers(s, address, executable)
  {
    GatheredSorted(s, start, end, replacement);
    ChainIsAscending(s);
    CarveErases(s, start, end, address, executable);
    if replacement.Some? {
      InsertCovers(Carve(s, start, end), Mapping(start, end, replacement.value), address, executable);
    }
  }

  lemma ReplaceCovers(s: seq<Mapping>, start: int, end: int, replacement: Option<bool>,
                      address: int, executable: bool)
    requires start < end && Chain(s)
    ensures Covers(Replace(s, start, end, replacement), address, executable)
       <==> if start <= address < end then replacement == Some(executable) else Covers(s, address, executable)
  {
    GatheredSorted(s, start, end, replacement);
    CoalesceKeepsView(InsertionSort(Gathered(s, start, end, replacement)), address, executable);
    GatheredCovers(s, start, end, replacement, address, executable);
  }

  /** A replacement keeps the invariant and overwrites, or erases, exactly [start, end). */
  lemma ReplaceRefinesOverwrite(s: seq<Mapping>, start: int, end: int, replacement: Option<bool>)
    requires start < end && WellFormed(s)
    ensures WellFormed(Replace(s, start, end, replacement))
    ensures forall address :: View(Replace(s, start, end, replacement), address)
                              == if start <= address < end then replacement else View(s, address)
  {
    GatheredSorted(s, start, end, replacement);
    CoalesceKeepsShape(InsertionSort(Gathered(s, start, end, replacement)));
    forall address
      ensures View(Replace(s, start, end, replacement), address)
           == if start <= address < end then replacement else View(s, address)
    {
      ReplaceCovers(s, start, end, replacement, address, true);
      ReplaceCovers(s, start, end, replacement, address, false);
    }
  }

  // ----- capacity

  /** The scratch array is never overrun, and a replacement adds at most two entries. */
  lemma ScratchSuffices(s: seq<Mapping>, start: int, end: int, replacement: Option<bool>)
    requires start < end && WellFormed(s) && |s| <= MAX_RUNTIME_MAPPINGS
    ensures |Gathered(s, start, end, replacement)| <= SCRATCH_SLOTS
    ensures |Replace(s, start, end, replacement)| <= |Gathered(s, start, end, replacement)|
    ensures |Replace(s, start, end, replacement)| <= |s| + (if replacement.Some? then 2 else 1)
  {
    CarveSize(s, start, end);
  }

  /** A registry of n ranges of four bytes with gaps of four bytes, alternately executable. */
  function Sparse(n: nat): seq<Mapping> {
    seq(n, i requires 0 <= i < n => Mapping(8 * i, 8 * i + 4, i % 2 == 0))
  }

  /** The bound is tight: a full registry and a strictly interior range fill all 2050 scratch slots. */
  lemma ScratchBoundIsTight()
    ensures WellFormed(Sparse(MAX_RUNTIME_MAPPINGS)) && |Sparse(MAX_RUNTIME_MAPPINGS)| == MAX_RUNTIME_MAPPINGS
    ensures |Gathered(Sparse(MAX_RUNTIME_MAPPINGS), 1, 2, Some(false))| == SCRATCH_SLOTS
  {
    var s := Sparse(MAX_RUNTIME_MAPPINGS);
    assert Splits(s[0], 1, 2);
    WellFormedMeaning(s);
    CarveSize(s, 1, 2);
  }

  lemma AppendPiecesTight(c: seq<Mapping>, m: Mapping, start: int, end: int)
    requires start < end && Tight(c)
    requires c != [] ==> c[|c| - 1].end <= m.start && !Mergeable(c[|c| - 1], m)
    ensures Tight(c + CarveOne(m, start, end))
  {
    var d := CarveOne(m, start, end);
    if |d| == 0 {
      assert c + d == c;
    } else {
      TightSnoc(c, d[0]);
      if |d| == 1 {
        assert c + d == c + [d[0]];
      } else {
        TightSnoc(c + [d[0]], d[1]);
        assert c + d == c + [d[0]] + [d[1]];
      }
    }
  }

  /** A surviving piece that still reaches the end of the last range has that range's flag. */
  lemma {:induction false} LastPieceFlag(s: seq<Mapping>, start: int, end: int)
    requires start < end && Chain(s)
    ensures var c := Carve(s, start, end);
            c != [] && c[|c| - 1].end == s[|s| - 1].end ==> c[|c| - 1].executable == s[|s| - 1].executable
  {
    hide Carve, CarveOne;
    CarveLast(s, start, end);
    if s != [] {
      CarveKeepsOrder(s[..|s| - 1], start, end);
      var c, d := Carve(s[..|s| - 1], start, end), CarveOne(s[|s| - 1], start, end);
      PiecesKeepFlag(s[|s| - 1], start, end);
      if d == [] {
        assert c + d == c;
      } else {
        assert (c + d)[|c + d| - 1] == d[|d| - 1];
      }
    }
  }

  lemma CarveLast(s: seq<Mapping>, start: int, end: int)
    ensures Carve(s, start, end)
         == if s == [] then [] else Carve(s[..|s| - 1], start, end) + CarveOne(s[|s| - 1], start, end)
  {
  }

  lemma PiecesKeepFlag(m: Mapping, start: int, end: int)
    ensures forall i :: 0 <= i < |CarveOne(m, start, end)| ==> CarveOne(m, start, end)[i].executable == m.executable
  {
  }

  /** A hole never makes two survivors adjacent, so erasing needs no compaction. */
  lemma {:induction false} CarveKeepsTight(s: seq<Mapping>, start: int, end: int)
    requires start < end && Chain(s) && Tight(s)
    ensures Tight(Carve(s, start, end))
  {
    if s != [] {
      var front := s[..|s| - 1];
      CarveKeepsTight(front, start, end);
      CarveKeepsOrder(front, start, end);
      LastPieceFlag(front, start, end);
      AppendPiecesTight(Carve(front, start, end), s[|s| - 1], start, end);
    }
  }

  /** Erasing a range can only be refused by a full registry whose hole is strictly inside one range. */
  lemma EraseFailsExactlyWhenFullAndSplitting(s: seq<Mapping>, start: int, end: int)
    requires start < end && WellFormed(s) && |s| <= MAX_RUNTIME_MAPPINGS
    ensures |Replace(s, start, end, None)| > MAX_RUNTIME_MAPPINGS
       <==> |s| == MAX_RUNTIME_MAPPINGS && SomeSplit(s, start, end)
  {
    GatheredSorted(s, start, end, None);
    CarveSize(s, start, end);
    CarveKeepsTight(s, start, end);
    CoalesceOfTight(Carve(s, start, end));
  }

  // ----- queries

  ghost predicate OwnedPointwise(s: seq<Mapping>, start: int, end: int) {
    forall address :: start <= address < end ==> View(s, address).Some?
  }

  ghost predicate ExecutablePointwise(s: seq<Mapping>, start: int, end: int) {
    forall address :: start <= address < end ==> View(s, address) == Some(true)
  }

  /** Some single executable range contains [start, end): the test `guest_memory_is_executable` makes. */
  ghost predicate InOneExecutableRange(s: seq<Mapping>, start: int, end: int) {
    exists i :: 0 <= i < |s| && s[i].executable && s[i].start <= start && end <= s[i].end
  }

  /** In an ascending registry the flag of an address is the flag of the one range that holds it. */
  lemma ViewOfHolder(s: seq<Mapping>, i: nat, address: int)
    requires Ascending(s) && i < |s| && Contains(s[i], address)
    ensures View(s, address) == Some(s[i].executable)
  {
    assert s[i] in s;
    forall m | m in s && Contains(m, address) ensures m == s[i] {
      var j :| 0 <= j < |s| && s[j] == m;
    }
  }

  lemma HolderOfView(s: seq<Mapping>, address: int) returns (i: nat)
    requires View(s, address).Some?
    ensures i < |s| && Contains(s[i], address) && View(s, address) == Some(s[i].executable)
  {
    var flag := View(s, address).value;
    assert Covers(s, address, flag);
    var m :| m in s && Contains(m, address) && m.executable == flag;
    i :| 0 <= i < |s| && s[i] == m;
  }

  /** The range that holds the end of another range is its right neighbour and touches it. */
  lemma NextHolder(s: seq<Mapping>, i: nat, j: nat)
    requires Ascending(s) && i < |s| && j < |s| && Contains(s[j], s[i].end)
    ensures j == i + 1 && s[i].end == s[j].start
  {
    if i + 1 < |s| {
      assert s[i].end <= s[i + 1].start < s[i + 1].end;
    }
  }

  /** One executable range spans [start, x] for every x that is executable all the way from start. */
  lemma {:induction false} OneRangeReaches(s: seq<Mapping>, start: int, end: int, i: nat)
    requires WellFormed(s) && start < end && ExecutablePointwise(s, start, end)
    requires i < |s| && Contains(s[i], start)
    ensures s[i].executable && end <= s[i].end
  {
    WellFormedMeaning(s);
    ViewOfHolder(s, i, start);
    if s[i].end < end {
      var next := s[i].end;
      assert View(s, next) == Some(true);
      var j := HolderOfView(s, next);
      NextHolder(s, i, j);
    }
  }

  /** Maximal coalescing makes the single-range executable test exact on non-empty ranges. */
  lemma SingleRangeTestIsExact(s: seq<Mapping>, start: int, end: int)
    requires WellFormed(s) && start < end
    ensures InOneExecutableRange(s, start, end) <==> ExecutablePointwise(s, start, end)
  {
    WellFormedMeaning(s);
    if InOneExecutableRange(s, start, end) {
      var i :| 0 <= i < |s| && s[i].executable && s[i].start <= start && end <= s[i].end;
      forall address | start <= address < end ensures View(s, address) == Some(true) {
        ViewOfHolder(s, i, address);
      }
    }
    if ExecutablePointwise(s, start, end) {
      assert View(s, start) == Some(true);
      var i := HolderOfView(s, start);
      OneRangeReaches(s, start, end, i);
    }
  }

  /** Without coalescing the single-range test would miss a range that is executable byte by byte. */
  lemma SingleRangeTestNeedsCoalescing()
    ensures var s := [Mapping(0, 4, true), Mapping(4, 8, true)];
            Ascending(s) && ExecutablePointwise(s, 0, 8) && !InOneExecutableRange(s, 0, 8)
  {
    var s := [Mapping(0, 4, true), Mapping(4, 8, true)];
    forall address | 0 <= address < 8 ensures View(s, address) == Some(true) {
      ViewOfHolder(s, if address < 4 then 0 else 1, address);
    }
  }
}
