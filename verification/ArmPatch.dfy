/**
  Instruction patching (src/arm_patch.c): a scan that replaces Linux system calls and thread-pointer
  reads by an undefined instruction and remembers the originals in a bounded table.
 */
module ArmPatch {
  import opened Words

  const ARM_LINUX_SVC_0: bv32 := 0xef00_0000
  const ARM_TPIDRURO_MASK: bv32 := 0xffff_0fff
  const ARM_TPIDRURO_READ: bv32 := 0xee1d_0f70
  const ARM_UDF_TRAP: bv32 := 0xe7f0_00f0
  const MAX_PATCHES: nat := 4096

  datatype Record = Record(address: Word, original: bv32)

  /** Code words by address; an address is present when a word there is mapped and writable. */
  type Code = map<Word, bv32>

  datatype Patched = Patched(code: Code, table: seq<Record>, ok: bool)

  predicate IsTlsRead(word: bv32) {
    (word & ARM_TPIDRURO_MASK) == ARM_TPIDRURO_READ
  }

  predicate Patchable(word: bv32) {
    word == ARM_LINUX_SVC_0 || IsTlsRead(word)
  }

  ghost predicate Mapped(code: Code, start: int, end: int) {
    forall a: Word :: start <= a < end && a % 4 == 0 ==> a in code
  }

  lemma TrapIsNotPatchable()
    ensures !Patchable(ARM_UDF_TRAP)
  {
  }

  /** The scan loop of `arm_patch_range` from one address on. */
  function PatchFrom(code: Code, table: seq<Record>, address: int, end: int): (r: Patched)
    requires 0 <= address && end <= UINTPTR_MAX && address % 4 == 0 && end % 4 == 0
    requires Mapped(code, address, end)
    ensures r.code.Keys == code.Keys
    decreases end - address
  {
    if address >= end then Patched(code, table, true)
    else if !Patchable(code[address]) then PatchFrom(code, table, address + 4, end)
    else if |table| == MAX_PATCHES then Patched(code, table, false)
    else
      PatchFrom(code[address := ARM_UDF_TRAP], table + [Record(address, code[address])], address + 4, end)
  }

  /** `arm_patch_range`: a misaligned or overflowing request is refused before anything is read. */
  function ScanRange(code: Code, table: seq<Record>, start: Word, length: Word): (r: Patched)
    requires start % 4 == 0 && length % 4 == 0 && length <= UINTPTR_MAX - start ==>
               Mapped(code, start, start + length)
  {
    if start % 4 != 0 || length % 4 != 0 || length > UINTPTR_MAX - start
    then Patched(code, table, false)
    else PatchFrom(code, table, start, start + length)
  }

  /** `arm_patch_original`: the first record for an address wins. */
  ghost function First(table: seq<Record>, address: Word): Option<bv32> {
    if table == [] then None
    else if First(table[..|table| - 1], address).Some? then First(table[..|table| - 1], address)
    else if table[|table| - 1].address == address then Some(table[|table| - 1].original)
    else None
  }

  /** `arm_patch_rollback`: put originals back, newest first. */
  function Rollback(code: Code, table: seq<Record>, retained: nat): (Code, seq<Record>)
    decreases |table|
  {
    if |table| <= retained then (code, table)
    else
      var last := table[|table| - 1];
      Rollback(code[last.address := last.original], table[..|table| - 1], retained)
  }

  /** `arm_patch_forget_range`: drop the records of a range, keeping the order of the others. */
  ghost function Forget(table: seq<Record>, address: Word, end: int): seq<Record> {
    if table == [] then []
    else
      var last := table[|table| - 1];
      Forget(table[..|table| - 1], address, end)
      + (if last.address < address || last.address >= end then [last] else [])
  }

  class PatchTable {
    const patches: array<Record>
    var count: nat
    var code: Code

    constructor ()
      ensures Valid() && fresh(patches) && Table() == [] && code == map[]
    {
      patches := new Record[MAX_PATCHES](_ => Record(0, 0));
      count := 0;
      code := map[];
    }

    ghost predicate Valid()
      reads this
    {
      patches.Length == MAX_PATCHES && count <= MAX_PATCHES
    }

    ghost function Table(): seq<Record>
      requires Valid()
      reads this, patches
    {
      patches[..count]
    }

    method PatchRange(start: Word, length: Word) returns (ok: bool)
      requires Valid()
      requires start % 4 == 0 && length % 4 == 0 && length <= UINTPTR_MAX - start ==>
                 Mapped(code, start, start + length)
      modifies this, patches
      ensures Valid()
      ensures Patched(code, Table(), ok) == ScanRange(old(code), old(Table()), start, length)
    {
      if start % 4 != 0 || length % 4 != 0 || length > UINTPTR_MAX - start {
        return false;
      }
      var end := start + length;
      var address: int := start;
      while address < end
        invariant start <= address && address % 4 == 0 && Valid() && Mapped(code, address, end)
        invariant PatchFrom(code, Table(), address, end)
               == PatchFrom(old(code), old(Table()), start, end)
        decreases end - address
      {
        var word := code[address];
        if Patchable(word) {
          if count == MAX_PATCHES {
            return false;
          }
          ghost var was := Table();
          patches[count] := Record(address, word);
          count := count + 1;
          code := code[address := ARM_UDF_TRAP];
          assert Table() == was + [Record(address, word)];
        }
        address := address + 4;
      }
      return true;
    }

    method Original(address: Word) returns (original: Option<bv32>)
      requires Valid()
      ensures original == First(Table(), address)
    {
      var i := 0;
      while i < count
        invariant i <= count
        invariant First(patches[..i], address).None?
      {
        assert patches[..i + 1][..i] == patches[..i];
        if patches[i].address == address {
          assert Table()[..i + 1] == patches[..i + 1];
          FirstOfPrefix(Table(), i + 1, address);
          return Some(patches[i].original);
        }
        i := i + 1;
      }
      return None;
    }

    method RollbackTo(retained: nat)
      requires Valid()
      modifies this
      ensures Valid()
      ensures (code, Table()) == Rollback(old(code), old(Table()), retained)
    {
      while count > retained
        invariant Valid()
        invariant Rollback(code, Table(), retained) == Rollback(old(code), old(Table()), retained)
      {
        assert Table()[..count - 1] == patches[..count - 1];
        count := count - 1;
        code := code[patches[count].address := patches[count].original];
      }
    }

    method ForgetRange(address: Word, length: Word)
      requires Valid()
      modifies this, patches
      ensures Valid() && code == old(code)
      ensures Table() == Forget(old(Table()), address,
                                if length > UINTPTR_MAX - address then UINTPTR_MAX else address + length)
    {
      hide Forget;
      ghost var was := Table();
      NothingForgotten(address, if length > UINTPTR_MAX - address then UINTPTR_MAX else address + length);
      var end := if length > UINTPTR_MAX - address then UINTPTR_MAX else address + length;
      var source, destination := 0, 0;
      while source < count
        invariant destination <= source <= count && count == old(count) && code == old(code)
        invariant patches[..destination] == Forget(was[..source], address, end)
        invariant patches[source..count] == was[source..]
      {
        ForgetStep(was, source, address, end);
        assert patches[source] == patches[source..count][0] == was[source];
        assert was[source + 1..] == patches[source..count][1..] == patches[source + 1..count];
        ghost var kept := patches[..destination];
        if patches[source].address < address || patches[source].address >= end {
          patches[destination] := patches[source];
          destination := destination + 1;
          assert patches[..destination] == kept + [was[source]];
        }
        source := source + 1;
      }
      assert was[..source] == was;
      count := destination;
    }
  }

  lemma NothingForgotten(address: Word, end: int)
    ensures Forget([], address, end) == []
  {
  }

  lemma ForgetStep(table: seq<Record>, i: nat, address: Word, end: int)
    requires i < |table|
    ensures Forget(table[..i + 1], address, end)
         == if table[i].address < address || table[i].address >= end
            then Forget(table[..i], address, end) + [table[i]]
            else Forget(table[..i], address, end)
  {
    assert table[..i + 1][..i] == table[..i];
  }

  // ----- the table as a search structure

  lemma {:induction false} FirstOfPrefix(table: seq<Record>, k: nat, address: Word)
    requires k <= |table| && First(table[..k], address).Some?
    ensures First(table, address) == First(table[..k], address)
  {
    if k < |table| {
      assert table[..|table| - 1][..k] == table[..k];
      FirstOfPrefix(table[..|table| - 1], k, address);
    } else {
      assert table[..k] == table;
    }
  }

  /** Appending a record matters only for its own address, and only if there was none before. */
  lemma FirstOfPush(table: seq<Record>, r: Record, address: Word)
    ensures First(table + [r], address)
         == if First(table, address).Some? then First(table, address)
            else if r.address == address then Some(r.original)
            else None
  {
    assert (table + [r])[..|table|] == table;
  }

  /** A record is found exactly when one carries the address. */
  lemma {:induction false} FirstFindsRecords(table: seq<Record>, address: Word)
    ensures First(table, address).Some? <==> exists i :: 0 <= i < |table| && table[i].address == address
    ensures First(table, address).Some? ==> Record(address, First(table, address).value) in table
  {
    if table != [] {
      var front := table[..|table| - 1];
      FirstFindsRecords(front, address);
      if i :| 0 <= i < |table| && table[i].address == address {
        assert i < |front| ==> front[i] == table[i];
      }
      assert forall i :: 0 <= i < |front| ==> front[i] == table[i];
      assert table[|table| - 1] in table;
    }
  }

  /** Forgetting a range hides exactly the records inside it. */
  lemma {:induction false} ForgetHidesExactlyTheRange(table: seq<Record>, start: Word, end: int, address: Word)
    ensures First(Forget(table, start, end), address)
         == if start <= address < end then None else First(table, address)
  {
    hide First, Forget;
    if table == [] {
      NothingFound(address);
      NothingForgotten(start, end);
    } else {
      var front, last := table[..|table| - 1], table[|table| - 1];
      ForgetHidesExactlyTheRange(front, start, end, address);
      ForgetStep(table, |table| - 1, start, end);
      FirstOfPush(front, last, address);
      FirstOfPush(Forget(front, start, end), last, address);
      assert front + [last] == table == table[..|table|];
    }
  }

  lemma NothingFound(address: Word)
    ensures First([], address).None?
  {
  }

  // ----- rollback undoes patching

  lemma {:induction false} RollbackInStages(code: Code, table: seq<Record>, middle: nat, retained: nat)
    requires retained <= middle
    ensures var (c, t) := Rollback(code, table, middle);
            Rollback(c, t, retained) == Rollback(code, table, retained)
    decreases |table|
  {
    if |table| > middle {
      var last := table[|table| - 1];
      RollbackInStages(code[last.address := last.original], table[..|table| - 1], middle, retained);
    }
  }

  /** Rolling back restores code words and table exactly, even after a scan that stopped part way. */
  lemma {:induction false} RollbackUndoesPatchFrom(code: Code, table: seq<Record>, address: int, end: int)
    requires 0 <= address && end <= UINTPTR_MAX && address % 4 == 0 && end % 4 == 0
    requires Mapped(code, address, end)
    ensures var r := PatchFrom(code, table, address, end);
            Rollback(r.code, r.table, |table|) == (code, table)
    decreases end - address
  {
    if address < end {
      if !Patchable(code[address]) {
        RollbackUndoesPatchFrom(code, table, address + 4, end);
      } else if |table| != MAX_PATCHES {
        var c, t := code[address := ARM_UDF_TRAP], table + [Record(address, code[address])];
        RollbackUndoesPatchFrom(c, t, address + 4, end);
        var r := PatchFrom(c, t, address + 4, end);
        RollbackInStages(r.code, r.table, |t|, |table|);
        assert t[..|t| - 1] == table;
        assert c[address := code[address]] == code;
      }
    }
  }

  lemma RollbackUndoesPatchRange(code: Code, table: seq<Record>, start: Word, length: Word)
    requires start % 4 == 0 && length % 4 == 0 && length <= UINTPTR_MAX - start ==>
               Mapped(code, start, start + length)
    ensures var r := ScanRange(code, table, start, length);
            Rollback(r.code, r.table, |table|) == (code, table)
  {
    hide PatchFrom, Rollback;
    if start % 4 == 0 && length % 4 == 0 && length <= UINTPTR_MAX - start {
      RollbackUndoesPatchFrom(code, table, start, start + length);
    } else {
      NothingToRollBack(code, table);
    }
  }

  lemma NothingToRollBack(code: Code, table: seq<Record>)
    ensures Rollback(code, table, |table|) == (code, table)
  {
  }

  // ----- what a scan changes

  predicate InScan(a: int, address: int, end: int) {
    address <= a < end && a % 4 == 0
  }

  /** The scan left this word and its record alone. */
  ghost predicate Untouched(code: Code, table: seq<Record>, r: Patched, a: Word)
    requires a in code && a in r.code
  {
    r.code[a] == code[a] && First(r.table, a) == First(table, a)
  }

  /** The scan replaced this word; an older record for the address, if any, still shadows the new one. */
  ghost predicate Rewritten(code: Code, table: seq<Record>, r: Patched, a: Word)
    requires a in code && a in r.code
  {
    && Patchable(code[a])
    && r.code[a] == ARM_UDF_TRAP
    && First(r.table, a) == if First(table, a).Some? then First(table, a) else Some(code[a])
  }

  /** How many words of [address, end) would be patched. */
  function CountPatchable(code: Code, address: int, end: int): nat
    requires 0 <= address && end <= MODULUS && address % 4 == 0 && Mapped(code, address, end)
    decreases end - address
  {
    if address >= end then 0 else (if Patchable(code[address]) then 1 else 0) + CountPatchable(code, address + 4, end)
  }

  lemma {:induction false} CountUnchanged(code: Code, other: Code, address: int, end: int)
    requires 0 <= address && end <= MODULUS && address % 4 == 0
    requires Mapped(code, address, end) && Mapped(other, address, end)
    requires forall a: Word :: address <= a < end && a % 4 == 0 ==> other[a] == code[a]
    ensures CountPatchable(other, address, end) == CountPatchable(code, address, end)
    decreases end - address
  {
    hide Patchable;
    if address < end {
      CountUnchanged(code, other, address + 4, end);
    }
  }

  /**
    After `before` more records the table is not yet full; a table beyond its capacity, which never arises, has no
    stop.
   */
  predicate Room(table: seq<Record>, before: nat) {
    |table| + before < MAX_PATCHES || |table| > MAX_PATCHES
  }

  /** The scan reaches this word with room for its record: what the table and the words before it decide. */
  ghost predicate Reached(code: Code, table: seq<Record>, address: int, end: int, a: Word)
    requires 0 <= address && end <= UINTPTR_MAX && address % 4 == 0 && Mapped(code, address, end)
  {
    InScan(a, address, end) && a in code && Patchable(code[a]) && Room(table, CountPatchable(code, address, a))
  }

  /** One turn of the scan. */
  lemma PatchTurn(code: Code, table: seq<Record>, address: int, end: int)
    requires 0 <= address && end <= UINTPTR_MAX && address % 4 == 0 && end % 4 == 0
    requires Mapped(code, address, end) && address < end
    ensures PatchFrom(code, table, address, end)
         == if !Patchable(code[address]) then PatchFrom(code, table, address + 4, end)
            else if |table| == MAX_PATCHES then Patched(code, table, false)
            else PatchFrom(code[address := ARM_UDF_TRAP], table + [Record(address, code[address])], address + 4, end)
  {
    hide Patchable;
  }

  /** What a scan of the rest did to a word it also did to the word before its first turn. */
  lemma CarriedOver(code: Code, table: seq<Record>, address: Word, r: Patched, a: Word)
    requires address in code && a in code && a in r.code && a != address
    ensures var c, t := code[address := ARM_UDF_TRAP], table + [Record(address, code[address])];
            && (Untouched(c, t, r, a) ==> Untouched(code, table, r, a))
            && (Rewritten(c, t, r, a) ==> Rewritten(code, table, r, a))
  {
    hide First, Patchable;
    FirstOfPush(table, Record(address, code[address]), a);
  }

  lemma {:induction false} PatchFromLeaves(code: Code, table: seq<Record>, address: int, end: int, a: Word)
    requires 0 <= address && end <= UINTPTR_MAX && address % 4 == 0 && end % 4 == 0
    requires Mapped(code, address, end) && a in code && !InScan(a, address, end)
    ensures Untouched(code, table, PatchFrom(code, table, address, end), a)
    decreases end - address
  {
    if address < end {
      hide PatchFrom, Patchable, Untouched, Rewritten;
      PatchTurn(code, table, address, end);
      SameRecord(code, table, a);
      if !Patchable(code[address]) {
        PatchFromLeaves(code, table, address + 4, end, a);
      } else if |table| != MAX_PATCHES {
        var c, t := code[address := ARM_UDF_TRAP], table + [Record(address, code[address])];
        PatchFromLeaves(c, t, address + 4, end, a);
        CarriedOver(code, table, address, PatchFrom(c, t, address + 4, end), a);
      }
    }
  }

  lemma SameRecord(code: Code, table: seq<Record>, a: Word)
    requires a in code
    ensures Untouched(code, table, Patched(code, table, false), a)
  {
  }

  /** At the word itself: it is rewritten if it is patchable and the table has room. */
  lemma PatchHere(code: Code, table: seq<Record>, a: Word, end: int)
    requires end <= UINTPTR_MAX && a % 4 == 0 && end % 4 == 0 && a < end && Mapped(code, a, end)
    ensures var r := PatchFrom(code, table, a, end);
            if Patchable(code[a]) && |table| != MAX_PATCHES
            then Rewritten(code, table, r, a)
            else Untouched(code, table, r, a) && (r.ok ==> !Patchable(code[a]))
  {
    hide PatchFrom, Patchable, First;
    PatchTurn(code, table, a, end);
    if !Patchable(code[a]) {
      PatchFromLeaves(code, table, a + 4, end, a);
    } else if |table| != MAX_PATCHES {
      var c, t := code[a := ARM_UDF_TRAP], table + [Record(a, code[a])];
      PatchFromLeaves(c, t, a + 4, end, a);
      FirstOfPush(table, Record(a, code[a]), a);
    }
  }

  /** What the scan does to one word is settled by whether it is reached. */
  ghost predicate Settled(code: Code, table: seq<Record>, r: Patched, a: Word, reached: bool)
    requires a in code && a in r.code
  {
    (reached ==> Rewritten(code, table, r, a)) && (!reached ==> Untouched(code, table, r, a))
  }

  /** Whether a later word is reached, one turn on. */
  lemma ReachedLater(code: Code, table: seq<Record>, address: int, end: int, a: Word)
    requires 0 <= address && end <= UINTPTR_MAX && address % 4 == 0 && end % 4 == 0
    requires Mapped(code, address, end) && a in code && InScan(a, address, end) && a != address
    ensures InScan(a, address + 4, end)
    ensures if !Patchable(code[address]) then
              Reached(code, table, address, end, a) <==> Reached(code, table, address + 4, end, a)
            else if |table| == MAX_PATCHES then !Reached(code, table, address, end, a)
            else
              var c, t := code[address := ARM_UDF_TRAP], table + [Record(address, code[address])];
              Mapped(c, address + 4, end)
              && (Reached(code, table, address, end, a) <==> Reached(c, t, address + 4, end, a))
  {
    hide Patchable, CountPatchable;
    NextWord(a, address);
    CountStep(code, address, a);
    if Patchable(code[address]) {
      CountUnchanged(code, code[address := ARM_UDF_TRAP], address + 4, a);
    }
  }

  lemma NextWord(a: int, address: int)
    requires a % 4 == 0 && address % 4 == 0 && a > address
    ensures a >= address + 4
  {
  }

  lemma CountStep(code: Code, address: int, end: int)
    requires 0 <= address < end <= MODULUS && address % 4 == 0 && Mapped(code, address, end)
    ensures CountPatchable(code, address, end)
         == (if Patchable(code[address]) then 1 else 0) + CountPatchable(code, address + 4, end)
  {
    hide Patchable;
  }

  /**
    Word by word: a scan rewrites exactly the patchable words it reaches before the table is full, which is all
    of them when it succeeds.
   */
  lemma {:induction false} PatchFromEffect(code: Code, table: seq<Record>, address: int, end: int, a: Word)
    requires 0 <= address && end <= UINTPTR_MAX && address % 4 == 0 && end % 4 == 0
    requires Mapped(code, address, end) && a in code
    ensures var r := PatchFrom(code, table, address, end);
            && Settled(code, table, r, a, Reached(code, table, address, end, a))
            && (r.ok && InScan(a, address, end) ==> !Patchable(r.code[a]))
    decreases end - address
  {
    hide PatchFrom, Patchable, Untouched, Rewritten, First, Reached;
    TrapIsNotPatchable();
    var r := PatchFrom(code, table, address, end);
    if !InScan(a, address, end) {
      PatchFromLeaves(code, table, address, end, a);
      NotReached(code, table, address, end, a);
    } else if a == address {
      PatchHere(code, table, a, end);
      ReachedHere(code, table, a, end);
      ChangeOf(code, table, r, a);
    } else {
      PatchTurn(code, table, address, end);
      ReachedLater(code, table, address, end, a);
      if !Patchable(code[address]) {
        PatchFromEffect(code, table, address + 4, end, a);
      } else if |table| == MAX_PATCHES {
        SameRecord(code, table, a);
      } else {
        var c, t := code[address := ARM_UDF_TRAP], table + [Record(address, code[address])];
        PatchFromEffect(c, t, address + 4, end, a);
        CarriedOver(code, table, address, r, a);
      }
    }
  }

  lemma NotReached(code: Code, table: seq<Record>, address: int, end: int, a: Word)
    requires 0 <= address && end <= UINTPTR_MAX && address % 4 == 0 && Mapped(code, address, end)
    requires !InScan(a, address, end)
    ensures !Reached(code, table, address, end, a)
  {
  }

  lemma ReachedHere(code: Code, table: seq<Record>, a: Word, end: int)
    requires end <= UINTPTR_MAX && a % 4 == 0 && a < end && Mapped(code, a, end)
    ensures Reached(code, table, a, end, a) <==> Patchable(code[a]) && |table| != MAX_PATCHES
  {
    hide Patchable;
  }

  lemma ChangeOf(code: Code, table: seq<Record>, r: Patched, a: Word)
    requires a in code && a in r.code
    ensures Rewritten(code, table, r, a) ==> Patchable(code[a]) && r.code[a] == ARM_UDF_TRAP
    ensures Untouched(code, table, r, a) ==> r.code[a] == code[a]
  {
  }

  /** Exactly the reached words change, which a caller can tell before the scan. */
  lemma ChangedIffReached(code: Code, table: seq<Record>, address: int, end: int, a: Word)
    requires 0 <= address && end <= UINTPTR_MAX && address % 4 == 0 && end % 4 == 0
    requires Mapped(code, address, end) && a in code
    ensures PatchFrom(code, table, address, end).code[a] != code[a] <==> Reached(code, table, address, end, a)
  {
    hide PatchFrom, Patchable, Untouched, Rewritten, CountPatchable, Room;
    TrapIsNotPatchable();
    PatchFromEffect(code, table, address, end, a);
    ChangeOf(code, table, PatchFrom(code, table, address, end), a);
  }

  // ----- when a scan succeeds

  /** The words of a range that need a patch. */
  ghost function Patchables(code: Code, address: int, end: int): set<Word> {
    set a | a in code && InScan(a, address, end) && Patchable(code[a])
  }

  lemma PatchablesStep(code: Code, address: int, end: int)
    requires 0 <= address < end <= UINTPTR_MAX && address % 4 == 0 && end % 4 == 0 && Mapped(code, address, end)
    ensures if Patchable(code[address])
            then Patchables(code, address, end)
                 == {address} + Patchables(code[address := ARM_UDF_TRAP], address + 4, end)
                 && address !in Patchables(code[address := ARM_UDF_TRAP], address + 4, end)
            else Patchables(code, address, end) == Patchables(code, address + 4, end)
  {
    hide Patchable;
    assert forall a: Word :: InScan(a, address, end) <==> a == address || InScan(a, address + 4, end);
  }

  /** A scan succeeds exactly when the table has room for every word that needs a patch. */
  lemma {:induction false} ScanSucceedsIff(code: Code, table: seq<Record>, address: int, end: int)
    requires 0 <= address && end <= UINTPTR_MAX && address % 4 == 0 && end % 4 == 0
    requires Mapped(code, address, end) && |table| <= MAX_PATCHES
    ensures var r, need := PatchFrom(code, table, address, end), |Patchables(code, address, end)|;
            && (r.ok <==> |table| + need <= MAX_PATCHES)
            && (r.ok ==> |r.table| == |table| + need)
    decreases end - address
  {
    hide Patchable, PatchFrom, Patchables;
    if address >= end {
      NothingPatchable(code, table, address, end);
    } else {
      PatchTurn(code, table, address, end);
      PatchablesStep(code, address, end);
      if !Patchable(code[address]) {
        ScanSucceedsIff(code, table, address + 4, end);
      } else if |table| < MAX_PATCHES {
        ScanSucceedsIff(code[address := ARM_UDF_TRAP], table + [Record(address, code[address])], address + 4, end);
      }
    }
  }

  lemma NothingPatchable(code: Code, table: seq<Record>, address: int, end: int)
    requires 0 <= address && end <= UINTPTR_MAX && address % 4 == 0 && end % 4 == 0 && address >= end
    ensures Patchables(code, address, end) == {} && PatchFrom(code, table, address, end) == Patched(code, table, true)
  {
  }

  /** The word addresses of a range. */
  ghost function ScanWords(address: int, end: int): iset<Word> {
    iset a: Word | InScan(a, address, end)
  }

  /** The words that need a patch and are picked by some rule. */
  ghost function Needing(code: Code, picked: iset<Word>): set<Word> {
    set a | a in code && a in picked && Patchable(code[a])
  }

  /** A successful scan settles its own words: what others pick still needs patching just outside of it. */
  lemma ScanLeavesNeeding(code: Code, table: seq<Record>, address: int, end: int, rest: iset<Word>)
    requires 0 <= address && end <= UINTPTR_MAX && address % 4 == 0 && end % 4 == 0
    requires Mapped(code, address, end) && PatchFrom(code, table, address, end).ok
    ensures |Needing(code, ScanWords(address, end) + rest)|
            == |Patchables(code, address, end)| + |Needing(PatchFrom(code, table, address, end).code, rest)|
  {
    hide Patchable, PatchFrom, First;
    TrapIsNotPatchable();
    var r := PatchFrom(code, table, address, end);
    forall a: Word | a in code
      ensures if InScan(a, address, end) then !Patchable(r.code[a]) else r.code[a] == code[a]
    {
      PatchFromEffect(code, table, address, end, a);
      ChangeOf(code, table, r, a);
    }
    var mine, others := Patchables(code, address, end), Needing(r.code, rest);
    assert mine !! others;
    assert Needing(code, ScanWords(address, end) + rest) == mine + others;
  }

  lemma ScanNeedsItsOwn(code: Code, address: int, end: int, rest: iset<Word>)
    ensures |Needing(code, ScanWords(address, end) + rest)| >= |Patchables(code, address, end)|
  {
    hide Patchable;
    var all, mine := Needing(code, ScanWords(address, end) + rest), Patchables(code, address, end);
    assert mine <= all;
    assert all == mine + (all - mine);
  }

  /** A misaligned or overflowing range is refused and nothing is touched; any other succeeds if the table has room. */
  lemma RangeIsScannedIff(code: Code, table: seq<Record>, start: Word, length: Word)
    requires |table| <= MAX_PATCHES
    requires start % 4 == 0 && length % 4 == 0 && length <= UINTPTR_MAX - start ==>
               Mapped(code, start, start + length)
    ensures var r, scanned := ScanRange(code, table, start, length),
                              start % 4 == 0 && length % 4 == 0 && start + length <= 0xffff_ffff;
            && (!scanned ==> r == Patched(code, table, false))
            && (r.ok <==> scanned && |table| + |Patchables(code, start, start + length)| <= 4096)
  {
    hide PatchFrom, Patchables;
    if start % 4 == 0 && length % 4 == 0 && length <= UINTPTR_MAX - start {
      ScanSucceedsIff(code, table, start, start + length);
    }
  }
}
