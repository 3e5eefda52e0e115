/** The program break of src/guest_memory.c on top of the runtime registry. */
module Break {
  import opened Words
  import opened RegistrySpec
  import opened RuntimeMappings

  /** The break variables and the registry they share with every other mapping. */
  datatype Heap = Heap(minimum: Word, current: Word, mappingEnd: Word, registry: seq<Mapping>)

  class ProgramBreak {
    const page: int
    const table: Table
    var minimum: Word
    var current: Word
    var mappingEnd: Word

    ghost predicate Ready()
      reads this, table, table.mappings
    {
      PageSize(page) && table.Valid()
    }

    ghost predicate Valid()
      reads this, table, table.mappings
    {
      Ready() && HeapInvariant(State(), page)
    }

    ghost function State(): Heap
      requires table.Valid()
      reads this, table, table.mappings
    {
      Heap(minimum, current, mappingEnd, table.Contents())
    }

    constructor (pageSize: int, registry: Table)
      requires PageSize(pageSize) && registry.Valid()
      ensures Ready() && page == pageSize && table == registry
    {
      page := pageSize;
      table := registry;
      minimum, current, mappingEnd := 0, 0, 0;
    }

    /** `guest_brk_initialize`: an initial break outside the guest window is refused and changes nothing. */
    method Initialize(initial: Word) returns (ok: bool)
      requires Ready()
      modifies this
      ensures ok <==> GUEST_MIN_ADDRESS <= initial < GUEST_MAX_ADDRESS
      ensures ok ==> Valid()
      ensures State() == if ok then Heap(initial, initial, AlignUp(initial, page), table.Contents()) else old(State())
    {
      hide WellFormed;
      if initial < GUEST_MIN_ADDRESS || initial >= GUEST_MAX_ADDRESS {
        return false;
      }
      current := initial;
      minimum := initial;
      mappingEnd := AlignUp(initial, page);
      AlignUpBounds(initial, page);
      return true;
    }

    /** `guest_brk_set`; `host` is the outcome of the one `mmap` it may issue. */
    method Set(requested: Word, host: Placement) returns (result: Word)
      requires Valid()
      modifies this, table, table.mappings, table.scratch
      ensures Valid() && result == current
      ensures State() == SetBreak(old(State()), page, requested, host)
    {
      hide MapStep, UnmapStep, WellFormed, AlignUp;
      ghost var was := State();
      SetBreakKeepsInvariant(was, page, requested, host);
      if requested == 0 {
        return current;
      }
      if requested < minimum {
        return current;
      }
      if requested < current {
        var requestedEnd := AlignUp(requested, page);
        if requestedEnd < mappingEnd {
          table.Unmap(requestedEnd, mappingEnd - requestedEnd);
          mappingEnd := requestedEnd;
        }
        current := requested;
        return current;
      }
      if requested >= GUEST_MAX_ADDRESS || requested > UINTPTR_MAX - (page - 1) {
        return current;
      }
      var requestedEnd := AlignUp(requested, page);
      if requestedEnd > mappingEnd {
        if host.Failed? {
          return current;
        }
        if host.address != mappingEnd {
          return current;
        }
        MapKeepsShape(table.Contents(), mappingEnd, requestedEnd - mappingEnd, false);
        var outcome := table.Map(mappingEnd, requestedEnd - mappingEnd, false);
        if outcome != Done {
          return current;
        }
        mappingEnd := requestedEnd;
      }
      current := requested;
      return current;
    }
  }

  // ----- the call as a function of the state

  ghost function SetBreak(h: Heap, page: int, requested: Word, host: Placement): Heap
    requires page > 0
  {
    if requested == 0 || requested < h.minimum then h
    else if requested < h.current then
      var end := AlignUp(requested, page);
      if end < h.mappingEnd
      then h.(current := requested, mappingEnd := end,
              registry := UnmapStep(h.registry, end, h.mappingEnd - end))
      else h.(current := requested)
    else if requested >= GUEST_MAX_ADDRESS || requested > UINTPTR_MAX - (page - 1) then h
    else
      var end := AlignUp(requested, page);
      if end <= h.mappingEnd then h.(current := requested)
      else if host != At(h.mappingEnd) then h
      else
        var (r, outcome) := MapStep(h.registry, h.mappingEnd, end - h.mappingEnd, false);
        if outcome != Done then h
        else h.(current := requested, mappingEnd := end, registry := r)
  }

  /** The break lies between its minimum and the end of its last page, inside the guest window. */
  ghost predicate HeapInvariant(h: Heap, page: int)
    requires page > 0
  {
    && GUEST_MIN_ADDRESS <= h.minimum <= h.current < GUEST_MAX_ADDRESS
    && h.current <= h.mappingEnd == AlignUp(h.current, page)
    && WellFormed(h.registry)
    && |h.registry| <= MAX_RUNTIME_MAPPINGS
  }

  /** A call either moves the break to exactly the request or changes nothing at all. */
  lemma SetBreakIsAllOrNothing(h: Heap, page: int, requested: Word, host: Placement)
    requires PageSize(page) && HeapInvariant(h, page)
    ensures var n := SetBreak(h, page, requested, host);
            n == h || (n.current == requested && n.minimum == h.minimum <= requested
                       && n.mappingEnd == AlignUp(requested, page))
  {
    hide MapStep, UnmapStep, WellFormed;
    if h.minimum <= requested < GUEST_MAX_ADDRESS {
      if requested < h.current {
        AlignUpMonotone(requested, h.current, page);
      } else {
        AlignUpMonotone(h.current, requested, page);
      }
    }
  }

  /** The registry would take the pages the request adds. */
  ghost predicate RegistryTakes(h: Heap, page: int, requested: Word)
    requires page > 0
  {
    var end := AlignUp(requested, page);
    end > h.mappingEnd ==>
      |Replace(h.registry, h.mappingEnd, end, Some(false))| <= MAX_RUNTIME_MAPPINGS
  }

  /**
    A call grants its request exactly when the request is the break it has, or lies in the window and needs no new
    page, or needs some that the host placed at the mapping end and the registry takes.
   */
  lemma BreakMovesIff(h: Heap, page: int, requested: Word, host: Placement)
    requires PageSize(page) && HeapInvariant(h, page)
    ensures SetBreak(h, page, requested, host).current == requested
       <==> || requested == h.current
            || (&& h.minimum <= requested < GUEST_MAX_ADDRESS
                && (AlignUp(requested, page) <= h.mappingEnd
                    || (host == At(h.mappingEnd) && RegistryTakes(h, page, requested))))
  {
    hide Replace, UnmapStep, WellFormed;
    if h.minimum <= requested < GUEST_MAX_ADDRESS {
      AlignUpBounds(requested, page);
      if requested < h.current {
        AlignUpMonotone(requested, h.current, page);
      }
    }
  }

  /** With two free slots the registry takes every page, so the host alone decides. */
  lemma BreakMovesWithTwoFreeSlots(h: Heap, page: int, requested: Word, host: Placement)
    requires PageSize(page) && HeapInvariant(h, page) && |h.registry| + 2 <= MAX_RUNTIME_MAPPINGS
    ensures SetBreak(h, page, requested, host).current == requested
       <==> || requested == h.current
            || (&& h.minimum <= requested < GUEST_MAX_ADDRESS
                && (AlignUp(requested, page) <= h.mappingEnd || host == At(h.mappingEnd)))
  {
    hide Replace, UnmapStep, WellFormed, AlignUp, SetBreak;
    BreakMovesIff(h, page, requested, host);
    var end := AlignUp(requested, page);
    if h.mappingEnd < end {
      NoOverflowWithTwoFreeSlots(h.registry, h.mappingEnd, end, Some(false));
    }
  }

  /** A heap can grow to any break in the window and shrink again, if the host places its pages at their end. */
  lemma BreakGrowsAndShrinks(initial: Word, page: int, requested: Word)
    requires PageSize(page) && GUEST_MIN_ADDRESS <= initial < requested < GUEST_MAX_ADDRESS
    ensures var h := Initialized(initial, page);
            var grown := SetBreak(h, page, requested, At(h.mappingEnd));
            grown.current == requested && SetBreak(grown, page, initial, Failed).current == initial
  {
    hide SetBreak, AlignUp, WellFormed;
    InitializedIsSound(initial, page);
    var h := Initialized(initial, page);
    BreakMovesWithTwoFreeSlots(h, page, requested, At(h.mappingEnd));
    SetBreakKeepsInvariant(h, page, requested, At(h.mappingEnd));
    var grown := SetBreak(h, page, requested, At(h.mappingEnd));
    AlignUpMonotone(initial, requested, page);
    BreakMovesIff(grown, page, initial, Failed);
  }

  lemma SetBreakKeepsRegistry(h: Heap, page: int, requested: Word, host: Placement)
    requires page > 0 && WellFormed(h.registry) && |h.registry| <= MAX_RUNTIME_MAPPINGS
    ensures var n := SetBreak(h, page, requested, host);
            WellFormed(n.registry) && |n.registry| <= MAX_RUNTIME_MAPPINGS
  {
    hide MapStep, UnmapStep, WellFormed, AlignUp;
    var end := AlignUp(requested, page);
    if end < h.mappingEnd {
      UnmapKeepsShape(h.registry, end, h.mappingEnd - end);
    } else {
      MapKeepsShape(h.registry, h.mappingEnd, end - h.mappingEnd, false);
    }
  }

  lemma SetBreakKeepsInvariant(h: Heap, page: int, requested: Word, host: Placement)
    requires PageSize(page) && HeapInvariant(h, page)
    ensures HeapInvariant(SetBreak(h, page, requested, host), page)
    ensures SetBreak(h, page, requested, host).minimum == h.minimum
  {
    SetBreakIsAllOrNothing(h, page, requested, host);
    SetBreakKeepsRegistry(h, page, requested, host);
    if requested < GUEST_MAX_ADDRESS {
      AlignUpBounds(requested, page);
    }
    hide MapStep, UnmapStep, WellFormed, AlignUp;
  }

  /** A power of two that divides an odd number is one. */
  lemma OddMultiple(v: int, page: int)
    requires PowerOfTwo(page) && v % 2 == 1 && v % page == 0
    ensures page == 1
  {
    var q := v / page;
    var half := page / 2;
    assert v == q * page;
    assert page > 1 ==> v == 2 * (q * half);
  }

  // ----- whole runs

  /** A break call, or any other registry call made by the rest of the emulator. */
  datatype Event = BreakCall(requested: Word, host: Placement) | OtherCall(call: Call)

  ghost function Next(h: Heap, page: int, e: Event): Heap
    requires page > 0
  {
    match e
    case BreakCall(requested, host) => SetBreak(h, page, requested, host)
    case OtherCall(call) => h.(registry := Step(h.registry, call))
  }

  ghost function RunHeap(h: Heap, page: int, events: seq<Event>): Heap
    requires page > 0
  {
    if events == [] then h
    else Next(RunHeap(h, page, events[..|events| - 1]), page, events[|events| - 1])
  }

  lemma NextKeepsInvariant(h: Heap, page: int, e: Event)
    requires PageSize(page) && HeapInvariant(h, page)
    ensures HeapInvariant(Next(h, page, e), page) && Next(h, page, e).minimum == h.minimum
  {
    hide SetBreak, Step;
    match e
    case BreakCall(requested, host) => SetBreakKeepsInvariant(h, page, requested, host);
    case OtherCall(call) => StepRefines(h.registry, call);
  }

  /** Over every run, whatever the host answers, the break variables stay ordered and page-tight. */
  lemma {:induction false} RunKeepsInvariant(h: Heap, page: int, events: seq<Event>)
    requires PageSize(page) && HeapInvariant(h, page)
    ensures HeapInvariant(RunHeap(h, page, events), page)
    ensures RunHeap(h, page, events).minimum == h.minimum
    ensures GUEST_MAX_ADDRESS % page == 0 ==> RunHeap(h, page, events).mappingEnd <= GUEST_MAX_ADDRESS
  {
    if events != [] {
      RunKeepsInvariant(h, page, events[..|events| - 1]);
      NextKeepsInvariant(RunHeap(h, page, events[..|events| - 1]), page, events[|events| - 1]);
    }
    AlignUpIsLeastMultiple(RunHeap(h, page, events).current, page);
  }

  /** The heap as `guest_brk_initialize` leaves it, with nothing registered. */
  function Initialized(initial: Word, page: int): Heap
    requires page > 0
  {
    Heap(initial, initial, AlignUp(initial, page), [])
  }

  ghost predicate StaysBelowLimit(page: int)
    requires page > 0
  {
    forall initial: Word, events: seq<Event> :: GUEST_MIN_ADDRESS <= initial < GUEST_MAX_ADDRESS ==>
      RunHeap(Initialized(initial, page), page, events).mappingEnd <= GUEST_MAX_ADDRESS
  }

  lemma InitializedIsSound(initial: Word, page: int)
    requires PageSize(page) && GUEST_MIN_ADDRESS <= initial < GUEST_MAX_ADDRESS
    ensures HeapInvariant(Initialized(initial, page), page)
  {
    AlignUpBounds(initial, page);
  }

  /** Every heap that break calls can reach stays below the guest limit exactly when the page size divides the limit. */
  lemma HeapsStayBelowLimitIff(page: int)
    requires PageSize(page)
    ensures StaysBelowLimit(page) <==> GUEST_MAX_ADDRESS % page == 0
  {
    hide HeapInvariant, AlignUp;
    if GUEST_MAX_ADDRESS % page == 0 {
      forall initial: Word, events: seq<Event> | GUEST_MIN_ADDRESS <= initial < GUEST_MAX_ADDRESS
        ensures RunHeap(Initialized(initial, page), page, events).mappingEnd <= GUEST_MAX_ADDRESS
      {
        InitializedIsSound(initial, page);
        RunKeepsInvariant(Initialized(initial, page), page, events);
      }
    } else {
      TopOverruns(page);
      assert RunHeap(Initialized(GUEST_MAX_ADDRESS - 1, page), page, []).mappingEnd > GUEST_MAX_ADDRESS;
    }
  }

  /** The highest initial break, with a page that does not divide the limit. */
  lemma TopOverruns(page: int)
    requires PageSize(page) && GUEST_MAX_ADDRESS % page != 0
    ensures AlignUp(GUEST_MAX_ADDRESS - 1, page) > GUEST_MAX_ADDRESS
  {
    var top: Word := GUEST_MAX_ADDRESS - 1;
    AlignUpIsLeastMultiple(top, page);
    if AlignUp(top, page) == top {
      OddMultiple(top, page);
    }
  }

  /** With 512 MiB pages a break just below the limit ends its mapping 256 MiB above it. */
  lemma HugePageOverruns()
    ensures PageSize(0x2000_0000)
    ensures Initialized(GUEST_MAX_ADDRESS - 1, 0x2000_0000).mappingEnd == 0x8000_0000 > GUEST_MAX_ADDRESS
  {
    ModulusIsPower();
    hide PowerOfTwo;
    TwicePower(0x1000_0000);
    assert Wrap(0x6fff_ffff + 0x2000_0000 - 1) == 0x8fff_fffe;
    assert 0x8fff_fffe % 0x2000_0000 == 0x0fff_fffe;
  }

  /**
    The heap owns the area from the page above the initial break to `top`: break requests stay
    below it, other calls stay outside it, and the registry has a free slot.
   */
  ghost predicate Respects(h: Heap, page: int, e: Event, base: int, top: int)
    requires page > 0
  {
    && |h.registry| < MAX_RUNTIME_MAPPINGS
    && match e
       case BreakCall(requested, _) => requested < GUEST_MAX_ADDRESS ==> AlignUp(requested, page) <= top
       case OtherCall(call) => call.address + call.length <= base || top <= call.address
  }

  ghost predicate AllRespect(h: Heap, page: int, events: seq<Event>, base: int, top: int)
    requires page > 0
  {
    events == [] ||
    (&& AllRespect(h, page, events[..|events| - 1], base, top)
     && Respects(RunHeap(h, page, events[..|events| - 1]), page, events[|events| - 1], base, top))
  }

  /** In the heap area exactly the pages below the mapping end are registered, as non-executable. */
  ghost predicate ExactlyHeapPages(h: Heap, base: int, top: int) {
    forall a :: base <= a < top ==> View(h.registry, a) == if a < h.mappingEnd then Some(false) else None
  }

  lemma UnmapView(s: seq<Mapping>, address: Word, length: Word)
    requires WellFormed(s) && |s| < MAX_RUNTIME_MAPPINGS && 0 < length <= UINTPTR_MAX - address
    ensures forall a :: View(UnmapStep(s, address, length), a)
                        == if address <= a < address + length then None else View(s, a)
  {
    hide Replace, View, WellFormed, SomeSplit;
    EraseFailsExactlyWhenFullAndSplitting(s, address, address + length);
    AttemptRefines(s, address, address + length, None);
  }

  lemma MapView(s: seq<Mapping>, address: Word, length: Word)
    requires WellFormed(s) && |s| <= MAX_RUNTIME_MAPPINGS && 0 < length <= UINTPTR_MAX - address
    ensures var (r, outcome) := MapStep(s, address, length, false);
            outcome == Done ==>
              forall a :: View(r, a) == if address <= a < address + length then Some(false) else View(s, a)
  {
    hide Replace, View, WellFormed;
    AttemptRefines(s, address, address + length, Some(false));
  }

  lemma BreakKeepsHeapPages(h: Heap, page: int, requested: Word, host: Placement, base: int, top: int)
    requires PageSize(page) && HeapInvariant(h, page) && |h.registry| < MAX_RUNTIME_MAPPINGS
    requires base == AlignUp(h.minimum, page)
    requires ExactlyHeapPages(h, base, top)
    ensures ExactlyHeapPages(SetBreak(h, page, requested, host), base, top)
  {
    hide View, UnmapStep, MapStep, WellFormed;
    if h.minimum <= requested < GUEST_MAX_ADDRESS {
      var end := AlignUp(requested, page);
      AlignUpMonotone(h.minimum, requested, page);
      if requested < h.current {
        if end < h.mappingEnd {
          UnmapView(h.registry, end, h.mappingEnd - end);
        }
      } else if h.mappingEnd < end {
        MapView(h.registry, h.mappingEnd, end - h.mappingEnd);
      }
    }
  }

  lemma NextKeepsHeapPages(h: Heap, page: int, e: Event, base: int, top: int)
    requires PageSize(page) && HeapInvariant(h, page)
    requires base == AlignUp(h.minimum, page) && h.mappingEnd <= top
    requires Respects(h, page, e, base, top) && ExactlyHeapPages(h, base, top)
    ensures ExactlyHeapPages(Next(h, page, e), base, top) && Next(h, page, e).mappingEnd <= top
  {
    hide View, SetBreak, Step, WellFormed, TakesEffect, AlignUp;
    match e
    case OtherCall(call) =>
      StepRefines(h.registry, call);
    case BreakCall(requested, host) =>
      BreakKeepsHeapPages(h, page, requested, host, base, top);
      SetBreakIsAllOrNothing(h, page, requested, host);
      SetBreakKeepsInvariant(h, page, requested, host);
  }

  /** From a fresh break over an unused area, every respectful run registers exactly the heap pages. */
  lemma {:induction false} RunRegistersExactlyHeapPages(h: Heap, page: int, events: seq<Event>, top: int)
    requires PageSize(page) && HeapInvariant(h, page)
    requires h.current == h.minimum && h.mappingEnd <= top
    requires forall a :: h.mappingEnd <= a < top ==> View(h.registry, a).None?
    requires AllRespect(h, page, events, h.mappingEnd, top)
    ensures ExactlyHeapPages(RunHeap(h, page, events), h.mappingEnd, top)
    ensures RunHeap(h, page, events).mappingEnd <= top
  {
    if events != [] {
      var front := events[..|events| - 1];
      RunRegistersExactlyHeapPages(h, page, front, top);
      RunKeepsInvariant(h, page, front);
      NextKeepsHeapPages(RunHeap(h, page, front), page, events[|events| - 1], h.mappingEnd, top);
    }
  }
}
