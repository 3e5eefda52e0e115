/**
  A take that is interrupted (src/guest_thread.c): the host handler runs on the same thread and may add signals
  between any two accesses of `guest_thread_take_pending`.
 */
module TakeRace {
  import opened Words
  import opened PendingSignals

  datatype Phase =
    | Reading                                              // about to load the pending word
    | Selected(word: set<int>, number: int)                // word loaded, lowest unmasked signal chosen
    | WithInfo(word: set<int>, number: int, info: Info)    // its information copied
    | Scanning(next: int)                                  // no standard signal seen, rings from `next` on
    | HeadRead(number: int, info: Info)                    // oldest entry of a ring copied
    | Done(taken: Taken)

  datatype State = State(pending: Pending, mask: Mask, phase: Phase)

  datatype Step = HandlerRuns(signal: int, info: Option<Info>) | Advance

  ghost predicate Enabled(s: State, step: Step) {
    step.Advance? ==> !s.phase.Done?
  }

  /** One access of the take, or one run of the handler. */
  ghost function Next(s: State, step: Step): State
    requires Inv(s) && Enabled(s, step)
  {
    if step.HandlerRuns? then s.(pending := Pend(s.pending, step.signal, step.info))
    else
      match s.phase
      case Reading =>
        var low := LowestStandard(s.pending, s.mask);
        s.(phase := if low.Some? then Selected(s.pending.standard.Keys, low.value) else Scanning(FIRST_REALTIME))
      case Selected(word, number) => s.(phase := WithInfo(word, number, s.pending.standard[number]))
      case WithInfo(word, number, info) =>
        if s.pending.standard.Keys == word   // the compare-and-swap
        then s.(pending := s.pending.(standard := s.pending.standard - {number}), phase := Done(Signal(number, info)))
        else s.(phase := Reading)
      case Scanning(next) =>
        if next > LAST_REALTIME then s.(phase := Done(Nothing))
        else if next in s.mask || s.pending.queues[next - FIRST_REALTIME] == [] then s.(phase := Scanning(next + 1))
        else s.(phase := HeadRead(next, s.pending.queues[next - FIRST_REALTIME][0]))
      case HeadRead(number, info) =>
        var k := number - FIRST_REALTIME;
        s.(pending := s.pending.(queues := s.pending.queues[k := s.pending.queues[k][1..]]),
           phase := Done(Signal(number, info)))
      case Done(_) => s
  }

  /** What the taker has copied stays true, because arrivals only add. */
  ghost predicate Inv(s: State) {
    && Shape(s.pending)
    && (s.phase.Selected? || s.phase.WithInfo? ==>
          && s.phase.word <= s.pending.standard.Keys && s.phase.number in s.phase.word
          && LowestFrom(s.phase.word - s.mask, 1) == Some(s.phase.number))
    && (s.phase.WithInfo? ==> s.phase.info == s.pending.standard[s.phase.number])
    && (s.phase.Scanning? ==> FIRST_REALTIME <= s.phase.next)
    && (s.phase.HeadRead? ==>
          && Realtime(s.phase.number) && s.phase.number !in s.mask
          && s.pending.queues[s.phase.number - FIRST_REALTIME] != []
          && s.pending.queues[s.phase.number - FIRST_REALTIME][0] == s.phase.info)
  }

  lemma HandlerKeepsInv(s: State, signal: int, info: Option<Info>)
    requires Inv(s)
    ensures Inv(Next(s, HandlerRuns(signal, info)))
  {
    hide LowestFrom;
    PendKeepsShape(s.pending, signal, info);
  }

  lemma NextKeepsInv(s: State, step: Step)
    requires Inv(s) && Enabled(s, step)
    ensures Inv(Next(s, step))
  {
    hide LowestFrom;
    if step.HandlerRuns? {
      HandlerKeepsInv(s, step.signal, step.info);
    } else if s.phase.Reading? {
      SelectedStandard(s.pending, s.mask);
    }
  }

  /** A compare-and-swap that succeeds is a take of the state it finds: arrivals in between make no difference. */
  lemma SwapIsTake(s: State)
    requires Inv(s) && s.phase.WithInfo? && Next(s, Advance).phase.Done?
    ensures Take(s.pending, s.mask) == (Next(s, Advance).pending, Next(s, Advance).phase.taken)
  {
    hide LowestFrom;
  }

  /** Something that should go first is deliverable: a standard signal, or a lower realtime one. */
  ghost predicate Overtaken(p: Pending, mask: Mask, number: int)
    requires Shape(p)
  {
    exists m :: Deliverable(p, mask, m) && (Standard(m) || m < number)
  }

  /** A realtime entry that is removed is deliverable and the oldest of its number. */
  lemma RealtimeTakeIsOldest(s: State)
    requires Inv(s) && s.phase.HeadRead?
    ensures var n, k := Next(s, Advance), s.phase.number - FIRST_REALTIME;
            && n.phase == Done(Signal(s.phase.number, s.pending.queues[k][0]))
            && Deliverable(s.pending, s.mask, s.phase.number)
            && n.pending == s.pending.(queues := s.pending.queues[k := s.pending.queues[k][1..]])
  {
  }

  /** The realtime half is a take of the state it finds exactly when nothing that goes first has arrived meanwhile. */
  lemma RealtimeTakeIsTakeIff(s: State)
    requires Inv(s) && s.phase.HeadRead?
    ensures Take(s.pending, s.mask) == (Next(s, Advance).pending, Next(s, Advance).phase.taken)
       <==> !Overtaken(s.pending, s.mask, s.phase.number)
  {
    hide LowestStandard, LowestRealtime;
    SelectedStandard(s.pending, s.mask);
    SelectedRealtime(s.pending, s.mask, FIRST_REALTIME);
    RealtimeTakeIsOldest(s);
    var number := s.phase.number;
    if !Overtaken(s.pending, s.mask, number) {
      assert LowestStandard(s.pending, s.mask).None? by {
        var low := LowestStandard(s.pending, s.mask);
        assert low.Some? ==> Deliverable(s.pending, s.mask, low.value);
      }
      var r := LowestRealtime(s.pending, s.mask, FIRST_REALTIME);
      assert r.Some?;
      assert Deliverable(s.pending, s.mask, r.value);
    } else {
      var m :| Deliverable(s.pending, s.mask, m) && (Standard(m) || m < number);
      TakeSelects(s.pending, s.mask);
    }
  }

  // ----- whole takes

  ghost predicate Runs(s: State, steps: seq<Step>)
    requires Inv(s)
    decreases |steps|
  {
    steps == [] || (Enabled(s, steps[0]) && (NextKeepsInv(s, steps[0]); Runs(Next(s, steps[0]), steps[1..])))
  }

  ghost function Final(s: State, steps: seq<Step>): (f: State)
    requires Inv(s) && Runs(s, steps)
    ensures Inv(f)
    decreases |steps|
  {
    if steps == [] then s
    else
      NextKeepsInv(s, steps[0]);
      Final(Next(s, steps[0]), steps[1..])
  }

  // ----- arrivals behind the take

  /**
    The handler adds an unmasked signal that goes before everything the take still looks at: a standard signal once
    the word has been read for the last time, or a realtime signal whose ring has been passed.
   */
  predicate Behind(s: State, step: Step) {
    && step.HandlerRuns? && step.signal !in s.mask
    && (s.phase.Scanning? || s.phase.HeadRead?)
    && (Standard(step.signal)
        || (Realtime(step.signal) && step.signal < if s.phase.Scanning? then s.phase.next else s.phase.number))
  }

  ghost predicate SomeBehind(s: State, steps: seq<Step>)
    requires Inv(s) && Runs(s, steps)
    decreases |steps|
  {
    steps != [] && (Behind(s, steps[0]) || (NextKeepsInv(s, steps[0]); SomeBehind(Next(s, steps[0]), steps[1..])))
  }

  /** Something deliverable that the take has already passed. */
  ghost predicate Passed(s: State)
    requires Inv(s)
  {
    (s.phase.Scanning? || s.phase.HeadRead?)
    && Overtaken(s.pending, s.mask, if s.phase.Scanning? then s.phase.next else s.phase.number)
  }

  lemma HandlerPasses(s: State, step: Step)
    requires Inv(s) && step.HandlerRuns?
    ensures Inv(Next(s, step)) && (Passed(Next(s, step)) <==> Passed(s) || Behind(s, step))
  {
    NextKeepsInv(s, step);
    var n := Next(s, step);
    var bound := if s.phase.Scanning? then s.phase.next else if s.phase.HeadRead? then s.phase.number else 0;
    if Passed(s) {
      var m :| Deliverable(s.pending, s.mask, m) && (Standard(m) || m < bound);
      assert Deliverable(n.pending, n.mask, m);
    }
    if Behind(s, step) {
      assert Deliverable(n.pending, n.mask, step.signal);
    }
    if Passed(n) {
      var m :| Deliverable(n.pending, n.mask, m) && (Standard(m) || m < bound);
      assert Deliverable(s.pending, s.mask, m) || m == step.signal;
    }
  }

  lemma AccessPasses(s: State)
    requires Inv(s) && !s.phase.Done? && !Next(s, Advance).phase.Done?
    ensures Inv(Next(s, Advance)) && (Passed(Next(s, Advance)) <==> Passed(s))
  {
    NextKeepsInv(s, Advance);
    var n := Next(s, Advance);
    hide LowestStandard;
    if s.phase.Reading? {
      SelectedStandard(s.pending, s.mask);
    }
  }

  /** Something has been passed exactly when it arrived behind the take. */
  lemma {:induction false} PassedIffBehind(s: State, steps: seq<Step>)
    requires Inv(s) && Runs(s, steps) && !Final(s, steps).phase.Done?
    ensures Passed(Final(s, steps)) <==> Passed(s) || SomeBehind(s, steps)
    decreases |steps|
  {
    hide Inv, Passed, Behind, Next;
    if steps != [] {
      NextKeepsInv(s, steps[0]);
      var n := Next(s, steps[0]);
      if n.phase.Done? {
        DoneStays(n, steps[1..]);
      } else {
        StepPasses(s, steps[0]);
        PassedIffBehind(n, steps[1..]);
      }
    }
  }

  lemma StepPasses(s: State, step: Step)
    requires Inv(s) && Enabled(s, step) && !Next(s, step).phase.Done?
    ensures Inv(Next(s, step)) && (Passed(Next(s, step)) <==> Passed(s) || Behind(s, step))
  {
    hide Inv, Passed, Next;
    if step.HandlerRuns? {
      HandlerPasses(s, step);
    } else {
      AccessPasses(s);
    }
  }

  lemma {:induction false} DoneStays(s: State, steps: seq<Step>)
    requires Inv(s) && Runs(s, steps) && s.phase.Done?
    ensures Final(s, steps).phase.Done?
    decreases |steps|
  {
    hide Inv;
    if steps != [] {
      NextKeepsInv(s, steps[0]);
      DoneStays(Next(s, steps[0]), steps[1..]);
    }
  }

  /** The last ring has been passed: there is nothing to take exactly when nothing was passed. */
  lemma NothingIsTakeIff(s: State)
    requires Inv(s) && s.phase.Scanning? && s.phase.next > LAST_REALTIME
    ensures Take(s.pending, s.mask) == (s.pending, Nothing) <==> !Passed(s)
  {
    hide LowestStandard, LowestRealtime, Take;
    TakeSelects(s.pending, s.mask);
    assert forall m :: Deliverable(s.pending, s.mask, m) ==> Standard(m) || m < s.phase.next;
  }

  /**
    Whatever arrives between the accesses of a take, it does what a take at the moment of its last access would do
    if and only if nothing arrived behind it. What it takes is deliverable then, with the information of its first
    arrival or the oldest entry of its ring.
   */
  lemma TakeSettlesAtItsLastAccess(s: State, steps: seq<Step>)
    requires Inv(s) && s.phase.Reading? && Runs(s, steps)
    requires var b := Final(s, steps); !b.phase.Done? && Next(b, Advance).phase.Done?
    ensures var b := Final(s, steps);
            var n := Next(b, Advance);
            && (Take(b.pending, b.mask) == (n.pending, n.phase.taken) <==> !SomeBehind(s, steps))
            && (n.phase.taken.Signal? ==>
                  var number, info := n.phase.taken.number, n.phase.taken.info;
                  && Deliverable(b.pending, b.mask, number)
                  && (Standard(number) ==> info == b.pending.standard[number])
                  && (Realtime(number) ==> info == b.pending.queues[number - FIRST_REALTIME][0]))
  {
    hide Runs, SomeBehind, LowestFrom, Take, Overtaken;
    var b := Final(s, steps);
    PassedIffBehind(s, steps);
    if b.phase.WithInfo? {
      SwapIsTake(b);
      TakeSelects(b.pending, b.mask);
    } else if b.phase.HeadRead? {
      RealtimeTakeIsOldest(b);
      RealtimeTakeIsTakeIff(b);
    } else {
      NothingIsTakeIff(b);
    }
  }

  /** A standard signal that arrives behind the load of the word is overtaken by a realtime one that arrives with it. */
  lemma LateStandardIsOvertaken()
    ensures var s := State(Pending(map[], seq(REALTIME_SIGNALS, _ => []), {}), {}, Reading);
            Inv(s)
            && var a := Next(s, Advance);
            Inv(a) && Behind(a, HandlerRuns(5, None))
            && var b := Next(a, HandlerRuns(5, None));
            Inv(b)
            && var c := Next(b, HandlerRuns(32, None));
            Inv(c)
            && var d := Next(c, Advance);
            Inv(d)
            && d.phase == HeadRead(32, Zeroed) && Overtaken(d.pending, d.mask, 32)
            && Next(d, Advance).phase == Done(Signal(32, Zeroed))
            && Take(d.pending, d.mask).1 == Signal(5, Zeroed)
  {
    var s := State(Pending(map[], seq(REALTIME_SIGNALS, _ => []), {}), {}, Reading);
    assert Inv(s);
    SelectedStandard(s.pending, {});
    NextKeepsInv(s, Advance);
    var a := Next(s, Advance);
    assert a.phase == Scanning(FIRST_REALTIME);
    NextKeepsInv(a, HandlerRuns(5, None));
    var b := Next(a, HandlerRuns(5, None));
    NextKeepsInv(b, HandlerRuns(32, None));
    var c := Next(b, HandlerRuns(32, None));
    assert c.pending.queues[0] == [Zeroed];
    NextKeepsInv(c, Advance);
    var d := Next(c, Advance);
    assert Deliverable(d.pending, {}, 5);
    TakeSelects(d.pending, {});
    SelectedStandard(d.pending, {});
    assert LowestStandard(d.pending, {}) == Some(5);
  }

  // ----- a take that is left alone

  /** What the take remembers of the pending word is still true of it. */
  ghost predicate Steady(s: State) {
    Inv(s) && (s.phase.Selected? || s.phase.WithInfo? ==> s.phase.word == s.pending.standard.Keys)
  }

  /** A bound on the accesses a take still needs when nothing arrives. */
  function AccessesLeft(p: Phase): nat {
    match p
    case Reading => 20
    case Selected(_, _) => 3
    case WithInfo(_, _, _) => 2
    case Scanning(next) => if next > LAST_REALTIME then 1 else LAST_REALTIME + 4 - next
    case HeadRead(_, _) => 1
    case Done(_) => 0
  }

  lemma AccessIsCloser(s: State)
    requires Steady(s) && !s.phase.Done?
    ensures var n := Next(s, Advance);
            && Inv(n) && AccessesLeft(n.phase) < AccessesLeft(s.phase) && n.mask == s.mask
            && (!n.phase.Done? ==> n.pending == s.pending && Steady(n))
  {
    hide LowestStandard, LowestFrom;
    NextKeepsInv(s, Advance);
  }

  ghost predicate OnlyAccesses(steps: seq<Step>) {
    forall i :: 0 <= i < |steps| ==> steps[i].Advance?
  }

  lemma {:induction false} ReachesLastAccess(s: State) returns (steps: seq<Step>)
    requires Steady(s) && !s.phase.Done?
    ensures Inv(s) && OnlyAccesses(steps) && Runs(s, steps)
    ensures var b := Final(s, steps);
            b.pending == s.pending && b.mask == s.mask && !b.phase.Done? && Next(b, Advance).phase.Done?
    decreases AccessesLeft(s.phase)
  {
    hide Inv, Next, AccessesLeft;
    AccessIsCloser(s);
    steps := [];
    var n := Next(s, Advance);
    if !n.phase.Done? {
      var rest := ReachesLastAccess(n);
      steps := [Advance] + rest;
      assert steps[1..] == rest;
    }
  }

  lemma {:induction false} NothingBehind(s: State, steps: seq<Step>)
    requires Inv(s) && Runs(s, steps) && OnlyAccesses(steps)
    ensures !SomeBehind(s, steps)
    decreases |steps|
  {
    hide Inv, Next;
    if steps != [] {
      NextKeepsInv(s, steps[0]);
      NothingBehind(Next(s, steps[0]), steps[1..]);
    }
  }

  /** A take that nothing interrupts comes to its end, and its result is that of `Take` on the state it began with. */
  lemma UndisturbedTakeFinishes(s: State) returns (steps: seq<Step>)
    requires Inv(s) && s.phase.Reading?
    ensures OnlyAccesses(steps) && Runs(s, steps) && !Final(s, steps).phase.Done?
    ensures var n := Next(Final(s, steps), Advance);
            n.phase.Done? && Take(s.pending, s.mask) == (n.pending, n.phase.taken)
  {
    hide Inv, Runs, Final, Next, Take, SomeBehind;
    steps := ReachesLastAccess(s);
    NothingBehind(s, steps);
    TakeSettlesAtItsLastAccess(s, steps);
  }
}
