/**
  Pending signals of one thread (src/guest_thread.c): a bit set with one information record per
  standard signal, and a 64-entry ring per realtime signal.
 */
module PendingSignals {
  import opened Words

  const FIRST_REALTIME: int := 32
  const LAST_REALTIME: int := 47
  const REALTIME_SIGNALS: nat := 16
  const QUEUE_LENGTH: nat := 64
  const SIG_ATOMIC_MAX: int := 0x7fff_ffff

  /** A `siginfo_t`: cleared, or as the host reported it. */
  datatype Info = Zeroed | Reported(payload: int)

  /** A 64-bit signal mask as the set of its signal numbers. */
  type Mask = set<int>

  predicate Realtime(signal: int) {
    FIRST_REALTIME <= signal <= LAST_REALTIME
  }

  predicate Standard(signal: int) {
    1 <= signal <= 31
  }

  function OrZeroed(info: Option<Info>): Info {
    if info.Some? then info.value else Zeroed
  }

  /**
    What is pending: standard signals with the information of their first arrival, realtime signals as
    queues, and the numbers above the realtime range, which are recorded but never taken.
   */
  datatype Pending = Pending(standard: map<int, Info>, queues: seq<seq<Info>>, unused: set<int>)

  datatype Taken = Nothing | Signal(number: int, info: Info)

  ghost predicate Shape(p: Pending) {
    && |p.queues| == REALTIME_SIGNALS
    && (forall k :: 0 <= k < REALTIME_SIGNALS ==> |p.queues[k]| <= QUEUE_LENGTH)
    && (forall n :: n in p.standard ==> Standard(n))
  }

  /** `guest_thread_signal_pending` on the abstract state. */
  ghost function Pend(p: Pending, signal: int, info: Option<Info>): Pending
    requires Shape(p)
  {
    if !(1 <= signal <= 64) then p
    else if Realtime(signal) then
      var k := signal - FIRST_REALTIME;
      if |p.queues[k]| < QUEUE_LENGTH
      then p.(queues := p.queues[k := p.queues[k] + [OrZeroed(info)]])
      else p
    else if Standard(signal) then
      if signal in p.standard then p else p.(standard := p.standard[signal := OrZeroed(info)])
    else p.(unused := p.unused + {signal})
  }

  /** The lowest member of a 31-bit word from position n on: `__builtin_ctz`, or None for an empty word. */
  function LowestFrom(word: set<int>, n: int): Option<int>
    decreases 32 - n
  {
    if n > 31 then None else if n in word then Some(n) else LowestFrom(word, n + 1)
  }

  /** The lowest unmasked pending standard signal. */
  ghost function LowestStandard(p: Pending, mask: Mask): Option<int> {
    LowestFrom(p.standard.Keys - mask, 1)
  }

  /** The lowest unmasked realtime signal from n on whose queue is not empty. */
  ghost function LowestRealtime(p: Pending, mask: Mask, n: int): Option<int>
    requires Shape(p) && FIRST_REALTIME <= n
    decreases LAST_REALTIME + 1 - n
  {
    if n > LAST_REALTIME then None
    else if n !in mask && p.queues[n - FIRST_REALTIME] != [] then Some(n)
    else LowestRealtime(p, mask, n + 1)
  }

  /** `guest_thread_take_pending` on the abstract state. */
  ghost function Take(p: Pending, mask: Mask): (Pending, Taken)
    requires Shape(p)
  {
    var s := LowestStandard(p, mask);
    if s.Some? then
      SelectedStandard(p, mask);
      (p.(standard := p.standard - {s.value}), Signal(s.value, p.standard[s.value]))
    else
      var r := LowestRealtime(p, mask, FIRST_REALTIME);
      if r.Some? then
        SelectedRealtime(p, mask, FIRST_REALTIME);
        var k := r.value - FIRST_REALTIME;
        (p.(queues := p.queues[k := p.queues[k][1..]]), Signal(r.value, p.queues[k][0]))
      else (p, Nothing)
  }

  lemma {:induction false} LowestFromIsLowest(word: set<int>, n: int)
    ensures var r := LowestFrom(word, n);
            && (r.Some? ==> r.value in word && n <= r.value <= 31 && forall m :: n <= m < r.value ==> m !in word)
            && (r.None? ==> forall m :: n <= m <= 31 ==> m !in word)
    decreases 32 - n
  {
    if n <= 31 && n !in word {
      LowestFromIsLowest(word, n + 1);
    }
  }

  lemma SelectedStandard(p: Pending, mask: Mask)
    ensures var s := LowestStandard(p, mask);
            && (s.Some? ==> s.value in p.standard && s.value !in mask
                            && forall m :: 1 <= m < s.value ==> !(m in p.standard && m !in mask))
            && (s.None? ==> forall m :: 1 <= m <= 31 ==> !(m in p.standard && m !in mask))
  {
    var word := p.standard.Keys - mask;
    LowestFromIsLowest(word, 1);
    assert forall m :: m in word <==> m in p.standard && m !in mask;
  }

  lemma {:induction false} SelectedRealtime(p: Pending, mask: Mask, n: int)
    requires Shape(p) && FIRST_REALTIME <= n
    ensures var r := LowestRealtime(p, mask, n);
            && (r.Some? ==> Realtime(r.value) && n <= r.value && r.value !in mask
                            && p.queues[r.value - FIRST_REALTIME] != []
                            && forall m :: n <= m < r.value ==> m in mask || p.queues[m - FIRST_REALTIME] == [])
            && (r.None? ==> forall m :: n <= m <= LAST_REALTIME ==> m in mask || p.queues[m - FIRST_REALTIME] == [])
    decreases LAST_REALTIME + 1 - n
  {
    if n <= LAST_REALTIME && !(n !in mask && p.queues[n - FIRST_REALTIME] != []) {
      SelectedRealtime(p, mask, n + 1);
    }
  }

  /** A signal is deliverable: pending, unmasked, and of a kind that is ever taken. */
  ghost predicate Deliverable(p: Pending, mask: Mask, signal: int)
    requires Shape(p)
  {
    && signal !in mask
    && (signal in p.standard || (Realtime(signal) && p.queues[signal - FIRST_REALTIME] != []))
  }

  /**
    Taking returns a deliverable signal if there is one: standard before realtime, lowest number first
    within each kind, and never a masked one.
   */
  lemma TakeSelects(p: Pending, mask: Mask)
    requires Shape(p)
    ensures var (n, t) := Take(p, mask);
            && Shape(n)
            && (t.Nothing? <==> forall m :: !Deliverable(p, mask, m))
            && (t.Nothing? ==> n == p)
            && (t.Signal? ==>
                  && Deliverable(p, mask, t.number)
                  && forall m :: Deliverable(p, mask, m) && m != t.number ==>
                       if Standard(t.number) then Standard(m) ==> t.number < m else !Standard(m) && t.number < m)
  {
    SelectedStandard(p, mask);
    SelectedRealtime(p, mask, FIRST_REALTIME);
    hide LowestStandard, LowestRealtime;
    var (n, t) := Take(p, mask);
    if t.Nothing? {
      forall m ensures !Deliverable(p, mask, m) {
      }
    } else {
      assert Deliverable(p, mask, t.number);
    }
  }

  lemma PendKeepsShape(p: Pending, signal: int, info: Option<Info>)
    requires Shape(p)
    ensures Shape(Pend(p, signal, info))
  {
  }

  // ----- whole runs: FIFO per realtime number, first information per standard signal

  datatype History = Arrive(signal: int, info: Option<Info>) | Collect(mask: Mask)

  /** The pending state together with everything accepted into and taken from each realtime queue. */
  datatype Trace = Trace(pending: Pending, accepted: seq<seq<Info>>, taken: seq<seq<Info>>)

  ghost predicate TraceOk(t: Trace) {
    && Shape(t.pending)
    && |t.accepted| == |t.taken| == REALTIME_SIGNALS
    && forall k :: 0 <= k < REALTIME_SIGNALS ==> t.accepted[k] == t.taken[k] + t.pending.queues[k]
  }

  ghost function Observe(t: Trace, e: History): Trace
    requires Shape(t.pending) && |t.accepted| == |t.taken| == REALTIME_SIGNALS
  {
    match e
    case Arrive(signal, info) =>
      var n := Pend(t.pending, signal, info);
      if Realtime(signal) && n != t.pending
      then t.(pending := n,
              accepted := t.accepted[signal - FIRST_REALTIME :=
                                     t.accepted[signal - FIRST_REALTIME] + [OrZeroed(info)]])
      else t.(pending := n)
    case Collect(mask) =>
      var (n, got) := Take(t.pending, mask);
      if got.Signal? && Realtime(got.number)
      then t.(pending := n,
              taken := t.taken[got.number - FIRST_REALTIME := t.taken[got.number - FIRST_REALTIME] + [got.info]])
      else t.(pending := n)
  }

  lemma ArriveKeepsTrace(t: Trace, signal: int, info: Option<Info>)
    requires TraceOk(t)
    ensures TraceOk(Observe(t, Arrive(signal, info)))
  {
    PendKeepsShape(t.pending, signal, info);
    if Realtime(signal) && |t.pending.queues[signal - FIRST_REALTIME]| < QUEUE_LENGTH {
      var k := signal - FIRST_REALTIME;
      var q := t.pending.queues[k];
      assert Pend(t.pending, signal, info).queues[k] == q + [OrZeroed(info)] != q;
      assert t.taken[k] + (q + [OrZeroed(info)]) == t.accepted[k] + [OrZeroed(info)];
    }
  }

  lemma CollectKeepsTrace(t: Trace, mask: Mask)
    requires TraceOk(t)
    ensures TraceOk(Observe(t, Collect(mask)))
  {
    hide Take, Deliverable;
    TakeSelects(t.pending, mask);
    TakeFromQueue(t.pending, mask);
    var (n, got) := Take(t.pending, mask);
    if got.Signal? && Realtime(got.number) {
      var k := got.number - FIRST_REALTIME;
      var q := t.pending.queues[k];
      assert t.taken[k] + q == (t.taken[k] + [q[0]]) + q[1..];
    }
  }

  lemma ObserveKeepsTrace(t: Trace, e: History)
    requires TraceOk(t)
    ensures TraceOk(Observe(t, e))
  {
    hide TraceOk, Observe;
    match e
    case Arrive(signal, info) => ArriveKeepsTrace(t, signal, info);
    case Collect(mask) => CollectKeepsTrace(t, mask);
  }

  /** A take removes the head of one realtime queue, or touches no queue. */
  lemma TakeFromQueue(p: Pending, mask: Mask)
    requires Shape(p)
    ensures var (n, t) := Take(p, mask);
            if t.Signal? && Realtime(t.number)
            then var k := t.number - FIRST_REALTIME;
                 p.queues[k] != [] && t.info == p.queues[k][0] && n.queues == p.queues[k := p.queues[k][1..]]
            else n.queues == p.queues
  {
    SelectedStandard(p, mask);
    SelectedRealtime(p, mask, FIRST_REALTIME);
    hide LowestStandard, LowestRealtime;
  }

  ghost function Replay(t: Trace, events: seq<History>): Trace
    requires TraceOk(t)
    ensures TraceOk(Replay(t, events))
    decreases |events|
  {
    if events == [] then t
    else
      ObserveKeepsTrace(t, events[0]);
      Replay(Observe(t, events[0]), events[1..])
  }

  ghost function Fresh(): Trace {
    Trace(Pending(map[], seq(REALTIME_SIGNALS, _ => []), {}), seq(REALTIME_SIGNALS, _ => []),
          seq(REALTIME_SIGNALS, _ => []))
  }

  /** In every run the infos taken for a realtime number are a prefix of those accepted for it. */
  lemma {:induction false} TakenIsPrefixOfAccepted(events: seq<History>, k: nat)
    requires k < REALTIME_SIGNALS
    ensures TraceOk(Fresh())
    ensures var t := Replay(Fresh(), events);
            t.taken[k] <= t.accepted[k] && |t.accepted[k]| - |t.taken[k]| <= QUEUE_LENGTH
  {
    var f := Fresh();
    forall j | 0 <= j < REALTIME_SIGNALS ensures f.accepted[j] == f.taken[j] + f.pending.queues[j] {
    }
    var t := Replay(f, events);
    assert TraceOk(t);
  }

  /** No collection in the history takes this signal; it may be unmasked while lower ones are taken. */
  ghost predicate NeverTaken(t: Trace, events: seq<History>, signal: int)
    requires TraceOk(t)
    decreases |events|
  {
    events == [] ||
    (ObserveKeepsTrace(t, events[0]);
     && (events[0].Collect? ==>
           var got := Take(t.pending, events[0].mask).1; got.Signal? ==> got.number != signal)
     && NeverTaken(Observe(t, events[0]), events[1..], signal))
  }

  /** Until a standard signal is taken its information is that of the first arrival, whatever follows. */
  lemma {:induction false} StandardKeepsFirstInfo(t: Trace, events: seq<History>, signal: int)
    requires TraceOk(t) && signal in t.pending.standard && NeverTaken(t, events, signal)
    ensures var f := Replay(t, events);
            signal in f.pending.standard && f.pending.standard[signal] == t.pending.standard[signal]
    decreases |events|
  {
    hide Take, Observe;
    if events != [] {
      ObserveKeepsTrace(t, events[0]);
      ObserveKeepsInfo(t, events[0], signal);
      StandardKeepsFirstInfo(Observe(t, events[0]), events[1..], signal);
    }
  }

  lemma ObserveKeepsInfo(t: Trace, e: History, signal: int)
    requires TraceOk(t) && signal in t.pending.standard
    requires e.Collect? ==> var got := Take(t.pending, e.mask).1; got.Signal? ==> got.number != signal
    ensures var n := Observe(t, e);
            signal in n.pending.standard && n.pending.standard[signal] == t.pending.standard[signal]
  {
    hide Take;
    if e.Collect? {
      TakeLeavesOthers(t.pending, e.mask, signal);
    }
  }

  /**
    A standard signal that was not pending is taken with the information of its first arrival, whatever arrives or is
    taken in between.
   */
  lemma FirstArrivalIsTaken(t: Trace, signal: int, info: Option<Info>, events: seq<History>, mask: Mask)
    requires TraceOk(t) && Standard(signal) && signal !in t.pending.standard
    requires TraceOk(Observe(t, Arrive(signal, info))) && NeverTaken(Observe(t, Arrive(signal, info)), events, signal)
    ensures var got := Take(Replay(Observe(t, Arrive(signal, info)), events).pending, mask).1;
            && (got.Signal? && got.number == signal ==> got.info == OrZeroed(info))
            && (signal !in mask ==> got.Signal? && got.number <= signal)
  {
    hide Take, Replay, NeverTaken, Deliverable;
    var n := Observe(t, Arrive(signal, info));
    StandardKeepsFirstInfo(n, events, signal);
    var p := Replay(n, events).pending;
    TakesStored(p, mask, signal);
  }

  lemma TakesStored(p: Pending, mask: Mask, signal: int)
    requires Shape(p) && signal in p.standard
    ensures var got := Take(p, mask).1;
            && (got.Signal? && got.number == signal ==> got.info == p.standard[signal])
            && (signal !in mask ==> got.Signal? && got.number <= signal)
  {
    hide LowestStandard, LowestRealtime;
    SelectedStandard(p, mask);
    SelectedRealtime(p, mask, FIRST_REALTIME);
  }

  /** A realtime arrival is accepted, at the end of its queue, exactly while fewer than 64 are outstanding. */
  lemma ArrivalIsAcceptedIff(t: Trace, signal: int, info: Option<Info>)
    requires TraceOk(t) && Realtime(signal)
    ensures var n, k := Observe(t, Arrive(signal, info)), signal - FIRST_REALTIME;
            && n.taken == t.taken
            && n.accepted[k] == (if |t.accepted[k]| < |t.taken[k]| + 64 then t.accepted[k] + [OrZeroed(info)]
                                 else t.accepted[k])
            && forall j :: 0 <= j < REALTIME_SIGNALS && j != k ==> n.accepted[j] == t.accepted[j]
  {
    var k := signal - FIRST_REALTIME;
    var q := t.pending.queues[k];
    assert |t.accepted[k]| == |t.taken[k]| + |q|;
    if |q| < QUEUE_LENGTH {
      assert Pend(t.pending, signal, info).queues[k] == q + [OrZeroed(info)] != q;
    }
  }

  /** A take leaves every standard signal but the one it returns. */
  lemma TakeLeavesOthers(p: Pending, mask: Mask, signal: int)
    requires Shape(p) && signal in p.standard
    requires var got := Take(p, mask).1; got.Signal? ==> got.number != signal
    ensures var (n, _) := Take(p, mask); signal in n.standard && n.standard[signal] == p.standard[signal]
  {
    hide LowestStandard, LowestRealtime;
    SelectedStandard(p, mask);
    SelectedRealtime(p, mask, FIRST_REALTIME);
  }

  // ----- the thread's own fields

  class ThreadSignals {
    var pendingLow: set<int>                  // pending_signals[0]
    var pendingHigh: set<int>                 // pending_signals[1]
    const information: array<Info>            // pending_information[31]
    const head: array<int>                    // realtime_head[16]
    const tail: array<int>                    // realtime_tail[16]
    const rings: array2<Info>                 // realtime_information[16][64]
    var mask: Mask

    ghost predicate Valid()
      reads this, head, tail
    {
      && information.Length == 31 && head.Length == tail.Length == REALTIME_SIGNALS && head != tail
      && rings.Length0 == REALTIME_SIGNALS && rings.Length1 == QUEUE_LENGTH
      && (forall n :: n in pendingLow ==> Standard(n))
      && forall k :: 0 <= k < REALTIME_SIGNALS ==> 0 <= head[k] <= tail[k] <= head[k] + QUEUE_LENGTH
    }

    /** The live part of one ring, oldest entry first. */
    ghost function Queue(k: nat): seq<Info>
      requires Valid() && k < REALTIME_SIGNALS
      reads this, head, tail, rings
    {
      seq(tail[k] - head[k], i requires 0 <= i < tail[k] - head[k] reads this, head, tail, rings =>
        rings[k, (head[k] + i) % QUEUE_LENGTH])
    }

    ghost function Queues(n: nat): (r: seq<seq<Info>>)
      requires Valid() && n <= REALTIME_SIGNALS
      reads this, head, tail, rings
      ensures |r| == n && forall k :: 0 <= k < n ==> r[k] == Queue(k)
    {
      if n == 0 then [] else Queues(n - 1) + [Queue(n - 1)]
    }

    ghost function State(): (p: Pending)
      requires Valid()
      reads this, information, head, tail, rings
      ensures Shape(p)
    {
      Pending(map n | n in pendingLow :: information[n - 1],
              Queues(REALTIME_SIGNALS),
              pendingHigh)
    }

    constructor ()
      ensures Valid() && State() == Fresh().pending && mask == {}
    {
      pendingLow, pendingHigh, mask := {}, {}, {};
      information := new Info[31](_ => Zeroed);
      head := new int[REALTIME_SIGNALS](_ => 0);
      tail := new int[REALTIME_SIGNALS](_ => 0);
      rings := new Info[REALTIME_SIGNALS, QUEUE_LENGTH]((_, _) => Zeroed);
    }

    /** The queues depend on the ring fields alone. */
    twostate lemma QueuesKept(was: Pending)
      requires old(Valid()) && Valid() && old(State()) == was
      requires unchanged(head, tail, rings)
      ensures State().queues == was.queues
    {
      forall k | 0 <= k < REALTIME_SIGNALS ensures Queue(k) == old(Queue(k)) {
      }
    }

    /** Push into one ring: the slot behind the newest entry is free whenever the ring is not full. */
    method Push(k: nat, info: Info)
      requires Valid() && k < REALTIME_SIGNALS && tail[k] < SIG_ATOMIC_MAX
      modifies tail, rings
      ensures Valid()
      ensures forall j :: 0 <= j < REALTIME_SIGNALS ==>
                Queue(j) == if j == k && |old(Queue(k))| < QUEUE_LENGTH then old(Queue(j)) + [info] else old(Queue(j))
    {
      var last := tail[k];
      if last - head[k] < QUEUE_LENGTH {
        rings[k, last % QUEUE_LENGTH] := info;
        tail[k] := last + 1;
        forall j | 0 <= j < REALTIME_SIGNALS && j != k ensures Queue(j) == old(Queue(j)) {
        }
        forall i | head[k] <= i < last ensures i % QUEUE_LENGTH != last % QUEUE_LENGTH {
          SlotsDiffer(i, last);
        }
        assert Queue(k) == old(Queue(k)) + [info];
      }
    }

    /** Remove the oldest entry of one ring. */
    method Pop(k: nat) returns (info: Info)
      requires Valid() && k < REALTIME_SIGNALS && head[k] != tail[k]
      modifies head
      ensures Valid() && old(Queue(k)) != [] && info == old(Queue(k))[0]
      ensures forall j :: 0 <= j < REALTIME_SIGNALS ==>
                Queue(j) == if j == k then old(Queue(k))[1..] else old(Queue(j))
    {
      info := rings[k, head[k] % QUEUE_LENGTH];
      head[k] := head[k] + 1;
      forall j | 0 <= j < REALTIME_SIGNALS && j != k ensures Queue(j) == old(Queue(j)) {
      }
      assert Queue(k) == old(Queue(k))[1..];
    }

    /** `guest_thread_signal_pending`, without its wake-ups. */
    method SignalPending(signal: int, info: Option<Info>)
      requires Valid()
      requires Realtime(signal) ==> tail[signal - FIRST_REALTIME] < SIG_ATOMIC_MAX
      modifies this, information, tail, rings
      ensures Valid() && mask == old(mask)
      ensures State() == Pend(old(State()), signal, info)
    {
      ghost var was := State();
      if signal > 0 && signal <= 64 {
        if Realtime(signal) {
          Push(signal - FIRST_REALTIME, OrZeroed(info));
          assert State().standard == was.standard;
          assert State().queues == Pend(was, signal, info).queues;
        } else {
          if signal <= 31 && signal !in pendingLow {
            information[signal - 1] := OrZeroed(info);
          }
          if signal <= 31 {
            pendingLow := pendingLow + {signal};
          } else {
            pendingHigh := pendingHigh + {signal};
          }
          QueuesKept(was);
          assert State().standard == Pend(was, signal, info).standard;
        }
      }
    }

    /** `guest_thread_take_pending`; the compare-and-swap of the source is one assignment here. */
    method TakePending() returns (taken: Taken)
      requires Valid()
      modifies this, head
      ensures Valid() && mask == old(mask)
      ensures (State(), taken) == Take(old(State()), mask)
    {
      hide LowestFrom;
      ghost var was := State();
      assert was.standard.Keys == pendingLow;
      var lowest := LowestFrom(pendingLow - mask, 1);
      SelectedStandard(was, mask);
      if lowest.Some? {
        pendingLow := pendingLow - {lowest.value};
        QueuesKept(was);
        assert State().standard == was.standard - {lowest.value};
        return Signal(lowest.value, information[lowest.value - 1]);
      }
      var signal := FIRST_REALTIME;
      while signal <= LAST_REALTIME
        invariant FIRST_REALTIME <= signal <= LAST_REALTIME + 1 && State() == was
        invariant LowestRealtime(was, mask, FIRST_REALTIME) == LowestRealtime(was, mask, signal)
      {
        var k := signal - FIRST_REALTIME;
        if signal !in mask && head[k] != tail[k] {
          assert was.queues[k] == Queue(k) != [];
          var info := Pop(k);
          assert State().standard == was.standard;
          assert State().queues == was.queues[k := was.queues[k][1..]];
          return Signal(signal, info);
        }
        assert was.queues[k] == Queue(k);
        signal := signal + 1;
      }
      return Nothing;
    }
  }

  /** Fewer than 64 positions apart, two ring positions use different slots. */
  lemma SlotsDiffer(i: int, j: int)
    requires 0 <= i < j < i + QUEUE_LENGTH
    ensures i % QUEUE_LENGTH != j % QUEUE_LENGTH
  {
  }
}
