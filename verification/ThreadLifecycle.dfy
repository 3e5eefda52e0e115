/**
  Clone, start and exit of guest threads (src/guest_thread.c): who may touch a thread's state object
  and when, in every interleaving of the creating thread, the created thread and directed signals.
 */
module ThreadLifecycle {
  import opened Words

  type Id = nat

  /** How far `guest_thread_clone` has got with the new state object. */
  datatype Creator =
    | Building            // calloc'd and being filled in
    | Spawned             // pthread_create succeeded
    | Linked              // on the registry
    | ParentTidWritten    // CLONE_PARENT_SETTID stored
    | ReleasedChild       // start = 1
    | Abandoned           // pthread_create failed, state freed

  /** How far the created thread has got in `guest_thread_start` and `finish_guest_thread`. */
  datatype Child =
    | NotBorn
    | Spinning            // while (!state->start)
    | StoringTid          // start seen, CLONE_CHILD_SETTID store next
    | InGuest
    | Exiting             // back on the native stack
    | Unmapped            // deferred stack unmap done
    | OffRegistry         // unlinked
    | TidCleared          // child TID word set to 0
    | Woken               // futex wake-all done
    | Freed

  /**
    The state object. `parentTid` and `childTid` are where clone asked the new TID to be stored, `clearTid`
    is the word cleared at exit.
   */
  datatype Thread = Thread(creator: Creator, child: Child, start: bool, live: bool, unmapPending: bool,
                           tid: Word, parentTid: Option<Word>, childTid: Option<Word>, clearTid: Option<Word>)

  /** `fault` records a touch of a state object after it was freed. */
  datatype State = State(threads: map<Id, Thread>, registry: seq<Id>, memory: map<Word, Word>, fault: bool)

  datatype Step =
    | Allocate(t: Id, tid: Word, parentTid: Option<Word>, childTid: Option<Word>, clearTid: Option<Word>)
    | CreateFails(t: Id)
    | Create(t: Id)
    | Link(t: Id)
    | WriteParentTid(t: Id)
    | Release(t: Id)
    | SeeStart(t: Id)
    | EnterGuest(t: Id)
    | DeferUnmap(t: Id)
    | SetTidAddress(t: Id, word: Option<Word>)
    | BeginExit(t: Id)
    | UnmapDeferred(t: Id)
    | Unlink(t: Id)
    | ClearTid(t: Id)
    | WakeJoiners(t: Id)
    | Free(t: Id)
    | Kill
    | Store(address: Word, value: Word)

  function Without(registry: seq<Id>, t: Id): seq<Id> {
    if registry == [] then []
    else if registry[0] == t then registry[1..]
    else [registry[0]] + Without(registry[1..], t)
  }

  predicate CreatorAt(s: State, t: Id, c: Creator) {
    t in s.threads && s.threads[t].creator == c
  }

  predicate ChildAt(s: State, t: Id, c: Child) {
    t in s.threads && s.threads[t].child == c
  }

  predicate Enabled(s: State, step: Step) {
    match step
    case Allocate(t, tid, _, _, _) => t !in s.threads && tid != 0
    case CreateFails(t) => CreatorAt(s, t, Building)
    case Create(t) => CreatorAt(s, t, Building)
    case Link(t) => CreatorAt(s, t, Spawned)
    case WriteParentTid(t) => CreatorAt(s, t, Linked)
    case Release(t) => CreatorAt(s, t, ParentTidWritten)
    case SeeStart(t) => ChildAt(s, t, Spinning) && s.threads[t].start
    case EnterGuest(t) => ChildAt(s, t, StoringTid)
    case DeferUnmap(t) => ChildAt(s, t, InGuest)
    case SetTidAddress(t, _) => ChildAt(s, t, InGuest)
    case BeginExit(t) => ChildAt(s, t, InGuest)
    case UnmapDeferred(t) => ChildAt(s, t, Exiting)
    case Unlink(t) => ChildAt(s, t, Unmapped)
    case ClearTid(t) => ChildAt(s, t, OffRegistry)
    case WakeJoiners(t) => ChildAt(s, t, TidCleared)
    case Free(t) => ChildAt(s, t, Woken)
    case Kill => true
    case Store(_, _) => true
  }

  /** The steps that work on one thread's state object. */
  predicate ObjectStep(step: Step) {
    !step.Allocate? && !step.Kill? && !step.Store?
  }

  /** Replace t's object; every use of the object faults if it has been freed. */
  function Touch(s: State, t: Id, th: Thread): State
    requires t in s.threads
  {
    s.(threads := s.threads[t := th], fault := s.fault || !s.threads[t].live)
  }

  /** What a step does to the object it works on. */
  function Advance(th: Thread, step: Step): Thread
    requires ObjectStep(step)
  {
    match step
    case CreateFails(_) => th.(creator := Abandoned, live := false)
    case Create(_) => th.(creator := Spawned, child := Spinning)
    case Link(_) => th.(creator := Linked)
    case WriteParentTid(_) => th.(creator := ParentTidWritten)
    case Release(_) => th.(creator := ReleasedChild, start := true)
    case SeeStart(_) => th.(child := StoringTid)
    case EnterGuest(_) => th.(child := InGuest)
    case DeferUnmap(_) => th.(unmapPending := true)
    case SetTidAddress(_, word) => th.(clearTid := word)
    case BeginExit(_) => th.(child := Exiting)
    case UnmapDeferred(_) => th.(child := Unmapped, unmapPending := false)
    case Unlink(_) => th.(child := OffRegistry)
    case ClearTid(_) => th.(child := TidCleared)
    case WakeJoiners(_) => th.(child := Woken)
    case Free(_) => th.(child := Freed, live := false)
  }

  /** The word a step stores into and what it stores there. */
  function Stored(s: State, step: Step): Option<(Word, Word)>
    requires Enabled(s, step)
  {
    if step.Store? then Some((step.address, step.value))
    else if !ObjectStep(step) then None
    else
      var th := s.threads[step.t];
      if step.WriteParentTid? && th.parentTid.Some? then Some((th.parentTid.value, th.tid))
      else if step.EnterGuest? && th.childTid.Some? then Some((th.childTid.value, th.tid))
      else if step.ClearTid? && th.clearTid.Some? then Some((th.clearTid.value, 0))
      else None
  }

  function MemoryAfter(s: State, step: Step): map<Word, Word>
    requires Enabled(s, step)
  {
    var w := Stored(s, step);
    if w.Some? then s.memory[w.value.0 := w.value.1] else s.memory
  }

  function Next(s: State, step: Step): State
    requires Enabled(s, step)
  {
    if step.Allocate? then
      s.(threads := s.threads[step.t := Thread(Building, NotBorn, false, true, false, step.tid, step.parentTid,
                                               step.childTid, step.clearTid)])
    else if step.Kill? then
      // guest_thread_kill walks the registry under its lock
      s.(fault := s.fault || exists i :: 0 <= i < |s.registry|
                                         && (s.registry[i] !in s.threads || !s.threads[s.registry[i]].live))
    else if step.Store? then s.(memory := MemoryAfter(s, step))
    else
      var n := Touch(s, step.t, Advance(s.threads[step.t], step)).(memory := MemoryAfter(s, step));
      if step.Link? then n.(registry := [step.t] + s.registry)
      else if step.Unlink? then n.(registry := Without(s.registry, step.t))
      else n
  }

  // ----- invariant

  predicate Past(c: Child, d: Child) {
    Rank(c) >= Rank(d)
  }

  function Rank(c: Child): nat {
    match c
    case NotBorn => 0
    case Spinning => 1
    case StoringTid => 2
    case InGuest => 3
    case Exiting => 4
    case Unmapped => 5
    case OffRegistry => 6
    case TidCleared => 7
    case Woken => 8
    case Freed => 9
  }

  predicate ThreadOk(th: Thread, listed: bool) {
    && th.tid != 0
    && th.live == (!th.child.Freed? && !th.creator.Abandoned?)
    && (th.creator.Building? || th.creator.Abandoned? <==> th.child.NotBorn?)
    && th.start == th.creator.ReleasedChild?
    && (Past(th.child, StoringTid) ==> th.creator.ReleasedChild?)
    && listed == ((th.creator.Linked? || th.creator.ParentTidWritten? || th.creator.ReleasedChild?)
                  && !Past(th.child, OffRegistry))
    && (Past(th.child, Unmapped) ==> !th.unmapPending)
  }

  ghost predicate Inv(s: State) {
    && !s.fault
    && (forall i, j :: 0 <= i < j < |s.registry| ==> s.registry[i] != s.registry[j])
    && (forall t :: t in s.registry ==> t in s.threads)
    && forall t :: t in s.threads ==> ThreadOk(s.threads[t], t in s.registry)
  }

  ghost predicate Init(s: State) {
    s.threads == map[] && s.registry == [] && !s.fault
  }

  lemma {:induction false} WithoutMembers(registry: seq<Id>, t: Id, u: Id)
    requires forall i, j :: 0 <= i < j < |registry| ==> registry[i] != registry[j]
    ensures u in Without(registry, t) <==> u in registry && u != t
  {
    if registry != [] {
      WithoutMembers(registry[1..], t, u);
      assert registry == [registry[0]] + registry[1..];
    }
  }

  lemma {:induction false} WithoutDistinct(registry: seq<Id>, t: Id)
    requires forall i, j :: 0 <= i < j < |registry| ==> registry[i] != registry[j]
    ensures forall i, j :: 0 <= i < j < |Without(registry, t)| ==> Without(registry, t)[i] != Without(registry, t)[j]
  {
    if registry != [] {
      WithoutDistinct(registry[1..], t);
      WithoutMembers(registry[1..], t, registry[0]);
      assert registry[0] !in registry[1..];
    }
  }

  predicate StartsFrom(th: Thread, step: Step)
    requires ObjectStep(step)
  {
    match step
    case CreateFails(_) => th.creator.Building?
    case Create(_) => th.creator.Building?
    case Link(_) => th.creator.Spawned?
    case WriteParentTid(_) => th.creator.Linked?
    case Release(_) => th.creator.ParentTidWritten?
    case SeeStart(_) => th.child.Spinning? && th.start
    case EnterGuest(_) => th.child.StoringTid?
    case DeferUnmap(_) => th.child.InGuest?
    case SetTidAddress(_, _) => th.child.InGuest?
    case BeginExit(_) => th.child.InGuest?
    case UnmapDeferred(_) => th.child.Exiting?
    case Unlink(_) => th.child.Unmapped?
    case ClearTid(_) => th.child.OffRegistry?
    case WakeJoiners(_) => th.child.TidCleared?
    case Free(_) => th.child.Woken?
  }

  lemma AdvanceKeepsThreadOk(th: Thread, listed: bool, step: Step)
    requires ObjectStep(step) && ThreadOk(th, listed) && StartsFrom(th, step)
    ensures th.live
    ensures ThreadOk(Advance(th, step), if step.Link? then true else if step.Unlink? then false else listed)
    ensures step.Link? ==> !listed
  {
  }

  /** The invariant after one object and perhaps its place on the registry changed. */
  lemma OneChanges(s: State, n: State, t: Id)
    requires Inv(s) && !n.fault && t in n.threads && ThreadOk(n.threads[t], t in n.registry)
    requires forall u :: u != t ==> (u in n.registry <==> u in s.registry)
    requires forall u :: u != t ==> (u in n.threads <==> u in s.threads)
    requires forall u :: u in s.threads && u != t ==> n.threads[u] == s.threads[u]
    requires forall i, j :: 0 <= i < j < |n.registry| ==> n.registry[i] != n.registry[j]
    ensures Inv(n)
  {
    hide ThreadOk;
  }

  lemma NextKeepsInv(s: State, step: Step)
    requires Inv(s) && Enabled(s, step)
    ensures Inv(Next(s, step))
  {
    var n := Next(s, step);
    if step.Allocate? {
      OneChanges(s, n, step.t);
    } else if step.Store? {
    } else if step.Kill? {
      forall i | 0 <= i < |s.registry| ensures s.registry[i] in s.threads && s.threads[s.registry[i]].live {
        assert s.registry[i] in s.registry;
      }
    } else {
      ObjectStepKeepsInv(s, step);
    }
  }

  lemma ObjectStepKeepsInv(s: State, step: Step)
    requires Inv(s) && Enabled(s, step) && ObjectStep(step)
    ensures Inv(Next(s, step))
  {
    hide ThreadOk, Without, Advance, MemoryAfter;
    var t, n := step.t, Next(s, step);
    AdvanceKeepsThreadOk(s.threads[t], t in s.registry, step);
    if step.Unlink? {
      WithoutDistinct(s.registry, t);
      forall u ensures u in n.registry <==> u in s.registry && u != t {
        WithoutMembers(s.registry, t, u);
      }
    } else if step.Link? {
      assert forall u :: u in n.registry <==> u == t || u in s.registry;
    }
    OneChanges(s, n, t);
  }

  /** A run of any steps in any order the program allows. */
  ghost predicate Runs(s: State, steps: seq<Step>)
    decreases |steps|
  {
    steps == [] || (Enabled(s, steps[0]) && Runs(Next(s, steps[0]), steps[1..]))
  }

  ghost function Final(s: State, steps: seq<Step>): State
    requires Runs(s, steps)
    decreases |steps|
  {
    if steps == [] then s else Final(Next(s, steps[0]), steps[1..])
  }

  lemma {:induction false} RunKeepsInv(s: State, steps: seq<Step>)
    requires Inv(s) && Runs(s, steps)
    ensures Inv(Final(s, steps))
    decreases |steps|
  {
    hide Inv, Next, Enabled;
    if steps != [] {
      NextKeepsInv(s, steps[0]);
      RunKeepsInv(Next(s, steps[0]), steps[1..]);
    }
  }

  /**
    In every reachable state: nobody has touched a freed state object; a thread that has run guest code
    and not begun to exit is on the registry; and its creator is finished with it once it can run.
   */
  lemma LifecycleIsOrdered(s: State, steps: seq<Step>)
    requires Init(s) && Runs(s, steps)
    ensures var f := Final(s, steps);
            && !f.fault
            && forall t :: t in f.threads ==>
                 var th := f.threads[t];
                 && (th.child.InGuest? ==> t in f.registry && th.creator.ReleasedChild?)
                 && (!th.live ==> t !in f.registry && (th.creator.ReleasedChild? || th.creator.Abandoned?))
  {
    hide Runs, Final, Next, Enabled, Without;
    RunKeepsInv(s, steps);
  }

  // ----- what the TID word tells

  /** The thread's TID has been stored at this address, by its creator or by itself. */
  predicate TidStoredAt(th: Thread, w: Word) {
    || (th.parentTid == Some(w) && (th.creator.ParentTidWritten? || th.creator.ReleasedChild?))
    || (th.childTid == Some(w) && Past(th.child, InGuest))
  }

  predicate Cleared(th: Thread, w: Word) {
    Past(th.child, TidCleared) && th.clearTid == Some(w)
  }

  /** While t exists nobody else stores into the word. */
  ghost predicate Undisturbed(s: State, steps: seq<Step>, t: Id, w: Word)
    requires Runs(s, steps)
    decreases |steps|
  {
    steps == [] ||
    (&& (t in s.threads && Stored(s, steps[0]).Some? && Stored(s, steps[0]).value.0 == w ==>
           ObjectStep(steps[0]) && steps[0].t == t)
     && Undisturbed(Next(s, steps[0]), steps[1..], t, w))
  }

  predicate WordOk(s: State, t: Id, w: Word) {
    t in s.threads ==>
      var th := s.threads[t];
      && (Cleared(th, w) ==> Load(s.memory, w) == 0)
      && (!Cleared(th, w) && TidStoredAt(th, w) ==> Load(s.memory, w) == th.tid)
  }

  lemma OwnStoreKeepsWord(th: Thread, listed: bool, step: Step, w: Word)
    requires ObjectStep(step) && StartsFrom(th, step) && ThreadOk(th, listed)
    ensures var v := Advance(th, step);
            && v.tid == th.tid
            && (Cleared(v, w) ==> Cleared(th, w) || (step.ClearTid? && th.clearTid == Some(w)))
            && (!Cleared(v, w) && TidStoredAt(v, w) ==>
                  || (!Cleared(th, w) && TidStoredAt(th, w))
                  || (step.WriteParentTid? && th.parentTid == Some(w))
                  || (step.EnterGuest? && th.childTid == Some(w)))
            && (step.WriteParentTid? || step.EnterGuest? ==> !Cleared(v, w))
            && (step.ClearTid? && th.clearTid == Some(w) ==> Cleared(v, w))
  {
  }

  lemma EnabledStarts(s: State, step: Step)
    requires Enabled(s, step) && ObjectStep(step)
    ensures step.t in s.threads && StartsFrom(s.threads[step.t], step)
  {
  }

  lemma OwnStepKeepsWord(s: State, step: Step, w: Word)
    requires Inv(s) && Enabled(s, step) && ObjectStep(step) && WordOk(s, step.t, w)
    ensures WordOk(Next(s, step), step.t, w)
  {
    hide Advance, Cleared, TidStoredAt, Without, StartsFrom, ThreadOk;
    EnabledStarts(s, step);
    OwnStoreKeepsWord(s.threads[step.t], step.t in s.registry, step, w);
  }

  lemma OtherStepKeepsWord(s: State, step: Step, t: Id, w: Word)
    requires Enabled(s, step) && WordOk(s, t, w) && t in s.threads && !(ObjectStep(step) && step.t == t)
    requires Stored(s, step).Some? ==> Stored(s, step).value.0 != w
    ensures t in Next(s, step).threads && WordOk(Next(s, step), t, w)
  {
    hide Advance, Cleared, TidStoredAt, Without;
  }

  lemma {:induction false} RunKeepsWord(s: State, steps: seq<Step>, t: Id, w: Word)
    requires Inv(s) && Runs(s, steps) && Undisturbed(s, steps, t, w) && WordOk(s, t, w)
    ensures WordOk(Final(s, steps), t, w)
    decreases |steps|
  {
    hide Inv, Next, Enabled, WordOk, Stored;
    if steps != [] {
      NextKeepsInv(s, steps[0]);
      StepKeepsWord(s, steps[0], t, w);
      RunKeepsWord(Next(s, steps[0]), steps[1..], t, w);
    }
  }

  lemma StepKeepsWord(s: State, step: Step, t: Id, w: Word)
    requires Inv(s) && Enabled(s, step) && WordOk(s, t, w)
    requires t in s.threads && Stored(s, step).Some? && Stored(s, step).value.0 == w ==> ObjectStep(step) && step.t == t
    ensures WordOk(Next(s, step), t, w)
  {
    hide Inv, Next, Enabled, WordOk, Stored;
    if t !in s.threads {
      NewThreadHasNoWord(s, step, t, w);
    } else if ObjectStep(step) && step.t == t {
      OwnStepKeepsWord(s, step, w);
    } else {
      OtherStepKeepsWord(s, step, t, w);
    }
  }

  lemma NewThreadHasNoWord(s: State, step: Step, t: Id, w: Word)
    requires Enabled(s, step) && t !in s.threads
    ensures WordOk(Next(s, step), t, w)
  {
    hide Advance, Without;
  }

  /**
    Once a thread's TID has been stored in the word it clears, and nobody else writes there: the word is 0
    exactly when the thread has cleared it, and whoever loads 0 (which is how a join ends) finds the thread's
    stack unmapped and the thread off the registry.
   */
  lemma ZeroTidMeansRetired(s: State, steps: seq<Step>, t: Id, w: Word)
    requires Init(s) && Runs(s, steps) && Undisturbed(s, steps, t, w)
    requires var f := Final(s, steps);
             t in f.threads && f.threads[t].clearTid == Some(w) && TidStoredAt(f.threads[t], w)
    ensures var f := Final(s, steps);
            && (Load(f.memory, w) == 0 <==> Past(f.threads[t].child, TidCleared))
            && (Load(f.memory, w) == 0 ==> !f.threads[t].unmapPending && t !in f.registry)
  {
    hide Runs, Undisturbed, Final, Next, Enabled, Without;
    RunKeepsInv(s, steps);
    RunKeepsWord(s, steps, t, w);
  }

  // ----- a whole life

  /** One object step more at the end of a run, with its effect. */
  lemma {:induction false} Continue(s: State, path: seq<Step>, m: State, step: Step) returns (n: State)
    requires Runs(s, path) && Final(s, path) == m && Enabled(m, step)
    ensures n == Next(m, step) && Runs(s, path + [step]) && Final(s, path + [step]) == n
    decreases |path|
  {
    hide Enabled, Next;
    n := Next(m, step);
    if path == [] {
      assert path + [step] == [step] && [step][1..] == [];
    } else {
      assert (path + [step])[1..] == path[1..] + [step];
      n := Continue(Next(s, path[0]), path[1..], m, step);
    }
  }

  function Put(memory: map<Word, Word>, at: Option<Word>, value: Word): map<Word, Word> {
    if at.Some? then memory[at.value := value] else memory
  }

  /** The steps of a clone that succeeds, up to the first guest instruction of the new thread. */
  function BirthSteps(t: Id, tid: Word, parentTid: Option<Word>, childTid: Option<Word>, clearTid: Option<Word>)
    : seq<Step>
  {
    [Allocate(t, tid, parentTid, childTid, clearTid), Create(t), Link(t), WriteParentTid(t), Release(t), SeeStart(t),
     EnterGuest(t)]
  }

  function ExitSteps(t: Id): seq<Step> {
    [BeginExit(t), UnmapDeferred(t), Unlink(t), ClearTid(t), WakeJoiners(t), Free(t)]
  }

  /** One object step more, with its effect on the object, the registry and the memory. */
  lemma ContinueObject(s: State, path: seq<Step>, m: State, step: Step) returns (n: State)
    requires Runs(s, path) && Final(s, path) == m && ObjectStep(step) && Enabled(m, step) && m.threads[step.t].live
    ensures step.t in m.threads && Runs(s, path + [step]) && Final(s, path + [step]) == n
    ensures n == State(m.threads[step.t := Advance(m.threads[step.t], step)], RegistryAfter(m.registry, step),
                       MemoryAfter(m, step), m.fault)
  {
    hide Runs, Final, MemoryAfter, Advance, Without;
    n := Continue(s, path, m, step);
  }

  function RegistryAfter(registry: seq<Id>, step: Step): seq<Id> {
    if step.Link? then [step.t] + registry else if step.Unlink? then Without(registry, step.t) else registry
  }

  /** A state that differs from s in one object, the registry and the memory. */
  function With(s: State, t: Id, th: Thread, registry: seq<Id>, memory: map<Word, Word>): State {
    State(s.threads[t := th], registry, memory, s.fault)
  }

  lemma Nothing(s: State)
    ensures Runs(s, []) && Final(s, []) == s
  {
  }

  lemma SpawnRuns(s: State, t: Id, tid: Word, parentTid: Option<Word>, childTid: Option<Word>, clearTid: Option<Word>)
    requires t !in s.threads && tid != 0
    ensures var steps := BirthSteps(t, tid, parentTid, childTid, clearTid)[..3];
            var th := Thread(Linked, Spinning, false, true, false, tid, parentTid, childTid, clearTid);
            Runs(s, steps) && Final(s, steps) == With(s, t, th, [t] + s.registry, s.memory)
  {
    hide Runs, Final, Next;
    Nothing(s);
    var all := BirthSteps(t, tid, parentTid, childTid, clearTid);
    var a := Allocates(s, all[0]);
    var b := ContinueObject(s, [] + [all[0]], a, Create(t));
    var c := ContinueObject(s, [] + [all[0]] + [Create(t)], b, Link(t));
    assert [] + [all[0]] + [Create(t)] + [Link(t)] == all[..3];
    assert c.threads == s.threads[t := c.threads[t]];
  }

  lemma Allocates(s: State, step: Step) returns (n: State)
    requires step.Allocate? && Enabled(s, step)
    ensures var th := Thread(Building, NotBorn, false, true, false, step.tid, step.parentTid, step.childTid,
                             step.clearTid);
            n == With(s, step.t, th, s.registry, s.memory)
    ensures Runs(s, [] + [step]) && Final(s, [] + [step]) == n
  {
    hide Runs, Final;
    Nothing(s);
    n := Continue(s, [], s, step);
  }

  lemma ReleaseRuns(s: State, path: seq<Step>, m: State, t: Id)
    requires Runs(s, path) && Final(s, path) == m && CreatorAt(m, t, Linked) && m.threads[t].live
    ensures var steps := path + [WriteParentTid(t), Release(t)];
            var th := m.threads[t].(creator := ReleasedChild, start := true);
            && Runs(s, steps)
            && Final(s, steps) == With(m, t, th, m.registry, Put(m.memory, m.threads[t].parentTid, m.threads[t].tid))
  {
    hide Runs, Final, Next;
    var a := ContinueObject(s, path, m, WriteParentTid(t));
    var b := ContinueObject(s, path + [WriteParentTid(t)], a, Release(t));
    assert path + [WriteParentTid(t)] + [Release(t)] == path + [WriteParentTid(t), Release(t)];
    assert b.threads == m.threads[t := b.threads[t]];
  }

  lemma StartRuns(s: State, path: seq<Step>, m: State, t: Id)
    requires Runs(s, path) && Final(s, path) == m && ChildAt(m, t, Spinning) && m.threads[t].live && m.threads[t].start
    ensures var steps := path + [SeeStart(t), EnterGuest(t)];
            && Runs(s, steps)
            && Final(s, steps) == With(m, t, m.threads[t].(child := InGuest), m.registry,
                                       Put(m.memory, m.threads[t].childTid, m.threads[t].tid))
  {
    hide Runs, Final, Next;
    var a := ContinueObject(s, path, m, SeeStart(t));
    var b := ContinueObject(s, path + [SeeStart(t)], a, EnterGuest(t));
    assert path + [SeeStart(t)] + [EnterGuest(t)] == path + [SeeStart(t), EnterGuest(t)];
    assert b.threads == m.threads[t := b.threads[t]];
  }

  /**
    A clone can always go through: the new thread comes to its first guest instruction on the registry, its TID is
    stored where clone asked for it, and no other thread is touched.
   */
  lemma BirthRuns(s: State, t: Id, tid: Word, parentTid: Option<Word>, childTid: Option<Word>, clearTid: Option<Word>)
    requires t !in s.threads && tid != 0
    ensures var steps := BirthSteps(t, tid, parentTid, childTid, clearTid);
            var th := Thread(ReleasedChild, InGuest, true, true, false, tid, parentTid, childTid, clearTid);
            && Runs(s, steps)
            && Final(s, steps)
               == With(s, t, th, [t] + s.registry, Put(Put(s.memory, parentTid, tid), childTid, tid))
  {
    hide Runs, Final, Next, Enabled;
    var all := BirthSteps(t, tid, parentTid, childTid, clearTid);
    SpawnRuns(s, t, tid, parentTid, childTid, clearTid);
    var a := Final(s, all[..3]);
    ReleaseRuns(s, all[..3], a, t);
    assert all[..3] + [WriteParentTid(t), Release(t)] == all[..5];
    var b := Final(s, all[..5]);
    StartRuns(s, all[..5], b, t);
    assert all[..5] + [SeeStart(t), EnterGuest(t)] == all;
    assert Final(s, all).threads == s.threads[t := Final(s, all).threads[t]];
  }

  /**
    A thread in guest code can always exit: its deferred unmap is done, it leaves the registry, its TID word becomes 0
    and its object is freed, in that order, and no other thread is touched.
   */
  lemma ExitRuns(s: State, t: Id)
    requires Inv(s) && ChildAt(s, t, InGuest)
    ensures var steps, th := ExitSteps(t), s.threads[t];
            && Runs(s, steps)
            && Final(s, steps) == With(s, t, th.(child := Freed, unmapPending := false, live := false),
                                       Without(s.registry, t), Put(s.memory, th.clearTid, 0))
  {
    hide Runs, Final, Next, Without, Inv, Put;
    LiveInGuest(s, t);
    Nothing(s);
    var steps := ExitSteps(t);
    EarlyExit(s, [], s, t);
    var path := [] + [BeginExit(t), UnmapDeferred(t), Unlink(t)];
    var c := Final(s, path);
    LateExit(s, path, c, t);
    assert path + [ClearTid(t), WakeJoiners(t), Free(t)] == steps;
    assert Final(s, steps).threads == s.threads[t := Final(s, steps).threads[t]];
  }

  lemma LiveInGuest(s: State, t: Id)
    requires Inv(s) && ChildAt(s, t, InGuest)
    ensures s.threads[t].live
  {
    assert ThreadOk(s.threads[t], t in s.registry);
  }

  lemma EarlyExit(s: State, path: seq<Step>, m: State, t: Id)
    requires Runs(s, path) && Final(s, path) == m && ChildAt(m, t, InGuest) && m.threads[t].live
    ensures var steps := path + [BeginExit(t), UnmapDeferred(t), Unlink(t)];
            && Runs(s, steps)
            && Final(s, steps) == With(m, t, m.threads[t].(child := OffRegistry, unmapPending := false),
                                       Without(m.registry, t), m.memory)
  {
    hide Runs, Final, Without, Next;
    var a := ContinueObject(s, path, m, BeginExit(t));
    var b := ContinueObject(s, path + [BeginExit(t)], a, UnmapDeferred(t));
    var c := ContinueObject(s, path + [BeginExit(t)] + [UnmapDeferred(t)], b, Unlink(t));
    assert path + [BeginExit(t)] + [UnmapDeferred(t)] + [Unlink(t)]
        == path + [BeginExit(t), UnmapDeferred(t), Unlink(t)];
    assert c.threads == m.threads[t := c.threads[t]];
  }

  lemma LateExit(s: State, path: seq<Step>, m: State, t: Id)
    requires Runs(s, path) && Final(s, path) == m && ChildAt(m, t, OffRegistry) && m.threads[t].live
    ensures var steps := path + [ClearTid(t), WakeJoiners(t), Free(t)];
            && Runs(s, steps)
            && Final(s, steps) == With(m, t, m.threads[t].(child := Freed, live := false), m.registry,
                                       Put(m.memory, m.threads[t].clearTid, 0))
  {
    hide Runs, Final, Without, Next;
    var a := ContinueObject(s, path, m, ClearTid(t));
    var b := ContinueObject(s, path + [ClearTid(t)], a, WakeJoiners(t));
    var c := ContinueObject(s, path + [ClearTid(t)] + [WakeJoiners(t)], b, Free(t));
    assert path + [ClearTid(t)] + [WakeJoiners(t)] + [Free(t)] == path + [ClearTid(t), WakeJoiners(t), Free(t)];
    assert c.threads == m.threads[t := c.threads[t]];
  }

  /** The word a thread sets by set_tid_address is the one its exit clears. */
  lemma SetWordIsCleared(s: State, t: Id, word: Option<Word>)
    requires Inv(s) && ChildAt(s, t, InGuest)
    ensures var n := Next(s, SetTidAddress(t, word));
            && Inv(n) && Runs(n, ExitSteps(t)) && Final(n, ExitSteps(t)).memory == Put(s.memory, word, 0)
  {
    hide Inv, Runs, Final;
    NextKeepsInv(s, SetTidAddress(t, word));
    ExitRuns(Next(s, SetTidAddress(t, word)), t);
  }

  /** In every reachable state a directed signal can walk the registry, and finds live threads only. */
  lemma KillFindsLiveThreads(s: State, steps: seq<Step>)
    requires Init(s) && Runs(s, steps)
    ensures var f := Final(s, steps);
            && Enabled(f, Kill) && !Next(f, Kill).fault
            && forall t :: t in f.registry ==> t in f.threads && f.threads[t].live
  {
    hide Runs, Final;
    RunKeepsInv(s, steps);
    var f := Final(s, steps);
    NextKeepsInv(f, Kill);
    forall t | t in f.registry ensures t in f.threads && f.threads[t].live {
      assert ThreadOk(f.threads[t], true);
    }
  }

  // ----- deferred unmapping of the active stack

  /** The range a thread will unmap when it retires; `length` 0 means none. */
  datatype Deferred = Deferred(start: int, length: nat)

  class ThreadState {
    var deferredStart: int
    var deferredLength: nat

    constructor ()
      ensures State() == Deferred(0, 0)
    {
      deferredStart, deferredLength := 0, 0;
    }

    ghost function State(): Deferred
      reads this
    {
      Deferred(deferredStart, deferredLength)
    }

    /** `guest_thread_defer_active_stack_unmap`: postpone an unmap of the stack in use, merging requests. */
    method DeferActiveStackUnmap(activeStack: int, address: int, length: nat) returns (deferred: bool)
      modifies this
      ensures deferred <==> address <= activeStack < address + length
      ensures State() == if deferred then Merge(old(State()), address, length) else old(State())
    {
      if activeStack < address || activeStack - address >= length {
        return false;
      }
      var start, end := address, address + length;
      if deferredLength != 0 {
        var oldStart := deferredStart;
        var oldEnd := oldStart + deferredLength;
        if oldStart < start {
          start := oldStart;
        }
        if oldEnd > end {
          end := oldEnd;
        }
      }
      deferredStart := start;
      deferredLength := end - start;
      return true;
    }
  }

  ghost function Merge(d: Deferred, address: int, length: nat): Deferred {
    if d.length == 0 then Deferred(address, length)
    else
      var start := if d.start < address then d.start else address;
      var end := if d.start + d.length > address + length then d.start + d.length else address + length;
      Deferred(start, end - start)
  }

  ghost predicate Covers(d: Deferred, a: int) {
    d.start <= a < d.start + d.length
  }

  /** Merging covers exactly the union of the requests if and only if they overlap or touch. */
  lemma MergeIsUnionIffRangesMeet(d: Deferred, address: int, length: nat)
    requires length > 0
    ensures (forall a :: Covers(Merge(d, address, length), a) <==> Covers(d, a) || address <= a < address + length)
       <==> d.length == 0 || (d.start <= address + length && address <= d.start + d.length)
  {
    var m := Merge(d, address, length);
    if d.length != 0 && !(d.start <= address + length && address <= d.start + d.length) {
      var gap := if address + length < d.start then address + length else d.start + d.length;
      assert Covers(m, gap);
    }
  }

  /**
    Two deferred unmaps whose stacks in use (0x1800, then 0x4800) lie apart: the merged range also covers 0x3000,
    which neither asked to unmap.
   */
  lemma DistantRequestsOvershoot()
    ensures var first := Merge(Deferred(0, 0), 0x1000, 0x1000);
            var both := Merge(first, 0x4000, 0x1000);
            && Covers(first, 0x1800) && 0x4000 <= 0x4800 < 0x5000
            && Covers(both, 0x3000) && !Covers(first, 0x3000) && !(0x4000 <= 0x3000 < 0x5000)
  {
  }

  /** Two requests that both contain the stack pointer in use always merge to their union. */
  lemma ActiveStackRangesMerge(d: Deferred, address: int, length: nat, activeStack: int)
    requires Covers(d, activeStack) && address <= activeStack < address + length
    ensures forall a :: Covers(Merge(d, address, length), a) <==> Covers(d, a) || address <= a < address + length
    ensures Covers(Merge(d, address, length), activeStack)
  {
    MergeIsUnionIffRangesMeet(d, address, length);
  }
}
