/**
  The futex protocol of src/linux_futex.c and src/guest_thread.c as a transition system: every thread
  moves through its call one shared access at a time, signal handlers run between any two of its
  steps, and the host decides when a semaphore wait fails.
 */
module FutexProtocol {
  import opened Words

  type Tid = nat

  const INT_MAX: nat := 0x7fff_ffff
  const MATCH_ANY: bv32 := 0xffff_ffff

  /** `error` in `futex_wait` after the semaphore wait. */
  datatype Error = NoError | TimedOut | Interrupted | OtherError

  /** The locked scans: FUTEX_WAKE and WAKE_BITSET, FUTEX_REQUEUE and CMP_REQUEUE. */
  datatype Op =
    | Wake(address: Word, bitset: bv32, count: nat)
    | Requeue(address: Word, count: nat, requeueCount: nat, second: Word)

  datatype Phase =
    | Idle
      // futex_wait
    | Prepared    // semaphore initialised
    | Checking    // lock held, word not yet compared
    | Enqueued    // on the list
    | Cleared     // wait_begin: interrupted flag cleared
    | Published   // wait_begin: semaphore pointer published
    | Sleeping    // lock released, inside sem_wait or sem_timedwait
    | Awake       // the semaphore wait returned
    | Withdrawn   // wait_end: semaphore pointer cleared
    | Leaving     // wait_end: interrupted flag read
    | Removing    // lock held again
    | Removed     // off the list
    | Unlinked    // lock released
    | Destroyed   // semaphore destroyed
      // linux_futex_wake and futex_requeue
    | Scanning(op: Op, cursor: nat, woken: nat, requeued: nat, posting: bool, eligible: nat)
    | Scanned(op: Op, woken: nat, requeued: nat, eligible: nat)

  /** A thread with the waiter record, semaphore and futex fields that belong to it. */
  datatype Thread = Thread(
    phase: Phase,
    address: Word, expected: Word, bitset: bv32, woken: bool,
    semaphore: nat, live: bool,
    published: bool, interrupted: bool,
    error: Error)

  /**
    `marks` counts the waiters wakers have marked, `zeros` the waits that returned 0, and `badPost`
    records whether anyone ever posted a semaphore that was not alive.
   */
  datatype State = State(
    threads: map<Tid, Thread>,
    list: seq<Tid>,
    lock: Option<Tid>,
    memory: map<Word, Word>,
    marks: nat, zeros: nat, badPost: bool)

  datatype Step =
    | BeginWait(t: Tid, address: Word, expected: Word, bitset: bv32)
    | LockFails(t: Tid)
    | AcquireToCheck(t: Tid)
    | Check(t: Tid)
    | ClearFlag(t: Tid)
    | Publish(t: Tid)
    | Unlock(t: Tid)
    | SemaphoreTaken(t: Tid)
    | SemaphoreFails(t: Tid, error: Error)
    | Withdraw(t: Tid)
    | ReadFlag(t: Tid)
    | AcquireToLeave(t: Tid)
    | Remove(t: Tid)
    | UnlockAfterRemove(t: Tid)
    | Destroy(t: Tid)
    | Return(t: Tid)
    | Handler(t: Tid)
    | StartScan(t: Tid, op: Op, compare: Option<Word>)
    | ScanStep(t: Tid)
    | FinishScan(t: Tid)
    | Store(address: Word, value: Word)

  // ----- pieces of the state

  predicate Eligible(w: Thread, op: Op) {
    w.address == op.address && !w.woken && (op.Wake? ==> Meets(w.bitset, op.bitset))
  }

  predicate Closed(threads: map<Tid, Thread>, list: seq<Tid>) {
    forall i :: 0 <= i < |list| ==> list[i] in threads
  }

  function CountEligible(threads: map<Tid, Thread>, list: seq<Tid>, op: Op): nat
    requires Closed(threads, list)
  {
    if list == [] then 0
    else (if Eligible(threads[list[0]], op) then 1 else 0) + CountEligible(threads, list[1..], op)
  }

  function Without(list: seq<Tid>, t: Tid): seq<Tid> {
    if list == [] then []
    else if list[0] == t then list[1..]
    else [list[0]] + Without(list[1..], t)
  }

  // ----- which steps are possible

  predicate InPhase(s: State, t: Tid, phase: Phase) {
    t in s.threads && s.threads[t].phase == phase
  }

  predicate Enabled(s: State, step: Step) {
    match step
    case BeginWait(t, _, _, bitset) => InPhase(s, t, Idle) && bitset != 0
    case LockFails(t) => InPhase(s, t, Prepared)
    case AcquireToCheck(t) => InPhase(s, t, Prepared) && s.lock.None?
    case Check(t) => InPhase(s, t, Checking)
    case ClearFlag(t) => InPhase(s, t, Enqueued)
    case Publish(t) => InPhase(s, t, Cleared)
    case Unlock(t) => InPhase(s, t, Published)
    case SemaphoreTaken(t) => InPhase(s, t, Sleeping) && s.threads[t].semaphore > 0
    case SemaphoreFails(t, error) => InPhase(s, t, Sleeping) && error != NoError
    case Withdraw(t) => InPhase(s, t, Awake)
    case ReadFlag(t) => InPhase(s, t, Withdrawn)
    case AcquireToLeave(t) => InPhase(s, t, Leaving) && s.lock.None?
    case Remove(t) => InPhase(s, t, Removing)
    case UnlockAfterRemove(t) => InPhase(s, t, Removed)
    case Destroy(t) => InPhase(s, t, Unlinked)
    case Return(t) => InPhase(s, t, Destroyed)
    case Handler(t) => t in s.threads
    case StartScan(t, op, compare) =>
      && InPhase(s, t, Idle) && s.lock.None? && Closed(s.threads, s.list)
      && (compare.Some? ==> op.Requeue? && Load(s.memory, op.address) == compare.value)
    case ScanStep(t) =>
      && t in s.threads && s.threads[t].phase.Scanning? && Closed(s.threads, s.list)
      && (s.threads[t].phase.posting ==> s.threads[t].phase.cursor < |s.list|)
    case FinishScan(t) => t in s.threads && s.threads[t].phase.Scanned?
    case Store(_, _) => true
  }

  // ----- what a step does

  function Put(s: State, t: Tid, th: Thread): State {
    s.(threads := s.threads[t := th])
  }

  function At(s: State, t: Tid, phase: Phase): State
    requires t in s.threads
  {
    Put(s, t, s.threads[t].(phase := phase))
  }

  /** `sem_post` on the semaphore of t's waiter. */
  function Post(s: State, t: Tid): State
    requires t in s.threads
  {
    var w := s.threads[t];
    Put(s.(badPost := s.badPost || !w.live), t, w.(semaphore := w.semaphore + 1))
  }

  /** The steps in which a thread changes only its own record and perhaps the lock. */
  predicate OwnStep(step: Step) {
    step.BeginWait? || step.LockFails? || step.AcquireToCheck? || step.ClearFlag? || step.Publish?
    || step.Unlock? || step.SemaphoreTaken? || step.SemaphoreFails? || step.Withdraw? || step.ReadFlag?
    || step.AcquireToLeave? || step.UnlockAfterRemove? || step.Destroy? || step.FinishScan?
  }

  function Advance(w: Thread, step: Step): Thread
    requires OwnStep(step) && (step.SemaphoreTaken? ==> w.semaphore > 0)
  {
    match step
    case BeginWait(_, address, expected, bitset) =>
      Thread(Prepared, address, expected, bitset, false, 0, true, w.published, w.interrupted, NoError)
    case LockFails(_) => w.(phase := Idle, live := false)
    case AcquireToCheck(_) => w.(phase := Checking)
    case ClearFlag(_) => w.(phase := Cleared, interrupted := false)
    case Publish(_) => w.(phase := Published, published := true)
    case Unlock(_) => w.(phase := Sleeping)
    case SemaphoreTaken(_) => w.(phase := Awake, semaphore := w.semaphore - 1, error := NoError)
    case SemaphoreFails(_, error) => w.(phase := Awake, error := error)
    case Withdraw(_) => w.(phase := Withdrawn, published := false)
    case ReadFlag(_) =>
      w.(phase := Leaving, interrupted := false,
         error := if w.interrupted && w.error == NoError then Interrupted else w.error)
    case AcquireToLeave(_) => w.(phase := Removing)
    case UnlockAfterRemove(_) => w.(phase := Unlinked)
    case Destroy(_) => w.(phase := Destroyed, live := false)
    case FinishScan(_) => w.(phase := Idle)
  }

  function LockAfter(lock: Option<Tid>, step: Step): Option<Tid> {
    if step.AcquireToCheck? || step.AcquireToLeave? then Some(step.t)
    else if step.Unlock? || step.UnlockAfterRemove? || step.FinishScan? then None
    else lock
  }

  /** The value `futex_wait` returns for a waiter that has left the list. */
  predicate ReturnsZero(w: Thread) {
    w.woken || w.error == NoError
  }

  /** What the scan does to the waiter under its cursor: post it, mark it, move it or leave it. */
  function VisitWaiter(w: Thread, p: Phase): Thread
    requires p.Scanning?
  {
    if p.posting then w.(semaphore := w.semaphore + 1)
    else if (p.op.Wake? && p.woken >= p.op.count) || !Eligible(w, p.op) then w
    else if p.woken < p.op.count then w.(woken := true)
    else if p.op.Requeue? && p.requeued < p.op.requeueCount then w.(address := p.op.second)
    else w
  }

  /** Where the scan goes from there. */
  function VisitPhase(w: Thread, p: Phase): Phase
    requires p.Scanning?
  {
    if p.posting then
      if p.op.Requeue? && p.woken + 1 == p.op.count && p.requeued == p.op.requeueCount
      then Scanned(p.op, p.woken + 1, p.requeued, p.eligible)
      else p.(woken := p.woken + 1, posting := false, cursor := p.cursor + 1)
    else if p.op.Wake? && p.woken >= p.op.count then Scanned(p.op, p.woken, p.requeued, p.eligible)
    else if !Eligible(w, p.op) then p.(cursor := p.cursor + 1)
    else if p.woken < p.op.count then p.(posting := true)
    else if p.op.Requeue? && p.requeued < p.op.requeueCount then
      if p.requeued + 1 == p.op.requeueCount
      then Scanned(p.op, p.woken, p.requeued + 1, p.eligible)
      else p.(requeued := p.requeued + 1, cursor := p.cursor + 1)
    else Scanned(p.op, p.woken, p.requeued, p.eligible)
  }

  function Scan(s: State, t: Tid): State
    requires Enabled(s, ScanStep(t))
  {
    var p := s.threads[t].phase;
    if p.cursor >= |s.list| then At(s, t, Scanned(p.op, p.woken, p.requeued, p.eligible))
    else
      var u := s.list[p.cursor];
      var w := s.threads[u];
      var v := VisitWaiter(w, p);
      s.(threads := s.threads[u := v][t := s.threads[t].(phase := VisitPhase(w, p))],
         marks := if v.woken && !w.woken then s.marks + 1 else s.marks,
         badPost := s.badPost || (p.posting && !w.live))
  }

  function Next(s: State, step: Step): State
    requires Enabled(s, step)
  {
    if OwnStep(step) then
      Put(s.(lock := LockAfter(s.lock, step)), step.t, Advance(s.threads[step.t], step))
    else
      match step
      case Check(t) =>
        if Load(s.memory, s.threads[t].address) != s.threads[t].expected
        then Put(s, t, s.threads[t].(phase := Idle, live := false)).(lock := None)
        else At(s, t, Enqueued).(list := [t] + s.list)
      case Remove(t) => At(s, t, Removed).(list := Without(s.list, t))
      case Return(t) =>
        var w := s.threads[t];
        Put(s.(zeros := if ReturnsZero(w) then s.zeros + 1 else s.zeros), t,
            w.(phase := Idle, woken := false))
      case Handler(t) =>
        if s.threads[t].published
        then Post(Put(s, t, s.threads[t].(interrupted := true)), t)
        else s
      case StartScan(t, op, _) =>
        At(s, t, Scanning(op, 0, 0, 0, false, CountEligible(s.threads, s.list, op))).(lock := Some(t))
      case ScanStep(t) => Scan(s, t)
      case Store(address, value) => s.(memory := s.memory[address := value])
  }

  // ----- the invariant

  predicate HoldsLock(p: Phase) {
    p.Checking? || p.Enqueued? || p.Cleared? || p.Published? || p.Removing? || p.Removed?
    || p.Scanning? || p.Scanned?
  }

  predicate OnList(p: Phase) {
    p.Enqueued? || p.Cleared? || p.Published? || p.Sleeping? || p.Awake? || p.Withdrawn? || p.Leaving?
    || p.Removing?
  }

  predicate HasSemaphore(p: Phase) {
    p.Prepared? || p.Checking? || OnList(p) || p.Removed? || p.Unlinked?
  }

  predicate IsPublished(p: Phase) {
    p.Published? || p.Sleeping? || p.Awake?
  }

  predicate AfterFlag(p: Phase) {
    p.Leaving? || p.Removing? || p.Removed? || p.Unlinked? || p.Destroyed?
  }

  /** What one thread's record says, given whether it holds the lock and is on the list. */
  predicate ThreadOk(w: Thread, holds: bool, listed: bool) {
    && holds == HoldsLock(w.phase)
    && listed == OnList(w.phase)
    && w.live == HasSemaphore(w.phase)
    && (w.live ==> w.bitset != 0)
    && w.published == IsPublished(w.phase)
    && (w.woken ==> OnList(w.phase) || AfterFlag(w.phase))
    && (w.phase.Prepared? || w.phase.Checking? || w.phase.Enqueued? || w.phase.Cleared? ==>
          w.semaphore == 0 && !w.woken)
    && (w.phase.Published? || w.phase.Sleeping? ==> w.semaphore == 0 || w.woken || w.interrupted)
    && (w.phase.Cleared? ==> !w.interrupted)
    && (w.phase.Published? || w.phase.Sleeping? ==> w.interrupted ==> w.semaphore > 0)
    && (w.phase.Awake? || w.phase.Withdrawn? ==> w.error != NoError || w.woken || w.interrupted)
    && (AfterFlag(w.phase) ==> w.error != NoError || w.woken)
  }

  predicate Distinct(list: seq<Tid>) {
    forall i, j :: 0 <= i < j < |list| ==> list[i] != list[j]
  }

  ghost predicate LocalInv(s: State) {
    && Closed(s.threads, s.list)
    && Distinct(s.list)
    && forall t :: t in s.threads ==> ThreadOk(s.threads[t], s.lock == Some(t), t in s.list)
  }

  function Min(a: nat, b: nat): nat {
    if a <= b then a else b
  }

  function RequeueLimit(op: Op): nat {
    if op.Requeue? then op.requeueCount else 0
  }

  ghost predicate NoneEligible(s: State, op: Op, k: nat)
    requires Closed(s.threads, s.list) && k <= |s.list|
  {
    forall i :: 0 <= i < k ==> !Eligible(s.threads[s.list[i]], op)
  }

  /** A running scan has dealt with everything before its cursor and miscounted nothing. */
  ghost predicate ScanOk(s: State, p: Phase)
    requires Closed(s.threads, s.list)
  {
    && (p.Scanning? ==>
          && p.cursor <= |s.list|
          && p.woken + (if p.posting then 1 else 0) <= p.op.count
          && p.requeued <= RequeueLimit(p.op)
          && (p.requeued > 0 ==> p.woken == p.op.count && !p.posting)
          && (p.posting ==> p.cursor < |s.list| && s.threads[s.list[p.cursor]].woken)
          && p.woken + (if p.posting then 1 else 0) + p.requeued
             + CountEligible(s.threads, s.list[p.cursor..], p.op) == p.eligible
          && (p.op.Wake? ==> NoneEligible(s, p.op, p.cursor)))
    && (p.Scanned? ==>
          && (p.op.Wake? && p.woken < p.op.count ==> NoneEligible(s, p.op, |s.list|))
          && p.woken == Min(p.op.count, p.eligible)
          && p.requeued == Min(RequeueLimit(p.op), p.eligible - p.woken))
  }

  ghost predicate ScansOk(s: State)
    requires Closed(s.threads, s.list)
  {
    forall t :: t in s.threads ==> ScanOk(s, s.threads[t].phase)
  }

  ghost function Woken(s: State): set<Tid> {
    set t | t in s.threads && s.threads[t].woken
  }

  /** Every mark is a wait that has returned 0 or a marked waiter still on its way out. */
  ghost predicate Conserved(s: State) {
    s.marks == s.zeros + |Woken(s)| && !s.badPost
  }

  /** The waker that holds the lock has marked u and is about to post it. */
  predicate PostPending(s: State, u: Tid) {
    && s.lock.Some? && s.lock.value in s.threads
    && var p := s.threads[s.lock.value].phase;
       p.Scanning? && p.posting && p.cursor < |s.list| && s.list[p.cursor] == u
  }

  /** A waiter that is marked before it has slept has been posted, or is being posted right now. */
  predicate PostedOrPending(s: State, u: Tid)
    requires u in s.threads
  {
    var w := s.threads[u];
    w.woken && (w.phase.Published? || w.phase.Sleeping?) ==> w.semaphore > 0 || PostPending(s, u)
  }

  /** Every mark comes with its post, and the lock has an owner. */
  ghost predicate MarksPosted(s: State) {
    && (s.lock.Some? ==> s.lock.value in s.threads)
    && forall u :: u in s.threads ==> PostedOrPending(s, u)
  }

  ghost predicate Core(s: State) {
    LocalInv(s) && ScansOk(s) && Conserved(s)
  }

  ghost predicate Inv(s: State) {
    Core(s) && MarksPosted(s)
  }

  ghost predicate Init(s: State) {
    && s.list == [] && s.lock == None && s.marks == 0 && s.zeros == 0 && !s.badPost
    && forall t :: t in s.threads ==>
         var w := s.threads[t];
         w.phase == Idle && !w.woken && !w.live && !w.published
  }
}
