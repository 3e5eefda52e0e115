/**
  The waiter list of src/linux_futex.c as the source keeps it: singly linked records changed in
  place by the loops that run under the futex lock.
 */
module FutexList {
  import opened Words

  const EINVAL: int := 22

  /** `struct futex_waiter`; `posts` counts the `sem_post` calls on its semaphore. */
  class Waiter {
    var address: Word
    const bitset: bv32
    var woken: bool
    var posts: nat
    var next: Waiter?

    constructor (address: Word, bitset: bv32)
      ensures this.address == address && this.bitset == bitset && !woken && posts == 0 && next == null
    {
      this.address, this.bitset, this.woken, this.posts, this.next := address, bitset, false, 0, null;
    }

    /** `waiter->woken = 1` and `sem_post`. */
    method Mark()
      modifies this`woken, this`posts
      ensures Value() == Marked(old(Value()))
    {
      woken := true;
      posts := posts + 1;
    }

    /** The body of the requeue loop for one record: mark it, move it, or leave it. */
    method Affect(from: Word, mayWake: bool, mayMove: bool, second: Word) returns (marked: bool, moved: bool)
      modifies this`woken, this`posts, this`address
      ensures marked == (old(Waits(Value(), from)) && mayWake)
      ensures moved == (old(Waits(Value(), from)) && !mayWake && mayMove)
      ensures Value() == if marked then Marked(old(Value()))
                         else if moved then old(Value()).(address := second)
                         else old(Value())
    {
      marked, moved := false, false;
      if address != from || woken {
        return;
      }
      if mayWake {
        Mark();
        marked := true;
      } else if mayMove {
        address := second;
        moved := true;
      }
    }

    ghost function Value(): Entry
      reads this
    {
      Entry(address, bitset, woken, posts)
    }
  }

  /** The contents of one record. */
  datatype Entry = Entry(address: Word, bitset: bv32, woken: bool, posts: nat)

  predicate Matches(e: Entry, address: Word, bitset: bv32) {
    e.address == address && Meets(e.bitset, bitset) && !e.woken
  }

  predicate Waits(e: Entry, address: Word) {
    e.address == address && !e.woken
  }

  ghost function Marked(e: Entry): Entry {
    e.(woken := true, posts := e.posts + 1)
  }

  // ----- the loops as functions

  ghost function WakeFirst(es: seq<Entry>, address: Word, bitset: bv32, count: nat): (seq<Entry>, nat) {
    if es == [] || count == 0 then (es, 0)
    else if Matches(es[0], address, bitset) then
      var (rest, n) := WakeFirst(es[1..], address, bitset, count - 1);
      ([Marked(es[0])] + rest, n + 1)
    else
      var (rest, n) := WakeFirst(es[1..], address, bitset, count);
      ([es[0]] + rest, n)
  }

  ghost function RequeueFirst(es: seq<Entry>, address: Word, wake: nat, requeue: nat, second: Word): (seq<Entry>, nat) {
    if es == [] then (es, 0)
    else if Waits(es[0], address) && wake > 0 then
      var (rest, n) := RequeueFirst(es[1..], address, wake - 1, requeue, second);
      ([Marked(es[0])] + rest, n + 1)
    else if Waits(es[0], address) && requeue > 0 then
      var (rest, n) := RequeueFirst(es[1..], address, wake, requeue - 1, second);
      ([es[0].(address := second)] + rest, n + 1)
    else
      var (rest, n) := RequeueFirst(es[1..], address, wake, requeue, second);
      ([es[0]] + rest, n)
  }

  ghost function CountMatching(es: seq<Entry>, address: Word, bitset: bv32): nat {
    if es == [] then 0
    else (if Matches(es[0], address, bitset) then 1 else 0) + CountMatching(es[1..], address, bitset)
  }

  ghost function CountWaiting(es: seq<Entry>, address: Word): nat {
    if es == [] then 0 else (if Waits(es[0], address) then 1 else 0) + CountWaiting(es[1..], address)
  }

  function Min(a: nat, b: nat): nat {
    if a <= b then a else b
  }

  /** How many records differ between two lists of the same length. */
  ghost function Changed(a: seq<Entry>, b: seq<Entry>): nat
    requires |a| == |b|
  {
    if a == [] then 0 else (if a[0] == b[0] then 0 else 1) + Changed(a[1..], b[1..])
  }

  /** A wake marks and posts exactly min(count, matching) records, only matching ones, each once. */
  lemma {:induction false} WakeIsExact(es: seq<Entry>, address: Word, bitset: bv32, count: nat)
    ensures var (r, n) := WakeFirst(es, address, bitset, count);
            && |r| == |es|
            && n == Min(count, CountMatching(es, address, bitset)) == Changed(es, r)
            && CountMatching(r, address, bitset) == CountMatching(es, address, bitset) - n
            && forall i :: 0 <= i < |es| ==> r[i] == es[i] || (Matches(es[i], address, bitset) && r[i] == Marked(es[i]))
  {
    var (r, n) := WakeFirst(es, address, bitset, count);
    if es == [] {
    } else if count == 0 {
      Unchanged(es);
    } else if Matches(es[0], address, bitset) {
      WakeIsExact(es[1..], address, bitset, count - 1);
      assert r[1..] == WakeFirst(es[1..], address, bitset, count - 1).0;
    } else {
      WakeIsExact(es[1..], address, bitset, count);
      assert r[1..] == WakeFirst(es[1..], address, bitset, count).0;
    }
  }

  lemma {:induction false} Unchanged(es: seq<Entry>)
    ensures Changed(es, es) == 0
  {
    if es != [] {
      Unchanged(es[1..]);
    }
  }

  /**
    A requeue reports how many records it affected: it marks min(wake, waiting) of them and moves
    min(requeue, waiting that are left), never a marked one.
   */
  lemma {:induction false} RequeueIsExact(es: seq<Entry>, address: Word, wake: nat, requeue: nat, second: Word)
    ensures var (r, n) := RequeueFirst(es, address, wake, requeue, second);
            var marks := Min(wake, CountWaiting(es, address));
            && |r| == |es|
            && n == marks + Min(requeue, CountWaiting(es, address) - marks)
            && CountMarked(r) == CountMarked(es) + marks
            && forall i :: 0 <= i < |es| ==>
                 r[i] == es[i]
                 || (Waits(es[i], address) && (r[i] == Marked(es[i]) || r[i] == es[i].(address := second)))
  {
    hide RequeueFirst, CountWaiting, CountMarked, Waits, Marked, Min;
    RequeueCounts(es, address, wake, requeue, second);
    RequeueChanges(es, address, wake, requeue, second);
  }

  lemma {:induction false} RequeueChanges(es: seq<Entry>, address: Word, wake: nat, requeue: nat, second: Word)
    ensures var (r, n) := RequeueFirst(es, address, wake, requeue, second);
            && |r| == |es|
            && forall i :: 0 <= i < |es| ==>
                 r[i] == es[i]
                 || (Waits(es[i], address) && (r[i] == Marked(es[i]) || r[i] == es[i].(address := second)))
  {
    hide Waits, Marked;
    if es != [] {
      RequeueChanges(es[1..], address, if wake > 0 then wake - 1 else wake, requeue, second);
      RequeueChanges(es[1..], address, wake, if requeue > 0 then requeue - 1 else requeue, second);
      RequeueChanges(es[1..], address, wake, requeue, second);
    }
  }

  lemma {:induction false} RequeueCounts(es: seq<Entry>, address: Word, wake: nat, requeue: nat, second: Word)
    ensures var (r, n) := RequeueFirst(es, address, wake, requeue, second);
            var marks := Min(wake, CountWaiting(es, address));
            && n == marks + Min(requeue, CountWaiting(es, address) - marks)
            && CountMarked(r) == CountMarked(es) + marks
  {
    if es != [] {
      hide RequeueFirst, CountWaiting, CountMarked;
      CountsOf(es, address);
      RequeueHead(es, address, wake, requeue, second);
      var (r, n) := RequeueFirst(es, address, wake, requeue, second);
      MarkedOf(r);
      if Waits(es[0], address) && wake > 0 {
        RequeueCounts(es[1..], address, wake - 1, requeue, second);
      } else if Waits(es[0], address) && requeue > 0 {
        RequeueCounts(es[1..], address, wake, requeue - 1, second);
      } else {
        RequeueCounts(es[1..], address, wake, requeue, second);
      }
    }
  }

  lemma CountsOf(es: seq<Entry>, address: Word)
    requires es != []
    ensures CountWaiting(es, address) == (if Waits(es[0], address) then 1 else 0) + CountWaiting(es[1..], address)
    ensures CountMarked(es) == (if es[0].woken then 1 else 0) + CountMarked(es[1..])
  {
  }

  lemma MarkedOf(es: seq<Entry>)
    requires es != []
    ensures CountMarked(es) == (if es[0].woken then 1 else 0) + CountMarked(es[1..])
  {
  }

  lemma RequeueHead(es: seq<Entry>, address: Word, wake: nat, requeue: nat, second: Word)
    requires es != []
    ensures var (r, n) := RequeueFirst(es, address, wake, requeue, second);
            var mark, move := Waits(es[0], address) && wake > 0, Waits(es[0], address) && wake == 0 && requeue > 0;
            var (rest, m) := RequeueFirst(es[1..], address, if mark then wake - 1 else wake,
                                          if move then requeue - 1 else requeue, second);
            && r == [if mark then Marked(es[0]) else if move then es[0].(address := second) else es[0]] + rest
            && r[1..] == rest
            && n == (if mark || move then 1 else 0) + m
  {
  }

  /** A wake marks and posts, once each, exactly the matching records with fewer than `count` such before them. */
  lemma {:induction false} WakePicksFirst(es: seq<Entry>, address: Word, bitset: bv32, count: nat, i: nat)
    requires i < |es|
    ensures var (r, _) := WakeFirst(es, address, bitset, count);
            && |r| == |es|
            && r[i] == if Matches(es[i], address, bitset) && CountMatching(es[..i], address, bitset) < count
                       then es[i].(woken := true, posts := es[i].posts + 1) else es[i]
    decreases |es|
  {
    hide Meets;
    if count > 0 {
      var (r, _) := WakeFirst(es, address, bitset, count);
      var left := if Matches(es[0], address, bitset) then count - 1 else count;
      if i == 0 {
        assert es[..0] == [];
        SameLength(es[1..], address, bitset, left);
      } else {
        WakePicksFirst(es[1..], address, bitset, left, i - 1);
        assert es[..i][0] == es[0] && es[..i][1..] == es[1..][..i - 1];
      }
    }
  }

  lemma {:induction false} SameLength(es: seq<Entry>, address: Word, bitset: bv32, count: nat)
    ensures |WakeFirst(es, address, bitset, count).0| == |es|
  {
    WakeIsExact(es, address, bitset, count);
  }

  /**
    A requeue marks and posts exactly the waiters on the address with fewer than `wake` before them, and moves exactly
    the next `requeue` of them.
   */
  lemma {:induction false} RequeuePicksFirst(es: seq<Entry>, address: Word, wake: nat, requeue: nat, second: Word,
                                             i: nat)
    requires i < |es|
    ensures var (r, _) := RequeueFirst(es, address, wake, requeue, second);
            var rank := CountWaiting(es[..i], address);
            && |r| == |es|
            && r[i] == if Waits(es[i], address) && rank < wake then es[i].(woken := true, posts := es[i].posts + 1)
                       else if Waits(es[i], address) && rank < wake + requeue then es[i].(address := second)
                       else es[i]
    decreases |es|
  {
    hide RequeueFirst, CountWaiting;
    RequeueChanges(es, address, wake, requeue, second);
    RequeueHead(es, address, wake, requeue, second);
    var mark := Waits(es[0], address) && wake > 0;
    var move := Waits(es[0], address) && wake == 0 && requeue > 0;
    if i == 0 {
      assert es[..0] == [];
      NobodyWaits(address);
    } else {
      RequeuePicksFirst(es[1..], address, if mark then wake - 1 else wake, if move then requeue - 1 else requeue,
                        second, i - 1);
      assert es[..i][0] == es[0] && es[..i][1..] == es[1..][..i - 1];
      CountsOf(es[..i], address);
    }
  }

  lemma NobodyWaits(address: Word)
    ensures CountWaiting([], address) == 0
  {
  }

  ghost function CountMarked(es: seq<Entry>): nat {
    if es == [] then 0 else (if es[0].woken then 1 else 0) + CountMarked(es[1..])
  }

  /** The record at a position, or null past the end. */
  ghost function NodeAt(nodes: seq<Waiter>, k: nat): Waiter? {
    if k < |nodes| then nodes[k] else null
  }

  /** `futex_waiters` and the loops that run under the lock. */
  class WaiterList {
    var head: Waiter?
    ghost var nodes: seq<Waiter>

    ghost predicate Valid()
      reads this, nodes
    {
      && (forall i, j :: 0 <= i < j < |nodes| ==> nodes[i] != nodes[j])
      && head == NodeAt(nodes, 0)
      && forall i {:trigger nodes[i].next} :: 0 <= i < |nodes| ==> nodes[i].next == NodeAt(nodes, i + 1)
    }

    /** The list holds exactly these contents. */
    ghost predicate Holds(es: seq<Entry>)
      reads this, nodes
    {
      && |es| == |nodes|
      && forall i :: 0 <= i < |nodes| ==> nodes[i].Value() == es[i]
    }

    constructor ()
      ensures Valid() && nodes == []
    {
      head, nodes := null, [];
    }

    method Enqueue(w: Waiter)
      requires Valid() && w !in nodes
      modifies this, w
      ensures Valid() && nodes == [w] + old(nodes)
      ensures w.Value() == old(w.Value())
    {
      w.next := head;
      head := w;
      nodes := [w] + nodes;
    }

    /** `remove_waiter`: unlink the record if it is on the list; nothing else about any record changes. */
    method Remove(w: Waiter)
      requires Valid()
      modifies this, nodes`next
      ensures Valid() && w !in nodes
      ensures if w in old(nodes) then exists k :: 0 <= k < |old(nodes)| && old(nodes)[k] == w
                                                  && nodes == old(nodes)[..k] + old(nodes)[k + 1..]
              else nodes == old(nodes)
    {
      var link: Waiter? := null;
      var current := head;
      ghost var k := 0;
      while current != null && current != w
        invariant k <= |nodes|
        invariant current == NodeAt(nodes, k)
        invariant link == (if k == 0 then null else nodes[k - 1])
        invariant forall i :: 0 <= i < k ==> nodes[i] != w
        decreases |nodes| - k
      {
        link := current;
        current := current.next;
        k := k + 1;
      }
      if current == w {
        Unlink(link, w, k);
      }
    }

    /** `*link = waiter->next`, where a null link stands for the list head. */
    method Unlink(link: Waiter?, w: Waiter, ghost k: nat)
      requires Valid() && k < |nodes| && nodes[k] == w
      requires link == if k == 0 then null else nodes[k - 1]
      modifies this, nodes`next
      ensures Valid() && w !in nodes && nodes == old(nodes)[..k] + old(nodes)[k + 1..]
    {
      ghost var was := nodes;
      if link == null {
        head := w.next;
      } else {
        link.next := w.next;
      }
      nodes := was[..k] + was[k + 1..];
      forall i | 0 <= i < |nodes| ensures nodes[i].next == NodeAt(nodes, i + 1) {
        if i + 1 < k {
          assert nodes[i] == was[i];
        } else if i + 1 == k {
          assert nodes[i] == link;
        } else {
          assert nodes[i] == was[i + 1];
        }
      }
    }

    /** A loop has turned the records before position i into r; the others still hold `was`. */
    ghost predicate Progress(was: seq<Entry>, r: seq<Entry>, i: nat)
      reads this, nodes
    {
      && |was| == |r| == |nodes|
      && (forall j :: 0 <= j < |nodes| && j < i ==> nodes[j].Value() == r[j])
      && (forall j :: 0 <= i <= j < |nodes| ==> nodes[j].Value() == was[j])
    }

    /** `linux_futex_wake`: the first `count` matching waiters are marked and posted. */
    method Wake(address: Word, count: int, bitset: bv32, ghost was: seq<Entry>) returns (result: int)
      requires Valid() && Holds(was)
      modifies nodes`woken, nodes`posts
      ensures Valid()
      ensures count < 0 || bitset == 0 ==> result == -EINVAL && Holds(was)
      ensures count >= 0 && bitset != 0 ==>
                var (r, n) := WakeFirst(was, address, bitset, count);
                Holds(r) && result == n
    {
      if count < 0 || bitset == 0 {
        return -EINVAL;
      }
      WakeStart(was, address, bitset, count);
      result := WakeLoop(address, count, bitset, was, WakeFirst(was, address, bitset, count).0,
                         WakeFirst(was, address, bitset, count).1);
    }

    method WakeLoop(address: Word, count: nat, bitset: bv32, ghost was: seq<Entry>, ghost r: seq<Entry>, ghost n: nat)
      returns (woken: nat)
      requires Valid() && Holds(was) && |r| == |was|
      requires WakePending(was, r, n, 0, 0, address, bitset, count)
      modifies nodes`woken, nodes`posts
      ensures Valid() && Holds(r) && woken == n
    {
      hide Matches, WakePending, Marked, Progress, Valid, Holds;
      Started(was, r);
      woken := 0;
      var waiter := head;
      ghost var i := 0;
      while waiter != null && woken < count
        invariant i <= |nodes| == |was| && woken <= count
        invariant waiter == NodeAt(nodes, i)
        invariant WakePending(was, r, n, i, woken, address, bitset, count - woken)
        invariant Valid() && Progress(was, r, i)
        decreases |nodes| - i
      {
        assert waiter == nodes[i] && waiter in nodes;
        WakeTurn(was, r, n, i, woken, address, bitset, count - woken);
        var marked, next := WakeAt(waiter, address, bitset, was, r, i);
        if marked {
          woken := woken + 1;
        }
        waiter := next;
        i := i + 1;
      }
      WakeEnd(was, r, n, i, woken, address, bitset, count - woken);
      Finished(was, r, i);
    }

    /** One turn of the wake loop on the record at position i. */
    method WakeAt(waiter: Waiter, address: Word, bitset: bv32, ghost was: seq<Entry>, ghost r: seq<Entry>, ghost i: nat)
      returns (marked: bool, next: Waiter?)
      requires Valid() && Progress(was, r, i) && i < |nodes| && waiter == nodes[i]
      requires r[i] == if Matches(was[i], address, bitset) then Marked(was[i]) else was[i]
      modifies waiter`woken, waiter`posts
      ensures Valid() && Progress(was, r, i + 1) && next == NodeAt(nodes, i + 1)
      ensures marked == Matches(was[i], address, bitset)
    {
      hide Meets, Marked, NodeAt;
      marked := !(waiter.address != address || !Meets(waiter.bitset, bitset) || waiter.woken);
      if marked {
        waiter.Mark();
      }
      next := waiter.next;
    }

    /** One turn of the requeue loop on the record at position i. */
    method AffectAt(waiter: Waiter, address: Word, mayWake: bool, mayMove: bool, second: Word,
                    ghost was: seq<Entry>, ghost r: seq<Entry>, ghost i: nat)
      returns (eligible: bool, marked: bool, moved: bool, next: Waiter?)
      requires Valid() && Progress(was, r, i) && i < |nodes| && waiter == nodes[i]
      requires r[i] == if Waits(was[i], address) && mayWake then Marked(was[i])
                       else if Waits(was[i], address) && mayMove then was[i].(address := second)
                       else was[i]
      modifies waiter`woken, waiter`posts, waiter`address
      ensures Valid() && Progress(was, r, i + 1) && next == NodeAt(nodes, i + 1)
      ensures marked == (Waits(was[i], address) && mayWake)
      ensures moved == (Waits(was[i], address) && !mayWake && mayMove)
    {
      hide Waits, Marked, NodeAt;
      eligible := waiter.address == address && !waiter.woken;
      marked, moved := waiter.Affect(address, mayWake, mayMove, second);
      next := waiter.next;
    }

    /** `futex_requeue` after its argument and value checks. */
    method Requeue(address: Word, wakeCount: nat, requeueCount: nat, second: Word, ghost was: seq<Entry>)
      returns (affected: nat)
      requires Valid() && Holds(was)
      modifies nodes`woken, nodes`posts, nodes`address
      ensures Valid()
      ensures var (r, n) := RequeueFirst(was, address, wakeCount, requeueCount, second);
              Holds(r) && affected == n
    {
      RequeueStart(was, address, wakeCount, requeueCount, second);
      affected := RequeueLoop(address, wakeCount, requeueCount, second, was,
                              RequeueFirst(was, address, wakeCount, requeueCount, second).0,
                              RequeueFirst(was, address, wakeCount, requeueCount, second).1);
    }

    method RequeueLoop(address: Word, wakeCount: nat, requeueCount: nat, second: Word,
                       ghost was: seq<Entry>, ghost r: seq<Entry>, ghost n: nat)
      returns (affected: nat)
      requires Valid() && Holds(was) && |r| == |was|
      requires RequeuePending(was, r, n, 0, 0, address, wakeCount, requeueCount, second)
      modifies nodes`woken, nodes`posts, nodes`address
      ensures Valid() && Holds(r) && affected == n
    {
      hide RequeuePending, Waits, Marked, Progress, Valid, Holds;
      Started(was, r);
      affected := 0;
      var woken, requeued := 0, 0;
      var waiter := head;
      ghost var i := 0;
      while waiter != null
        invariant i <= |nodes| == |was| && woken <= wakeCount && requeued <= requeueCount
        invariant waiter == NodeAt(nodes, i)
        invariant RequeuePending(was, r, n, i, affected, address, wakeCount - woken, requeueCount - requeued, second)
        invariant Valid() && Progress(was, r, i)
        decreases |nodes| - i
      {
        assert waiter == nodes[i] && waiter in nodes;
        RequeueTurn(was, r, n, i, affected, address, wakeCount - woken, requeueCount - requeued, second);
        var eligible, marked, moved, next :=
          AffectAt(waiter, address, woken < wakeCount, requeued < requeueCount, second, was, r, i);
        woken := if marked then woken + 1 else woken;
        requeued := if moved then requeued + 1 else requeued;
        affected := if marked || moved then affected + 1 else affected;
        assert RequeuePending(was, r, n, i + 1, affected, address, wakeCount - woken, requeueCount - requeued, second);
        waiter := next;
        i := i + 1;
        if eligible && woken == wakeCount && requeued == requeueCount {
          break;
        }
      }
      RequeueEnd(was, r, n, i, affected, address, wakeCount - woken, requeueCount - requeued, second);
      Finished(was, r, i);
    }

    lemma Started(was: seq<Entry>, r: seq<Entry>)
      requires Valid() && Holds(was) && |r| == |was|
      ensures Progress(was, r, 0) && head == NodeAt(nodes, 0) && |nodes| == |was|
    {
    }

    /** Where the rest of the list needs no change the loop's result is complete. */
    lemma Finished(was: seq<Entry>, r: seq<Entry>, i: nat)
      requires Progress(was, r, i) && i <= |was| && forall j :: i <= j < |was| ==> r[j] == was[j]
      ensures Holds(r)
    {
    }
  }

  /** A wake loop at position i: what its function still has to produce for the rest of the list. */
  ghost predicate WakePending(was: seq<Entry>, r: seq<Entry>, n: nat, i: nat, woken: nat,
                              address: Word, bitset: bv32, left: nat) {
    && i <= |was| == |r|
    && r[i..] == WakeFirst(was[i..], address, bitset, left).0
    && n == woken + WakeFirst(was[i..], address, bitset, left).1
  }

  lemma WakeStart(was: seq<Entry>, address: Word, bitset: bv32, count: nat)
    ensures var (r, n) := WakeFirst(was, address, bitset, count);
            |r| == |was| && WakePending(was, r, n, 0, 0, address, bitset, count)
  {
    WakeIsExact(was, address, bitset, count);
    assert was[0..] == was;
  }

  lemma WakeTurn(was: seq<Entry>, r: seq<Entry>, n: nat, i: nat, woken: nat, address: Word, bitset: bv32, left: nat)
    requires WakePending(was, r, n, i, woken, address, bitset, left) && i < |was| && left > 0
    ensures i < |r| == |was|
    ensures if Matches(was[i], address, bitset)
            then r[i] == Marked(was[i]) && WakePending(was, r, n, i + 1, woken + 1, address, bitset, left - 1)
            else r[i] == was[i] && WakePending(was, r, n, i + 1, woken, address, bitset, left)
  {
    WakeHere(was, i, address, bitset, left);
    hide WakeFirst, Matches;
    assert r[i..][0] == r[i] && r[i..][1..] == r[i + 1..];
  }

  lemma WakeEnd(was: seq<Entry>, r: seq<Entry>, n: nat, i: nat, woken: nat, address: Word, bitset: bv32, left: nat)
    requires WakePending(was, r, n, i, woken, address, bitset, left) && (i == |was| || left == 0)
    ensures n == woken && |r| == |was| && forall j :: i <= j < |was| ==> r[j] == was[j]
  {
    assert WakeFirst(was[i..], address, bitset, left) == (was[i..], 0);
    assert forall j :: i <= j < |was| ==> r[j] == r[i..][j - i] && was[j] == was[i..][j - i];
  }

  /** The same for a requeue loop. */
  ghost predicate RequeuePending(was: seq<Entry>, r: seq<Entry>, n: nat, i: nat, affected: nat,
                                 address: Word, wake: nat, requeue: nat, second: Word) {
    && i <= |was| == |r|
    && r[i..] == RequeueFirst(was[i..], address, wake, requeue, second).0
    && n == affected + RequeueFirst(was[i..], address, wake, requeue, second).1
  }

  lemma RequeueStart(was: seq<Entry>, address: Word, wake: nat, requeue: nat, second: Word)
    ensures var (r, n) := RequeueFirst(was, address, wake, requeue, second);
            |r| == |was| && RequeuePending(was, r, n, 0, 0, address, wake, requeue, second)
  {
    RequeueIsExact(was, address, wake, requeue, second);
    assert was[0..] == was;
  }

  lemma RequeueTurn(was: seq<Entry>, r: seq<Entry>, n: nat, i: nat, affected: nat,
                    address: Word, wake: nat, requeue: nat, second: Word)
    requires RequeuePending(was, r, n, i, affected, address, wake, requeue, second) && i < |was|
    ensures i < |r| == |was|
    ensures if Waits(was[i], address) && wake > 0
            then r[i] == Marked(was[i])
                 && RequeuePending(was, r, n, i + 1, affected + 1, address, wake - 1, requeue, second)
            else if Waits(was[i], address) && requeue > 0
            then r[i] == was[i].(address := second)
                 && RequeuePending(was, r, n, i + 1, affected + 1, address, wake, requeue - 1, second)
            else r[i] == was[i] && RequeuePending(was, r, n, i + 1, affected, address, wake, requeue, second)
  {
    RequeueHere(was, i, address, wake, requeue, second);
    hide RequeueFirst;
    assert r[i..][0] == r[i] && r[i..][1..] == r[i + 1..];
  }

  lemma RequeueEnd(was: seq<Entry>, r: seq<Entry>, n: nat, i: nat, affected: nat,
                   address: Word, wake: nat, requeue: nat, second: Word)
    requires RequeuePending(was, r, n, i, affected, address, wake, requeue, second)
    requires i == |was| || (wake == 0 && requeue == 0)
    ensures n == affected && |r| == |was| && forall j :: i <= j < |was| ==> r[j] == was[j]
  {
    if i < |was| {
      NothingLeft(was[i..], address, second);
    }
    assert RequeueFirst(was[i..], address, wake, requeue, second) == (was[i..], 0);
    assert forall j :: i <= j < |was| ==> r[j] == r[i..][j - i] && was[j] == was[i..][j - i];
  }

  /** One turn of the wake loop. */
  lemma WakeHere(es: seq<Entry>, i: nat, address: Word, bitset: bv32, left: nat)
    requires i < |es| && left > 0
    ensures var (r, n) := WakeFirst(es[i..], address, bitset, left);
            var hit := Matches(es[i], address, bitset);
            && r != []
            && r[0] == (if hit then Marked(es[i]) else es[i])
            && r[1..] == WakeFirst(es[i + 1..], address, bitset, if hit then left - 1 else left).0
            && n == (if hit then 1 else 0) + WakeFirst(es[i + 1..], address, bitset, if hit then left - 1 else left).1
  {
    assert es[i..][1..] == es[i + 1..];
  }

  /** One turn of the requeue loop. */
  lemma RequeueHere(es: seq<Entry>, i: nat, address: Word, wake: nat, requeue: nat, second: Word)
    requires i < |es|
    ensures var (r, n) := RequeueFirst(es[i..], address, wake, requeue, second);
            var mark := Waits(es[i], address) && wake > 0;
            var move := Waits(es[i], address) && wake == 0 && requeue > 0;
            && r != []
            && r[0] == (if mark then Marked(es[i]) else if move then es[i].(address := second) else es[i])
            && r[1..] == RequeueFirst(es[i + 1..], address, if mark then wake - 1 else wake,
                                      if move then requeue - 1 else requeue, second).0
            && n == (if mark || move then 1 else 0)
                    + RequeueFirst(es[i + 1..], address, if mark then wake - 1 else wake,
                                   if move then requeue - 1 else requeue, second).1
  {
    assert es[i..][1..] == es[i + 1..];
  }

  /** With both counts used up the rest of the list is left alone, which is why the loop may stop. */
  lemma {:induction false} NothingLeft(es: seq<Entry>, address: Word, second: Word)
    ensures RequeueFirst(es, address, 0, 0, second) == (es, 0)
  {
    if es != [] {
      NothingLeft(es[1..], address, second);
      assert es == [es[0]] + es[1..];
    }
  }
}
