/**
 The two monitors of the kernel, the sleep lock of kernel/synch.c and the bounded
 queue of kernel/bbq.c, for any number of threads.  A method is one critical
 section: from taking the spin lock to giving it up, at the end or inside a wait.
 Every order of sections is an interleaving of the threads.
 */
module Monitors {
  import opened Sequences
  import opened Wrappers

  // ----- Counting threads in a phase -----

  datatype Phase =
    | Outside
    | Asleep(forItem: bool)   // on a waiter list
    | Woken(forItem: bool)    // taken off the list, still to check again
    | Holding                 // has the sleep lock

  /** How many of the first `n` threads are in phase `p`. */
  function CountTo(ph: seq<Phase>, p: Phase, n: nat): (k: nat)
    requires n <= |ph|
  {
    if n == 0 then 0 else CountTo(ph, p, n - 1) + (if ph[n - 1] == p then 1 else 0)
  }

  function Count(ph: seq<Phase>, p: Phase): (k: nat) { CountTo(ph, p, |ph|) }

  lemma {:induction false} CountToUpdate(ph: seq<Phase>, p: Phase, t: nat, q: Phase, n: nat)
    requires t < |ph| && n <= |ph|
    ensures CountTo(ph[t := q], p, n) ==
            CountTo(ph, p, n) + if t < n then (if q == p then 1 else 0) - (if ph[t] == p then 1 else 0) else 0
    decreases n
  {
    if n > 0 { CountToUpdate(ph, p, t, q, n - 1); }
  }

  lemma CountUpdate(ph: seq<Phase>, p: Phase, t: nat, q: Phase)
    requires t < |ph|
    ensures Count(ph[t := q], p) == Count(ph, p) - (if ph[t] == p then 1 else 0) + (if q == p then 1 else 0)
  {
    CountToUpdate(ph, p, t, q, |ph|);
  }

  lemma {:induction false} CountFound(ph: seq<Phase>, p: Phase, n: nat) returns (t: nat)
    requires n <= |ph| && CountTo(ph, p, n) > 0
    ensures t < |ph| && ph[t] == p
    decreases n
  {
    if ph[n - 1] == p { t := n - 1; } else { t := CountFound(ph, p, n - 1); }
  }

  // ----- Waiter lists -----

  /** The list holds exactly the threads asleep for the given reason, each once. */
  ghost predicate Waiters(ph: seq<Phase>, l: seq<nat>, forItem: bool) {
    Distinct(l) && forall x: nat {:trigger x in l} :: x in l <==> x < |ph| && ph[x] == Asleep(forItem)
  }

  lemma WaitersSame(ph: seq<Phase>, l: seq<nat>, b: bool, t: nat, q: Phase)
    requires Waiters(ph, l, b) && t < |ph| && ph[t] != Asleep(b) && q != Asleep(b)
    ensures Waiters(ph[t := q], l, b)
  {
  }

  lemma WaitersJoin(ph: seq<Phase>, l: seq<nat>, b: bool, t: nat)
    requires Waiters(ph, l, b) && t < |ph| && ph[t] != Asleep(b)
    ensures Waiters(ph[t := Asleep(b)], l + [t], b)
  {
    assert t !in l;
    forall x: nat
      ensures x in l + [t] <==> x < |ph| && ph[t := Asleep(b)][x] == Asleep(b)
    {
      assert x in l + [t] <==> x in l || x == t;
    }
  }

  lemma WaitersLeave(ph: seq<Phase>, l: seq<nat>, b: bool)
    requires Waiters(ph, l, b) && l != []
    ensures l[0] < |ph| && ph[l[0]] == Asleep(b) && Waiters(ph[l[0] := Woken(b)], l[1..], b)
  {
    assert l[0] in l;
    forall x: nat
      ensures x in l[1..] <==> x < |ph| && ph[l[0] := Woken(b)][x] == Asleep(b)
    {
      assert l == [l[0]] + l[1..];
      assert x in l <==> x == l[0] || x in l[1..];
    }
  }

  /** The phases after the first thread of a waiter list, if any, has been woken. */
  ghost function Signalled(ph: seq<Phase>, l: seq<nat>, forItem: bool): (ph': seq<Phase>) {
    if l != [] && l[0] < |ph| then ph[l[0] := Woken(forItem)] else ph
  }

  // ----- The sleep lock -----

  class SleepLock {
    var holder: Option<nat>
    var waiters: seq<nat>
    /** What every thread is doing with this lock. */
    ghost var phase: seq<Phase>

    /**
     At most one thread holds the lock; and when it is free while threads wait, one of
     them has been woken and is still to check again.
     */
    ghost predicate Valid()
      reads this
    {
      && (forall t :: 0 <= t < |phase| ==> (phase[t] == Holding <==> holder == Some(t)))
      && (holder.Some? ==> holder.value < |phase|)
      && Waiters(phase, waiters, true)
      && (holder.None? && waiters != [] ==> Count(phase, Woken(true)) > 0)
    }

    constructor (ghost threads: nat)
      ensures Valid() && holder.None? && waiters == [] && |phase| == threads
      ensures forall t :: 0 <= t < threads ==> phase[t] == Outside
    {
      holder, waiters := None, [];
      phase := seq(threads, _ => Outside);
    }

    /** One round of the acquire loop: take the lock, or go to sleep. */
    method Acquire(t: nat) returns (got: bool)
      requires Valid() && t < |phase| && (phase[t] == Outside || phase[t] == Woken(true))
      modifies this
      ensures Valid() && got == old(holder).None?
      ensures phase == old(phase)[t := if got then Holding else Asleep(true)]
      ensures holder == (if got then Some(t) else old(holder))
      ensures waiters == old(waiters) + (if got then [] else [t])
    {
      if holder.None? {
        holder := Some(t);
        WaitersSame(phase, waiters, true, t, Holding);
        phase := phase[t := Holding];
        return true;
      }
      waiters := waiters + [t];
      WaitersJoin(phase, old(waiters), true, t);
      phase := phase[t := Asleep(true)];
      return false;
    }

    method TryAcquire(t: nat) returns (got: bool)
      requires Valid() && t < |phase| && phase[t] == Outside
      modifies this
      ensures Valid() && got == old(holder).None? && waiters == old(waiters)
      ensures phase == (if got then old(phase)[t := Holding] else old(phase))
      ensures holder == (if got then Some(t) else old(holder))
    {
      if holder.Some? { return false; }
      holder := Some(t);
      WaitersSame(phase, waiters, true, t, Holding);
      phase := phase[t := Holding];
      return true;
    }

    /** Give up the lock and wake the first waiter. */
    method Release(t: nat)
      requires Valid() && holder == Some(t)
      modifies this
      ensures Valid() && holder.None?
      ensures waiters == if old(waiters) == [] then [] else old(waiters)[1..]
      ensures old(waiters) != [] ==> old(waiters)[0] < |old(phase)|
      ensures phase == if old(waiters) == [] then old(phase)[t := Outside]
                       else old(phase)[t := Outside][old(waiters)[0] := Woken(true)]
    {
      holder := None;
      WaitersSame(phase, waiters, true, t, Outside);
      phase := phase[t := Outside];
      if waiters != [] {
        WaitersLeave(phase, waiters, true);
        ghost var w := waiters[0];
        CountUpdate(phase, Woken(true), w, Woken(true));
        phase := phase[w := Woken(true)];
        waiters := waiters[1..];
      }
    }

    /** A free lock with waiters always has a thread on its way to take it. */
    lemma NoLostWakeup() returns (t: nat)
      requires Valid() && holder.None? && waiters != []
      ensures t < |phase| && phase[t] == Woken(true)
    {
      t := CountFound(phase, Woken(true), |phase|);
    }
  }

  // ----- The bounded queue -----

  const SIZE: nat := 512

  /**
   Once threads wait for one side (items or room), each unit of it that is there is
   matched by a woken thread that is still to check again.
   */
  ghost predicate NoneForgotten(ph: seq<Phase>, waiters: seq<nat>, forItem: bool, avail: int) {
    waiters != [] ==> avail <= Count(ph, Woken(forItem))
  }

  /** What has been removed is a prefix of what has been inserted; the buffer holds the rest. */
  ghost predicate Holds(buf: seq<char>, front: nat, nextEmpty: nat, inserted: seq<char>, removed: seq<char>) {
    && |buf| == SIZE && front <= nextEmpty <= front + SIZE
    && |inserted| == nextEmpty && removed == inserted[..front]
    && forall k :: front <= k < nextEmpty ==> buf[k % 512] == inserted[k]
  }

  lemma HoldsStore(buf: seq<char>, front: nat, nextEmpty: nat, inserted: seq<char>, removed: seq<char>, item: char)
    requires Holds(buf, front, nextEmpty, inserted, removed) && nextEmpty - front < SIZE
    ensures Holds(buf[nextEmpty % 512 := item], front, nextEmpty + 1, inserted + [item], removed)
  {
  }

  lemma HoldsTake(buf: seq<char>, front: nat, nextEmpty: nat, inserted: seq<char>, removed: seq<char>)
    requires Holds(buf, front, nextEmpty, inserted, removed) && front < nextEmpty
    ensures Holds(buf, front + 1, nextEmpty, inserted, removed + [buf[front % 512]])
  {
  }

  class BoundedQueue {
    const items: array<char>
    var front: nat
    var nextEmpty: nat
    var itemAdded: seq<nat>     // threads waiting for an item
    var itemRemoved: seq<nat>   // threads waiting for room
    ghost var phase: seq<Phase>
    /** Everything ever inserted and everything ever removed, in order. */
    ghost var inserted: seq<char>
    ghost var removed: seq<char>

    ghost predicate Contents()
      reads this, items
    {
      Holds(items[..], front, nextEmpty, inserted, removed)
    }

    ghost predicate Lists()
      reads this
    {
      Waiters(phase, itemAdded, true) && Waiters(phase, itemRemoved, false)
    }

    ghost predicate Valid()
      reads this, items
    {
      && Contents() && Lists()
      && NoneForgotten(phase, itemAdded, true, nextEmpty - front)
      && NoneForgotten(phase, itemRemoved, false, SIZE - (nextEmpty - front))
    }

    constructor (ghost threads: nat)
      ensures Valid() && fresh(items) && front == nextEmpty == 0 && inserted == removed == []
      ensures itemAdded == itemRemoved == [] && phase == seq(threads, _ => Outside)
    {
      items := new char[SIZE];
      front, nextEmpty, itemAdded, itemRemoved := 0, 0, [], [];
      phase, inserted, removed := seq(threads, _ => Outside), [], [];
    }

    /** One round of the insert loop: insert and wake a reader, or sleep until there is room. */
    method Insert(t: nat, item: char) returns (done: bool)
      requires Valid() && t < |phase| && (phase[t] == Outside || phase[t] == Woken(false))
      modifies this, items
      ensures Valid() && front == old(front) && removed == old(removed)
      ensures done == (old(nextEmpty) - old(front) < SIZE)
      ensures inserted == old(inserted) + (if done then [item] else [])
      ensures itemRemoved == old(itemRemoved) + (if done then [] else [t])
      ensures itemAdded == if done && old(itemAdded) != [] then old(itemAdded)[1..] else old(itemAdded)
      ensures phase == if done then Signalled(old(phase)[t := Outside], old(itemAdded), true)
                       else old(phase)[t := Asleep(false)]
    {
      if nextEmpty - front == SIZE {
        Sleep(t, false);
        itemRemoved := itemRemoved + [t];
        return false;
      }
      Store(item);
      FinishInsert(t);
      return true;
    }

    /** One round of the remove loop: remove and wake a writer, or sleep until there is an item. */
    method Remove(t: nat) returns (r: Option<char>)
      requires Valid() && t < |phase| && (phase[t] == Outside || phase[t] == Woken(true))
      modifies this
      ensures Valid() && inserted == old(inserted)
      ensures r.Some? == (old(front) < old(nextEmpty))
      ensures removed == old(removed) + (if r.Some? then [r.value] else [])
      ensures itemAdded == old(itemAdded) + (if r.Some? then [] else [t])
      ensures itemRemoved == if r.Some? && old(itemRemoved) != [] then old(itemRemoved)[1..] else old(itemRemoved)
      ensures phase == if r.Some? then Signalled(old(phase)[t := Outside], old(itemRemoved), false)
                       else old(phase)[t := Asleep(true)]
    {
      if front == nextEmpty {
        Sleep(t, true);
        itemAdded := itemAdded + [t];
        return None;
      }
      var item := Take();
      FinishRemove(t);
      return Some(item);
    }

    /** The effect of a completed insertion on the threads: a reader is woken. */
    method FinishInsert(t: nat)
      requires Lists() && t < |phase| && (phase[t] == Outside || phase[t] == Woken(false))
      requires NoneForgotten(phase, itemAdded, true, nextEmpty - 1 - front)
      requires NoneForgotten(phase, itemRemoved, false, SIZE - (nextEmpty - 1 - front))
      modifies `phase, `itemAdded
      ensures Lists() && phase == Signalled(old(phase)[t := Outside], old(itemAdded), true)
      ensures itemAdded == if old(itemAdded) != [] then old(itemAdded)[1..] else old(itemAdded)
      ensures NoneForgotten(phase, itemAdded, true, nextEmpty - front)
      ensures NoneForgotten(phase, itemRemoved, false, SIZE - (nextEmpty - front))
    {
      Leave(t, false);
      itemAdded := Signal(itemAdded, itemRemoved, true);
    }

    /** The effect of a completed removal on the threads: a writer is woken. */
    method FinishRemove(t: nat)
      requires Lists() && t < |phase| && (phase[t] == Outside || phase[t] == Woken(true))
      requires NoneForgotten(phase, itemAdded, true, nextEmpty - (front - 1))
      requires NoneForgotten(phase, itemRemoved, false, SIZE - (nextEmpty - (front - 1)))
      modifies `phase, `itemRemoved
      ensures Lists() && phase == Signalled(old(phase)[t := Outside], old(itemRemoved), false)
      ensures itemRemoved == if old(itemRemoved) != [] then old(itemRemoved)[1..] else old(itemRemoved)
      ensures NoneForgotten(phase, itemAdded, true, nextEmpty - front)
      ensures NoneForgotten(phase, itemRemoved, false, SIZE - (nextEmpty - front))
    {
      Leave(t, true);
      itemRemoved := Signal(itemRemoved, itemAdded, false);
    }

    method Store(item: char)
      requires Contents() && nextEmpty - front < SIZE
      modifies items, `nextEmpty, `inserted
      ensures Contents() && nextEmpty == old(nextEmpty) + 1 && inserted == old(inserted) + [item]
    {
      HoldsStore(items[..], front, nextEmpty, inserted, removed, item);
      items[nextEmpty % 512] := item;
      nextEmpty := nextEmpty + 1;
      inserted := inserted + [item];
    }

    method Take() returns (item: char)
      requires Contents() && front < nextEmpty
      modifies `front, `removed
      ensures Contents() && front == old(front) + 1 && removed == old(removed) + [item]
    {
      HoldsTake(items[..], front, nextEmpty, inserted, removed);
      item := items[front % 512];
      front := front + 1;
      removed := removed + [item];
    }

    /** Thread `t` goes to sleep for the given side. */
    ghost method Sleep(t: nat, forItem: bool)
      requires Lists() && t < |phase| && (phase[t] == Outside || phase[t] == Woken(forItem))
      modifies `phase
      ensures phase == old(phase)[t := Asleep(forItem)]
      ensures Count(phase, Woken(!forItem)) == Count(old(phase), Woken(!forItem))
      ensures Waiters(phase, if forItem then itemAdded + [t] else itemAdded, true)
      ensures Waiters(phase, if forItem then itemRemoved else itemRemoved + [t], false)
    {
      WaitersJoin(phase, if forItem then itemAdded else itemRemoved, forItem, t);
      WaitersSame(phase, if forItem then itemRemoved else itemAdded, !forItem, t, Asleep(forItem));
      CountUpdate(phase, Woken(!forItem), t, Asleep(forItem));
      phase := phase[t := Asleep(forItem)];
    }

    /** Thread `t` is done; if it had been woken it no longer counts as on its way. */
    ghost method Leave(t: nat, forItem: bool)
      requires Lists() && t < |phase| && (phase[t] == Outside || phase[t] == Woken(forItem))
      modifies `phase
      ensures phase == old(phase)[t := Outside] && Lists()
      ensures Count(phase, Woken(!forItem)) == Count(old(phase), Woken(!forItem))
      ensures Count(phase, Woken(forItem)) >= Count(old(phase), Woken(forItem)) - 1
    {
      WaitersSame(phase, itemAdded, true, t, Outside);
      WaitersSame(phase, itemRemoved, false, t, Outside);
      CountUpdate(phase, Woken(true), t, Outside);
      CountUpdate(phase, Woken(false), t, Outside);
      phase := phase[t := Outside];
    }

    /** Wake the first thread of a waiter list, if any. */
    method Signal(l: seq<nat>, ghost other: seq<nat>, forItem: bool) returns (rest: seq<nat>)
      requires Waiters(phase, l, forItem) && Waiters(phase, other, !forItem)
      modifies `phase
      ensures Waiters(phase, rest, forItem) && Waiters(phase, other, !forItem)
      ensures rest == (if l == [] then [] else l[1..]) && phase == Signalled(old(phase), l, forItem)
      ensures Count(phase, Woken(!forItem)) == Count(old(phase), Woken(!forItem))
      ensures l != [] ==> Count(phase, Woken(forItem)) == Count(old(phase), Woken(forItem)) + 1
    {
      if l == [] { return []; }
      ghost var w := l[0];
      WaitersLeave(phase, l, forItem);
      WaitersSame(phase, other, !forItem, w, Woken(forItem));
      CountUpdate(phase, Woken(true), w, Woken(forItem));
      CountUpdate(phase, Woken(false), w, Woken(forItem));
      phase := phase[w := Woken(forItem)];
      return l[1..];
    }

    /** Nobody sleeps beside available work unless a woken thread is on its way to it. */
    lemma NoLostWakeup(forItem: bool) returns (t: nat)
      requires Valid()
      requires if forItem then itemAdded != [] && front < nextEmpty else itemRemoved != [] && nextEmpty - front < SIZE
      ensures t < |phase| && phase[t] == Woken(forItem)
    {
      t := CountFound(phase, Woken(forItem), |phase|);
    }
  }
}
