/**
 What a thread goes through in the scheduler, from a wait to the lock it waited under
 and from its exit to the end of its stack, in every run of all processors.
 */
module SchedRuns {
  import opened Wrappers
  import opened SchedSpec
  import opened Sched

  type Trace = seq<(nat, Action)>

  /** In every state of a run but the last, thread `t` is not at `p`. */
  ghost predicate Avoids(from: State, run: Trace, to: State, t: nat, p: Pc)
    requires Reaches(from, run, to)
    decreases |run|
  {
    run == [] || (t < |from.pc| && from.pc[t] != p && Avoids(Do(from, run[0].0, run[0].1), run[1..], to, t, p))
  }

  /** A step of one thread changes the program counter of another only where it creates, frees or switches to it. */
  lemma OtherStep(s: State, c: nat, a: Action, t: nat)
    requires Shape(s) && Enabled(s, c, a) && t < |s.pc| && t != s.cur[c]
    ensures var s', p := Do(s, c, a), s.pc[s.cur[c]];
            && |s'.pc| == |s.pc|
            && (s'.pc[t] != s.pc[t] ==>
                  a == Create(t) || (a.Advance? && ((p.Reap? && p.dead == t) || (p.Pick? && NextThread(s, c) == t))))
  {
  }

  // ----- Locks change hands -----

  /** Lock `i` is taken or released by this step. */
  predicate Takes(s: State, c: nat, a: Action, i: nat) {
    a == TakeLock(i) || (a.Advance? && Doing(s, c) == WantLock(i))
  }

  predicate Releases(s: State, c: nat, a: Action, i: nat) {
    a == DropLock(i) || (a.Advance? && Doing(s, c) == GiveUp(Some(i)))
  }

  /** A lock is free before it is taken; it is released by its owner, and by nothing but these steps. */
  lemma LockStep(s: State, v: View, c: nat, a: Action, i: nat)
    requires Inv(s, v) && Enabled(s, c, a) && i < |s.owner|
    ensures var t, s' := s.cur[c], Do(s, c, a);
            && |s'.owner| == |s.owner|
            && (Takes(s, c, a, i) ==> s.owner[i].None? && s'.owner[i] == Some(t))
            && (Releases(s, c, a, i) ==> s.owner[i] == Some(t) && s'.owner[i].None?)
            && (!Takes(s, c, a, i) && !Releases(s, c, a, i) ==> s'.owner[i] == s.owner[i])
  {
    Current(s, v, c);
  }

  /** The same in every run. */
  lemma LocksExact(s: State, run: Trace, s': State, c: nat, a: Action, i: nat)
    requires Init(s) && Reaches(s, run, s') && Shape(s') && Enabled(s', c, a) && i < |s'.owner|
    ensures var t, s'' := s'.cur[c], Do(s', c, a);
            && |s''.owner| == |s'.owner|
            && (Takes(s', c, a, i) ==> s'.owner[i].None? && s''.owner[i] == Some(t))
            && (Releases(s', c, a, i) ==> s'.owner[i] == Some(t) && s''.owner[i].None?)
            && (!Takes(s', c, a, i) && !Releases(s', c, a, i) ==> s''.owner[i] == s'.owner[i])
  {
    var v := Always(s, run, s');
    LockStep(s', v, c, a, i);
  }

  // ----- From a wait to the lock it waited under -----

  /** Between giving up lock `l` and taking it again. */
  predicate Without(p: Pc, l: nat) {
    || p == Pick(Some(l)) || p == Off(Some(l)) || (p.Back? && p.lk == Some(l)) || (p.Reap? && p.lk == Some(l))
    || p == WantLock(l)
  }

  /** In a wait under lock `l`. */
  predicate InWait(p: Pc, l: nat) {
    p == WantSched(SLEEPING, Some(l)) || p == Mark(SLEEPING, Some(l)) || p == GiveUp(Some(l)) || Without(p, l)
  }

  ghost predicate NotHeld(s: State) {
    forall t: nat, l: nat {:trigger Without(s.pc[t], l)} :: t < |s.pc| && Without(s.pc[t], l) ==> !Owns(s, l, t)
  }

  lemma NotHeldStep(s: State, c: nat, a: Action, t: nat, l: nat)
    requires Shape(s) && NotHeld(s) && Enabled(s, c, a) && t < |s.pc|
    ensures var s' := Do(s, c, a); |s'.pc| == |s.pc| && (Without(s'.pc[t], l) ==> !Owns(s', l, t))
  {
    assert Without(s.pc[t], l) ==> !Owns(s, l, t);
    if t != s.cur[c] { OtherStep(s, c, a, t); }
  }

  lemma {:induction false} NotHeldAlways(s: State, run: Trace, s': State)
    requires Shape(s) && NotHeld(s) && Reaches(s, run, s')
    ensures NotHeld(s')
    decreases |run|
  {
    if run != [] {
      var c, a := run[0].0, run[0].1;
      var s1 := Do(s, c, a);
      forall t: nat, l: nat | t < |s1.pc| && Without(s1.pc[t], l)
        ensures !Owns(s1, l, t)
      {
        NotHeldStep(s, c, a, t, l);
      }
      if run[1..] != [] { NotHeldAlways(s1, run[1..], s'); }
    }
  }

  /** A waiter that is about to switch, switched out, or on its way back does not own the lock it gave up. */
  lemma ReleasedInWait(s: State, run: Trace, s': State, t: nat, l: nat)
    requires Init(s) && Reaches(s, run, s') && t < |s'.pc|
    requires || s'.pc[t] == Pick(Some(l)) || s'.pc[t] == Off(Some(l)) || s'.pc[t] == WantLock(l)
             || ((s'.pc[t].Back? || s'.pc[t].Reap?) && s'.pc[t].lk == Some(l))
    ensures l < |s'.owner| && s'.owner[l] != Some(t)
  {
    var v := Always(s, run, s');
    assert ThreadOk(s', v, t);
    NotHeldAlways(s, run, s');
    assert Without(s'.pc[t], l);
  }

  /** A thread that is freed is on no wait, and one that is switched to goes on where it was. */
  lemma OtherWait(s: State, v: View, c: nat, a: Action, t: nat, l: nat)
    requires Inv(s, v) && Enabled(s, c, a) && t < |s.pc| && t != s.cur[c] && InWait(s.pc[t], l)
    ensures var s' := Do(s, c, a); |s'.pc| == |s.pc| && InWait(s'.pc[t], l)
  {
    OtherStep(s, c, a, t);
    Current(s, v, c);
    assert ThreadOk(s, v, t);
    var p := s.pc[s.cur[c]];
    if a.Advance? && p.Pick? && NextThread(s, c) == t { NextIsOff(s, v, c); }
  }

  lemma OwnWait(s: State, v: View, c: nat, a: Action, l: nat)
    requires Inv(s, v) && Enabled(s, c, a) && InWait(s.pc[s.cur[c]], l)
    ensures var t, s' := s.cur[c], Do(s, c, a);
            |s'.pc| == |s.pc| && (InWait(s'.pc[t], l) || (s'.pc[t] == Run && Owns(s', l, t)))
  {
    Current(s, v, c);
    assert a.Advance?;
    if s.pc[s.cur[c]].Pick? { NextIsOff(s, v, c); }
  }

  /** A waiter stays in its wait with every step of any processor, or takes its lock and runs. */
  lemma WaitStep(s: State, v: View, c: nat, a: Action, t: nat, l: nat)
    requires Inv(s, v) && Enabled(s, c, a) && t < |s.pc| && InWait(s.pc[t], l)
    ensures var s' := Do(s, c, a);
            |s'.pc| == |s.pc| && (InWait(s'.pc[t], l) || (s'.pc[t] == Run && Owns(s', l, t)))
  {
    if t == s.cur[c] { OwnWait(s, v, c, a, l); } else { OtherWait(s, v, c, a, t, l); }
  }

  lemma {:induction false} WaitRun(s: State, v: View, run: Trace, s': State, t: nat, l: nat)
    requires Inv(s, v) && Reaches(s, run, s') && Avoids(s, run, s', t, Run)
    requires t < |s.pc| && InWait(s.pc[t], l)
    ensures t < |s'.pc| && (InWait(s'.pc[t], l) || (s'.pc[t] == Run && Owns(s', l, t)))
    decreases |run|
  {
    if run != [] {
      var c, a := run[0].0, run[0].1;
      WaitStep(s, v, c, a, t, l);
      var v1 := KeepStep(s, v, c, a);
      if run[1..] != [] { WaitRun(Do(s, c, a), v1, run[1..], s', t, l); }
    }
  }

  lemma WaitStarts(s: State, c: nat, i: nat)
    requires Shape(s) && Enabled(s, c, Wait(i))
    ensures var s' := Do(s, c, Wait(i)); s.cur[c] < |s'.pc| && InWait(s'.pc[s.cur[c]], s.lockOf[i])
  {
  }

  /** The first time that a thread runs after a wait, it owns the lock that it waited under. */
  lemma WaitReacquires(s: State, run: Trace, s1: State, c: nat, i: nat, s2: State, rest: Trace, s3: State)
    requires Init(s) && Reaches(s, run, s1) && Shape(s1) && Enabled(s1, c, Wait(i)) && s2 == Do(s1, c, Wait(i))
    requires Reaches(s2, rest, s3) && Avoids(s2, rest, s3, s1.cur[c], Run)
    requires s1.cur[c] < |s3.pc| && s3.pc[s1.cur[c]] == Run
    ensures s1.lockOf[i] < |s3.owner| && s3.owner[s1.lockOf[i]] == Some(s1.cur[c])
  {
    var v := Always(s, run, s1);
    var v2 := KeepStep(s1, v, c, Wait(i));
    WaitStarts(s1, c, i);
    WaitRun(s2, v2, rest, s3, s1.cur[c], s1.lockOf[i]);
  }

  // ----- From an exit to the end of the stack -----

  /** On the way from an exit to being switched out, or switched out for good. */
  ghost predicate Exiting(s: State, t: nat) {
    && t < |s.pc| == |s.st|
    && (|| s.pc[t] == WantSched(ZOMBIE, None) || s.pc[t] == Mark(ZOMBIE, None)
        || (s.st[t] == ZOMBIE && (s.pc[t] == GiveUp(None) || s.pc[t] == Pick(None) || s.pc[t] == Off(None))))
  }

  lemma OtherExit(s: State, v: View, c: nat, a: Action, t: nat)
    requires Inv(s, v) && Enabled(s, c, a) && Exiting(s, t) && t != s.cur[c]
    ensures var s' := Do(s, c, a); Exiting(s', t) || (t < |s'.pc| && s'.pc[t].Gone?)
  {
    OtherStep(s, c, a, t);
    Current(s, v, c);
    assert ThreadOk(s, v, t);
    var p := s.pc[s.cur[c]];
    if a.Advance? && p.Pick? { NextIsOff(s, v, c); }
    if a.Advance? && p.MakeReady? { WokenIsOff(s, v, c); }
  }

  lemma OwnExit(s: State, v: View, c: nat, a: Action)
    requires Inv(s, v) && Enabled(s, c, a) && Exiting(s, s.cur[c])
    ensures Exiting(Do(s, c, a), s.cur[c])
  {
    Current(s, v, c);
    assert a.Advance?;
    if s.pc[s.cur[c]].Pick? { NextIsOff(s, v, c); }
  }

  lemma {:induction false} ExitRun(s: State, v: View, run: Trace, s': State, t: nat)
    requires Inv(s, v) && Reaches(s, run, s') && Exiting(s, t) && Avoids(s, run, s', t, Gone)
    ensures Exiting(s', t) || (t < |s'.pc| && s'.pc[t].Gone?)
    decreases |run|
  {
    if run != [] {
      var c, a := run[0].0, run[0].1;
      if t == s.cur[c] { OwnExit(s, v, c, a); } else { OtherExit(s, v, c, a, t); }
      var v1 := KeepStep(s, v, c, a);
      if run[1..] != [] { ExitRun(Do(s, c, a), v1, run[1..], s', t); }
    }
  }

  /** A thread that exits never runs again, on any processor, until it has been freed. */
  lemma ExitIsFinal(s: State, run: Trace, s1: State, c: nat, s2: State, rest: Trace, s3: State)
    requires Init(s) && Reaches(s, run, s1) && Shape(s1) && Enabled(s1, c, Exit) && s2 == Do(s1, c, Exit)
    requires Reaches(s2, rest, s3) && Avoids(s2, rest, s3, s1.cur[c], Gone)
    ensures s1.cur[c] < |s3.pc| && s3.pc[s1.cur[c]] != Run
    ensures s3.pc[s1.cur[c]].Off? ==> s1.cur[c] < |s3.st| && s3.st[s1.cur[c]] == ZOMBIE
  {
    var v := Always(s, run, s1);
    var v2 := KeepStep(s1, v, c, Exit);
    ExitRun(s2, v2, rest, s3, s1.cur[c]);
  }

  /** A zombie that no thread will free. */
  ghost predicate Lost(s: State, t: nat) {
    && Exiting(s, t) && s.pc[t] == Off(None)
    && forall u {:trigger s.pc[u]} :: 0 <= u < |s.pc| ==> !Frees(s.pc[u], t)
  }

  predicate Frees(p: Pc, t: nat) {
    (p.Back? && p.prev == Some(t)) || (p.Reap? && p.dead == t)
  }

  /** Only a switch away from a thread makes another the one to free it. */
  lemma FreesOnly(s: State, c: nat, a: Action, t: nat, u: nat)
    requires Shape(s) && Enabled(s, c, a) && u < |s.pc| && t != s.cur[c]
    requires !Frees(s.pc[u], t) && !Frees(s.pc[s.cur[c]], t)
    ensures var s' := Do(s, c, a); u < |s'.pc| && !Frees(s'.pc[u], t)
  {
  }

  lemma LostStep(s: State, v: View, c: nat, a: Action, t: nat)
    requires Inv(s, v) && Enabled(s, c, a) && Lost(s, t)
    ensures Lost(Do(s, c, a), t)
  {
    Current(s, v, c);
    assert ThreadOk(s, v, t) && t != s.cur[c];
    OtherExit(s, v, c, a, t);
    OtherStep(s, c, a, t);
    var s' := Do(s, c, a);
    forall u | 0 <= u < |s'.pc|
      ensures !Frees(s'.pc[u], t)
    {
      FreesOnly(s, c, a, t, u);
    }
  }

  lemma {:induction false} LostRun(s: State, v: View, run: Trace, s': State, t: nat)
    requires Inv(s, v) && Reaches(s, run, s') && Lost(s, t)
    ensures Lost(s', t)
    decreases |run|
  {
    if run != [] {
      var c, a := run[0].0, run[0].1;
      LostStep(s, v, c, a, t);
      var v1 := KeepStep(s, v, c, a);
      LostRun(Do(s, c, a), v1, run[1..], s', t);
    }
  }

  /** Processor `c` is about to switch away from a thread that has exited. */
  ghost predicate Leaves(s: State, c: nat) {
    Shape(s) && Enabled(s, c, Advance) && Doing(s, c).Pick? && s.st[s.cur[c]] == ZOMBIE
  }

  lemma LeaveStep(s: State, v: View, c: nat)
    requires Inv(s, v) && Leaves(s, c)
    ensures var t, w, s' := s.cur[c], NextThread(s, c), Do(s, c, Advance);
            && w < |s.pc| == |s'.pc| && w != t && Exiting(s', t) && s'.pc[t] == Off(None) && s'.cur[c] == w
            && (if s.pc[w].Fresh? then Lost(s', t) else s'.pc[w].Back? && s'.pc[w].prev == Some(t))
  {
    var t, w, s' := s.cur[c], NextThread(s, c), Do(s, c, Advance);
    Current(s, v, c);
    NextIsOff(s, v, c);
    if s.pc[w].Fresh? {
      forall u | 0 <= u < |s'.pc|
        ensures !Frees(s'.pc[u], t)
      {
        assert ThreadOk(s, v, u);
      }
    }
  }

  /** The thread that was switched to frees the zombie in its next two steps. */
  lemma FreeRun(s: State, c: nat, t: nat) returns (run: Trace, s': State)
    requires Shape(s) && c < |s.cur| && t < |s.pc| && s.st[t] == ZOMBIE && t != s.cur[c]
    requires Doing(s, c).Back? && Doing(s, c).prev == Some(t)
    ensures Reaches(s, run, s') && t < |s'.pc| && s'.pc[t].Gone?
  {
    var s1 := Do(s, c, Advance);
    assert Doing(s1, c) == Reap(t, Doing(s, c).lk);
    s' := Do(s1, c, Advance);
    run := [(c, Advance), (c, Advance)];
    assert run[1..] == [(c, Advance)] && run[1..][1..] == [];
    assert Reaches(s', run[1..][1..], s');
    assert Reaches(s1, run[1..], s');
  }

  ghost predicate GoneIn(s: State, t: nat) { t < |s.pc| && s.pc[t].Gone? }

  /** Thread `t` is freed in some run from here on. */
  ghost predicate CanBeFreed(s: State, t: nat) {
    exists run: Trace, s' :: Reaches(s, run, s') && GoneIn(s', t)
  }

  lemma LostForGood(s: State, v: View, t: nat)
    requires Inv(s, v) && Lost(s, t)
    ensures !CanBeFreed(s, t)
  {
    forall run: Trace, s' | Reaches(s, run, s')
      ensures !GoneIn(s', t)
    {
      LostRun(s, v, run, s', t);
    }
  }

  /**
   A thread that exits can be freed if and only if the thread that is switched to has run before: one that starts
   does not look at the one that ran before it.
   */
  lemma ZombieFreedExactly(s: State, run: Trace, s1: State, c: nat)
    requires Init(s) && Reaches(s, run, s1) && Leaves(s1, c)
    ensures NextThread(s1, c) < |s1.pc|
    ensures CanBeFreed(Do(s1, c, Advance), s1.cur[c]) <==> !s1.pc[NextThread(s1, c)].Fresh?
  {
    var v := Always(s, run, s1);
    LeaveStep(s1, v, c);
    var v1 := KeepStep(s1, v, c, Advance);
    var s', t := Do(s1, c, Advance), s1.cur[c];
    if s1.pc[NextThread(s1, c)].Fresh? {
      LostForGood(s', v1, t);
    } else {
      var rest, s2 := FreeRun(s', c, t);
      assert Reaches(s', rest, s2) && GoneIn(s2, t);
    }
  }

  /** And if it has, it does nothing else before it has freed the zombie. */
  lemma FreesStep(s: State, v: View, c: nat, a: Action, w: nat, t: nat)
    requires Inv(s, v) && Enabled(s, c, a) && w < |s.pc| && Frees(s.pc[w], t) && Exiting(s, t) && s.pc[t] == Off(None)
    ensures var s' := Do(s, c, a);
            |s'.pc| == |s.pc| && (s'.pc[t].Gone? || (Frees(s'.pc[w], t) && Exiting(s', t) && s'.pc[t] == Off(None)))
  {
    Current(s, v, c);
    assert ThreadOk(s, v, t) && t != s.cur[c];
    OtherExit(s, v, c, a, t);
    OtherStep(s, c, a, t);
    assert ThreadOk(s, v, w);
    if w != s.cur[c] {
      OtherStep(s, c, a, w);
      if a.Advance? && s.pc[s.cur[c]].Pick? { NextIsOff(s, v, c); }
    }
  }

  lemma {:induction false} FreesRun(s: State, v: View, run: Trace, s': State, w: nat, t: nat)
    requires Inv(s, v) && Reaches(s, run, s') && Avoids(s, run, s', t, Gone)
    requires w < |s.pc| && Frees(s.pc[w], t) && Exiting(s, t) && s.pc[t] == Off(None)
    ensures w < |s'.pc| && t < |s'.pc| && (s'.pc[t].Gone? || Frees(s'.pc[w], t))
    decreases |run|
  {
    if run != [] {
      var c, a := run[0].0, run[0].1;
      FreesStep(s, v, c, a, w, t);
      var v1 := KeepStep(s, v, c, a);
      if run[1..] != [] { FreesRun(Do(s, c, a), v1, run[1..], s', w, t); }
    }
  }

  lemma ZombieFreedFirst(s: State, run: Trace, s1: State, c: nat, s2: State, rest: Trace, s3: State)
    requires Init(s) && Reaches(s, run, s1) && Leaves(s1, c) && s2 == Do(s1, c, Advance)
    requires NextThread(s1, c) < |s1.pc| && !s1.pc[NextThread(s1, c)].Fresh?
    requires Reaches(s2, rest, s3) && Avoids(s2, rest, s3, s1.cur[c], Gone)
    ensures var t, w := s1.cur[c], NextThread(s1, c);
            t < |s3.pc| && w < |s3.pc| && (s3.pc[t].Gone? || Frees(s3.pc[w], t))
  {
    var v := Always(s, run, s1);
    LeaveStep(s1, v, c);
    var v2 := KeepStep(s1, v, c, Advance);
    FreesRun(s2, v2, rest, s3, NextThread(s1, c), s1.cur[c]);
  }

  // ----- Switching -----

  /** A switch lets the head of the ready queue run, or the idle thread, and concerns no other processor. */
  lemma SwitchRuns(s: State, run: Trace, s': State, c: nat, d: nat, u: nat)
    requires Init(s) && Reaches(s, run, s') && Doing(s', c).Pick? && d < |s'.cur| && u < |s'.st|
    ensures Shape(s') && Enabled(s', c, Advance)
    ensures var s'', w := Do(s', c, Advance), if s'.ready != [] then s'.ready[0] else s'.idle[c];
            && |s''.cur| == |s'.cur| && |s''.st| == |s'.st| && w < |s''.st| && s''.cur[c] == w && s''.st[w] == RUNNING
            && (d != c ==> s''.cur[d] == s'.cur[d]) && (u != w ==> s''.st[u] == s'.st[u])
            && (s'.ready != [] ==> s''.ready == s'.ready[1..]) && (s'.ready == [] ==> s''.ready == [])
  {
    var v := Always(s, run, s');
    NextIsOff(s', v, c);
  }

  // ----- No thread is forgotten -----

  /** A thread that is not running, not idle and no zombie is queued, waits, or is about to be queued. */
  lemma NoThreadLost(s: State, run: Trace, s': State, t: nat) returns (u: nat, i: nat)
    requires Init(s) && Reaches(s, run, s') && t < |s'.pc| == |s'.st| && t !in s'.idle
    requires s'.pc[t].Fresh? || (s'.pc[t].Off? && s'.st[t] != ZOMBIE)
    ensures || t in s'.ready || (i < |s'.cvs| && t in s'.cvs[i])
            || (u < |s'.pc| && (s'.pc[u] == WantReady(t) || s'.pc[u] == MakeReady(t)))
  {
    var v := Always(s, run, s');
    assert ThreadOk(s', v, t);
    u, i := if v.place[t].InHand? then v.place[t].u else 0, 0;
    assert t in s'.ready <==> v.place[t] == InReady;
    if v.place[t].InCv? {
      i := v.place[t].i;
      assert ListOk(v.place, s'.cvs[i], InCv(i));
      assert t in s'.cvs[i];
    }
  }
}
