/**
 In which order threads get their turn: what yielding, waiting, signalling and creating
 a thread mean for the queues, in every run of all processors.
 */
module SchedOrder {
  import opened Wrappers
  import opened SchedSpec
  import opened Sched
  import opened SchedRuns

  // ----- Yielding -----

  /**
   Thread `t` has yielded, and at least `m` threads are to be dispatched before it: it is about to join the ready
   queue, which has that many, or is behind that many.
   */
  ghost predicate Yielding(s: State, t: nat, m: nat) {
    t < |s.pc| &&
    if s.pc[t] == WantSched(READY, None) || s.pc[t] == Mark(READY, None) then m <= |s.ready|
    else exists k :: m <= k < |s.ready| && s.ready[k] == t
  }

  lemma YieldingNotRun(s: State, v: View, t: nat, m: nat)
    requires Inv(s, v) && Yielding(s, t, m)
    ensures s.pc[t] != Run
  {
    assert ThreadOk(s, v, t);
    if t in s.ready { assert v.place[t] == InReady; }
  }

  /** The steps of another thread change the program counter of a ready thread only by dispatching it. */
  lemma YieldOther(s: State, v: View, c: nat, a: Action, t: nat, m: nat)
    requires Inv(s, v) && Enabled(s, c, a) && Yielding(s, t, m) && t != s.cur[c]
    requires s.pc[t] == WantSched(READY, None) || s.pc[t] == Mark(READY, None)
    ensures (Pops(s, c, a) && m == 0) || Yielding(Do(s, c, a), t, if Pops(s, c, a) then m - 1 else m)
  {
    OtherStep(s, c, a, t);
    Current(s, v, c);
    assert ThreadOk(s, v, t);
    if a.Advance? && s.pc[s.cur[c]].Pick? { NextIsOff(s, v, c); }
  }

  lemma YieldOwn(s: State, v: View, c: nat, a: Action, m: nat)
    requires Inv(s, v) && Enabled(s, c, a) && Yielding(s, s.cur[c], m) && s.cur[c] !in s.idle
    requires s.pc[s.cur[c]] == WantSched(READY, None) || s.pc[s.cur[c]] == Mark(READY, None)
    ensures !Pops(s, c, a) && Yielding(Do(s, c, a), s.cur[c], m)
  {
    var s' := Do(s, c, a);
    if s.pc[s.cur[c]].Mark? { assert s'.ready[|s.ready|] == s.cur[c]; }
  }

  lemma YieldQueued(s: State, v: View, c: nat, a: Action, t: nat, m: nat)
    requires Inv(s, v) && Enabled(s, c, a) && Yielding(s, t, m)
    requires s.pc[t] != WantSched(READY, None) && s.pc[t] != Mark(READY, None)
    ensures (Pops(s, c, a) && m == 0) || Yielding(Do(s, c, a), t, if Pops(s, c, a) then m - 1 else m)
  {
    var k :| m <= k < |s.ready| && s.ready[k] == t;
    if !Pops(s, c, a) || k > 0 {
      ReadyStep(s, c, a, k);
      var v' := KeepStep(s, v, c, a);
      var s' := Do(s, c, a);
      assert t in s'.ready;
      assert v'.place[t] == InReady;
      assert ThreadOk(s', v', t);
    }
  }

  lemma {:induction false} YieldRun(s: State, v: View, run: Trace, s': State, t: nat, m: nat)
    requires Inv(s, v) && Reaches(s, run, s') && Yielding(s, t, m) && t !in s.idle
    requires t < |s'.pc| && s'.pc[t] == Run
    ensures Dispatches(s, run, s') > m
    decreases |run|
  {
    if run == [] {
      YieldingNotRun(s, v, t, m);
    } else {
      var c, a, rest := run[0].0, run[0].1, run[1..];
      if s.pc[t] != WantSched(READY, None) && s.pc[t] != Mark(READY, None) {
        YieldQueued(s, v, c, a, t, m);
      } else if t == s.cur[c] {
        YieldOwn(s, v, c, a, m);
      } else {
        YieldOther(s, v, c, a, t, m);
      }
      var v1 := KeepStep(s, v, c, a);
      if !(Pops(s, c, a) && m == 0) { YieldRun(Do(s, c, a), v1, rest, s', t, if Pops(s, c, a) then m - 1 else m); }
    }
  }

  /** A thread that yields runs again only after all that were ready have been dispatched, and it once more. */
  lemma YieldGivesWay(s: State, run: Trace, s1: State, c: nat, s2: State, rest: Trace, s3: State)
    requires Init(s) && Reaches(s, run, s1) && Shape(s1) && Enabled(s1, c, Yield) && s2 == Do(s1, c, Yield)
    requires s1.cur[c] !in s1.idle
    requires Reaches(s2, rest, s3) && s1.cur[c] < |s3.pc| && s3.pc[s1.cur[c]] == Run
    ensures Dispatches(s2, rest, s3) > |s1.ready|
  {
    var v := Always(s, run, s1);
    var v2 := KeepStep(s1, v, c, Yield);
    YieldRun(s2, v2, rest, s3, s1.cur[c], |s1.ready|);
  }

  // ----- Waiting -----

  /** The number of signals on condition variable `i` during a run. */
  ghost function Signals(from: State, run: Trace, to: State, i: nat): (n: nat)
    requires Reaches(from, run, to)
    decreases |run|
  {
    if run == [] then 0
    else (if run[0].1 == Signal(i) then 1 else 0) + Signals(Do(from, run[0].0, run[0].1), run[1..], to, i)
  }

  /** Thread `t` waits behind `k` others. */
  ghost predicate WaitsAt(s: State, t: nat, i: nat, k: nat) {
    i < |s.cvs| && k < |s.cvs[i]| && s.cvs[i][k] == t
  }

  lemma WaitsAtStep(s: State, c: nat, a: Action, t: nat, i: nat, k: nat)
    requires Shape(s) && Enabled(s, c, a) && WaitsAt(s, t, i, k) && (a == Signal(i) ==> k > 0)
    ensures WaitsAt(Do(s, c, a), t, i, if a == Signal(i) then k - 1 else k)
  {
  }

  lemma {:induction false} WaitersRun(s: State, v: View, run: Trace, s': State, t: nat, i: nat, k: nat)
    requires Inv(s, v) && Reaches(s, run, s') && WaitsAt(s, t, i, k)
    ensures Signals(s, run, s', i) <= k ==> WaitsAt(s', t, i, k - Signals(s, run, s', i)) && NotRunning(s', t)
    decreases |run|
  {
    if run == [] {
      assert ListOk(v.place, s.cvs[i], InCv(i)) && t in s.cvs[i];
      assert ThreadOk(s, v, t);
    } else if Signals(s, run, s', i) <= k {
      var c, a, rest := run[0].0, run[0].1, run[1..];
      WaitsAtStep(s, c, a, t, i, k);
      var v1 := KeepStep(s, v, c, a);
      WaitersRun(Do(s, c, a), v1, rest, s', t, i, if a == Signal(i) then k - 1 else k);
    }
  }

  ghost predicate NotRunning(s: State, t: nat) {
    t < |s.pc| && s.pc[t] != Run
  }

  /**
   A thread that waits behind k others is still there, and does not run, as long as there have been at most k
   signals, moved up by one place for each.
   */
  lemma WaitersInOrder(s: State, run: Trace, s1: State, c: nat, i: nat, s2: State, rest: Trace, s3: State)
    requires Init(s) && Reaches(s, run, s1) && Shape(s1) && Enabled(s1, c, Wait(i)) && s2 == Do(s1, c, Wait(i))
    requires Reaches(s2, rest, s3)
    ensures var k, n := |s1.cvs[i]|, Signals(s2, rest, s3, i);
            n <= k ==> WaitsAt(s3, s1.cur[c], i, k - n) && NotRunning(s3, s1.cur[c])
  {
    var v := Always(s, run, s1);
    var v2 := KeepStep(s1, v, c, Wait(i));
    assert WaitsAt(s2, s1.cur[c], i, |s1.cvs[i]|);
    WaitersRun(s2, v2, rest, s3, s1.cur[c], i, |s1.cvs[i]|);
  }

  // ----- Waking -----

  /** In some step of the run thread `w` joins the ready queue, at its end and in state READY. */
  ghost predicate QueuedIn(from: State, run: Trace, to: State, w: nat)
    requires Reaches(from, run, to)
    decreases |run|
  {
    run != [] &&
    var s' := Do(from, run[0].0, run[0].1);
    Joins(from, s', w) || QueuedIn(s', run[1..], to, w)
  }

  ghost predicate Joins(s: State, s': State, w: nat) {
    w !in s.ready && s'.ready == s.ready + [w] && w < |s'.st| && s'.st[w] == READY
  }

  predicate Wakes(p: Pc, w: nat) { p == WantReady(w) || p == MakeReady(w) }

  lemma WakeStep(s: State, v: View, c: nat, a: Action, u: nat, w: nat)
    requires Inv(s, v) && Enabled(s, c, a) && u < |s.pc| && Wakes(s.pc[u], w)
    ensures var s' := Do(s, c, a); |s'.pc| == |s.pc| && (Wakes(s'.pc[u], w) || Joins(s, s', w))
  {
    Current(s, v, c);
    assert ThreadOk(s, v, u);
    if u != s.cur[c] {
      OtherStep(s, c, a, u);
      if a.Advance? && s.pc[s.cur[c]].Pick? { NextIsOff(s, v, c); }
    } else if s.pc[u].MakeReady? {
      assert w in s.ready <==> v.place[w] == InReady;
    }
  }

  lemma {:induction false} WakeRun(s: State, v: View, run: Trace, s': State, u: nat, w: nat)
    requires Inv(s, v) && Reaches(s, run, s') && u < |s.pc| && Wakes(s.pc[u], w)
    ensures u < |s'.pc| && (Wakes(s'.pc[u], w) || QueuedIn(s, run, s', w))
    decreases |run|
  {
    if run != [] {
      var c, a := run[0].0, run[0].1;
      WakeStep(s, v, c, a, u, w);
      var s1 := Do(s, c, a);
      var v1 := KeepStep(s, v, c, a);
      SameSize(s1, run[1..], s');
      if !Joins(s, s1, w) { WakeRun(s1, v1, run[1..], s', u, w); }
    }
  }

  lemma {:induction false} SameSize(s: State, run: Trace, s': State)
    requires Reaches(s, run, s')
    ensures |s'.pc| == |s.pc|
    decreases |run|
  {
    if run != [] { SameSize(Do(s, run[0].0, run[0].1), run[1..], s'); }
  }

  /** Before a thread that signals runs on, the first waiter has joined the ready queue. */
  lemma SignalQueues(s: State, run: Trace, s1: State, c: nat, i: nat, s2: State, rest: Trace, s3: State)
    requires Init(s) && Reaches(s, run, s1) && Shape(s1) && Enabled(s1, c, Signal(i)) && s2 == Do(s1, c, Signal(i))
    requires Reaches(s2, rest, s3) && s1.cur[c] < |s3.pc| && s3.pc[s1.cur[c]] == Run
    ensures QueuedIn(s2, rest, s3, s1.cvs[i][0])
  {
    var v := Always(s, run, s1);
    var v2 := KeepStep(s1, v, c, Signal(i));
    WakeRun(s2, v2, rest, s3, s1.cur[c], s1.cvs[i][0]);
  }

  /** Before a thread that creates another runs on, the new one has joined the ready queue. */
  lemma CreateQueues(s: State, run: Trace, s1: State, c: nat, w: nat, s2: State, rest: Trace, s3: State)
    requires Init(s) && Reaches(s, run, s1) && Shape(s1) && Enabled(s1, c, Create(w)) && s2 == Do(s1, c, Create(w))
    requires Reaches(s2, rest, s3) && s1.cur[c] < |s3.pc| && s3.pc[s1.cur[c]] == Run
    ensures QueuedIn(s2, rest, s3, w)
  {
    var v := Always(s, run, s1);
    var v2 := KeepStep(s1, v, c, Create(w));
    WakeRun(s2, v2, rest, s3, s1.cur[c], w);
  }
}
