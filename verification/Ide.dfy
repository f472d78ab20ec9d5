/**
 The disk request protocol of kernel/drivers/ide.c and kernel/bdev.c as a state
 machine: threads submit requests and call the driver, the disk interrupts when a
 command is finished.  Steps are atomic between two uses of a lock.
 */
module Ide {
  import opened Sequences
  import opened Wrappers

  /** Where the thread that submits a request is. */
  datatype Submit =
    | Fresh            // not submitted yet
    | Queued           // on the queue; about to call the request handler
    | Locked           // in the handler, with the driver lock
    | Picked(x: nat)   // found the driver idle and request x at the front; about to issue it
    | Leaving          // about to release the driver lock
    | Waiting          // waits for completion
    | Returned

  /** Where the interrupt handler is. */
  datatype Trap =
    | Off
    | Entered           // has the driver lock
    | Popped(x: nat)    // took request x off the queue
    | Completed         // has completed it; about to look for the next one
    | Next(x: nat)      // found x at the front; about to issue it
    | Exiting           // about to release the driver lock

  datatype Lock = Open | HeldBy(t: nat) | HeldByTrap

  /** `disk` is the request that the disk is working on or has just finished. */
  datatype State = State(
    pc: seq<Submit>, trap: Trap, lock: Lock, busy: bool, disk: Option<nat>,
    queue: seq<nat>, submitted: seq<nat>, done: seq<nat>)

  datatype Action = Submitter(t: nat) | Interrupt | Handler

  predicate Enabled(s: State, a: Action) {
    match a
    case Submitter(t) =>
      t < |s.pc| &&
      (match s.pc[t]
       case Fresh => true
       case Queued => s.lock.Open?
       case Waiting => t in s.done
       case Returned => false
       case _ => true)
    case Interrupt => s.trap.Off? && s.lock.Open? && (s.disk.Some? || !s.busy)
    case Handler => !s.trap.Off? && (s.trap.Entered? && s.busy ==> s.queue != [])
  }

  function DoSubmitter(s: State, t: nat): (s': State)
    requires Enabled(s, Submitter(t))
  {
    match s.pc[t]
    case Fresh => s.(pc := s.pc[t := Queued], queue := s.queue + [t], submitted := s.submitted + [t])
    case Queued => s.(pc := s.pc[t := Locked], lock := HeldBy(t))
    case Locked => s.(pc := s.pc[t := if !s.busy && s.queue != [] then Picked(s.queue[0]) else Leaving])
    case Picked(x) => s.(pc := s.pc[t := Leaving], busy := true, disk := Some(x))
    case Leaving => s.(pc := s.pc[t := Waiting], lock := Open)
    case Waiting => s.(pc := s.pc[t := Returned])
    case Returned => s
  }

  /** The interrupt that ends a command, or one that finds the driver idle. */
  function DoInterrupt(s: State): (s': State) {
    s.(trap := Entered, lock := HeldByTrap, disk := None)
  }

  function DoHandler(s: State): (s': State)
    requires Enabled(s, Handler)
  {
    match s.trap
    case Entered => if s.busy then s.(trap := Popped(s.queue[0]), queue := s.queue[1..]) else s.(trap := Exiting)
    case Popped(x) => s.(trap := Completed, done := s.done + [x])
    case Completed => if s.queue != [] then s.(trap := Next(s.queue[0])) else s.(trap := Exiting, busy := false)
    case Next(x) => s.(trap := Exiting, disk := Some(x))
    case Exiting => s.(trap := Off, lock := Open)
    case Off => s
  }

  function Do(s: State, a: Action): (s': State)
    requires Enabled(s, a)
  {
    match a
    case Submitter(t) => DoSubmitter(s, t)
    case Interrupt => DoInterrupt(s)
    case Handler => DoHandler(s)
  }

  predicate Init(s: State) {
    && s.trap.Off? && s.lock.Open? && !s.busy && s.disk.None? && s.queue == s.submitted == s.done == []
    && forall t :: 0 <= t < |s.pc| ==> s.pc[t].Fresh?
  }

  // ----- What holds in every state -----

  predicate HasLock(p: Submit) { p.Locked? || p.Picked? || p.Leaving? }

  function InHand(t: Trap): (l: seq<nat>) {
    if t.Popped? then [t.x] else []
  }

  /** Requests go from the queue through the handler to completion, in the order of submission. */
  ghost predicate OrderOk(s: State) {
    && s.submitted == s.done + InHand(s.trap) + s.queue && Distinct(s.submitted)
    && forall t: nat {:trigger t in s.submitted} :: t in s.submitted <==> t < |s.pc| && !s.pc[t].Fresh?
  }

  ghost predicate LockOk(s: State) {
    && (forall t :: 0 <= t < |s.pc| ==> (HasLock(s.pc[t]) <==> s.lock == HeldBy(t)))
    && (s.lock.HeldBy? ==> s.lock.t < |s.pc|)
    && (s.lock.HeldByTrap? <==> !s.trap.Off?)
  }

  /** What the disk is doing. */
  ghost predicate DiskOk(s: State) {
    match s.trap
    case Off => if s.busy then s.queue != [] && s.disk == Some(s.queue[0]) else s.disk.None?
    case Entered => s.disk.None? && (s.busy ==> s.queue != [])
    case Popped(_) => s.busy && s.disk.None?
    case Completed => s.busy && s.disk.None?
    case Next(x) => s.busy && s.disk.None? && s.queue != [] && s.queue[0] == x
    case Exiting => if s.busy then s.queue != [] && s.disk == Some(s.queue[0]) else s.disk.None?
  }

  predicate AboutToCall(p: Submit) { p.Queued? || p.Locked? || p.Picked? }

  /** While the driver is idle, every queued request has a thread that is about to look at the queue. */
  ghost predicate IdleOk(s: State) {
    && (!s.busy ==> forall x {:trigger x in s.queue} :: x in s.queue ==> x < |s.pc| && AboutToCall(s.pc[x]))
    && (forall t :: 0 <= t < |s.pc| && s.pc[t].Picked? ==> !s.busy && s.queue != [] && s.queue[0] == s.pc[t].x)
  }

  ghost predicate ReturnOk(s: State) {
    forall t :: 0 <= t < |s.pc| && s.pc[t].Returned? ==> t in s.done
  }

  ghost predicate Inv(s: State) {
    OrderOk(s) && LockOk(s) && DiskOk(s) && IdleOk(s) && ReturnOk(s)
  }

  // ----- Every step keeps it -----

  lemma KeepOrder(s: State, a: Action)
    requires Inv(s) && Enabled(s, a)
    ensures OrderOk(Do(s, a))
  {
    var s' := Do(s, a);
    if a.Submitter? && s.pc[a.t].Fresh? {
      assert a.t !in s.submitted;
      assert s'.submitted == s'.done + InHand(s'.trap) + s'.queue;
      forall t: nat
        ensures t in s'.submitted <==> t < |s'.pc| && !s'.pc[t].Fresh?
      {
        assert t in s'.submitted <==> t in s.submitted || t == a.t;
      }
    } else {
      assert s'.submitted == s.submitted;
      assert s'.submitted == s'.done + InHand(s'.trap) + s'.queue;
      forall t: nat
        ensures t in s'.submitted <==> t < |s'.pc| && !s'.pc[t].Fresh?
      {
        assert t in s.submitted <==> t < |s.pc| && !s.pc[t].Fresh?;
      }
    }
  }

  lemma KeepLock(s: State, a: Action)
    requires Inv(s) && Enabled(s, a)
    ensures LockOk(Do(s, a))
  {
  }

  lemma KeepDisk(s: State, a: Action)
    requires Inv(s) && Enabled(s, a)
    ensures DiskOk(Do(s, a))
  {
  }

  lemma KeepIdle(s: State, a: Action)
    requires Inv(s) && Enabled(s, a)
    ensures IdleOk(Do(s, a))
  {
  }

  /** `to` can be reached from `from` by the given actions. */
  ghost predicate Reaches(from: State, run: seq<Action>, to: State)
    decreases |run|
  {
    if run == [] then from == to
    else Enabled(from, run[0]) && Reaches(Do(from, run[0]), run[1..], to)
  }

  lemma {:induction false} InvAlways(s: State, run: seq<Action>, s': State)
    requires Inv(s) && Reaches(s, run, s')
    ensures Inv(s')
    decreases |run|
  {
    if run != [] {
      KeepOrder(s, run[0]);
      KeepLock(s, run[0]);
      KeepDisk(s, run[0]);
      KeepIdle(s, run[0]);
      assert ReturnOk(Do(s, run[0]));
      InvAlways(Do(s, run[0]), run[1..], s');
    }
  }

  lemma Always(s: State, run: seq<Action>, s': State)
    requires Init(s) && Reaches(s, run, s')
    ensures Inv(s')
  {
    InvAlways(s, run, s');
  }

  // ----- What this means -----

  /**
   Requests are completed once each, in the order in which they were submitted; one that is not completed yet is on
   the queue or in the hands of the interrupt handler.
   */
  lemma CompletedInOrder(s: State, run: seq<Action>, s': State, t: nat)
    requires Init(s) && Reaches(s, run, s')
    ensures s'.done <= s'.submitted && Distinct(s'.done)
    ensures t < |s'.pc| && !s'.pc[t].Fresh? ==>
              t in s'.submitted && (t in s'.done || t in s'.queue || s'.trap == Popped(t))
  {
    Always(s, run, s');
    assert t in s'.submitted <==> t < |s'.pc| && !s'.pc[t].Fresh?;
  }

  /** A thread returns only after its request has been completed. */
  lemma ReturnsAfterCompletion(s: State, run: seq<Action>, s': State, t: nat)
    requires Init(s) && Reaches(s, run, s') && t < |s'.pc| && s'.pc[t].Returned?
    ensures t in s'.done
  {
    Always(s, run, s');
  }

  /** Outside the interrupt handler a busy driver has issued the front request, which is still pending. */
  lemma BusyIsFront(s: State, run: seq<Action>, s': State)
    requires Init(s) && Reaches(s, run, s') && s'.busy && s'.trap.Off?
    ensures s'.queue != [] && s'.disk == Some(s'.queue[0]) && s'.queue[0] !in s'.done
  {
    Always(s, run, s');
    FrontPending(s');
  }

  lemma FrontPending(s: State)
    requires OrderOk(s) && s.queue != []
    ensures s.queue[0] !in s.done
  {
    var k := |s.done| + |InHand(s.trap)|;
    assert s.submitted[k] == s.queue[0];
    assert forall i :: 0 <= i < |s.done| ==> s.submitted[i] == s.done[i];
  }

  /** The request that is issued next, by a submitter or by the interrupt handler, is at the front and pending. */
  lemma IssuesFront(s: State, run: seq<Action>, s': State, t: nat)
    requires Init(s) && Reaches(s, run, s')
    requires s'.trap.Next? || (t < |s'.pc| && s'.pc[t].Picked?)
    ensures var x := if s'.trap.Next? then s'.trap.x else s'.pc[t].x;
            s'.queue != [] && x == s'.queue[0] && x !in s'.done && s'.disk.None?
  {
    Always(s, run, s');
    FrontPending(s');
  }

  /** An interrupt that ends a command finds its request on the queue. */
  lemma InterruptFindsRequest(s: State, run: seq<Action>, s': State)
    requires Init(s) && Reaches(s, run, s') && s'.trap.Entered? && s'.busy
    ensures s'.queue != [] && s'.queue[0] !in s'.done && Enabled(s', Handler)
  {
    Always(s, run, s');
    FrontPending(s');
  }

  /**
   No request is forgotten: while the queue is not empty, the disk is at work, the handler runs, or a thread is
   about to look.
   */
  lemma NoneForgotten(s: State, run: seq<Action>, s': State)
    requires Init(s) && Reaches(s, run, s') && s'.queue != [] && s'.trap.Off? && s'.disk.None?
    ensures s'.queue[0] < |s'.pc| && AboutToCall(s'.pc[s'.queue[0]])
  {
    Always(s, run, s');
    assert s'.queue[0] in s'.queue;
  }
  // ----- Every request is completed -----

  /** Steps that bring a request closer to its completion: all but new requests and interrupts of an idle disk. */
  predicate Useful(s: State, a: Action) {
    Enabled(s, a) && (a.Submitter? ==> !s.pc[a.t].Fresh?) && (a.Interrupt? ==> s.disk.Some?)
  }

  function SubmitSteps(p: Submit): (n: nat) {
    match p
    case Fresh => 0
    case Queued => 8
    case Locked => 7
    case Picked(_) => 6
    case Leaving => 2
    case Waiting => 1
    case Returned => 0
  }

  function TrapSteps(t: Trap): (n: nat) {
    match t
    case Off => 0
    case Entered => 2
    case Popped(_) => 7
    case Completed => 6
    case Next(_) => 5
    case Exiting => 1
  }

  function SumTo(pc: seq<Submit>, n: nat): (m: nat)
    requires n <= |pc|
  {
    if n == 0 then 0 else SumTo(pc, n - 1) + SubmitSteps(pc[n - 1])
  }

  /** A bound on the useful steps that are left. */
  function StepsLeft(s: State): (n: nat) {
    SumTo(s.pc, |s.pc|) + 6 * |s.queue| + TrapSteps(s.trap) + if s.disk.Some? then 3 else 0
  }

  lemma {:induction false} SumUpdate(pc: seq<Submit>, t: nat, p: Submit, n: nat)
    requires t < |pc| && n <= |pc|
    ensures SumTo(pc[t := p], n) == SumTo(pc, n) + if t < n then SubmitSteps(p) - SubmitSteps(pc[t]) else 0
    decreases n
  {
    if n > 0 { SumUpdate(pc, t, p, n - 1); }
  }

  lemma UsefulStep(s: State, a: Action)
    requires Inv(s) && Useful(s, a)
    ensures StepsLeft(Do(s, a)) < StepsLeft(s)
  {
    if a.Submitter? { SumUpdate(s.pc, a.t, Do(s, a).pc[a.t], |s.pc|); }
  }

  /** As long as a thread has not returned, a useful step can be taken. */
  lemma NoDeadlock(s: State, t: nat) returns (a: Action)
    requires Inv(s) && t < |s.pc| && !s.pc[t].Fresh? && !s.pc[t].Returned?
    ensures Useful(s, a)
  {
    if !s.trap.Off? {
      a := Handler;
    } else if s.lock.HeldBy? {
      a := Submitter(s.lock.t);
    } else if s.busy {
      a := Interrupt;
    } else {
      assert t in s.submitted;
      a := Submitter(t);
    }
  }

  ghost predicate AllUseful(s: State, run: seq<Action>)
    decreases |run|
  {
    run == [] || (Useful(s, run[0]) && AllUseful(Do(s, run[0]), run[1..]))
  }

  lemma {:induction false} UsefulRun(s: State, run: seq<Action>, s': State)
    requires Inv(s) && Reaches(s, run, s') && AllUseful(s, run)
    ensures Inv(s') && |run| + StepsLeft(s') <= StepsLeft(s) && s'.submitted == s.submitted
    decreases |run|
  {
    if run != [] {
      var a := run[0];
      InvAlways(s, [a], Do(s, a));
      UsefulStep(s, a);
      UsefulRun(Do(s, a), run[1..], s');
    }
  }

  /**
   From every reachable state, useful steps in any order come to an end, and then every request has been completed
   and every submitter has returned.
   */
  lemma EveryRequestCompletes(s: State, run: seq<Action>, s1: State, rest: seq<Action>, s2: State, t: nat)
    requires Init(s) && Reaches(s, run, s1) && Reaches(s1, rest, s2) && AllUseful(s1, rest)
    requires forall a :: !Useful(s2, a)
    ensures |rest| <= StepsLeft(s1) && s2.submitted == s1.submitted && s2.done == s1.submitted
    ensures t < |s2.pc| ==> s2.pc[t].Fresh? || s2.pc[t].Returned?
  {
    Always(s, run, s1);
    UsefulRun(s1, rest, s2);
    if t < |s2.pc| && !s2.pc[t].Fresh? && !s2.pc[t].Returned? { var a := NoDeadlock(s2, t); }
    AllDone(s2);
  }

  lemma AllDone(s: State)
    requires Inv(s) && forall a :: !Useful(s, a)
    ensures s.done == s.submitted
  {
    assert !Useful(s, Handler);
    if s.queue != [] {
      var t := s.queue[0];
      assert s.submitted[|s.done| + |InHand(s.trap)|] == t;
      assert t in s.submitted;
      FrontPending(s);
      assert !s.pc[t].Returned?;
      var a := NoDeadlock(s, t);
    }
  }
  lemma ReachesFirst(s: State, a: Action, rest: seq<Action>, s': State)
    requires Enabled(s, a) && Reaches(Do(s, a), rest, s')
    ensures Reaches(s, [a] + rest, s')
  {
    assert ([a] + rest)[1..] == rest;
  }

  /** From every state there is such a run. */
  lemma {:induction false} CanFinish(s: State) returns (run: seq<Action>, s': State)
    requires Inv(s)
    ensures Reaches(s, run, s') && AllUseful(s, run)
    ensures forall t :: 0 <= t < |s'.pc| ==> s'.pc[t].Fresh? || s'.pc[t].Returned?
    decreases StepsLeft(s)
  {
    run, s' := [], s;
    if t :| 0 <= t < |s.pc| && !s.pc[t].Fresh? && !s.pc[t].Returned? {
      var a := NoDeadlock(s, t);
      UsefulStep(s, a);
      InvAlways(s, [a], Do(s, a));
      var rest;
      rest, s' := CanFinish(Do(s, a));
      ReachesFirst(s, a, rest, s');
      run := [a] + rest;
      assert run[1..] == rest;
    }
  }

  /** So a request can be submitted and completed in every reachable state. */
  lemma CanSubmit(s: State, run: seq<Action>, s1: State, t: nat) returns (rest: seq<Action>, s2: State)
    requires Init(s) && Reaches(s, run, s1) && t < |s1.pc| && s1.pc[t].Fresh?
    ensures Reaches(s1, rest, s2) && t < |s2.pc| && s2.pc[t].Returned? && t in s2.done
  {
    Always(s, run, s1);
    var a := Submitter(t);
    InvAlways(s1, [a], Do(s1, a));
    rest, s2 := CanFinish(Do(s1, a));
    UsefulRun(Do(s1, a), rest, s2);
    assert Do(s1, a).submitted[|s1.submitted|] == t;
    assert t in s2.submitted;
    ReachesFirst(s1, a, rest, s2);
    rest := [a] + rest;
  }
}
