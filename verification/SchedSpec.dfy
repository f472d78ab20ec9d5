/**
 Threads, processors and the ready queue as an interleaved state machine: every
 step is one atomic action of the thread that some processor is running.  The
 actions follow kernel/sched.c and the condition variables of kernel/synch.c.
 */
module SchedSpec {
  import opened Wrappers

  datatype ThreadState = READY | RUNNING | SLEEPING | ZOMBIE

  /**
   Where a thread is.  `lk` is the lock that a waiting thread gives up inside the
   scheduler and takes again when it is back.
   */
  datatype Pc =
    | Run                                          // outside the scheduler
    | WantSched(next: ThreadState, lk: Option<nat>)  // about to take the scheduler lock, to stop running
    | Mark(next: ThreadState, lk: Option<nat>)       // has it; will queue itself if it stays ready, and set its state
    | GiveUp(lk: Option<nat>)                        // has it; will release its own lock
    | Pick(lk: Option<nat>)                          // has it; will choose the next thread and switch
    | Off(lk: Option<nat>)                           // switched out
    | Back(prev: Option<nat>, lk: Option<nat>)       // switched in; will release the scheduler lock
    | Reap(dead: nat, lk: Option<nat>)               // will free the zombie that ran before it
    | WantLock(i: nat)                               // about to take lock i again after a wait
    | WantReady(w: nat)                              // about to take the scheduler lock, to wake w
    | MakeReady(w: nat)                              // has it; will queue w
    | ReadyDone                                      // has it; will release it
    | Fresh                                          // created, never run
    | First                                          // running for the first time; will release the scheduler lock
    | Gone                                           // not created yet, or freed

  /**
   `cur` and `idle` are indexed by processor, `st` and `pc` by thread, `owner` by lock.
   `cvs` holds the waiters of every condition variable, and `lockOf` the lock that protects it;
   one lock may protect several.
   */
  datatype State = State(
    cur: seq<nat>, idle: seq<nat>,
    st: seq<ThreadState>, pc: seq<Pc>,
    ready: seq<nat>, cvs: seq<seq<nat>>, lockOf: seq<nat>, owner: seq<Option<nat>>,
    sched: Option<nat>)

  datatype Action =
    | TakeLock(i: nat) | DropLock(i: nat) | Wait(i: nat) | Signal(i: nat)
    | Yield | Exit | Create(w: nat)
    | Advance          // the next action that the program counter prescribes

  // ----- When an action can be taken -----

  /** Shape of a state with at least one thread for every processor. */
  predicate Shape(s: State) {
    && |s.idle| == |s.cur| && |s.pc| == |s.st| && |s.cvs| == |s.lockOf|
    && (forall i :: 0 <= i < |s.lockOf| ==> s.lockOf[i] < |s.owner|)
    && (forall c :: 0 <= c < |s.cur| ==> s.cur[c] < |s.pc| && s.idle[c] < |s.pc|)
  }

  predicate Enabled(s: State, c: nat, a: Action)
    requires Shape(s)
  {
    c < |s.cur| &&
    var t := s.cur[c];
    match a
    case TakeLock(i) => s.pc[t].Run? && i < |s.owner| && s.owner[i].None?
    case DropLock(i) => s.pc[t].Run? && i < |s.owner| && s.owner[i] == Some(t)
    case Wait(i) => s.pc[t].Run? && i < |s.cvs| && s.owner[s.lockOf[i]] == Some(t) && t != s.idle[c]
    case Signal(i) => s.pc[t].Run? && i < |s.cvs| && s.owner[s.lockOf[i]] == Some(t) && s.cvs[i] != []
    case Yield => s.pc[t].Run?
    case Exit => s.pc[t].Run? && t != s.idle[c]
    case Create(w) => s.pc[t].Run? && w < |s.pc| && s.pc[w].Gone?
    case Advance =>
      match s.pc[t]
      case Run => false
      case WantSched(_, _) => s.sched.None?
      case WantReady(_) => s.sched.None?
      case WantLock(i) => i < |s.owner| && s.owner[i].None?
      case GiveUp(lk) => lk.Some? ==> lk.value < |s.owner|
      case Pick(_) => s.ready != [] ==> s.ready[0] < |s.pc|
      case Back(prev, _) => prev.Some? ==> prev.value < |s.st|
      case Reap(d, _) => d < |s.pc|
      case MakeReady(w) => w < |s.st|
      case _ => true
  }

  // ----- What an action does -----

  function SetPc(s: State, t: nat, p: Pc): (s': State)
    requires t < |s.pc|
  {
    s.(pc := s.pc[t := p])
  }

  /** Where a thread goes on after the scheduler: it takes its lock again, if it gave one up. */
  function Resume(lk: Option<nat>): (p: Pc) {
    if lk.Some? then WantLock(lk.value) else Run
  }

  /** The head of the ready queue, or the idle thread of the processor. */
  function NextThread(s: State, c: nat): (w: nat) {
    if s.ready != [] then s.ready[0] else if c < |s.idle| then s.idle[c] else 0
  }

  /** What the thread of processor `c` is about to do. */
  function Doing(s: State, c: nat): (p: Pc) {
    if c < |s.cur| && s.cur[c] < |s.pc| then s.pc[s.cur[c]] else Gone
  }

  function DoPick(s: State, c: nat, lk: Option<nat>): (s': State)
    requires Shape(s) && c < |s.cur| && NextThread(s, c) < |s.pc|
  {
    var t, w := s.cur[c], NextThread(s, c);
    var s1 := s.(ready := if s.ready != [] then s.ready[1..] else [], st := s.st[w := RUNNING]);
    if w == t then SetPc(s1, t, Back(None, lk))
    else
      var p := if s.pc[w].Off? then Back(Some(t), s.pc[w].lk) else First;
      s1.(cur := s.cur[c := w], pc := s.pc[t := Off(lk)][w := p])
  }

  function DoAdvance(s: State, c: nat): (s': State)
    requires Shape(s) && Enabled(s, c, Advance)
  {
    var t := s.cur[c];
    match s.pc[t]
    case WantSched(next, lk) => SetPc(s, t, Mark(next, lk)).(sched := Some(c))
    case Mark(next, lk) =>
      SetPc(s, t, GiveUp(lk)).(
        ready := if next == READY && t != s.idle[c] then s.ready + [t] else s.ready,
        st := s.st[t := next])
    case GiveUp(lk) =>
      SetPc(s, t, Pick(lk)).(owner := if lk.Some? then s.owner[lk.value := None] else s.owner)
    case Pick(lk) => DoPick(s, c, lk)
    case Back(prev, lk) =>
      SetPc(s, t, if prev.Some? && s.st[prev.value] == ZOMBIE then Reap(prev.value, lk) else Resume(lk)).(sched := None)
    case Reap(d, lk) => s.(pc := s.pc[d := Gone][t := Resume(lk)])
    case WantLock(i) => SetPc(s, t, Run).(owner := s.owner[i := Some(t)])
    case WantReady(w) => SetPc(s, t, MakeReady(w)).(sched := Some(c))
    case MakeReady(w) => SetPc(s, t, ReadyDone).(ready := s.ready + [w], st := s.st[w := READY])
    case ReadyDone => SetPc(s, t, Run).(sched := None)
    case First => SetPc(s, t, Run).(sched := None)
    case _ => s
  }

  function Do(s: State, c: nat, a: Action): (s': State)
    requires Shape(s) && Enabled(s, c, a)
  {
    var t := s.cur[c];
    match a
    case TakeLock(i) => s.(owner := s.owner[i := Some(t)])
    case DropLock(i) => s.(owner := s.owner[i := None])
    case Wait(i) => SetPc(s, t, WantSched(SLEEPING, Some(s.lockOf[i]))).(cvs := s.cvs[i := s.cvs[i] + [t]])
    case Signal(i) => SetPc(s, t, WantReady(s.cvs[i][0])).(cvs := s.cvs[i := s.cvs[i][1..]])
    case Yield => SetPc(s, t, WantSched(READY, None))
    case Exit => SetPc(s, t, WantSched(ZOMBIE, None))
    case Create(w) => s.(pc := s.pc[w := Fresh][t := WantReady(w)])
    case Advance => DoAdvance(s, c)
  }

  /** At the start every processor runs its idle thread, and no other thread exists. */
  predicate Init(s: State) {
    && Shape(s) && s.cur == s.idle && s.ready == [] && s.sched.None?
    && (forall c, d :: 0 <= c < d < |s.idle| ==> s.idle[c] != s.idle[d])
    && (forall i :: 0 <= i < |s.cvs| ==> s.cvs[i] == [])
    && (forall i :: 0 <= i < |s.owner| ==> s.owner[i].None?)
    && (forall t :: 0 <= t < |s.pc| ==> s.pc[t] == if t in s.idle then Run else Gone)
  }
}
