/**
 What holds in every state that the processors can reach together.
 */
module Sched {
  import opened Sequences
  import opened Wrappers
  import opened SchedSpec

  // ----- Where the list node of a thread is -----

  datatype Place =
    | Nowhere
    | InReady            // on the ready queue
    | InCv(i: nat)       // on the waiter list of condition variable i
    | InHand(u: nat)     // taken off a list, or new: thread u is about to queue it
    | ToReap(u: nat)     // thread u is about to free it

  /** The place of every thread, the processor it is on, and the processor whose idle thread it is. */
  datatype View = View(place: seq<Place>, at: seq<Option<nat>>, idleOf: seq<Option<nat>>)

  predicate HasSched(p: Pc) {
    p.Mark? || p.GiveUp? || p.Pick? || p.Back? || p.MakeReady? || p.ReadyDone? || p.First?
  }

  predicate OnCpu(p: Pc) { !p.Off? && !p.Fresh? && !p.Gone? }

  ghost predicate ViewShape(s: State, v: View) {
    |v.place| == |v.at| == |v.idleOf| == |s.pc|
  }

  /** A thread is on a processor exactly when its program counter says so, and has the scheduler lock likewise. */
  ghost predicate CpuOk(s: State, v: View, t: nat)
    requires Shape(s) && ViewShape(s, v) && t < |s.pc|
  {
    && (OnCpu(s.pc[t]) <==> v.at[t].Some?)
    && (v.at[t].Some? ==> v.at[t].value < |s.cur| && s.cur[v.at[t].value] == t)
    && (HasSched(s.pc[t]) <==> v.at[t].Some? && s.sched == v.at[t])
    && (v.idleOf[t].Some? ==> !s.pc[t].Gone? && (v.at[t].None? || v.at[t] == v.idleOf[t]))
  }

  ghost predicate Owns(s: State, i: nat, t: nat) {
    i < |s.owner| && s.owner[i] == Some(t)
  }

  /** On the way from a wait under lock `l` to being switched out. */
  predicate WaitsFor(p: Pc, l: nat) {
    || p == WantSched(SLEEPING, Some(l)) || p == Mark(SLEEPING, Some(l)) || p == GiveUp(Some(l))
    || p == Pick(Some(l)) || p == Off(Some(l))
  }

  /** What the place of a thread says about it. */
  ghost predicate PlaceOk(s: State, v: View, t: nat)
    requires Shape(s) && ViewShape(s, v) && t < |s.pc|
  {
    var p := s.pc[t];
    match v.place[t]
    case Nowhere =>
      && !p.Fresh?
      && (p.WantSched? || p.Mark? ==> p.lk.None? && (p.next == READY || (p.next == ZOMBIE && v.idleOf[t].None?)))
      && (p.GiveUp? || p.Pick? || p.Off? ==> p.lk.None? && s.st[t] == if v.idleOf[t].Some? then READY else ZOMBIE)
    case InReady =>
      v.idleOf[t].None? && s.st[t] == READY && (p.Off? || p.Fresh? || p == GiveUp(None) || p == Pick(None))
    case InCv(i) =>
      && v.idleOf[t].None? && i < |s.lockOf| && WaitsFor(p, s.lockOf[i])
      && (p.WantSched? || p.Mark? || p.GiveUp? ==> Owns(s, s.lockOf[i], t))
      && (p.GiveUp? || p.Pick? || p.Off? ==> s.st[t] == SLEEPING)
    case InHand(u) =>
      && v.idleOf[t].None? && u < |s.pc| && (s.pc[u] == WantReady(t) || s.pc[u] == MakeReady(t))
      && (p.Off? || p.Fresh? || (p.Pick? && p.lk.Some?)) && (p.Fresh? || s.st[t] == SLEEPING)
    case ToReap(u) =>
      v.idleOf[t].None? && u < |s.pc| && s.pc[u].Reap? && s.pc[u].dead == t && p == Off(None) && s.st[t] == ZOMBIE
  }

  /** What the program counter of a thread says about other threads. */
  ghost predicate PcOk(s: State, v: View, t: nat)
    requires Shape(s) && ViewShape(s, v) && t < |s.pc|
  {
    match s.pc[t]
    case WantReady(w) => w < |s.pc| && v.place[w] == InHand(t)
    case MakeReady(w) => w < |s.pc| && v.place[w] == InHand(t)
    case Reap(d, lk) => d < |s.pc| && v.place[d] == ToReap(t) && LockOk(s, lk)
    case Back(prev, lk) => LockOk(s, lk) && (prev.Some? ==> WasRunning(s, v, prev.value))
    case WantLock(i) => LockOk(s, Some(i))
    case GiveUp(lk) => LockOk(s, lk)
    case Pick(lk) => LockOk(s, lk)
    case Off(lk) => LockOk(s, lk)
    case _ => true
  }

  ghost predicate LockOk(s: State, lk: Option<nat>) {
    lk.Some? ==> lk.value < |s.owner|
  }

  ghost predicate WasRunning(s: State, v: View, p: nat)
    requires Shape(s) && ViewShape(s, v)
  {
    p < |s.pc| && s.pc[p].Off? && !v.place[p].ToReap?
  }

  ghost predicate ThreadOk(s: State, v: View, t: nat)
    requires Shape(s) && ViewShape(s, v) && t < |s.pc|
  {
    CpuOk(s, v, t) && PlaceOk(s, v, t) && PcOk(s, v, t)
  }

  ghost predicate CpusOk(s: State, v: View)
    requires Shape(s) && ViewShape(s, v)
  {
    && (forall c :: 0 <= c < |s.cur| ==> v.at[s.cur[c]] == Some(c) && v.idleOf[s.idle[c]] == Some(c))
    && (s.sched.Some? ==> s.sched.value < |s.cur| && HasSched(s.pc[s.cur[s.sched.value]]))
    && (forall t :: 0 <= t < |s.pc| && v.idleOf[t].Some? ==>
          v.idleOf[t].value < |s.idle| && s.idle[v.idleOf[t].value] == t)
  }

  /** The list `l` holds exactly the threads with place `p`, each once. */
  ghost predicate ListOk(place: seq<Place>, l: seq<nat>, p: Place) {
    Distinct(l) && forall x: nat {:trigger x in l} :: x in l <==> x < |place| && place[x] == p
  }

  ghost predicate ListsOk(s: State, v: View) {
    ListOk(v.place, s.ready, InReady) && forall i :: 0 <= i < |s.cvs| ==> ListOk(v.place, s.cvs[i], InCv(i))
  }

  ghost predicate Inv(s: State, v: View) {
    && Shape(s) && ViewShape(s, v) && CpusOk(s, v) && ListsOk(s, v)
    && forall t :: 0 <= t < |s.pc| ==> ThreadOk(s, v, t)
  }

  // ----- Lists -----

  lemma ListSame(place: seq<Place>, l: seq<nat>, p: Place, t: nat, q: Place)
    requires ListOk(place, l, p) && t < |place| && place[t] != p && q != p
    ensures ListOk(place[t := q], l, p)
  {
  }

  lemma ListAppend(place: seq<Place>, l: seq<nat>, p: Place, t: nat)
    requires ListOk(place, l, p) && t < |place| && place[t] != p
    ensures ListOk(place[t := p], l + [t], p)
  {
    assert t !in l;
    forall x: nat
      ensures x in l + [t] <==> x < |place| && place[t := p][x] == p
    {
      assert x in l + [t] <==> x in l || x == t;
    }
  }

  lemma ListPop(place: seq<Place>, l: seq<nat>, p: Place, q: Place)
    requires ListOk(place, l, p) && l != [] && q != p
    ensures l[0] < |place| && place[l[0]] == p && ListOk(place[l[0] := q], l[1..], p)
  {
    assert l[0] in l;
    forall x: nat
      ensures x in l[1..] <==> x < |place| && place[l[0] := q][x] == p
    {
      assert l == [l[0]] + l[1..];
      assert x in l <==> x == l[0] || x in l[1..];
    }
  }

  lemma CvsSame(s: State, v: View, t: nat, q: Place, j: int)
    requires Inv(s, v) && t < |s.pc| && (forall i: nat :: i != j ==> q != InCv(i) && v.place[t] != InCv(i))
    ensures forall i :: 0 <= i < |s.cvs| && i != j ==> ListOk(v.place[t := q], s.cvs[i], InCv(i))
  {
  }

  // ----- Every step keeps the invariant -----

  ghost function SetPlace(v: View, t: nat, p: Place): (v': View)
    requires t < |v.place|
  {
    v.(place := v.place[t := p])
  }

  /**
   One step of the running thread `t` of processor `c`: it goes on at `p`, the lock and
   the lists change as given, and one thread `w` gets program counter `pw`, state `y`
   and place `q`.
   */
  datatype Shift = Shift(p: Pc, sched: Option<nat>, w: nat, pw: Pc, y: ThreadState, q: Place,
                         ready: seq<nat>, cvs: seq<seq<nat>>)

  ghost predicate ShiftShape(s: State, v: View, c: nat, d: Shift) {
    Shape(s) && ViewShape(s, v) && c < |s.cur| && d.w < |s.pc| && |d.cvs| == |s.cvs|
  }

  ghost function After(s: State, c: nat, d: Shift): (s': State)
    requires Shape(s) && c < |s.cur| && d.w < |s.pc|
  {
    s.(pc := s.pc[d.w := d.pw][s.cur[c] := d.p], sched := d.sched, st := s.st[d.w := d.y],
       ready := d.ready, cvs := d.cvs)
  }

  /** The lock is kept, taken or released. */
  ghost predicate SchedMove(s: State, c: nat, sched: Option<nat>) {
    sched == s.sched || (s.sched.None? && sched == Some(c)) || (s.sched == Some(c) && sched.None?)
  }

  /** Nobody but `t` relies on what changes. */
  ghost predicate Private(s: State, v: View, c: nat, d: Shift)
    requires ShiftShape(s, v, c, d)
  {
    var t, o, l := s.cur[c], s.pc[s.cur[c]], v.place[d.w];
    && (o.WantReady? ==> o.w == d.w || d.p == MakeReady(o.w))
    && (o.MakeReady? ==> o.w == d.w) && (o.Reap? ==> o.dead == d.w)
    && (l.InHand? ==> l.u == t) && (l.ToReap? ==> l.u == t) && (d.q.ToReap? ==> HasSched(o))
    && (d.w != t ==> d.pw == s.pc[d.w] || (s.pc[d.w].Gone? && d.pw.Fresh?) || (l.ToReap? && d.pw.Gone?))
  }

  ghost predicate MayShift(s: State, v: View, c: nat, d: Shift)
    requires ShiftShape(s, v, c, d)
  {
    var t, s', v' := s.cur[c], After(s, c, d), SetPlace(v, d.w, d.q);
    && v.at[t] == Some(c) && ThreadOk(s, v, t) && ThreadOk(s, v, d.w)
    && OnCpu(d.p) && (HasSched(d.p) <==> d.sched == Some(c)) && SchedMove(s, c, d.sched) && Private(s, v, c, d)
    && PlaceOk(s', v', t) && PcOk(s', v', t) && PlaceOk(s', v', d.w)
  }

  lemma ShiftCpu(s: State, v: View, c: nat, d: Shift, u: nat)
    requires ShiftShape(s, v, c, d) && MayShift(s, v, c, d) && u < |s.pc| && ThreadOk(s, v, u)
    ensures CpuOk(After(s, c, d), SetPlace(v, d.w, d.q), u)
  {
  }

  lemma ShiftPlace(s: State, v: View, c: nat, d: Shift, u: nat)
    requires ShiftShape(s, v, c, d) && MayShift(s, v, c, d) && u < |s.pc| && ThreadOk(s, v, u)
    ensures PlaceOk(After(s, c, d), SetPlace(v, d.w, d.q), u)
  {
  }

  lemma ShiftPc(s: State, v: View, c: nat, d: Shift, u: nat)
    requires ShiftShape(s, v, c, d) && MayShift(s, v, c, d) && u < |s.pc| && ThreadOk(s, v, u)
    ensures PcOk(After(s, c, d), SetPlace(v, d.w, d.q), u)
  {
  }

  lemma ShiftThreads(s: State, v: View, c: nat, d: Shift)
    requires ShiftShape(s, v, c, d) && MayShift(s, v, c, d) && Inv(s, v)
    ensures forall u :: 0 <= u < |s.pc| ==> ThreadOk(After(s, c, d), SetPlace(v, d.w, d.q), u)
  {
    var s', v' := After(s, c, d), SetPlace(v, d.w, d.q);
    forall u | 0 <= u < |s.pc|
      ensures ThreadOk(s', v', u)
    {
      ShiftCpu(s, v, c, d, u);
      ShiftPlace(s, v, c, d, u);
      ShiftPc(s, v, c, d, u);
    }
  }

  lemma ShiftKeeps(s: State, v: View, c: nat, d: Shift)
    requires ShiftShape(s, v, c, d) && MayShift(s, v, c, d) && Inv(s, v)
    requires ListsOk(After(s, c, d), SetPlace(v, d.w, d.q))
    ensures Inv(After(s, c, d), SetPlace(v, d.w, d.q))
  {
    var s', v' := After(s, c, d), SetPlace(v, d.w, d.q);
    ShiftThreads(s, v, c, d);
    if d.sched.Some? {
      assert ThreadOk(s', v', s.cur[d.sched.value]);
    }
  }

  // ----- Steps that leave every thread where it is -----

  ghost function Stay(s: State, v: View, c: nat, p: Pc, sched: Option<nat>): (d: Shift)
    requires Shape(s) && ViewShape(s, v) && c < |s.cur|
  {
    Shift(p, sched, s.cur[c], p, s.st[s.cur[c]], v.place[s.cur[c]], s.ready, s.cvs)
  }

  lemma StayKeeps(s: State, v: View, c: nat, p: Pc, sched: Option<nat>)
    requires Inv(s, v) && c < |s.cur| && MayShift(s, v, c, Stay(s, v, c, p, sched))
    ensures Inv(SetPc(s, s.cur[c], p).(sched := sched), v)
  {
    var d := Stay(s, v, c, p, sched);
    assert SetPlace(v, d.w, d.q) == v;
    assert After(s, c, d) == SetPc(s, s.cur[c], p).(sched := sched);
    ShiftKeeps(s, v, c, d);
  }

  /** The thread of a processor, and what is known about it. */
  lemma Current(s: State, v: View, c: nat)
    requires Inv(s, v) && c < |s.cur|
    ensures ThreadOk(s, v, s.cur[c]) && v.at[s.cur[c]] == Some(c)
    ensures v.idleOf[s.cur[c]].Some? <==> s.cur[c] == s.idle[c]
  {
  }

  lemma KeepYield(s: State, v: View, c: nat)
    requires Inv(s, v) && Enabled(s, c, Yield)
    ensures Inv(Do(s, c, Yield), v)
  {
    Current(s, v, c);
    StayKeeps(s, v, c, WantSched(READY, None), s.sched);
  }

  lemma KeepExit(s: State, v: View, c: nat)
    requires Inv(s, v) && Enabled(s, c, Exit)
    ensures Inv(Do(s, c, Exit), v)
  {
    Current(s, v, c);
    StayKeeps(s, v, c, WantSched(ZOMBIE, None), s.sched);
  }

  /** Taking the scheduler lock, to stop running. */
  lemma KeepWantSched(s: State, v: View, c: nat)
    requires Inv(s, v) && Enabled(s, c, Advance) && s.pc[s.cur[c]].WantSched?
    ensures Inv(Do(s, c, Advance), v)
  {
    Current(s, v, c);
    var p := s.pc[s.cur[c]];
    StayKeeps(s, v, c, Mark(p.next, p.lk), Some(c));
  }

  /** Taking the scheduler lock, to wake a thread. */
  lemma KeepWantReady(s: State, v: View, c: nat)
    requires Inv(s, v) && Enabled(s, c, Advance) && s.pc[s.cur[c]].WantReady?
    ensures Inv(Do(s, c, Advance), v)
  {
    Current(s, v, c);
    StayKeeps(s, v, c, MakeReady(s.pc[s.cur[c]].w), Some(c));
  }

  /** Releasing the scheduler lock. */
  lemma KeepSchedDrop(s: State, v: View, c: nat)
    requires Inv(s, v) && Enabled(s, c, Advance) && (s.pc[s.cur[c]].ReadyDone? || s.pc[s.cur[c]].First?)
    ensures Inv(Do(s, c, Advance), v)
  {
    Current(s, v, c);
    StayKeeps(s, v, c, Run, None);
  }

  // ----- Steps on a lock -----

  /** A lock that no thread needs to keep can change hands. */
  lemma OwnerKeeps(s: State, v: View, i: nat, o: Option<nat>)
    requires Inv(s, v) && i < |s.owner|
    requires s.owner[i].Some? ==>
               s.owner[i].value < |s.pc| && var p := s.pc[s.owner[i].value]; !p.WantSched? && !p.Mark? && !p.GiveUp?
    ensures Inv(s.(owner := s.owner[i := o]), v)
  {
    var s' := s.(owner := s.owner[i := o]);
    forall u | 0 <= u < |s'.pc|
      ensures ThreadOk(s', v, u)
    {
      assert ThreadOk(s, v, u);
    }
  }

  lemma KeepLocks(s: State, v: View, c: nat, a: Action)
    requires Inv(s, v) && Enabled(s, c, a) && (a.TakeLock? || a.DropLock?)
    ensures Inv(Do(s, c, a), v)
  {
    OwnerKeeps(s, v, a.i, if a.TakeLock? then Some(s.cur[c]) else None);
  }

  lemma KeepWantLock(s: State, v: View, c: nat)
    requires Inv(s, v) && Enabled(s, c, Advance) && s.pc[s.cur[c]].WantLock?
    ensures Inv(Do(s, c, Advance), v)
  {
    Current(s, v, c);
    StayKeeps(s, v, c, Run, s.sched);
    OwnerKeeps(SetPc(s, s.cur[c], Run), v, s.pc[s.cur[c]].i, Some(s.cur[c]));
  }

  /** A thread that is about to switch gives up the lock it waits under. */
  lemma DropKeeps(s: State, v: View, c: nat, i: nat)
    requires Inv(s, v) && c < |s.cur| && i < |s.owner| && s.owner[i] == Some(s.cur[c]) && s.pc[s.cur[c]].Pick?
    ensures Inv(s.(owner := s.owner[i := None]), v)
  {
    OwnerKeeps(s, v, i, None);
  }

  lemma KeepGiveUp(s: State, v: View, c: nat)
    requires Inv(s, v) && Enabled(s, c, Advance) && s.pc[s.cur[c]].GiveUp?
    ensures Inv(Do(s, c, Advance), v)
  {
    Current(s, v, c);
    var lk := s.pc[s.cur[c]].lk;
    StayKeeps(s, v, c, Pick(lk), s.sched);
    if lk.Some? { DropKeeps(SetPc(s, s.cur[c], Pick(lk)), v, c, lk.value); }
  }

  // ----- Steps that move a thread from one list to another -----

  lemma KeepWait(s: State, v: View, c: nat, i: nat)
    requires Inv(s, v) && Enabled(s, c, Wait(i))
    ensures Inv(Do(s, c, Wait(i)), SetPlace(v, s.cur[c], InCv(i)))
  {
    var t := s.cur[c];
    Current(s, v, c);
    var cvs := s.cvs[i := s.cvs[i] + [t]];
    var d := Shift(WantSched(SLEEPING, Some(s.lockOf[i])), s.sched, t, s.pc[t], s.st[t], InCv(i), s.ready, cvs);
    ListSame(v.place, s.ready, InReady, t, InCv(i));
    ListAppend(v.place, s.cvs[i], InCv(i), t);
    CvsSame(s, v, t, InCv(i), i);
    ShiftKeeps(s, v, c, d);
    assert After(s, c, d) == Do(s, c, Wait(i));
  }

  /** The first waiter of a condition variable has been switched out, or is about to be, and gave up the lock. */
  lemma WaiterReady(s: State, v: View, c: nat, i: nat)
    requires Inv(s, v) && Enabled(s, c, Signal(i))
    ensures var w := s.cvs[i][0];
            && w < |s.pc| && v.place[w] == InCv(i) && ThreadOk(s, v, w) && w != s.cur[c]
            && (s.pc[w] == Pick(Some(s.lockOf[i])) || s.pc[w] == Off(Some(s.lockOf[i])))
  {
    var w := s.cvs[i][0];
    assert w in s.cvs[i];
    assert ThreadOk(s, v, w);
    Current(s, v, c);
  }

  lemma SignalLists(s: State, v: View, c: nat, i: nat)
    requires Inv(s, v) && Enabled(s, c, Signal(i))
    ensures s.cvs[i][0] < |v.place|
    ensures ListsOk(s.(cvs := s.cvs[i := s.cvs[i][1..]]), SetPlace(v, s.cvs[i][0], InHand(s.cur[c])))
  {
    var t, w := s.cur[c], s.cvs[i][0];
    WaiterReady(s, v, c, i);
    ListSame(v.place, s.ready, InReady, w, InHand(t));
    ListPop(v.place, s.cvs[i], InCv(i), InHand(t));
    CvsSame(s, v, w, InHand(t), i);
  }

  ghost function SignalShift(s: State, c: nat, i: nat): (d: Shift)
    requires Shape(s) && Enabled(s, c, Signal(i)) && s.cvs[i][0] < |s.pc|
  {
    var w := s.cvs[i][0];
    Shift(WantReady(w), s.sched, w, s.pc[w], s.st[w], InHand(s.cur[c]), s.ready, s.cvs[i := s.cvs[i][1..]])
  }

  lemma SignalIsShift(s: State, c: nat, i: nat)
    requires Shape(s) && Enabled(s, c, Signal(i)) && s.cvs[i][0] < |s.pc|
    ensures After(s, c, SignalShift(s, c, i)) == Do(s, c, Signal(i))
  {
    var w := s.cvs[i][0];
    assert s.pc[w := s.pc[w]] == s.pc && s.st[w := s.st[w]] == s.st;
  }

  lemma SignalMay(s: State, v: View, c: nat, i: nat)
    requires Inv(s, v) && Enabled(s, c, Signal(i))
    ensures s.cvs[i][0] < |s.pc| && MayShift(s, v, c, SignalShift(s, c, i))
  {
    Current(s, v, c);
    WaiterReady(s, v, c, i);
  }

  lemma KeepSignal(s: State, v: View, c: nat, i: nat)
    requires Inv(s, v) && Enabled(s, c, Signal(i))
    ensures s.cvs[i][0] < |v.place| && Inv(Do(s, c, Signal(i)), SetPlace(v, s.cvs[i][0], InHand(s.cur[c])))
  {
    SignalMay(s, v, c, i);
    SignalLists(s, v, c, i);
    ShiftKeeps(s, v, c, SignalShift(s, c, i));
    SignalIsShift(s, c, i);
  }

  /** A change of place that touches no list. */
  lemma ListsSame(s: State, v: View, t: nat, q: Place)
    requires Inv(s, v) && t < |s.pc| && !q.InReady? && !q.InCv? && !v.place[t].InReady? && !v.place[t].InCv?
    ensures ListsOk(s, SetPlace(v, t, q))
  {
  }

  ghost function CreateShift(s: State, c: nat, w: nat): (d: Shift)
    requires Shape(s) && Enabled(s, c, Create(w))
  {
    Shift(WantReady(w), s.sched, w, Fresh, s.st[w], InHand(s.cur[c]), s.ready, s.cvs)
  }

  lemma CreateIsShift(s: State, c: nat, w: nat)
    requires Shape(s) && Enabled(s, c, Create(w))
    ensures After(s, c, CreateShift(s, c, w)) == Do(s, c, Create(w))
  {
    assert s.st[w := s.st[w]] == s.st;
  }

  lemma CreateMay(s: State, v: View, c: nat, w: nat)
    requires Inv(s, v) && Enabled(s, c, Create(w))
    ensures MayShift(s, v, c, CreateShift(s, c, w)) && ListsOk(s, SetPlace(v, w, InHand(s.cur[c])))
  {
    Current(s, v, c);
    assert ThreadOk(s, v, w);
    ListsSame(s, v, w, InHand(s.cur[c]));
  }

  lemma KeepCreate(s: State, v: View, c: nat, w: nat)
    requires Inv(s, v) && Enabled(s, c, Create(w))
    ensures Inv(Do(s, c, Create(w)), SetPlace(v, w, InHand(s.cur[c])))
  {
    CreateMay(s, v, c, w);
    ShiftKeeps(s, v, c, CreateShift(s, c, w));
    CreateIsShift(s, c, w);
  }

  ghost function MarkShift(s: State, v: View, c: nat): (d: Shift)
    requires Shape(s) && ViewShape(s, v) && Enabled(s, c, Advance) && s.pc[s.cur[c]].Mark?
  {
    var t := s.cur[c];
    var next, lk := s.pc[t].next, s.pc[t].lk;
    if next == READY && t != s.idle[c]
    then Shift(GiveUp(lk), s.sched, t, s.pc[t], next, InReady, s.ready + [t], s.cvs)
    else Shift(GiveUp(lk), s.sched, t, s.pc[t], next, v.place[t], s.ready, s.cvs)
  }

  lemma MarkIsShift(s: State, v: View, c: nat)
    requires Shape(s) && ViewShape(s, v) && Enabled(s, c, Advance) && s.pc[s.cur[c]].Mark?
    ensures After(s, c, MarkShift(s, v, c)) == Do(s, c, Advance)
  {
  }

  lemma MarkLists(s: State, v: View, c: nat)
    requires Inv(s, v) && Enabled(s, c, Advance) && s.pc[s.cur[c]].Mark?
    ensures var d := MarkShift(s, v, c);
            ListsOk(After(s, c, d), SetPlace(v, d.w, d.q))
  {
    var t := s.cur[c];
    Current(s, v, c);
    if s.pc[t].next == READY && t != s.idle[c] {
      ListAppend(v.place, s.ready, InReady, t);
      CvsSame(s, v, t, InReady, -1);
    } else {
      assert SetPlace(v, t, v.place[t]) == v;
    }
  }

  lemma KeepMark(s: State, v: View, c: nat) returns (v': View)
    requires Inv(s, v) && Enabled(s, c, Advance) && s.pc[s.cur[c]].Mark?
    ensures Inv(Do(s, c, Advance), v')
  {
    Current(s, v, c);
    var d := MarkShift(s, v, c);
    MarkLists(s, v, c);
    ShiftKeeps(s, v, c, d);
    MarkIsShift(s, v, c);
    v' := SetPlace(v, d.w, d.q);
  }

  lemma ZombieNowhere(s: State, v: View, w: nat)
    requires Inv(s, v) && w < |s.pc| && s.pc[w].Off? && s.st[w] == ZOMBIE && !v.place[w].ToReap?
    ensures v.place[w].Nowhere?
  {
    assert ThreadOk(s, v, w);
  }

  lemma KeepBackToReap(s: State, v: View, c: nat) returns (v': View)
    requires Inv(s, v) && Enabled(s, c, Advance) && s.pc[s.cur[c]].Back?
    requires var prev := s.pc[s.cur[c]].prev; prev.Some? && s.st[prev.value] == ZOMBIE
    ensures Inv(Do(s, c, Advance), v')
  {
    var t := s.cur[c];
    var w, lk := s.pc[t].prev.value, s.pc[t].lk;
    Current(s, v, c);
    assert ThreadOk(s, v, w);
    var d := Shift(Reap(w, lk), None, w, s.pc[w], s.st[w], ToReap(t), s.ready, s.cvs);
    ZombieNowhere(s, v, w);
    ListsSame(s, v, w, ToReap(t));
    ShiftKeeps(s, v, c, d);
    assert After(s, c, d) == Do(s, c, Advance);
    v' := SetPlace(v, w, ToReap(t));
  }

  lemma KeepBack(s: State, v: View, c: nat) returns (v': View)
    requires Inv(s, v) && Enabled(s, c, Advance) && s.pc[s.cur[c]].Back?
    ensures Inv(Do(s, c, Advance), v')
  {
    var prev, lk := s.pc[s.cur[c]].prev, s.pc[s.cur[c]].lk;
    if prev.Some? && s.st[prev.value] == ZOMBIE {
      v' := KeepBackToReap(s, v, c);
    } else {
      Current(s, v, c);
      StayKeeps(s, v, c, Resume(lk), None);
      v' := v;
    }
  }

  ghost function ReapShift(s: State, c: nat): (d: Shift)
    requires Shape(s) && Enabled(s, c, Advance) && s.pc[s.cur[c]].Reap?
  {
    var p := s.pc[s.cur[c]];
    Shift(Resume(p.lk), s.sched, p.dead, Gone, s.st[p.dead], Nowhere, s.ready, s.cvs)
  }

  lemma ReapIsShift(s: State, c: nat)
    requires Shape(s) && Enabled(s, c, Advance) && s.pc[s.cur[c]].Reap?
    ensures After(s, c, ReapShift(s, c)) == Do(s, c, Advance)
  {
    var w := s.pc[s.cur[c]].dead;
    assert s.st[w := s.st[w]] == s.st;
  }

  lemma ReapMay(s: State, v: View, c: nat)
    requires Inv(s, v) && Enabled(s, c, Advance) && s.pc[s.cur[c]].Reap?
    ensures MayShift(s, v, c, ReapShift(s, c)) && ListsOk(s, SetPlace(v, s.pc[s.cur[c]].dead, Nowhere))
  {
    Current(s, v, c);
    assert ThreadOk(s, v, s.pc[s.cur[c]].dead);
    ListsSame(s, v, s.pc[s.cur[c]].dead, Nowhere);
  }

  lemma KeepReap(s: State, v: View, c: nat) returns (v': View)
    requires Inv(s, v) && Enabled(s, c, Advance) && s.pc[s.cur[c]].Reap?
    ensures Inv(Do(s, c, Advance), v')
  {
    ReapMay(s, v, c);
    ShiftKeeps(s, v, c, ReapShift(s, c));
    ReapIsShift(s, c);
    v' := SetPlace(v, s.pc[s.cur[c]].dead, Nowhere);
  }

  lemma MakeReadyIsShift(s: State, c: nat, d: Shift)
    requires Shape(s) && Enabled(s, c, Advance) && s.pc[s.cur[c]].MakeReady? && s.pc[s.cur[c]].w != s.cur[c]
    requires var w := s.pc[s.cur[c]].w;
             d == Shift(ReadyDone, s.sched, w, s.pc[w], READY, InReady, s.ready + [w], s.cvs)
    ensures After(s, c, d) == Do(s, c, Advance)
  {
    var w := s.pc[s.cur[c]].w;
    assert s.pc[w := s.pc[w]] == s.pc;
  }

  lemma KeepMakeReady(s: State, v: View, c: nat) returns (v': View)
    requires Inv(s, v) && Enabled(s, c, Advance) && s.pc[s.cur[c]].MakeReady?
    ensures Inv(Do(s, c, Advance), v')
  {
    var t := s.cur[c];
    var w := s.pc[t].w;
    Current(s, v, c);
    WokenIsOff(s, v, c);
    var d := Shift(ReadyDone, s.sched, w, s.pc[w], READY, InReady, s.ready + [w], s.cvs);
    ListAppend(v.place, s.ready, InReady, w);
    CvsSame(s, v, w, InReady, -1);
    ShiftKeeps(s, v, c, d);
    MakeReadyIsShift(s, c, d);
    v' := SetPlace(v, w, InReady);
  }

  /** A thread that is being made ready has been switched out, even if it gave up its lock a moment ago. */
  lemma WokenIsOff(s: State, v: View, c: nat)
    requires Inv(s, v) && c < |s.cur| && s.pc[s.cur[c]].MakeReady?
    ensures var w := s.pc[s.cur[c]].w;
            && w < |s.pc| && ThreadOk(s, v, w) && w != s.cur[c] && v.place[w] == InHand(s.cur[c])
            && v.at[w].None? && (s.pc[w].Off? || s.pc[w].Fresh?)
  {
    Current(s, v, c);
    var w := s.pc[s.cur[c]].w;
    assert ThreadOk(s, v, w);
  }

  // ----- The switch -----

  /** The thread that is chosen has been switched out or has never run, unless it is the running one. */
  lemma NextIsOff(s: State, v: View, c: nat)
    requires Inv(s, v) && c < |s.cur| && s.pc[s.cur[c]].Pick?
    ensures var w := NextThread(s, c);
            && w < |s.pc| && ThreadOk(s, v, w)
            && (w != s.cur[c] ==> v.at[w].None? && (s.pc[w].Off? || s.pc[w].Fresh?))
            && (s.ready != [] ==> v.place[w].InReady?) && (s.ready == [] ==> v.place[w].Nowhere? && w == s.idle[c])
  {
    var w := NextThread(s, c);
    Current(s, v, c);
    if s.ready != [] { assert w in s.ready; }
    assert ThreadOk(s, v, w);
  }

  lemma ListsAfterPick(s: State, v: View, c: nat)
    requires Inv(s, v) && c < |s.cur| && s.pc[s.cur[c]].Pick?
    ensures NextThread(s, c) < |s.pc|
    ensures var w := NextThread(s, c);
            ListsOk(s.(ready := if s.ready != [] then s.ready[1..] else []), SetPlace(v, w, Nowhere))
  {
    var w := NextThread(s, c);
    NextIsOff(s, v, c);
    CvsSame(s, v, w, Nowhere, -1);
    if s.ready != [] {
      ListPop(v.place, s.ready, InReady, Nowhere);
    } else {
      ListSame(v.place, s.ready, InReady, w, Nowhere);
    }
  }

  lemma KeepPickSelf(s: State, v: View, c: nat)
    requires Inv(s, v) && Enabled(s, c, Advance) && s.pc[s.cur[c]].Pick? && NextThread(s, c) == s.cur[c]
    ensures Inv(Do(s, c, Advance), SetPlace(v, s.cur[c], Nowhere))
  {
    var t := s.cur[c];
    Current(s, v, c);
    NextIsOff(s, v, c);
    ListsAfterPick(s, v, c);
    var d := Shift(Back(None, s.pc[t].lk), s.sched, t, s.pc[t], RUNNING, Nowhere,
                   if s.ready != [] then s.ready[1..] else [], s.cvs);
    ShiftKeeps(s, v, c, d);
    assert After(s, c, d) == Do(s, c, Advance);
  }

  ghost function Switched(s: State, v: View, c: nat): (v': View)
    requires Shape(s) && ViewShape(s, v) && c < |s.cur| && NextThread(s, c) < |s.pc|
  {
    var w := NextThread(s, c);
    v.(place := v.place[w := Nowhere], at := v.at[s.cur[c] := None][w := Some(c)])
  }

  ghost predicate Switches(s: State, v: View, c: nat) {
    && Inv(s, v) && Enabled(s, c, Advance) && s.pc[s.cur[c]].Pick?
    && NextThread(s, c) != s.cur[c] && NextThread(s, c) < |s.pc|
  }

  lemma SwitchCpu(s: State, v: View, c: nat, u: nat)
    requires Switches(s, v, c) && u < |s.pc|
    ensures CpuOk(Do(s, c, Advance), Switched(s, v, c), u)
  {
    Current(s, v, c);
    NextIsOff(s, v, c);
    assert ThreadOk(s, v, u);
  }

  lemma SwitchPlace(s: State, v: View, c: nat, u: nat)
    requires Switches(s, v, c) && u < |s.pc|
    ensures PlaceOk(Do(s, c, Advance), Switched(s, v, c), u)
  {
    Current(s, v, c);
    NextIsOff(s, v, c);
    assert ThreadOk(s, v, u);
  }

  lemma SwitchPc(s: State, v: View, c: nat, u: nat)
    requires Switches(s, v, c) && u < |s.pc|
    ensures PcOk(Do(s, c, Advance), Switched(s, v, c), u)
  {
    Current(s, v, c);
    NextIsOff(s, v, c);
    assert ThreadOk(s, v, u);
  }

  lemma KeepSwitch(s: State, v: View, c: nat)
    requires Switches(s, v, c)
    ensures Inv(Do(s, c, Advance), Switched(s, v, c))
  {
    var s', v' := Do(s, c, Advance), Switched(s, v, c);
    Current(s, v, c);
    NextIsOff(s, v, c);
    ListsAfterPick(s, v, c);
    assert ListsOk(s', v');
    forall u | 0 <= u < |s'.pc|
      ensures ThreadOk(s', v', u)
    {
      SwitchCpu(s, v, c, u);
      SwitchPlace(s, v, c, u);
      SwitchPc(s, v, c, u);
    }
  }

  // ----- All reachable states -----

  lemma KeepAdvance(s: State, v: View, c: nat) returns (v': View)
    requires Inv(s, v) && Enabled(s, c, Advance)
    ensures Inv(Do(s, c, Advance), v')
  {
    var p := s.pc[s.cur[c]];
    v' := v;
    Current(s, v, c);
    if p.Mark? {
      v' := KeepMark(s, v, c);
    } else if p.GiveUp? {
      KeepGiveUp(s, v, c);
    } else if p.Pick? {
      NextIsOff(s, v, c);
      if NextThread(s, c) == s.cur[c] {
        KeepPickSelf(s, v, c);
        v' := SetPlace(v, s.cur[c], Nowhere);
      } else {
        KeepSwitch(s, v, c);
        v' := Switched(s, v, c);
      }
    } else if p.Back? {
      v' := KeepBack(s, v, c);
    } else if p.Reap? {
      v' := KeepReap(s, v, c);
    } else if p.WantLock? {
      KeepWantLock(s, v, c);
    } else if p.MakeReady? {
      v' := KeepMakeReady(s, v, c);
    } else if p.WantSched? {
      KeepWantSched(s, v, c);
    } else if p.WantReady? {
      KeepWantReady(s, v, c);
    } else {
      KeepSchedDrop(s, v, c);
    }
  }

  lemma KeepStep(s: State, v: View, c: nat, a: Action) returns (v': View)
    requires Inv(s, v) && Enabled(s, c, a)
    ensures Inv(Do(s, c, a), v')
  {
    v' := v;
    match a {
      case TakeLock(i) => KeepLocks(s, v, c, a);
      case DropLock(i) => KeepLocks(s, v, c, a);
      case Wait(i) =>
        KeepWait(s, v, c, i);
        v' := SetPlace(v, s.cur[c], InCv(i));
      case Signal(i) =>
        KeepSignal(s, v, c, i);
        v' := SetPlace(v, s.cvs[i][0], InHand(s.cur[c]));
      case Yield => KeepYield(s, v, c);
      case Exit => KeepExit(s, v, c);
      case Create(w) =>
        KeepCreate(s, v, c, w);
        v' := SetPlace(v, w, InHand(s.cur[c]));
      case Advance => v' := KeepAdvance(s, v, c);
    }
  }

  /** `to` can be reached from `from` by the actions of `run`, each taken by the given processor. */
  ghost predicate Reaches(from: State, run: seq<(nat, Action)>, to: State)
    decreases |run|
  {
    if run == [] then from == to
    else Shape(from) && Enabled(from, run[0].0, run[0].1) && Reaches(Do(from, run[0].0, run[0].1), run[1..], to)
  }

  lemma {:induction false} InvAlways(s: State, v: View, run: seq<(nat, Action)>, s': State) returns (v': View)
    requires Inv(s, v) && Reaches(s, run, s')
    ensures Inv(s', v')
    decreases |run|
  {
    v' := v;
    if run != [] {
      var v1 := KeepStep(s, v, run[0].0, run[0].1);
      v' := InvAlways(Do(s, run[0].0, run[0].1), v1, run[1..], s');
    }
  }

  /** The processor whose idle thread is `t`. */
  ghost function IdleCpu(s: State, t: int): (c: Option<nat>)
    ensures c.Some? ==> c.value < |s.idle| && s.idle[c.value] == t
    ensures c.None? ==> t !in s.idle
  {
    if t in s.idle then Some(var c :| 0 <= c < |s.idle| && s.idle[c] == t; c) else None
  }

  ghost function InitView(s: State): (v: View)
    ensures |v.place| == |v.at| == |v.idleOf| == |s.pc|
    ensures forall t :: 0 <= t < |s.pc| ==> v.place[t] == Nowhere && v.at[t] == v.idleOf[t] == IdleCpu(s, t)
  {
    var cpus := seq(|s.pc|, t => IdleCpu(s, t));
    View(seq(|s.pc|, _ => Nowhere), cpus, cpus)
  }

  lemma InitCpu(s: State, c: nat)
    requires Init(s) && c < |s.cur|
    ensures IdleCpu(s, s.cur[c]) == Some(c) && s.cur[c] == s.idle[c]
  {
    assert s.idle[c] in s.idle;
    var d := IdleCpu(s, s.idle[c]).value;
    assert s.idle[d] == s.idle[c];
  }

  lemma InitThread(s: State, t: nat)
    requires Init(s) && t < |s.pc|
    ensures ThreadOk(s, InitView(s), t)
  {
    if t in s.idle {
      var c := IdleCpu(s, t).value;
      InitCpu(s, c);
    }
  }

  lemma InitInv(s: State) returns (v: View)
    requires Init(s)
    ensures Inv(s, v)
  {
    v := InitView(s);
    forall t | 0 <= t < |s.pc|
      ensures ThreadOk(s, v, t)
    {
      InitThread(s, t);
    }
    forall c | 0 <= c < |s.cur|
      ensures v.at[s.cur[c]] == Some(c) && v.idleOf[s.idle[c]] == Some(c)
    {
      InitCpu(s, c);
    }
  }

  lemma Always(s: State, run: seq<(nat, Action)>, s': State) returns (v: View)
    requires Init(s) && Reaches(s, run, s')
    ensures Inv(s', v)
  {
    var v0 := InitInv(s);
    v := InvAlways(s, v0, run, s');
  }

  // ----- What this means -----

  /** No thread runs on two processors. */
  lemma OneProcessor(s: State, run: seq<(nat, Action)>, s': State, c: nat, d: nat)
    requires Init(s) && Reaches(s, run, s') && c < |s'.cur| && d < |s'.cur| && c != d
    ensures s'.cur[c] != s'.cur[d]
  {
    var v := Always(s, run, s');
    assert v.at[s'.cur[c]] == Some(c) && v.at[s'.cur[d]] == Some(d);
  }

  /** The one list node of a thread is on one list at most, and once. */
  lemma OneList(s: State, run: seq<(nat, Action)>, s': State, t: nat, i: nat, j: nat)
    requires Init(s) && Reaches(s, run, s') && i < |s'.cvs| && j < |s'.cvs|
    ensures Distinct(s'.ready) && Distinct(s'.cvs[i])
    ensures t in s'.ready ==> t !in s'.cvs[i]
    ensures t in s'.cvs[i] && t in s'.cvs[j] ==> i == j
  {
    var v := Always(s, run, s');
    assert ListOk(v.place, s'.cvs[i], InCv(i));
    assert ListOk(v.place, s'.cvs[j], InCv(j));
  }

  /** The scheduler lock is exclusive: at most one processor is between taking and releasing it. */
  lemma OneScheduler(s: State, run: seq<(nat, Action)>, s': State, c: nat, d: nat)
    requires Init(s) && Reaches(s, run, s') && HasSched(Doing(s', c)) && HasSched(Doing(s', d))
    ensures c == d
  {
    var v := Always(s, run, s');
    Current(s', v, c);
    Current(s', v, d);
  }

  /** It is held exactly while some processor is between the two, so it is never left behind. */
  lemma SchedulerHeld(s: State, run: seq<(nat, Action)>, s': State, c: nat)
    requires Init(s) && Reaches(s, run, s') && c < |s'.cur|
    ensures s'.sched == Some(c) <==> HasSched(Doing(s', c))
    ensures s'.sched.Some? ==> s'.sched.value < |s'.cur| && HasSched(Doing(s', s'.sched.value))
  {
    var v := Always(s, run, s');
    Current(s', v, c);
  }

  /** The thread that is switched to is in state READY if it was queued, and runs nowhere else. */
  lemma DispatchSafe(s: State, run: seq<(nat, Action)>, s': State, c: nat, d: nat)
    requires Init(s) && Reaches(s, run, s') && Doing(s', c).Pick? && d < |s'.cur|
    ensures NextThread(s', c) < |s'.st| && (s'.ready != [] ==> s'.st[NextThread(s', c)] == READY)
    ensures NextThread(s', c) == s'.cur[d] ==> d == c
  {
    var v := Always(s, run, s');
    NextIsOff(s', v, c);
    Current(s', v, d);
  }

  /** A thread that released its lock inside the scheduler cannot be queued before it is switched out. */
  lemma WakeSafe(s: State, run: seq<(nat, Action)>, s': State, c: nat, d: nat)
    requires Init(s) && Reaches(s, run, s') && Doing(s', c).MakeReady? && d < |s'.cur|
    ensures Doing(s', c).w != s'.cur[d] && Doing(s', c).w !in s'.ready
  {
    var v := Always(s, run, s');
    WokenIsOff(s', v, c);
    Current(s', v, d);
  }

  /** A thread that is freed is a zombie that runs nowhere and is on no list. */
  lemma ReapSafe(s: State, run: seq<(nat, Action)>, s': State, c: nat, d: nat, i: nat)
    requires Init(s) && Reaches(s, run, s') && Doing(s', c).Reap? && d < |s'.cur| && i < |s'.cvs|
    ensures var w := Doing(s', c).dead;
            w < |s'.st| && s'.st[w] == ZOMBIE && w != s'.cur[d] && w !in s'.ready && w !in s'.cvs[i]
  {
    var v := Always(s, run, s');
    Current(s', v, c);
    Current(s', v, d);
    assert ThreadOk(s', v, Doing(s', c).dead);
    assert ListOk(v.place, s'.cvs[i], InCv(i));
  }

  /** A switched-out waiter is on the waiter list, on the ready queue, or about to be queued: no wakeup is lost. */
  lemma WaiterKept(s: State, run: seq<(nat, Action)>, s': State, t: nat) returns (u: nat, i: nat)
    requires Init(s) && Reaches(s, run, s') && t < |s'.pc| && s'.pc[t].Off? && s'.pc[t].lk.Some?
    ensures || (i < |s'.cvs| == |s'.lockOf| && t in s'.cvs[i] && s'.lockOf[i] == s'.pc[t].lk.value)
            || t in s'.ready
            || (u < |s'.pc| && (s'.pc[u] == WantReady(t) || s'.pc[u] == MakeReady(t)))
  {
    var v := Always(s, run, s');
    assert ThreadOk(s', v, t);
    u, i := if v.place[t].InHand? then v.place[t].u else 0, 0;
    assert t in s'.ready <==> v.place[t] == InReady;
    if v.place[t].InCv? {
      i := v.place[t].i;
      assert ListOk(v.place, s'.cvs[i], InCv(i));
      assert t in s'.cvs[i];
    }
  }

  /** A processor can always go on, unless its thread waits for a lock that is taken. */
  lemma OnlyLocksBlock(s: State, run: seq<(nat, Action)>, s': State, c: nat)
    requires Init(s) && Reaches(s, run, s') && c < |s'.cur|
    ensures Shape(s')
    ensures var p := Doing(s', c);
            || Enabled(s', c, Advance) || Enabled(s', c, Yield)
            || ((p.WantSched? || p.WantReady?) && s'.sched.Some?)
            || (p.WantLock? && p.i < |s'.owner| && s'.owner[p.i].Some?)
  {
    var v := Always(s, run, s');
    Current(s', v, c);
    if s'.ready != [] { assert s'.ready[0] in s'.ready; }
    CanGoOn(s', v, c);
  }

  lemma CanGoOn(s: State, v: View, c: nat)
    requires Shape(s) && ViewShape(s, v) && c < |s.cur| && ThreadOk(s, v, s.cur[c]) && v.at[s.cur[c]] == Some(c)
    requires s.ready != [] ==> s.ready[0] < |s.pc|
    ensures var p := Doing(s, c);
            || Enabled(s, c, Advance) || Enabled(s, c, Yield)
            || ((p.WantSched? || p.WantReady?) && s.sched.Some?)
            || (p.WantLock? && p.i < |s.owner| && s.owner[p.i].Some?)
  {
  }

  // ----- First come, first served -----

  /** The step takes a thread off the ready queue. */
  ghost predicate Pops(s: State, c: nat, a: Action) {
    a.Advance? && Doing(s, c).Pick? && s.ready != []
  }

  /** The number of threads that are taken off the ready queue during a run. */
  ghost function Dispatches(from: State, run: seq<(nat, Action)>, to: State): (n: nat)
    requires Reaches(from, run, to)
    decreases |run|
  {
    if run == [] then 0
    else (if Pops(from, run[0].0, run[0].1) then 1 else 0) + Dispatches(Do(from, run[0].0, run[0].1), run[1..], to)
  }

  lemma ReadyStep(s: State, c: nat, a: Action, k: nat)
    requires Shape(s) && Enabled(s, c, a) && k < |s.ready| && (Pops(s, c, a) ==> k > 0)
    ensures var j := if Pops(s, c, a) then k - 1 else k;
            j < |Do(s, c, a).ready| && Do(s, c, a).ready[j] == s.ready[k]
  {
  }

  /**
   A thread that is k-th on the ready queue moves up by one place with every dispatch, and only then, until it
   is its turn.
   */
  lemma {:induction false} FirstComeFirstServed(s: State, run: seq<(nat, Action)>, s': State, k: nat)
    requires Reaches(s, run, s') && k < |s.ready| && Dispatches(s, run, s') <= k
    ensures k - Dispatches(s, run, s') < |s'.ready| && s'.ready[k - Dispatches(s, run, s')] == s.ready[k]
    decreases |run|
  {
    if run != [] {
      var c, a, rest := run[0].0, run[0].1, run[1..];
      var s1 := Do(s, c, a);
      var j := if Pops(s, c, a) then k - 1 else k;
      assert Dispatches(s, run, s') == k - j + Dispatches(s1, rest, s');
      ReadyStep(s, c, a, k);
      FirstComeFirstServed(s1, rest, s', j);
    }
  }

  /** After exactly k dispatches it is dispatched itself, by whichever processor chooses next. */
  lemma DispatchedInTurn(s: State, run: seq<(nat, Action)>, s': State, k: nat, c: nat)
    requires Reaches(s, run, s') && k < |s.ready| && Dispatches(s, run, s') == k
    requires Shape(s') && Enabled(s', c, Advance) && Pops(s', c, Advance)
    ensures s.ready[k] < |s'.st|
    ensures Do(s', c, Advance).cur[c] == s.ready[k] && Do(s', c, Advance).st[s.ready[k]] == RUNNING
  {
    FirstComeFirstServed(s, run, s', k);
    PopRuns(s', c);
  }

  lemma PopRuns(s: State, c: nat)
    requires Shape(s) && Enabled(s, c, Advance) && Pops(s, c, Advance)
    ensures var s' := Do(s, c, Advance);
            s.ready[0] < |s'.st| && s'.cur[c] == s.ready[0] && s'.st[s.ready[0]] == RUNNING
  {
  }
}
