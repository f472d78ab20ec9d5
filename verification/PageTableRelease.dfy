/**
 What tearing down an address space releases.  SubLog follows the nested loops of
 the tear-down; the lemmas show that it names every mapped page and every table
 exactly once.
 */
module PageTableRelease {
  import opened Sequences
  import opened Wrappers
  import opened PageTableSpec

  /** One reference to a mapped frame is dropped, or the frame of a table is given back. */
  datatype Release = DecRef(page: Path, frame: nat) | FreeTable(level: nat, prefix: Path, frame: nat)

  function Width(mem: Mem, f: nat): (n: nat) {
    if f < |mem| then |mem[f]| else 0
  }

  /** The releases for entries 0 up to `n` of table `f`, which lies at level `l` below prefix `q`. */
  ghost function SubLog(mem: Mem, f: nat, l: nat, q: Path, n: nat): (s: seq<Release>)
    decreases l, n
  {
    if n == 0 || l == 0 then [] else SubLog(mem, f, l, q, n - 1) + EntryLog(mem, f, l, q, n - 1)
  }

  ghost function EntryLog(mem: Mem, f: nat, l: nat, q: Path, i: nat): (s: seq<Release>)
    decreases l, i, 0
  {
    var w := WordAt(mem, f, i);
    if !Present(w) || l == 0 then []
    else if l == 1 then [DecRef(Extend(q, 1, i), w.frame)]
    else SubLog(mem, w.frame, l - 1, Extend(q, l, i), Width(mem, w.frame))
         + [FreeTable(l - 1, Extend(q, l, i), w.frame)]
  }

  // ----- The log names what walks reach -----

  /** The level `k` table on the way along `p` from table `f` of level `l`. */
  ghost function OnFrom(mem: Mem, f: nat, l: nat, p: Path, k: nat): (t: Option<nat>)
    decreases l
  {
    if l <= k then Some(f)
    else
      var w := WordAt(mem, f, Idx(p, l));
      if Present(w) then OnFrom(mem, w.frame, l - 1, p, k) else None
  }

  lemma {:induction false} NoneBelow(mem: Mem, r: nat, p: Path, l: nat, k: nat)
    requires 1 <= k <= l <= 4 && On(mem, r, p, l).None?
    ensures On(mem, r, p, k).None?
    decreases l - k
  {
  }

  /** Walking on from a table on the way is walking from the root. */
  lemma {:induction false} OnFromIsOn(mem: Mem, r: nat, p: Path, f: nat, l: nat, k: nat)
    requires 1 <= k <= l <= 4 && On(mem, r, p, l) == Some(f)
    ensures OnFrom(mem, f, l, p, k) == On(mem, r, p, k)
    decreases l
  {
  }

  /** A release that is due for entry `Idx(_, l)` of table `f`. */
  ghost predicate Due(mem: Mem, f: nat, l: nat, q: Path, e: Release) {
    match e
    case DecRef(p, c) =>
      && PathOk(p) && Pre(p, l) == q
      && var t := OnFrom(mem, f, l, p, 1);
         t.Some? && Present(WordAt(mem, t.value, p.i1)) && WordAt(mem, t.value, p.i1).frame == c
    case FreeTable(k, p, c) =>
      1 <= k < l && PathOk(p) && Pre(p, k) == p && Pre(p, l) == q && OnFrom(mem, f, l, p, k) == Some(c)
  }

  function Place(e: Release): (p: Path) {
    match e case DecRef(p, _) => p case FreeTable(_, p, _) => p
  }

  ghost predicate Shape(mem: Mem, l: nat, q: Path) {
    && (forall f :: 0 <= f < |mem| ==> |mem[f]| == ENTRIES)
    && 1 <= l <= 4 && PathOk(q) && Pre(q, l) == q
  }

  lemma ExtendShape(mem: Mem, l: nat, q: Path, i: nat)
    requires Shape(mem, l, q) && 2 <= l && i < ENTRIES
    ensures Shape(mem, l - 1, Extend(q, l, i))
  {
  }

  lemma LeafExact(mem: Mem, f: nat, q: Path, i: nat, e: Release)
    requires Shape(mem, 1, q) && i < ENTRIES
    ensures e in EntryLog(mem, f, 1, q, i) <==> Due(mem, f, 1, q, e) && Place(e).i1 == i
  {
  }

  /** One step down: what is due at entry `i` is what is due in the child, and the child itself. */
  lemma DueStep(mem: Mem, f: nat, l: nat, q: Path, i: nat, e: Release)
    requires Shape(mem, l, q) && 2 <= l && i < ENTRIES && Present(WordAt(mem, f, i))
    ensures var c := WordAt(mem, f, i).frame;
            Due(mem, f, l, q, e) && Idx(Place(e), l) == i <==>
              Due(mem, c, l - 1, Extend(q, l, i), e) || e == FreeTable(l - 1, Extend(q, l, i), c)
  {
  }

  lemma {:induction false} EntryLogExact(mem: Mem, f: nat, l: nat, q: Path, i: nat, e: Release)
    requires Shape(mem, l, q) && i < ENTRIES
    ensures e in EntryLog(mem, f, l, q, i) <==> Due(mem, f, l, q, e) && Idx(Place(e), l) == i
    decreases l, i, 0
  {
    var c, t := WordAt(mem, f, i).frame, Extend(q, l, i);
    if Present(WordAt(mem, f, i)) && l >= 2 {
      var n := Width(mem, c);
      var s := SubLog(mem, c, l - 1, t, n);
      assert EntryLog(mem, f, l, q, i) == s + [FreeTable(l - 1, t, c)];
      ExtendShape(mem, l, q, i);
      SubLogExact(mem, c, l - 1, t, n, e);
      DueStep(mem, f, l, q, i, e);
      if Due(mem, c, l - 1, t, e) { IdxBound(mem, c, l - 1, t, e); }
    } else if l == 1 {
      LeafExact(mem, f, q, i, e);
    }
  }

  /** What is due below a table lies within its width. */
  lemma IdxBound(mem: Mem, f: nat, l: nat, q: Path, e: Release)
    requires Shape(mem, l, q) && Due(mem, f, l, q, e)
    ensures Idx(Place(e), l) < Width(mem, f)
  {
  }

  /** The log of a table holds exactly the releases that are due below it. */
  lemma {:induction false} SubLogExact(mem: Mem, f: nat, l: nat, q: Path, n: nat, e: Release)
    requires Shape(mem, l, q) && n <= ENTRIES
    ensures e in SubLog(mem, f, l, q, n) <==> Due(mem, f, l, q, e) && Idx(Place(e), l) < n
    decreases l, n
  {
    if n > 0 {
      SubLogExact(mem, f, l, q, n - 1, e);
      EntryLogExact(mem, f, l, q, n - 1, e);
      var a, b := SubLog(mem, f, l, q, n - 1), EntryLog(mem, f, l, q, n - 1);
      assert SubLog(mem, f, l, q, n) == a + b;
      assert e in a + b <==> e in a || e in b;
    }
  }

  // ----- Nothing is released twice -----

  lemma DistinctConcat(a: seq<Release>, b: seq<Release>)
    requires Distinct(a) && Distinct(b) && forall e :: e in a ==> e !in b
    ensures Distinct(a + b)
  {
    forall i, j | 0 <= i < j < |a + b|
      ensures (a + b)[i] != (a + b)[j]
    {
      if i < |a| && |a| <= j {
        assert (a + b)[i] in a;
        assert (a + b)[j] in b;
      }
    }
  }

  lemma TableAfterSub(mem: Mem, c: nat, l: nat, t: Path, n: nat)
    requires Shape(mem, l, t) && n <= ENTRIES && Distinct(SubLog(mem, c, l, t, n))
    ensures Distinct(SubLog(mem, c, l, t, n) + [FreeTable(l, t, c)])
  {
    SubLogExact(mem, c, l, t, n, FreeTable(l, t, c));
    DistinctConcat(SubLog(mem, c, l, t, n), [FreeTable(l, t, c)]);
  }

  lemma {:induction false} EntryLogDistinct(mem: Mem, f: nat, l: nat, q: Path, i: nat)
    requires Shape(mem, l, q) && i < ENTRIES
    ensures Distinct(EntryLog(mem, f, l, q, i))
    decreases l, i, 0
  {
    var c, t := WordAt(mem, f, i).frame, Extend(q, l, i);
    if Present(WordAt(mem, f, i)) && l >= 2 {
      ExtendShape(mem, l, q, i);
      SubLogDistinct(mem, c, l - 1, t, Width(mem, c));
      TableAfterSub(mem, c, l - 1, t, Width(mem, c));
      var s := EntryLog(mem, f, l, q, i);
      assert s == SubLog(mem, c, l - 1, t, Width(mem, c)) + [FreeTable(l - 1, t, c)];
      assert Distinct(s);
    }
  }

  lemma {:induction false} SubLogDistinct(mem: Mem, f: nat, l: nat, q: Path, n: nat)
    requires Shape(mem, l, q) && n <= ENTRIES
    ensures Distinct(SubLog(mem, f, l, q, n))
    decreases l, n
  {
    if n > 0 {
      SubLogDistinct(mem, f, l, q, n - 1);
      EntryLogDistinct(mem, f, l, q, n - 1);
      var a, b := SubLog(mem, f, l, q, n - 1), EntryLog(mem, f, l, q, n - 1);
      forall e | e in a
        ensures e !in b
      {
        SubLogExact(mem, f, l, q, n - 1, e);
        EntryLogExact(mem, f, l, q, n - 1, e);
      }
      DistinctConcat(a, b);
    }
  }

  // ----- Tearing down an address space -----

  /** All slots of the root but the last. */
  function UserSlots(mem: Mem, root: nat): (n: nat) {
    if Width(mem, root) > 0 then Width(mem, root) - 1 else 0
  }

  const TOP := Path(0, 0, 0, 0)

  /** The releases of a whole tear-down: everything in the user part, and the root at the end. */
  ghost function DestroyLog(mem: Mem, root: nat): (s: seq<Release>) {
    SubLog(mem, root, 4, TOP, UserSlots(mem, root)) + [FreeTable(4, TOP, root)]
  }

  /** A frame is released for a page exactly when the page is a mapped user page. */
  lemma DestroyPages(mem: Mem, loc: seq<Loc>, root: nat, p: Path, c: nat)
    requires Inv(mem, loc) && IsRoot(loc, root)
    ensures DecRef(p, c) in DestroyLog(mem, root) <==>
              PathOk(p) && p.i4 != KERNEL_SLOT && Flat(mem, root, p).Some? && Flat(mem, root, p).value.frame == c
  {
    SubLogExact(mem, root, 4, TOP, UserSlots(mem, root), DecRef(p, c));
    OnFromIsOn(mem, root, p, root, 4, 1);
  }

  /** A table is released exactly when it is the root or serves user pages. */
  lemma DestroyTables(mem: Mem, loc: seq<Loc>, root: nat, k: nat, p: Path, c: nat)
    requires Inv(mem, loc) && IsRoot(loc, root) && 1 <= k <= 3
    ensures FreeTable(k, p, c) in DestroyLog(mem, root) <==>
              PathOk(p) && Pre(p, k) == p && p.i4 != KERNEL_SLOT && On(mem, root, p, k) == Some(c)
  {
    SubLogExact(mem, root, 4, TOP, UserSlots(mem, root), FreeTable(k, p, c));
    OnFromIsOn(mem, root, p, root, 4, k);
  }

  /** Every mapping and every table is released once. */
  lemma DestroyOnce(mem: Mem, loc: seq<Loc>, root: nat)
    requires Inv(mem, loc) && IsRoot(loc, root)
    ensures Distinct(DestroyLog(mem, root))
  {
    SubLogDistinct(mem, root, 4, TOP, UserSlots(mem, root));
    TableAfterSub(mem, root, 4, TOP, UserSlots(mem, root));
  }

  /** A frame is a table in one place only, so no frame is released twice as a table. */
  lemma OnePlace(mem: Mem, loc: seq<Loc>, root: nat, k: nat, p: Path, m: nat, q: Path)
    requires Inv(mem, loc) && IsRoot(loc, root) && 1 <= k <= 4 && 1 <= m <= 4 && Pre(p, k) == p && Pre(q, m) == q
    requires On(mem, root, p, k).Some? && On(mem, root, p, k) == On(mem, root, q, m)
    ensures k == m && p == q
  {
    OnLoc(mem, loc, root, p, k);
    OnLoc(mem, loc, root, q, m);
  }

  // ----- What a tear-down may touch -----

  /** A table of space `root` that lies below prefix `q` of level `l`, or is that table. */
  ghost predicate Under(t: Loc, root: nat, l: nat, q: Path) {
    t.Table? && t.space == User(root) && 1 <= t.level <= l && Pre(t.prefix, l) == q
  }

  ghost predicate AgreeUnder(mem: Mem, loc: seq<Loc>, root: nat, l: nat, q: Path, mem': Mem) {
    && |mem'| == |mem| == |loc|
    && forall g :: 0 <= g < |loc| && Under(loc[g], root, l, q) ==> mem'[g] == mem[g]
  }

  ghost predicate TableAt(loc: seq<Loc>, f: nat, root: nat, l: nat, q: Path) {
    f < |loc| && loc[f] == Table(User(root), l, q)
  }

  lemma AgreeChild(mem: Mem, loc: seq<Loc>, root: nat, l: nat, q: Path, mem': Mem, i: nat)
    requires AgreeUnder(mem, loc, root, l, q, mem') && 2 <= l <= 4 && Pre(q, l) == q
    ensures AgreeUnder(mem, loc, root, l - 1, Extend(q, l, i), mem')
  {
  }

  lemma ChildTable(mem: Mem, loc: seq<Loc>, root: nat, f: nat, l: nat, q: Path, i: nat)
    requires Inv(mem, loc) && TableAt(loc, f, root, l, q) && 2 <= l <= 4 && Present(WordAt(mem, f, i))
    requires l == 4 ==> i != KERNEL_SLOT
    ensures TableAt(loc, WordAt(mem, f, i).frame, root, l - 1, Extend(q, l, i))
  {
  }

  /** The log of a table depends only on the tables below it. */
  lemma {:induction false} SubLogSame(mem: Mem, loc: seq<Loc>, root: nat, f: nat, l: nat, q: Path, n: nat, mem': Mem)
    requires Inv(mem, loc) && Shape(mem, l, q) && TableAt(loc, f, root, l, q)
    requires n <= ENTRIES && (l == 4 ==> n <= KERNEL_SLOT)
    requires AgreeUnder(mem, loc, root, l, q, mem')
    ensures SubLog(mem', f, l, q, n) == SubLog(mem, f, l, q, n)
    decreases l, n
  {
    if n > 0 {
      var w := WordAt(mem, f, n - 1);
      assert Under(loc[f], root, l, q);
      assert WordAt(mem', f, n - 1) == w;
      SubLogSame(mem, loc, root, f, l, q, n - 1, mem');
      if Present(w) && l >= 2 {
        ChildTable(mem, loc, root, f, l, q, n - 1);
        ExtendShape(mem, l, q, n - 1);
        AgreeChild(mem, loc, root, l, q, mem', n - 1);
        assert Under(loc[w.frame], root, l - 1, Extend(q, l, n - 1));
        SubLogSame(mem, loc, root, w.frame, l - 1, Extend(q, l, n - 1), Width(mem, w.frame), mem');
      }
    }
  }

  /** Some words of a table have been cleared. */
  ghost predicate Cleared(a: Frame, b: Frame) {
    |b| == |a| && forall j :: 0 <= j < |a| ==> b[j] == a[j] || b[j] == ZERO
  }

  /** Only entries of last-level tables below entries 0 up to `n` of the table at (`l`, `q`) have been cleared. */
  ghost predicate Touched(mem: Mem, loc: seq<Loc>, root: nat, l: nat, q: Path, n: nat, mem': Mem) {
    && |mem'| == |mem| == |loc|
    && forall g :: 0 <= g < |loc| ==>
         || mem'[g] == mem[g]
         || (Leafy(loc, g) && Under(loc[g], root, l, q) && (l >= 2 ==> Idx(loc[g].prefix, l) < n)
             && Cleared(mem[g], mem'[g]))
  }

  lemma TouchedInner(mem: Mem, loc: seq<Loc>, root: nat, l: nat, q: Path, n: nat, mem': Mem)
    requires Inv(mem, loc) && Touched(mem, loc, root, l, q, n, mem')
    ensures SameInner(mem, loc, mem') && Inv(mem', loc)
  {
    SameInnerInv(mem, loc, mem');
  }

  lemma TouchedAgree(mem: Mem, loc: seq<Loc>, root: nat, l: nat, q: Path, n: nat, mem': Mem)
    requires Touched(mem, loc, root, l, q, n, mem') && 2 <= l <= 4 && Pre(q, l) == q
    ensures AgreeUnder(mem, loc, root, l - 1, Extend(q, l, n), mem')
  {
  }

  lemma TouchedStep(mem: Mem, loc: seq<Loc>, root: nat, l: nat, q: Path, n: nat, mem1: Mem, m: nat, mem2: Mem)
    requires Touched(mem, loc, root, l, q, n, mem1) && 2 <= l <= 4 && Pre(q, l) == q
    requires Touched(mem1, loc, root, l - 1, Extend(q, l, n), m, mem2)
    ensures Touched(mem, loc, root, l, q, n + 1, mem2)
  {
  }

  lemma LogStep(mem: Mem, f: nat, l: nat, q: Path, i: nat, log: seq<Release>)
    requires l > 0
    ensures (log + SubLog(mem, f, l, q, i)) + EntryLog(mem, f, l, q, i) == log + SubLog(mem, f, l, q, i + 1)
  {
  }

  /** Before entry `n` is torn down, what it leads to is still as at the start. */
  lemma EntryReady(mem: Mem, loc: seq<Loc>, root: nat, f: nat, l: nat, q: Path, n: nat, mem': Mem)
    requires Inv(mem, loc) && Shape(mem, l, q) && TableAt(loc, f, root, l, q) && 2 <= l
    requires n < ENTRIES && (l == 4 ==> n < KERNEL_SLOT) && Touched(mem, loc, root, l, q, n, mem')
    ensures Inv(mem', loc) && WordAt(mem', f, n) == WordAt(mem, f, n)
    ensures Touched(mem, loc, root, l, q, n + 1, mem')
    ensures var c, t := WordAt(mem, f, n).frame, Extend(q, l, n);
            Present(WordAt(mem, f, n)) ==>
              && TableAt(loc, c, root, l - 1, t) && Shape(mem', l - 1, t)
              && EntryLog(mem, f, l, q, n) == SubLog(mem', c, l - 1, t, Width(mem', c)) + [FreeTable(l - 1, t, c)]
  {
    TouchedInner(mem, loc, root, l, q, n, mem');
    var c, t := WordAt(mem, f, n).frame, Extend(q, l, n);
    if Present(WordAt(mem, f, n)) {
      ChildTable(mem, loc, root, f, l, q, n);
      ExtendShape(mem, l, q, n);
      TouchedAgree(mem, loc, root, l, q, n, mem');
      assert Under(loc[c], root, l - 1, t);
      SubLogSame(mem, loc, root, c, l - 1, t, Width(mem, c), mem');
    }
  }

  // ----- The limits of the loops -----

  // Page number of the end of the user stack, where the tear-down ends.
  const STACK_END: nat := 0xF_FFFF_F7FF_FFFF

  /** Where the loop over a table stops that starts at entry `x`, when `last` is the entry of the end of the range. */
  function Limit(x: nat, last: nat): (n: nat) { if x < last then ENTRIES else last + 1 }

  /**
   A tear-down visits the whole user part: every entry of every table, and every slot of the root but the
   kernel's.
   */
  lemma StackLimits()
    ensures PathOf(STACK_END - 1).i4 + 1 == KERNEL_SLOT
    ensures forall l :: 1 <= l <= 3 ==> Limit(0, Idx(PathOf(STACK_END), l)) == ENTRIES
  {
    StackPath();
  }

  lemma StackPath()
    ensures PathOf(STACK_END) == Path(510, 511, 511, 511) && PathOf(STACK_END - 1).i4 == 510
  {
    assert STACK_END / 512 == 0x7fffffbffff && 0x7fffffbffff / 512 == 0x3fffffdff && 0x3fffffdff / 512 == 0x1fffffe;
    assert (STACK_END - 1) / 512 == 0x7fffffbffff;
  }

  // ----- Giving the tables back -----

  /** A table of a user space is on the walk that its place names. */
  ghost predicate Reached(mem: Mem, loc: seq<Loc>, f: nat) {
    f < |loc| && loc[f].Table? && loc[f].space.User? ==>
      var t := loc[f];
      && IsRoot(loc, t.space.root) && 1 <= t.level <= 4 && PathOk(t.prefix) && Pre(t.prefix, t.level) == t.prefix
      && (t.level < 4 ==> t.prefix.i4 != KERNEL_SLOT) && On(mem, t.space.root, t.prefix, t.level) == Some(f)
  }

  /** No table is lost. */
  ghost predicate Rooted(mem: Mem, loc: seq<Loc>) {
    forall f: nat {:trigger Reached(mem, loc, f)} :: Reached(mem, loc, f)
  }

  /** The frames that a list of releases gives back as tables. */
  function TableFrames(s: seq<Release>): (fs: seq<nat>) {
    if s == [] then []
    else
      var e := s[|s| - 1];
      TableFrames(s[..|s| - 1]) + if e.FreeTable? then [e.frame] else []
  }

  lemma {:induction false} FrameOfTable(s: seq<Release>, e: Release)
    requires e in s && e.FreeTable?
    ensures e.frame in TableFrames(s)
    decreases |s|
  {
    var init := s[..|s| - 1];
    if e in init { FrameOfTable(init, e); } else { assert e == s[|s| - 1]; }
  }

  lemma {:induction false} TableOfFrame(s: seq<Release>, c: nat) returns (e: Release)
    requires c in TableFrames(s)
    ensures e in s && e.FreeTable? && e.frame == c
    decreases |s|
  {
    var init := s[..|s| - 1];
    if c in TableFrames(init) { e := TableOfFrame(init, c); } else { e := s[|s| - 1]; }
  }

  /** Different tables of the list lie in different frames. */
  ghost predicate OneFrameEach(s: seq<Release>) {
    forall e, g :: e in s && g in s && e.FreeTable? && g.FreeTable? && e.frame == g.frame ==> e == g
  }

  lemma {:induction false} FramesDistinct(s: seq<Release>)
    requires Distinct(s) && OneFrameEach(s)
    ensures Distinct(TableFrames(s))
    decreases |s|
  {
    if s != [] {
      var init, e := s[..|s| - 1], s[|s| - 1];
      FramesDistinct(init);
      if e.FreeTable? { LastIsNew(s); }
    }
  }

  lemma LastIsNew(s: seq<Release>)
    requires Distinct(s) && OneFrameEach(s) && s != [] && s[|s| - 1].FreeTable?
    ensures s[|s| - 1].frame !in TableFrames(s[..|s| - 1])
  {
    var init, e := s[..|s| - 1], s[|s| - 1];
    forall g | g in init && g.FreeTable?
      ensures g.frame != e.frame
    {
      var i :| 0 <= i < |init| && init[i] == g;
      assert s[i] == g;
    }
    if e.frame in TableFrames(init) { var g := TableOfFrame(init, e.frame); }
  }

  ghost predicate OfSpace(t: Loc, root: nat) {
    t.Table? && t.space == User(root)
  }

  /** A table that a tear-down gives back has the place that the log says. */
  lemma LoggedPlace(mem: Mem, loc: seq<Loc>, root: nat, e: Release)
    requires Inv(mem, loc) && IsRoot(loc, root) && e in DestroyLog(mem, root) && e.FreeTable?
    ensures e.frame < |loc| && loc[e.frame] == Table(User(root), e.level, e.prefix)
  {
    var k, p, c := e.level, e.prefix, e.frame;
    if e != FreeTable(4, TOP, root) {
      SubLogExact(mem, root, 4, TOP, UserSlots(mem, root), e);
      DestroyTables(mem, loc, root, k, p, c);
      OnLoc(mem, loc, root, p, k);
    }
  }

  /** A tear-down gives back exactly the tables of the space. */
  lemma DestroyFrames(mem: Mem, loc: seq<Loc>, root: nat, c: nat)
    requires Inv(mem, loc) && Rooted(mem, loc) && IsRoot(loc, root)
    ensures c in TableFrames(DestroyLog(mem, root)) <==> c < |loc| && OfSpace(loc[c], root)
  {
    var s := DestroyLog(mem, root);
    if c in TableFrames(s) {
      var e := TableOfFrame(s, c);
      LoggedPlace(mem, loc, root, e);
    }
    if c < |loc| && OfSpace(loc[c], root) {
      assert Reached(mem, loc, c);
      var e := FreeTable(loc[c].level, loc[c].prefix, c);
      if loc[c].level < 4 {
        DestroyTables(mem, loc, root, e.level, e.prefix, c);
      } else {
        TopOnly(loc[c].prefix);
        assert s[|s| - 1] == e;
      }
      FrameOfTable(s, e);
    }
  }

  lemma TopOnly(p: Path)
    requires Pre(p, 4) == p
    ensures p == TOP
  {
  }

  lemma DestroyDistinct(mem: Mem, loc: seq<Loc>, root: nat)
    requires Inv(mem, loc) && IsRoot(loc, root)
    ensures Distinct(TableFrames(DestroyLog(mem, root)))
  {
    var s := DestroyLog(mem, root);
    DestroyOnce(mem, loc, root);
    forall e, g | e in s && g in s && e.FreeTable? && g.FreeTable? && e.frame == g.frame
      ensures e == g
    {
      LoggedPlace(mem, loc, root, e);
      LoggedPlace(mem, loc, root, g);
    }
    FramesDistinct(s);
  }

  /** The frames once the tables of space `root` are free. */
  ghost function Freed(loc: seq<Loc>, root: nat): (loc': seq<Loc>)
    ensures |loc'| == |loc|
    ensures forall f :: 0 <= f < |loc| ==> loc'[f] == if OfSpace(loc[f], root) then Free else loc[f]
  {
    seq(|loc|, f requires 0 <= f < |loc| => if OfSpace(loc[f], root) then Free else loc[f])
  }

  lemma FreedInv(mem: Mem, loc: seq<Loc>, root: nat)
    requires Inv(mem, loc) && Rooted(mem, loc) && IsRoot(loc, root)
    ensures Inv(mem, Freed(loc, root)) && Rooted(mem, Freed(loc, root))
  {
    var loc' := Freed(loc, root);
    forall f: nat, i: nat | Present(WordAt(mem, f, i)) && Inner(loc', f)
      ensures ChildOk(loc', f, i, WordAt(mem, f, i).frame)
    {
      assert ChildOk(loc, f, i, WordAt(mem, f, i).frame);
    }
    forall f: nat
      ensures Reached(mem, loc', f)
    {
      assert Reached(mem, loc, f);
    }
  }

  // ----- No step loses a table -----

  /** A walk depends only on the indices above the level where it ends. */
  lemma {:induction false} OnPrefix(mem: Mem, r: nat, p: Path, q: Path, l: nat)
    requires 1 <= l <= 4 && Pre(p, l) == Pre(q, l)
    ensures On(mem, r, p, l) == On(mem, r, q, l)
    decreases 4 - l
  {
    if l < 4 {
      OnPrefix(mem, r, p, q, l + 1);
      assert Idx(p, l + 1) == Idx(q, l + 1);
    }
  }
}
