/**
 The page-table operations of arch/x86_64/kernel/mm/vpmap.c over a shared
 physical memory, proved against the flat map from pages to entries.
 */
module PageTable {
  import opened Sequences
  import opened Wrappers
  import opened PageTableSpec
  import opened PageTableRelease

  // ----- What holds between operations -----

  ghost predicate UserLeaf(loc: seq<Loc>, f: nat) {
    Leafy(loc, f) && loc[f].space.User?
  }

  /** A user entry is clear, or maps a frame that holds data. */
  ghost predicate UserWordOk(loc: seq<Loc>, w: Word) {
    if Present(w) then 1 <= w.frame < |loc| && loc[w.frame].Data? else w.frame == 0
  }

  ghost predicate UserOk(mem: Mem, loc: seq<Loc>) {
    forall f: nat, i: nat :: UserLeaf(loc, f) ==> UserWordOk(loc, WordAt(mem, f, i))
  }

  /** The free list holds exactly the frames that are not in use, each once. */
  ghost predicate FreeOk(free: seq<nat>, loc: seq<Loc>) {
    && (forall i :: 0 <= i < |free| ==> 1 <= free[i] < |loc| && loc[free[i]].Free?)
    && (forall f :: 0 <= f < |loc| && loc[f].Free? ==> f in free)
    && (forall i, j :: 0 <= i < j < |free| ==> free[i] != free[j])
    && (|loc| > 0 ==> loc[0].Data?)
  }

  /** Only free frames get a new use. */
  ghost predicate Grow(loc0: seq<Loc>, loc1: seq<Loc>) {
    |loc1| == |loc0| && forall f :: 0 <= f < |loc0| && !loc0[f].Free? ==> loc1[f] == loc0[f]
  }

  /** Data frames keep their contents. */
  ghost predicate DataKept(mem0: Mem, loc0: seq<Loc>, mem1: Mem) {
    |mem1| == |mem0| == |loc0| && forall f :: 0 <= f < |loc0| && loc0[f].Data? ==> mem1[f] == mem0[f]
  }

  ghost predicate Later(mem0: Mem, loc0: seq<Loc>, mem1: Mem, loc1: seq<Loc>) {
    Grow(loc0, loc1) && DataKept(mem0, loc0, mem1)
  }

  lemma LaterTrans(mem0: Mem, loc0: seq<Loc>, mem1: Mem, loc1: seq<Loc>, mem2: Mem, loc2: seq<Loc>)
    requires Later(mem0, loc0, mem1, loc1) && Later(mem1, loc1, mem2, loc2)
    ensures Later(mem0, loc0, mem2, loc2)
  {
  }

  /** No page of any address space is mapped differently. */
  ghost predicate SameMaps(mem0: Mem, loc0: seq<Loc>, mem1: Mem) {
    forall r: nat, p: Path {:trigger Flat(mem1, r, p)} :: IsRoot(loc0, r) ==> Flat(mem1, r, p) == Flat(mem0, r, p)
  }

  /** Tables that could be reached stay where they are. */
  ghost predicate WalksKept(mem0: Mem, loc0: seq<Loc>, mem1: Mem) {
    forall r: nat, p: Path, l: nat {:trigger On(mem1, r, p, l)} ::
      IsRoot(loc0, r) && 1 <= l <= 4 && On(mem0, r, p, l).Some? ==> On(mem1, r, p, l) == On(mem0, r, p, l)
  }

  /** What a walk may do: put at most `n` free frames to use, without any other effect. */
  ghost predicate Walked(mem0: Mem, loc0: seq<Loc>, free0: seq<nat>, mem1: Mem, loc1: seq<Loc>, free1: seq<nat>,
                         n: nat) {
    && Later(mem0, loc0, mem1, loc1) && SameMaps(mem0, loc0, mem1) && WalksKept(mem0, loc0, mem1)
    && |free1| <= |free0| <= |free1| + n
  }

  /** `t` is the place of a table below the root that serves page `p` of space `root`. */
  ghost predicate TableFor(t: Loc, root: nat, p: Path) {
    t.Table? && 1 <= t.level <= 3 && t == Table(SpaceOf(root, p, t.level), t.level, Pre(p, t.level))
  }

  /** Frames that were put to use have become tables for page `p`. */
  ghost predicate NewFor(loc0: seq<Loc>, loc1: seq<Loc>, root: nat, p: Path) {
    |loc0| == |loc1| && forall f :: 0 <= f < |loc0| && loc1[f] != loc0[f] ==> TableFor(loc1[f], root, p)
  }

  /** What a step from the level `l` table on the way to `p` puts to use is for `p`. */
  lemma NewChild(loc0: seq<Loc>, loc1: seq<Loc>, root: nat, p: Path, l: nat, f: nat)
    requires |loc0| == |loc1| && f < |loc0| && 2 <= l <= 4 && PathOk(p)
    requires loc0[f] == Table(SpaceOf(root, p, l), l, Pre(p, l))
    requires forall g :: 0 <= g < |loc1| && loc1[g] != loc0[g] ==> loc1[g] == ChildLoc(loc0[f], Idx(p, l))
    ensures NewFor(loc0, loc1, root, p)
  {
    assert TableFor(ChildLoc(loc0[f], Idx(p, l)), root, p);
  }

  lemma NewForTrans(loc0: seq<Loc>, loc1: seq<Loc>, loc2: seq<Loc>, root: nat, p: Path)
    requires NewFor(loc0, loc1, root, p) && NewFor(loc1, loc2, root, p)
    ensures NewFor(loc0, loc2, root, p)
  {
  }

  ghost predicate TableInRange(t: Loc, root: nat, v: nat, n: nat) {
    exists p: Path :: PathOk(p) && InRange(v, n, p) && TableFor(t, root, p)
  }

  /** Frames that were put to use have become tables for the `n` pages from `v` on, or are listed in `got`. */
  ghost predicate OnlyNew(loc0: seq<Loc>, loc1: seq<Loc>, root: nat, v: nat, n: nat, got: seq<nat>) {
    && |loc0| == |loc1|
    && forall f :: 0 <= f < |loc0| && loc1[f] != loc0[f] ==> f in got || TableInRange(loc1[f], root, v, n)
  }

  lemma OnlyNewTrans(loc0: seq<Loc>, loc1: seq<Loc>, loc2: seq<Loc>, root: nat, v: nat, n: nat, got: seq<nat>, p: Path)
    requires Grow(loc0, loc1) && OnlyNew(loc0, loc1, root, v, n, got) && NewFor(loc1, loc2, root, p)
    requires PathOk(p) && InRange(v, n, p)
    ensures OnlyNew(loc0, loc2, root, v, n, got)
  {
    forall f | 0 <= f < |loc0| && loc2[f] != loc0[f]
      ensures f in got || TableInRange(loc2[f], root, v, n)
    {
      if loc2[f] != loc1[f] { assert TableFor(loc2[f], root, p); }
    }
  }

  lemma WalkedTrans(mem0: Mem, loc0: seq<Loc>, free0: seq<nat>, mem1: Mem, loc1: seq<Loc>, free1: seq<nat>,
                    mem2: Mem, loc2: seq<Loc>, free2: seq<nat>, n: nat, m: nat)
    requires Walked(mem0, loc0, free0, mem1, loc1, free1, n) && Walked(mem1, loc1, free1, mem2, loc2, free2, m)
    ensures Walked(mem0, loc0, free0, mem2, loc2, free2, n + m)
  {
    LaterTrans(mem0, loc0, mem1, loc1, mem2, loc2);
    forall r: nat, p: Path | IsRoot(loc0, r)
      ensures Flat(mem2, r, p) == Flat(mem0, r, p)
    {
      assert IsRoot(loc1, r);
      assert Flat(mem1, r, p) == Flat(mem0, r, p);
    }
    forall r: nat, p: Path, l: nat | IsRoot(loc0, r) && 1 <= l <= 4 && On(mem0, r, p, l).Some?
      ensures On(mem2, r, p, l) == On(mem0, r, p, l)
    {
      assert IsRoot(loc1, r);
      assert On(mem1, r, p, l) == On(mem0, r, p, l);
    }
  }

  lemma OnlyNewMore(loc0: seq<Loc>, loc1: seq<Loc>, root: nat, v: nat, n: nat, got: seq<nat>, g: nat)
    requires OnlyNew(loc0, loc1, root, v, n, got)
    ensures OnlyNew(loc0, loc1, root, v, n, got + [g])
  {
  }

  lemma OnlyNewCopy(loc0: seq<Loc>, loc1: seq<Loc>, root: nat, v: nat, n: nat, got: seq<nat>, c: nat)
    requires OnlyNew(loc0, loc1, root, v, n, got) && c < |loc1|
    ensures OnlyNew(loc0, loc1[c := Data], root, v, n, got + [c])
  {
  }

  lemma TakeKeeps(mem: Mem, loc: seq<Loc>, c: nat)
    requires Inv(mem, loc) && UserOk(mem, loc) && c < |loc| && loc[c].Free?
    ensures Inv(mem, loc[c := Data]) && UserOk(mem, loc[c := Data])
  {
  }

  lemma HungUser(mem: Mem, loc: seq<Loc>, f: nat, i: nat, c: nat, mem': Mem, loc': seq<Loc>)
    requires CanHang(mem, loc, f, i, c) && Hung(mem, loc, f, i, c, mem', loc')
    requires UserOk(mem, loc) && loc[c].Free?
    ensures UserOk(mem', loc')
  {
    forall g: nat, j: nat | UserLeaf(loc', g)
      ensures UserWordOk(loc', WordAt(mem', g, j))
    {
      HungWord(mem, loc, f, i, c, mem', loc', g, j);
      assert g == c || UserWordOk(loc, WordAt(mem, g, j));
    }
  }

  lemma HungMaps(mem: Mem, loc: seq<Loc>, f: nat, i: nat, c: nat, mem': Mem, loc': seq<Loc>)
    requires CanHang(mem, loc, f, i, c) && Hung(mem, loc, f, i, c, mem', loc')
    ensures SameMaps(mem, loc, mem') && WalksKept(mem, loc, mem')
  {
    forall r: nat, p: Path | IsRoot(loc, r)
      ensures Flat(mem', r, p) == Flat(mem, r, p)
    {
      HungFlat(mem, loc, f, i, c, mem', loc', r, p);
    }
    forall r: nat, p: Path, l: nat | IsRoot(loc, r) && 1 <= l <= 4 && On(mem, r, p, l).Some?
      ensures On(mem', r, p, l) == On(mem, r, p, l)
    {
      HungOn(mem, loc, f, i, c, mem', loc', r, p, l);
    }
  }

  /** A page that is mapped in user space shows a data frame other than frame 0. */
  lemma UserFlat(mem: Mem, loc: seq<Loc>, r: nat, p: Path)
    requires Inv(mem, loc) && UserOk(mem, loc) && IsRoot(loc, r) && p.i4 != KERNEL_SLOT
    ensures var w := Flat(mem, r, p); w.Some? ==> 1 <= w.value.frame < |loc| && loc[w.value.frame].Data?
    ensures var t := On(mem, r, p, 1);
            t.Some? ==> (WordAt(mem, t.value, p.i1).frame != 0 <==> Flat(mem, r, p).Some?)
  {
  }

  /** The entry for `p` becomes `w`; who shares the table sees it, nobody else does. */
  ghost predicate OnlyPage(mem0: Mem, loc: seq<Loc>, root: nat, p: Path, mem1: Mem) {
    forall r: nat, q: Path {:trigger Flat(mem1, r, q)} ::
      IsRoot(loc, r) && (q != p || (r != root && p.i4 != KERNEL_SLOT)) ==> Flat(mem1, r, q) == Flat(mem0, r, q)
  }

  lemma PutMaps(mem: Mem, loc: seq<Loc>, root: nat, p: Path, g: nat, w: Word)
    requires Inv(mem, loc) && IsRoot(loc, root) && PathOk(p) && On(mem, root, p, 1) == Some(g)
    ensures Leafy(loc, g) && Inv(SetWord(mem, g, p.i1, w), loc)
    ensures Flat(SetWord(mem, g, p.i1, w), root, p) == if Present(w) then Some(w) else None
    ensures OnlyPage(mem, loc, root, p, SetWord(mem, g, p.i1, w))
  {
    OnLoc(mem, loc, root, p, 1);
    PutFlat(mem, loc, g, p.i1, w, root, p);
    forall r: nat, q: Path | IsRoot(loc, r) && (q != p || (r != root && p.i4 != KERNEL_SLOT))
      ensures Flat(SetWord(mem, g, p.i1, w), r, q) == Flat(mem, r, q)
    {
      PutFlat(mem, loc, g, p.i1, w, r, q);
      PutFlat(mem, loc, g, p.i1, w, root, p);
      assert Pre(q, 1) == Pre(p, 1) && q.i1 == p.i1 ==> q == p;
    }
  }

  lemma PutUser(mem: Mem, loc: seq<Loc>, g: nat, i: nat, w: Word)
    requires Inv(mem, loc) && UserOk(mem, loc) && Leafy(loc, g) && i < ENTRIES
    requires loc[g].space.Kernel? || UserWordOk(loc, w)
    ensures UserOk(SetWord(mem, g, i, w), loc)
  {
    var mem' := SetWord(mem, g, i, w);
    forall f: nat, j: nat | UserLeaf(loc, f)
      ensures UserWordOk(loc, WordAt(mem', f, j))
    {
      assert UserWordOk(loc, WordAt(mem, f, j));
      assert WordAt(mem', f, j) == if f == g && j == i then w else WordAt(mem, f, j);
    }
  }

  // ----- No step loses a table -----

  /** Walks are kept and no frame has become a table of a user space. */
  lemma RootedSame(mem0: Mem, loc0: seq<Loc>, mem1: Mem, loc1: seq<Loc>)
    requires Rooted(mem0, loc0) && WalksKept(mem0, loc0, mem1) && Grow(loc0, loc1)
    requires forall f :: 0 <= f < |loc1| && loc1[f].Table? && loc1[f].space.User? ==> loc1[f] == loc0[f]
    ensures Rooted(mem1, loc1)
  {
    forall f: nat
      ensures Reached(mem1, loc1, f)
    {
      assert Reached(mem0, loc0, f);
    }
  }

  lemma RootedInner(mem: Mem, loc: seq<Loc>, mem': Mem)
    requires Inv(mem, loc) && Rooted(mem, loc) && SameInner(mem, loc, mem')
    ensures Rooted(mem', loc)
  {
    forall f: nat
      ensures Reached(mem', loc, f)
    {
      assert Reached(mem, loc, f);
      if f < |loc| && loc[f].Table? && loc[f].space.User? {
        SameInnerOn(mem, loc, mem', loc[f].space.root, loc[f].prefix, loc[f].level);
      }
    }
  }

  /** A table that is hung in is reached through its parent. */
  lemma RootedHung(mem: Mem, loc: seq<Loc>, f: nat, i: nat, c: nat, mem': Mem, loc': seq<Loc>)
    requires CanHang(mem, loc, f, i, c) && Hung(mem, loc, f, i, c, mem', loc') && Rooted(mem, loc) && loc[c].Free?
    ensures Rooted(mem', loc')
  {
    HungMaps(mem, loc, f, i, c, mem', loc');
    forall g: nat
      ensures Reached(mem', loc', g)
    {
      assert Reached(mem, loc, g) && Reached(mem, loc, f);
      if g == c && loc'[c].space.User? {
        HungWord(mem, loc, f, i, c, mem', loc', f, i);
        HungReached(mem, loc, f, i, c, mem', loc');
      }
    }
  }

  lemma HungReached(mem: Mem, loc: seq<Loc>, f: nat, i: nat, c: nat, mem': Mem, loc': seq<Loc>)
    requires CanHang(mem, loc, f, i, c) && Hung(mem, loc, f, i, c, mem', loc') && loc[c].Free?
    requires Reached(mem, loc, f) && WalksKept(mem, loc, mem') && loc'[c].space.User?
    requires WordAt(mem', f, i) == TableEntry(c)
    ensures Reached(mem', loc', c)
  {
    var t := loc[f];
    var r, q := t.space.root, Extend(t.prefix, t.level, i);
    assert On(mem', r, t.prefix, t.level) == Some(f);
    OnPrefix(mem', r, q, t.prefix, t.level);
  }

  lemma RootedNew(mem: Mem, loc: seq<Loc>, c: nat, page: Frame)
    requires Inv(mem, loc) && UserOk(mem, loc) && Rooted(mem, loc) && c < |loc| && loc[c].Free? && |page| == ENTRIES
    ensures Rooted(mem[c := page], loc[c := Table(User(c), 4, TOP)])
  {
    var mem', loc' := mem[c := page], loc[c := Table(User(c), 4, TOP)];
    DataMaps(mem, loc, c, page);
    forall f: nat
      ensures Reached(mem', loc', f)
    {
      assert Reached(mem, loc, f);
    }
  }

  lemma RootedShared(mem: Mem, loc: seq<Loc>, k: nat, dst: nat)
    requires Inv(mem, loc) && Rooted(mem, loc) && IsRoot(loc, k) && IsRoot(loc, dst)
    ensures Rooted(Shared(mem, k, dst), loc)
  {
    forall f: nat
      ensures Reached(Shared(mem, k, dst), loc, f)
    {
      assert Reached(mem, loc, f);
      if f < |loc| && loc[f].Table? && loc[f].space.User? {
        SharedOn(mem, loc, k, dst, loc[f].space.root, loc[f].prefix, loc[f].level);
      }
    }
  }

  /** The free list once the tables of a space, `fs`, are given back. */
  lemma FreedFree(loc: seq<Loc>, free: seq<nat>, root: nat, fs: seq<nat>)
    requires FreeOk(free, loc) && Distinct(fs)
    requires forall c: nat :: c in fs <==> c < |loc| && OfSpace(loc[c], root)
    ensures FreeOk(free + fs, Freed(loc, root))
  {
    var loc' := Freed(loc, root);
    forall i, j | 0 <= i < j < |free + fs|
      ensures (free + fs)[i] != (free + fs)[j]
    {
      if i < |free| && |free| <= j { assert (free + fs)[j] in fs; }
    }
    forall i | 0 <= i < |free + fs|
      ensures 1 <= (free + fs)[i] < |loc'| && loc'[(free + fs)[i]].Free?
    {
      if |free| <= i { assert (free + fs)[i] in fs; }
    }
    forall f | 0 <= f < |loc'| && loc'[f].Free?
      ensures f in free + fs
    {
      assert f in free || f in fs;
    }
  }

  lemma FreedUser(mem: Mem, loc: seq<Loc>, root: nat)
    requires UserOk(mem, loc)
    ensures UserOk(mem, Freed(loc, root))
  {
    forall f: nat, i: nat | UserLeaf(Freed(loc, root), f)
      ensures UserWordOk(Freed(loc, root), WordAt(mem, f, i))
    {
      assert UserWordOk(loc, WordAt(mem, f, i));
    }
  }

  /** Once everything in the log of a tear-down is given back, the rest is as it should be. */
  lemma TablesReturned(mem0: Mem, mem: Mem, loc: seq<Loc>, free: seq<nat>, root: nat)
    requires Inv(mem0, loc) && Rooted(mem0, loc) && IsRoot(loc, root) && FreeOk(free, loc)
    requires Inv(mem, loc) && UserOk(mem, loc) && Rooted(mem, loc)
    ensures Inv(mem, Freed(loc, root)) && UserOk(mem, Freed(loc, root)) && Rooted(mem, Freed(loc, root))
    ensures FreeOk(free + TableFrames(DestroyLog(mem0, root)), Freed(loc, root))
  {
    FreedInv(mem, loc, root);
    DestroyDistinct(mem0, loc, root);
    forall c: nat
      ensures c in TableFrames(DestroyLog(mem0, root)) <==> c < |loc| && OfSpace(loc[c], root)
    {
      DestroyFrames(mem0, loc, root, c);
    }
    FreedFree(loc, free, root, TableFrames(DestroyLog(mem0, root)));
    FreedUser(mem, loc, root);
  }

  lemma RootedTouched(mem: Mem, loc: seq<Loc>, root: nat, l: nat, q: Path, n: nat, mem': Mem)
    requires Inv(mem, loc) && Rooted(mem, loc) && Touched(mem, loc, root, l, q, n, mem')
    ensures Rooted(mem', loc)
  {
    TouchedInner(mem, loc, root, l, q, n, mem');
    RootedInner(mem, loc, mem');
  }

  // ----- New address spaces -----

  lemma RootInv(mem: Mem, loc: seq<Loc>, c: nat, page: Frame)
    requires Inv(mem, loc) && UserOk(mem, loc) && c < |loc| && loc[c].Free? && Zeroed(page)
    ensures Inv(mem[c := page], loc[c := Table(User(c), 4, TOP)])
    ensures UserOk(mem[c := page], loc[c := Table(User(c), 4, TOP)])
  {
    var mem', loc' := mem[c := page], loc[c := Table(User(c), 4, TOP)];
    forall f: nat, i: nat | Present(WordAt(mem', f, i)) && Inner(loc', f)
      ensures OpenEntry(WordAt(mem', f, i)) && ChildOk(loc', f, i, WordAt(mem', f, i).frame)
    {
      assert ChildOk(loc, f, i, WordAt(mem, f, i).frame);
    }
    forall f: nat, i: nat | UserLeaf(loc', f)
      ensures UserWordOk(loc', WordAt(mem', f, i))
    {
      assert UserWordOk(loc, WordAt(mem, f, i));
    }
  }

  lemma EmptyRoot(mem: Mem, c: nat, p: Path)
    requires c < |mem| && Zeroed(mem[c])
    ensures Flat(mem, c, p).None?
  {
  }

  /** Root `dst` with the kernel slot of root `k`. */
  ghost function Shared(mem: Mem, k: nat, dst: nat): (mem': Mem)
    requires dst < |mem| && |mem[dst]| == ENTRIES
  {
    SetWord(mem, dst, KERNEL_SLOT, WordAt(mem, k, KERNEL_SLOT))
  }

  lemma SharedInv(mem: Mem, loc: seq<Loc>, k: nat, dst: nat)
    requires Inv(mem, loc) && UserOk(mem, loc) && IsRoot(loc, k) && IsRoot(loc, dst)
    ensures Inv(Shared(mem, k, dst), loc) && UserOk(Shared(mem, k, dst), loc)
  {
    var mem' := Shared(mem, k, dst);
    forall f: nat, i: nat | Present(WordAt(mem', f, i)) && Inner(loc, f)
      ensures OpenEntry(WordAt(mem', f, i)) && ChildOk(loc, f, i, WordAt(mem', f, i).frame)
    {
      assert WordAt(mem', f, i) == WordAt(mem, if f == dst && i == KERNEL_SLOT then k else f, i);
      assert ChildOk(loc, if f == dst && i == KERNEL_SLOT then k else f, i, WordAt(mem', f, i).frame);
    }
    forall f: nat, i: nat | UserLeaf(loc, f)
      ensures UserWordOk(loc, WordAt(mem', f, i))
    {
      assert UserWordOk(loc, WordAt(mem, f, i));
    }
  }

  lemma SharedWord(mem: Mem, k: nat, dst: nat, f: nat, i: nat)
    requires dst < |mem| && |mem[dst]| == ENTRIES
    ensures WordAt(Shared(mem, k, dst), f, i) == WordAt(mem, if f == dst && i == KERNEL_SLOT then k else f, i)
  {
  }

  /** In the kernel's part the walk is that of the kernel's own space; everywhere else nothing changes. */
  lemma {:induction false} SharedOn(mem: Mem, loc: seq<Loc>, k: nat, dst: nat, r: nat, p: Path, l: nat)
    requires Inv(mem, loc) && IsRoot(loc, k) && IsRoot(loc, dst) && IsRoot(loc, r) && 1 <= l <= 4
    ensures On(Shared(mem, k, dst), r, p, l) ==
            if l < 4 && r == dst && p.i4 == KERNEL_SLOT then On(mem, k, p, l) else On(mem, r, p, l)
    decreases 4 - l
  {
    if l < 4 {
      SharedOn(mem, loc, k, dst, r, p, l + 1);
      OnLoc(mem, loc, r, p, l + 1);
      OnLoc(mem, loc, k, p, l + 1);
      var up := On(Shared(mem, k, dst), r, p, l + 1);
      if up.Some? { SharedWord(mem, k, dst, up.value, Idx(p, l + 1)); }
    }
  }

  lemma SharedFlat(mem: Mem, loc: seq<Loc>, k: nat, dst: nat, r: nat, p: Path)
    requires Inv(mem, loc) && IsRoot(loc, k) && IsRoot(loc, dst) && IsRoot(loc, r)
    ensures Flat(Shared(mem, k, dst), r, p) == Flat(mem, if r == dst && p.i4 == KERNEL_SLOT then k else r, p)
  {
    SharedOn(mem, loc, k, dst, r, p, 1);
    OnLoc(mem, loc, r, p, 1);
    OnLoc(mem, loc, k, p, 1);
  }

  // ----- Ranges of pages -----

  function LeafEntry(f: nat, perm: nat): (w: Word) { Word(0, f, 1 + perm) }

  ghost predicate InRange(v: nat, n: nat, q: Path) {
    v <= PageOf(q) < v + n
  }

  /** Page `q` of space `r` was mapped by `x` and is mapped by `y` once the range is in place in space `root`. */
  ghost predicate Ranged(root: nat, v: nat, f: nat, perm: nat, n: nat, r: nat, q: Path, x: Option<Word>,
                         y: Option<Word>) {
    && (r == root && InRange(v, n, q) ==> y == Some(LeafEntry(f + PageOf(q) - v, perm)))
    && (!InRange(v, n, q) || (r != root && q.i4 != KERNEL_SLOT) ==> y == x)
  }

  /** The `n` pages from `v` on map the frames from `f` on; all other pages are as before. */
  ghost predicate RangeMapped(mem0: Mem, loc0: seq<Loc>, root: nat, v: nat, f: nat, perm: nat, n: nat, mem1: Mem) {
    forall r: nat, q: Path {:trigger Flat(mem1, r, q)} ::
      IsRoot(loc0, r) && PathOk(q) ==> Ranged(root, v, f, perm, n, r, q, Flat(mem0, r, q), Flat(mem1, r, q))
  }

  lemma RangedStep(root: nat, v: nat, f: nat, perm: nat, n: nat, p: Path, r: nat, q: Path,
                   x: Option<Word>, y: Option<Word>, z: Option<Word>)
    requires Ranged(root, v, f, perm, n, r, q, x, y) && PathOk(p) && PathOk(q) && PageOf(p) == v + n
    requires q != p || (r != root && p.i4 != KERNEL_SLOT) ==> z == y
    requires q == p && r == root ==> z == Some(LeafEntry(f + n, perm))
    ensures Ranged(root, v, f, perm, n + 1, r, q, x, z)
  {
  }

  ghost predicate IsData(loc: seq<Loc>, f: nat) {
    1 <= f < |loc| && loc[f].Data?
  }

  /** User pages may only map data frames. */
  ghost predicate MayMap(loc: seq<Loc>, v: nat, f: nat, n: nat) {
    forall q: Path :: PathOk(q) && InRange(v, n, q) && q.i4 != KERNEL_SLOT ==> IsData(loc, f + PageOf(q) - v)
  }

  lemma MayMapAt(loc0: seq<Loc>, v: nat, f: nat, n: nat, p: Path, i: nat, loc: seq<Loc>)
    requires MayMap(loc0, v, f, n) && i < n && PathOk(p) && PageOf(p) == v + i && Grow(loc0, loc)
    ensures p.i4 == KERNEL_SLOT || IsData(loc, f + i)
  {
    assert InRange(v, n, p);
    assert p.i4 == KERNEL_SLOT || IsData(loc0, f + PageOf(p) - v);
  }

  lemma RangeSame(mem0: Mem, loc0: seq<Loc>, root: nat, v: nat, f: nat, perm: nat, n: nat,
                  mem1: Mem, loc1: seq<Loc>, mem2: Mem)
    requires RangeMapped(mem0, loc0, root, v, f, perm, n, mem1)
    requires Grow(loc0, loc1) && SameMaps(mem1, loc1, mem2)
    ensures RangeMapped(mem0, loc0, root, v, f, perm, n, mem2)
  {
  }

  lemma RangeStep(mem0: Mem, loc0: seq<Loc>, root: nat, v: nat, f: nat, perm: nat, n: nat,
                  mem2: Mem, loc2: seq<Loc>, mem3: Mem, p: Path)
    requires RangeMapped(mem0, loc0, root, v, f, perm, n, mem2)
    requires Grow(loc0, loc2) && PathOk(p) && PageOf(p) == v + n
    requires OnlyPage(mem2, loc2, root, p, mem3)
    requires Flat(mem3, root, p) == Some(LeafEntry(f + n, perm))
    ensures RangeMapped(mem0, loc0, root, v, f, perm, n + 1, mem3)
  {
    forall r: nat, q: Path | IsRoot(loc0, r) && PathOk(q)
      ensures Ranged(root, v, f, perm, n + 1, r, q, Flat(mem0, r, q), Flat(mem3, r, q))
    {
      assert IsRoot(loc2, r);
      RangedStep(root, v, f, perm, n, p, r, q, Flat(mem0, r, q), Flat(mem2, r, q), Flat(mem3, r, q));
    }
  }

  /** The physical address of a virtual address; only the low 48 bits of it matter. */
  ghost function Translate(mem: Mem, root: nat, vaddr: nat): (paddr: Option<nat>) {
    var w := Flat(mem, root, PathOf(vaddr / 4096));
    if w.None? then None else Some(w.value.frame * 4096 + vaddr % 4096)
  }

  /**
   After a range is mapped, addresses inside it translate to consecutive frames; all others as before, in every
   space.
   */
  lemma MapTranslates(mem0: Mem, loc0: seq<Loc>, root: nat, v: nat, f: nat, perm: nat, n: nat, mem1: Mem, r: nat,
                      vaddr: nat)
    requires RangeMapped(mem0, loc0, root, v, f, perm, n, mem1) && IsRoot(loc0, r)
    ensures var page := vaddr / 4096 % NUM_PAGES;
            && (v <= page < v + n && r == root ==>
                  Translate(mem1, r, vaddr) == Some((f + page - v) * 4096 + vaddr % 4096))
            && (!(v <= page < v + n) ==> Translate(mem1, r, vaddr) == Translate(mem0, r, vaddr))
            && (page < USER_PAGES && r != root ==> Translate(mem1, r, vaddr) == Translate(mem0, r, vaddr))
  {
    var q := PathOf(vaddr / 4096);
    PageRoundTrip(vaddr / 4096);
    assert Ranged(root, v, f, perm, n, r, q, Flat(mem0, r, q), Flat(mem1, r, q));
    if PageOf(q) < USER_PAGES { UserPage(q); }
  }

  /** The indices of a page number. */
  method Indices(v: nat) returns (p: Path)
    requires v < NUM_PAGES
    ensures PathOk(p) && PageOf(p) == v
  {
    PageRoundTrip(v);
    p := PathOf(v);
  }

  // ----- Permissions (section 4.6 of the same manual) -----

  /** Bit `b` of the flags of an entry: 1 for present, 2 for writable, 4 for user. */
  predicate Bit(w: Word, b: nat)
    requires b > 0
  {
    w.flags / b % 2 == 1
  }

  /** The level `l` entry on the way to page `p` is there and has bit `b`. */
  ghost predicate EntryBit(mem: Mem, r: nat, p: Path, l: nat, b: nat)
    requires b > 0
  {
    var t := On(mem, r, p, l);
    t.Some? && Bit(WordAt(mem, t.value, Idx(p, l)), b)
  }

  /** An access that needs bit `b` gets through: all four entries on the way have it. */
  ghost predicate Allows(mem: Mem, r: nat, p: Path, b: nat)
    requires b > 0
  {
    EntryBit(mem, r, p, 4, b) && EntryBit(mem, r, p, 3, b) && EntryBit(mem, r, p, 2, b) && EntryBit(mem, r, p, 1, b)
  }

  /** Every table entry on the way to a table is present, writable and user. */
  lemma InnerOpen(mem: Mem, loc: seq<Loc>, r: nat, p: Path, l: nat)
    requires Inv(mem, loc) && IsRoot(loc, r) && 2 <= l <= 4 && On(mem, r, p, l - 1).Some?
    ensures EntryBit(mem, r, p, l, 1) && EntryBit(mem, r, p, l, 2) && EntryBit(mem, r, p, l, 4)
    ensures var w := WordAt(mem, On(mem, r, p, l).value, Idx(p, l)); w.flags < 8 && w.top == 0
  {
    OnLoc(mem, loc, r, p, l);
    var t := On(mem, r, p, l).value;
    assert Inner(loc, t) && Present(WordAt(mem, t, Idx(p, l)));
  }

  /** So the permission of a page is that of its last entry. */
  lemma LeafDecides(mem: Mem, loc: seq<Loc>, r: nat, p: Path, b: nat)
    requires Inv(mem, loc) && IsRoot(loc, r) && b in {1, 2, 4} && Flat(mem, r, p).Some?
    ensures Allows(mem, r, p, b) <==> Bit(Flat(mem, r, p).value, b)
  {
    InnerOpen(mem, loc, r, p, 4);
    InnerOpen(mem, loc, r, p, 3);
    InnerOpen(mem, loc, r, p, 2);
  }

  /**
   Page `q` maps frame `f`, and can be written when `perm` has the bit for it, and used outside the kernel
   likewise; no other flag is set.
   */
  ghost predicate MapsAs(mem: Mem, r: nat, q: Path, f: nat, perm: nat) {
    var e := Flat(mem, r, q);
    && e.Some? && e.value.frame == f && e.value.top == 0 && e.value.flags < 8 && Bit(e.value, 1)
    && (Bit(e.value, 2) <==> perm in {2, 6}) && (Bit(e.value, 4) <==> perm in {4, 6})
    && (Allows(mem, r, q, 2) <==> perm in {2, 6}) && (Allows(mem, r, q, 4) <==> perm in {4, 6})
  }

  lemma MapsLeaf(mem: Mem, loc: seq<Loc>, r: nat, q: Path, f: nat, perm: nat)
    requires Inv(mem, loc) && IsRoot(loc, r) && perm in {0, 2, 4, 6} && Flat(mem, r, q) == Some(LeafEntry(f, perm))
    ensures MapsAs(mem, r, q, f, perm)
  {
    LeafDecides(mem, loc, r, q, 2);
    LeafDecides(mem, loc, r, q, 4);
  }

  lemma RangeMapsAs(mem0: Mem, loc0: seq<Loc>, root: nat, v: nat, f: nat, perm: nat, n: nat, mem: Mem, loc: seq<Loc>)
    requires RangeMapped(mem0, loc0, root, v, f, perm, n, mem) && IsRoot(loc0, root)
    requires Inv(mem, loc) && IsRoot(loc, root) && perm in {0, 2, 4, 6}
    ensures forall q {:trigger PathOk(q)} :: PathOk(q) && InRange(v, n, q) ==>
              MapsAs(mem, root, q, f + PageOf(q) - v, perm)
  {
    forall q | PathOk(q) && InRange(v, n, q)
      ensures MapsAs(mem, root, q, f + PageOf(q) - v, perm)
    {
      assert Ranged(root, v, f, perm, n, root, q, Flat(mem0, root, q), Flat(mem, root, q));
      MapsLeaf(mem, loc, root, q, f + PageOf(q) - v, perm);
    }
  }

  // ----- Tearing down -----

  /** Nothing changes in the other address spaces. */
  ghost predicate OthersSame(mem0: Mem, loc: seq<Loc>, root: nat, mem1: Mem) {
    forall r: nat, p: Path {:trigger Flat(mem1, r, p)} ::
      IsRoot(loc, r) && (r != root || p.i4 == KERNEL_SLOT) ==> Flat(mem1, r, p) == Flat(mem0, r, p)
  }

  /** The first `n` words of frame `f` have been cleared, and nothing else has. */
  ghost predicate ClearedUpTo(mem: Mem, f: nat, n: nat, mem': Mem)
    requires f < |mem|
  {
    && |mem'| == |mem| && |mem'[f]| == |mem[f]|
    && (forall g :: 0 <= g < |mem| && g != f ==> mem'[g] == mem[g])
    && (forall j :: 0 <= j < |mem[f]| ==> mem'[f][j] == if j < n then ZERO else mem[f][j])
  }

  lemma TornDown(mem: Mem, loc: seq<Loc>, root: nat, l: nat, q: Path, n: nat, mem': Mem)
    requires Inv(mem, loc) && UserOk(mem, loc) && Touched(mem, loc, root, l, q, n, mem')
    ensures Inv(mem', loc) && UserOk(mem', loc) && OthersSame(mem, loc, root, mem')
  {
    TouchedInner(mem, loc, root, l, q, n, mem');
    forall r: nat, p: Path | IsRoot(loc, r) && (r != root || p.i4 == KERNEL_SLOT)
      ensures Flat(mem', r, p) == Flat(mem, r, p)
    {
      SameInnerOn(mem, loc, mem', r, p, 1);
      OnLoc(mem, loc, r, p, 1);
    }
    forall f: nat, i: nat | UserLeaf(loc, f)
      ensures UserWordOk(loc, WordAt(mem', f, i))
    {
      assert UserWordOk(loc, WordAt(mem, f, i));
      assert WordAt(mem', f, i) == WordAt(mem, f, i) || WordAt(mem', f, i) == ZERO;
    }
  }

  // ----- Copying -----

  /** Page `q` of space `r` was mapped by `x` and is mapped by `y` once the copies are in place; 0 means no copy. */
  ghost predicate CopyRel(dst: nat, u: nat, perm: nat, got: seq<nat>, r: nat, q: Path, x: Option<Word>,
                          y: Option<Word>) {
    y == if r == dst && InRange(u, |got|, q) && got[PageOf(q) - u] != 0
         then Some(LeafEntry(got[PageOf(q) - u], perm)) else x
  }

  /** In space `dst`, page `u + j` maps frame `got[j]` for every `j` with a copy; all other pages are as before. */
  ghost predicate CopiesMapped(mem0: Mem, loc0: seq<Loc>, dst: nat, u: nat, perm: nat, got: seq<nat>, mem1: Mem) {
    forall r: nat, q: Path {:trigger Flat(mem1, r, q)} ::
      IsRoot(loc0, r) && PathOk(q) ==> CopyRel(dst, u, perm, got, r, q, Flat(mem0, r, q), Flat(mem1, r, q))
  }

  lemma CopiesMapAs(mem0: Mem, loc0: seq<Loc>, dst: nat, u: nat, perm: nat, got: seq<nat>, mem: Mem, loc: seq<Loc>)
    requires CopiesMapped(mem0, loc0, dst, u, perm, got, mem) && IsRoot(loc0, dst)
    requires Inv(mem, loc) && IsRoot(loc, dst) && perm in {0, 2, 4, 6}
    ensures forall q {:trigger PathOk(q)} :: PathOk(q) && InRange(u, |got|, q) && got[PageOf(q) - u] != 0 ==>
              MapsAs(mem, dst, q, got[PageOf(q) - u], perm)
  {
    forall q | PathOk(q) && InRange(u, |got|, q) && got[PageOf(q) - u] != 0
      ensures MapsAs(mem, dst, q, got[PageOf(q) - u], perm)
    {
      assert CopyRel(dst, u, perm, got, dst, q, Flat(mem0, dst, q), Flat(mem, dst, q));
      MapsLeaf(mem, loc, dst, q, got[PageOf(q) - u], perm);
    }
  }

  /** `g` is a copy, in a frame that was free, of what `w` maps; or there was nothing to copy. */
  ghost predicate IsCopy(mem0: Mem, loc0: seq<Loc>, w: Option<Word>, g: nat, mem1: Mem, loc1: seq<Loc>) {
    if w.None? then g == 0
    else
      && 1 <= g < |loc0| == |mem1| && loc0[g].Free? && IsData(loc1, g)
      && w.value.frame < |mem0| && mem1[g] == mem0[w.value.frame]
  }

  /** The pages from `v` on in space `src` have been copied. */
  ghost predicate PagesCopied(mem0: Mem, loc0: seq<Loc>, src: nat, v: nat, got: seq<nat>, mem1: Mem, loc1: seq<Loc>) {
    forall q: Path {:trigger PathOk(q)} :: PathOk(q) && InRange(v, |got|, q) ==>
      IsCopy(mem0, loc0, Flat(mem0, src, q), got[PageOf(q) - v], mem1, loc1)
  }

  ghost predicate DistinctCopies(got: seq<nat>) {
    forall i, j :: 0 <= i < j < |got| && got[i] != 0 ==> got[i] != got[j]
  }

  ghost predicate GotData(got: seq<nat>, loc: seq<Loc>) {
    forall j :: 0 <= j < |got| && got[j] != 0 ==> IsData(loc, got[j])
  }

  /** What holds when the first `|got|` pages have been dealt with. */
  ghost predicate CopyInv(mem0: Mem, loc0: seq<Loc>, src: nat, dst: nat, v: nat, u: nat, perm: nat, got: seq<nat>,
                          mem1: Mem, loc1: seq<Loc>) {
    && Later(mem0, loc0, mem1, loc1)
    && CopiesMapped(mem0, loc0, dst, u, perm, got, mem1)
    && PagesCopied(mem0, loc0, src, v, got, mem1, loc1)
    && DistinctCopies(got) && GotData(got, loc1)
  }

  lemma PagesCopiedLater(mem0: Mem, loc0: seq<Loc>, src: nat, v: nat, got: seq<nat>,
                         mem1: Mem, loc1: seq<Loc>, mem2: Mem, loc2: seq<Loc>)
    requires PagesCopied(mem0, loc0, src, v, got, mem1, loc1) && Later(mem1, loc1, mem2, loc2)
    ensures PagesCopied(mem0, loc0, src, v, got, mem2, loc2)
  {
  }

  lemma CopyInvSame(mem0: Mem, loc0: seq<Loc>, src: nat, dst: nat, v: nat, u: nat, perm: nat, got: seq<nat>,
                    mem1: Mem, loc1: seq<Loc>, mem2: Mem, loc2: seq<Loc>)
    requires CopyInv(mem0, loc0, src, dst, v, u, perm, got, mem1, loc1)
    requires Later(mem1, loc1, mem2, loc2) && SameMaps(mem1, loc1, mem2)
    ensures CopyInv(mem0, loc0, src, dst, v, u, perm, got, mem2, loc2)
  {
  }

  lemma PagesCopiedStep(mem0: Mem, loc0: seq<Loc>, src: nat, v: nat, got: seq<nat>, mem1: Mem, loc1: seq<Loc>,
                        p: Path, g: nat)
    requires PagesCopied(mem0, loc0, src, v, got, mem1, loc1) && PathOk(p) && PageOf(p) == v + |got|
    requires IsCopy(mem0, loc0, Flat(mem0, src, p), g, mem1, loc1)
    ensures PagesCopied(mem0, loc0, src, v, got + [g], mem1, loc1)
  {
    forall q: Path | PathOk(q) && InRange(v, |got + [g]|, q)
      ensures IsCopy(mem0, loc0, Flat(mem0, src, q), (got + [g])[PageOf(q) - v], mem1, loc1)
    {
      PageInjective(p, q);
      if q != p { assert IsCopy(mem0, loc0, Flat(mem0, src, q), got[PageOf(q) - v], mem1, loc1); }
    }
  }

  lemma CopyRelStep(dst: nat, u: nat, perm: nat, got: seq<nat>, g: nat, p: Path, r: nat, q: Path,
                    x: Option<Word>, y: Option<Word>, z: Option<Word>)
    requires CopyRel(dst, u, perm, got, r, q, x, y) && PathOk(p) && PathOk(q) && PageOf(p) == u + |got|
    requires q != p || r != dst || g == 0 ==> z == y
    requires q == p && r == dst && g != 0 ==> z == Some(LeafEntry(g, perm))
    ensures CopyRel(dst, u, perm, got + [g], r, q, x, z)
  {
  }

  lemma CopiesMappedStep(mem0: Mem, loc0: seq<Loc>, dst: nat, u: nat, perm: nat, got: seq<nat>,
                         mem1: Mem, loc1: seq<Loc>, mem2: Mem, p: Path, g: nat)
    requires Grow(loc0, loc1) && CopiesMapped(mem0, loc0, dst, u, perm, got, mem1)
    requires PathOk(p) && PageOf(p) == u + |got| && p.i4 != KERNEL_SLOT && g != 0
    requires OnlyPage(mem1, loc1, dst, p, mem2) && Flat(mem2, dst, p) == Some(LeafEntry(g, perm))
    ensures CopiesMapped(mem0, loc0, dst, u, perm, got + [g], mem2)
  {
    forall r: nat, q: Path | IsRoot(loc0, r) && PathOk(q)
      ensures CopyRel(dst, u, perm, got + [g], r, q, Flat(mem0, r, q), Flat(mem2, r, q))
    {
      assert IsRoot(loc1, r);
      CopyRelStep(dst, u, perm, got, g, p, r, q, Flat(mem0, r, q), Flat(mem1, r, q), Flat(mem2, r, q));
    }
  }

  /** Nothing to copy at the next page. */
  lemma CopyInvSkip(mem0: Mem, loc0: seq<Loc>, src: nat, dst: nat, v: nat, u: nat, perm: nat, got: seq<nat>,
                    mem1: Mem, loc1: seq<Loc>, p: Path, d: Path)
    requires CopyInv(mem0, loc0, src, dst, v, u, perm, got, mem1, loc1)
    requires PathOk(p) && PageOf(p) == v + |got| && Flat(mem0, src, p).None?
    requires PathOk(d) && PageOf(d) == u + |got|
    ensures CopyInv(mem0, loc0, src, dst, v, u, perm, got + [0], mem1, loc1)
  {
    PagesCopiedStep(mem0, loc0, src, v, got, mem1, loc1, p, 0);
    forall r: nat, q: Path | IsRoot(loc0, r) && PathOk(q)
      ensures CopyRel(dst, u, perm, got + [0], r, q, Flat(mem0, r, q), Flat(mem1, r, q))
    {
      CopyRelStep(dst, u, perm, got, 0, d, r, q, Flat(mem0, r, q), Flat(mem1, r, q), Flat(mem1, r, q));
    }
  }

  lemma DistinctStep(got: seq<nat>, loc: seq<Loc>, g: nat)
    requires DistinctCopies(got) && GotData(got, loc) && !IsData(loc, g)
    ensures DistinctCopies(got + [g])
  {
  }

  /** The next page is now mapped to a frame that holds a copy of the source page. */
  lemma CopyInvPut(mem0: Mem, loc0: seq<Loc>, src: nat, dst: nat, v: nat, u: nat, perm: nat, got: seq<nat>,
                   mem1: Mem, loc1: seq<Loc>, mem2: Mem, p: Path, d: Path, g: nat)
    requires CopyInv(mem0, loc0, src, dst, v, u, perm, got, mem1, loc1) && DistinctCopies(got + [g])
    requires PathOk(p) && PageOf(p) == v + |got| && IsCopy(mem0, loc0, Flat(mem0, src, p), g, mem1, loc1) && g != 0
    requires PathOk(d) && PageOf(d) == u + |got| && d.i4 != KERNEL_SLOT
    requires OnlyPage(mem1, loc1, dst, d, mem2) && Flat(mem2, dst, d) == Some(LeafEntry(g, perm))
    requires DataKept(mem1, loc1, mem2)
    ensures CopyInv(mem0, loc0, src, dst, v, u, perm, got + [g], mem2, loc1)
  {
    PagesCopiedStep(mem0, loc0, src, v, got, mem1, loc1, p, g);
    PagesCopiedLater(mem0, loc0, src, v, got + [g], mem1, loc1, mem2, loc1);
    CopiesMappedStep(mem0, loc0, dst, u, perm, got, mem1, loc1, mem2, d, g);
    LaterTrans(mem0, loc0, mem1, loc1, mem2, loc1);
  }

  lemma DataMaps(mem: Mem, loc: seq<Loc>, c: nat, page: Frame)
    requires Inv(mem, loc) && UserOk(mem, loc) && NotTable(loc, c) && |page| == ENTRIES
    ensures Inv(mem[c := page], loc) && UserOk(mem[c := page], loc)
    ensures SameMaps(mem, loc, mem[c := page]) && WalksKept(mem, loc, mem[c := page])
  {
    var mem' := mem[c := page];
    assert SameInner(mem, loc, mem');
    SameInnerInv(mem, loc, mem');
    forall r: nat, p: Path | IsRoot(loc, r)
      ensures Flat(mem', r, p) == Flat(mem, r, p)
    {
      DataFlat(mem, loc, c, page, r, p);
    }
    forall r: nat, p: Path, l: nat | IsRoot(loc, r) && 1 <= l <= 4
      ensures On(mem', r, p, l) == On(mem, r, p, l)
    {
      SameInnerOn(mem, loc, mem', r, p, l);
    }
    forall f: nat, i: nat | UserLeaf(loc, f)
      ensures UserWordOk(loc, WordAt(mem', f, i))
    {
      assert UserWordOk(loc, WordAt(mem, f, i));
    }
  }

  lemma CopyWasFree(mem0: Mem, loc0: seq<Loc>, src: nat, v: nat, got: seq<nat>, mem1: Mem, loc1: seq<Loc>, j: nat)
    requires PagesCopied(mem0, loc0, src, v, got, mem1, loc1) && v + |got| <= NUM_PAGES && j < |got| && got[j] != 0
    ensures got[j] < |loc0| && loc0[got[j]].Free?
  {
    var s := PageAt(v + j);
    assert InRange(v, |got|, s);
    assert IsCopy(mem0, loc0, Flat(mem0, src, s), got[j], mem1, loc1);
  }

  lemma PageAt(v: nat) returns (p: Path)
    requires v < NUM_PAGES
    ensures PathOk(p) && PageOf(p) == v
  {
    PageRoundTrip(v);
    p := PathOf(v);
  }

  /** A copied frame is mapped at its page and nowhere else in user space, so writes to it are not seen elsewhere. */
  lemma CopyIsolated(mem0: Mem, loc0: seq<Loc>, src: nat, dst: nat, v: nat, u: nat, perm: nat, got: seq<nat>,
                     mem1: Mem, loc1: seq<Loc>, p: Path, r: nat, q: Path)
    requires Inv(mem0, loc0) && UserOk(mem0, loc0) && CopyInv(mem0, loc0, src, dst, v, u, perm, got, mem1, loc1)
    requires PathOk(p) && InRange(u, |got|, p) && got[PageOf(p) - u] != 0
    requires v + |got| <= NUM_PAGES && IsRoot(loc0, r) && PathOk(q) && q.i4 != KERNEL_SLOT && (r, q) != (dst, p)
    ensures Flat(mem1, r, q).None? || Flat(mem1, r, q).value.frame != got[PageOf(p) - u]
  {
    var j := PageOf(p) - u;
    CopyWasFree(mem0, loc0, src, v, got, mem1, loc1, j);
    UserFlat(mem0, loc0, r, q);
    PageInjective(p, q);
    assert CopyRel(dst, u, perm, got, r, q, Flat(mem0, r, q), Flat(mem1, r, q));
  }

  lemma UserPage(p: Path)
    requires PathOk(p) && PageOf(p) < USER_PAGES
    ensures p.i4 != KERNEL_SLOT
  {
  }

  ghost predicate PageMapped(mem: Mem, r: nat, v: nat) {
    forall q :: PathOk(q) && PageOf(q) == v ==> Flat(mem, r, q).Some?
  }

  lemma MappedAt(mem: Mem, r: nat, d: Path)
    requires PathOk(d) && Flat(mem, r, d).Some?
    ensures PageMapped(mem, r, PageOf(d))
  {
    forall q | PathOk(q) && PageOf(q) == PageOf(d)
      ensures Flat(mem, r, q).Some?
    {
      PageInjective(q, d);
    }
  }

  const USER_PAGES: nat := 511 * 0x800_0000

  datatype Status = Done | MapError | NoMemory

  class PageTables {
    var mem: Mem
    var free: seq<nat>
    /** The calls that give frames back, in order. */
    var log: seq<Release>
    ghost var loc: seq<Loc>

    ghost predicate Valid()
      reads this
    {
      Inv(mem, loc) && UserOk(mem, loc) && FreeOk(free, loc) && Rooted(mem, loc)
    }

    method PmemAlloc() returns (c: Option<nat>)
      requires Valid()
      modifies `free, `loc
      ensures Valid() && mem == old(mem)
      ensures c.None? ==> free == [] && old(free) == [] && loc == old(loc)
      ensures c.Some? ==> 1 <= c.value < |loc| && old(loc)[c.value].Free? && loc == old(loc)[c.value := Data]
      ensures c.Some? ==> |free| + 1 == |old(free)|
    {
      if free == [] { return None; }
      TakeKeeps(mem, loc, free[0]);
      RootedSame(mem, loc, mem, loc[free[0] := Data]);
      c := Some(free[0]);
      loc := loc[free[0] := Data];
      free := free[1..];
    }

    /** Memory with no address space yet; the frames in `avail` are free. */
    constructor (frames: Mem, avail: seq<nat>)
      requires forall f :: 0 <= f < |frames| ==> |frames[f]| == ENTRIES
      requires forall i :: 0 <= i < |avail| ==> 1 <= avail[i] < |frames|
      requires forall i, j :: 0 <= i < j < |avail| ==> avail[i] != avail[j]
      ensures Valid() && mem == frames && free == avail && log == []
      ensures forall f :: 0 <= f < |loc| ==> loc[f] == if f in avail then Free else Data
    {
      mem, free, log := frames, avail, [];
      loc := seq(|frames|, f => if f in avail then Free else Data);
    }

    /** A new address space in which nothing is mapped. */
    method Create() returns (r: Option<nat>)
      requires Valid()
      modifies `mem, `free, `loc
      ensures Valid() && Later(old(mem), old(loc), mem, loc) && SameMaps(old(mem), old(loc), mem)
      ensures r.None? ==> free == [] && mem == old(mem) && loc == old(loc) && free == old(free)
      ensures r.Some? ==> IsRoot(loc, r.value) && forall p :: Flat(mem, r.value, p).None?
      ensures r.Some? ==> old(loc)[r.value].Free? && loc == old(loc)[r.value := loc[r.value]]
    {
      if free == [] { return None; }
      var c := free[0];
      var page: Frame := seq(ENTRIES, _ => ZERO);
      RootInv(mem, loc, c, page);
      RootedNew(mem, loc, c, page);
      DataMaps(mem, loc, c, page);
      mem := mem[c := page];
      loc := loc[c := Table(User(c), 4, TOP)];
      free := free[1..];
      forall p
        ensures Flat(mem, c, p).None?
      {
        EmptyRoot(mem, c, p);
      }
      return Some(c);
    }

    /** Let `dst` see the kernel's part of space `k`, if the kernel has one. */
    method CopyKernelMapping(k: nat, dst: nat)
      requires Valid() && IsRoot(loc, k) && IsRoot(loc, dst)
      modifies `mem
      ensures Valid() && DataKept(old(mem), loc, mem)
      ensures !Present(WordAt(old(mem), k, KERNEL_SLOT)) ==> mem == old(mem)
      ensures Present(WordAt(old(mem), k, KERNEL_SLOT)) ==> forall r, p {:trigger Flat(mem, r, p)} :: IsRoot(loc, r) ==>
                Flat(mem, r, p) == Flat(old(mem), if r == dst && p.i4 == KERNEL_SLOT then k else r, p)
    {
      SharedInv(mem, loc, k, dst);
      RootedShared(mem, loc, k, dst);
      if Present(mem[k][KERNEL_SLOT]) {
        mem := SetWord(mem, dst, KERNEL_SLOT, mem[k][KERNEL_SLOT]);
        forall r, p | IsRoot(loc, r)
          ensures Flat(mem, r, p) == Flat(old(mem), if r == dst && p.i4 == KERNEL_SLOT then k else r, p)
        {
          SharedFlat(old(mem), loc, k, dst, r, p);
        }
      }
    }

    /** One level of a walk: follow entry `i` of table `f`, hanging in a new table when asked to. */
    method Descend(f: nat, i: nat, alloc: bool) returns (c: Option<nat>)
      requires Valid() && Inner(loc, f) && i < ENTRIES
      modifies `mem, `free, `loc
      ensures Valid() && Walked(old(mem), old(loc), old(free), mem, loc, free, 1)
      ensures c.Some? ==> Present(WordAt(mem, f, i)) && c.value == WordAt(mem, f, i).frame
      ensures c.Some? ==> c.value < |loc| && loc[c.value] == ChildLoc(old(loc)[f], i)
      ensures c.None? ==> !Present(WordAt(mem, f, i)) && (!alloc || free == [])
      ensures c.None? || !alloc || Present(WordAt(old(mem), f, i)) ==>
                mem == old(mem) && loc == old(loc) && free == old(free)
      ensures forall g :: 0 <= g < |loc| && loc[g] != old(loc)[g] ==> loc[g] == ChildLoc(old(loc)[f], i)
    {
      if Present(mem[f][i]) {
        assert ChildOk(loc, f, i, WordAt(mem, f, i).frame);
        return Some(mem[f][i].frame);
      }
      if !alloc || free == [] { return None; }
      var t := free[0];
      ghost var mem0, loc0 := mem, loc;
      mem := mem[t := seq(ENTRIES, _ => ZERO)];
      mem := SetWord(mem, f, i, TableEntry(t));
      loc := loc[t := ChildLoc(loc[f], i)];
      free := free[1..];
      assert Hung(mem0, loc0, f, i, t, mem, loc);
      HungInv(mem0, loc0, f, i, t, mem, loc);
      HungUser(mem0, loc0, f, i, t, mem, loc);
      HungMaps(mem0, loc0, f, i, t, mem, loc);
      RootedHung(mem0, loc0, f, i, t, mem, loc);
      return Some(t);
    }

    /** The last-level table that serves page `p`. */
    method FindPte(root: nat, p: Path, alloc: bool) returns (g: Option<nat>)
      requires Valid() && IsRoot(loc, root) && PathOk(p)
      modifies `mem, `free, `loc
      ensures Valid() && Walked(old(mem), old(loc), old(free), mem, loc, free, 3)
      ensures g == On(mem, root, p, 1)
      ensures g.None? && alloc ==> free == []
      ensures NewFor(old(loc), loc, root, p)
      ensures !alloc || On(old(mem), root, p, 1).Some? ==> mem == old(mem) && loc == old(loc) && free == old(free)
    {
      ghost var mem0, loc0, free0 := mem, loc, free;
      var a := Descend(root, p.i4, alloc);
      if a.None? { return None; }
      ghost var mem1, loc1, free1 := mem, loc, free;
      assert On(mem, root, p, 3) == a;
      NewChild(loc0, loc1, root, p, 4, root);
      g := FindLower(root, a.value, p, alloc);
      NewForTrans(loc0, loc1, loc, root, p);
      WalkedTrans(mem0, loc0, free0, mem1, loc1, free1, mem, loc, free, 1, 2);
    }

    /** The rest of the way from the level 3 table. */
    method FindLower(ghost root: nat, a: nat, p: Path, alloc: bool) returns (g: Option<nat>)
      requires Valid() && IsRoot(loc, root) && PathOk(p) && On(mem, root, p, 3) == Some(a)
      modifies `mem, `free, `loc
      ensures Valid() && Walked(old(mem), old(loc), old(free), mem, loc, free, 2)
      ensures g == On(mem, root, p, 1)
      ensures g.None? && alloc ==> free == []
      ensures NewFor(old(loc), loc, root, p)
      ensures !alloc || On(old(mem), root, p, 1).Some? ==> mem == old(mem) && loc == old(loc) && free == old(free)
    {
      ghost var mem0, loc0, free0 := mem, loc, free;
      OnLoc(mem, loc, root, p, 3);
      var b := Descend(a, p.i3, alloc);
      if b.None? { return None; }
      ghost var mem1, loc1, free1 := mem, loc, free;
      assert On(mem, root, p, 2) == b;
      NewChild(loc0, loc1, root, p, 3, a);
      OnLoc(mem, loc, root, p, 2);
      g := Descend(b.value, p.i2, alloc);
      NewChild(loc1, loc, root, p, 2, b.value);
      NewForTrans(loc0, loc1, loc, root, p);
      WalkedTrans(mem0, loc0, free0, mem1, loc1, free1, mem, loc, free, 1, 1);
    }

    /** Store an entry in the last-level table. */
    method SetPte(ghost root: nat, p: Path, g: nat, w: Word)
      requires Valid() && IsRoot(loc, root) && PathOk(p) && On(mem, root, p, 1) == Some(g)
      requires p.i4 == KERNEL_SLOT || UserWordOk(loc, w)
      modifies `mem
      ensures Valid() && OnlyPage(old(mem), loc, root, p, mem)
      ensures Flat(mem, root, p) == if Present(w) then Some(w) else None
      ensures DataKept(old(mem), loc, mem)
    {
      OnLoc(mem, loc, root, p, 1);
      PutMaps(mem, loc, root, p, g, w);
      PutUser(mem, loc, g, p.i1, w);
      RootedInner(mem, loc, SetWord(mem, g, p.i1, w));
      mem := SetWord(mem, g, p.i1, w);
    }

    /** Map the next page of a range. */
    method MapOne(root: nat, v: nat, f: nat, i: nat, perm: nat, ghost n: nat, ghost mem0: Mem, ghost loc0: seq<Loc>)
      returns (ok: bool)
      requires Valid() && IsRoot(loc0, root) && i < n && v + n <= NUM_PAGES && perm in {0, 2, 4, 6}
      requires Later(mem0, loc0, mem, loc) && OnlyNew(loc0, loc, root, v, n, []) && MayMap(loc0, v, f, n)
      requires RangeMapped(mem0, loc0, root, v, f, perm, i, mem)
      modifies `mem, `free, `loc
      ensures Valid() && Later(mem0, loc0, mem, loc) && OnlyNew(loc0, loc, root, v, n, [])
      ensures RangeMapped(mem0, loc0, root, v, f, perm, if ok then i + 1 else i, mem)
      ensures ok || free == []
    {
      ghost var mem1, loc1 := mem, loc;
      var p := Indices(v + i);
      var g := FindPte(root, p, true);
      LaterTrans(mem0, loc0, mem1, loc1, mem, loc);
      OnlyNewTrans(loc0, loc1, loc, root, v, n, [], p);
      RangeSame(mem0, loc0, root, v, f, perm, i, mem1, loc1, mem);
      if g.None? { return false; }
      MayMapAt(loc0, v, f, n, p, i, loc);
      MapAt(root, p, g.value, v, f, i, perm, mem0, loc0);
      ok := true;
    }

    /** Enter the frame for the next page of a range, whose table has been found. */
    method MapAt(ghost root: nat, p: Path, g: nat, ghost v: nat, f: nat, i: nat, perm: nat, ghost mem0: Mem,
                 ghost loc0: seq<Loc>)
      requires Valid() && IsRoot(loc0, root) && perm in {0, 2, 4, 6} && Later(mem0, loc0, mem, loc)
      requires PathOk(p) && PageOf(p) == v + i && On(mem, root, p, 1) == Some(g)
      requires p.i4 == KERNEL_SLOT || IsData(loc, f + i)
      requires RangeMapped(mem0, loc0, root, v, f, perm, i, mem)
      modifies `mem
      ensures Valid() && Later(mem0, loc0, mem, loc) && RangeMapped(mem0, loc0, root, v, f, perm, i + 1, mem)
    {
      ghost var mem2 := mem;
      SetPte(root, p, g, LeafEntry(f + i, perm));
      RangeStep(mem0, loc0, root, v, f, perm, i, mem2, loc, mem, p);
      LaterTrans(mem0, loc0, mem2, loc, mem, loc);
    }

    /** Map `n` pages from page number `v` on; after a failure a prefix is mapped and nothing else has changed. */
    method MapPages(root: nat, v: nat, f: nat, n: nat, perm: nat) returns (ok: bool, ghost done: nat)
      requires Valid() && IsRoot(loc, root) && v + n <= NUM_PAGES && perm in {0, 2, 4, 6}
      requires MayMap(loc, v, f, n)
      modifies `mem, `free, `loc
      ensures Valid() && Later(old(mem), old(loc), mem, loc) && OnlyNew(old(loc), loc, root, v, n, [])
      ensures RangeMapped(old(mem), old(loc), root, v, f, perm, done, mem)
      ensures forall q {:trigger PathOk(q)} :: PathOk(q) && InRange(v, done, q) ==>
                MapsAs(mem, root, q, f + PageOf(q) - v, perm)
      ensures if ok then done == n else done < n && free == []
    {
      ok, done := MapAll(root, v, f, n, perm);
      RangeMapsAs(old(mem), old(loc), root, v, f, perm, done, mem, loc);
    }

    method MapAll(root: nat, v: nat, f: nat, n: nat, perm: nat) returns (ok: bool, ghost done: nat)
      requires Valid() && IsRoot(loc, root) && v + n <= NUM_PAGES && perm in {0, 2, 4, 6}
      requires MayMap(loc, v, f, n)
      modifies `mem, `free, `loc
      ensures Valid() && Later(old(mem), old(loc), mem, loc) && OnlyNew(old(loc), loc, root, v, n, [])
      ensures RangeMapped(old(mem), old(loc), root, v, f, perm, done, mem)
      ensures if ok then done == n else done < n && free == []
    {
      var i := 0;
      while i < n
        invariant 0 <= i <= n
        invariant Valid() && Later(old(mem), old(loc), mem, loc) && OnlyNew(old(loc), loc, root, v, n, [])
        invariant RangeMapped(old(mem), old(loc), root, v, f, perm, i, mem)
      {
        ok := MapOne(root, v, f, i, perm, n, old(mem), old(loc));
        if !ok { return false, i; }
        i := i + 1;
      }
      return true, n;
    }

    /** The physical address of a virtual one, or the not-present error. */
    method LookupVaddr(root: nat, vaddr: nat) returns (paddr: Option<nat>)
      requires Valid() && IsRoot(loc, root)
      modifies `mem, `free, `loc
      ensures mem == old(mem) && loc == old(loc) && free == old(free)
      ensures paddr == Translate(mem, root, vaddr)
    {
      var p := PathOf(vaddr / 4096);
      var g := FindPte(root, p, false);
      if g.None? { return None; }
      OnLoc(mem, loc, root, p, 1);
      var w := mem[g.value][p.i1];
      if !Present(w) { return None; }
      return Some(w.frame * 4096 + vaddr % 4096);
    }

    /** Clear an entry of a last-level table, dropping the reference that a mapping holds. */
    method ClearPte(f: nat, q: Path, i: nat, ghost mem0: Mem, ghost log0: seq<Release>)
      requires f < |mem0| && |mem0[f]| == ENTRIES && i < ENTRIES
      requires ClearedUpTo(mem0, f, i, mem) && log == log0 + SubLog(mem0, f, 1, q, i)
      modifies `mem, `log
      ensures ClearedUpTo(mem0, f, i + 1, mem) && log == log0 + SubLog(mem0, f, 1, q, i + 1)
    {
      ghost var log1 := log;
      var w := mem[f][i];
      assert w == WordAt(mem0, f, i);
      if Present(w) {
        log := log + [DecRef(Extend(q, 1, i), w.frame)];
      }
      mem := SetWord(mem, f, i, ZERO);
      assert log == log1 + EntryLog(mem0, f, 1, q, i);
      LogStep(mem0, f, 1, q, i, log0);
    }

    /** Where the loop over a table of level `l` stops during a tear-down; it starts at entry 0. */
    method EndOfLoop(l: nat) returns (n: nat)
      requires 1 <= l <= 3
      ensures n == ENTRIES
    {
      StackLimits();
      n := Limit(0, Idx(PathOf(STACK_END), l));
    }

    /** Clear all entries of a last-level table. */
    method ClearTable(f: nat, ghost root: nat, q: Path)
      requires Inv(mem, loc) && Shape(mem, 1, q) && TableAt(loc, f, root, 1, q)
      modifies `mem, `log
      ensures log == old(log) + SubLog(old(mem), f, 1, q, Width(old(mem), f))
      ensures Touched(old(mem), loc, root, 1, q, Width(old(mem), f), mem)
    {
      var i := 0;
      var limit := EndOfLoop(1);
      while i < limit
        invariant 0 <= i <= limit
        invariant ClearedUpTo(old(mem), f, i, mem)
        invariant log == old(log) + SubLog(old(mem), f, 1, q, i)
      {
        ClearPte(f, q, i, old(mem), old(log));
        i := i + 1;
      }
    }

    /** Release what entries 0 up to `limit` of an inner table lead to. */
    method UnmapTable(f: nat, l: nat, ghost root: nat, q: Path, limit: nat)
      requires Inv(mem, loc) && Shape(mem, l, q) && TableAt(loc, f, root, l, q) && 2 <= l
      requires limit <= ENTRIES && (l == 4 ==> limit <= KERNEL_SLOT)
      modifies `mem, `log
      ensures log == old(log) + SubLog(old(mem), f, l, q, limit)
      ensures Touched(old(mem), loc, root, l, q, limit, mem)
      decreases l, 1
    {
      ghost var mem0, log0 := mem, log;
      var i := 0;
      while i < limit
        invariant 0 <= i <= limit
        invariant Touched(mem0, loc, root, l, q, i, mem)
        invariant log == log0 + SubLog(mem0, f, l, q, i)
      {
        UnmapEntry(f, l, root, q, i, mem0, log0);
        i := i + 1;
      }
    }

    /** Release what one entry of an inner table leads to. */
    method UnmapEntry(f: nat, l: nat, ghost root: nat, q: Path, i: nat, ghost mem0: Mem, ghost log0: seq<Release>)
      requires Inv(mem0, loc) && Shape(mem0, l, q) && TableAt(loc, f, root, l, q) && 2 <= l
      requires i < ENTRIES && (l == 4 ==> i < KERNEL_SLOT)
      requires Touched(mem0, loc, root, l, q, i, mem) && log == log0 + SubLog(mem0, f, l, q, i)
      modifies `mem, `log
      ensures Touched(mem0, loc, root, l, q, i + 1, mem)
      ensures log == log0 + SubLog(mem0, f, l, q, i + 1)
      decreases l, 0
    {
      ghost var mem1, log1 := mem, log;
      EntryReady(mem0, loc, root, f, l, q, i, mem1);
      if Present(mem[f][i]) {
        var c, t := mem[f][i].frame, Extend(q, l, i);
        UnmapChild(c, l - 1, root, t);
        TouchedStep(mem0, loc, root, l, q, i, mem1, Width(mem1, c), mem);
      }
      assert log == log1 + EntryLog(mem0, f, l, q, i);
      LogStep(mem0, f, l, q, i, log0);
    }

    /** Release what a table leads to, and then its own frame. */
    method UnmapChild(c: nat, l: nat, ghost root: nat, t: Path)
      requires Inv(mem, loc) && Shape(mem, l, t) && TableAt(loc, c, root, l, t) && l < 4
      modifies `mem, `log
      ensures log == old(log) + (SubLog(old(mem), c, l, t, Width(old(mem), c)) + [FreeTable(l, t, c)])
      ensures Touched(old(mem), loc, root, l, t, Width(old(mem), c), mem)
      decreases l, 2
    {
      if l == 1 {
        ClearTable(c, root, t);
      } else {
        var limit := EndOfLoop(l);
        UnmapTable(c, l, root, t, limit);
      }
      Assoc(old(log), SubLog(old(mem), c, l, t, Width(old(mem), c)), [FreeTable(l, t, c)]);
      log := log + [FreeTable(l, t, c)];
    }

    /** Release the whole user part of an address space, and its root. */
    method UnmapSpace(root: nat)
      requires Valid() && IsRoot(loc, root)
      modifies `mem, `log
      ensures Valid() && OthersSame(old(mem), loc, root, mem)
      ensures log == old(log) + DestroyLog(old(mem), root)
    {
      StackLimits();
      UnmapTable(root, 4, root, TOP, PathOf(STACK_END - 1).i4 + 1);
      TornDown(old(mem), loc, root, 4, TOP, KERNEL_SLOT, mem);
      RootedTouched(old(mem), loc, root, 4, TOP, KERNEL_SLOT, mem);
      ghost var s := SubLog(old(mem), root, 4, TOP, UserSlots(old(mem), root));
      Assoc(old(log), s, [FreeTable(4, TOP, root)]);
      log := log + [FreeTable(4, TOP, root)];
    }

    /** Tear down an address space: all its tables are free, and those of no other. */
    method Destroy(root: nat)
      requires Valid() && IsRoot(loc, root)
      modifies this
      ensures Valid() && OthersSame(old(mem), old(loc), root, mem)
      ensures log == old(log) + DestroyLog(old(mem), root)
      ensures loc == Freed(old(loc), root) && free == old(free) + TableFrames(DestroyLog(old(mem), root))
    {
      var first := |log|;
      UnmapSpace(root);
      TablesReturned(old(mem), mem, loc, free, root);
      assert log[first..] == DestroyLog(old(mem), root);
      free := free + TableFrames(log[first..]);
      loc := Freed(loc, root);
    }

    /** A new frame with the contents of frame `f`. */
    method CopyFrame(f: nat) returns (c: Option<nat>)
      requires Valid() && IsData(loc, f)
      modifies `mem, `free, `loc
      ensures Valid() && Later(old(mem), old(loc), mem, loc)
      ensures SameMaps(old(mem), old(loc), mem) && WalksKept(old(mem), old(loc), mem)
      ensures c.None? ==> free == [] && loc == old(loc)
      ensures c.Some? ==> 1 <= c.value < |old(loc)| && old(loc)[c.value].Free? && loc == old(loc)[c.value := Data]
      ensures c.Some? ==> mem[c.value] == old(mem)[f]
    {
      c := PmemAlloc();
      if c.Some? {
        DataMaps(mem, loc, c.value, mem[f]);
        RootedSame(mem, loc, mem[c.value := mem[f]], loc);
        mem := mem[c.value := mem[f]];
      }
    }

    /** Copy frame `f` to page `d`, which must not be mapped yet. */
    method CopyTo(dst: nat, d: Path, f: nat, perm: nat, ghost src: nat, ghost p: Path, ghost v: nat, ghost u: nat,
                  ghost n: nat, ghost got: seq<nat>, ghost mem0: Mem, ghost loc0: seq<Loc>)
      returns (st: Status, ghost g: nat)
      requires Valid() && IsRoot(loc0, dst) && perm in {0, 2, 4, 6} && |got| < n
      requires PathOk(p) && PageOf(p) == v + |got| && Flat(mem0, src, p).Some? && Flat(mem0, src, p).value.frame == f
      requires PathOk(d) && PageOf(d) == u + |got| && d.i4 != KERNEL_SLOT && IsData(loc0, f)
      requires CopyInv(mem0, loc0, src, dst, v, u, perm, got, mem, loc) && OnlyNew(loc0, loc, dst, u, n, got)
      modifies `mem, `free, `loc
      ensures Valid()
      ensures CopyInv(mem0, loc0, src, dst, v, u, perm, if st.Done? then got + [g] else got, mem, loc)
      ensures OnlyNew(loc0, loc, dst, u, n, if st.Done? then got + [g] else got)
      ensures st.NoMemory? ==> free == []
      ensures st.MapError? ==> free == [] || PageMapped(mem0, dst, u + |got|)
    {
      ghost var mem1, loc1 := mem, loc;
      var t := FindPte(dst, d, true);
      CopyInvSame(mem0, loc0, src, dst, v, u, perm, got, mem1, loc1, mem, loc);
      OnlyNewTrans(loc0, loc1, loc, dst, u, n, got, d);
      if t.None? { return MapError, 0; }
      OnLoc(mem, loc, dst, d, 1);
      UserFlat(mem, loc, dst, d);
      if mem[t.value][d.i1].frame != 0 {
        MappedAt(mem0, dst, d);
        return MapError, 0;
      }
      st, g := PutCopy(dst, d, t.value, f, perm, src, p, v, u, n, got, mem0, loc0);
    }

    /** Enter frame `c`, a copy of frame `f`, at page `d`. */
    method PutFrame(ghost dst: nat, d: Path, t: nat, c: nat, perm: nat, ghost src: nat, ghost p: Path,
                    ghost v: nat, ghost u: nat, ghost got: seq<nat>, ghost mem0: Mem, ghost loc0: seq<Loc>)
      requires Valid() && IsRoot(loc0, dst) && perm in {0, 2, 4, 6} && On(mem, dst, d, 1) == Some(t)
      requires PathOk(p) && PageOf(p) == v + |got| && IsCopy(mem0, loc0, Flat(mem0, src, p), c, mem, loc) && c != 0
      requires PathOk(d) && PageOf(d) == u + |got| && d.i4 != KERNEL_SLOT && IsData(loc, c)
      requires CopyInv(mem0, loc0, src, dst, v, u, perm, got, mem, loc) && DistinctCopies(got + [c])
      modifies `mem
      ensures Valid() && CopyInv(mem0, loc0, src, dst, v, u, perm, got + [c], mem, loc)
    {
      ghost var mem2 := mem;
      SetPte(dst, d, t, LeafEntry(c, perm));
      CopyInvPut(mem0, loc0, src, dst, v, u, perm, got, mem2, loc, mem, p, d, c);
    }

    /** Map page `d` to a new copy of frame `f`. */
    method PutCopy(ghost dst: nat, d: Path, t: nat, f: nat, perm: nat, ghost src: nat, ghost p: Path, ghost v: nat,
                   ghost u: nat, ghost n: nat, ghost got: seq<nat>, ghost mem0: Mem, ghost loc0: seq<Loc>)
      returns (st: Status, ghost g: nat)
      requires Valid() && IsRoot(loc0, dst) && perm in {0, 2, 4, 6} && On(mem, dst, d, 1) == Some(t)
      requires PathOk(p) && PageOf(p) == v + |got| && Flat(mem0, src, p).Some? && Flat(mem0, src, p).value.frame == f
      requires PathOk(d) && PageOf(d) == u + |got| && d.i4 != KERNEL_SLOT && IsData(loc0, f)
      requires CopyInv(mem0, loc0, src, dst, v, u, perm, got, mem, loc) && OnlyNew(loc0, loc, dst, u, n, got)
      modifies `mem, `free, `loc
      ensures Valid() && !st.MapError?
      ensures CopyInv(mem0, loc0, src, dst, v, u, perm, if st.Done? then got + [g] else got, mem, loc)
      ensures OnlyNew(loc0, loc, dst, u, n, if st.Done? then got + [g] else got)
      ensures st.NoMemory? ==> free == []
    {
      ghost var mem1, loc1 := mem, loc;
      var c := CopyFrame(f);
      CopyInvSame(mem0, loc0, src, dst, v, u, perm, got, mem1, loc1, mem, loc);
      if c.None? { return NoMemory, 0; }
      OnlyNewCopy(loc0, loc1, dst, u, n, got, c.value);
      DistinctStep(got, loc1, c.value);
      PutFrame(dst, d, t, c.value, perm, src, p, v, u, got, mem0, loc0);
      return Done, c.value;
    }

    /** Copy the next page of a range, when it is mapped. */
    method CopyOne(src: nat, dst: nat, v: nat, u: nat, i: nat, perm: nat, ghost n: nat,
                   ghost got: seq<nat>, ghost mem0: Mem, ghost loc0: seq<Loc>)
      returns (st: Status, ghost g: nat)
      requires Inv(mem0, loc0) && UserOk(mem0, loc0)
      requires Valid() && IsRoot(loc0, src) && IsRoot(loc0, dst) && src != dst && perm in {0, 2, 4, 6}
      requires i == |got| < n && v + i < USER_PAGES && u + i < USER_PAGES
      requires CopyInv(mem0, loc0, src, dst, v, u, perm, got, mem, loc) && OnlyNew(loc0, loc, dst, u, n, got)
      modifies `mem, `free, `loc
      ensures Valid()
      ensures CopyInv(mem0, loc0, src, dst, v, u, perm, if st.Done? then got + [g] else got, mem, loc)
      ensures OnlyNew(loc0, loc, dst, u, n, if st.Done? then got + [g] else got)
      ensures st.NoMemory? ==> free == []
      ensures st.MapError? ==> free == [] || PageMapped(mem0, dst, u + i)
    {
      g := 0;
      var p := Indices(v + i);
      var d := Indices(u + i);
      UserPage(p);
      UserPage(d);
      var s := FindPte(src, p, false);
      OnLoc(mem, loc, src, p, 1);
      UserFlat(mem, loc, src, p);
      if s.None? || mem[s.value][p.i1].frame == 0 {
        OnlyNewMore(loc0, loc, dst, u, n, got, 0);
        CopyInvSkip(mem0, loc0, src, dst, v, u, perm, got, mem, loc, p, d);
        return Done, 0;
      }
      var f := mem[s.value][p.i1].frame;
      UserFlat(mem0, loc0, src, p);
      st, g := CopyTo(dst, d, f, perm, src, p, v, u, n, got, mem0, loc0);
    }

    /** Copy `n` pages of one address space into new frames of another. */
    method Copy(src: nat, dst: nat, v: nat, u: nat, n: nat, perm: nat) returns (st: Status, ghost got: seq<nat>)
      requires Valid() && IsRoot(loc, src) && IsRoot(loc, dst) && src != dst && perm in {0, 2, 4, 6}
      requires v + n <= USER_PAGES && u + n <= USER_PAGES
      modifies `mem, `free, `loc
      ensures Valid() && CopyInv(old(mem), old(loc), src, dst, v, u, perm, got, mem, loc)
      ensures OnlyNew(old(loc), loc, dst, u, n, got)
      ensures if st.Done? then |got| == n else |got| < n
      ensures forall q {:trigger PathOk(q)} :: PathOk(q) && InRange(u, |got|, q) && got[PageOf(q) - u] != 0 ==>
                MapsAs(mem, dst, q, got[PageOf(q) - u], perm)
      ensures st.NoMemory? ==> free == []
      ensures st.MapError? ==> free == [] || PageMapped(old(mem), dst, u + |got|)
    {
      st, got := CopyPages(src, dst, v, u, n, perm);
      CopiesMapAs(old(mem), old(loc), dst, u, perm, got, mem, loc);
    }

    method CopyPages(src: nat, dst: nat, v: nat, u: nat, n: nat, perm: nat) returns (st: Status, ghost got: seq<nat>)
      requires Valid() && IsRoot(loc, src) && IsRoot(loc, dst) && src != dst && perm in {0, 2, 4, 6}
      requires v + n <= USER_PAGES && u + n <= USER_PAGES
      modifies `mem, `free, `loc
      ensures Valid() && CopyInv(old(mem), old(loc), src, dst, v, u, perm, got, mem, loc)
      ensures OnlyNew(old(loc), loc, dst, u, n, got)
      ensures if st.Done? then |got| == n else |got| < n
      ensures st.NoMemory? ==> free == []
      ensures st.MapError? ==> free == [] || PageMapped(old(mem), dst, u + |got|)
    {
      var i := 0;
      got := [];
      while i < n
        invariant 0 <= i <= n && |got| == i
        invariant Valid() && CopyInv(old(mem), old(loc), src, dst, v, u, perm, got, mem, loc)
        invariant OnlyNew(old(loc), loc, dst, u, n, got)
      {
        ghost var g;
        st, g := CopyOne(src, dst, v, u, i, perm, n, got, old(mem), old(loc));
        if !st.Done? { return; }
        got := got + [g];
        i := i + 1;
      }
      st := Done;
    }
  }
}
