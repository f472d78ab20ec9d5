/**
 Four-level page tables (section 4.5 of volume 3A of the Intel 64 and IA-32
 Architectures Software Developer's Manual) as values.  Physical memory is a
 sequence of frames of 512 words; a table is a frame whose words are entries.

 The ghost sequence `loc` gives every frame that is used as a table its place:
 the address space, the level and the indices that lead to it.  A frame has one
 place only, so no table is shared and no walk can cross another one, except in
 the kernel's part (slot 511 of the top table), which all address spaces have in
 common.
 */
module PageTableSpec {
  import opened Wrappers

  // ----- Words and frames -----

  /** A 64-bit word cut at the fields of an entry: bits 51-63, 12-50 and 0-11. */
  datatype Word = Word(top: nat, frame: nat, flags: nat)

  type Frame = seq<Word>
  type Mem = seq<Frame>

  const ENTRIES: nat := 512
  const KERNEL_SLOT: nat := 511
  const NUM_PAGES: nat := 0x10_0000_0000
  const ZERO := Word(0, 0, 0)

  predicate Present(w: Word) { w.flags % 2 == 1 }

  /** An entry that points to a table: present, writable, user. */
  function TableEntry(c: nat): (w: Word) { Word(0, c, 7) }

  /** Present, writable and user, and nothing else. */
  predicate OpenEntry(w: Word) { w.top == 0 && w.flags == 7 }

  function WordAt(mem: Mem, f: nat, i: nat): (w: Word) {
    if f < |mem| && i < |mem[f]| then mem[f][i] else ZERO
  }

  function SetWord(mem: Mem, g: nat, i: nat, w: Word): (mem': Mem)
    requires g < |mem| && i < |mem[g]|
  {
    mem[g := mem[g][i := w]]
  }

  // ----- Pages -----

  /** A page as the four indices that lead to it from the root. */
  datatype Path = Path(i4: nat, i3: nat, i2: nat, i1: nat)

  predicate PathOk(p: Path) {
    p.i4 < ENTRIES && p.i3 < ENTRIES && p.i2 < ENTRIES && p.i1 < ENTRIES
  }

  /** The indices of a page number, of which the low 36 bits matter. */
  function PathOf(v: nat): (p: Path)
    ensures PathOk(p)
  {
    Path(v / 512 / 512 / 512 % 512, v / 512 / 512 % 512, v / 512 % 512, v % 512)
  }

  function PageOf(p: Path): (v: nat) {
    ((p.i4 * 512 + p.i3) * 512 + p.i2) * 512 + p.i1
  }

  lemma DivMod(a: nat, b: nat)
    requires b < 512
    ensures (a * 512 + b) / 512 == a && (a * 512 + b) % 512 == b
  {
  }

  /** Page numbers and index paths correspond one to one. */
  lemma PathRoundTrip(p: Path)
    requires PathOk(p)
    ensures PathOf(PageOf(p)) == p && PageOf(p) < NUM_PAGES
  {
    DivMod((p.i4 * 512 + p.i3) * 512 + p.i2, p.i1);
    DivMod(p.i4 * 512 + p.i3, p.i2);
    DivMod(p.i4, p.i3);
  }

  lemma Cut(v: nat)
    ensures v == v / 512 * 512 + v % 512
  {
  }

  lemma Remainder(v: int, k: int, t: nat)
    requires v == k * NUM_PAGES + t && t < NUM_PAGES
    ensures v % NUM_PAGES == t
  {
  }

  lemma PageRoundTrip(v: nat)
    ensures PageOf(PathOf(v)) == v % NUM_PAGES
  {
    Cut(v);
    Cut(v / 512);
    Cut(v / 512 / 512);
    Cut(v / 512 / 512 / 512);
    PageBound(PathOf(v));
    Remainder(v, v / 512 / 512 / 512 / 512, PageOf(PathOf(v)));
  }

  lemma PageBound(p: Path)
    requires PathOk(p)
    ensures PageOf(p) < NUM_PAGES
  {
  }

  lemma PageInjective(p: Path, q: Path)
    requires PathOk(p) && PathOk(q)
    ensures PageOf(p) == PageOf(q) <==> p == q
  {
    PathRoundTrip(p);
    PathRoundTrip(q);
  }

  function Idx(p: Path, l: nat): (i: nat) {
    if l == 1 then p.i1 else if l == 2 then p.i2 else if l == 3 then p.i3 else p.i4
  }

  /** The part of a path that leads to the level `l` table. */
  function Pre(p: Path, l: nat): (q: Path) {
    Path(if l < 4 then p.i4 else 0, if l < 3 then p.i3 else 0, if l < 2 then p.i2 else 0, if l < 1 then p.i1 else 0)
  }

  function Extend(p: Path, l: nat, i: nat): (q: Path) {
    if l == 1 then p.(i1 := i) else if l == 2 then p.(i2 := i) else if l == 3 then p.(i3 := i) else p.(i4 := i)
  }

  // ----- The place of a table -----

  datatype Space = Kernel | User(root: nat)

  datatype Loc = Free | Data | Table(space: Space, level: nat, prefix: Path)

  function ChildLoc(t: Loc, i: nat): (c: Loc)
    requires t.Table? && t.level >= 1
  {
    Table(if t.level == 4 && i == KERNEL_SLOT then Kernel else t.space, t.level - 1, Extend(t.prefix, t.level, i))
  }

  /** Frame `f` is a table with entries that point to tables. */
  ghost predicate Inner(loc: seq<Loc>, f: nat) {
    f < |loc| && loc[f].Table? && 2 <= loc[f].level <= 4
  }

  ghost predicate Leafy(loc: seq<Loc>, f: nat) {
    f < |loc| && loc[f].Table? && loc[f].level == 1
  }

  ghost predicate ChildOk(loc: seq<Loc>, f: nat, i: nat, c: nat)
    requires Inner(loc, f)
  {
    c < |loc| && loc[c] == ChildLoc(loc[f], i)
  }

  ghost predicate Inv(mem: Mem, loc: seq<Loc>) {
    && |loc| == |mem|
    && (forall f :: 0 <= f < |mem| ==> |mem[f]| == ENTRIES)
    && (forall f: nat, i: nat ::
          Present(WordAt(mem, f, i)) && Inner(loc, f) ==>
            OpenEntry(WordAt(mem, f, i)) && ChildOk(loc, f, i, WordAt(mem, f, i).frame))
  }

  ghost predicate IsRoot(loc: seq<Loc>, r: nat) {
    r < |loc| && loc[r] == Table(User(r), 4, Path(0, 0, 0, 0))
  }

  // ----- Walking -----

  /** The level `l` table on the way from the root along `p`, if there is one. */
  function On(mem: Mem, r: nat, p: Path, l: nat): (t: Option<nat>)
    decreases if l < 4 then 4 - l else 0
  {
    if l >= 4 then Some(r)
    else
      var up := On(mem, r, p, l + 1);
      if up.None? then None
      else
        var w := WordAt(mem, up.value, Idx(p, l + 1));
        if Present(w) then Some(w.frame) else None
  }

  /** The word that maps a page: None when a table is missing or the entry is not present. */
  function Flat(mem: Mem, r: nat, p: Path): (w: Option<Word>) {
    var t := On(mem, r, p, 1);
    if t.None? then None
    else
      var w := WordAt(mem, t.value, p.i1);
      if Present(w) then Some(w) else None
  }

  function SpaceOf(r: nat, p: Path, l: nat): (s: Space) {
    if l < 4 && p.i4 == KERNEL_SLOT then Kernel else User(r)
  }

  /** Every table met on a walk has the place that the walk says. */
  lemma {:induction false} OnLoc(mem: Mem, loc: seq<Loc>, r: nat, p: Path, l: nat)
    requires Inv(mem, loc) && IsRoot(loc, r) && 1 <= l <= 4
    ensures var t := On(mem, r, p, l);
            t.Some? ==> t.value < |loc| && loc[t.value] == Table(SpaceOf(r, p, l), l, Pre(p, l))
    decreases 4 - l
  {
    if l < 4 {
      OnLoc(mem, loc, r, p, l + 1);
      var up := On(mem, r, p, l + 1);
      if up.Some? {
        var w := WordAt(mem, up.value, Idx(p, l + 1));
        if Present(w) { assert ChildOk(loc, up.value, Idx(p, l + 1), w.frame); }
      }
    }
  }

  // ----- Hanging a new, empty table into an entry that was not present -----

  ghost predicate Zeroed(p: Frame) {
    |p| == ENTRIES && forall i :: 0 <= i < ENTRIES ==> p[i] == ZERO
  }

  ghost predicate CanHang(mem: Mem, loc: seq<Loc>, f: nat, i: nat, c: nat) {
    && Inv(mem, loc) && Inner(loc, f) && i < ENTRIES && !Present(WordAt(mem, f, i))
    && c < |loc| && !loc[c].Table?
  }

  /** Memory after frame `c`, cleared, has become the child of entry `i` of table `f`. */
  ghost predicate Hung(mem: Mem, loc: seq<Loc>, f: nat, i: nat, c: nat, mem': Mem, loc': seq<Loc>)
    requires CanHang(mem, loc, f, i, c)
  {
    && |mem'| == |mem| && Zeroed(mem'[c])
    && mem'[f] == mem[f][i := TableEntry(c)]
    && (forall g :: 0 <= g < |mem| && g != c && g != f ==> mem'[g] == mem[g])
    && loc' == loc[c := ChildLoc(loc[f], i)]
  }

  lemma HungWord(mem: Mem, loc: seq<Loc>, f: nat, i: nat, c: nat, mem': Mem, loc': seq<Loc>, g: nat, j: nat)
    requires CanHang(mem, loc, f, i, c) && Hung(mem, loc, f, i, c, mem', loc')
    ensures WordAt(mem', g, j) ==
            if g == c then ZERO else if g == f && j == i then TableEntry(c) else WordAt(mem, g, j)
    ensures c != f
  {
  }

  lemma HungInv(mem: Mem, loc: seq<Loc>, f: nat, i: nat, c: nat, mem': Mem, loc': seq<Loc>)
    requires CanHang(mem, loc, f, i, c) && Hung(mem, loc, f, i, c, mem', loc')
    ensures Inv(mem', loc')
  {
    forall g: nat, j: nat | Present(WordAt(mem', g, j)) && Inner(loc', g)
      ensures OpenEntry(WordAt(mem', g, j)) && ChildOk(loc', g, j, WordAt(mem', g, j).frame)
    {
      HungWord(mem, loc, f, i, c, mem', loc', g, j);
      if !(g == f && j == i) { assert ChildOk(loc, g, j, WordAt(mem, g, j).frame); }
    }
  }

  /** Walks that existed are unchanged; a new one can only end in the new table. */
  lemma {:induction false} HungOn(mem: Mem, loc: seq<Loc>, f: nat, i: nat, c: nat, mem': Mem, loc': seq<Loc>,
                                  r: nat, p: Path, l: nat)
    requires CanHang(mem, loc, f, i, c) && Hung(mem, loc, f, i, c, mem', loc')
    requires IsRoot(loc, r) && 1 <= l <= 4
    ensures var o, n := On(mem, r, p, l), On(mem', r, p, l);
            (o.Some? ==> n == o) && (o.None? ==> n.None? || n.value == c)
    decreases 4 - l
  {
    if l < 4 {
      HungOn(mem, loc, f, i, c, mem', loc', r, p, l + 1);
      OnLoc(mem, loc, r, p, l + 1);
      var n := On(mem', r, p, l + 1);
      if n.Some? { HungWord(mem, loc, f, i, c, mem', loc', n.value, Idx(p, l + 1)); }
    }
  }

  /** No mapping of any address space changes. */
  lemma HungFlat(mem: Mem, loc: seq<Loc>, f: nat, i: nat, c: nat, mem': Mem, loc': seq<Loc>, r: nat, p: Path)
    requires CanHang(mem, loc, f, i, c) && Hung(mem, loc, f, i, c, mem', loc')
    requires IsRoot(loc, r)
    ensures Flat(mem', r, p) == Flat(mem, r, p)
  {
    HungOn(mem, loc, f, i, c, mem', loc', r, p, 1);
    OnLoc(mem, loc, r, p, 1);
    var n := On(mem', r, p, 1);
    if n.Some? { HungWord(mem, loc, f, i, c, mem', loc', n.value, p.i1); }
  }

  // ----- Writing frames that are not inner tables -----

  /** The tables above the last level are the same. */
  ghost predicate SameInner(mem: Mem, loc: seq<Loc>, mem': Mem) {
    && |mem'| == |mem| == |loc|
    && (forall f :: 0 <= f < |mem| && Inner(loc, f) ==> mem'[f] == mem[f])
    && (forall f :: 0 <= f < |mem| ==> |mem'[f]| == ENTRIES)
  }

  lemma SameInnerInv(mem: Mem, loc: seq<Loc>, mem': Mem)
    requires Inv(mem, loc) && SameInner(mem, loc, mem')
    ensures Inv(mem', loc)
  {
    forall f: nat, j: nat | Present(WordAt(mem', f, j)) && Inner(loc, f)
      ensures OpenEntry(WordAt(mem', f, j)) && ChildOk(loc, f, j, WordAt(mem', f, j).frame)
    {
      assert WordAt(mem', f, j) == WordAt(mem, f, j);
      assert ChildOk(loc, f, j, WordAt(mem, f, j).frame);
    }
  }

  lemma {:induction false} SameInnerOn(mem: Mem, loc: seq<Loc>, mem': Mem, r: nat, p: Path, l: nat)
    requires Inv(mem, loc) && SameInner(mem, loc, mem') && IsRoot(loc, r) && 1 <= l <= 4
    ensures On(mem', r, p, l) == On(mem, r, p, l)
    decreases 4 - l
  {
    if l < 4 {
      SameInnerOn(mem, loc, mem', r, p, l + 1);
      OnLoc(mem, loc, r, p, l + 1);
      var t := On(mem, r, p, l + 1);
      assert t.None? || WordAt(mem', t.value, Idx(p, l + 1)) == WordAt(mem, t.value, Idx(p, l + 1));
    }
  }

  /** Writing one leaf entry changes the mapping of one page, in the spaces that share the table. */
  lemma PutFlat(mem: Mem, loc: seq<Loc>, g: nat, i: nat, w: Word, r: nat, p: Path)
    requires Inv(mem, loc) && Leafy(loc, g) && i < ENTRIES && IsRoot(loc, r)
    ensures Inv(SetWord(mem, g, i, w), loc)
    ensures Flat(SetWord(mem, g, i, w), r, p) ==
            if On(mem, r, p, 1) == Some(g) && p.i1 == i then (if Present(w) then Some(w) else None)
            else Flat(mem, r, p)
    ensures On(mem, r, p, 1) == Some(g) ==> loc[g].prefix == Pre(p, 1) && loc[g].space == SpaceOf(r, p, 1)
  {
    var mem' := SetWord(mem, g, i, w);
    assert SameInner(mem, loc, mem');
    SameInnerInv(mem, loc, mem');
    SameInnerOn(mem, loc, mem', r, p, 1);
    OnLoc(mem, loc, r, p, 1);
  }

  ghost predicate NotTable(loc: seq<Loc>, c: nat) {
    c < |loc| && !loc[c].Table?
  }

  /** The contents of frames that are not tables do not matter to any mapping. */
  lemma DataFlat(mem: Mem, loc: seq<Loc>, c: nat, page: Frame, r: nat, p: Path)
    requires Inv(mem, loc) && NotTable(loc, c) && |page| == ENTRIES && IsRoot(loc, r)
    ensures Inv(mem[c := page], loc) && Flat(mem[c := page], r, p) == Flat(mem, r, p)
  {
    var mem' := mem[c := page];
    assert SameInner(mem, loc, mem');
    SameInnerInv(mem, loc, mem');
    SameInnerOn(mem, loc, mem', r, p, 1);
    OnLoc(mem, loc, r, p, 1);
  }
}
