/**
 The cached block device of kernel/bdev.c.  A cached page holds eight blocks.  Block
 headers are made eight at a time, one for each block of a page, and are given back eight
 at a time.  A header is known by its address; `hdrs` holds the headers that are allocated
 now, and the allocator may hand out an address again once its header has been freed.
 */
module BlockCache {
  import opened LittleEndian
  import opened JournalSpec

  const PER_PAGE: nat := 8

  /** `page` and `slot` say where the data of the block is: the data pointer of the source. */
  datatype Header = Header(blk: nat, page: nat, slot: nat, dirty: bool, ref: nat)

  datatype Page = Page(data: seq<Block>, headers: seq<nat>, dirty: bool)

  type Pages = map<nat, Page>
  type Headers = map<nat, Header>

  function PageOf(b: nat): nat { b / PER_PAGE }
  function SlotOf(b: nat): nat { b % PER_PAGE }

  lemma BlkSplit(b: nat)
    ensures b == PER_PAGE * PageOf(b) + SlotOf(b) && SlotOf(b) < PER_PAGE
  {
  }

  lemma SplitUnique(p: nat, i: nat)
    requires i < PER_PAGE
    ensures PageOf(PER_PAGE * p + i) == p && SlotOf(PER_PAGE * p + i) == i
  {
  }

  function ZeroBlock(): (b: Block) { seq(BLK_SIZE, i => 0) }

  function OnDisk(disk: Disk, b: nat): (x: Block) {
    if b < |disk| then disk[b] else ZeroBlock()
  }

  /** What a new page is filled with; the device may end inside the page. */
  function Filled(disk: Disk, p: nat): (data: seq<Block>)
    ensures |data| == PER_PAGE && forall i :: 0 <= i < PER_PAGE ==> data[i] == OnDisk(disk, PER_PAGE * p + i)
  {
    seq<Block>(PER_PAGE, i requires 0 <= i => OnDisk(disk, PER_PAGE * p + i))
  }

  // ----- Pages and headers -----

  ghost predicate HeaderAt(hdrs: Headers, h: nat, p: nat, i: nat) {
    h in hdrs && hdrs[h].page == p && hdrs[h].slot == i
  }

  /** A page has no headers or one for each of its blocks, in order. */
  ghost predicate PageOk(pg: Page, p: nat, hdrs: Headers) {
    && |pg.data| == PER_PAGE
    && (pg.headers == [] || |pg.headers| == PER_PAGE)
    && forall i :: 0 <= i < |pg.headers| ==> HeaderAt(hdrs, pg.headers[i], p, i)
  }

  /**
   A header belongs to slice `blk` mod 8 of page `blk` div 8 and is in the list of that page; the page knows if
   it is dirty.
   */
  ghost predicate HeaderOk(x: Header, h: nat, pages: Pages) {
    && x.slot < PER_PAGE && x.blk == PER_PAGE * x.page + x.slot
    && x.page in pages && |pages[x.page].headers| == PER_PAGE && pages[x.page].headers[x.slot] == h
    && (x.dirty ==> pages[x.page].dirty)
  }

  ghost predicate ListsOk(pages: Pages, hdrs: Headers) {
    && (forall p {:trigger PageOk(pages[p], p, hdrs)} :: p in pages ==> PageOk(pages[p], p, hdrs))
    && (forall h {:trigger HeaderOk(hdrs[h], h, pages)} :: h in hdrs ==> HeaderOk(hdrs[h], h, pages))
  }

  /** The count in a header is the number of references that are held to it; nobody refers to a freed header. */
  ghost predicate RefsOk(hdrs: Headers, refs: multiset<nat>) {
    forall h {:trigger RefOk(hdrs, refs, h)} :: RefOk(hdrs, refs, h)
  }

  ghost predicate RefOk(hdrs: Headers, refs: multiset<nat>, h: nat) {
    (h in hdrs ==> hdrs[h].ref == refs[h]) && (h in refs ==> h in hdrs)
  }

  /** Blocks whose header is marked dirty. */
  ghost function DirtyBlks(hdrs: Headers): (s: set<nat>) {
    set h | h in hdrs && hdrs[h].dirty :: hdrs[h].blk
  }

  /** A block as a reader sees it: the slice of its page, or the device if the page is not cached. */
  ghost function Cached(disk: Disk, pages: Pages, b: nat): (x: Block)
    requires b < |disk|
  {
    var p, i := PageOf(b), SlotOf(b);
    if p in pages && i < |pages[p].data| then pages[p].data[i] else disk[b]
  }

  ghost function View(disk: Disk, pages: Pages): (v: Disk)
    ensures |v| == |disk| && forall b :: 0 <= b < |disk| ==> v[b] == Cached(disk, pages, b)
  {
    seq(|disk|, b requires 0 <= b < |disk| => Cached(disk, pages, b))
  }

  /** A cached block differs from the device only if its header is marked dirty. */
  ghost predicate Synced(disk: Disk, pages: Pages, hdrs: Headers) {
    forall b {:trigger Cached(disk, pages, b)} ::
      0 <= b < |disk| && b !in DirtyBlks(hdrs) ==> Cached(disk, pages, b) == disk[b]
  }

  /** Every slice of a page equals its block on the device. */
  ghost predicate PageIsDisk(disk: Disk, pg: Page, p: nat) {
    && |pg.data| == PER_PAGE
    && forall i :: 0 <= i < PER_PAGE && PER_PAGE * p + i < |disk| ==> pg.data[i] == disk[PER_PAGE * p + i]
  }

  /** Without dirty headers the whole cache agrees with the device. */
  lemma CleanIsDisk(disk: Disk, pages: Pages, hdrs: Headers)
    requires ListsOk(pages, hdrs) && Synced(disk, pages, hdrs) && forall h :: h in hdrs ==> !hdrs[h].dirty
    ensures View(disk, pages) == disk && forall p :: p in pages ==> PageIsDisk(disk, pages[p], p)
  {
    assert DirtyBlks(hdrs) == {};
    forall p | p in pages
      ensures PageIsDisk(disk, pages[p], p)
    {
      assert PageOk(pages[p], p, hdrs);
      forall i | 0 <= i < PER_PAGE && PER_PAGE * p + i < |disk|
        ensures pages[p].data[i] == disk[PER_PAGE * p + i]
      {
        SplitUnique(p, i);
        assert Cached(disk, pages, PER_PAGE * p + i) == disk[PER_PAGE * p + i];
      }
    }
  }

  /** A block has at most one header. */
  lemma OneHeader(pages: Pages, hdrs: Headers, g: nat, h: nat)
    requires ListsOk(pages, hdrs) && g in hdrs && h in hdrs && hdrs[g].blk == hdrs[h].blk
    ensures g == h
  {
    assert HeaderOk(hdrs[g], g, pages) && HeaderOk(hdrs[h], h, pages);
    SplitUnique(hdrs[g].page, hdrs[g].slot);
    SplitUnique(hdrs[h].page, hdrs[h].slot);
  }

  /** The data of a header is what everybody reads of its block. */
  lemma HeaderData(disk: Disk, pages: Pages, hdrs: Headers, h: nat)
    requires ListsOk(pages, hdrs) && h in hdrs && hdrs[h].blk < |disk|
    ensures hdrs[h].page == PageOf(hdrs[h].blk) && hdrs[h].slot == SlotOf(hdrs[h].blk)
    ensures hdrs[h].page in pages && hdrs[h].slot < |pages[hdrs[h].page].data|
    ensures Cached(disk, pages, hdrs[h].blk) == pages[hdrs[h].page].data[hdrs[h].slot]
  {
    assert HeaderOk(hdrs[h], h, pages);
    SplitUnique(hdrs[h].page, hdrs[h].slot);
    assert PageOk(pages[hdrs[h].page], hdrs[h].page, hdrs);
  }

  // ----- Steps -----

  /** Only lists and marks of pages have changed. */
  ghost predicate SameData(pages0: Pages, pages1: Pages) {
    pages0.Keys == pages1.Keys && forall p :: p in pages0 ==> pages1[p].data == pages0[p].data
  }

  lemma SameDataView(disk: Disk, pages0: Pages, pages1: Pages)
    requires SameData(pages0, pages1)
    ensures View(disk, pages1) == View(disk, pages0)
  {
    forall b | 0 <= b < |disk|
      ensures Cached(disk, pages1, b) == Cached(disk, pages0, b)
    {
    }
  }

  lemma FillView(disk: Disk, pages: Pages, p: nat, headers: seq<nat>)
    requires p !in pages
    ensures View(disk, pages[p := Page(Filled(disk, p), headers, false)]) == View(disk, pages)
  {
    var pages1 := pages[p := Page(Filled(disk, p), headers, false)];
    forall b | 0 <= b < |disk|
      ensures Cached(disk, pages1, b) == Cached(disk, pages, b)
    {
      BlkSplit(b);
    }
  }

  function Stored(pages: Pages, p: nat, i: nat, x: Block): (pages1: Pages)
    requires p in pages && i < |pages[p].data|
  {
    pages[p := pages[p].(data := pages[p].data[i := x])]
  }

  lemma StoreView(disk: Disk, pages: Pages, hdrs: Headers, h: nat, x: Block)
    requires ListsOk(pages, hdrs) && h in hdrs && hdrs[h].blk < |disk|
    requires hdrs[h].page in pages && hdrs[h].slot < |pages[hdrs[h].page].data|
    ensures View(disk, Stored(pages, hdrs[h].page, hdrs[h].slot, x)) == View(disk, pages)[hdrs[h].blk := x]
  {
    var p, i := hdrs[h].page, hdrs[h].slot;
    var pages1 := Stored(pages, p, i, x);
    assert HeaderOk(hdrs[h], h, pages);
    forall b | 0 <= b < |disk|
      ensures Cached(disk, pages1, b) == if b == hdrs[h].blk then x else Cached(disk, pages, b)
    {
      BlkSplit(b);
      SplitUnique(p, i);
    }
  }

  lemma WriteView(disk: Disk, pages: Pages, b: nat)
    requires b < |disk|
    ensures View(disk[b := Cached(disk, pages, b)], pages) == View(disk, pages)
  {
  }

  /** Headers that are still there belong to the same block and have the same mark; new ones are clean. */
  ghost predicate Kept(hdrs0: Headers, hdrs1: Headers) {
    && (forall h :: h in hdrs0 && h in hdrs1 ==> hdrs1[h] == hdrs0[h].(ref := hdrs1[h].ref))
    && (forall h :: h in hdrs1 && h !in hdrs0 ==> !hdrs1[h].dirty)
  }

  lemma {:induction false} FreshHeader(s: set<nat>)
    ensures exists h: nat :: h !in s
  {
    var m := Bound(s);
    assert m !in s;
  }

  lemma {:induction false} Bound(s: set<nat>) returns (m: nat)
    ensures forall h :: h in s ==> h < m
  {
    if s == {} { return 0; }
    var x :| x in s;
    m := Bound(s - {x});
    m := if x < m then m else x + 1;
    forall h | h in s
      ensures h < m
    {
      assert h == x || h in s - {x};
    }
  }

  ghost function Members(s: seq<nat>): (r: set<nat>)
    ensures forall h :: h in r <==> h in s
  {
    set h | h in s
  }

  /** The headers `hs` have just been made for the first blocks of page `p`. */
  ghost predicate Made(hdrs0: Headers, p: nat, hs: seq<nat>, hdrs1: Headers) {
    && hdrs1.Keys == hdrs0.Keys + Members(hs)
    && (forall h :: h in hdrs0 ==> h !in hs && hdrs1[h] == hdrs0[h])
    && (forall j :: 0 <= j < |hs| ==> hs[j] in hdrs1 && hdrs1[hs[j]] == Header(PER_PAGE * p + j, p, j, false, 0))
  }

  lemma MadeStep(hdrs0: Headers, p: nat, hs: seq<nat>, hdrs1: Headers, h: nat)
    requires Made(hdrs0, p, hs, hdrs1) && h !in hdrs1
    ensures Made(hdrs0, p, hs + [h], hdrs1[h := Header(PER_PAGE * p + |hs|, p, |hs|, false, 0)])
  {
  }

  lemma MadeLists(pages: Pages, hdrs0: Headers, p: nat, hs: seq<nat>, hdrs1: Headers)
    requires ListsOk(pages, hdrs0) && p in pages && pages[p].headers == []
    requires Made(hdrs0, p, hs, hdrs1) && |hs| == PER_PAGE
    ensures ListsOk(pages[p := pages[p].(headers := hs)], hdrs1)
  {
    var pages1 := pages[p := pages[p].(headers := hs)];
    forall q | q in pages1
      ensures PageOk(pages1[q], q, hdrs1)
    {
      assert PageOk(pages[q], q, hdrs0);
    }
    forall h | h in hdrs1
      ensures HeaderOk(hdrs1[h], h, pages1)
    {
      assert h in hdrs0 || h in hs;
      if h in hdrs0 { assert HeaderOk(hdrs0[h], h, pages); }
    }
  }

  lemma MadeDirty(hdrs0: Headers, p: nat, hs: seq<nat>, hdrs1: Headers)
    requires Made(hdrs0, p, hs, hdrs1)
    ensures DirtyBlks(hdrs1) == DirtyBlks(hdrs0) && Kept(hdrs0, hdrs1)
  {
    forall h | h in hdrs1 && hdrs1[h].dirty
      ensures h in hdrs0
    {
      assert h in hdrs0 || h in hs;
    }
    assert forall h :: h in hdrs0 ==> hdrs1[h] == hdrs0[h];
  }

  lemma MadeRefs(hdrs0: Headers, p: nat, hs: seq<nat>, hdrs1: Headers, refs: multiset<nat>)
    requires Made(hdrs0, p, hs, hdrs1) && RefsOk(hdrs0, refs)
    ensures RefsOk(hdrs1, refs)
  {
    forall h
      ensures RefOk(hdrs1, refs, h)
    {
      assert RefOk(hdrs0, refs, h);
      assert h in hdrs1 ==> h in hdrs0 || h in hs;
    }
  }

  /** Changing the count of a header keeps all but the count. */
  lemma CountLists(pages: Pages, hdrs: Headers, h: nat, n: nat)
    requires ListsOk(pages, hdrs) && h in hdrs
    ensures var hdrs1 := hdrs[h := hdrs[h].(ref := n)];
            ListsOk(pages, hdrs1) && DirtyBlks(hdrs1) == DirtyBlks(hdrs) && Kept(hdrs, hdrs1)
  {
    var hdrs1 := hdrs[h := hdrs[h].(ref := n)];
    forall p | p in pages
      ensures PageOk(pages[p], p, hdrs1)
    {
      assert PageOk(pages[p], p, hdrs);
    }
    forall g | g in hdrs1
      ensures HeaderOk(hdrs1[g], g, pages)
    {
      assert HeaderOk(hdrs[g], g, pages);
    }
    assert forall g :: g in hdrs1 <==> g in hdrs;
    assert forall g :: g in hdrs ==> hdrs1[g].blk == hdrs[g].blk && hdrs1[g].dirty == hdrs[g].dirty;
  }

  /** The headers of page `p` without its eight headers. */
  ghost function Without(hdrs: Headers, hs: seq<nat>): (r: Headers) {
    hdrs - Members(hs)
  }

  lemma WithoutStep(hdrs: Headers, hs: seq<nat>, n: nat)
    requires n < |hs|
    ensures Without(hdrs, hs[..n]) - {hs[n]} == Without(hdrs, hs[..n + 1])
  {
    assert hs[..n + 1] == hs[..n] + [hs[n]];
  }

  lemma FreedLists(pages: Pages, hdrs: Headers, p: nat)
    requires ListsOk(pages, hdrs) && p in pages && !pages[p].dirty
    ensures ListsOk(pages[p := pages[p].(headers := [])], Without(hdrs, pages[p].headers))
    ensures DirtyBlks(Without(hdrs, pages[p].headers)) == DirtyBlks(hdrs)
  {
    var hs := pages[p].headers;
    var hdrs1, pages1 := Without(hdrs, hs), pages[p := pages[p].(headers := [])];
    assert PageOk(pages[p], p, hdrs);
    forall q | q in pages1
      ensures PageOk(pages1[q], q, hdrs1)
    {
      assert PageOk(pages[q], q, hdrs);
    }
    forall h | h in hdrs
      ensures h in hs <==> hdrs[h].page == p
      ensures h in hdrs1 ==> HeaderOk(hdrs1[h], h, pages1)
      ensures h in hs ==> !hdrs[h].dirty
    {
      assert HeaderOk(hdrs[h], h, pages);
    }
  }

  /** Whether the cache agrees with the device depends on what is cached and on the marks. */
  lemma SyncedView(disk: Disk, pages0: Pages, hdrs0: Headers, pages1: Pages, hdrs1: Headers)
    requires Synced(disk, pages0, hdrs0) && DirtyBlks(hdrs1) == DirtyBlks(hdrs0)
    requires View(disk, pages1) == View(disk, pages0)
    ensures Synced(disk, pages1, hdrs1)
  {
    forall b | 0 <= b < |disk| && b !in DirtyBlks(hdrs1)
      ensures Cached(disk, pages1, b) == disk[b]
    {
      assert View(disk, pages1)[b] == View(disk, pages0)[b];
    }
  }

  lemma StoreLists(pages: Pages, hdrs: Headers, p: nat, i: nat, x: Block)
    requires ListsOk(pages, hdrs) && p in pages && i < |pages[p].data|
    ensures ListsOk(Stored(pages, p, i, x), hdrs)
  {
    var pages1 := Stored(pages, p, i, x);
    forall q | q in pages1
      ensures PageOk(pages1[q], q, hdrs)
    {
      assert PageOk(pages[q], q, hdrs);
    }
    forall h | h in hdrs
      ensures HeaderOk(hdrs[h], h, pages1)
    {
      assert HeaderOk(hdrs[h], h, pages);
    }
  }

  /** Nothing that a reader can see has changed; headers that are still there belong to the same block. */
  ghost predicate Same(disk: Disk, pages0: Pages, hdrs0: Headers, pages1: Pages, hdrs1: Headers) {
    View(disk, pages1) == View(disk, pages0) && DirtyBlks(hdrs1) == DirtyBlks(hdrs0) && Kept(hdrs0, hdrs1)
  }

  ghost predicate Inv(disk: Disk, pages: Pages, hdrs: Headers, refs: multiset<nat>) {
    ListsOk(pages, hdrs) && RefsOk(hdrs, refs) && Synced(disk, pages, hdrs)
  }

  /** A change of one count, with the references. */
  lemma CountInv(disk: Disk, pages: Pages, hdrs: Headers, refs: multiset<nat>, h: nat, n: nat)
    requires Inv(disk, pages, hdrs, refs) && h in hdrs
    ensures var hdrs1 := hdrs[h := hdrs[h].(ref := n)];
            Inv(disk, pages, hdrs1, refs[h := n]) && Same(disk, pages, hdrs, pages, hdrs1)
  {
    var hdrs1 := hdrs[h := hdrs[h].(ref := n)];
    CountLists(pages, hdrs, h, n);
    SyncedView(disk, pages, hdrs, pages, hdrs1);
    var refs1 := refs[h := n];
    forall g
      ensures RefOk(hdrs1, refs1, g)
    {
      assert RefOk(hdrs, refs, g);
    }
  }

  lemma OneMore(refs: multiset<nat>, h: nat)
    ensures refs[h := refs[h] + 1] == refs + multiset{h}
  {
  }

  lemma OneLess(refs: multiset<nat>, h: nat)
    requires h in refs
    ensures refs[h := refs[h] - 1] == refs - multiset{h}
  {
  }

  lemma AddInv(disk: Disk, pages: Pages, hdrs: Headers, refs: multiset<nat>, h: nat)
    requires Inv(disk, pages, hdrs, refs) && h in hdrs
    ensures var hdrs1 := hdrs[h := hdrs[h].(ref := hdrs[h].ref + 1)];
            && Inv(disk, pages, hdrs1, refs + multiset{h}) && Same(disk, pages, hdrs, pages, hdrs1)
            && hdrs1.Keys == hdrs.Keys
  {
    assert RefOk(hdrs, refs, h);
    CountInv(disk, pages, hdrs, refs, h, refs[h] + 1);
    OneMore(refs, h);
  }

  function Dropped(hdrs: Headers, h: nat): (r: Headers)
    requires h in hdrs && hdrs[h].ref > 0
  {
    hdrs[h := hdrs[h].(ref := hdrs[h].ref - 1)]
  }

  lemma DropInv(disk: Disk, pages: Pages, hdrs: Headers, refs: multiset<nat>, h: nat)
    requires Inv(disk, pages, hdrs, refs) && h in refs
    ensures h in hdrs && hdrs[h].ref > 0
    ensures Inv(disk, pages, Dropped(hdrs, h), refs - multiset{h}) && Same(disk, pages, hdrs, pages, Dropped(hdrs, h))
  {
    assert RefOk(hdrs, refs, h);
    CountInv(disk, pages, hdrs, refs, h, refs[h] - 1);
    OneLess(refs, h);
  }

  lemma MadeInv(disk: Disk, pages: Pages, hdrs0: Headers, refs: multiset<nat>, p: nat, hs: seq<nat>, hdrs1: Headers)
    requires Inv(disk, pages, hdrs0, refs) && p in pages && pages[p].headers == []
    requires Made(hdrs0, p, hs, hdrs1) && |hs| == PER_PAGE
    ensures var pages1 := pages[p := pages[p].(headers := hs)];
            Inv(disk, pages1, hdrs1, refs) && Same(disk, pages, hdrs0, pages1, hdrs1)
  {
    var pages1 := pages[p := pages[p].(headers := hs)];
    MadeLists(pages, hdrs0, p, hs, hdrs1);
    MadeDirty(hdrs0, p, hs, hdrs1);
    MadeRefs(hdrs0, p, hs, hdrs1, refs);
    SameDataView(disk, pages, pages1);
    SyncedView(disk, pages, hdrs0, pages1, hdrs1);
  }

  lemma FreedInv(disk: Disk, pages: Pages, hdrs: Headers, refs: multiset<nat>, p: nat)
    requires Inv(disk, pages, hdrs, refs) && p in pages && !pages[p].dirty && ZeroRef(pages[p].headers, refs)
    ensures var pages1, hdrs1 := pages[p := pages[p].(headers := [])], Without(hdrs, pages[p].headers);
            Inv(disk, pages1, hdrs1, refs) && Same(disk, pages, hdrs, pages1, hdrs1)
  {
    var pages1, hdrs1 := pages[p := pages[p].(headers := [])], Without(hdrs, pages[p].headers);
    FreedLists(pages, hdrs, p);
    forall h
      ensures RefOk(hdrs1, refs, h)
    {
      assert RefOk(hdrs, refs, h);
    }
    SameDataView(disk, pages, pages1);
    SyncedView(disk, pages, hdrs, pages1, hdrs1);
  }

  /** The headers of a clean page are allocated and clean. */
  lemma CleanHeaders(pages: Pages, hdrs: Headers, p: nat, h: nat)
    requires ListsOk(pages, hdrs) && p in pages && !pages[p].dirty && h in pages[p].headers
    ensures h in hdrs && hdrs[h].page == p && !hdrs[h].dirty
  {
    assert PageOk(pages[p], p, hdrs);
    var i :| 0 <= i < |pages[p].headers| && pages[p].headers[i] == h;
    assert HeaderAt(hdrs, h, p, i);
    assert HeaderOk(hdrs[h], h, pages);
  }

  lemma FillInv(disk: Disk, pages: Pages, hdrs: Headers, refs: multiset<nat>, p: nat)
    requires Inv(disk, pages, hdrs, refs) && p !in pages
    ensures var pages1 := pages[p := Page(Filled(disk, p), [], false)];
            Inv(disk, pages1, hdrs, refs) && Same(disk, pages, hdrs, pages1, hdrs)
  {
    var pages1 := pages[p := Page(Filled(disk, p), [], false)];
    FillView(disk, pages, p, []);
    SyncedView(disk, pages, hdrs, pages1, hdrs);
    forall q | q in pages1
      ensures PageOk(pages1[q], q, hdrs)
    {
      assert q != p ==> PageOk(pages[q], q, hdrs);
    }
    forall h | h in hdrs
      ensures HeaderOk(hdrs[h], h, pages1)
    {
      assert HeaderOk(hdrs[h], h, pages);
    }
  }

  /** All eight references of a page are gone. */
  ghost predicate ZeroRef(hs: seq<nat>, refs: multiset<nat>) {
    forall i :: 0 <= i < |hs| ==> hs[i] !in refs
  }

  // ----- Changing a block -----

  ghost predicate SyncedBut(disk: Disk, pages: Pages, hdrs: Headers, x: nat) {
    forall b {:trigger Cached(disk, pages, b)} ::
      0 <= b < |disk| && b !in DirtyBlks(hdrs) && b != x ==> Cached(disk, pages, b) == disk[b]
  }

  ghost predicate InvBut(disk: Disk, pages: Pages, hdrs: Headers, refs: multiset<nat>, x: nat) {
    ListsOk(pages, hdrs) && RefsOk(hdrs, refs) && SyncedBut(disk, pages, hdrs, x)
  }

  lemma StoreInv(disk: Disk, pages: Pages, hdrs: Headers, refs: multiset<nat>, h: nat, data: Block)
    requires Inv(disk, pages, hdrs, refs) && h in hdrs && hdrs[h].blk < |disk|
    ensures var p, i := hdrs[h].page, hdrs[h].slot;
            && p in pages && i < |pages[p].data|
            && InvBut(disk, Stored(pages, p, i, data), hdrs, refs, hdrs[h].blk)
            && View(disk, Stored(pages, p, i, data)) == View(disk, pages)[hdrs[h].blk := data]
  {
    var p, i := hdrs[h].page, hdrs[h].slot;
    assert HeaderOk(hdrs[h], h, pages) && PageOk(pages[p], p, hdrs);
    var pages1 := Stored(pages, p, i, data);
    StoreView(disk, pages, hdrs, h, data);
    StoreLists(pages, hdrs, p, i, data);
    forall b | 0 <= b < |disk| && b !in DirtyBlks(hdrs) && b != hdrs[h].blk
      ensures Cached(disk, pages1, b) == disk[b]
    {
      assert View(disk, pages1)[b] == View(disk, pages)[b];
    }
  }

  /** The pages once a header of page `p` has been marked. */
  function Marked(pages: Pages, p: nat, dirty: bool): (r: Pages)
    requires p in pages
  {
    if dirty then pages[p := pages[p].(dirty := true)] else pages
  }

  lemma MarkInv(disk: Disk, pages: Pages, hdrs: Headers, refs: multiset<nat>, h: nat, dirty: bool)
    requires h in hdrs && hdrs[h].blk < |disk| && InvBut(disk, pages, hdrs, refs, hdrs[h].blk)
    requires dirty || Cached(disk, pages, hdrs[h].blk) == disk[hdrs[h].blk]
    ensures hdrs[h].page in pages
    ensures var pages1, hdrs1 := Marked(pages, hdrs[h].page, dirty), hdrs[h := hdrs[h].(dirty := dirty)];
            Inv(disk, pages1, hdrs1, refs) && View(disk, pages1) == View(disk, pages)
  {
    assert HeaderOk(hdrs[h], h, pages);
    var pages1, hdrs1 := Marked(pages, hdrs[h].page, dirty), hdrs[h := hdrs[h].(dirty := dirty)];
    SameDataView(disk, pages, pages1);
    MarkLists(pages, hdrs, h, dirty);
    MarkDirty(pages, hdrs, h, dirty);
    forall g
      ensures RefOk(hdrs1, refs, g)
    {
      assert RefOk(hdrs, refs, g);
    }
    forall b | 0 <= b < |disk| && b !in DirtyBlks(hdrs1)
      ensures Cached(disk, pages1, b) == disk[b]
    {
      assert View(disk, pages1)[b] == View(disk, pages)[b];
    }
  }

  lemma MarkLists(pages: Pages, hdrs: Headers, h: nat, dirty: bool)
    requires ListsOk(pages, hdrs) && h in hdrs && hdrs[h].page in pages
    ensures ListsOk(Marked(pages, hdrs[h].page, dirty), hdrs[h := hdrs[h].(dirty := dirty)])
  {
    var pages1, hdrs1 := Marked(pages, hdrs[h].page, dirty), hdrs[h := hdrs[h].(dirty := dirty)];
    forall q | q in pages1
      ensures PageOk(pages1[q], q, hdrs1)
    {
      assert PageOk(pages[q], q, hdrs);
    }
    forall g | g in hdrs1
      ensures HeaderOk(hdrs1[g], g, pages1)
    {
      assert HeaderOk(hdrs[g], g, pages);
    }
  }

  /** Marking a header marks its block, because the block has no other header. */
  lemma MarkDirty(pages: Pages, hdrs: Headers, h: nat, dirty: bool)
    requires ListsOk(pages, hdrs) && h in hdrs
    ensures DirtyBlks(hdrs[h := hdrs[h].(dirty := dirty)]) ==
            if dirty then DirtyBlks(hdrs) + {hdrs[h].blk} else DirtyBlks(hdrs) - {hdrs[h].blk}
  {
    var hdrs1 := hdrs[h := hdrs[h].(dirty := dirty)];
    forall g | g in hdrs && g != h
      ensures g in hdrs1 && hdrs1[g] == hdrs[g] && hdrs[g].blk != hdrs[h].blk
    {
      if hdrs[g].blk == hdrs[h].blk { OneHeader(pages, hdrs, g, h); }
    }
    assert hdrs1[h].dirty == dirty;
    forall b
      ensures b in DirtyBlks(hdrs1) <==>
              b in if dirty then DirtyBlks(hdrs) + {hdrs[h].blk} else DirtyBlks(hdrs) - {hdrs[h].blk}
    {
    }
  }

  lemma WriteInv(disk: Disk, pages: Pages, hdrs: Headers, refs: multiset<nat>, h: nat)
    requires h in hdrs && hdrs[h].blk < |disk| && InvBut(disk, pages, hdrs, refs, hdrs[h].blk)
    ensures var x := hdrs[h];
            && x.page in pages && x.slot < |pages[x.page].data|
            && pages[x.page].data[x.slot] == View(disk, pages)[x.blk]
            && var disk1 := disk[x.blk := pages[x.page].data[x.slot]];
            && InvBut(disk1, pages, hdrs, refs, x.blk) && View(disk1, pages) == View(disk, pages)
            && Cached(disk1, pages, x.blk) == disk1[x.blk]
  {
    var x := hdrs[h];
    assert HeaderOk(x, h, pages) && PageOk(pages[x.page], x.page, hdrs);
    HeaderData(disk, pages, hdrs, h);
    WriteView(disk, pages, x.blk);
    var disk1 := disk[x.blk := pages[x.page].data[x.slot]];
    forall b | 0 <= b < |disk1| && b !in DirtyBlks(hdrs) && b != x.blk
      ensures Cached(disk1, pages, b) == disk1[b]
    {
      assert View(disk1, pages)[b] == View(disk, pages)[b];
    }
    assert View(disk1, pages)[x.blk] == View(disk, pages)[x.blk];
  }

  lemma ApplyOne(d: Disk, t: seq<Write>, w: Write)
    requires w.blk < |d|
    ensures Apply(d, t + [w]) == Apply(d, t)[w.blk := w.data]
  {
    assert (t + [w])[..|t + [w]| - 1] == t;
  }

  // ----- Giving up headers -----

  /** The headers once a reference to `h` is given up and `refs` is left. */
  ghost function Released(pages: Pages, hdrs: Headers, h: nat, refs: multiset<nat>): (r: Headers)
    requires h in hdrs && hdrs[h].page in pages && hdrs[h].ref > 0
  {
    var pg := pages[hdrs[h].page];
    if !pg.dirty && ZeroRef(pg.headers, refs) then Without(Dropped(hdrs, h), pg.headers) else Dropped(hdrs, h)
  }

  /** A header goes if and only if its page is clean and no header of the page has a reference left. */
  lemma FreedIff(disk: Disk, pages: Pages, hdrs: Headers, refs: multiset<nat>, h: nat, g: nat)
    requires Inv(disk, pages, hdrs, refs) && h in refs && h in hdrs && g in hdrs && hdrs[h].page in pages
    requires hdrs[h].ref > 0
    ensures g !in Released(pages, hdrs, h, refs - multiset{h}) <==>
            && hdrs[g].page == hdrs[h].page && !pages[hdrs[h].page].dirty
            && forall x :: x in hdrs && hdrs[x].page == hdrs[h].page ==> x !in refs - multiset{h}
    ensures g !in Released(pages, hdrs, h, refs - multiset{h}) ==> !hdrs[g].dirty && g !in refs - multiset{h}
  {
    var p, rest := hdrs[h].page, refs - multiset{h};
    assert PageOk(pages[p], p, hdrs);
    forall x | x in hdrs
      ensures x in pages[p].headers <==> hdrs[x].page == p
      ensures hdrs[x].dirty ==> hdrs[x].page in pages && pages[hdrs[x].page].dirty
    {
      assert HeaderOk(hdrs[x], x, pages);
    }
  }

  lemma StillHeld(pages: Pages, hdrs: Headers, refs: multiset<nat>, h: nat)
    requires ListsOk(pages, hdrs) && h in hdrs && h in refs
    ensures hdrs[h].page in pages && !ZeroRef(pages[hdrs[h].page].headers, refs)
  {
    assert HeaderOk(hdrs[h], h, pages);
  }

  /** The headers of a page are different. */
  lemma NotYetFreed(pages: Pages, hdrs: Headers, p: nat, n: nat)
    requires ListsOk(pages, hdrs) && p in pages && n < |pages[p].headers|
    ensures pages[p].headers[n] !in pages[p].headers[..n]
  {
    var hs := pages[p].headers;
    assert PageOk(pages[p], p, hdrs);
    assert HeaderAt(hdrs, hs[n], p, n);
    forall i | 0 <= i < n
      ensures hs[i] != hs[n]
    {
      assert HeaderAt(hdrs, hs[i], p, i);
    }
  }

  /** A device at one moment; `cache` is what readers see. */
  datatype Snap = Snap(disk: Disk, cache: Disk, hdrs: Headers, refs: multiset<nat>, trace: seq<Write>)

  class BlockDevice {
    var disk: Disk
    var pages: Pages
    var hdrs: Headers
    // The references that are held now, the device as it was at the start, and every
    // write to it since.
    ghost var refs: multiset<nat>
    ghost const disk0: Disk
    ghost var trace: seq<Write>

    ghost predicate Valid()
      reads this
    {
      Inv(disk, pages, hdrs, refs) && disk == Apply(disk0, trace)
    }

    constructor (contents: Disk)
      ensures Valid() && disk == disk0 == contents && pages == map[] && hdrs == map[]
      ensures refs == multiset{} && trace == []
    {
      disk, pages, hdrs, refs := contents, map[], map[], multiset{};
      disk0, trace := contents, [];
    }

    ghost function Now(): (s: Snap)
      reads this
    {
      Snap(disk, View(disk, pages), hdrs, refs, trace)
    }

    /** Page `p` in the cache, read in if it is not there. */
    method GetPage(p: nat)
      requires Valid()
      modifies `pages
      ensures Valid() && p in pages && Same(disk, old(pages), hdrs, pages, hdrs)
    {
      if p in pages { return; }
      FillInv(disk, pages, hdrs, refs, p);
      pages := pages[p := Page(Filled(disk, p), [], false)];
    }

    /** Headers for the blocks of a page that has none. */
    method InitBlkHeaders(p: nat)
      requires Valid() && p in pages
      modifies `pages, `hdrs
      ensures Valid() && Same(disk, old(pages), old(hdrs), pages, hdrs)
      ensures p in pages && |pages[p].headers| == PER_PAGE && hdrs.Keys >= old(hdrs).Keys
    {
      assert PageOk(pages[p], p, hdrs);
      if pages[p].headers == [] {
        MakeEach(p);
        MadeInv(disk, old(pages), old(hdrs), refs, p, pages[p].headers, hdrs);
      }
    }

    /** One more header, anywhere in memory, at the end of the list of a page. */
    method MakeOne(p: nat, ghost hdrs0: Headers)
      requires p in pages && Made(hdrs0, p, pages[p].headers, hdrs)
      modifies `pages, `hdrs
      ensures p in pages && |pages[p].headers| == old(|pages[p].headers|) + 1
      ensures pages == old(pages)[p := old(pages)[p].(headers := pages[p].headers)]
      ensures Made(hdrs0, p, pages[p].headers, hdrs)
    {
      FreshHeader(hdrs.Keys);
      var h: nat :| h !in hdrs.Keys;
      MadeStep(hdrs0, p, pages[p].headers, hdrs, h);
      var index := |pages[p].headers|;
      hdrs := hdrs[h := Header(PER_PAGE * p + index, p, index, false, 0)];
      pages := pages[p := pages[p].(headers := pages[p].headers + [h])];
    }

    /** Fill the list of a page. */
    method MakeEach(p: nat)
      requires p in pages && pages[p].headers == []
      modifies `pages, `hdrs
      ensures p in pages && |pages[p].headers| == PER_PAGE && Made(old(hdrs), p, pages[p].headers, hdrs)
      ensures pages == old(pages)[p := old(pages)[p].(headers := pages[p].headers)]
    {
      var index := 0;
      while index < PER_PAGE
        invariant 0 <= index <= PER_PAGE
        invariant p in pages && |pages[p].headers| == index
        invariant pages == old(pages)[p := old(pages)[p].(headers := pages[p].headers)]
        invariant Made(old(hdrs), p, pages[p].headers, hdrs)
      {
        MakeOne(p, old(hdrs));
        index := index + 1;
      }
    }

    /** The header of block `b`, with one more reference. */
    method GetBlk(b: nat) returns (h: nat)
      requires Valid()
      modifies `pages, `hdrs, `refs
      ensures Valid() && Same(disk, old(pages), old(hdrs), pages, hdrs)
      ensures h in hdrs && hdrs[h].blk == b && refs == old(refs) + multiset{h} && hdrs.Keys >= old(hdrs).Keys
    {
      var p := PageOf(b);
      GetPage(p);
      InitBlkHeaders(p);
      h := FindBlk(p, b);
      AddRef(h);
    }

    /** One reference more. */
    method AddRef(h: nat)
      requires Valid() && h in hdrs
      modifies `hdrs, `refs
      ensures Valid() && Same(disk, pages, old(hdrs), pages, hdrs) && hdrs.Keys == old(hdrs).Keys
      ensures refs == old(refs) + multiset{h}
    {
      AddInv(disk, pages, hdrs, refs, h);
      hdrs, refs := hdrs[h := hdrs[h].(ref := hdrs[h].ref + 1)], refs + multiset{h};
    }

    /** One reference less. */
    method DropRef(h: nat)
      requires Valid() && h in refs
      modifies `hdrs, `refs
      ensures Valid() && Same(disk, pages, old(hdrs), pages, hdrs)
      ensures h in old(hdrs) && old(hdrs)[h].ref > 0 && hdrs == Dropped(old(hdrs), h)
      ensures refs == old(refs) - multiset{h}
    {
      DropInv(disk, pages, hdrs, refs, h);
      hdrs, refs := hdrs[h := hdrs[h].(ref := hdrs[h].ref - 1)], refs - multiset{h};
    }

    /** The header of block `b` in the list of its page. */
    method FindBlk(p: nat, b: nat) returns (h: nat)
      requires ListsOk(pages, hdrs) && p in pages && |pages[p].headers| == PER_PAGE && p == PageOf(b)
      ensures h in hdrs && hdrs[h].blk == b
    {
      ghost var k := SlotOf(b);
      BlkSplit(b);
      assert PageOk(pages[p], p, hdrs);
      assert HeaderAt(hdrs, pages[p].headers[k], p, k);
      var n := 0;
      while true
        invariant 0 <= n <= k
        decreases k - n
      {
        h := pages[p].headers[n];
        assert HeaderAt(hdrs, h, p, n) && HeaderOk(hdrs[h], h, pages);
        if hdrs[h].blk == b { return; }
        n := n + 1;
      }
    }

    /** No header of the page has a reference. */
    method BlocksZeroRef(p: nat) returns (zero: bool)
      requires ListsOk(pages, hdrs) && RefsOk(hdrs, refs) && p in pages
      ensures zero <==> ZeroRef(pages[p].headers, refs)
    {
      assert PageOk(pages[p], p, hdrs);
      var n := 0;
      while n < |pages[p].headers|
        invariant 0 <= n <= |pages[p].headers| && ZeroRef(pages[p].headers[..n], refs)
      {
        assert HeaderAt(hdrs, pages[p].headers[n], p, n) && RefOk(hdrs, refs, pages[p].headers[n]);
        if hdrs[pages[p].headers[n]].ref > 0 { return false; }
        n := n + 1;
      }
      return true;
    }

    /** Free the headers of a page, unless the page is dirty. */
    method FreeBlkHeaders(p: nat)
      requires Valid() && p in pages && ZeroRef(pages[p].headers, refs)
      modifies `pages, `hdrs
      ensures Valid() && Same(disk, old(pages), old(hdrs), pages, hdrs)
      ensures hdrs == if old(pages)[p].dirty then old(hdrs) else Without(old(hdrs), old(pages)[p].headers)
    {
      if pages[p].dirty { return; }
      FreedInv(disk, pages, hdrs, refs, p);
      FreeEach(p);
    }

    /** Empty the list of a page. */
    method FreeEach(p: nat)
      requires ListsOk(pages, hdrs) && p in pages && !pages[p].dirty
      modifies `pages, `hdrs
      ensures pages == old(pages)[p := old(pages)[p].(headers := [])]
      ensures hdrs == Without(old(hdrs), old(pages)[p].headers)
    {
      ghost var hs := pages[p].headers;
      ghost var n := 0;
      while pages[p].headers != []
        invariant 0 <= n <= |hs| && p in pages && pages == old(pages)[p := old(pages)[p].(headers := hs[n..])]
        invariant hdrs == Without(old(hdrs), hs[..n])
        decreases |pages[p].headers|
      {
        var bh := pages[p].headers[0];
        CleanHeaders(old(pages), old(hdrs), p, bh);
        NotYetFreed(old(pages), old(hdrs), p, n);
        assert !hdrs[bh].dirty;
        WithoutStep(old(hdrs), hs, n);
        pages := pages[p := pages[p].(headers := pages[p].headers[1..])];
        hdrs := hdrs - {bh};
        n := n + 1;
      }
      assert hs[..n] == hs;
    }

    /** Give up a reference; the eight headers of a page go when none of them has one left and the page is clean. */
    method ReleaseBlk(h: nat)
      requires Valid() && h in refs
      modifies `pages, `hdrs, `refs
      ensures Valid() && Same(disk, old(pages), old(hdrs), pages, hdrs) && refs == old(refs) - multiset{h}
      ensures h in old(hdrs) && old(hdrs)[h].page in old(pages) && old(hdrs)[h].ref > 0
      ensures hdrs == Released(old(pages), old(hdrs), h, refs)
    {
      assert RefOk(hdrs, refs, h) && HeaderOk(hdrs[h], h, pages);
      var p := hdrs[h].page;
      DropRef(h);
      assert RefOk(hdrs, refs, h);
      if hdrs[h].ref == 0 {
        var zero := BlocksZeroRef(p);
        if zero { FreeBlkHeaders(p); }
      } else {
        StillHeld(pages, hdrs, refs, h);
      }
    }

    /** Valid but for block `b`, which its holder is changing. */
    ghost predicate Loose(b: nat)
      reads this
    {
      InvBut(disk, pages, hdrs, refs, b) && disk == Apply(disk0, trace)
    }

    /** The holder of a header reads its data. */
    method Load(h: nat) returns (data: Block)
      requires Valid() && h in hdrs && hdrs[h].blk < |disk|
      ensures data == View(disk, pages)[hdrs[h].blk]
    {
      assert HeaderOk(hdrs[h], h, pages) && PageOk(pages[hdrs[h].page], hdrs[h].page, hdrs);
      HeaderData(disk, pages, hdrs, h);
      data := pages[hdrs[h].page].data[hdrs[h].slot];
    }

    /** The holder of a header writes to its data. */
    method Store(h: nat, data: Block)
      requires Valid() && h in refs && h in hdrs && hdrs[h].blk < |disk|
      modifies `pages
      ensures Loose(hdrs[h].blk) && View(disk, pages) == old(View(disk, pages))[hdrs[h].blk := data]
    {
      StoreInv(disk, pages, hdrs, refs, h, data);
      pages := Stored(pages, hdrs[h].page, hdrs[h].slot, data);
    }

    /** Mark a block; a page is never marked clean here. */
    method SetBlkDirty(h: nat, dirty: bool)
      requires h in hdrs && hdrs[h].blk < |disk| && Loose(hdrs[h].blk)
      requires dirty || Cached(disk, pages, hdrs[h].blk) == disk[hdrs[h].blk]
      modifies `pages, `hdrs
      ensures Valid() && View(disk, pages) == old(View(disk, pages))
      ensures hdrs == old(hdrs)[h := old(hdrs)[h].(dirty := dirty)]
      ensures !dirty ==> pages == old(pages)
      ensures var p := old(hdrs)[h].page;
              dirty ==> p in old(pages) && pages == old(pages)[p := old(pages)[p].(dirty := true)]
    {
      MarkInv(disk, pages, hdrs, refs, h, dirty);
      hdrs := hdrs[h := hdrs[h].(dirty := dirty)];
      if dirty {
        var p := hdrs[h].page;
        pages := pages[p := pages[p].(dirty := true)];
      }
    }

    /** Write a block to the device; it is then clean. */
    method WriteBlk(h: nat)
      requires h in refs && h in hdrs && hdrs[h].blk < |disk| && Loose(hdrs[h].blk)
      modifies `disk, `pages, `hdrs, `trace
      ensures Valid() && View(disk, pages) == old(View(disk, pages))
      ensures var b := old(hdrs)[h].blk;
              && disk == old(disk)[b := View(disk, pages)[b]]
              && trace == old(trace) + [Write(b, View(disk, pages)[b])]
      ensures hdrs == old(hdrs)[h := old(hdrs)[h].(dirty := false)]
    {
      var x := hdrs[h];
      WriteInv(disk, pages, hdrs, refs, h);
      disk := disk[x.blk := pages[x.page].data[x.slot]];
      trace := trace + [Write(x.blk, pages[x.page].data[x.slot])];
      ApplyOne(disk0, old(trace), trace[|trace| - 1]);
      SetBlkDirty(h, false);
    }

    /** Change a block and mark it dirty. */
    method Change(h: nat, data: Block)
      requires Valid() && h in refs && h in hdrs && hdrs[h].blk < |disk|
      modifies `pages, `hdrs
      ensures Valid() && View(disk, pages) == old(View(disk, pages))[old(hdrs)[h].blk := data]
      ensures hdrs == old(hdrs)[h := old(hdrs)[h].(dirty := true)]
    {
      Store(h, data);
      SetBlkDirty(h, true);
    }

    /** Change the first bytes of a block and write it to the device. */
    method PutBytes(h: nat, prefix: seq<Byte>)
      requires Valid() && h in refs && h in hdrs && hdrs[h].blk < |disk| && |prefix| <= BLK_SIZE
      modifies `disk, `pages, `hdrs, `trace
      ensures Valid() && hdrs == old(hdrs)[h := old(hdrs)[h].(dirty := false)]
      ensures var b := old(hdrs)[h].blk;
              var data := Overlay(old(View(disk, pages))[b], prefix);
              && disk == old(disk)[b := data] && View(disk, pages) == old(View(disk, pages))[b := data]
              && trace == old(trace) + [Write(b, data)]
    {
      var x := Load(h);
      Store(h, Overlay(x, prefix));
      WriteBlk(h);
    }
  }
}
