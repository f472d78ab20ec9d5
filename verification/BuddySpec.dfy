/**
 The state of the buddy page allocator as values, the invariant that every
 operation keeps, and the effect of each elementary step on that invariant.

 A page array holds meaningful `order` and `refcnt` fields only at the first
 page of a block; the fields of interior pages are leftovers.  The ghost
 sequence `own` gives, for each page, the first page of the block it lies in.
 */
module BuddySpec {
  import opened Dyadic
  import opened Sequences

  const MAX_ORDER: nat := 10

  datatype Page = Page(order: int, refcnt: int)

  type PageMap = seq<Page>
  type Lists = seq<seq<nat>>

  // ----- Blocks -----

  /** `h` is the first page of a block. */
  ghost predicate Head(own: seq<nat>, h: int) {
    0 <= h < |own| && own[h] == h
  }

  /** Page `q` is inside the block that starts at `h`. */
  ghost predicate Covers(pm: PageMap, h: int, q: int) {
    0 <= h < |pm| && pm[h].order >= 0 && h <= q < h + Size(pm[h].order)
  }

  ghost predicate BlockOk(pm: PageMap, own: seq<nat>, h: int)
    requires 0 <= h < |pm|
  {
    && 0 <= pm[h].order <= MAX_ORDER
    && Aligned(h, pm[h].order)
    && h + Size(pm[h].order) <= |own|
  }

  /** The pages below `|own|` are exactly tiled by aligned power-of-two blocks. */
  ghost predicate Partition(pm: PageMap, own: seq<nat>) {
    && |own| <= |pm|
    && (forall h :: Head(own, h) ==> BlockOk(pm, own, h))
    && (forall q {:trigger own[q]} :: 0 <= q < |own| ==> Head(own, own[q]) && Covers(pm, own[q], q))
    && (forall h, q :: Head(own, h) && Covers(pm, h, q) ==> own[q] == h)
  }

  /** Reference counts are never negative, and only a block head has one above zero. */
  ghost predicate Refs(pm: PageMap, own: seq<nat>) {
    forall q {:trigger pm[q]} :: 0 <= q < |pm| ==> pm[q].refcnt >= 0 && (pm[q].refcnt > 0 ==> Head(own, q))
  }

  ghost predicate FreeHead(pm: PageMap, own: seq<nat>, h: int) {
    Head(own, h) && h < |pm| && pm[h].refcnt == 0
  }

  /** Page `q` belongs to a block that is not allocated. */
  ghost predicate FreePage(pm: PageMap, own: seq<nat>, q: int) {
    0 <= q < |own| && FreeHead(pm, own, own[q])
  }

  /**
   A free block is on the list of its own order, once, and on no other list.
   Block `x` is in transit between lists; -1 stands for no such block.
   */
  ghost predicate ListsOk(pm: PageMap, own: seq<nat>, fl: Lists, x: int) {
    && |fl| == MAX_ORDER + 1
    && (forall k, h: int :: 0 <= k <= MAX_ORDER ==>
         (h in fl[k] <==> FreeHead(pm, own, h) && pm[h].order == k && h != x))
    && (forall k :: 0 <= k <= MAX_ORDER ==> Distinct(fl[k]))
  }

  ghost predicate Inv(pm: PageMap, own: seq<nat>, fl: Lists, x: int) {
    && Partition(pm, own)
    && Refs(pm, own)
    && ListsOk(pm, own, fl, x)
    && (x == -1 || FreeHead(pm, own, x))
  }

  /** No two buddies of the same order below the maximum are both on a free list. */
  ghost predicate Canonical(fl: Lists)
    requires |fl| == MAX_ORDER + 1
  {
    forall k, h: nat :: 0 <= k < MAX_ORDER && h in fl[k] ==> Buddy(h, k) !in fl[k]
  }

  /** An aligned run of `Size(k)` free pages starting at `a`. */
  ghost predicate FreeRun(pm: PageMap, own: seq<nat>, a: nat, k: nat) {
    && Aligned(a, k)
    && a + Size(k) <= |own|
    && forall q :: a <= q < a + Size(k) ==> FreePage(pm, own, q)
  }

  // ----- Lists -----

  /** The list without the node for page `x`. */
  function Unlink(s: seq<nat>, x: nat): (r: seq<nat>)
    requires x in s
    ensures |r| == |s| - 1
  {
    if s[0] == x then s[1..] else [s[0]] + Unlink(s[1..], x)
  }

  /** The list without the nodes of the `n` pages from `lo` on. */
  function Without(s: seq<nat>, lo: nat, n: nat): (r: seq<nat>)
    ensures forall h :: h in r <==> h in s && !(lo <= h < lo + n)
  {
    if s == [] then []
    else (if lo <= s[0] < lo + n then [] else [s[0]]) + Without(s[1..], lo, n)
  }

  lemma {:induction false} UnlinkFacts(s: seq<nat>, x: nat)
    requires x in s && Distinct(s)
    ensures forall h :: h in Unlink(s, x) <==> h in s && h != x
    ensures Distinct(Unlink(s, x))
  {
    assert s == [s[0]] + s[1..];
    if s[0] != x {
      UnlinkFacts(s[1..], x);
      var r := Unlink(s[1..], x);
      assert s[0] !in r;
      assert forall i :: 1 <= i < |[s[0]] + r| ==> ([s[0]] + r)[i] == r[i - 1] && r[i - 1] in r;
    }
  }

  lemma {:induction false} UnlinkIsWithout(s: seq<nat>, x: nat, lo: nat, n: nat)
    requires x in s && Distinct(s) && lo <= x < lo + n
    requires forall i :: 0 <= i < |s| && lo <= s[i] < lo + n ==> s[i] == x
    ensures Unlink(s, x) == Without(s, lo, n)
  {
    assert s == [s[0]] + s[1..];
    if s[0] == x {
      assert x !in s[1..];
      WithoutNone(s[1..], lo, n);
    } else {
      UnlinkIsWithout(s[1..], x, lo, n);
    }
  }

  lemma {:induction false} WithoutNone(s: seq<nat>, lo: nat, n: nat)
    requires forall i :: 0 <= i < |s| ==> !(lo <= s[i] < lo + n)
    ensures Without(s, lo, n) == s
  {
    if s != [] {
      assert s == [s[0]] + s[1..];
      WithoutNone(s[1..], lo, n);
    }
  }

  lemma {:induction false} WithoutTwice(s: seq<nat>, lo: nat, n: nat, lo': nat, n': nat)
    requires lo' <= lo && lo + n <= lo' + n'
    ensures Without(Without(s, lo, n), lo', n') == Without(s, lo', n')
  {
    if s != [] {
      WithoutTwice(s[1..], lo, n, lo', n');
      var t := Without(s[1..], lo, n);
      if lo <= s[0] < lo + n {
        assert Without(s, lo, n) == t;
      } else {
        assert ([s[0]] + t)[1..] == t;
      }
    }
  }

  lemma DistinctAppend(s: seq<nat>, x: nat)
    requires Distinct(s) && x !in s
    ensures Distinct(s + [x])
  {
  }

  // ----- Facts about a partition -----

  /**
   The page where the buddy of a block starts is itself the first page of a
   block no larger than this one, so its `order` and `refcnt` are never the
   leftovers of an interior page.
   */
  lemma BuddyIsHead(pm: PageMap, own: seq<nat>, p: nat)
    requires Partition(pm, own) && Head(own, p)
    requires 0 <= Buddy(p, pm[p].order) < |own|
    ensures Head(own, Buddy(p, pm[p].order))
    ensures pm[Buddy(p, pm[p].order)].order <= pm[p].order
  {
    var k := pm[p].order;
    var b := Buddy(p, k);
    BuddyFacts(p, k);
    var h := own[b];
    var j := pm[h].order;
    if j > k {
      // The larger block would be aligned at the parent and swallow p as well.
      var low := if p < b then p else b;
      SizeMonotone(k + 1, j);
      Nested(low, k + 1, h, j);
      assert Covers(pm, h, p);
      assert false;
    }
    AlignedWeaken(b, j, k);
    Nested(h, j, b, k);
    assert h == b;
  }

  /** Blocks with different heads have no page in common. */
  lemma BlocksDisjoint(pm: PageMap, own: seq<nat>, g: nat, h: nat)
    requires Partition(pm, own) && Head(own, g) && Head(own, h) && g != h
    ensures g + Size(pm[g].order) <= h || h + Size(pm[h].order) <= g
  {
  }

  // ----- Elementary steps -----

  /** `own` after the `n` pages from `lo` on have become one block. */
  ghost function Claim(own: seq<nat>, lo: nat, n: nat): (r: seq<nat>)
    requires lo + n <= |own|
    ensures |r| == |own|
    ensures forall q :: 0 <= q < |own| ==> r[q] == if lo <= q < lo + n then lo else own[q]
  {
    seq(|own|, q requires 0 <= q < |own| => if lo <= q < lo + n then lo else own[q])
  }

  /** Taking a block off its list puts it in transit. */
  lemma TakeKeeps(pm: PageMap, own: seq<nat>, fl: Lists, k: nat, b: nat)
    requires Inv(pm, own, fl, -1) && k <= MAX_ORDER && b in fl[k]
    ensures Inv(pm, own, fl[k := Unlink(fl[k], b)], b)
    ensures Canonical(fl) ==> Canonical(fl[k := Unlink(fl[k], b)])
  {
    UnlinkFacts(fl[k], b);
  }

  /** Putting the block in transit at the end of its list. */
  lemma PutKeeps(pm: PageMap, own: seq<nat>, fl: Lists, p: nat)
    requires Inv(pm, own, fl, p)
    ensures var k := pm[p].order;
            0 <= k <= MAX_ORDER && Inv(pm, own, fl[k := fl[k] + [p]], -1)
    ensures var k := pm[p].order;
            Canonical(fl) && (k < MAX_ORDER ==> Buddy(p, k) !in fl[k]) ==>
              Canonical(fl[k := fl[k] + [p]])
  {
    assert BlockOk(pm, own, p);
    var k := pm[p].order;
    DistinctAppend(fl[k], p);
    var fl' := fl[k := fl[k] + [p]];
    if Canonical(fl) && (k < MAX_ORDER ==> Buddy(p, k) !in fl[k]) {
      forall j, h: nat | 0 <= j < MAX_ORDER && h in fl'[j]
        ensures Buddy(h, j) !in fl'[j]
      {
        assert h in fl[j] || (h == p && j == k);
        assert FreeHead(pm, own, h) && pm[h].order == j;
        assert BlockOk(pm, own, h);
        BuddyFacts(h, j);
      }
    }
  }

  /** The page map after halving the block at `p`; `Half` is its upper half. */
  ghost function Half(pm: PageMap, p: nat): (b: nat)
    requires p < |pm| && pm[p].order >= 1
  {
    p + Size(pm[p].order - 1)
  }

  ghost function SplitPages(pm: PageMap, p: nat): (r: PageMap)
    requires p < |pm| && pm[p].order >= 1 && Half(pm, p) < |pm|
    ensures |r| == |pm|
  {
    var k := pm[p].order - 1;
    pm[p := pm[p].(order := k)][Half(pm, p) := Page(k, 0)]
  }

  ghost function SplitOwn(pm: PageMap, own: seq<nat>, p: nat): (r: seq<nat>)
    requires p < |pm| && pm[p].order >= 1 && Half(pm, p) + Size(pm[p].order - 1) <= |own|
    ensures |r| == |own|
  {
    Claim(own, Half(pm, p), Size(pm[p].order - 1))
  }

  /** A page lies in the block that its owner says. */
  lemma CoversOwn(pm: PageMap, own: seq<nat>, h: int, q: int)
    requires Partition(pm, own) && Head(own, h) && 0 <= q < |own|
    ensures pm[h].order >= 0 && (h <= q < h + Size(pm[h].order) <==> own[q] == h)
  {
    assert BlockOk(pm, own, h);
    assert Covers(pm, own[q], q);
    if own[q] != h { assert !Covers(pm, h, q); }
  }

  lemma SplitHeads(pm: PageMap, own: seq<nat>, p: nat, h: int)
    requires Partition(pm, own) && Head(own, p) && pm[p].order >= 1
    ensures BlockOk(pm, own, p) && Half(pm, p) + Size(pm[p].order - 1) <= |own|
    ensures !Head(own, Half(pm, p))
    ensures Head(SplitOwn(pm, own, p), h) <==> Head(own, h) || h == Half(pm, p)
  {
    var b := Half(pm, p);
    assert BlockOk(pm, own, p);
    CoversOwn(pm, own, p, b);
    if 0 <= h < |own| { CoversOwn(pm, own, p, h); }
  }

  lemma SplitBlocks(pm: PageMap, own: seq<nat>, p: nat, h: int)
    requires Partition(pm, own) && Head(own, p) && pm[p].order >= 1 && BlockOk(pm, own, p)
    requires Half(pm, p) < |pm| && (Head(own, h) || h == Half(pm, p))
    ensures BlockOk(SplitPages(pm, p), own, h)
  {
    HalvesAligned(p, pm[p].order - 1);
    if h != p && h != Half(pm, p) { assert BlockOk(pm, own, h); }
  }

  lemma SplitCovered(pm: PageMap, own: seq<nat>, p: nat, q: int)
    requires Partition(pm, own) && Head(own, p) && pm[p].order >= 1 && 0 <= q < |own|
    requires Half(pm, p) + Size(pm[p].order - 1) <= |own|
    ensures Head(SplitOwn(pm, own, p), SplitOwn(pm, own, p)[q])
    ensures Covers(SplitPages(pm, p), SplitOwn(pm, own, p)[q], q)
  {
    assert Head(own, own[q]) && Covers(pm, own[q], q);
    SplitHeads(pm, own, p, own[q]);
  }

  lemma SplitUnique(pm: PageMap, own: seq<nat>, p: nat, h: int, q: int)
    requires Partition(pm, own) && Head(own, p) && pm[p].order >= 1
    requires Half(pm, p) + Size(pm[p].order - 1) <= |own|
    requires Head(SplitOwn(pm, own, p), h) && Covers(SplitPages(pm, p), h, q)
    ensures q < |own| && SplitOwn(pm, own, p)[q] == h
  {
    SplitHeads(pm, own, p, h);
    if h != Half(pm, p) {
      assert Covers(pm, h, q);
      if Covers(pm, p, q) {
        assert own[q] == p == h;
      }
    }
  }

  lemma SplitPartition(pm: PageMap, own: seq<nat>, p: nat)
    requires Partition(pm, own) && Head(own, p) && pm[p].order >= 1
    ensures Half(pm, p) + Size(pm[p].order - 1) <= |own|
    ensures Partition(SplitPages(pm, p), SplitOwn(pm, own, p))
  {
    SplitHeads(pm, own, p, p);
    var pm', own' := SplitPages(pm, p), SplitOwn(pm, own, p);
    forall h | Head(own', h)
      ensures BlockOk(pm', own', h)
    {
      SplitHeads(pm, own, p, h);
      SplitBlocks(pm, own, p, h);
    }
    forall q | 0 <= q < |own'|
      ensures Head(own', own'[q]) && Covers(pm', own'[q], q)
    {
      SplitCovered(pm, own, p, q);
    }
    forall h, q | Head(own', h) && Covers(pm', h, q)
      ensures own'[q] == h
    {
      SplitUnique(pm, own, p, h, q);
    }
  }

  /** Halving the block in transit; the upper half goes on the next lower list. */
  lemma SplitKeeps(pm: PageMap, own: seq<nat>, fl: Lists, p: nat)
    requires Inv(pm, own, fl, p) && pm[p].order >= 1
    ensures var k := pm[p].order - 1;
            && 0 <= k < MAX_ORDER && Half(pm, p) + Size(k) <= |own|
            && Inv(SplitPages(pm, p), SplitOwn(pm, own, p), fl[k := fl[k] + [Half(pm, p)]], p)
            && (Canonical(fl) ==> Canonical(fl[k := fl[k] + [Half(pm, p)]]))
  {
    SplitPartition(pm, own, p);
    SplitHeads(pm, own, p, p);
    SplitLists(pm, own, fl, p);
    SplitRefs(pm, own, fl, p);
    if Canonical(fl) {
      SplitCanonical(pm, own, fl, p);
    }
  }

  lemma SplitRefs(pm: PageMap, own: seq<nat>, fl: Lists, p: nat)
    requires Inv(pm, own, fl, p) && pm[p].order >= 1
    requires BlockOk(pm, own, p) && Half(pm, p) + Size(pm[p].order - 1) <= |own|
    ensures Refs(SplitPages(pm, p), SplitOwn(pm, own, p))
  {
    var pm' := SplitPages(pm, p);
    forall q {:trigger pm'[q]} | 0 <= q < |pm'|
      ensures pm'[q].refcnt >= 0 && (pm'[q].refcnt > 0 ==> Head(SplitOwn(pm, own, p), q))
    {
      assert pm'[q].refcnt == pm[q].refcnt || q == Half(pm, p);
      SplitHeads(pm, own, p, q);
    }
  }

  lemma SplitListed(pm: PageMap, own: seq<nat>, fl: Lists, p: nat, j: int, h: int)
    requires Inv(pm, own, fl, p) && pm[p].order >= 1 && 0 <= j <= MAX_ORDER
    requires BlockOk(pm, own, p) && Half(pm, p) + Size(pm[p].order - 1) <= |own|
    ensures var k, pm' := pm[p].order - 1, SplitPages(pm, p);
            h in fl[k := fl[k] + [Half(pm, p)]][j] <==>
              FreeHead(pm', SplitOwn(pm, own, p), h) && pm'[h].order == j && h != p
  {
    SplitHeads(pm, own, p, h);
    assert h in fl[j] <==> FreeHead(pm, own, h) && pm[h].order == j && h != p;
    assert Head(own, h) && h != p ==> SplitPages(pm, p)[h] == pm[h];
  }

  lemma SplitDistinct(pm: PageMap, own: seq<nat>, fl: Lists, p: nat)
    requires Inv(pm, own, fl, p) && pm[p].order >= 1
    requires BlockOk(pm, own, p) && Half(pm, p) + Size(pm[p].order - 1) <= |own|
    ensures Distinct(fl[pm[p].order - 1] + [Half(pm, p)])
  {
    var k, b := pm[p].order - 1, Half(pm, p);
    SplitHeads(pm, own, p, p);
    assert b !in fl[k] by { assert !FreeHead(pm, own, b); }
    DistinctAppend(fl[k], b);
  }

  lemma SplitLists(pm: PageMap, own: seq<nat>, fl: Lists, p: nat)
    requires Inv(pm, own, fl, p) && pm[p].order >= 1
    requires BlockOk(pm, own, p) && Half(pm, p) + Size(pm[p].order - 1) <= |own|
    ensures var k := pm[p].order - 1;
            ListsOk(SplitPages(pm, p), SplitOwn(pm, own, p), fl[k := fl[k] + [Half(pm, p)]], p)
  {
    var k, b := pm[p].order - 1, Half(pm, p);
    var pm', own' := SplitPages(pm, p), SplitOwn(pm, own, p);
    SplitDistinct(pm, own, fl, p);
    var fl' := fl[k := fl[k] + [b]];
    forall j, h: int | 0 <= j <= MAX_ORDER
      ensures h in fl'[j] <==> FreeHead(pm', own', h) && pm'[h].order == j && h != p
    {
      SplitListed(pm, own, fl, p, j, h);
    }
  }

  lemma SplitCanonical(pm: PageMap, own: seq<nat>, fl: Lists, p: nat)
    requires Inv(pm, own, fl, p) && pm[p].order >= 1 && Canonical(fl)
    ensures var k := pm[p].order - 1;
            BlockOk(pm, own, p) && Canonical(fl[k := fl[k] + [Half(pm, p)]])
  {
    assert BlockOk(pm, own, p);
    var k, b := pm[p].order - 1, Half(pm, p);
    var fl' := fl[k := fl[k] + [b]];
    HalvesAligned(p, k);
    forall j, h: nat | 0 <= j < MAX_ORDER && h in fl'[j]
      ensures Buddy(h, j) !in fl'[j]
    {
      if j == k && h in fl[k] {
        assert FreeHead(pm, own, h) && BlockOk(pm, own, h);
        BuddyFacts(h, k);
      }
    }
  }

  /** The lower of a block and its buddy, and the page map after joining them. */
  ghost function Low(pm: PageMap, p: nat): (low: nat)
    requires p < |pm| && 0 <= pm[p].order && 0 <= Buddy(p, pm[p].order)
  {
    if p < Buddy(p, pm[p].order) then p else Buddy(p, pm[p].order)
  }

  ghost function MergePages(pm: PageMap, p: nat): (r: PageMap)
    requires p < |pm| && 0 <= pm[p].order && 0 <= Buddy(p, pm[p].order)
    ensures |r| == |pm|
  {
    pm[Low(pm, p) := pm[Low(pm, p)].(order := pm[p].order + 1)]
  }

  ghost function MergeOwn(pm: PageMap, own: seq<nat>, p: nat): (r: seq<nat>)
    requires p < |pm| && 0 <= pm[p].order && 0 <= Buddy(p, pm[p].order)
    requires Low(pm, p) + Size(pm[p].order + 1) <= |own|
    ensures |r| == |own|
  {
    Claim(own, Low(pm, p), Size(pm[p].order + 1))
  }

  /** `p` and its buddy both start blocks of the same order, below the maximum. */
  ghost predicate Mergeable(pm: PageMap, own: seq<nat>, p: int) {
    && Head(own, p) && p < |pm| && 0 <= pm[p].order < MAX_ORDER
    && Head(own, Buddy(p, pm[p].order)) && Buddy(p, pm[p].order) < |pm|
    && pm[Buddy(p, pm[p].order)].order == pm[p].order
  }

  lemma MergeShape(pm: PageMap, own: seq<nat>, p: nat)
    requires Partition(pm, own) && Mergeable(pm, own, p)
    ensures Low(pm, p) + Size(pm[p].order + 1) <= |own| && Aligned(Low(pm, p), pm[p].order + 1)
    ensures Low(pm, p) == p || Low(pm, p) + Size(pm[p].order) == p
    ensures Head(own, Low(pm, p)) && Head(own, Low(pm, p) + Size(pm[p].order))
    ensures pm[Low(pm, p)].order == pm[Low(pm, p) + Size(pm[p].order)].order == pm[p].order
  {
    assert BlockOk(pm, own, p) && BlockOk(pm, own, Buddy(p, pm[p].order));
    BuddyFacts(p, pm[p].order);
  }

  lemma MergeRange(pm: PageMap, own: seq<nat>, p: nat, q: int)
    requires Partition(pm, own) && Mergeable(pm, own, p) && 0 <= q < |own|
    ensures Low(pm, p) <= q < Low(pm, p) + Size(pm[p].order + 1) <==>
              own[q] == Low(pm, p) || own[q] == Low(pm, p) + Size(pm[p].order)
  {
    MergeShape(pm, own, p);
    CoversOwn(pm, own, Low(pm, p), q);
    CoversOwn(pm, own, Low(pm, p) + Size(pm[p].order), q);
  }

  lemma MergeHeads(pm: PageMap, own: seq<nat>, p: nat, h: int)
    requires Partition(pm, own) && Mergeable(pm, own, p)
    ensures Low(pm, p) + Size(pm[p].order + 1) <= |own|
    ensures Head(MergeOwn(pm, own, p), h) <==> Head(own, h) && h != Low(pm, p) + Size(pm[p].order)
  {
    MergeShape(pm, own, p);
    if 0 <= h < |own| { MergeRange(pm, own, p, h); }
  }

  lemma MergeBlocks(pm: PageMap, own: seq<nat>, p: nat, h: int)
    requires Partition(pm, own) && Mergeable(pm, own, p) && Head(own, h)
    requires h != Low(pm, p) + Size(pm[p].order)
    ensures BlockOk(MergePages(pm, p), own, h)
  {
    MergeShape(pm, own, p);
    assert BlockOk(pm, own, h);
  }

  /** A page is in the joined block exactly when it was in one of the two halves. */
  lemma MergePartition(pm: PageMap, own: seq<nat>, p: nat)
    requires Partition(pm, own) && Mergeable(pm, own, p)
    ensures Low(pm, p) + Size(pm[p].order + 1) <= |own|
    ensures Partition(MergePages(pm, p), MergeOwn(pm, own, p))
  {
    MergeShape(pm, own, p);
    var pm', own' := MergePages(pm, p), MergeOwn(pm, own, p);
    forall h | Head(own', h)
      ensures BlockOk(pm', own', h)
    {
      MergeHeads(pm, own, p, h);
      MergeBlocks(pm, own, p, h);
    }
    forall q | 0 <= q < |own'|
      ensures Head(own', own'[q]) && Covers(pm', own'[q], q)
    {
      MergeCovered(pm, own, p, q);
    }
    forall h, q | Head(own', h) && Covers(pm', h, q)
      ensures own'[q] == h
    {
      MergeUnique(pm, own, p, h, q);
    }
  }

  lemma MergeCovered(pm: PageMap, own: seq<nat>, p: nat, q: int)
    requires Partition(pm, own) && Mergeable(pm, own, p) && 0 <= q < |own|
    ensures Low(pm, p) + Size(pm[p].order + 1) <= |own|
    ensures Head(MergeOwn(pm, own, p), MergeOwn(pm, own, p)[q])
    ensures Covers(MergePages(pm, p), MergeOwn(pm, own, p)[q], q)
  {
    MergeShape(pm, own, p);
    MergeHeads(pm, own, p, Low(pm, p));
    MergeHeads(pm, own, p, own[q]);
    MergeRange(pm, own, p, q);
    assert Covers(pm, own[q], q);
  }

  lemma MergeUnique(pm: PageMap, own: seq<nat>, p: nat, h: int, q: int)
    requires Partition(pm, own) && Mergeable(pm, own, p)
    requires Low(pm, p) + Size(pm[p].order + 1) <= |own|
    requires Head(MergeOwn(pm, own, p), h) && Covers(MergePages(pm, p), h, q)
    ensures q < |own| && MergeOwn(pm, own, p)[q] == h
  {
    MergeShape(pm, own, p);
    MergeHeads(pm, own, p, h);
    if h != Low(pm, p) {
      assert Covers(pm, h, q);
      assert own[q] == h;
      MergeRange(pm, own, p, q);
    }
  }

  /** Joining the block in transit with its buddy, just taken off the list. */
  lemma MergeKeeps(pm: PageMap, own: seq<nat>, fl: Lists, p: nat)
    requires Inv(pm, own, fl, p) && Mergeable(pm, own, p) && pm[Buddy(p, pm[p].order)].refcnt == 0
    ensures var k := pm[p].order;
            && Buddy(p, k) in fl[k]
            && Low(pm, p) + Size(k + 1) <= |own|
            && Inv(MergePages(pm, p), MergeOwn(pm, own, p), fl[k := Unlink(fl[k], Buddy(p, k))], Low(pm, p))
            && (Canonical(fl) ==> Canonical(fl[k := Unlink(fl[k], Buddy(p, k))]))
  {
    var k := pm[p].order;
    var b := Buddy(p, k);
    BuddyFacts(p, k);
    assert b in fl[k] by { assert FreeHead(pm, own, b); }
    MergePartition(pm, own, p);
    MergeLists(pm, own, fl, p);
    MergeRefs(pm, own, fl, p);
    UnlinkFacts(fl[k], b);
  }

  lemma MergeRefs(pm: PageMap, own: seq<nat>, fl: Lists, p: nat)
    requires Inv(pm, own, fl, p) && Mergeable(pm, own, p) && pm[Buddy(p, pm[p].order)].refcnt == 0
    requires Low(pm, p) + Size(pm[p].order + 1) <= |own|
    ensures Refs(MergePages(pm, p), MergeOwn(pm, own, p))
    ensures FreeHead(MergePages(pm, p), MergeOwn(pm, own, p), Low(pm, p))
  {
    MergeShape(pm, own, p);
    BuddyFacts(p, pm[p].order);
    var pm' := MergePages(pm, p);
    forall q {:trigger pm'[q]} | 0 <= q < |pm'|
      ensures pm'[q].refcnt >= 0 && (pm'[q].refcnt > 0 ==> Head(MergeOwn(pm, own, p), q))
    {
      assert pm'[q].refcnt == pm[q].refcnt;
      MergeHeads(pm, own, p, q);
    }
    MergeHeads(pm, own, p, Low(pm, p));
  }

  lemma MergeListed(pm: PageMap, own: seq<nat>, fl: Lists, p: nat, j: int, h: int)
    requires Inv(pm, own, fl, p) && Mergeable(pm, own, p) && 0 <= j <= MAX_ORDER
    requires Buddy(p, pm[p].order) in fl[pm[p].order]
    requires Low(pm, p) + Size(pm[p].order + 1) <= |own|
    ensures var k, pm' := pm[p].order, MergePages(pm, p);
            h in fl[k := Unlink(fl[k], Buddy(p, k))][j] <==>
              FreeHead(pm', MergeOwn(pm, own, p), h) && pm'[h].order == j && h != Low(pm, p)
  {
    MergeShape(pm, own, p);
    BuddyFacts(p, pm[p].order);
    UnlinkFacts(fl[pm[p].order], Buddy(p, pm[p].order));
    MergeHeads(pm, own, p, h);
    assert h in fl[j] <==> FreeHead(pm, own, h) && pm[h].order == j && h != p;
    assert Head(own, h) && h != Low(pm, p) ==> MergePages(pm, p)[h] == pm[h];
  }

  lemma MergeLists(pm: PageMap, own: seq<nat>, fl: Lists, p: nat)
    requires Inv(pm, own, fl, p) && Mergeable(pm, own, p) && pm[Buddy(p, pm[p].order)].refcnt == 0
    requires Buddy(p, pm[p].order) in fl[pm[p].order]
    requires Low(pm, p) + Size(pm[p].order + 1) <= |own|
    ensures var k := pm[p].order;
            ListsOk(MergePages(pm, p), MergeOwn(pm, own, p), fl[k := Unlink(fl[k], Buddy(p, k))], Low(pm, p))
  {
    MergeShape(pm, own, p);
    var k := pm[p].order;
    UnlinkFacts(fl[k], Buddy(p, k));
    BuddyFacts(p, k);
    var own' := MergeOwn(pm, own, p);
    var fl' := fl[k := Unlink(fl[k], Buddy(p, k))];
    forall j, h: int | 0 <= j <= MAX_ORDER
      ensures h in fl'[j] <==>
              FreeHead(MergePages(pm, p), own', h) && MergePages(pm, p)[h].order == j && h != Low(pm, p)
    {
      MergeListed(pm, own, fl, p, j, h);
    }
  }

  /** Marking the block in transit as allocated. */
  lemma GrantKeeps(pm: PageMap, own: seq<nat>, fl: Lists, p: nat, c: int)
    requires Inv(pm, own, fl, p) && c > 0
    ensures Inv(pm[p := pm[p].(refcnt := c)], own, fl, -1)
  {
    var pm' := pm[p := pm[p].(refcnt := c)];
    assert forall h :: 0 <= h < |pm| ==> pm'[h].order == pm[h].order;
    assert forall h, q :: Covers(pm', h, q) <==> Covers(pm, h, q);
    assert forall h :: Head(own, h) ==> (BlockOk(pm', own, h) <==> BlockOk(pm, own, h));
  }

  /** Changing the count of an allocated block; at zero the block is in transit. */
  lemma CountKeeps(pm: PageMap, own: seq<nat>, fl: Lists, p: nat, c: nat)
    requires Inv(pm, own, fl, -1) && p < |pm| && pm[p].refcnt > 0
    ensures Inv(pm[p := pm[p].(refcnt := c)], own, fl, if c == 0 then p else -1)
  {
    var pm' := pm[p := pm[p].(refcnt := c)];
    assert forall h :: 0 <= h < |pm| ==> pm'[h].order == pm[h].order;
    assert forall h, q :: Covers(pm', h, q) <==> Covers(pm, h, q);
    assert forall h :: Head(own, h) ==> (BlockOk(pm', own, h) <==> BlockOk(pm, own, h));
  }

  /** A new block of free pages right after the pages tiled so far. */
  lemma ExtendKeeps(pm: PageMap, own: seq<nat>, fl: Lists, k: nat, c: nat)
    requires Inv(pm, own, fl, -1) && k <= MAX_ORDER
    requires Aligned(|own|, k) && |own| + Size(k) <= |pm|
    ensures var p := |own|;
            var own' := own + seq(Size(k), i => p);
            Inv(pm[p := Page(k, c)], own', fl, if c == 0 then p else -1)
  {
    var p := |own|;
    var own' := own + seq(Size(k), i => p);
    var pm' := pm[p := Page(k, c)];
    assert forall h :: Head(own', h) <==> Head(own, h) || h == p;
    forall h | Head(own', h)
      ensures BlockOk(pm', own', h)
    {
      assert h == p || BlockOk(pm, own, h);
    }
    forall q | 0 <= q < |own'|
      ensures Head(own', own'[q]) && Covers(pm', own'[q], q)
    {
      if q < p {
        assert Head(own, own[q]) && Covers(pm, own[q], q);
      }
    }
    forall h, q | Head(own', h) && Covers(pm', h, q)
      ensures own'[q] == h
    {
      if h != p {
        assert BlockOk(pm, own, h) && Covers(pm, h, q);
      }
    }
  }

  // ----- What the steps leave alone -----

  /** The same pages are free, and allocated blocks have not changed at all. */
  ghost predicate SameUse(pm: PageMap, own: seq<nat>, pm': PageMap, own': seq<nat>) {
    && |pm'| == |pm| && |own'| == |own|
    && (forall q :: FreePage(pm', own', q) <==> FreePage(pm, own, q))
    && (forall q :: 0 <= q < |own| && !FreePage(pm, own, q) ==> own'[q] == own[q])
    && (forall q :: 0 <= q < |pm| && pm[q].refcnt > 0 ==> pm'[q] == pm[q])
  }

  lemma SameUseTrans(pm: PageMap, own: seq<nat>, pm1: PageMap, own1: seq<nat>, pm2: PageMap, own2: seq<nat>)
    requires SameUse(pm, own, pm1, own1) && SameUse(pm1, own1, pm2, own2)
    ensures SameUse(pm, own, pm2, own2)
  {
  }

  lemma SplitSamePage(pm: PageMap, own: seq<nat>, p: nat, q: int)
    requires Partition(pm, own) && FreeHead(pm, own, p) && pm[p].order >= 1
    requires Half(pm, p) + Size(pm[p].order - 1) <= |own| && 0 <= q < |own|
    ensures var pm', own' := SplitPages(pm, p), SplitOwn(pm, own, p);
            && (FreePage(pm', own', q) <==> FreePage(pm, own, q))
            && (!FreePage(pm, own, q) ==> own'[q] == own[q])
  {
    var own' := SplitOwn(pm, own, p);
    CoversOwn(pm, own, p, q);
    SplitHeads(pm, own, p, own'[q]);
    assert Head(own, own[q]);
  }

  lemma SplitSameUse(pm: PageMap, own: seq<nat>, fl: Lists, p: nat)
    requires Inv(pm, own, fl, p) && pm[p].order >= 1
    ensures Half(pm, p) + Size(pm[p].order - 1) <= |own|
    ensures SameUse(pm, own, SplitPages(pm, p), SplitOwn(pm, own, p))
  {
    SplitHeads(pm, own, p, p);
    var pm', own' := SplitPages(pm, p), SplitOwn(pm, own, p);
    forall q | 0 <= q < |own|
      ensures FreePage(pm', own', q) <==> FreePage(pm, own, q)
      ensures !FreePage(pm, own, q) ==> own'[q] == own[q]
    {
      SplitSamePage(pm, own, p, q);
    }
  }

  lemma MergeSamePage(pm: PageMap, own: seq<nat>, p: nat, q: int)
    requires Partition(pm, own) && Mergeable(pm, own, p) && pm[p].refcnt == 0 && pm[Buddy(p, pm[p].order)].refcnt == 0
    requires Low(pm, p) + Size(pm[p].order + 1) <= |own| && 0 <= q < |own|
    ensures var pm', own' := MergePages(pm, p), MergeOwn(pm, own, p);
            && (FreePage(pm', own', q) <==> FreePage(pm, own, q))
            && (!FreePage(pm, own, q) ==> own'[q] == own[q])
  {
    MergeShape(pm, own, p);
    BuddyFacts(p, pm[p].order);
    MergeRange(pm, own, p, q);
    MergeHeads(pm, own, p, if own[q] == Low(pm, p) + Size(pm[p].order) then Low(pm, p) else own[q]);
    assert Head(own, own[q]);
  }

  lemma MergeSameUse(pm: PageMap, own: seq<nat>, fl: Lists, p: nat)
    requires Inv(pm, own, fl, p) && Mergeable(pm, own, p) && pm[Buddy(p, pm[p].order)].refcnt == 0
    ensures Low(pm, p) + Size(pm[p].order + 1) <= |own|
    ensures SameUse(pm, own, MergePages(pm, p), MergeOwn(pm, own, p))
  {
    MergeShape(pm, own, p);
    BuddyFacts(p, pm[p].order);
    var pm', own' := MergePages(pm, p), MergeOwn(pm, own, p);
    forall q | 0 <= q < |own|
      ensures FreePage(pm', own', q) <==> FreePage(pm, own, q)
      ensures !FreePage(pm, own, q) ==> own'[q] == own[q]
    {
      MergeSamePage(pm, own, p, q);
    }
  }

  /** Before joining, the buddy is the only listed block inside the joined one. */
  lemma MergeUnlinks(pm: PageMap, own: seq<nat>, fl: Lists, p: nat, i: nat)
    requires Inv(pm, own, fl, p) && Mergeable(pm, own, p) && i <= MAX_ORDER
    requires Buddy(p, pm[p].order) in fl[pm[p].order]
    ensures var k := pm[p].order;
            fl[k := Unlink(fl[k], Buddy(p, k))][i] == Without(fl[i], Low(pm, p), Size(k + 1))
  {
    MergeShape(pm, own, p);
    var k := pm[p].order;
    var b, low := Buddy(p, k), Low(pm, p);
    BuddyFacts(p, k);
    MergeHeads(pm, own, p, p);
    forall x | 0 <= x < |fl[i]| && low <= fl[i][x] < low + Size(k + 1)
      ensures fl[i][x] == b && i == k
    {
      var h := fl[i][x];
      assert h in fl[i] && FreeHead(pm, own, h);
      MergeRange(pm, own, p, h);
    }
    if i == k {
      UnlinkIsWithout(fl[k], b, low, Size(k + 1));
    } else {
      WithoutNone(fl[i], low, Size(k + 1));
    }
  }

  /** No listed block lies inside the block in transit. */
  lemma NoneInTransit(pm: PageMap, own: seq<nat>, fl: Lists, p: nat, i: nat)
    requires Inv(pm, own, fl, p) && i <= MAX_ORDER
    ensures pm[p].order >= 0 && Without(fl[i], p, Size(pm[p].order)) == fl[i]
  {
    assert BlockOk(pm, own, p);
    forall x | 0 <= x < |fl[i]|
      ensures !(p <= fl[i][x] < p + Size(pm[p].order))
    {
      var h := fl[i][x];
      assert h in fl[i] && FreeHead(pm, own, h) && h != p;
      BlocksDisjoint(pm, own, p, h);
    }
    WithoutNone(fl[i], p, Size(pm[p].order));
  }
}
