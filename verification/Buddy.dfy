/**
 The binary buddy allocator of kernel/mm/pmem.c.  Physical addresses are page
 numbers here (an address is the number times the page size), and the pages of
 a free list are kept in a sequence from the first node to the last.
 */
module Buddy {
  import opened Wrappers
  import opened Dyadic
  import opened BuddySpec
  import opened BuddyCanonical

  /** `k` is the largest order that starts at page `h` and does not pass `end`. */
  ghost predicate Greedy(h: nat, k: nat, end: nat) {
    && Fits(h, k, end)
    && forall j :: k < j <= MAX_ORDER ==> !Fits(h, j, end)
  }

  ghost predicate Fits(h: nat, k: nat, end: nat) {
    Aligned(h, k) && h + Size(k) <= end
  }

  method GetMaxPageOrder(start: nat, end: nat) returns (order: nat)
    requires start < end
    ensures order <= MAX_ORDER && Greedy(start, order, end)
  {
    order := MAX_ORDER;
    while order > 0
      invariant order <= MAX_ORDER
      invariant forall j :: order < j <= MAX_ORDER ==> !Fits(start, j, end)
    {
      AlignedIsMod(start, order);
      if start % Size(order) == 0 && start + Size(order) <= end {
        return;
      }
      order := order - 1;
    }
  }

  method GetMinPageOrder(n: nat) returns (order: nat)
    requires 0 < n <= Size(MAX_ORDER)
    ensures order <= MAX_ORDER && LeastOrder(n, order)
  {
    order := 0;
    while Size(order) < n
      invariant order <= MAX_ORDER && (order > 0 ==> Size(order - 1) < n)
      decreases MAX_ORDER - order
    {
      order := order + 1;
    }
  }

  /**
   Where a search from order `k` found its block: the first block of the first
   non-empty list `j`, and each list from `t` up to `j` gained one upper half.
   */
  ghost predicate TakenFrom(fl: Lists, fl': Lists, p: nat, k: nat, t: nat, j: nat) {
    && |fl| == |fl'| == MAX_ORDER + 1
    && t <= k <= j <= MAX_ORDER
    && (forall i :: k <= i < j ==> fl[i] == [])
    && fl[j] != [] && p == fl[j][0]
    && (forall i {:trigger TakenAt(fl, fl', p, t, j, i)} :: 0 <= i <= MAX_ORDER ==> TakenAt(fl, fl', p, t, j, i))
  }

  ghost predicate TakenAt(fl: Lists, fl': Lists, p: nat, t: nat, j: nat, i: int)
    requires |fl| == |fl'| && 0 <= i < |fl| && j < |fl| && fl[j] != []
  {
    fl'[i] == if t <= i < j then fl[i] + [p + Size(i)] else if i == j then fl[j][1..] else fl[i]
  }

  /** The outcome of a search from order `k`: block `p`, now of order `t`, on no list. */
  ghost predicate Found(pm: PageMap, own: seq<nat>, fl: Lists, pm': PageMap, own': seq<nat>, fl': Lists,
                        p: nat, k: int, t: int, j: nat)
  {
    && p < |pm'| && pm'[p].order == t && 0 <= t <= k
    && SameUse(pm, own, pm', own')
    && TakenFrom(fl, fl', p, k, t, j)
  }

  lemma FoundLower(pm: PageMap, own: seq<nat>, fl: Lists, pm': PageMap, own': seq<nat>, fl': Lists,
                   p: nat, k: nat, j: nat)
    requires Found(pm, own, fl, pm', own', fl', p, k + 1, k, j) && fl[k] == []
    ensures Found(pm, own, fl, pm', own', fl', p, k, k, j)
  {
  }

  lemma TakenSplit(fl: Lists, fl1: Lists, fl2: Lists, p: nat, k: nat, j: nat)
    requires TakenFrom(fl, fl1, p, k, k, j) && k >= 1
    requires fl2 == fl1[k - 1 := fl1[k - 1] + [p + Size(k - 1)]]
    ensures TakenFrom(fl, fl2, p, k, k - 1, j)
  {
    var t := k - 1;
    forall i | 0 <= i <= MAX_ORDER
      ensures TakenAt(fl, fl2, p, t, j, i)
    {
      assert TakenAt(fl, fl1, p, k, j, i);
    }
  }

  lemma FoundSplit(pm: PageMap, own: seq<nat>, fl: Lists, pm1: PageMap, own1: seq<nat>, fl1: Lists,
                   pm2: PageMap, own2: seq<nat>, fl2: Lists, p: nat, b: nat, k: nat, j: nat)
    requires Found(pm, own, fl, pm1, own1, fl1, p, k, k, j) && k >= 1
    requires SameUse(pm1, own1, pm2, own2) && pm2[p].order == k - 1
    requires b == p + Size(k - 1) && fl2 == fl1[k - 1 := fl1[k - 1] + [b]]
    ensures Found(pm, own, fl, pm2, own2, fl2, p, k, k - 1, j)
  {
    SameUseTrans(pm, own, pm1, own1, pm2, own2);
    TakenSplit(fl, fl1, fl2, p, k, j);
  }

  /** The state after a split of the block in transit. */
  lemma SplitDone(pm: PageMap, own: seq<nat>, fl: Lists, p: nat) returns (pm': PageMap, own': seq<nat>, fl': Lists)
    requires Inv(pm, own, fl, p) && Canonical(fl) && pm[p].order >= 1
    ensures BlockOk(pm, own, p) && |own'| == |own| && Half(pm, p) < |pm|
    ensures pm' == SplitPages(pm, p)
    ensures var k := pm[p].order - 1; fl' == fl[k := fl[k] + [Half(pm, p)]]
    ensures Inv(pm', own', fl', p) && Canonical(fl') && SameUse(pm, own, pm', own')
  {
    SplitKeeps(pm, own, fl, p);
    SplitSameUse(pm, own, fl, p);
    var k := pm[p].order - 1;
    pm', own', fl' := SplitPages(pm, p), SplitOwn(pm, own, p), fl[k := fl[k] + [Half(pm, p)]];
  }

  /** The lists after block `r` of order `k` has absorbed all blocks inside it. */
  ghost predicate Absorbed(fl: Lists, fl': Lists, r: nat, k: nat) {
    && |fl| == |fl'| == MAX_ORDER + 1
    && forall i :: 0 <= i <= MAX_ORDER ==> fl'[i] == Without(fl[i], r, Size(k))
  }

  /** The effect of joining block `p` with its buddy: block `low`, now in transit, is twice as large. */
  ghost predicate Merged(pm: PageMap, own: seq<nat>, fl: Lists, p: nat, pm': PageMap, own': seq<nat>, fl': Lists,
                         low: nat) {
    && p < |pm| && low < |pm'| && pm[p].order >= 0 && pm'[low].order == pm[p].order + 1
    && low <= p && p + Size(pm[p].order) <= low + Size(pm'[low].order)
    && |own'| == |own| && |fl'| == MAX_ORDER + 1 && Inv(pm', own', fl', low) && Canonical(fl')
    && SameUse(pm, own, pm', own') && Absorbed(fl, fl', low, pm'[low].order)
  }

  /** The state after the block in transit has been joined with its buddy. */
  lemma MergeDone(pm: PageMap, own: seq<nat>, fl: Lists, p: nat)
    returns (pm': PageMap, own': seq<nat>, fl': Lists, low: nat)
    requires Inv(pm, own, fl, p) && Canonical(fl) && |own| == |pm| && 0 <= pm[p].order < MAX_ORDER
    requires 0 <= Buddy(p, pm[p].order) < |pm|
    requires var b := pm[Buddy(p, pm[p].order)]; b.refcnt == 0 && b.order == pm[p].order
    ensures low == Low(pm, p) && low < |pm'| && pm' == MergePages(pm, p)
    ensures var k, b := pm[p].order, Buddy(p, pm[p].order); b in fl[k] && fl' == fl[k := Unlink(fl[k], b)]
    ensures Merged(pm, own, fl, p, pm', own', fl', low)
  {
    var k, b := pm[p].order, Buddy(p, pm[p].order);
    assert BlockOk(pm, own, p);
    BuddyFacts(p, k);
    BuddyIsHead(pm, own, p);
    assert Mergeable(pm, own, p);
    MergeKeeps(pm, own, fl, p);
    MergeSameUse(pm, own, fl, p);
    low := Low(pm, p);
    pm', own', fl' := MergePages(pm, p), MergeOwn(pm, own, p), fl[k := Unlink(fl[k], b)];
    MergeAbsorbs(pm, own, fl, p);
  }

  lemma MergeAbsorbs(pm: PageMap, own: seq<nat>, fl: Lists, p: nat)
    requires Inv(pm, own, fl, p) && Mergeable(pm, own, p) && Buddy(p, pm[p].order) in fl[pm[p].order]
    ensures var k := pm[p].order;
            Absorbed(fl, fl[k := Unlink(fl[k], Buddy(p, k))], Low(pm, p), k + 1)
  {
    var k := pm[p].order;
    var fl' := fl[k := Unlink(fl[k], Buddy(p, k))];
    forall i | 0 <= i <= MAX_ORDER
      ensures fl'[i] == Without(fl[i], Low(pm, p), Size(k + 1))
    {
      MergeUnlinks(pm, own, fl, p, i);
    }
  }

  /** The merged block `r` goes to the end of its list and replaces those inside it. */
  ghost predicate Relisted(fl: Lists, fl': Lists, r: nat, k: int) {
    && |fl| == |fl'| == MAX_ORDER + 1 && 0 <= k <= MAX_ORDER
    && forall i :: 0 <= i <= MAX_ORDER ==>
         fl'[i] == Without(fl[i], r, Size(k)) + if i == k then [r] else []
  }

  /** The lists after the merged block in transit has been put on its list. */
  lemma PutDone(pm: PageMap, own: seq<nat>, fl0: Lists, fl: Lists, r: nat, page: nat) returns (fl': Lists)
    requires Inv(pm, own, fl, r) && Canonical(fl) && pm[r].order >= 0 && Absorbed(fl0, fl, r, pm[r].order)
    requires pm[r].order < MAX_ORDER ==> Buddy(r, pm[r].order) !in fl[pm[r].order]
    requires r <= page < r + Size(pm[r].order)
    ensures BlockOk(pm, own, r) && page < |own| && own[page] == r && pm[r].refcnt == 0
    ensures var k := pm[r].order; fl' == fl[k := fl[k] + [r]] && Relisted(fl0, fl', r, k)
    ensures Inv(pm, own, fl', -1) && Canonical(fl')
  {
    assert BlockOk(pm, own, r);
    PutKeeps(pm, own, fl, r);
    CoversOwn(pm, own, r, page);
    fl' := fl[pm[r].order := fl[pm[r].order] + [r]];
  }

  lemma AbsorbedTrans(fl: Lists, fl1: Lists, fl2: Lists, p: nat, k: nat, r: nat, j: nat)
    requires Absorbed(fl, fl1, p, k) && Absorbed(fl1, fl2, r, j)
    requires r <= p && p + Size(k) <= r + Size(j)
    ensures Absorbed(fl, fl2, r, j)
  {
    forall i | 0 <= i <= MAX_ORDER
      ensures fl2[i] == Without(fl[i], r, Size(j))
    {
      WithoutTwice(fl[i], p, Size(k), r, Size(j));
    }
  }

  lemma AbsorbedNothing(pm: PageMap, own: seq<nat>, fl: Lists, p: nat)
    requires Inv(pm, own, fl, p)
    ensures pm[p].order >= 0 && Absorbed(fl, fl, p, pm[p].order)
  {
    assert BlockOk(pm, own, p);
    forall i | 0 <= i <= MAX_ORDER
      ensures fl[i] == Without(fl[i], p, Size(pm[p].order))
    {
      NoneInTransit(pm, own, fl, p, i);
    }
  }

  /** A buddy that the merge test turns down is not on the list of this order. */
  lemma NotListed(pm: PageMap, own: seq<nat>, fl: Lists, p: nat)
    requires Inv(pm, own, fl, p) && |own| == |pm|
    ensures BlockOk(pm, own, p)
    ensures var k := pm[p].order;
            var b := Buddy(p, k);
            b >= |pm| || (b >= 0 && !(pm[b].refcnt == 0 && pm[b].order == k)) ==> b !in fl[k]
  {
    assert BlockOk(pm, own, p);
    var k := pm[p].order;
    var b := Buddy(p, k);
    assert b in fl[k] <==> FreeHead(pm, own, b) && pm[b].order == k && b != p;
  }

  lemma TransitRun(pm: PageMap, own: seq<nat>, fl: Lists, p: nat)
    requires Inv(pm, own, fl, p)
    ensures BlockOk(pm, own, p) && FreeRun(pm, own, p, pm[p].order)
    ensures forall q :: p <= q < p + Size(pm[p].order) <==> 0 <= q < |own| && own[q] == p
  {
    assert BlockOk(pm, own, p);
    forall q
      ensures p <= q < p + Size(pm[p].order) <==> 0 <= q < |own| && own[q] == p
    {
      if p <= q < p + Size(pm[p].order) { assert Covers(pm, p, q); }
    }
  }

  lemma GrantEffect(pm: PageMap, own: seq<nat>, pm1: PageMap, own1: seq<nat>, p: nat, n: nat)
    requires SameUse(pm, own, pm1, own1) && p < |own1| <= |pm1| && pm1[p].order >= 0
    requires LeastOrder(n, pm1[p].order) && FreeRun(pm1, own1, p, pm1[p].order)
    requires forall q :: p <= q < p + Size(pm1[p].order) <==> 0 <= q < |own1| && own1[q] == p
    ensures Granted(pm, own, pm1[p := pm1[p].(refcnt := 1)], own1, p, n)
  {
    var pm' := pm1[p := pm1[p].(refcnt := 1)];
    assert FreePage(pm1, own1, p);
    forall q
      ensures FreePage(pm', own1, q) <==> FreePage(pm, own, q) && !(p <= q < p + Size(pm'[p].order))
    {
      assert FreePage(pm1, own1, q) <==> FreePage(pm, own, q);
    }
    forall q | p <= q < p + Size(pm1[p].order)
      ensures FreePage(pm, own, q)
    {
      assert FreePage(pm1, own1, q);
    }
  }

  lemma ReleaseEffect(pm: PageMap, own: seq<nat>, fl: Lists, p: nat)
    requires Inv(pm, own, fl, -1) && p < |pm| && pm[p].refcnt > 0 && |own| == |pm|
    ensures Released(pm, own, pm[p := pm[p].(refcnt := 0)], own, p)
  {
  }

  lemma ReleasedTrans(pm: PageMap, own: seq<nat>, pm1: PageMap, own1: seq<nat>, pm2: PageMap, own2: seq<nat>, p: nat)
    requires Released(pm, own, pm1, own1, p) && SameUse(pm1, own1, pm2, own2)
    ensures Released(pm, own, pm2, own2, p)
  {
  }

  // ----- Tiling a range -----

  /**
   Every block from `start` on is the largest one that starts there and ends by
   `end`, and no earlier block reaches past `start`.
   */
  ghost predicate Tiling(pm: PageMap, own: seq<nat>, start: nat, end: nat) {
    && |own| <= |pm|
    && (forall h :: Head(own, h) && start <= h ==> pm[h].order >= 0 && Greedy(h, pm[h].order, end))
    && (forall h :: Head(own, h) && h < start ==> pm[h].order >= 0 && h + Size(pm[h].order) <= start)
  }

  /**
   When every block from `start` on was the largest that fits before `end`, the
   next one has no free buddy of its own order behind it.
   */
  lemma RangeCanonical(pm: PageMap, own: seq<nat>, fl: Lists, start: nat, end: nat, k: nat)
    requires Inv(pm, own, fl, -1) && start <= |own| < end && k <= MAX_ORDER && Greedy(|own|, k, end)
    requires start > 0 ==> !FreePage(pm, own, start - 1)
    requires Tiling(pm, own, start, end)
    ensures k < MAX_ORDER ==> Buddy(|own|, k) !in fl[k]
  {
    var s := |own|;
    var b := Buddy(s, k);
    BuddyFacts(s, k);
    assert b in fl[k] ==> FreeHead(pm, own, b) && pm[b].order == k;
    if k < MAX_ORDER && b < s {
      assert Fits(b, k + 1, end);
      assert !Greedy(b, k, end);
      if b < start && Head(own, b) && pm[b].order == k {
        assert Covers(pm, b, start - 1) && own[start - 1] == b;
        assert !FreePage(pm, own, start - 1);
      }
      assert !(FreeHead(pm, own, b) && pm[b].order == k);
    }
  }

  lemma TilingGrows(pm: PageMap, own: seq<nat>, pm': PageMap, own': seq<nat>, start: nat, end: nat, k: nat)
    requires Tiling(pm, own, start, end) && start <= |own| && Greedy(|own|, k, end)
    requires |own'| == |own| + Size(k) <= |pm'| == |pm|
    requires own'[..|own|] == own && pm' == pm[|own| := Page(k, 0)]
    requires forall q :: |own| <= q < |own'| ==> own'[q] == |own|
    ensures Tiling(pm', own', start, end)
  {
  }

  class PhysicalMemory {
    const pagemap: array<Page>
    const freeblocks: array<seq<nat>>
    ghost var own: seq<nat>

    /** The invariant while block `x` is on its way from one list to another. */
    ghost predicate Consistent(x: int)
      reads this, pagemap, freeblocks
    {
      && freeblocks.Length == MAX_ORDER + 1
      && Inv(pagemap[..], own, freeblocks[..], x)
      && Canonical(freeblocks[..])
    }

    /** All pages are tiled, and page 0 is never handed out. */
    ghost predicate Valid()
      reads this, pagemap, freeblocks
    {
      && |own| == pagemap.Length
      && Consistent(-1)
      && !Free(0)
    }

    ghost predicate Free(q: int)
      reads this, pagemap
    {
      FreePage(pagemap[..], own, q)
    }

    constructor (nPages: nat)
      ensures fresh(pagemap) && fresh(freeblocks)
      ensures pagemap.Length == nPages && own == [] && Consistent(-1)
      ensures forall q :: 0 <= q < nPages ==> pagemap[q] == Page(0, 0)
    {
      pagemap := new Page[nPages](i => Page(0, 0));
      freeblocks := new seq<nat>[MAX_ORDER + 1](i => []);
      own := [];
    }

    // ----- Elementary list and page operations -----

    method FreeblocksInsert(p: nat)
      requires p < pagemap.Length && freeblocks.Length == MAX_ORDER + 1
      requires 0 <= pagemap[p].order <= MAX_ORDER
      modifies pagemap, freeblocks
      ensures pagemap[..] == old(pagemap[..])[p := old(pagemap[p]).(refcnt := 0)]
      ensures var fl, k := old(freeblocks[..]), old(pagemap[p]).order;
              freeblocks[..] == fl[k := fl[k] + [p]]
    {
      pagemap[p] := pagemap[p].(refcnt := 0);
      freeblocks[pagemap[p].order] := freeblocks[pagemap[p].order] + [p];
    }

    /** Listing a page whose count is already zero. */
    method Enlist(p: nat)
      requires p < pagemap.Length && freeblocks.Length == MAX_ORDER + 1
      requires 0 <= pagemap[p].order <= MAX_ORDER && pagemap[p].refcnt == 0
      modifies pagemap, freeblocks
      ensures pagemap[..] == old(pagemap[..])
      ensures var fl, k := old(freeblocks[..]), old(pagemap[p]).order;
              freeblocks[..] == fl[k := fl[k] + [p]]
    {
      FreeblocksInsert(p);
    }

    method FreeblocksRemove(p: nat)
      requires p < pagemap.Length && freeblocks.Length == MAX_ORDER + 1
      requires pagemap[p].refcnt == 0 && 0 <= pagemap[p].order <= MAX_ORDER
      requires p in freeblocks[..][pagemap[p].order]
      modifies freeblocks
      ensures var fl, k := old(freeblocks[..]), pagemap[p].order;
              freeblocks[..] == fl[k := Unlink(fl[k], p)]
    {
      freeblocks[pagemap[p].order] := Unlink(freeblocks[pagemap[p].order], p);
    }

    method FindBuddy(p: nat) returns (b: Option<nat>)
      requires p < pagemap.Length
      requires 0 <= pagemap[p].order <= MAX_ORDER && Aligned(p, pagemap[p].order)
      ensures Buddy(p, pagemap[p].order) >= 0
      ensures b == if Buddy(p, pagemap[p].order) < pagemap.Length
                   then Some(Buddy(p, pagemap[p].order)) else None
    {
      var order := pagemap[p].order;
      BuddyParity(p, order);
      BuddyFacts(p, order);
      var index := p / Size(order);
      var buddy := if index % 2 == 1 then p - Size(order) else p + Size(order);
      b := if buddy >= pagemap.Length then None else Some(buddy);
    }

    // ----- Allocation -----

    /** `j` is the order of the list the block was found on. */
    method FindFreeblock(order: int, split: bool) returns (r: Option<nat>, ghost j: nat)
      requires |own| == pagemap.Length && Consistent(-1)
      requires split ==> order >= 1
      modifies this, pagemap, freeblocks
      ensures r.None? <==> order < 0 || forall k :: order <= k <= MAX_ORDER ==> old(freeblocks[..])[k] == []
      ensures r.None? ==> pagemap[..] == old(pagemap[..]) && freeblocks[..] == old(freeblocks[..]) && own == old(own)
      ensures r.None? || Consistent(r.value)
      ensures r.None? || Found(old(pagemap[..]), old(own), old(freeblocks[..]), pagemap[..], own, freeblocks[..],
                               r.value, order, if split then order - 1 else order, j)
      decreases MAX_ORDER + 1 - order
    {
      j := 0;
      if order < 0 || order > MAX_ORDER {
        return None, j;
      }
      if freeblocks[order] != [] {
        r := TakeFirst(order);
        j := order;
      } else {
        r, j := FindFreeblock(order + 1, true);
        if r.None? {
          return;
        }
        FoundLower(old(pagemap[..]), old(own), old(freeblocks[..]), pagemap[..], own, freeblocks[..],
                   r.value, order, j);
      }
      if split {
        ghost var fl1, pm1, own1 := freeblocks[..], pagemap[..], own;
        var b := Split(r.value, order);
        FoundSplit(old(pagemap[..]), old(own), old(freeblocks[..]), pm1, own1, fl1,
                   pagemap[..], own, freeblocks[..], r.value, b, order, j);
      }
    }

    method TakeFirst(order: nat) returns (r: Option<nat>)
      requires |own| == pagemap.Length && Consistent(-1)
      requires order <= MAX_ORDER && freeblocks[order] != []
      modifies freeblocks
      ensures r.Some? && Consistent(r.value)
      ensures Found(pagemap[..], own, old(freeblocks[..]), pagemap[..], own, freeblocks[..],
                    r.value, order, order, order)
    {
      var page := freeblocks[order][0];
      assert page in freeblocks[..][order];
      TakeKeeps(pagemap[..], own, freeblocks[..], order, page);
      FreeblocksRemove(page);
      r := Some(page);
    }

    /** The second half of the search: cut `page` in two and list the upper half. */
    method Split(page: nat, order: nat) returns (b: nat)
      requires |own| == pagemap.Length && Consistent(page)
      requires 1 <= order <= MAX_ORDER && pagemap[page].order == order
      modifies this, pagemap, freeblocks
      ensures Consistent(page) && pagemap[page].order == order - 1
      ensures SameUse(old(pagemap[..]), old(own), pagemap[..], own)
      ensures b == page + Size(order - 1)
      ensures var fl := old(freeblocks[..]);
              freeblocks[..] == fl[order - 1 := fl[order - 1] + [b]]
    {
      ghost var pm1, own1, fl1 := SplitDone(pagemap[..], own, freeblocks[..], page);
      own := own1;
      b := Halve(page, order);
      assert pagemap[..] == pm1 && freeblocks[..] == fl1;
    }

    /** The stores of a split. */
    method Halve(page: nat, order: nat) returns (b: nat)
      requires page < pagemap.Length && freeblocks.Length == MAX_ORDER + 1
      requires 1 <= order <= MAX_ORDER && pagemap[page].order == order
      requires Aligned(page, order) && page + Size(order) <= pagemap.Length
      modifies pagemap, freeblocks
      ensures b == page + Size(order - 1) < pagemap.Length
      ensures pagemap[..] == SplitPages(old(pagemap[..]), page)
      ensures var fl := old(freeblocks[..]);
              freeblocks[..] == fl[order - 1 := fl[order - 1] + [b]]
    {
      HalvesAligned(page, order - 1);
      pagemap[page] := pagemap[page].(order := order - 1);
      var buddy := FindBuddy(page);
      b := buddy.value;
      pagemap[b] := pagemap[b].(order := order - 1);
      FreeblocksInsert(b);
    }

    /** `j` is the order of the list the block was found on. */
    method NAlloc(n: nat) returns (r: Option<nat>, ghost j: nat)
      requires Valid() && 0 < n <= Size(MAX_ORDER)
      modifies this, pagemap, freeblocks
      ensures Valid()
      ensures r.None? <==> NoRun(old(pagemap[..]), old(own), n)
      ensures r.None? ==> pagemap[..] == old(pagemap[..]) && freeblocks[..] == old(freeblocks[..]) && own == old(own)
      ensures r.None? || (r.value > 0 && Granted(old(pagemap[..]), old(own), pagemap[..], own, r.value, n))
      ensures r.None? || TakenFrom(old(freeblocks[..]), freeblocks[..], r.value,
                                   pagemap[r.value].order, pagemap[r.value].order, j)
    {
      var order := GetMinPageOrder(n);
      NoRunIffNoneListed(pagemap[..], own, freeblocks[..], n, order);
      r, j := Allot(n, order);
    }

    /** A block of the given order, taken from the lists and marked as allocated. */
    method Allot(n: nat, order: nat) returns (r: Option<nat>, ghost j: nat)
      requires Valid() && order <= MAX_ORDER && LeastOrder(n, order)
      modifies this, pagemap, freeblocks
      ensures Valid()
      ensures r.None? <==> forall k :: order <= k <= MAX_ORDER ==> old(freeblocks[..])[k] == []
      ensures r.None? ==> pagemap[..] == old(pagemap[..]) && freeblocks[..] == old(freeblocks[..]) && own == old(own)
      ensures r.None? || (r.value > 0 && Granted(old(pagemap[..]), old(own), pagemap[..], own, r.value, n))
      ensures r.None? || (pagemap[r.value].order == order
                          && TakenFrom(old(freeblocks[..]), freeblocks[..], r.value, order, order, j))
    {
      r, j := FindFreeblock(order, false);
      if r.Some? {
        Grant(r.value, n, old(pagemap[..]), old(own));
      }
    }

    method Grant(page: nat, n: nat, ghost pm0: PageMap, ghost own0: seq<nat>)
      requires |own| == pagemap.Length && Consistent(page)
      requires pagemap[page].order >= 0 && LeastOrder(n, pagemap[page].order)
      requires SameUse(pm0, own0, pagemap[..], own)
      modifies pagemap
      ensures Consistent(-1) && Granted(pm0, own0, pagemap[..], own, page, n)
      ensures pagemap[page].order == old(pagemap[page]).order
    {
      ghost var pm1 := pagemap[..];
      TransitRun(pm1, own, freeblocks[..], page);
      GrantKeeps(pm1, own, freeblocks[..], page, 1);
      pagemap[page] := pagemap[page].(refcnt := 1);
      assert pagemap[..] == pm1[page := pm1[page].(refcnt := 1)];
      GrantEffect(pm0, own0, pm1, own, page, n);
    }

    // ----- Release -----

    /** Joins `page`, which is on no list, with its buddies as long as they are free. */
    method MergeBlock(page: nat) returns (r: nat)
      requires |own| == pagemap.Length && Consistent(page)
      modifies this, pagemap, freeblocks
      ensures |own| == pagemap.Length && Consistent(r)
      ensures SameUse(old(pagemap[..]), old(own), pagemap[..], own)
      ensures Absorbed(old(freeblocks[..]), freeblocks[..], r, pagemap[r].order)
      ensures r <= page && page + Size(old(pagemap[page]).order) <= r + Size(pagemap[r].order)
      ensures pagemap[r].order < MAX_ORDER ==> Buddy(r, pagemap[r].order) !in freeblocks[pagemap[r].order]
      decreases MAX_ORDER - pagemap[page].order
    {
      ghost var pm0, own0, fl0 := pagemap[..], own, freeblocks[..];
      assert BlockOk(pm0, own0, page);
      AbsorbedNothing(pm0, own0, fl0, page);
      if pagemap[page].order == MAX_ORDER {
        return page;
      }
      var order := pagemap[page].order;
      var buddy := FindBuddy(page);
      NotListed(pm0, own0, fl0, page);
      if buddy.Some? && pagemap[buddy.value].refcnt == 0 && pagemap[buddy.value].order == order {
        r := MergeOnce(page, buddy.value);
        ghost var pm1, own1, fl1 := pagemap[..], own, freeblocks[..];
        ghost var low := r;
        r := MergeBlock(r);
        SameUseTrans(pm0, own0, pm1, own1, pagemap[..], own);
        AbsorbedTrans(fl0, fl1, freeblocks[..], low, pm1[low].order, r, pagemap[r].order);
      } else {
        r := page;
      }
    }

    /** One round of the above: takes the buddy off its list and joins the two. */
    method MergeOnce(page: nat, buddy: nat) returns (low: nat)
      requires |own| == pagemap.Length && Consistent(page) && buddy < pagemap.Length
      requires 0 <= pagemap[page].order < MAX_ORDER && buddy == Buddy(page, pagemap[page].order)
      requires pagemap[buddy].refcnt == 0 && pagemap[buddy].order == pagemap[page].order
      modifies this, pagemap, freeblocks
      ensures freeblocks.Length == MAX_ORDER + 1
      ensures Merged(old(pagemap[..]), old(own), old(freeblocks[..]), page, pagemap[..], own, freeblocks[..], low)
    {
      ghost var pm1, own1, fl1, low1 := MergeDone(pagemap[..], own, freeblocks[..], page);
      low := Join(page, buddy, pm1, fl1);
      own := own1;
    }

    /** The stores of a merge. */
    method Join(page: nat, buddy: nat, ghost pm1: PageMap, ghost fl1: Lists) returns (low: nat)
      requires page < pagemap.Length && buddy < pagemap.Length && freeblocks.Length == MAX_ORDER + 1
      requires 0 <= pagemap[page].order < MAX_ORDER && buddy == Buddy(page, pagemap[page].order)
      requires pagemap[buddy].refcnt == 0 && pagemap[buddy].order == pagemap[page].order
      requires buddy in freeblocks[..][pagemap[page].order]
      requires pm1 == MergePages(pagemap[..], page)
      requires var fl, k := freeblocks[..], pagemap[page].order;
               fl1 == fl[k := Unlink(fl[k], buddy)]
      modifies pagemap, freeblocks
      ensures low == Low(old(pagemap[..]), page) && pagemap[..] == pm1 && freeblocks[..] == fl1
    {
      FreeblocksRemove(buddy);
      if page < buddy {
        pagemap[page] := pagemap[page].(order := pagemap[page].order + 1);
        low := page;
      } else {
        pagemap[buddy] := pagemap[buddy].(order := pagemap[buddy].order + 1);
        low := buddy;
      }
    }

    /** Merges the block at `page`, which is on no list, and lists the result. */
    method ReturnBlock(page: nat)
      requires |own| == pagemap.Length && Consistent(page)
      modifies this, pagemap, freeblocks
      ensures |own| == pagemap.Length && Consistent(-1)
      ensures SameUse(old(pagemap[..]), old(own), pagemap[..], own)
      ensures Relisted(old(freeblocks[..]), freeblocks[..], own[page], pagemap[own[page]].order)
    {
      var r := MergeBlock(page);
      ghost var pm2, fl2 := pagemap[..], freeblocks[..];
      ghost var fl3 := PutDone(pm2, own, old(freeblocks[..]), fl2, r, page);
      Enlist(r);
      assert freeblocks[..] == fl3;
    }

    /**
     Frees the block at `page`.  As in the kernel, the number of pages the caller
     passes is not used: the whole block is freed.
     */
    method NFree(page: nat, n: nat)
      requires Valid() && 0 < page < pagemap.Length && pagemap[page].refcnt > 0 && n > 0
      modifies this, pagemap, freeblocks
      ensures Valid() && Released(old(pagemap[..]), old(own), pagemap[..], own, page)
      ensures Relisted(old(freeblocks[..]), freeblocks[..], own[page], pagemap[own[page]].order)
    {
      ghost var pm0, own0 := pagemap[..], own;
      CountKeeps(pm0, own0, freeblocks[..], page, 0);
      ReleaseEffect(pm0, own0, freeblocks[..], page);
      pagemap[page] := pagemap[page].(refcnt := 0);
      ghost var pm1 := pagemap[..];
      assert pm1 == pm0[page := pm0[page].(refcnt := 0)];
      ReturnBlock(page);
      ReleasedTrans(pm0, own0, pm1, own0, pagemap[..], own, page);
    }

    method IncRefcnt(page: nat, n: nat)
      requires Valid() && page < pagemap.Length && pagemap[page].refcnt > 0 && pagemap[page].order == 0
      modifies pagemap
      ensures Valid()
      ensures pagemap[..] == old(pagemap[..])[page := Page(0, old(pagemap[page]).refcnt + n)]
      ensures forall q :: Free(q) <==> old(Free(q))
    {
      ghost var pm0 := pagemap[..];
      CountKeeps(pm0, own, freeblocks[..], page, pm0[page].refcnt + n);
      pagemap[page] := pagemap[page].(refcnt := pagemap[page].refcnt + n);
      assert pagemap[..] == pm0[page := pm0[page].(refcnt := pm0[page].refcnt + n)];
    }

    method DecRefcnt(page: nat)
      requires Valid() && 0 < page < pagemap.Length && pagemap[page].refcnt > 0 && pagemap[page].order == 0
      modifies this, pagemap, freeblocks
      ensures Valid()
      ensures old(pagemap[page]).refcnt > 1 ==>
                && pagemap[..] == old(pagemap[..])[page := Page(0, old(pagemap[page]).refcnt - 1)]
                && own == old(own) && freeblocks[..] == old(freeblocks[..])
      ensures old(pagemap[page]).refcnt == 1 ==> Released(old(pagemap[..]), old(own), pagemap[..], own, page)
    {
      ghost var pm0 := pagemap[..];
      CountKeeps(pm0, own, freeblocks[..], page, pm0[page].refcnt - 1);
      if pagemap[page].refcnt == 1 {
        // The kernel stores the zero first; releasing the block stores it again.
        NFree(page, 1);
      } else {
        pagemap[page] := pagemap[page].(refcnt := pagemap[page].refcnt - 1);
        assert pagemap[..] == pm0[page := pm0[page].(refcnt := pm0[page].refcnt - 1)];
      }
    }

    // ----- Initialization -----

    /** Makes the untiled page `p` the head of a new block: free when `c` is zero. */
    method Extend(p: nat, k: nat, c: nat)
      requires Consistent(-1) && k <= MAX_ORDER && c <= 1 && p == |own|
      requires p + Size(k) <= pagemap.Length && Aligned(p, k)
      requires c == 0 && k < MAX_ORDER ==> Buddy(p, k) !in freeblocks[..][k]
      modifies this, pagemap, freeblocks
      ensures Consistent(-1) && |own| == p + Size(k)
      ensures own[..p] == old(own) && forall q :: p <= q < |own| ==> own[q] == p
      ensures pagemap[..] == old(pagemap[..])[p := Page(k, c)]
      ensures var fl := old(freeblocks[..]);
              freeblocks[..] == if c == 0 then fl[k := fl[k] + [p]] else fl
      ensures forall q :: p <= q < |own| ==> (Free(q) <==> c == 0)
      ensures forall q :: 0 <= q < p ==> (Free(q) <==> old(Free(q)))
    {
      ghost var pm0, own0, fl0 := pagemap[..], own, freeblocks[..];
      ExtendKeeps(pm0, own0, fl0, k, c);
      pagemap[p] := Page(k, c);
      own := own + seq(Size(k), i => p);
      assert pagemap[..] == pm0[p := Page(k, c)];
      if c == 0 {
        PutKeeps(pagemap[..], own, fl0, p);
        FreeblocksInsert(p);
        assert pagemap[..] == pm0[p := Page(k, c)];
      }
      forall q | 0 <= q < p
        ensures Free(q) <==> FreePage(pm0, own0, q)
      {
        assert own[q] == own0[q] && Head(own0, own0[q]) && Covers(pm0, own0[q], q);
      }
    }

    /**
     Tiles the pages from `start` up to `end` with free blocks, each the largest
     that fits.  The page before the range must not be free.
     */
    method FreeblocksInsertRange(start: nat, end: nat)
      requires Consistent(-1) && start == |own| && start <= end <= pagemap.Length
      requires start < end && start > 0 ==> !Free(start - 1)
      modifies this, pagemap, freeblocks
      ensures Consistent(-1) && |own| == end
      ensures forall q :: start <= q < end ==> Free(q)
      ensures forall q :: 0 <= q < start ==> (Free(q) <==> old(Free(q)))
      // The tiles: each new block has the largest order that starts there and fits.
      ensures Tiling(pagemap[..], own, start, end)
    {
      var s := start;
      assert Tiling(pagemap[..], own, start, end) by {
        assert forall h :: Head(own, h) ==> BlockOk(pagemap[..], own, h);
      }
      while s < end
        invariant start <= s <= end && |own| == s && Consistent(-1)
        invariant forall q :: start <= q < s ==> Free(q)
        invariant forall q :: 0 <= q < start ==> (Free(q) <==> old(Free(q)))
        invariant Tiling(pagemap[..], own, start, end)
      {
        s := InsertLargest(start, s, end);
      }
    }

    /** One tile: the largest block at `s` goes to the end of its free list. */
    method InsertLargest(start: nat, s: nat, end: nat) returns (s': nat)
      requires Consistent(-1) && start <= s == |own| < end <= pagemap.Length
      requires start > 0 ==> !Free(start - 1)
      requires Tiling(pagemap[..], own, start, end)
      modifies this, pagemap, freeblocks
      ensures Consistent(-1) && s < s' == |own| <= end
      ensures Tiling(pagemap[..], own, start, end)
      ensures forall q :: s <= q < s' ==> Free(q)
      ensures forall q :: 0 <= q < s ==> (Free(q) <==> old(Free(q)))
    {
      var order := GetMaxPageOrder(s, end);
      RangeCanonical(pagemap[..], own, freeblocks[..], start, end, order);
      ghost var pm0, own0 := pagemap[..], own;
      Extend(s, order, 0);
      TilingGrows(pm0, own0, pagemap[..], own, start, end, order);
      s' := s + Size(order);
    }

    /** Among the pages up to bit `n`, the free ones are those with a clear bit. */
    ghost predicate FreeAsBitmap(pmemStart: nat, bitmap: seq<bool>, n: nat)
      requires n <= |bitmap|
      reads this, pagemap
    {
      forall q :: 0 <= q < pmemStart + n ==> (Free(q) <==> pmemStart <= q && !bitmap[q - pmemStart])
    }

    method MarkUnavailable(pmemStart: nat)
      requires Consistent(-1) && own == [] && pmemStart <= pagemap.Length
      modifies this, pagemap, freeblocks
      ensures Consistent(-1) && |own| == pmemStart
      ensures forall q :: 0 <= q < pmemStart ==> !Free(q)
    {
      var paddr := 0;
      while paddr < pmemStart
        invariant paddr <= pmemStart && |own| == paddr && Consistent(-1)
        invariant forall q :: 0 <= q < paddr ==> !Free(q)
      {
        Extend(paddr, 0, 1);
        paddr := paddr + 1;
      }
    }

    /** Adds the pages of the run of clear bits from `index` on; `probe` is where it ends. */
    method InsertClearRun(pmemStart: nat, bitmap: seq<bool>, contig: nat, index: nat) returns (probe: nat)
      requires Consistent(-1) && pmemStart + |bitmap| == pagemap.Length && |own| == pmemStart + index
      requires index < contig <= |bitmap| && FreeAsBitmap(pmemStart, bitmap, index)
      requires !bitmap[index] && (index > 0 ==> bitmap[index - 1])
      modifies this, pagemap, freeblocks
      ensures Consistent(-1) && index < probe <= contig && |own| == pmemStart + probe
      ensures FreeAsBitmap(pmemStart, bitmap, probe) && (probe < contig ==> bitmap[probe])
    {
      probe := index + 1;
      while probe < contig && !bitmap[probe]
        invariant index < probe <= contig
        invariant forall i :: index <= i < probe ==> !bitmap[i]
      {
        probe := probe + 1;
      }
      FreeblocksInsertRange(pmemStart + index, pmemStart + probe);
    }

    /**
     Builds the free lists from the boot allocator's bitmap, in which a set bit is
     an allocated page and bit 0 stands for page `pmemStart`.  No bit is set from
     `contig` on, and the bit before `contig` is set.
     */
    method FreeblocksInit(pmemStart: nat, bitmap: seq<bool>, contig: nat)
      requires Consistent(-1) && own == [] && 0 < pmemStart && pmemStart + |bitmap| == pagemap.Length
      requires contig <= |bitmap| && (contig > 0 ==> bitmap[contig - 1])
      requires forall i :: contig <= i < |bitmap| ==> !bitmap[i]
      modifies this, pagemap, freeblocks
      ensures Valid()
      ensures forall q :: Free(q) <==> pmemStart <= q < pagemap.Length && !bitmap[q - pmemStart]
    {
      MarkUnavailable(pmemStart);
      InitBelow(pmemStart, bitmap, contig);
      FreeblocksInsertRange(pmemStart + contig, pagemap.Length);
    }

    /** The part of the bitmap that has set bits. */
    method InitBelow(pmemStart: nat, bitmap: seq<bool>, contig: nat)
      requires Consistent(-1) && |own| == pmemStart && 0 < pmemStart && pmemStart + |bitmap| == pagemap.Length
      requires contig <= |bitmap| && (contig > 0 ==> bitmap[contig - 1]) && FreeAsBitmap(pmemStart, bitmap, 0)
      modifies this, pagemap, freeblocks
      ensures Consistent(-1) && |own| == pmemStart + contig && FreeAsBitmap(pmemStart, bitmap, contig)
    {
      var index := 0;
      while index < contig
        invariant index <= contig && |own| == pmemStart + index && Consistent(-1)
        invariant FreeAsBitmap(pmemStart, bitmap, index)
        invariant index < contig && index > 0 && !bitmap[index - 1] ==> bitmap[index]
      {
        if bitmap[index] {
          Extend(pmemStart + index, 0, 1);
          index := index + 1;
        } else {
          index := InsertClearRun(pmemStart, bitmap, contig, index);
        }
      }
    }
  }
}
