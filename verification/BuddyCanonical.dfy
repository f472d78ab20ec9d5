/**
 What the canonical form of the free lists means: they hold exactly the maximal
 aligned runs of free pages, so they are determined by which pages are free.
 */
module BuddyCanonical {
  import opened Dyadic
  import opened BuddySpec

  /** Every page of a block on a free list is free, and the block is an aligned run. */
  lemma ListedIsRun(pm: PageMap, own: seq<nat>, fl: Lists, k: nat, h: nat)
    requires Inv(pm, own, fl, -1) && k <= MAX_ORDER && h in fl[k]
    ensures FreeRun(pm, own, h, k)
    ensures forall q :: h <= q < h + Size(k) ==> own[q] == h
  {
    assert FreeHead(pm, own, h) && pm[h].order == k;
    assert BlockOk(pm, own, h);
    forall q | h <= q < h + Size(k)
      ensures own[q] == h
    {
      assert Covers(pm, h, q);
    }
  }

  /** The block around page `a` is free, listed, and contains the order `k` run from `a` on. */
  ghost predicate InsideBlock(pm: PageMap, own: seq<nat>, fl: Lists, a: nat, k: nat)
    requires |fl| == MAX_ORDER + 1
  {
    && a < |own|
    && FreeHead(pm, own, own[a])
    && k <= pm[own[a]].order <= MAX_ORDER
    && own[a] in fl[pm[own[a]].order]
    && own[a] <= a && a + Size(k) <= own[a] + Size(pm[own[a]].order)
  }

  /** In canonical form an aligned run of free pages lies inside one free block. */
  lemma {:induction false} RunInsideBlock(pm: PageMap, own: seq<nat>, fl: Lists, a: nat, k: nat)
    requires Inv(pm, own, fl, -1) && Canonical(fl)
    requires k <= MAX_ORDER && FreeRun(pm, own, a, k)
    ensures InsideBlock(pm, own, fl, a, k)
    decreases k
  {
    if k == 0 {
      PageInsideBlock(pm, own, fl, a);
    } else {
      HalfRuns(pm, own, a, k - 1);
      RunInsideBlock(pm, own, fl, a, k - 1);
      RunInsideBlock(pm, own, fl, a + Size(k - 1), k - 1);
      HalvesJoin(pm, own, fl, a, k - 1);
    }
  }

  lemma PageInsideBlock(pm: PageMap, own: seq<nat>, fl: Lists, a: nat)
    requires Inv(pm, own, fl, -1) && FreePage(pm, own, a)
    ensures InsideBlock(pm, own, fl, a, 0)
  {
    assert Covers(pm, own[a], a) && BlockOk(pm, own, own[a]);
  }

  /** Both halves of a free run are free runs. */
  lemma HalfRuns(pm: PageMap, own: seq<nat>, a: nat, k: nat)
    requires FreeRun(pm, own, a, k + 1)
    ensures FreeRun(pm, own, a, k) && FreeRun(pm, own, a + Size(k), k)
  {
    HalvesAligned(a, k);
  }

  lemma HalvesJoin(pm: PageMap, own: seq<nat>, fl: Lists, a: nat, k: nat)
    requires Inv(pm, own, fl, -1) && Canonical(fl) && k < MAX_ORDER && Aligned(a, k + 1)
    requires InsideBlock(pm, own, fl, a, k) && InsideBlock(pm, own, fl, a + Size(k), k)
    ensures InsideBlock(pm, own, fl, a, k + 1)
  {
    var h := own[a];
    LowerHalfNotListed(pm, own, fl, a, k);
    assert pm[h].order != k;
    assert BlockOk(pm, own, h);
    SizeMonotone(k + 1, pm[h].order);
    Nested(a, k + 1, h, pm[h].order);
  }

  /** In canonical form no listed block has a free upper half next to it. */
  lemma LowerHalfNotListed(pm: PageMap, own: seq<nat>, fl: Lists, a: nat, k: nat)
    requires Inv(pm, own, fl, -1) && Canonical(fl) && k < MAX_ORDER
    requires Aligned(a, k + 1) && a + Size(k) < |own|
    requires var g := own[a + Size(k)];
             FreeHead(pm, own, g) && k <= pm[g].order <= MAX_ORDER && g in fl[pm[g].order]
    ensures a !in fl[k]
  {
    var m := a + Size(k);
    var g := own[m];
    HalvesAligned(a, k);
    assert BlockOk(pm, own, g) && Covers(pm, g, m);
    if pm[g].order == k {
      Nested(g, k, m, k);
      assert m in fl[k] && Buddy(m, k) !in fl[k];
    } else {
      LargerAround(pm, own, a, k, g);
      assert !(FreeHead(pm, own, a) && pm[a].order == k);
    }
  }

  /** A larger block around the upper half contains the lower half too. */
  lemma LargerAround(pm: PageMap, own: seq<nat>, a: nat, k: nat, g: nat)
    requires Partition(pm, own) && Head(own, g) && k < pm[g].order <= MAX_ORDER && Aligned(a, k + 1)
    requires Covers(pm, g, a + Size(k)) && a < |own|
    ensures own[a] == g
  {
    assert BlockOk(pm, own, g);
    SizeMonotone(k + 1, pm[g].order);
    Nested(a, k + 1, g, pm[g].order);
    CoversOwn(pm, own, g, a);
  }

  lemma SizeInjective(j: nat, k: nat)
    requires j <= k
    ensures Size(k) <= Size(j) ==> j == k
  {
    if j < k { SizeMonotone(j, k - 1); }
  }

  /** One direction of `FreeListsDetermined`. */
  lemma ListedInBoth(pm: PageMap, own: seq<nat>, fl: Lists, pm': PageMap, own': seq<nat>, fl': Lists, k: nat, h: nat)
    requires Inv(pm, own, fl, -1) && Canonical(fl) && Inv(pm', own', fl', -1) && Canonical(fl')
    requires forall q :: FreePage(pm, own, q) <==> FreePage(pm', own', q)
    requires k <= MAX_ORDER && h in fl[k]
    ensures h in fl'[k]
  {
    ListedIsRun(pm, own, fl, k, h);
    var e := h + Size(k) - 1;
    assert FreePage(pm, own, e) && FreePage(pm', own', e);
    assert FreeRun(pm', own', h, k) by {
      forall q | h <= q < h + Size(k) ensures FreePage(pm', own', q) { assert FreePage(pm, own, q); }
    }
    RunInsideBlock(pm', own', fl', h, k);
    var g := own'[h];
    var j := pm'[g].order;
    ListedIsRun(pm', own', fl', j, g);
    assert FreePage(pm', own', g + Size(j) - 1) && FreePage(pm, own, g + Size(j) - 1);
    assert FreeRun(pm, own, g, j) by {
      forall q | g <= q < g + Size(j) ensures FreePage(pm, own, q) { assert FreePage(pm', own', q); }
    }
    RunInsideBlock(pm, own, fl, g, j);
    assert own[h] == h;
    assert Covers(pm, own[g], h);
    assert own[g] == h;
    assert Size(j) <= Size(k);
    SizeInjective(k, j);
  }

  /** The sets of free blocks of two states agree as soon as their free pages do. */
  lemma FreeListsDetermined(pm: PageMap, own: seq<nat>, fl: Lists, pm': PageMap, own': seq<nat>, fl': Lists)
    requires Inv(pm, own, fl, -1) && Canonical(fl) && Inv(pm', own', fl', -1) && Canonical(fl')
    requires forall q :: FreePage(pm, own, q) <==> FreePage(pm', own', q)
    ensures forall k, h :: 0 <= k <= MAX_ORDER ==> (h in fl[k] <==> h in fl'[k])
  {
    forall k, h | 0 <= k <= MAX_ORDER
      ensures h in fl[k] <==> h in fl'[k]
    {
      if h in fl[k] { ListedInBoth(pm, own, fl, pm', own', fl', k, h); }
      if h in fl'[k] { ListedInBoth(pm', own', fl', pm, own, fl, k, h); }
    }
  }

  /** A block of order `k` or more is listed exactly when an aligned free run exists. */
  lemma RunIffListed(pm: PageMap, own: seq<nat>, fl: Lists, k: nat)
    requires Inv(pm, own, fl, -1) && Canonical(fl) && k <= MAX_ORDER
    ensures (exists a: nat :: FreeRun(pm, own, a, k)) <==> (exists j :: k <= j <= MAX_ORDER && fl[j] != [])
  {
    if a: nat :| FreeRun(pm, own, a, k) {
      RunInsideBlock(pm, own, fl, a, k);
    }
    if j :| k <= j <= MAX_ORDER && fl[j] != [] {
      var h := fl[j][0];
      assert h in fl[j];
      ListedIsRun(pm, own, fl, j, h);
      AlignedWeaken(h, k, j);
      SizeMonotone(k, j);
      assert FreeRun(pm, own, h, k);
    }
  }

  /** No aligned run of the least power of two that holds `n` pages is free. */
  ghost predicate NoRun(pm: PageMap, own: seq<nat>, n: nat) {
    forall k: nat, a: nat :: LeastOrder(n, k) ==> !FreeRun(pm, own, a, k)
  }

  /** `k` is the least order whose blocks hold at least `n` pages. */
  ghost predicate LeastOrder(n: nat, k: nat) {
    n <= Size(k) && (k > 0 ==> Size(k - 1) < n)
  }

  lemma LeastOrderUnique(n: nat, j: nat, k: nat)
    requires LeastOrder(n, j) && LeastOrder(n, k)
    ensures j == k
  {
    if k < j { SizeMonotone(k, j - 1); }
    if j < k { SizeMonotone(j, k - 1); }
  }

  lemma NoRunIffNoneListed(pm: PageMap, own: seq<nat>, fl: Lists, n: nat, k: nat)
    requires Inv(pm, own, fl, -1) && Canonical(fl) && k <= MAX_ORDER && LeastOrder(n, k)
    ensures NoRun(pm, own, n) <==> forall j :: k <= j <= MAX_ORDER ==> fl[j] == []
  {
    RunIffListed(pm, own, fl, k);
    if j: nat, a: nat :| LeastOrder(n, j) && FreeRun(pm, own, a, j) {
      LeastOrderUnique(n, j, k);
    }
  }

  /** Allocating a block and freeing it again restores every free list, up to order. */
  lemma AllocFreeRestores(pm0: PageMap, own0: seq<nat>, fl0: Lists, pm1: PageMap, own1: seq<nat>,
                          pm2: PageMap, own2: seq<nat>, fl2: Lists, p: nat, n: nat)
    requires Inv(pm0, own0, fl0, -1) && Canonical(fl0) && Inv(pm2, own2, fl2, -1) && Canonical(fl2)
    requires Granted(pm0, own0, pm1, own1, p, n) && Released(pm1, own1, pm2, own2, p)
    ensures forall k, h :: 0 <= k <= MAX_ORDER ==> (h in fl0[k] <==> h in fl2[k])
  {
    forall q
      ensures FreePage(pm0, own0, q) <==> FreePage(pm2, own2, q)
    {
      assert FreePage(pm2, own2, q) <==> FreePage(pm1, own1, q) || p <= q < p + Size(pm1[p].order);
      assert FreePage(pm1, own1, q) <==> FreePage(pm0, own0, q) && !(p <= q < p + Size(pm1[p].order));
    }
    FreeListsDetermined(pm0, own0, fl0, pm2, own2, fl2);
  }

  // ----- What allocation and release do to the use of pages -----

  /**
   Block `p` was free and is now allocated, with one reference and the least
   sufficient order; every other page is used as before.
   */
  ghost predicate Granted(pm: PageMap, own: seq<nat>, pm': PageMap, own': seq<nat>, p: nat, n: nat) {
    && |pm'| == |pm| && |own'| == |own| && p < |own'| <= |pm'|
    && pm'[p].refcnt == 1 && pm'[p].order >= 0 && LeastOrder(n, pm'[p].order)
    && FreeRun(pm, own, p, pm'[p].order)
    && (forall q :: FreePage(pm', own', q) <==> FreePage(pm, own, q) && !(p <= q < p + Size(pm'[p].order)))
    && (forall q :: p <= q < p + Size(pm'[p].order) ==> own'[q] == p)
    && (forall q :: 0 <= q < |own| && !FreePage(pm, own, q) ==> own'[q] == own[q])
    && (forall q :: 0 <= q < |pm| && pm[q].refcnt > 0 ==> pm'[q] == pm[q])
  }

  /** Exactly the pages of block `p` have become free; other allocated blocks are untouched. */
  ghost predicate Released(pm: PageMap, own: seq<nat>, pm': PageMap, own': seq<nat>, p: nat) {
    && |pm'| == |pm| && |own'| == |own| && p < |own| <= |pm| && pm[p].order >= 0
    && (forall q :: FreePage(pm', own', q) <==> FreePage(pm, own, q) || p <= q < p + Size(pm[p].order))
    && (forall q :: 0 <= q < |own| && !FreePage(pm', own', q) ==> own'[q] == own[q])
    && (forall q :: 0 <= q < |pm| && pm[q].refcnt > 0 && q != p ==> pm'[q] == pm[q])
  }
}
