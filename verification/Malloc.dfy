/**
 The user-level allocator of lib/malloc.c (section 8.7 of The C Programming
 Language, second edition).  `sbrk` follows its documented contract: it may
 refuse, and between two calls the break may have been moved up by others.
 */
module Malloc {
  import opened Wrappers
  import opened MallocSpec

  const TWO64: nat := 0x1_0000_0000_0000_0000
  const TWO63: nat := 0x8000_0000_0000_0000
  const HEADER: nat := 16

  // ----- The size computation in 64-bit arithmetic -----

  function Wrap(x: nat): (r: nat) { x % TWO64 }

  /** Number of units for `nbytes` bytes and a header, as the code computes it. */
  function Nunits(nbytes: nat): (n: nat) { Wrap(Wrap(nbytes + HEADER - 1) / HEADER + 1) }

  /** The test that turns a request down. */
  predicate Refused(nbytes: nat) { Wrap(Nunits(nbytes) * HEADER) < nbytes }

  /** A request that passes the test was computed without wrap-around. */
  lemma NunitsExact(nbytes: nat)
    requires nbytes < TWO64
    ensures Refused(nbytes) <==> nbytes > TWO64 - 32
    ensures !Refused(nbytes) ==>
              && 1 <= Nunits(nbytes)
              && nbytes + HEADER <= Nunits(nbytes) * HEADER < TWO64
              && Nunits(nbytes) * HEADER < nbytes + 2 * HEADER
  {
    if nbytes + 15 < TWO64 {
      assert Wrap(nbytes + 15) == nbytes + 15;
    } else {
      assert Wrap(nbytes + 15) == nbytes + 15 - TWO64;
    }
  }

  /** A 64-bit value read as the signed argument of `sbrk`. */
  function AsSigned(x: nat): (r: int)
    requires x < TWO64
  {
    if x < TWO63 then x else x - TWO64
  }

  /**
   The break after `sbrk(increment)` on a heap that starts at `start`: a decrement
   of more than the heap size has no effect.  The call returns the old break.
   */
  function BreakAfter(start: nat, brk: nat, increment: int): (b: int)
    requires start <= brk
  {
    if brk + increment < start then brk else brk + increment
  }

  /**
   The units that `morecore` takes to have received lie below the new break exactly
   when the byte count is not read as a negative number.
   */
  lemma SbrkBacked(start: nat, brk: nat, nu: nat)
    requires start <= brk && 1 <= nu && nu * HEADER < TWO64
    ensures brk + nu * HEADER <= BreakAfter(start, brk, AsSigned(nu * HEADER)) <==> nu * HEADER < TWO63
    ensures start <= BreakAfter(start, brk, AsSigned(nu * HEADER)) <= brk + nu * HEADER
  {
  }

  /** The largest request that passes the size test moves the break down by one unit. */
  lemma HugeRequestShrinks(start: nat, brk: nat)
    requires start + HEADER <= brk
    ensures var nu := Nunits(TWO64 - 32);
            && !Refused(TWO64 - 32) && nu * HEADER < TWO64
            && BreakAfter(start, brk, AsSigned(nu * HEADER)) == brk - HEADER
  {
  }

  // ----- The heap -----

  /** What `sbrk` will answer: refuse, or grant with the break moved `gap` units up. */
  datatype Reply = Refuse | Grant(gap: nat)

  /** Steps from entry `i` to entry `t` along the ring of `n` entries. */
  function Dist(i: nat, t: nat, n: nat): (d: int) {
    if i <= t then t - i else n - i + t
  }

  function Next(i: nat, n: nat): (j: nat)
    requires i < n
    ensures j < n
  {
    if i + 1 == n then 0 else i + 1
  }

  lemma RingNext(mem: Mem, fl: seq<nat>, i: nat)
    requires Ring(mem, fl) && i < |fl|
    ensures mem[fl[i]].ptr == fl[Next(i, |fl|)]
  {
    assert mem[fl[i]].ptr == After(fl, i);
  }

  /** Entry `t` is where a block at address `b` belongs. */
  lemma PlaceExists(fl: seq<nat>, b: nat) returns (t: nat)
    requires |fl| >= 1 && fl[0] < b && b !in fl
    ensures Between(fl, t, b)
  {
    t := 0;
    while t + 1 < |fl| && fl[t + 1] < b
      invariant t < |fl| && fl[t] < b
    {
      t := t + 1;
    }
  }

  /** The search stops at entry `i`: the block goes between it and the next one. */
  predicate StopsAt(p: nat, next: nat, b: nat) {
    (b > p && b < next) || (p >= next && (b > p || b < next))
  }

  lemma StopsAtPlace(fl: seq<nat>, i: nat, t: nat, b: nat)
    requires Increasing(fl) && i < |fl| && Between(fl, t, b) && fl[0] < b
    ensures StopsAt(fl[i], fl[Next(i, |fl|)], b) <==> i == t
  {
  }

  // ----- Linking a freed block in -----

  /** Memory after the upper neighbour of `b` has been joined or linked behind it. */
  function JoinUpper(mem: Mem, p: nat, b: nat): (r: Mem)
    requires p < |mem| && b < |mem| && mem[p].ptr < |mem|
    ensures |r| == |mem|
  {
    var next := mem[p].ptr;
    if b + mem[b].size == next
    then mem[b := Header(mem[next].ptr, mem[b].size + mem[next].size)]
    else mem[b := mem[b].(ptr := next)]
  }

  /** Memory after `b` has been joined to or linked behind `p`. */
  function JoinLower(mem: Mem, p: nat, b: nat): (r: Mem)
    requires p < |mem| && b < |mem|
    ensures |r| == |mem|
  {
    if p + mem[p].size == b
    then mem[p := Header(mem[b].ptr, mem[p].size + mem[b].size)]
    else mem[p := mem[p].(ptr := b)]
  }

  lemma JoinUpperIsMerge(mem: Mem, p: nat, b: nat)
    requires p < |mem| && b < |mem| && mem[p].ptr < |mem| && p != b && mem[p].ptr != p && mem[p].ptr != b
    requires b + mem[b].size == mem[p].ptr
    ensures MergeMem(InsertMem(mem, p, b), b, mem[p].ptr) == JoinUpper(mem, p, b)[p := mem[p].(ptr := b)]
  {
  }

  lemma JoinUpperIsInsert(mem: Mem, p: nat, b: nat)
    requires p < |mem| && b < |mem| && mem[p].ptr < |mem| && p != b
    requires b + mem[b].size != mem[p].ptr
    ensures InsertMem(mem, p, b) == JoinUpper(mem, p, b)[p := mem[p].(ptr := b)]
  {
  }

  /** Linking `p` to `b` first makes no difference to what the second step leaves. */
  lemma JoinLowerAfterLink(mem: Mem, p: nat, b: nat)
    requires p < |mem| && b < |mem| && p != b
    ensures JoinLower(mem[p := mem[p].(ptr := b)], p, b) == JoinLower(mem, p, b)
  {
  }

  /** The outcome of the first step, with entry `t` still to be examined. */
  ghost predicate UpperDone(mem: Mem, own: Owner, live: set<nat>, base: nat, mem': Mem, own': Owner, fl': seq<nat>,
                            p: nat, b: nat, t: nat)
  {
    && Inv(mem', own', fl', live, base)
    && Kept(mem, own, mem', own', live) && SameHeap(own, own')
    && |fl'| > t + 1 && fl'[t] == p && fl'[t + 1] == b && Tight(mem', fl', {p})
    && own'[b] == b && mem'[b].size >= mem[b].size
  }

  lemma UpperDoneFrom(mem: Mem, mem1: Mem, own: Owner, live: set<nat>, base: nat, mem': Mem, own': Owner,
                      fl': seq<nat>, p: nat, b: nat, t: nat)
    requires SameSizes(mem, mem1) && b < |mem| && UpperDone(mem1, own, live, base, mem', own', fl', p, b, t)
    ensures UpperDone(mem, own, live, base, mem', own', fl', p, b, t)
  {
  }

  lemma LinkUpper(mem: Mem, own: Owner, fl: seq<nat>, live: set<nat>, base: nat, t: nat, b: nat, mem': Mem)
    returns (own': Owner, fl': seq<nat>)
    requires Inv(mem, own, fl, live, base) && Tight(mem, fl, {}) && Between(fl, t, b) && b in live
    requires mem[fl[t]].ptr < |mem| && mem' == JoinUpper(mem, fl[t], b)[fl[t] := mem[fl[t]].(ptr := b)]
    ensures UpperDone(mem, own, live - {b}, base, mem', own', fl', fl[t], b, t)
  {
    var p := fl[t];
    RingNext(mem, fl, t);
    InsertKeeps(mem, own, fl, live, base, t, b);
    var mem1, fl1 := InsertMem(mem, p, b), Insert(fl, t, b);
    var next := mem[p].ptr;
    if b + mem[b].size == next {
      assert t + 1 < |fl| && fl1[t + 2] == next;
      JoinUpperIsMerge(mem, p, b);
      own', fl' := UpperJoined(mem1, own, fl1, live - {b}, base, p, t + 1);
    } else {
      JoinUpperIsInsert(mem, p, b);
      own', fl' := own, fl1;
      UpperLinked(mem1, own, fl1, live - {b}, base, t, p, b);
    }
    UpperDoneFrom(mem, mem1, own, live - {b}, base, mem', own', fl', p, b, t);
  }

  lemma UpperLinked(mem: Mem, own: Owner, fl: seq<nat>, live: set<nat>, base: nat, t: nat, p: nat, b: nat)
    requires Inv(mem, own, fl, live, base) && t + 1 < |fl| && fl[t] == p && fl[t + 1] == b
    requires Tight(mem, fl, {p, b}) && b + mem[b].size != (if t + 2 < |fl| then fl[t + 2] else base)
    ensures UpperDone(mem, own, live, base, mem, own, fl, p, b, t)
  {
  }

  lemma TightAt(mem: Mem, fl: seq<nat>, i: nat, skip: set<nat>, skip': set<nat>)
    requires Within(mem, fl) && Increasing(fl) && i < |fl| && Tight(mem, fl, skip) && skip <= skip' + {fl[i]}
    requires i + 1 < |fl| ==> fl[i] + mem[fl[i]].size < fl[i + 1]
    ensures Tight(mem, fl, skip')
  {
  }

  lemma UpperJoined(mem: Mem, own: Owner, fl: seq<nat>, live: set<nat>, base: nat, p: nat, j: nat)
    returns (own': Owner, fl': seq<nat>)
    requires Inv(mem, own, fl, live, base) && 1 <= j && j + 1 < |fl| && fl[j - 1] == p
    requires Tight(mem, fl, {p, fl[j]}) && fl[j] + mem[fl[j]].size == fl[j + 1]
    ensures UpperDone(mem, own, live, base, MergeMem(mem, fl[j], fl[j + 1]), own', fl', p, fl[j], j - 1)
  {
    assert p < fl[j] < fl[j + 1];
    own', fl' := Joined(mem, own, fl, live, base, j, {p, fl[j]}, {p});
    assert fl'[j - 1] == fl'[..j + 1][j - 1] && fl'[j] == fl'[..j + 1][j];
  }

  /** Entry `j + 1` of the ring has been joined to entry `j`, which it touches. */
  lemma Joined(mem: Mem, own: Owner, fl: seq<nat>, live: set<nat>, base: nat, j: nat, skip: set<nat>, skip': set<nat>)
    returns (own': Owner, fl': seq<nat>)
    requires Inv(mem, own, fl, live, base) && j + 1 < |fl| && fl[j] + mem[fl[j]].size == fl[j + 1]
    requires Tight(mem, fl, skip) && fl[j + 1] !in skip && skip <= skip' + {fl[j]}
    ensures var mem' := MergeMem(mem, fl[j], fl[j + 1]);
            && Inv(mem', own', fl', live, base) && Tight(mem', fl', skip')
            && Kept(mem, own, mem', own', live) && SameHeap(own, own')
    ensures j >= 1 && |fl'| == |fl| - 1 && fl'[..j + 1] == fl[..j + 1]
    ensures |own'| == |own| && own'[fl[j]] == own'[fl[j + 1]] == fl[j]
  {
    MergeKeeps(mem, own, fl, live, base, j, skip, skip');
    MergeLeaves(mem, own, fl, live, base, j);
    own', fl' := Claim(own, fl[j], mem[fl[j]].size + mem[fl[j + 1]].size), Drop(fl, j + 1);
  }

  /** The outcome of the second step. */
  ghost predicate LowerDone(mem: Mem, own: Owner, live: set<nat>, base: nat, mem': Mem, own': Owner, fl': seq<nat>,
                            p: nat, b: nat)
  {
    && Inv(mem', own', fl', live, base) && Tight(mem', fl', {})
    && Kept(mem, own, mem', own', live) && SameHeap(own, own')
    && p in fl' && b < |own'| && own'[b] in fl' && own'[b] != base
    && own'[b] < |mem'| && b < |mem| && mem'[own'[b]].size >= mem[b].size
  }

  lemma LinkLower(mem: Mem, own: Owner, fl: seq<nat>, live: set<nat>, base: nat, t: nat)
    returns (own': Owner, fl': seq<nat>)
    requires Inv(mem, own, fl, live, base) && t + 1 < |fl| && Tight(mem, fl, {fl[t]})
    ensures LowerDone(mem, own, live, base, JoinLower(mem, fl[t], fl[t + 1]), own', fl', fl[t], fl[t + 1])
  {
    var p, b := fl[t], fl[t + 1];
    assert mem[p].ptr == After(fl, t) == b;
    if p + mem[p].size == b {
      own', fl' := LowerJoined(mem, own, fl, live, base, t);
    } else {
      own', fl' := own, fl;
      assert p < b;
      if t > 0 { BlocksDisjoint(mem, own, p, b); }
      TightAt(mem, fl, t, {p}, {});
      assert JoinLower(mem, p, b) == mem;
      assert Head(own, b);
    }
  }

  lemma LowerJoined(mem: Mem, own: Owner, fl: seq<nat>, live: set<nat>, base: nat, t: nat)
    returns (own': Owner, fl': seq<nat>)
    requires Inv(mem, own, fl, live, base) && t + 1 < |fl| && Tight(mem, fl, {fl[t]})
    requires fl[t] + mem[fl[t]].size == fl[t + 1]
    ensures LowerDone(mem, own, live, base, MergeMem(mem, fl[t], fl[t + 1]), own', fl', fl[t], fl[t + 1])
  {
    var p, b := fl[t], fl[t + 1];
    assert p < b;
    own', fl' := Joined(mem, own, fl, live, base, t, {p}, {});
    assert fl'[..t + 1][t] == fl'[t] == p && Head(own, b);
  }

  // ----- Handing a block out -----

  /**
   Block `a` of `n` units is new: its units were in no live block, and every
   other live block is as it was.
   */
  ghost predicate Taken(mem: Mem, own: Owner, live: set<nat>, mem': Mem, own': Owner, live': set<nat>,
                        a: nat, n: nat)
  {
    && a !in live && live' == live + {a} && Head(own', a) && |mem'| == |own'| && mem'[a].size == n
    && Kept(mem, own, mem', own', live)
    && (forall u :: a <= u < a + n ==> At(own', u) == a && At(own, u) !in live)
  }

  lemma TakenAfter(mem: Mem, own: Owner, live: set<nat>, mem1: Mem, own1: Owner, mem': Mem, own': Owner,
                   live': set<nat>, a: nat, n: nat)
    requires Kept(mem, own, mem1, own1, live) && Taken(mem1, own1, live, mem', own', live', a, n)
    ensures Taken(mem, own, live, mem', own', live', a, n)
  {
  }

  /** Taking entry `k` off the ring hands its block out. */
  lemma Unlinked(mem: Mem, own: Owner, fl: seq<nat>, live: set<nat>, base: nat, k: nat)
    returns (mem': Mem, fl': seq<nat>)
    requires Inv(mem, own, fl, live, base) && Tight(mem, fl, {}) && 1 <= k < |fl|
    ensures fl[k - 1] < |mem| && fl[k] < |mem| && mem' == UnlinkMem(mem, fl, k)
    ensures Inv(mem', own, fl', live + {fl[k]}, base) && Tight(mem', fl', {}) && fl[k - 1] in fl'
    ensures Taken(mem, own, live, mem', own, live + {fl[k]}, fl[k], mem[fl[k]].size)
  {
    UnlinkKeeps(mem, own, fl, live, base, k);
    InDrop(fl, k, fl[k - 1]);
    mem', fl' := UnlinkMem(mem, fl, k), Drop(fl, k);
    var p := fl[k];
    assert Head(own, p) && p in fl && fl[k - 1] != p;
    assert forall u :: p <= u < p + mem[p].size ==> Covers(mem, p, u);
  }

  /** Freeing a block just allocated from the list restores the list exactly. */
  lemma MallocFreeRestores(mem0: Mem, own0: Owner, fl0: seq<nat>, live0: set<nat>, mem1: Mem, own1: Owner,
                           live1: set<nat>, mem2: Mem, own2: Owner, fl2: seq<nat>, live2: set<nat>,
                           base: nat, a: nat, n: nat)
    requires Inv(mem0, own0, fl0, live0, base) && Tight(mem0, fl0, {})
    requires Taken(mem0, own0, live0, mem1, own1, live1, a, n) && SameHeap(own0, own1)
    requires Inv(mem2, own2, fl2, live2, base) && Tight(mem2, fl2, {})
    requires live2 == live1 - {a} && Kept(mem1, own1, mem2, own2, live2) && SameHeap(own1, own2)
    ensures fl2 == fl0 && forall i :: 0 <= i < |fl0| ==> mem2[fl0[i]] == mem0[fl0[i]]
  {
    assert live2 == live0;
    forall u
      ensures FreeUnit(own0, live0, u) <==> FreeUnit(own2, live2, u)
    {
      assert At(own0, u) in live0 <==> At(own1, u) in live0;
      assert At(own1, u) in live0 <==> At(own2, u) in live0;
    }
    FreeListDetermined(mem0, own0, fl0, live0, mem2, own2, fl2, live2, base);
  }

  /** The heap has grown by exactly the `n` units from `p` on. */
  ghost predicate GrownBy(own: Owner, own': Owner, p: nat, n: nat) {
    |own'| == |own| && forall u :: 0 <= u < |own| ==> (own'[u] != 0 <==> own[u] != 0 || p <= u < p + n)
  }

  /** No listed block has `n` units. */
  ghost predicate NoFit(mem: Mem, fl: seq<nat>, n: nat)
    requires Within(mem, fl)
  {
    forall i :: 0 <= i < |fl| ==> mem[fl[i]].size < n
  }

  /** The entries from `first` up to, but not including, `i` on the ring are too small. */
  ghost predicate SmallUpTo(mem: Mem, fl: seq<nat>, n: nat, first: nat, i: nat)
    requires Within(mem, fl)
  {
    forall x :: 0 <= x < |fl| && Dist(first, x, |fl|) < Dist(first, i, |fl|) ==> mem[fl[x]].size < n
  }

  lemma DistStep(i: nat, t: nat, n: nat)
    requires i < n && t < n && i != t
    ensures Dist(i, t, n) > 0
    ensures Dist(Next(i, n), t, n) == Dist(i, t, n) - 1
  {
  }

  lemma SmallStep(mem: Mem, fl: seq<nat>, n: nat, first: nat, i: nat)
    requires Within(mem, fl) && first < |fl| && i < |fl| && Dist(first, i, |fl|) < |fl| - 1
    requires SmallUpTo(mem, fl, n, first, i) && mem[fl[i]].size < n
    ensures SmallUpTo(mem, fl, n, first, Next(i, |fl|))
    ensures Dist(first, Next(i, |fl|), |fl|) == Dist(first, i, |fl|) + 1
  {
  }

  /** One step of a search that began after entry `k` and has not come back to it. */
  lemma ScanStep(mem: Mem, fl: seq<nat>, n: nat, first: nat, i: nat, k: nat)
    requires Within(mem, fl) && first < |fl| && i < |fl| && k < |fl| && i != k && first == Next(k, |fl|)
    requires Dist(first, i, |fl|) + Dist(i, k, |fl|) == |fl| - 1
    requires SmallUpTo(mem, fl, n, first, i) && mem[fl[i]].size < n
    ensures var i' := Next(i, |fl|);
            && SmallUpTo(mem, fl, n, first, i')
            && Dist(first, i', |fl|) + Dist(i', k, |fl|) == |fl| - 1 && 0 <= Dist(i', k, |fl|) < Dist(i, k, |fl|)
  {
    DistStep(i, k, |fl|);
    SmallStep(mem, fl, n, first, i);
  }

  lemma WholeTurn(mem: Mem, fl: seq<nat>, n: nat, first: nat, i: nat)
    requires Within(mem, fl) && first < |fl| && i < |fl| && Dist(first, i, |fl|) == |fl| - 1
    requires SmallUpTo(mem, fl, n, first, i) && mem[fl[i]].size < n
    ensures NoFit(mem, fl, n)
  {
  }

  /** The break moved, and the heap has exactly the units `sbrk` gave in addition. */
  ghost predicate GrownFor(own: Owner, own': Owner, brk: nat, brk': nat, n: nat, reply: Reply) {
    && reply.Grant? && brk' == brk + reply.gap + Max(n, 4096)
    && GrownBy(own, own', brk + reply.gap, Max(n, 4096))
  }

  lemma GrownThenSame(own: Owner, own1: Owner, own': Owner, brk: nat, brk': nat, n: nat, reply: Reply)
    requires GrownFor(own, own1, brk, brk', n, reply) && SameHeap(own1, own')
    ensures GrownFor(own, own', brk, brk', n, reply)
  {
  }

  function Max(a: nat, b: nat): nat { if a < b then b else a }

  /** Both steps together. */
  lemma LinkBoth(mem: Mem, own: Owner, fl: seq<nat>, live: set<nat>, base: nat, t: nat, b: nat, mem1: Mem)
    returns (own': Owner, fl': seq<nat>)
    requires Inv(mem, own, fl, live, base) && Tight(mem, fl, {}) && Between(fl, t, b) && b in live
    requires mem[fl[t]].ptr < |mem| && mem1 == JoinUpper(mem, fl[t], b)[fl[t] := mem[fl[t]].(ptr := b)]
    ensures LowerDone(mem, own, live - {b}, base, JoinLower(mem1, fl[t], b), own', fl', fl[t], b)
  {
    var own1, fl1 := LinkUpper(mem, own, fl, live, base, t, b, mem1);
    own', fl' := LinkLower(mem1, own1, fl1, live - {b}, base, t);
    LowerDoneFrom(mem, own, mem1, own1, live - {b}, base, JoinLower(mem1, fl[t], b), own', fl', fl[t], b);
  }

  lemma LowerDoneFrom(mem: Mem, own: Owner, mem1: Mem, own1: Owner, live: set<nat>, base: nat,
                      mem': Mem, own': Owner, fl': seq<nat>, p: nat, b: nat)
    requires LowerDone(mem1, own1, live, base, mem', own', fl', p, b)
    requires Kept(mem, own, mem1, own1, live) && SameHeap(own, own1) && mem1[b].size >= mem[b].size
    ensures LowerDone(mem, own, live, base, mem', own', fl', p, b)
  {
  }

  class Heap {
    const mem: array<Header>
    const base: nat
    var freep: nat
    var brk: nat
    ghost var own: Owner
    ghost var fl: seq<nat>
    ghost var live: set<nat>

    ghost predicate Bounds()
      reads this
    {
      && 0 < base < brk <= mem.Length == |own|
      && forall u :: brk <= u < |own| ==> own[u] == 0
    }

    /** `freep` is 0 until the first call of `Malloc`. */
    ghost predicate Valid()
      reads this, mem
    {
      && Bounds()
      && (if freep == 0
          then live == {} && forall u :: 0 <= u < |own| ==> own[u] == 0
          else freep in fl && Inv(mem[..], own, fl, live, base) && Tight(mem[..], fl, {}))
    }

    constructor (size: nat, base: nat, brk: nat)
      requires 0 < base < brk <= size
      ensures Valid() && live == {} && this.base == base && this.brk == brk && mem.Length == size
      ensures forall u :: 0 <= u < |own| ==> own[u] == 0
      ensures fresh(mem)
    {
      mem := new Header[size](i => Header(0, 0));
      this.base := base;
      this.brk := brk;
      freep, live, fl := 0, {}, [];
      own := seq(size, i => 0);
    }

    /** Puts the live block whose data starts at `ap` back on the free list. */
    method Free(ap: nat)
      requires Valid() && ap > 0 && ap - 1 in live
      modifies this`freep, this`own, this`fl, this`live, mem
      ensures Valid() && freep != 0
      ensures live == old(live) - {ap - 1}
      ensures Kept(old(mem[..]), old(own), mem[..], own, live) && SameHeap(old(own), own)
    {
      FreeHeader(ap - 1);
    }

    method FreeHeader(bp: nat)
      requires Valid() && bp in live
      modifies this`freep, this`own, this`fl, this`live, mem
      ensures Valid() && freep != 0
      ensures live == old(live) - {bp}
      ensures Kept(old(mem[..]), old(own), mem[..], own, live) && SameHeap(old(own), own)
      // The freed units are now part of a listed block at least as large.
      ensures own[bp] in fl && own[bp] != base && mem[own[bp]].size >= old(mem[bp].size)
    {
      var p, t := FindPlace(bp);
      LinkIn(p, bp, t);
      freep := p;
      assert base > 0 && forall i :: 0 <= i < |fl| ==> fl[i] >= fl[0];
    }

    /** The first half of `Free`: walks the list to the entry the block goes behind. */
    method FindPlace(bp: nat) returns (p: nat, ghost t: nat)
      requires freep in fl && Inv(mem[..], own, fl, live, base) && bp in live
      ensures Between(fl, t, bp) && p == fl[t]
    {
      ghost var mem0 := mem[..];
      assert base < bp by { assert own[bp] != 0; }
      assert bp !in fl;
      t := PlaceExists(fl, bp);
      ghost var i :| 0 <= i < |fl| && fl[i] == freep;
      p := freep;
      RingNext(mem0, fl, i);
      while !(bp > p && bp < mem[p].ptr)
        invariant 0 <= i < |fl| && p == fl[i] && mem0[p].ptr == fl[Next(i, |fl|)]
        decreases Dist(i, t, |fl|)
      {
        StopsAtPlace(fl, i, t, bp);
        if p >= mem[p].ptr && (bp > p || bp < mem[p].ptr) {
          break;
        }
        p := mem[p].ptr;
        i := Next(i, |fl|);
        RingNext(mem0, fl, i);
      }
      StopsAtPlace(fl, i, t, bp);
    }

    /** The second half of `Free`: joins the block with its neighbours where they touch. */
    method LinkIn(p: nat, bp: nat, ghost t: nat)
      requires Inv(mem[..], own, fl, live, base) && Tight(mem[..], fl, {}) && Bounds()
      requires Between(fl, t, bp) && p == fl[t] && bp in live
      modifies this`own, this`fl, this`live, mem
      ensures Inv(mem[..], own, fl, live, base) && Tight(mem[..], fl, {}) && Bounds()
      ensures live == old(live) - {bp} && p in fl
      ensures Kept(old(mem[..]), old(own), mem[..], own, live) && SameHeap(old(own), own)
      ensures own[bp] in fl && own[bp] != base && mem[own[bp]].size >= old(mem[bp].size)
    {
      ghost var mem0 := mem[..];
      RingNext(mem0, fl, t);
      ghost var mem1 := JoinUpper(mem0, p, bp)[p := mem0[p].(ptr := bp)];
      ghost var own2, fl2 := LinkBoth(mem0, own, fl, live, base, t, bp, mem1);
      StoreBoth(p, bp);
      own, fl, live := own2, fl2, live - {bp};
    }

    /** The stores of both steps. */
    method StoreBoth(p: nat, bp: nat)
      requires p < mem.Length && bp < mem.Length && mem[p].ptr < mem.Length && p != bp
      modifies mem
      ensures mem[..] == JoinLower(JoinUpper(old(mem[..]), p, bp)[p := old(mem[p]).(ptr := bp)], p, bp)
    {
      StoreUpper(p, bp);
      StoreLower(p, bp);
      JoinLowerAfterLink(JoinUpper(old(mem[..]), p, bp), p, bp);
    }

    method StoreUpper(p: nat, bp: nat)
      requires p < mem.Length && bp < mem.Length && mem[p].ptr < mem.Length
      modifies mem
      ensures mem[..] == JoinUpper(old(mem[..]), p, bp)
    {
      var next := mem[p].ptr;
      if bp + mem[bp].size == next {
        mem[bp] := Header(mem[next].ptr, mem[bp].size + mem[next].size);
      } else {
        mem[bp] := mem[bp].(ptr := next);
      }
    }

    method StoreLower(p: nat, bp: nat)
      requires p < mem.Length && bp < mem.Length
      modifies mem
      ensures mem[..] == JoinLower(old(mem[..]), p, bp)
    {
      if p + mem[p].size == bp {
        mem[p] := Header(mem[bp].ptr, mem[p].size + mem[bp].size);
      } else {
        mem[p] := mem[p].(ptr := bp);
      }
    }

    // ----- More memory -----

    /** `sbrk` can give `n` more units. */
    predicate CanGrow(n: nat, reply: Reply)
      reads this
    {
      reply.Grant? && brk + reply.gap + n <= mem.Length
    }

    method Sbrk(n: nat, reply: Reply) returns (p: Option<nat>)
      modifies this`brk
      ensures p.Some? <==> old(CanGrow(n, reply))
      ensures p.Some? ==> p.value == old(brk) + reply.gap && brk == p.value + n
      ensures p.None? ==> brk == old(brk)
    {
      if CanGrow(n, reply) {
        p := Some(brk + reply.gap);
        brk := brk + reply.gap + n;
      } else {
        p := None;
      }
    }

    /** Asks for at least 4096 units, `nu` of them needed, and frees what it gets. */
    method Morecore(nu: nat, reply: Reply) returns (ok: bool)
      requires Valid() && freep != 0 && nu >= 1
      modifies this, mem
      ensures Valid() && freep != 0 && live == old(live)
      ensures ok <==> old(CanGrow(Max(nu, 4096), reply))
      ensures !ok ==>
                mem[..] == old(mem[..]) && own == old(own) && fl == old(fl) && freep == old(freep) && brk == old(brk)
      ensures Kept(old(mem[..]), old(own), mem[..], own, live)
      ensures ok ==> brk == old(brk) + reply.gap + Max(nu, 4096)
      ensures ok ==> GrownBy(old(own), own, old(brk) + reply.gap, Max(nu, 4096))
      ensures ok ==> !NoFit(mem[..], fl, nu)
    {
      var n := Max(nu, 4096);
      var p := Sbrk(n, reply);
      if p.None? {
        return false;
      }
      ghost var mem0, own0 := mem[..], own;
      Adopt(p.value, n);
      ghost var mem1, own1 := mem[..], own;
      FreeHeader(p.value);
      KeptTrans(mem0, own0, mem1, own1, mem[..], own, live);
      ok := true;
    }

    /** Makes the `n` new units from `hp` on a live block. */
    method Adopt(hp: nat, n: nat)
      requires freep in fl && Inv(mem[..], own, fl, live, base) && Tight(mem[..], fl, {})
      requires 0 < base < hp && n >= 1 && brk == hp + n <= mem.Length == |own|
      requires forall u :: hp <= u < |own| ==> own[u] == 0
      modifies this`own, this`live, mem
      ensures Valid() && live == old(live) + {hp} && hp !in old(live) && mem[hp].size == n
      ensures Kept(old(mem[..]), old(own), mem[..], own, old(live)) && GrownBy(old(own), own, hp, n)
    {
      ghost var mem0 := mem[..];
      GrowKeeps(mem0, own, fl, live, base, hp, n);
      GrowLeaves(mem0, own, fl, live, base, hp, n);
      mem[hp] := mem[hp].(size := n);
      assert mem[..] == mem0[hp := mem0[hp].(size := n)];
      own, live := Claim(own, hp, n), live + {hp};
    }

    // ----- Allocation -----

    /** Removes the listed block `p`, or cuts `n` units off its end, for the caller. */
    method Take(prevp: nat, p: nat, n: nat, ghost k: nat) returns (a: nat)
      requires Bounds() && Inv(mem[..], own, fl, live, base) && Tight(mem[..], fl, {})
      requires 1 <= k < |fl| && p == fl[k] && prevp == fl[k - 1] && 1 <= n <= mem[p].size
      modifies this`own, this`fl, this`live, mem
      ensures Bounds() && Inv(mem[..], own, fl, live, base) && Tight(mem[..], fl, {}) && prevp in fl
      ensures Taken(old(mem[..]), old(own), old(live), mem[..], own, live, a, n)
      ensures SameHeap(old(own), own)
    {
      if mem[p].size == n {
        TakeWhole(prevp, p, k);
        a := p;
      } else {
        a := TakeTail(p, n, k);
      }
    }

    method TakeWhole(prevp: nat, p: nat, ghost k: nat)
      requires Bounds() && Inv(mem[..], own, fl, live, base) && Tight(mem[..], fl, {})
      requires 1 <= k < |fl| && p == fl[k] && prevp == fl[k - 1]
      modifies this`fl, this`live, mem
      ensures Inv(mem[..], own, fl, live, base) && Tight(mem[..], fl, {}) && prevp in fl
      ensures Taken(old(mem[..]), own, old(live), mem[..], own, live, p, old(mem[p].size))
    {
      ghost var mem1, fl1 := Unlinked(mem[..], own, fl, live, base, k);
      mem[prevp] := mem[prevp].(ptr := mem[p].ptr);
      assert mem[..] == mem1;
      fl, live := fl1, live + {p};
    }

    method TakeTail(p: nat, n: nat, ghost k: nat) returns (a: nat)
      requires Bounds() && Inv(mem[..], own, fl, live, base) && Tight(mem[..], fl, {})
      requires 1 <= k < |fl| && p == fl[k] && 1 <= n < mem[p].size
      modifies this`own, this`live, mem
      ensures Bounds() && Inv(mem[..], own, fl, live, base) && Tight(mem[..], fl, {})
      ensures Taken(old(mem[..]), old(own), old(live), mem[..], own, live, a, n)
      ensures SameHeap(old(own), own)
    {
      ghost var mem0 := mem[..];
      CarveKeeps(mem0, own, fl, live, base, k, n);
      CarveLeaves(mem0, own, fl, live, base, k, n);
      assert p in fl;
      a := Carve(p, n);
      own, live := Claim(own, a, n), live + {a};
    }

    method Carve(p: nat, n: nat) returns (a: nat)
      requires p < mem.Length && n < mem[p].size && p + mem[p].size - n < mem.Length
      modifies mem
      ensures a == Tail(old(mem[..]), p, n) && mem[..] == CarveMem(old(mem[..]), p, n)
    {
      mem[p] := mem[p].(size := mem[p].size - n);
      a := p + mem[p].size;
      mem[a] := mem[a].(size := n);
    }

    /**
     One turn of the ring from `freep`, entry `k`, up to the first block of `n` units:
     `p` is that block, entry `i`, and `prevp` the one before it.
     */
    method Scan(n: nat) returns (found: bool, prevp: nat, p: nat, ghost k: nat, ghost i: nat)
      requires freep in fl && Ring(mem[..], fl) && Increasing(fl) && mem[fl[0]].size == 0 && n >= 1
      ensures k < |fl| && fl[k] == freep
      ensures found <==> !NoFit(mem[..], fl, n)
      ensures found ==> 1 <= i < |fl| && p == fl[i] && prevp == fl[i - 1] && mem[p].size >= n
      ensures found ==> SmallUpTo(mem[..], fl, n, Next(k, |fl|), i)
    {
      k :| 0 <= k < |fl| && fl[k] == freep;
      ghost var m, first, pi := |fl|, Next(k, |fl|), k;
      prevp := freep;
      p := mem[prevp].ptr;
      i := first;
      RingNext(mem[..], fl, k);
      while mem[p].size < n
        invariant 0 <= pi < m && prevp == fl[pi] && i == Next(pi, m) && p == fl[i]
        invariant Dist(first, i, m) + Dist(i, k, m) == m - 1
        invariant SmallUpTo(mem[..], fl, n, first, i)
        decreases Dist(i, k, m)
      {
        if p == freep {
          assert i == k;
          WholeTurn(mem[..], fl, n, first, i);
          return false, prevp, p, k, i;
        }
        RingNext(mem[..], fl, i);
        ScanStep(mem[..], fl, n, first, i, k);
        prevp := p;
        p := mem[p].ptr;
        pi, i := i, Next(i, m);
      }
      found := true;
    }

    /**
     Looks for a block of `n` units and asks for more memory after a whole turn
     without one.  Asking once is always enough.
     */
    method Search(n: nat, reply: Reply) returns (r: Option<nat>, ghost grew: bool)
      requires Valid() && freep != 0 && n >= 1
      modifies this, mem
      ensures Valid()
      ensures r.None? == (old(NoFit(mem[..], fl, n)) && !old(CanGrow(Max(n, 4096), reply)))
      ensures r.None? || (r.value > 0 && Taken(old(mem[..]), old(own), old(live), mem[..], own, live, r.value - 1, n))
      ensures r.Some? || live == old(live)
      ensures grew == (r.Some? && old(NoFit(mem[..], fl, n)))
      ensures grew || (brk == old(brk) && SameHeap(old(own), own))
      ensures !grew || GrownFor(old(own), own, old(brk), brk, n, reply)
    {
      r := TryList(n, old(mem[..]), old(own), old(live));
      grew := false;
      if r.None? {
        r := Refill(n, reply, old(mem[..]), old(own), old(live));
        grew := r.Some?;
      }
    }

    /** The rest of the search, after a whole turn without a block. */
    method Refill(n: nat, reply: Reply, ghost mem0: Mem, ghost own0: Owner, ghost live0: set<nat>)
      returns (r: Option<nat>)
      requires Valid() && freep != 0 && n >= 1 && live == live0 && own == own0 && mem[..] == mem0
      modifies this, mem
      ensures Valid()
      ensures r.None? <==> !old(CanGrow(Max(n, 4096), reply))
      ensures r.None? || (r.value > 0 && Taken(mem0, own0, live0, mem[..], own, live, r.value - 1, n))
      ensures r.Some? || (live == live0 && brk == old(brk) && own == own0)
      ensures r.None? || GrownFor(own0, own, old(brk), brk, n, reply)
    {
      r := None;
      var ok := Morecore(n, reply);
      if ok {
        ghost var own1 := own;
        r := TryList(n, mem0, own0, live0);
        GrownThenSame(own0, own1, own, old(brk), brk, n, reply);
      }
    }

    /** One turn of the ring: hands out the first block that is large enough. */
    method TryList(n: nat, ghost mem0: Mem, ghost own0: Owner, ghost live0: set<nat>) returns (r: Option<nat>)
      requires Valid() && freep != 0 && n >= 1 && live == live0 && Kept(mem0, own0, mem[..], own, live0)
      modifies this`freep, this`own, this`fl, this`live, mem
      ensures Valid() && freep != 0
      ensures r.None? == old(NoFit(mem[..], fl, n))
      ensures r.None? || (r.value > 0 && Taken(mem0, own0, live0, mem[..], own, live, r.value - 1, n))
      ensures r.Some? || (live == live0 && own == old(own) && mem[..] == old(mem[..]) && fl == old(fl))
      ensures SameHeap(old(own), own)
    {
      var found, prevp, p, k, i := Scan(n);
      if !found {
        return None;
      }
      ghost var mem1, own1 := mem[..], own;
      var a := Take(prevp, p, n, i);
      freep := prevp;
      TakenAfter(mem0, own0, live0, mem1, own1, mem[..], own, live, a, n);
      assert forall j :: 0 <= j < |fl| ==> fl[j] >= fl[0];
      r := Some(a + 1);
    }

    /** Makes the list the sentinel alone. */
    method InitBase()
      requires Valid() && freep == 0
      modifies this`freep, this`fl, mem
      ensures Valid() && freep != 0
      ensures Kept(old(mem[..]), own, mem[..], own, live)
      ensures forall n :: n >= 1 ==> NoFit(mem[..], fl, n)
    {
      mem[base] := Header(base, 0);
      freep, fl := base, [base];
      assert After(fl, 0) == base;
    }

    /** Allocates `nbytes` bytes; the result is the address of the first unit of data. */
    method Malloc(nbytes: nat, reply: Reply) returns (r: Option<nat>, ghost grew: bool)
      requires Valid() && nbytes < TWO64
      // The byte count that reaches sbrk must not be read as a negative number.
      requires !Refused(nbytes) ==> Nunits(nbytes) * HEADER < TWO63
      modifies this, mem
      ensures Valid()
      ensures r.None? <==> Refused(nbytes) ||
                           (old(Exhausted(Nunits(nbytes))) && !old(CanGrow(Max(Nunits(nbytes), 4096), reply)))
      ensures r.None? || (r.value > 0 && Taken(old(mem[..]), old(own), old(live), mem[..], own, live,
                                               r.value - 1, Nunits(nbytes)))
      // The block holds the bytes asked for, behind its header.
      ensures r.Some? ==> nbytes <= (Nunits(nbytes) - 1) * HEADER
      ensures r.Some? || live == old(live)
      ensures grew <==> r.Some? && old(Exhausted(Nunits(nbytes)))
      ensures grew || (brk == old(brk) && SameHeap(old(own), own))
      ensures !grew || GrownFor(old(own), own, old(brk), brk, Nunits(nbytes), reply)
    {
      var nunits := Nunits(nbytes);
      NunitsExact(nbytes);
      if Wrap(nunits * HEADER) < nbytes {
        return None, false;
      }
      r, grew := Allocate(nunits, reply);
    }

    /** The part of `Malloc` after the size test. */
    method Allocate(n: nat, reply: Reply) returns (r: Option<nat>, ghost grew: bool)
      requires Valid() && n >= 1
      modifies this, mem
      ensures Valid()
      ensures r.None? <==> old(Exhausted(n)) && !old(CanGrow(Max(n, 4096), reply))
      ensures r.None? || (r.value > 0 && Taken(old(mem[..]), old(own), old(live), mem[..], own, live, r.value - 1, n))
      ensures r.Some? || live == old(live)
      ensures grew <==> r.Some? && old(Exhausted(n))
      ensures grew || (brk == old(brk) && SameHeap(old(own), own))
      ensures !grew || GrownFor(old(own), own, old(brk), brk, n, reply)
    {
      if freep != 0 {
        r, grew := Search(n, reply);
      } else {
        InitBase();
        ghost var mem1 := mem[..];
        r, grew := Search(n, reply);
        if r.Some? {
          TakenAfter(old(mem[..]), old(own), old(live), mem1, old(own), mem[..], own, live, r.value - 1, n);
        }
      }
    }

    /** No free block has `n` units. */
    ghost predicate Exhausted(n: nat)
      requires Valid()
      reads this, mem
    {
      freep == 0 || NoFit(mem[..], fl, n)
    }
  }
}
