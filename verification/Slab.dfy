/**
 The object allocator of kernel/mm/kmalloc.c: slabs of equal objects, with a chain of
 free slots stored as an array of indices behind the slab header.
 */
module Slab {
  import opened Sequences
  import opened Wrappers

  const PAGE: nat := 4096
  const HEADER: nat := 40
  const INDEX: nat := 4
  const MIN_OBJS: nat := 128

  // ----- Layout -----

  function RoundUp(x: nat): (pages: nat) { (x + PAGE - 1) / PAGE }

  /** Pages of a slab for objects of `size` bytes. */
  function PagesFor(size: nat): (pages: nat) { RoundUp(HEADER + (size + INDEX) * MIN_OBJS) }

  /** Objects that fit in a slab. */
  function ObjsFor(size: nat): (n: nat) { (PagesFor(size) * PAGE - HEADER) / (size + INDEX) }

  lemma DivAtLeast(a: nat, b: nat, c: nat)
    requires b > 0 && b * c <= a
    ensures a / b >= c && a / b * b <= a < (a / b + 1) * b
  {
    var q := a / b;
    assert a == b * q + a % b;
    assert q < c ==> b * q + b <= b * c by {
      if q < c { Spaced(b, q, c); }
    }
  }

  /**
   A slab has room for its header, the index array and at least 128 objects; one more object does not fit, and one
   page less does not hold 128.
   */
  lemma LayoutFits(size: nat)
    requires size > 0
    ensures ObjsFor(size) >= MIN_OBJS
    ensures HEADER + INDEX * ObjsFor(size) + size * ObjsFor(size) <= PagesFor(size) * PAGE
    ensures HEADER + INDEX * (ObjsFor(size) + 1) + size * (ObjsFor(size) + 1) > PagesFor(size) * PAGE
    ensures HEADER + INDEX * MIN_OBJS + size * MIN_OBJS > (PagesFor(size) - 1) * PAGE
  {
    var need := (size + INDEX) * MIN_OBJS;
    var a := PagesFor(size) * PAGE - HEADER;
    assert HEADER + need <= PagesFor(size) * PAGE;
    DivAtLeast(a, size + INDEX, MIN_OBJS);
    var n := ObjsFor(size);
    assert n * (size + INDEX) == INDEX * n + size * n;
    assert (n + 1) * (size + INDEX) == INDEX * (n + 1) + size * (n + 1);
  }

  /** The address of object `i` of a slab at `base`. */
  function ObjAddr(base: nat, size: nat, n: nat, i: nat): (a: nat) { base + HEADER + INDEX * n + size * i }

  lemma Spaced(size: nat, i: nat, j: nat)
    requires i < j
    ensures size * i + size <= size * j
  {
    assert size * (i + 1) <= size * j;
  }

  /** Objects lie after the header and the index array, inside the slab, and do not overlap. */
  lemma ObjInside(base: nat, size: nat, i: nat, j: nat)
    requires size > 0 && i < ObjsFor(size) && j < ObjsFor(size)
    ensures var n := ObjsFor(size);
            && base + HEADER + INDEX * n <= ObjAddr(base, size, n, i)
            && ObjAddr(base, size, n, i) + size <= base + PagesFor(size) * PAGE
            && (i < j ==> ObjAddr(base, size, n, i) + size <= ObjAddr(base, size, n, j))
  {
    LayoutFits(size);
    InsideFrom(base, size, ObjsFor(size), PagesFor(size) * PAGE, i, j);
  }

  lemma InsideFrom(base: nat, size: nat, n: nat, bytes: nat, i: nat, j: nat)
    requires i < n && HEADER + INDEX * n + size * n <= bytes
    ensures base + HEADER + INDEX * n <= ObjAddr(base, size, n, i)
    ensures ObjAddr(base, size, n, i) + size <= base + bytes
    ensures i < j ==> ObjAddr(base, size, n, i) + size <= ObjAddr(base, size, n, j)
  {
    Spaced(size, i, n);
    if i < j { Spaced(size, i, j); }
  }

  lemma DivExact(size: nat, i: nat)
    requires size > 0
    ensures (size * i) / size == i
  {
    var q := (size * i) / size;
    assert size * i == size * q + (size * i) % size;
    assert q < i ==> size * (q + 1) <= size * i;
    assert q > i ==> size * (i + 1) <= size * q;
  }

  /** The index that free computes from an address is the one that alloc used. */
  lemma IndexOfAddr(base: nat, size: nat, n: nat, i: nat)
    requires size > 0
    ensures (ObjAddr(base, size, n, i) - ObjAddr(base, size, n, 0)) / size == i
  {
    DivExact(size, i);
  }

  // ----- The chain of free slots -----

  datatype SlabState = SlabState(base: nat, free: int, next: seq<int>)

  /** The index that follows position `k` of a chain; -1 at the end. */
  function Succ(chain: seq<nat>, k: nat): (i: int) {
    if k + 1 < |chain| then chain[k + 1] else -1
  }

  /** `chain` lists the free slots in the order in which the index array links them. */
  ghost predicate Chained(s: SlabState, chain: seq<nat>) {
    && s.free == (if chain == [] then -1 else chain[0])
    && (forall k :: 0 <= k < |chain| ==> chain[k] < |s.next| && s.next[chain[k]] == Succ(chain, k))
    && (forall j, k :: 0 <= j < k < |chain| ==> chain[j] != chain[k])
  }

  function Popped(s: SlabState): (s': SlabState)
    requires 0 <= s.free < |s.next|
  {
    s.(free := s.next[s.free])
  }

  function Pushed(s: SlabState, i: nat): (s': SlabState)
    requires i < |s.next|
  {
    s.(next := s.next[i := s.free], free := i)
  }

  lemma PopChain(s: SlabState, chain: seq<nat>)
    requires Chained(s, chain) && chain != []
    ensures 0 <= s.free < |s.next| && Chained(Popped(s), chain[1..]) && s.free !in chain[1..]
  {
  }

  lemma PushChain(s: SlabState, chain: seq<nat>, i: nat)
    requires Chained(s, chain) && i < |s.next| && i !in chain
    ensures Chained(Pushed(s, i), [i] + chain)
  {
  }

  lemma {:induction false} FullChain(s: SlabState, n: nat, chain: seq<nat>)
    requires |s.next| == n == |chain| && n > 0 && s.free == 0
    requires forall i :: 0 <= i < n ==> chain[i] == i && s.next[i] == if i + 1 < n then i + 1 else -1
    ensures Chained(s, chain)
  {
  }

  // ----- A cache of slabs -----

  /** The pages of two slabs do not overlap. */
  predicate Apart(a: nat, b: nat, pages: nat) { a + pages * PAGE <= b || b + pages * PAGE <= a }

  /** A list holds exactly the slabs that are full, or exactly those that are not. */
  ghost predicate Lists(chains: seq<seq<nat>>, free: seq<nat>, full: seq<nat>) {
    && Distinct(free) && Distinct(full)
    && (forall s: nat {:trigger s in free} :: s in free <==> s < |chains| && chains[s] != [])
    && (forall s: nat {:trigger s in full} :: s in full <==> s < |chains| && chains[s] == [])
  }

  ghost predicate SlabsOk(slabs: seq<SlabState>, chains: seq<seq<nat>>, n: nat, pages: nat) {
    && |chains| == |slabs|
    && (forall s :: 0 <= s < |slabs| ==> |slabs[s].next| == n && Chained(slabs[s], chains[s]))
    && (forall s, t :: 0 <= s < t < |slabs| ==> Apart(slabs[s].base, slabs[t].base, pages))
  }

  /** Removing one element of a list. */
  function Without(l: seq<nat>, x: nat): (r: seq<nat>) {
    if l == [] then [] else if l[0] == x then l[1..] else [l[0]] + Without(l[1..], x)
  }

  lemma {:induction false} WithoutIs(l: seq<nat>, x: nat)
    requires Distinct(l)
    ensures Distinct(Without(l, x)) && forall y :: y in Without(l, x) <==> y in l && y != x
    decreases |l|
  {
    if l != [] {
      WithoutIs(l[1..], x);
      assert l == [l[0]] + l[1..];
      forall y
        ensures y in Without(l, x) <==> y in l && y != x
      {
        assert y in l <==> y == l[0] || y in l[1..];
        if l[0] == x { assert x !in l[1..]; }
      }
      if l[0] != x { assert l[0] !in Without(l[1..], x); }
    }
  }

  lemma AppendDistinct(l: seq<nat>, x: nat)
    requires Distinct(l) && x !in l
    ensures Distinct(l + [x]) && forall y :: y in l + [x] <==> y in l || y == x
  {
  }

  /** Every page of a slab is linked to it. */
  ghost predicate PagesOk(slabs: seq<SlabState>, pageSlab: map<nat, nat>, pages: nat) {
    forall s {:trigger slabs[s]} :: 0 <= s < |slabs| ==>
      slabs[s].base % PAGE == 0 && Linked(pageSlab, slabs[s].base / PAGE, pages, s)
  }

  ghost predicate Linked(pageSlab: map<nat, nat>, first: nat, count: nat, s: nat) {
    forall p: nat {:trigger p in pageSlab} :: first <= p < first + count ==> p in pageSlab && pageSlab[p] == s
  }

  lemma NewSlabLists(chains: seq<seq<nat>>, chain: seq<nat>, full: seq<nat>)
    requires Lists(chains, [], full) && chain != []
    ensures Lists(chains + [chain], [|chains|], full)
  {
  }

  lemma SlabAdded(slabs: seq<SlabState>, chains: seq<seq<nat>>, n: nat, pages: nat, pageSlab: map<nat, nat>,
                  s: SlabState, chain: seq<nat>)
    requires SlabsOk(slabs, chains, n, pages) && PagesOk(slabs, pageSlab, pages)
    requires |s.next| == n && Chained(s, chain) && s.base % PAGE == 0 && Linked(pageSlab, s.base / PAGE, pages, |slabs|)
    requires forall t :: 0 <= t < |slabs| ==> Apart(slabs[t].base, s.base, pages)
    ensures SlabsOk(slabs + [s], chains + [chain], n, pages) && PagesOk(slabs + [s], pageSlab, pages)
  {
  }

  /** The lists after the chain of slab `s` has become `c`: the slab moves when it becomes full, or stops being full. */
  lemma MovedLists(chains: seq<seq<nat>>, free: seq<nat>, full: seq<nat>, s: nat, c: seq<nat>)
    requires Lists(chains, free, full) && s < |chains|
    ensures var chains' := chains[s := c];
            && (chains[s] != [] && c != [] ==> Lists(chains', free, full))
            && (chains[s] != [] && c == [] ==> Lists(chains', Without(free, s), full + [s]))
            && (chains[s] == [] && c != [] ==> Lists(chains', free + [s], Without(full, s)))
  {
    if chains[s] != [] && c == [] {
      WithoutIs(free, s);
      AppendDistinct(full, s);
    } else if chains[s] == [] && c != [] {
      WithoutIs(full, s);
      AppendDistinct(free, s);
    }
  }

  class KmemCache {
    const size: nat
    var slabs: seq<SlabState>
    var free: seq<nat>
    var full: seq<nat>
    var pageSlab: map<nat, nat>
    /** The free slots of every slab, in the order of its chain. */
    ghost var chains: seq<seq<nat>>

    ghost predicate Valid()
      reads this
    {
      && size > 0 && SlabsOk(slabs, chains, ObjsFor(size), PagesFor(size)) && Lists(chains, free, full)
      && PagesOk(slabs, pageSlab, PagesFor(size))
    }

    constructor (objSize: nat)
      requires objSize > 0
      ensures Valid() && size == objSize && slabs == [] && chains == []
    {
      size := objSize;
      slabs, free, full, chains, pageSlab := [], [], [], [], map[];
    }

    /** Pages at `base` belong to no slab yet. */
    ghost predicate Unused(base: nat)
      reads this
    {
      base % PAGE == 0 && forall s :: 0 <= s < |slabs| ==> Apart(slabs[s].base, base, PagesFor(size))
    }

    /** A new slab on pages at `base`: all its slots are free. */
    method SlabCreate(base: nat)
      requires Valid() && free == [] && Unused(base)
      modifies this
      ensures Valid() && free == [|old(slabs)|] && full == old(full) && |slabs| == |old(slabs)| + 1
      ensures (forall s :: 0 <= s < |old(slabs)| ==> slabs[s] == old(slabs)[s]) && slabs[|old(slabs)|].base == base
      ensures chains == old(chains) + [Iota(ObjsFor(size))]
    {
      var n := ObjsFor(size);
      LayoutFits(size);
      LinkPages(base / PAGE, PagesFor(size), |slabs|);
      LinkedKept(slabs, old(pageSlab), pageSlab, base, PagesFor(size));
      var next := InitFree(n);
      FullChain(SlabState(base, 0, next), n, Iota(n));
      SlabAdded(slabs, chains, n, PagesFor(size), pageSlab, SlabState(base, 0, next), Iota(n));
      NewSlabLists(chains, Iota(n), full);
      slabs := slabs + [SlabState(base, 0, next)];
      chains := chains + [Iota(n)];
      free := free + [|slabs| - 1];
    }

    /** The index array of a slab in which every slot is free. */
    method InitFree(n: nat) returns (next: seq<int>)
      requires n > 0
      ensures |next| == n && forall i :: 0 <= i < n ==> next[i] == if i + 1 < n then i + 1 else -1
    {
      next := [];
      var i := 0;
      while i < n - 1
        invariant 0 <= i <= n - 1 && |next| == i && forall j :: 0 <= j < i ==> next[j] == j + 1
      {
        next := next + [i + 1];
        i := i + 1;
      }
      next := next + [-1];
    }

    /** Link `count` pages to slab `s`. */
    method LinkPages(first: nat, count: nat, s: nat)
      modifies `pageSlab
      ensures Linked(pageSlab, first, count, s)
      ensures forall p :: p in old(pageSlab) && !(first <= p < first + count) ==>
                p in pageSlab && pageSlab[p] == old(pageSlab)[p]
    {
      var i := 0;
      while i < count
        invariant 0 <= i <= count && Linked(pageSlab, first, i, s)
        invariant forall p :: p in old(pageSlab) && !(first <= p < first + count) ==>
                    p in pageSlab && pageSlab[p] == old(pageSlab)[p]
      {
        pageSlab := pageSlab[first + i := s];
        i := i + 1;
      }
    }

    /** Allocate an object; `pages` is what the page allocator would give for a new slab. */
    method Alloc(pages: Option<nat>) returns (obj: Option<nat>, ghost s: nat, ghost i: nat)
      requires Valid() && (pages.Some? ==> Unused(pages.value))
      modifies this
      ensures Valid() && (obj.None? <==> old(free) == [] && pages.None?)
      ensures obj.None? ==> slabs == old(slabs) && chains == old(chains)
      ensures obj.Some? ==> (s < |old(slabs)| <==> old(free) != [])
      ensures obj.Some? && s < |old(slabs)| ==> PoppedAt(old(slabs), slabs, s)
      ensures obj.Some? ==> s < |slabs| && i < ObjsFor(size) && i !in chains[s]
      ensures obj.Some? ==> s < |slabs| && obj.value == ObjAddr(slabs[s].base, size, ObjsFor(size), i)
      ensures obj.Some? ==>
                Took(if s < |old(slabs)| then old(chains) else old(chains) + [Iota(ObjsFor(size))], chains, s, i)
      ensures forall t :: 0 <= t < |old(slabs)| ==> t < |slabs| && slabs[t].base == old(slabs)[t].base
    {
      s, i := 0, 0;
      if free == [] {
        if pages.None? { return None, 0, 0; }
        SlabCreate(pages.value);
      }
      assert free[0] in free;
      s := free[0];
      var a;
      a, i := Pop(free[0]);
      obj := Some(a);
    }

    /** Take the first free slot of the first slab on the free list. */
    method Pop(s: nat) returns (obj: nat, ghost i: nat)
      requires Valid() && s < |slabs| && chains[s] != []
      modifies `slabs, `chains, `free, `full
      ensures Valid() && |slabs| == |old(slabs)| && Took(old(chains), chains, s, i)
      ensures PoppedAt(old(slabs), slabs, s) && i !in chains[s]
      ensures forall t :: 0 <= t < |slabs| ==> slabs[t].base == old(slabs)[t].base
      ensures i < ObjsFor(size) && obj == ObjAddr(slabs[s].base, size, ObjsFor(size), i)
    {
      ghost var c := chains[s];
      PopChain(slabs[s], c);
      i := c[0];
      obj := ObjAddr(slabs[s].base, size, ObjsFor(size), slabs[s].free);
      MovedLists(chains, free, full, s, c[1..]);
      slabs := slabs[s := Popped(slabs[s])];
      chains := chains[s := c[1..]];
      if slabs[s].free == -1 {
        free, full := Without(free, s), full + [s];
      }
    }

    /** The slab and the slot of an object, from its address. */
    method Locate(obj: nat, ghost s: nat, ghost i: nat) returns (t: nat, index: nat)
      requires size > 0 && PagesOk(slabs, pageSlab, PagesFor(size)) && s < |slabs| && i < ObjsFor(size)
      requires obj == ObjAddr(slabs[s].base, size, ObjsFor(size), i)
      ensures t == s && index == i
    {
      var n := ObjsFor(size);
      PageOfObj(slabs, pageSlab, size, s, i);
      t := pageSlab[obj / PAGE];
      IndexOfAddr(slabs[t].base, size, n, i);
      index := (obj - ObjAddr(slabs[t].base, size, n, 0)) / size;
    }

    /** Give an object back: its slab and slot are computed from the address. */
    method Free(obj: nat, ghost s: nat, ghost i: nat)
      requires Valid() && s < |slabs| && i < ObjsFor(size) && i !in chains[s]
      requires obj == ObjAddr(slabs[s].base, size, ObjsFor(size), i)
      modifies `slabs, `chains, `free, `full
      ensures Valid() && |slabs| == |old(slabs)| && chains == old(chains)[s := [i] + old(chains)[s]]
      ensures slabs == old(slabs)[s := Pushed(old(slabs)[s], i)]
    {
      var t, index := Locate(obj, s, i);
      var wasFull := slabs[t].free == -1;
      PushChain(slabs[t], chains[t], index);
      MovedLists(chains, free, full, t, [i] + chains[t]);
      slabs := slabs[t := Pushed(slabs[t], index)];
      chains := chains[t := [i] + chains[t]];
      if wasFull {
        full, free := Without(full, t), free + [t];
      }
    }

    /** Freeing what was just allocated: every free chain and every slab is as before, but for a slab that is new. */
    method AllocFree(pages: Option<nat>) returns (obj: Option<nat>)
      requires Valid() && (pages.Some? ==> Unused(pages.value))
      modifies this
      ensures Valid()
      ensures chains == old(chains) + if old(free) == [] && pages.Some? then [Iota(ObjsFor(size))] else []
      ensures old(free) != [] ==> slabs == old(slabs)
    {
      ghost var s, i;
      obj, s, i := Alloc(pages);
      if obj.Some? {
        ghost var before := if s < |old(slabs)| then old(chains) else old(chains) + [Iota(ObjsFor(size))];
        TookBack(before, chains, s, i);
        if s < |old(slabs)| { PopPush(old(slabs), old(chains)[s], slabs, s); }
        Free(obj.value, s, i);
      }
    }
  }

  /** The first slot of the chain of slab `s` has been taken off. */
  ghost predicate PoppedAt(slabs0: seq<SlabState>, slabs1: seq<SlabState>, s: nat) {
    s < |slabs0| && 0 <= slabs0[s].free < |slabs0[s].next| && slabs1 == slabs0[s := Popped(slabs0[s])]
  }

  /** Putting back the slot that was taken off restores the slab. */
  lemma PopPush(slabs0: seq<SlabState>, chain: seq<nat>, slabs1: seq<SlabState>, s: nat)
    requires PoppedAt(slabs0, slabs1, s) && Chained(slabs0[s], chain) && chain != []
    ensures chain[0] < |slabs1[s].next| && slabs1[s := Pushed(slabs1[s], chain[0])] == slabs0
  {
    assert Pushed(Popped(slabs0[s]), chain[0]) == slabs0[s];
  }

  lemma TookBack(chains0: seq<seq<nat>>, chains1: seq<seq<nat>>, s: nat, i: nat)
    requires Took(chains0, chains1, s, i)
    ensures s < |chains1| && chains1[s := [i] + chains1[s]] == chains0
  {
    assert [i] + chains1[s] == chains0[s];
  }

  function Iota(n: nat): (s: seq<nat>)
    ensures |s| == n && forall i :: 0 <= i < n ==> s[i] == i
  {
    seq(n, i requires 0 <= i => i)
  }

  /** Slot `i` of slab `s` was the first free one, and is in use now; nothing else has changed. */
  ghost predicate Took(chains0: seq<seq<nat>>, chains1: seq<seq<nat>>, s: nat, i: nat) {
    s < |chains0| && chains0[s] != [] && chains0[s][0] == i && chains1 == chains0[s := chains0[s][1..]]
  }

  lemma LinkedKept(slabs: seq<SlabState>, pageSlab0: map<nat, nat>, pageSlab1: map<nat, nat>, base: nat, pages: nat)
    requires PagesOk(slabs, pageSlab0, pages) && base % PAGE == 0
    requires forall s :: 0 <= s < |slabs| ==> Apart(slabs[s].base, base, pages)
    requires forall p :: p in pageSlab0 && !(base / PAGE <= p < base / PAGE + pages) ==>
               p in pageSlab1 && pageSlab1[p] == pageSlab0[p]
    ensures PagesOk(slabs, pageSlab1, pages)
  {
  }

  /** The page of the first byte of an object is linked to its slab. */
  lemma PageOfObj(slabs: seq<SlabState>, pageSlab: map<nat, nat>, size: nat, s: nat, i: nat)
    requires size > 0 && PagesOk(slabs, pageSlab, PagesFor(size)) && s < |slabs| && i < ObjsFor(size)
    ensures var p := ObjAddr(slabs[s].base, size, ObjsFor(size), i) / PAGE; p in pageSlab && pageSlab[p] == s
  {
    var base, pages := slabs[s].base, PagesFor(size);
    var obj := ObjAddr(base, size, ObjsFor(size), i);
    ObjInside(base, size, i, i);
    PageBetween(base, obj, pages);
  }

  lemma PageBetween(base: nat, obj: nat, pages: nat)
    requires base % PAGE == 0 && base <= obj < base + pages * PAGE
    ensures base / PAGE <= obj / PAGE < base / PAGE + pages
  {
  }

  /** Objects in different slots, of one slab or of two, do not overlap. */
  lemma ObjectsApart(slabs: seq<SlabState>, chains: seq<seq<nat>>, size: nat, s: nat, i: nat, t: nat, j: nat)
    requires size > 0 && SlabsOk(slabs, chains, ObjsFor(size), PagesFor(size))
    requires s < |slabs| && t < |slabs| && i < ObjsFor(size) && j < ObjsFor(size) && (s, i) != (t, j)
    ensures var a, b := ObjAddr(slabs[s].base, size, ObjsFor(size), i), ObjAddr(slabs[t].base, size, ObjsFor(size), j);
            a + size <= b || b + size <= a
  {
    ObjInside(slabs[s].base, size, i, j);
    ObjInside(slabs[t].base, size, j, i);
    assert s == t || Apart(slabs[s].base, slabs[t].base, PagesFor(size))
           || Apart(slabs[t].base, slabs[s].base, PagesFor(size));
  }
}
