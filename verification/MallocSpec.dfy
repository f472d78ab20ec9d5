/**
 The heap of lib/malloc.c as values: memory as a sequence of units of one header
 (16 bytes) each, the circular free list, and the effect of each pointer update
 on them.  The ghost sequence `own` gives every unit obtained from `sbrk` the
 address of the block it belongs to, and 0 to every other unit, so no unit can
 be in two blocks or in none.
 */
module MallocSpec {

  datatype Header = Header(ptr: nat, size: nat)

  type Mem = seq<Header>
  type Owner = seq<nat>

  // ----- Blocks -----

  /** `a` is the address of the header of a block, free or live. */
  ghost predicate Head(own: Owner, a: int) {
    0 < a < |own| && own[a] == a
  }

  ghost predicate Covers(mem: Mem, a: int, u: int) {
    0 <= a < |mem| && a <= u < a + mem[a].size
  }

  /** The block that unit `u` belongs to, or 0. */
  ghost function At(own: Owner, u: int): (a: nat) {
    if 0 <= u < |own| then own[u] else 0
  }

  /** The units of the heap are exactly tiled by blocks. */
  ghost predicate Tiling(mem: Mem, own: Owner) {
    && |own| == |mem|
    && (forall a :: Head(own, a) ==> mem[a].size >= 1 && a + mem[a].size <= |mem|)
    && (forall u :: At(own, u) != 0 ==> Head(own, At(own, u)) && Covers(mem, At(own, u), u))
    && (forall a, u :: Head(own, a) && Covers(mem, a, u) ==> own[u] == a)
  }

  // ----- The free list -----

  ghost predicate Within(mem: Mem, fl: seq<nat>) {
    forall i :: 0 <= i < |fl| ==> fl[i] < |mem|
  }

  /** The entry that follows entry `i` on the ring. */
  ghost function After(fl: seq<nat>, i: nat): (a: nat)
    requires i < |fl|
  {
    if i + 1 == |fl| then fl[0] else fl[i + 1]
  }

  /** Following `ptr` visits the listed headers in order and returns to the first. */
  ghost predicate Ring(mem: Mem, fl: seq<nat>) {
    && |fl| >= 1 && Within(mem, fl)
    && (forall i {:trigger After(fl, i)} :: 0 <= i < |fl| ==> mem[fl[i]].ptr == After(fl, i))
  }

  ghost predicate Increasing(fl: seq<nat>) {
    forall i, j :: 0 <= i < j < |fl| ==> fl[i] < fl[j]
  }

  /** No two neighbours on the list touch, except perhaps those in `skip` and what follows. */
  ghost predicate Tight(mem: Mem, fl: seq<nat>, skip: set<nat>)
    requires Within(mem, fl)
  {
    forall i {:trigger After(fl, i)} :: 0 <= i < |fl| - 1 && fl[i] !in skip ==> fl[i] + mem[fl[i]].size < After(fl, i)
  }

  /** `base` is the sentinel below the heap; every other block is listed or live. */
  ghost predicate Divided(mem: Mem, own: Owner, fl: seq<nat>, live: set<nat>, base: nat) {
    && |fl| >= 1 && fl[0] == base && 0 < base < |mem| && mem[base].size == 0
    && (forall u {:trigger own[u]} :: 0 <= u <= base && u < |own| ==> own[u] == 0)
    && (forall i :: 1 <= i < |fl| ==> Head(own, fl[i]))
    && (forall a :: a in live ==> Head(own, a))
    && (forall a :: Head(own, a) ==> (a in live <==> a !in fl))
  }

  ghost predicate Inv(mem: Mem, own: Owner, fl: seq<nat>, live: set<nat>, base: nat) {
    Tiling(mem, own) && Ring(mem, fl) && Increasing(fl) && Divided(mem, own, fl, live, base)
  }

  /** Blocks with different headers have no unit in common. */
  lemma BlocksDisjoint(mem: Mem, own: Owner, a: nat, b: nat)
    requires Tiling(mem, own) && Head(own, a) && Head(own, b) && a < b
    ensures a + mem[a].size <= b
  {
  }

  // ----- Taking a block off the list -----

  ghost function Drop(fl: seq<nat>, k: nat): (r: seq<nat>)
    requires k < |fl|
    ensures |r| == |fl| - 1
    ensures forall i {:trigger r[i]} :: 0 <= i < k ==> r[i] == fl[i]
    ensures forall i {:trigger r[i]} :: k <= i < |r| ==> r[i] == fl[i + 1]
  {
    fl[..k] + fl[k + 1..]
  }

  lemma InDrop(fl: seq<nat>, k: nat, a: nat)
    requires k < |fl| && Increasing(fl)
    ensures a in Drop(fl, k) <==> a in fl && a != fl[k]
  {
  }

  /** Memory after the predecessor of entry `k` has been made to point past it. */
  ghost function UnlinkMem(mem: Mem, fl: seq<nat>, k: nat): (r: Mem)
    requires Ring(mem, fl) && 1 <= k < |fl|
    ensures |r| == |mem|
  {
    mem[fl[k - 1] := mem[fl[k - 1]].(ptr := mem[fl[k]].ptr)]
  }

  lemma UnlinkRing(mem: Mem, fl: seq<nat>, k: nat)
    requires Ring(mem, fl) && Increasing(fl) && 1 <= k < |fl|
    ensures Ring(UnlinkMem(mem, fl, k), Drop(fl, k)) && Increasing(Drop(fl, k))
  {
    var mem', r := UnlinkMem(mem, fl, k), Drop(fl, k);
    forall i | 0 <= i < |r|
      ensures mem'[r[i]].ptr == After(r, i)
    {
      var j := if i < k then i else i + 1;
      assert r[i] == fl[j] && mem[fl[j]].ptr == After(fl, j);
      if j == k - 1 { assert mem[fl[k]].ptr == After(fl, k); } else { assert fl[j] != fl[k - 1]; }
    }
  }

  lemma DividedDrop(mem: Mem, own: Owner, fl: seq<nat>, live: set<nat>, base: nat, k: nat)
    requires Divided(mem, own, fl, live, base) && Increasing(fl) && 1 <= k < |fl|
    ensures Divided(mem, own, Drop(fl, k), live + {fl[k]}, base)
  {
  }

  lemma TightDrop(mem: Mem, fl: seq<nat>, k: nat)
    requires Within(mem, fl) && Increasing(fl) && Tight(mem, fl, {}) && k < |fl|
    ensures Within(mem, Drop(fl, k)) && Tight(mem, Drop(fl, k), {})
  {
    var r := Drop(fl, k);
    forall i | 0 <= i < |r| - 1
      ensures r[i] + mem[r[i]].size < After(r, i)
    {
      var j := if i < k then i else i + 1;
      assert r[i] == fl[j] && fl[j] + mem[fl[j]].size < After(fl, j);
      if i == k - 1 { assert fl[k] < fl[k + 1]; }
    }
  }

  ghost predicate SameSizes(mem: Mem, mem': Mem) {
    |mem'| == |mem| && forall a :: 0 <= a < |mem| ==> mem'[a].size == mem[a].size
  }

  /** Changing only pointers does not change the blocks. */
  lemma SameSizesTiling(mem: Mem, own: Owner, mem': Mem)
    requires Tiling(mem, own) && SameSizes(mem, mem')
    ensures Tiling(mem', own)
  {
  }

  /** Unlinking entry `k` makes it live. */
  lemma UnlinkKeeps(mem: Mem, own: Owner, fl: seq<nat>, live: set<nat>, base: nat, k: nat)
    requires Inv(mem, own, fl, live, base) && 1 <= k < |fl|
    ensures Inv(UnlinkMem(mem, fl, k), own, Drop(fl, k), live + {fl[k]}, base)
    ensures Tight(mem, fl, {}) ==> Tight(UnlinkMem(mem, fl, k), Drop(fl, k), {})
  {
    var mem' := UnlinkMem(mem, fl, k);
    UnlinkRing(mem, fl, k);
    SameSizesTiling(mem, own, mem');
    DividedDrop(mem, own, fl, live, base, k);
    if Tight(mem, fl, {}) { TightDrop(mem, fl, k); }
  }

  // ----- Giving a span of units to one block -----

  ghost function Claim(own: Owner, b: nat, n: nat): (r: Owner)
    requires b + n <= |own|
    ensures |r| == |own|
    ensures forall u :: 0 <= u < |own| ==> r[u] == if b <= u < b + n then b else own[u]
  {
    seq(|own|, u requires 0 <= u < |own| => if b <= u < b + n then b else own[u])
  }

  // ----- Cutting the tail off a free block -----

  ghost function Tail(mem: Mem, a: nat, n: nat): (b: nat)
    requires a < |mem| && n < mem[a].size
  {
    a + mem[a].size - n
  }

  /** Memory after the last `n` units of block `a` have become a block of their own. */
  ghost function CarveMem(mem: Mem, a: nat, n: nat): (r: Mem)
    requires a < |mem| && n < mem[a].size && Tail(mem, a, n) < |mem|
    ensures |r| == |mem|
  {
    var b := Tail(mem, a, n);
    mem[a := mem[a].(size := mem[a].size - n)][b := mem[b].(size := n)]
  }

  lemma CarveHeads(mem: Mem, own: Owner, a: nat, n: nat, x: int)
    requires Tiling(mem, own) && Head(own, a) && 1 <= n < mem[a].size
    ensures var b := Tail(mem, a, n);
            && b + n <= |own| && own[b] == a && !Head(own, b)
            && (Head(Claim(own, b, n), x) <==> Head(own, x) || x == b)
  {
  }

  lemma CarveCovered(mem: Mem, own: Owner, a: nat, n: nat, u: int)
    requires Tiling(mem, own) && Head(own, a) && 1 <= n < mem[a].size
    requires 0 <= u < |own| && Tail(mem, a, n) + n <= |own|
    requires Claim(own, Tail(mem, a, n), n)[u] != 0
    ensures var own' := Claim(own, Tail(mem, a, n), n);
            Head(own', own'[u]) && Covers(CarveMem(mem, a, n), own'[u], u)
  {
    var b := Tail(mem, a, n);
    CarveHeads(mem, own, a, n, Claim(own, b, n)[u]);
    if b <= u < b + n { assert Covers(mem, a, u); }
    assert At(own, u) == own[u];
  }

  lemma CarveUnique(mem: Mem, own: Owner, a: nat, n: nat, x: int, u: int)
    requires Tiling(mem, own) && Head(own, a) && 1 <= n < mem[a].size && Tail(mem, a, n) + n <= |own|
    requires Head(Claim(own, Tail(mem, a, n), n), x) && Covers(CarveMem(mem, a, n), x, u)
    ensures u < |own| && Claim(own, Tail(mem, a, n), n)[u] == x
  {
    var b := Tail(mem, a, n);
    CarveHeads(mem, own, a, n, x);
    if b <= u < b + n { assert Covers(mem, a, u); }
    if x != b { assert Covers(mem, x, u); }
  }

  lemma CarveTiling(mem: Mem, own: Owner, a: nat, n: nat)
    requires Tiling(mem, own) && Head(own, a) && 1 <= n < mem[a].size
    ensures Tail(mem, a, n) + n <= |own|
    ensures Tiling(CarveMem(mem, a, n), Claim(own, Tail(mem, a, n), n))
  {
    var mem', own' := CarveMem(mem, a, n), Claim(own, Tail(mem, a, n), n);
    forall x | Head(own', x)
      ensures mem'[x].size >= 1 && x + mem'[x].size <= |mem'|
    {
      CarveHeads(mem, own, a, n, x);
    }
    forall u | At(own', u) != 0
      ensures Head(own', At(own', u)) && Covers(mem', At(own', u), u)
    {
      CarveCovered(mem, own, a, n, u);
    }
    forall x, u | Head(own', x) && Covers(mem', x, u)
      ensures own'[u] == x
    {
      CarveUnique(mem, own, a, n, x, u);
    }
  }

  lemma CarveKeeps(mem: Mem, own: Owner, fl: seq<nat>, live: set<nat>, base: nat, k: nat, n: nat)
    requires Inv(mem, own, fl, live, base) && 1 <= k < |fl| && 1 <= n < mem[fl[k]].size
    ensures var b := Tail(mem, fl[k], n);
            && b + n <= |own| && own[b] == fl[k] && b !in live
            && Inv(CarveMem(mem, fl[k], n), Claim(own, b, n), fl, live + {b}, base)
            && (Tight(mem, fl, {}) ==> Tight(CarveMem(mem, fl[k], n), fl, {}))
  {
    var a := fl[k];
    var b := Tail(mem, a, n);
    CarveTiling(mem, own, a, n);
    CarveHeads(mem, own, a, n, b);
    assert b !in fl;
    ListShrinks(mem, fl, CarveMem(mem, a, n), a, b);
    CarveDivided(mem, own, fl, live, base, k, n);
  }

  lemma CarveDivided(mem: Mem, own: Owner, fl: seq<nat>, live: set<nat>, base: nat, k: nat, n: nat)
    requires Inv(mem, own, fl, live, base) && 1 <= k < |fl| && 1 <= n < mem[fl[k]].size
    requires Tail(mem, fl[k], n) + n <= |own| && Tail(mem, fl[k], n) !in fl
    ensures var b := Tail(mem, fl[k], n);
            Divided(CarveMem(mem, fl[k], n), Claim(own, b, n), fl, live + {b}, base)
  {
    var b := Tail(mem, fl[k], n);
    var own' := Claim(own, b, n);
    forall x
      ensures Head(own', x) <==> Head(own, x) || x == b
    {
      CarveHeads(mem, own, fl[k], n, x);
    }
    assert base < fl[k] < b;
  }

  /** Shrinking one listed block and writing one unlisted header keeps the list. */
  lemma ListShrinks(mem: Mem, fl: seq<nat>, mem': Mem, a: nat, b: nat)
    requires Ring(mem, fl) && b !in fl && a < |mem| && b < |mem| && a != b && |mem'| == |mem|
    requires forall x :: 0 <= x < |mem| && x != a && x != b ==> mem'[x] == mem[x]
    requires mem'[a].ptr == mem[a].ptr && mem'[a].size <= mem[a].size
    ensures Ring(mem', fl)
    ensures Tight(mem, fl, {}) ==> Tight(mem', fl, {})
  {
  }

  // ----- Putting a live block on the list -----

  ghost function Insert(fl: seq<nat>, t: nat, b: nat): (r: seq<nat>)
    requires t < |fl|
    ensures |r| == |fl| + 1
    ensures forall i {:trigger r[i]} :: 0 <= i <= t ==> r[i] == fl[i]
    ensures r[t + 1] == b
    ensures forall i {:trigger r[i]} :: t + 2 <= i < |r| ==> r[i] == fl[i - 1]
    ensures forall a :: a in r <==> a in fl || a == b
  {
    assert fl == fl[..t + 1] + fl[t + 1..];
    fl[..t + 1] + [b] + fl[t + 1..]
  }

  /** `b` lies between entry `t` and the next one in address order. */
  ghost predicate Between(fl: seq<nat>, t: nat, b: nat) {
    t < |fl| && fl[t] < b && (t + 1 < |fl| ==> b < fl[t + 1])
  }

  ghost function InsertMem(mem: Mem, p: nat, b: nat): (r: Mem)
    requires p < |mem| && b < |mem|
    ensures |r| == |mem|
  {
    mem[b := mem[b].(ptr := mem[p].ptr)][p := mem[p].(ptr := b)]
  }

  lemma InsertIncreasing(fl: seq<nat>, t: nat, b: nat)
    requires Increasing(fl) && Between(fl, t, b)
    ensures Increasing(Insert(fl, t, b))
  {
  }

  lemma InsertRing(mem: Mem, fl: seq<nat>, t: nat, b: nat)
    requires Ring(mem, fl) && Increasing(fl) && Between(fl, t, b) && b < |mem|
    ensures Ring(InsertMem(mem, fl[t], b), Insert(fl, t, b))
  {
    InsertIncreasing(fl, t, b);
    var mem', r := InsertMem(mem, fl[t], b), Insert(fl, t, b);
    forall i | 0 <= i < |r|
      ensures mem'[r[i]].ptr == After(r, i)
    {
      var j := if i <= t then i else i - 1;
      assert mem[fl[j]].ptr == After(fl, j);
      if i != t { assert r[i] != r[t]; }
      if i != t + 1 { assert r[i] != r[t + 1]; }
    }
  }

  lemma InsertKeeps(mem: Mem, own: Owner, fl: seq<nat>, live: set<nat>, base: nat, t: nat, b: nat)
    requires Inv(mem, own, fl, live, base) && Between(fl, t, b) && b in live
    ensures Inv(InsertMem(mem, fl[t], b), own, Insert(fl, t, b), live - {b}, base)
    ensures Tight(mem, fl, {}) ==> Tight(InsertMem(mem, fl[t], b), Insert(fl, t, b), {fl[t], b})
  {
    var mem', r := InsertMem(mem, fl[t], b), Insert(fl, t, b);
    InsertRing(mem, fl, t, b);
    InsertIncreasing(fl, t, b);
    SameSizesTiling(mem, own, mem');
    assert Divided(mem', own, r, live - {b}, base);
    if Tight(mem, fl, {}) { InsertTight(mem, fl, mem', t, b); }
  }

  lemma InsertTight(mem: Mem, fl: seq<nat>, mem': Mem, t: nat, b: nat)
    requires Within(mem, fl) && Tight(mem, fl, {}) && SameSizes(mem, mem') && t < |fl| && b < |mem|
    ensures Within(mem', Insert(fl, t, b)) && Tight(mem', Insert(fl, t, b), {fl[t], b})
  {
    var r := Insert(fl, t, b);
    forall i | 0 <= i < |r| - 1 && r[i] !in {fl[t], b}
      ensures r[i] + mem'[r[i]].size < After(r, i)
    {
      assert i != t && i != t + 1;
      var j := if i < t then i else i - 1;
      assert r[i] == fl[j] && After(r, i) == After(fl, j);
    }
  }

  // ----- Joining two listed neighbours that touch -----

  /** Block `a` absorbs block `c`, which starts right where it ends. */
  ghost function MergeMem(mem: Mem, a: nat, c: nat): (r: Mem)
    requires a < |mem| && c < |mem|
    ensures |r| == |mem|
  {
    mem[a := Header(mem[c].ptr, mem[a].size + mem[c].size)]
  }

  ghost predicate Touching(mem: Mem, own: Owner, a: nat, c: nat) {
    Tiling(mem, own) && Head(own, a) && Head(own, c) && a + mem[a].size == c
  }

  lemma MergeHeads(mem: Mem, own: Owner, a: nat, c: nat, x: int)
    requires Touching(mem, own, a, c)
    ensures var n := mem[a].size + mem[c].size;
            && a + n <= |own|
            && (Head(Claim(own, a, n), x) <==> Head(own, x) && x != c)
  {
  }

  lemma MergeTiling(mem: Mem, own: Owner, a: nat, c: nat)
    requires Touching(mem, own, a, c)
    ensures a + (mem[a].size + mem[c].size) <= |own|
    ensures Tiling(MergeMem(mem, a, c), Claim(own, a, mem[a].size + mem[c].size))
  {
    MergeHeads(mem, own, a, c, a);
    var n := mem[a].size + mem[c].size;
    var mem', own' := MergeMem(mem, a, c), Claim(own, a, n);
    forall x | Head(own', x)
      ensures mem'[x].size >= 1 && x + mem'[x].size <= |mem'|
    {
      MergeHeads(mem, own, a, c, x);
    }
    forall u | At(own', u) != 0
      ensures Head(own', At(own', u)) && Covers(mem', At(own', u), u)
    {
      MergeCovered(mem, own, a, c, u);
    }
    forall x, u | Head(own', x) && Covers(mem', x, u)
      ensures own'[u] == x
    {
      MergeUnique(mem, own, a, c, x, u);
    }
  }

  lemma MergeCovered(mem: Mem, own: Owner, a: nat, c: nat, u: int)
    requires Touching(mem, own, a, c) && 0 <= u < |own| && a + (mem[a].size + mem[c].size) <= |own|
    requires Claim(own, a, mem[a].size + mem[c].size)[u] != 0
    ensures var own' := Claim(own, a, mem[a].size + mem[c].size);
            Head(own', own'[u]) && Covers(MergeMem(mem, a, c), own'[u], u)
  {
    var n := mem[a].size + mem[c].size;
    MergeHeads(mem, own, a, c, Claim(own, a, n)[u]);
    if !(a <= u < a + n) { assert At(own, u) == own[u]; }
  }

  lemma MergeUnique(mem: Mem, own: Owner, a: nat, c: nat, x: int, u: int)
    requires Touching(mem, own, a, c) && a + (mem[a].size + mem[c].size) <= |own|
    requires Head(Claim(own, a, mem[a].size + mem[c].size), x) && Covers(MergeMem(mem, a, c), x, u)
    ensures u < |own| && Claim(own, a, mem[a].size + mem[c].size)[u] == x
  {
    MergeHeads(mem, own, a, c, x);
    if x < a { BlocksDisjoint(mem, own, x, a); }
    if x > c { BlocksDisjoint(mem, own, c, x); }
    if x != a { assert Covers(mem, x, u); }
  }

  lemma MergeKeeps(mem: Mem, own: Owner, fl: seq<nat>, live: set<nat>, base: nat, j: nat, skip: set<nat>,
                   skip': set<nat>)
    requires Inv(mem, own, fl, live, base) && j + 1 < |fl| && fl[j] + mem[fl[j]].size == fl[j + 1]
    requires Tight(mem, fl, skip) && fl[j + 1] !in skip && skip <= skip' + {fl[j]}
    ensures j >= 1
    ensures var n := mem[fl[j]].size + mem[fl[j + 1]].size;
            && fl[j] + n <= |own|
            && Inv(MergeMem(mem, fl[j], fl[j + 1]), Claim(own, fl[j], n), Drop(fl, j + 1), live, base)
            && Tight(MergeMem(mem, fl[j], fl[j + 1]), Drop(fl, j + 1), skip')
  {
    assert fl[j] < fl[j + 1];
    var a, c := fl[j], fl[j + 1];
    assert Touching(mem, own, a, c);
    MergeTiling(mem, own, a, c);
    MergeRing(mem, fl, j);
    MergeDivided(mem, own, fl, live, base, j);
    MergeTight(mem, fl, j, skip, skip');
  }

  lemma MergeRing(mem: Mem, fl: seq<nat>, j: nat)
    requires Ring(mem, fl) && Increasing(fl) && j + 1 < |fl|
    ensures Ring(MergeMem(mem, fl[j], fl[j + 1]), Drop(fl, j + 1)) && Increasing(Drop(fl, j + 1))
  {
    var mem' := MergeMem(mem, fl[j], fl[j + 1]);
    UnlinkRing(mem, fl, j + 1);
    var r := Drop(fl, j + 1);
    forall i | 0 <= i < |r|
      ensures mem'[r[i]].ptr == After(r, i)
    {
      assert UnlinkMem(mem, fl, j + 1)[r[i]].ptr == After(r, i);
    }
  }

  lemma MergeDivided(mem: Mem, own: Owner, fl: seq<nat>, live: set<nat>, base: nat, j: nat)
    requires Inv(mem, own, fl, live, base) && 1 <= j && j + 1 < |fl| && fl[j] + mem[fl[j]].size == fl[j + 1]
    requires fl[j] + (mem[fl[j]].size + mem[fl[j + 1]].size) <= |own|
    ensures Divided(MergeMem(mem, fl[j], fl[j + 1]), Claim(own, fl[j], mem[fl[j]].size + mem[fl[j + 1]].size),
                    Drop(fl, j + 1), live, base)
  {
    var a, c := fl[j], fl[j + 1];
    var own' := Claim(own, a, mem[a].size + mem[c].size);
    var r := Drop(fl, j + 1);
    forall i | 1 <= i < |r|
      ensures Head(own', r[i])
    {
      assert r[i] == fl[if i <= j then i else i + 1] && r[i] != c;
      MergeHeads(mem, own, a, c, r[i]);
    }
    forall x | Head(own', x)
      ensures x in live <==> x !in r
    {
      MergeHeads(mem, own, a, c, x);
      InDrop(fl, j + 1, x);
    }
    assert c in fl;
    forall x | x in live
      ensures Head(own', x)
    {
      MergeHeads(mem, own, a, c, x);
    }
    assert base < a;
  }

  lemma MergeTight(mem: Mem, fl: seq<nat>, j: nat, skip: set<nat>, skip': set<nat>)
    requires Within(mem, fl) && Increasing(fl) && j + 1 < |fl| && fl[j] + mem[fl[j]].size == fl[j + 1]
    requires Tight(mem, fl, skip) && fl[j + 1] !in skip && skip <= skip' + {fl[j]}
    ensures Within(mem, Drop(fl, j + 1))
    ensures Tight(MergeMem(mem, fl[j], fl[j + 1]), Drop(fl, j + 1), skip')
  {
    var mem', r := MergeMem(mem, fl[j], fl[j + 1]), Drop(fl, j + 1);
    forall i | 0 <= i < |r| - 1 && r[i] !in skip'
      ensures r[i] + mem'[r[i]].size < After(r, i)
    {
      if i < j {
        assert fl[i] != fl[j] && After(r, i) == After(fl, i);
      } else {
        assert After(r, i) == After(fl, i + 1) && fl[i + 1] != fl[j];
      }
    }
  }

  // ----- New units from sbrk -----

  /** The `n` units from `p` on are not part of the heap. */
  ghost predicate Unused(own: Owner, p: nat, n: nat) {
    p + n <= |own| && forall u :: p <= u < p + n ==> own[u] == 0
  }

  lemma GrowKeeps(mem: Mem, own: Owner, fl: seq<nat>, live: set<nat>, base: nat, p: nat, n: nat)
    requires Inv(mem, own, fl, live, base) && Unused(own, p, n) && base < p && n >= 1
    ensures Inv(mem[p := mem[p].(size := n)], Claim(own, p, n), fl, live + {p}, base)
    ensures Tight(mem, fl, {}) ==> Tight(mem[p := mem[p].(size := n)], fl, {})
    ensures p !in live && p !in fl
  {
    var mem', own' := mem[p := mem[p].(size := n)], Claim(own, p, n);
    assert !Head(own, p);
    assert p !in fl;
    forall i | 0 <= i < |fl|
      ensures mem'[fl[i]] == mem[fl[i]]
    {
      assert fl[i] in fl;
    }
    GrowTiling(mem, own, p, n);
    assert forall x :: Head(own', x) <==> Head(own, x) || x == p;
  }

  lemma GrowTiling(mem: Mem, own: Owner, p: nat, n: nat)
    requires Tiling(mem, own) && Unused(own, p, n) && p > 0 && n >= 1
    ensures Tiling(mem[p := mem[p].(size := n)], Claim(own, p, n))
    ensures forall x :: Head(Claim(own, p, n), x) <==> Head(own, x) || x == p
  {
    var mem', own' := mem[p := mem[p].(size := n)], Claim(own, p, n);
    forall u | At(own', u) != 0
      ensures Head(own', At(own', u)) && Covers(mem', At(own', u), u)
    {
      if !(p <= u < p + n) { assert At(own, u) == own[u]; }
    }
    forall x, u | Head(own', x) && Covers(mem', x, u)
      ensures own'[u] == x
    {
      if x != p { assert Covers(mem, x, u); }
    }
  }

  // ----- What a step leaves alone -----

  /** The blocks in `s` keep their sizes and exactly their units. */
  ghost predicate Kept(mem: Mem, own: Owner, mem': Mem, own': Owner, s: set<nat>) {
    && |mem'| == |mem| == |own'| == |own|
    && (forall a :: a in s && a < |mem| ==> mem'[a].size == mem[a].size)
    && (forall u :: At(own, u) in s || At(own', u) in s ==> At(own', u) == At(own, u))
  }

  lemma KeptTrans(mem: Mem, own: Owner, mem1: Mem, own1: Owner, mem2: Mem, own2: Owner, s: set<nat>)
    requires Kept(mem, own, mem1, own1, s) && Kept(mem1, own1, mem2, own2, s)
    ensures Kept(mem, own, mem2, own2, s)
  {
  }

  /** The same units belong to the heap. */
  ghost predicate SameHeap(own: Owner, own': Owner) {
    |own'| == |own| && forall u :: 0 <= u < |own| ==> (own'[u] != 0 <==> own[u] != 0)
  }

  lemma MergeLeaves(mem: Mem, own: Owner, fl: seq<nat>, live: set<nat>, base: nat, j: nat)
    requires Inv(mem, own, fl, live, base) && 1 <= j && j + 1 < |fl| && fl[j] + mem[fl[j]].size == fl[j + 1]
    requires fl[j] + (mem[fl[j]].size + mem[fl[j + 1]].size) <= |own|
    ensures var own' := Claim(own, fl[j], mem[fl[j]].size + mem[fl[j + 1]].size);
            && Kept(mem, own, MergeMem(mem, fl[j], fl[j + 1]), own', live)
            && SameHeap(own, own')
  {
  }

  lemma CarveLeaves(mem: Mem, own: Owner, fl: seq<nat>, live: set<nat>, base: nat, k: nat, n: nat)
    requires Inv(mem, own, fl, live, base) && 1 <= k < |fl| && 1 <= n < mem[fl[k]].size
    requires Tail(mem, fl[k], n) + n <= |own|
    ensures var own' := Claim(own, Tail(mem, fl[k], n), n);
            && Kept(mem, own, CarveMem(mem, fl[k], n), own', live)
            && SameHeap(own, own')
            && (forall u :: Tail(mem, fl[k], n) <= u < Tail(mem, fl[k], n) + n ==> own[u] == fl[k])
  {
    var a, b := fl[k], Tail(mem, fl[k], n);
    CarveHeads(mem, own, a, n, b);
    forall u | b <= u < b + n
      ensures own[u] == a
    {
      assert Covers(mem, a, u);
    }
    assert a in fl;
  }

  lemma GrowLeaves(mem: Mem, own: Owner, fl: seq<nat>, live: set<nat>, base: nat, p: nat, n: nat)
    requires Inv(mem, own, fl, live, base) && Unused(own, p, n) && base < p && n >= 1
    ensures Kept(mem, own, mem[p := mem[p].(size := n)], Claim(own, p, n), live)
  {
  }

  // ----- The free list is determined by which units are free -----

  ghost predicate FreeUnit(own: Owner, live: set<nat>, u: int) {
    0 <= u < |own| && own[u] != 0 && own[u] !in live
  }

  /** A listed block is a maximal run of free units. */
  lemma ListedIsRun(mem: Mem, own: Owner, fl: seq<nat>, live: set<nat>, base: nat, i: nat)
    requires Inv(mem, own, fl, live, base) && Tight(mem, fl, {}) && 1 <= i < |fl|
    ensures forall u :: fl[i] <= u < fl[i] + mem[fl[i]].size ==> FreeUnit(own, live, u)
    ensures !FreeUnit(own, live, fl[i] - 1)
    ensures !FreeUnit(own, live, fl[i] + mem[fl[i]].size)
  {
    var a := fl[i];
    var e := a + mem[a].size;
    assert Head(own, a) && a in fl;
    forall u | a <= u < e
      ensures FreeUnit(own, live, u)
    {
      assert Covers(mem, a, u);
    }
    if own[a - 1] != 0 {
      assert At(own, a - 1) == own[a - 1];
      BlocksDisjoint(mem, own, own[a - 1], a);
      FreeNeighbour(mem, own, fl, live, base, own[a - 1], a);
    }
    if e < |own| && own[e] != 0 {
      var c := At(own, e);
      BlockAfter(mem, own, a, c);
      FreeNeighbour(mem, own, fl, live, base, a, c);
    }
  }

  lemma BlockAfter(mem: Mem, own: Owner, a: nat, c: nat)
    requires Tiling(mem, own) && Head(own, a) && Head(own, c) && Covers(mem, c, a + mem[a].size)
    ensures c == a + mem[a].size
  {
  }

  /** Membership in the free list depends only on which units are free. */
  lemma ListedIffRunStart(mem: Mem, own: Owner, fl: seq<nat>, live: set<nat>, base: nat, a: nat)
    requires Inv(mem, own, fl, live, base) && Tight(mem, fl, {})
    ensures a in fl <==> a == base || (FreeUnit(own, live, a) && !FreeUnit(own, live, a - 1))
  {
    if a in fl && a != base {
      var i :| 0 <= i < |fl| && fl[i] == a;
      ListedIsRun(mem, own, fl, live, base, i);
      assert FreeUnit(own, live, a);
    }
    if FreeUnit(own, live, a) {
      var h := At(own, a);
      if h < a { assert Covers(mem, h, a - 1); }
    }
  }

  /** Two free blocks never touch. */
  lemma FreeNeighbour(mem: Mem, own: Owner, fl: seq<nat>, live: set<nat>, base: nat, a: nat, c: nat)
    requires Inv(mem, own, fl, live, base) && Tight(mem, fl, {})
    requires Head(own, a) && Head(own, c) && a < c
    ensures a !in live && c !in live ==> a + mem[a].size != c
  {
    if a !in live && c !in live {
      var i :| 0 <= i < |fl| && fl[i] == a;
      var j :| 0 <= j < |fl| && fl[j] == c;
      assert i < j;
      assert fl[i] + mem[fl[i]].size < After(fl, i) <= fl[j];
    }
  }

  lemma {:induction false} IncreasingUnique(s: seq<nat>, t: seq<nat>)
    requires Increasing(s) && Increasing(t) && forall a :: a in s <==> a in t
    ensures s == t
  {
    assert |s| == 0 || s[0] in s;
    assert |t| == 0 || t[0] in t;
    if |s| > 0 {
      assert s == [s[0]] + s[1..] && t == [t[0]] + t[1..];
      assert s[0] == t[0];
      forall a
        ensures a in s[1..] <==> a in t[1..]
      {
        assert a in s[1..] <==> a in s && a != s[0];
        assert a in t[1..] <==> a in t && a != t[0];
      }
      IncreasingUnique(s[1..], t[1..]);
    }
  }

  /** Two heaps with the same free units have the same free list and block sizes. */
  lemma FreeListDetermined(mem: Mem, own: Owner, fl: seq<nat>, live: set<nat>,
                           mem': Mem, own': Owner, fl': seq<nat>, live': set<nat>, base: nat)
    requires Inv(mem, own, fl, live, base) && Tight(mem, fl, {})
    requires Inv(mem', own', fl', live', base) && Tight(mem', fl', {})
    requires forall u :: FreeUnit(own, live, u) <==> FreeUnit(own', live', u)
    ensures fl == fl' && forall i :: 0 <= i < |fl| ==> mem[fl[i]] == mem'[fl[i]]
  {
    forall a: nat
      ensures a in fl <==> a in fl'
    {
      ListedIffRunStart(mem, own, fl, live, base, a);
      ListedIffRunStart(mem', own', fl', live', base, a);
    }
    IncreasingUnique(fl, fl');
    forall i | 0 <= i < |fl|
      ensures mem[fl[i]].size == mem'[fl[i]].size
    {
      if i > 0 { SizeDetermined(mem, own, live, mem', own', live', fl, base, i); }
    }
    RingDetermined(mem, mem', fl);
  }

  lemma SizeDetermined(mem: Mem, own: Owner, live: set<nat>, mem': Mem, own': Owner, live': set<nat>,
                       fl: seq<nat>, base: nat, i: nat)
    requires Inv(mem, own, fl, live, base) && Tight(mem, fl, {})
    requires Inv(mem', own', fl, live', base) && Tight(mem', fl, {})
    requires forall u :: FreeUnit(own, live, u) <==> FreeUnit(own', live', u)
    requires 1 <= i < |fl|
    ensures mem[fl[i]].size == mem'[fl[i]].size
  {
    ListedIsRun(mem, own, fl, live, base, i);
    ListedIsRun(mem', own', fl, live', base, i);
    RunEnds(own, live, fl[i], mem[fl[i]].size, mem'[fl[i]].size);
  }

  lemma RingDetermined(mem: Mem, mem': Mem, fl: seq<nat>)
    requires Ring(mem, fl) && Ring(mem', fl)
    requires forall i :: 0 <= i < |fl| ==> mem[fl[i]].size == mem'[fl[i]].size
    ensures forall i :: 0 <= i < |fl| ==> mem[fl[i]] == mem'[fl[i]]
  {
    forall i | 0 <= i < |fl|
      ensures mem[fl[i]] == mem'[fl[i]]
    {
      assert mem[fl[i]].ptr == After(fl, i) == mem'[fl[i]].ptr;
    }
  }

  lemma RunEnds(own: Owner, live: set<nat>, a: nat, n: nat, n': nat)
    requires (forall u :: a <= u < a + n ==> FreeUnit(own, live, u)) && !FreeUnit(own, live, a + n)
    requires (forall u :: a <= u < a + n' ==> FreeUnit(own, live, u)) && !FreeUnit(own, live, a + n')
    ensures n == n'
  {
  }
}
