/**
 Radix trees of width 64 as values.  A node is an element of a sequence; slots hold
 0 for none, the number of a node plus one, or, at level 0, a leaf.

 The ghost sequence `loc` gives every node of the tree its place: its level and the
 digits that lead to it.  Levels count from the leaves, so that a node keeps its
 place when the tree grows at the top.
 */
module RadixSpec {
  import opened Wrappers

  const WIDTH: nat := 64
  const MAX_HEIGHT: nat := 5
  const MAX_INDEX: nat := 0x4000_0000

  datatype Node = Node(count: nat, parent: Option<nat>, slots: seq<nat>)

  // ----- Indices as digits -----

  /** An index below 2^30 as five digits of six bits, lowest first. */
  datatype Digits = Digits(d0: nat, d1: nat, d2: nat, d3: nat, d4: nat)

  predicate DigitsOk(p: Digits) {
    p.d0 < 64 && p.d1 < 64 && p.d2 < 64 && p.d3 < 64 && p.d4 < 64
  }

  function DigitsOf(x: nat): (p: Digits)
    ensures DigitsOk(p)
  {
    Digits(x % 64, x / 64 % 64, x / 64 / 64 % 64, x / 64 / 64 / 64 % 64, x / 64 / 64 / 64 / 64 % 64)
  }

  function IndexOf(p: Digits): (x: nat) {
    p.d0 + 64 * (p.d1 + 64 * (p.d2 + 64 * (p.d3 + 64 * p.d4)))
  }

  /** Every index below 2^30 is the value of its digits. */
  lemma IndexRoundTrip(x: nat)
    requires x < MAX_INDEX
    ensures IndexOf(DigitsOf(x)) == x
  {
  }

  lemma LowDigit(a: nat, b: nat, c: nat, d: nat)
    requires a < 64 && c < 64 && a + 64 * b == c + 64 * d
    ensures a == c && b == d
  {
  }

  lemma IndexInjective(p: Digits, q: Digits)
    requires DigitsOk(p) && DigitsOk(q) && IndexOf(p) == IndexOf(q)
    ensures p == q
  {
    LowDigit(p.d0, p.d1 + 64 * (p.d2 + 64 * (p.d3 + 64 * p.d4)), q.d0, q.d1 + 64 * (q.d2 + 64 * (q.d3 + 64 * q.d4)));
    LowDigit(p.d1, p.d2 + 64 * (p.d3 + 64 * p.d4), q.d1, q.d2 + 64 * (q.d3 + 64 * q.d4));
    LowDigit(p.d2, p.d3 + 64 * p.d4, q.d2, q.d3 + 64 * q.d4);
    LowDigit(p.d3, p.d4, q.d3, q.d4);
  }

  /** Digits and indices below 2^30 correspond one to one. */
  lemma DigitsRoundTrip(p: Digits)
    requires DigitsOk(p)
    ensures IndexOf(p) < MAX_INDEX && DigitsOf(IndexOf(p)) == p
  {
    IndexRoundTrip(IndexOf(p));
    IndexInjective(DigitsOf(IndexOf(p)), p);
  }

  function Dig(p: Digits, l: nat): (i: nat) {
    if l == 0 then p.d0 else if l == 1 then p.d1 else if l == 2 then p.d2 else if l == 3 then p.d3 else p.d4
  }

  /** The digits that lead to the level `l` node: those above digit `l`. */
  function Pre(p: Digits, l: nat): (q: Digits) {
    Digits(0, if l < 1 then p.d1 else 0, if l < 2 then p.d2 else 0,
           if l < 3 then p.d3 else 0, if l < 4 then p.d4 else 0)
  }

  function Extend(p: Digits, l: nat, i: nat): (q: Digits) {
    if l == 0 then p.(d0 := i) else if l == 1 then p.(d1 := i) else if l == 2 then p.(d2 := i)
    else if l == 3 then p.(d3 := i) else p.(d4 := i)
  }

  /** The index is within reach of a tree of height `h`. */
  predicate Fits(p: Digits, h: nat) {
    && (h <= 0 ==> p.d0 == 0) && (h <= 1 ==> p.d1 == 0) && (h <= 2 ==> p.d2 == 0)
    && (h <= 3 ==> p.d3 == 0) && (h <= 4 ==> p.d4 == 0)
  }

  /** What is left of an index when only the digits of a tree of height `h` are used. */
  function Trunc(p: Digits, h: nat): (q: Digits) {
    Digits(if h > 0 then p.d0 else 0, if h > 1 then p.d1 else 0, if h > 2 then p.d2 else 0,
           if h > 3 then p.d3 else 0, if h > 4 then p.d4 else 0)
  }

  /** The largest index of a tree, as computed with shifts. */
  function MaxIndex(h: nat): (m: int) {
    if h == 0 then -1 else if h == 1 then 63 else if h == 2 then 4095 else if h == 3 then 262143
    else if h == 4 then 16777215 else 1073741823
  }

  lemma FitsIsBelow(p: Digits, h: nat)
    requires DigitsOk(p) && 1 <= h <= MAX_HEIGHT
    ensures Fits(p, h) <==> IndexOf(p) <= MaxIndex(h)
    ensures Fits(p, h) <==> Trunc(p, h) == p
  {
  }

  // ----- Counting slots -----

  function CountTo(slots: seq<nat>, n: nat): (k: nat)
    requires n <= |slots|
    ensures k <= n
  {
    if n == 0 then 0 else CountTo(slots, n - 1) + (if slots[n - 1] != 0 then 1 else 0)
  }

  function Count(slots: seq<nat>): (k: nat) { CountTo(slots, |slots|) }

  lemma {:induction false} CountToUpdate(slots: seq<nat>, i: nat, x: nat, n: nat)
    requires i < |slots| && n <= |slots|
    ensures CountTo(slots[i := x], n) ==
            CountTo(slots, n) + if i < n then (if x != 0 then 1 else 0) - (if slots[i] != 0 then 1 else 0) else 0
    decreases n
  {
    if n > 0 { CountToUpdate(slots, i, x, n - 1); }
  }

  lemma CountUpdate(slots: seq<nat>, i: nat, x: nat)
    requires i < |slots|
    ensures Count(slots[i := x]) == Count(slots) + (if x != 0 then 1 else 0) - (if slots[i] != 0 then 1 else 0)
  {
    CountToUpdate(slots, i, x, |slots|);
  }

  lemma {:induction false} CountZero(slots: seq<nat>, n: nat, i: nat)
    requires i < n <= |slots|
    ensures CountTo(slots, n) == 0 ==> slots[i] == 0
    ensures slots[i] != 0 ==> CountTo(slots, n) > 0
    decreases n
  {
    if i < n - 1 { CountZero(slots, n - 1, i); }
  }

  lemma {:induction false} CountEmpty(slots: seq<nat>, n: nat)
    requires n <= |slots| && forall i :: 0 <= i < n ==> slots[i] == 0
    ensures CountTo(slots, n) == 0
    decreases n
  {
    if n > 0 { CountEmpty(slots, n - 1); }
  }

  // ----- The tree -----

  datatype Loc = Unused | At(level: nat, prefix: Digits)

  const TOP := Digits(0, 0, 0, 0, 0)

  function Slot(nodes: seq<Node>, f: nat, i: nat): (x: nat) {
    if f < |nodes| && i < |nodes[f].slots| then nodes[f].slots[i] else 0
  }

  ghost predicate NodeOk(nodes: seq<Node>, loc: seq<Loc>, f: nat, h: nat)
    requires |loc| == |nodes| && f < |nodes|
  {
    loc[f].At? ==>
      && loc[f].level < h && Pre(loc[f].prefix, loc[f].level) == loc[f].prefix
      && |nodes[f].slots| == WIDTH && nodes[f].count == Count(nodes[f].slots)
  }

  ghost predicate Inner(loc: seq<Loc>, f: nat) {
    f < |loc| && loc[f].At? && loc[f].level >= 1
  }

  ghost predicate ChildOk(nodes: seq<Node>, loc: seq<Loc>, f: nat, i: nat, c: nat)
    requires Inner(loc, f)
  {
    && c < |nodes| && c < |loc| && loc[c] == At(loc[f].level - 1, Extend(loc[f].prefix, loc[f].level, i))
    && nodes[c].parent == Some(f)
  }

  /** A node below the root hangs in its parent, in the slot that its place says. */
  ghost predicate LinkOk(nodes: seq<Node>, loc: seq<Loc>, root: Option<nat>, f: nat)
    requires |loc| == |nodes| && f < |nodes|
  {
    loc[f].At? && Some(f) != root ==>
      nodes[f].parent.Some? && Hangs(nodes, loc, f, nodes[f].parent.value)
  }

  ghost predicate Hangs(nodes: seq<Node>, loc: seq<Loc>, f: nat, g: nat)
    requires |loc| == |nodes| && f < |nodes| && loc[f].At?
  {
    Inner(loc, g) && loc[g].level == loc[f].level + 1 && Slot(nodes, g, Dig(loc[f].prefix, loc[g].level)) == f + 1
  }

  ghost predicate RootOk(nodes: seq<Node>, loc: seq<Loc>, root: Option<nat>, h: nat)
    requires |loc| == |nodes|
  {
    && h <= MAX_HEIGHT && (h == 0 <==> root.None?)
    && (root.Some? ==> root.value < |nodes| && loc[root.value] == At(h - 1, TOP) && nodes[root.value].parent.None?)
  }

  ghost predicate Inv(nodes: seq<Node>, loc: seq<Loc>, root: Option<nat>, h: nat) {
    && |loc| == |nodes| && RootOk(nodes, loc, root, h)
    && (forall f :: 0 <= f < |nodes| ==> NodeOk(nodes, loc, f, h) && LinkOk(nodes, loc, root, f))
    && (forall f: nat, i: nat ::
          Slot(nodes, f, i) != 0 && Inner(loc, f) ==> ChildOk(nodes, loc, f, i, Slot(nodes, f, i) - 1))
  }

  /** The level `l` node on the way to index `p`. */
  function On(nodes: seq<Node>, root: nat, h: nat, p: Digits, l: nat): (t: Option<nat>)
    decreases if l + 1 < h then h - l else 0
  {
    if l + 1 >= h then Some(root)
    else
      var up := On(nodes, root, h, p, l + 1);
      if up.None? then None
      else
        var x := Slot(nodes, up.value, Dig(p, l + 1));
        if x == 0 then None else Some(x - 1)
  }

  /** What the tree holds at index `p`: 0 for nothing. */
  function Get(nodes: seq<Node>, root: Option<nat>, h: nat, p: Digits): (x: nat) {
    if h == 0 || root.None? || !Fits(p, h) then 0
    else
      var t := On(nodes, root.value, h, p, 0);
      if t.None? then 0 else Slot(nodes, t.value, p.d0)
  }

  /** A node met on the way has the place that the way says. */
  lemma {:induction false} OnLoc(nodes: seq<Node>, loc: seq<Loc>, root: Option<nat>, h: nat, p: Digits, l: nat)
    requires Inv(nodes, loc, root, h) && root.Some? && l < h
    ensures var t := On(nodes, root.value, h, p, l);
            t.Some? ==> t.value < |nodes| && loc[t.value] == At(l, Pre(Trunc(p, h), l))
    decreases h - l
  {
    if l + 1 < h {
      OnLoc(nodes, loc, root, h, p, l + 1);
      var up := On(nodes, root.value, h, p, l + 1);
      if up.Some? {
        var x := Slot(nodes, up.value, Dig(p, l + 1));
        if x != 0 { assert ChildOk(nodes, loc, up.value, Dig(p, l + 1), x - 1); }
      }
    }
  }

  lemma OnUsed(nodes: seq<Node>, loc: seq<Loc>, root: Option<nat>, h: nat, p: Digits, l: nat)
    requires Inv(nodes, loc, root, h) && root.Some? && l < h
    ensures var t := On(nodes, root.value, h, p, l); t.Some? ==> t.value < |nodes| && loc[t.value].At?
  {
    OnLoc(nodes, loc, root, h, p, l);
  }

  /** Only the digits of the tree matter to a walk. */
  lemma {:induction false} OnTrunc(nodes: seq<Node>, root: nat, h: nat, p: Digits, l: nat)
    requires l < h <= MAX_HEIGHT
    ensures On(nodes, root, h, Trunc(p, h), l) == On(nodes, root, h, p, l)
    decreases h - l
  {
    if l + 1 < h {
      OnTrunc(nodes, root, h, p, l + 1);
      assert Dig(Trunc(p, h), l + 1) == Dig(p, l + 1);
    }
  }

  // ----- Setting a slot -----

  function SetSlot(nodes: seq<Node>, f: nat, i: nat, x: nat, count: nat): (nodes': seq<Node>)
    requires f < |nodes| && i < |nodes[f].slots|
  {
    nodes[f := nodes[f].(slots := nodes[f].slots[i := x], count := count)]
  }

  /** The nodes above level 0 have the same slots, and all nodes the same parents. */
  ghost predicate SameInner(nodes: seq<Node>, loc: seq<Loc>, nodes': seq<Node>) {
    && |nodes'| == |nodes| == |loc|
    && (forall f :: 0 <= f < |nodes| ==> nodes'[f].parent == nodes[f].parent)
    && (forall f :: 0 <= f < |nodes| && Inner(loc, f) ==> nodes'[f].slots == nodes[f].slots)
  }

  lemma {:induction false} SameInnerOn(nodes: seq<Node>, loc: seq<Loc>, root: Option<nat>, h: nat, nodes': seq<Node>,
                                       p: Digits, l: nat)
    requires Inv(nodes, loc, root, h) && root.Some? && l < h && SameInner(nodes, loc, nodes')
    ensures On(nodes', root.value, h, p, l) == On(nodes, root.value, h, p, l)
    decreases h - l
  {
    if l + 1 < h {
      SameInnerOn(nodes, loc, root, h, nodes', p, l + 1);
      OnLoc(nodes, loc, root, h, p, l + 1);
      var t := On(nodes, root.value, h, p, l + 1);
      assert t.None? || Slot(nodes', t.value, Dig(p, l + 1)) == Slot(nodes, t.value, Dig(p, l + 1));
    }
  }

  /** Slot `i` of the level 0 node `f` is set to `x`. */
  ghost predicate LeafSet(nodes: seq<Node>, loc: seq<Loc>, f: nat, i: nat, x: nat, nodes': seq<Node>) {
    && |loc| == |nodes| && f < |nodes| && loc[f].At? && loc[f].level == 0 && i < |nodes[f].slots|
    && nodes' == SetSlot(nodes, f, i, x, Count(nodes[f].slots[i := x]))
  }

  lemma LeafSetInv(nodes: seq<Node>, loc: seq<Loc>, root: Option<nat>, h: nat, f: nat, i: nat, x: nat,
                   nodes': seq<Node>)
    requires Inv(nodes, loc, root, h) && LeafSet(nodes, loc, f, i, x, nodes')
    ensures Inv(nodes', loc, root, h) && SameInner(nodes, loc, nodes')
  {
    forall g: nat, j: nat | Slot(nodes', g, j) != 0 && Inner(loc, g)
      ensures ChildOk(nodes', loc, g, j, Slot(nodes', g, j) - 1)
    {
      assert ChildOk(nodes, loc, g, j, Slot(nodes, g, j) - 1);
    }
    forall g | 0 <= g < |nodes'|
      ensures NodeOk(nodes', loc, g, h) && LinkOk(nodes', loc, root, g)
    {
      assert NodeOk(nodes, loc, g, h) && LinkOk(nodes, loc, root, g);
      if loc[g].At? && Some(g) != root { assert Hangs(nodes', loc, g, nodes[g].parent.value); }
    }
  }

  /** Setting the slot of an index changes the binding of that index and no other. */
  lemma LeafSetGet(nodes: seq<Node>, loc: seq<Loc>, root: Option<nat>, h: nat, f: nat, x: nat, nodes': seq<Node>,
                   p: Digits, q: Digits)
    requires Inv(nodes, loc, root, h) && root.Some? && LeafSet(nodes, loc, f, p.d0, x, nodes')
    requires Fits(p, h) && On(nodes, root.value, h, p, 0) == Some(f)
    ensures Get(nodes', root, h, q) == if q == p then x else Get(nodes, root, h, q)
  {
    LeafSetInv(nodes, loc, root, h, f, p.d0, x, nodes');
    SameInnerOn(nodes, loc, root, h, nodes', q, 0);
    OnLoc(nodes, loc, root, h, q, 0);
    OnLoc(nodes, loc, root, h, p, 0);
    assert Fits(q, h) && Pre(Trunc(q, h), 0) == Pre(Trunc(p, h), 0) && q.d0 == p.d0 ==> q == p;
  }

  // ----- Hanging in a new node -----

  ghost predicate Blank(n: Node) {
    n.count == 0 && |n.slots| == WIDTH && forall i :: 0 <= i < WIDTH ==> n.slots[i] == 0
  }

  ghost predicate CanHang(nodes: seq<Node>, loc: seq<Loc>, root: Option<nat>, h: nat, f: nat, i: nat, c: nat) {
    && Inv(nodes, loc, root, h) && Inner(loc, f) && i < WIDTH == |nodes[f].slots| && Slot(nodes, f, i) == 0
    && c < |loc| && loc[c].Unused?
  }

  ghost predicate Hung(nodes: seq<Node>, loc: seq<Loc>, f: nat, i: nat, c: nat, nodes': seq<Node>, loc': seq<Loc>)
    requires |loc| == |nodes| && Inner(loc, f) && c < |loc| && i < |nodes[f].slots|
  {
    && |nodes'| == |nodes| && Blank(nodes'[c]) && nodes'[c].parent == Some(f)
    && nodes'[f] == nodes[f].(slots := nodes[f].slots[i := c + 1], count := nodes[f].count + 1)
    && (forall g :: 0 <= g < |nodes| && g != c && g != f ==> nodes'[g] == nodes[g])
    && loc' == loc[c := At(loc[f].level - 1, Extend(loc[f].prefix, loc[f].level, i))]
  }

  lemma HungSlot(nodes: seq<Node>, loc: seq<Loc>, root: Option<nat>, h: nat, f: nat, i: nat, c: nat,
                 nodes': seq<Node>, loc': seq<Loc>, g: nat, j: nat)
    requires CanHang(nodes, loc, root, h, f, i, c) && Hung(nodes, loc, f, i, c, nodes', loc')
    ensures c != f && Slot(nodes', g, j) == if g == c then 0 else if g == f && j == i then c + 1 else Slot(nodes, g, j)
  {
  }

  lemma HungInv(nodes: seq<Node>, loc: seq<Loc>, root: Option<nat>, h: nat, f: nat, i: nat, c: nat,
                nodes': seq<Node>, loc': seq<Loc>)
    requires CanHang(nodes, loc, root, h, f, i, c) && Hung(nodes, loc, f, i, c, nodes', loc')
    ensures Inv(nodes', loc', root, h)
  {
    forall g: nat, j: nat | Slot(nodes', g, j) != 0 && Inner(loc', g)
      ensures ChildOk(nodes', loc', g, j, Slot(nodes', g, j) - 1)
    {
      HungSlot(nodes, loc, root, h, f, i, c, nodes', loc', g, j);
      if !(g == f && j == i) { assert ChildOk(nodes, loc, g, j, Slot(nodes, g, j) - 1); }
    }
    forall g | 0 <= g < |nodes'|
      ensures NodeOk(nodes', loc', g, h) && LinkOk(nodes', loc', root, g)
    {
      assert NodeOk(nodes, loc, g, h) && LinkOk(nodes, loc, root, g);
      assert NodeOk(nodes, loc, f, h);
      CountUpdate(nodes[f].slots, i, c + 1);
      if g == c { CountEmpty(nodes'[c].slots, WIDTH); }
    }
  }

  /** Slots are the same, but for empty ones that now lead to the new node `c`, which is empty. */
  ghost predicate SlotsKept(nodes: seq<Node>, nodes': seq<Node>, c: nat) {
    forall g: nat, j: nat {:trigger Slot(nodes', g, j)} ::
      if g == c then Slot(nodes', g, j) == 0
      else Slot(nodes', g, j) == Slot(nodes, g, j) || (Slot(nodes, g, j) == 0 && Slot(nodes', g, j) == c + 1)
  }

  /** No walk goes through node `c`. */
  ghost predicate Avoids(nodes: seq<Node>, root: nat, h: nat, p: Digits, c: nat) {
    forall l: nat {:trigger On(nodes, root, h, p, l)} :: l < h ==> On(nodes, root, h, p, l) != Some(c)
  }

  lemma {:induction false} KeptOn(nodes: seq<Node>, nodes': seq<Node>, root: nat, h: nat, c: nat, p: Digits, l: nat)
    requires SlotsKept(nodes, nodes', c) && Avoids(nodes, root, h, p, c) && l < h
    ensures var o, n := On(nodes, root, h, p, l), On(nodes', root, h, p, l);
            (o.Some? ==> n == o) && (o.None? ==> n.None? || n.value == c)
    decreases h - l
  {
    if l + 1 < h { KeptOn(nodes, nodes', root, h, c, p, l + 1); }
  }

  lemma HungOn(nodes: seq<Node>, loc: seq<Loc>, root: Option<nat>, h: nat, f: nat, i: nat, c: nat,
               nodes': seq<Node>, loc': seq<Loc>, p: Digits, l: nat)
    requires CanHang(nodes, loc, root, h, f, i, c) && Hung(nodes, loc, f, i, c, nodes', loc') && root.Some? && l < h
    ensures var o, n := On(nodes, root.value, h, p, l), On(nodes', root.value, h, p, l);
            (o.Some? ==> n == o) && (o.None? ==> n.None? || n.value == c)
  {
    forall g: nat, j: nat
      ensures if g == c then Slot(nodes', g, j) == 0
              else Slot(nodes', g, j) == Slot(nodes, g, j) || (Slot(nodes, g, j) == 0 && Slot(nodes', g, j) == c + 1)
    {
      HungSlot(nodes, loc, root, h, f, i, c, nodes', loc', g, j);
    }
    forall m: nat | m < h
      ensures On(nodes, root.value, h, p, m) != Some(c)
    {
      OnUsed(nodes, loc, root, h, p, m);
    }
    KeptOn(nodes, nodes', root.value, h, c, p, l);
  }

  /** A new empty node changes no binding. */
  lemma HungGet(nodes: seq<Node>, loc: seq<Loc>, root: Option<nat>, h: nat, f: nat, i: nat, c: nat,
                nodes': seq<Node>, loc': seq<Loc>, p: Digits)
    requires CanHang(nodes, loc, root, h, f, i, c) && Hung(nodes, loc, f, i, c, nodes', loc')
    ensures Get(nodes', root, h, p) == Get(nodes, root, h, p)
  {
    if root.Some? {
      HungOn(nodes, loc, root, h, f, i, c, nodes', loc', p, 0);
      OnLoc(nodes, loc, root, h, p, 0);
      var n := On(nodes', root.value, h, p, 0);
      if n.Some? { HungSlot(nodes, loc, root, h, f, i, c, nodes', loc', n.value, p.d0); }
    }
  }

  // ----- A new level -----

  /** Node `c` becomes the root; the old root, if any, is its child 0. */
  ghost predicate Raised(nodes: seq<Node>, loc: seq<Loc>, root: Option<nat>, h: nat, c: nat, nodes': seq<Node>,
                         loc': seq<Loc>) {
    && |nodes'| == |nodes| == |loc| && c < |nodes| && loc[c].Unused?
    && loc' == loc[c := At(h, TOP)]
    && nodes'[c].parent.None? && |nodes'[c].slots| == WIDTH && nodes'[c].count == (if root.Some? then 1 else 0)
    && (forall i :: 0 <= i < WIDTH ==> nodes'[c].slots[i] == if i == 0 && root.Some? then root.value + 1 else 0)
    && (forall g :: 0 <= g < |nodes| && g != c && Some(g) != root ==> nodes'[g] == nodes[g])
    && (root.Some? ==> root.value < |nodes| && nodes'[root.value] == nodes[root.value].(parent := Some(c)))
  }

  lemma RaisedSlot(nodes: seq<Node>, loc: seq<Loc>, root: Option<nat>, h: nat, c: nat, nodes': seq<Node>,
                   loc': seq<Loc>,
                   g: nat, j: nat)
    requires Inv(nodes, loc, root, h) && Raised(nodes, loc, root, h, c, nodes', loc')
    ensures Slot(nodes', g, j) ==
            if g == c then (if j == 0 && root.Some? then root.value + 1 else 0) else Slot(nodes, g, j)
    ensures Some(c) != root
  {
  }

  lemma RaisedCount(nodes: seq<Node>, loc: seq<Loc>, root: Option<nat>, h: nat, c: nat, nodes': seq<Node>,
                    loc': seq<Loc>)
    requires Inv(nodes, loc, root, h) && Raised(nodes, loc, root, h, c, nodes', loc')
    ensures Count(nodes'[c].slots) == nodes'[c].count
  {
    var slots := nodes'[c].slots;
    CountEmpty(slots[0 := 0], WIDTH);
    CountUpdate(slots, 0, 0);
  }

  lemma RaisedInv(nodes: seq<Node>, loc: seq<Loc>, root: Option<nat>, h: nat, c: nat, nodes': seq<Node>, loc': seq<Loc>)
    requires Inv(nodes, loc, root, h) && h < MAX_HEIGHT && Raised(nodes, loc, root, h, c, nodes', loc')
    ensures Inv(nodes', loc', Some(c), h + 1)
  {
    forall g: nat, j: nat | Slot(nodes', g, j) != 0 && Inner(loc', g)
      ensures ChildOk(nodes', loc', g, j, Slot(nodes', g, j) - 1)
    {
      RaisedSlot(nodes, loc, root, h, c, nodes', loc', g, j);
      if g != c {
        assert ChildOk(nodes, loc, g, j, Slot(nodes, g, j) - 1);
      }
    }
    RaisedCount(nodes, loc, root, h, c, nodes', loc');
    var h', root' := h + 1, Some(c);
    forall g | 0 <= g < |nodes'|
      ensures NodeOk(nodes', loc', g, h') && LinkOk(nodes', loc', root', g)
    {
      assert NodeOk(nodes, loc, g, h) && LinkOk(nodes, loc, root, g);
      if Some(g) == root { RaisedSlot(nodes, loc, root, h, c, nodes', loc', c, 0); }
    }
  }

  ghost predicate SlotsRaised(nodes: seq<Node>, root: nat, c: nat, nodes': seq<Node>) {
    forall g: nat, j: nat {:trigger Slot(nodes', g, j)} ::
      Slot(nodes', g, j) == if g == c then (if j == 0 then root + 1 else 0) else Slot(nodes, g, j)
  }

  lemma {:induction false} RaisedOn(nodes: seq<Node>, root: nat, h: nat, c: nat, nodes': seq<Node>, p: Digits, l: nat)
    requires SlotsRaised(nodes, root, c, nodes') && l < h
    requires forall k {:trigger On(nodes, root, h, p, k)} :: l <= k < h ==> On(nodes, root, h, p, k) != Some(c)
    ensures On(nodes', c, h + 1, p, l) == if Dig(p, h) == 0 then On(nodes, root, h, p, l) else None
    decreases h - l
  {
    if l + 1 < h {
      RaisedOn(nodes, root, h, c, nodes', p, l + 1);
    } else {
      assert On(nodes', c, h + 1, p, h) == Some(c);
    }
  }

  /** Growing keeps every binding. */
  lemma RaisedGet(nodes: seq<Node>, loc: seq<Loc>, root: Option<nat>, h: nat, c: nat, nodes': seq<Node>,
                  loc': seq<Loc>, p: Digits)
    requires Inv(nodes, loc, root, h) && h < MAX_HEIGHT && Raised(nodes, loc, root, h, c, nodes', loc')
    ensures Get(nodes', Some(c), h + 1, p) == Get(nodes, root, h, p)
  {
    assert Fits(p, h) <==> Fits(p, h + 1) && Dig(p, h) == 0;
    if h == 0 {
      RaisedSlot(nodes, loc, root, h, c, nodes', loc', c, p.d0);
    } else {
      forall g: nat, j: nat
        ensures Slot(nodes', g, j) == if g == c then (if j == 0 then root.value + 1 else 0) else Slot(nodes, g, j)
      {
        RaisedSlot(nodes, loc, root, h, c, nodes', loc', g, j);
      }
      forall k | 0 <= k < h
        ensures On(nodes, root.value, h, p, k) != Some(c)
      {
        OnUsed(nodes, loc, root, h, p, k);
      }
      RaisedOn(nodes, root.value, h, c, nodes', p, 0);
    }
  }

  // ----- Dropping an empty node -----

  /** Node `f` has no children and hangs in slot `j` of node `g`. */
  ghost predicate CanDrop(nodes: seq<Node>, loc: seq<Loc>, root: Option<nat>, h: nat, f: nat, g: nat, j: nat) {
    && Inv(nodes, loc, root, h) && f < |nodes| && loc[f].At? && nodes[f].count == 0
    && Inner(loc, g) && j < WIDTH == |nodes[g].slots| && Slot(nodes, g, j) == f + 1
  }

  ghost function Dropped(nodes: seq<Node>, g: nat, j: nat): (nodes': seq<Node>)
    requires g < |nodes| && j < |nodes[g].slots|
  {
    SetSlot(nodes, g, j, 0, Count(nodes[g].slots[j := 0]))
  }

  lemma EmptySlots(nodes: seq<Node>, loc: seq<Loc>, root: Option<nat>, h: nat, f: nat, i: nat)
    requires Inv(nodes, loc, root, h) && f < |nodes| && loc[f].At? && nodes[f].count == 0
    ensures Slot(nodes, f, i) == 0
  {
    assert NodeOk(nodes, loc, f, h);
    if i < WIDTH { CountZero(nodes[f].slots, WIDTH, i); }
  }

  lemma DroppedInv(nodes: seq<Node>, loc: seq<Loc>, root: Option<nat>, h: nat, f: nat, g: nat, j: nat)
    requires CanDrop(nodes, loc, root, h, f, g, j)
    ensures Inv(Dropped(nodes, g, j), loc[f := Unused], root, h) && f != g && Some(f) != root
  {
    var nodes', loc' := Dropped(nodes, g, j), loc[f := Unused];
    assert ChildOk(nodes, loc, g, j, f);
    forall u: nat, i: nat | Slot(nodes', u, i) != 0 && Inner(loc', u)
      ensures ChildOk(nodes', loc', u, i, Slot(nodes', u, i) - 1)
    {
      assert Slot(nodes', u, i) == Slot(nodes, u, i);
      assert ChildOk(nodes, loc, u, i, Slot(nodes, u, i) - 1);
      ExtendInjective(loc[g].prefix, loc[g].level, i, j);
    }
    forall u | 0 <= u < |nodes'|
      ensures NodeOk(nodes', loc', u, h) && LinkOk(nodes', loc', root, u)
    {
      assert NodeOk(nodes, loc, u, h) && LinkOk(nodes, loc, root, u);
      if loc'[u].At? && Some(u) != root { EmptySlots(nodes, loc, root, h, f, Dig(loc[u].prefix, loc[u].level + 1)); }
    }
  }

  lemma ExtendInjective(p: Digits, l: nat, i: nat, j: nat)
    ensures Extend(p, l, i) == Extend(p, l, j) <==> i == j
  {
  }

  lemma {:induction false} DroppedOn(nodes: seq<Node>, loc: seq<Loc>, root: Option<nat>, h: nat, f: nat, g: nat, j: nat,
                                     p: Digits, l: nat)
    requires CanDrop(nodes, loc, root, h, f, g, j) && root.Some? && l < h
    ensures var o, n := On(nodes, root.value, h, p, l), On(Dropped(nodes, g, j), root.value, h, p, l);
            n == o || (o == Some(f) && n.None?)
    decreases h - l
  {
    if l + 1 < h {
      DroppedOn(nodes, loc, root, h, f, g, j, p, l + 1);
      EmptySlots(nodes, loc, root, h, f, Dig(p, l + 1));
      var n := On(Dropped(nodes, g, j), root.value, h, p, l + 1);
      if n.Some? {
        assert Slot(Dropped(nodes, g, j), n.value, Dig(p, l + 1)) ==
               if n.value == g && Dig(p, l + 1) == j then 0 else Slot(nodes, n.value, Dig(p, l + 1));
      }
    }
  }

  /** Dropping an empty node changes no binding. */
  lemma DroppedGet(nodes: seq<Node>, loc: seq<Loc>, root: Option<nat>, h: nat, f: nat, g: nat, j: nat, p: Digits)
    requires CanDrop(nodes, loc, root, h, f, g, j)
    ensures Get(Dropped(nodes, g, j), root, h, p) == Get(nodes, root, h, p)
  {
    if root.Some? {
      DroppedOn(nodes, loc, root, h, f, g, j, p, 0);
      EmptySlots(nodes, loc, root, h, f, p.d0);
      OnLoc(nodes, loc, root, h, p, 0);
    }
  }

  /** A tree whose root is empty holds nothing. */
  lemma EmptyRoot(nodes: seq<Node>, loc: seq<Loc>, root: Option<nat>, h: nat, p: Digits)
    requires Inv(nodes, loc, root, h) && root.Some? && nodes[root.value].count == 0
    ensures Get(nodes, root, h, p) == 0
  {
    if h > 1 {
      EmptySlots(nodes, loc, root, h, root.value, Dig(p, h - 1));
      assert On(nodes, root.value, h, p, h - 1) == Some(root.value);
      NoneBelow(nodes, root.value, h, p, h - 2, 0);
    } else {
      EmptySlots(nodes, loc, root, h, root.value, p.d0);
    }
  }

  lemma {:induction false} NoneBelow(nodes: seq<Node>, root: nat, h: nat, p: Digits, l: nat, k: nat)
    requires k <= l && On(nodes, root, h, p, l).None?
    ensures On(nodes, root, h, p, k).None?
    decreases l - k
  {
    if k < l { NoneBelow(nodes, root, h, p, l, k + 1); }
  }

  /** Only the root is at the top level. */
  lemma BelowRoot(nodes: seq<Node>, loc: seq<Loc>, root: Option<nat>, h: nat, f: nat)
    requires Inv(nodes, loc, root, h) && f < |loc| && loc[f].At? && Some(f) != root
    ensures loc[f].level + 1 < h
  {
    assert LinkOk(nodes, loc, root, f);
    assert NodeOk(nodes, loc, nodes[f].parent.value, h);
  }

  /** Below an empty root there are no nodes. */
  lemma {:induction false} NoOtherNodes(nodes: seq<Node>, loc: seq<Loc>, root: Option<nat>, h: nat, f: nat)
    requires Inv(nodes, loc, root, h) && root.Some? && nodes[root.value].count == 0
    requires f < |loc| && loc[f].At?
    ensures Some(f) == root
    decreases h - loc[f].level
  {
    if Some(f) != root {
      assert NodeOk(nodes, loc, f, h) && LinkOk(nodes, loc, root, f);
      var g := nodes[f].parent.value;
      assert NodeOk(nodes, loc, g, h);
      NoOtherNodes(nodes, loc, root, h, g);
      EmptySlots(nodes, loc, root, h, g, Dig(loc[f].prefix, loc[g].level));
    }
  }

  lemma RootDropped(nodes: seq<Node>, loc: seq<Loc>, root: Option<nat>, h: nat)
    requires Inv(nodes, loc, root, h) && root.Some? && nodes[root.value].count == 0
    ensures Inv(nodes, loc[root.value := Unused], None, 0)
  {
    var loc' := loc[root.value := Unused];
    forall f | 0 <= f < |nodes|
      ensures loc'[f].Unused?
    {
      if loc[f].At? { NoOtherNodes(nodes, loc, root, h, f); }
    }
  }
}
