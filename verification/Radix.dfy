/**
 The radix tree of kernel/radix_tree.c, proved against the map from indices to
 leaves.
 */
module Radix {
  import opened Wrappers
  import opened RadixSpec

  datatype InsertResult = Inserted | AllocError | NodeExist

  /** Two trees hold the same. */
  ghost predicate SameMap(nodes0: seq<Node>, root0: Option<nat>, h0: nat, nodes1: seq<Node>, root1: Option<nat>,
                          h1: nat) {
    forall p: Digits {:trigger Get(nodes1, root1, h1, p)} :: Get(nodes1, root1, h1, p) == Get(nodes0, root0, h0, p)
  }

  lemma SameMapTrans(nodes0: seq<Node>, nodes1: seq<Node>, nodes2: seq<Node>, root: Option<nat>, h: nat)
    requires SameMap(nodes0, root, h, nodes1, root, h) && SameMap(nodes1, root, h, nodes2, root, h)
    ensures SameMap(nodes0, root, h, nodes2, root, h)
  {
  }

  /** The second tree holds what the first holds, except that `q` is bound to `x` (0 for nothing). */
  ghost predicate MapSet(nodes0: seq<Node>, root0: Option<nat>, h0: nat, nodes1: seq<Node>, root1: Option<nat>, h1: nat,
                         q: Digits, x: nat) {
    forall p: Digits {:trigger Get(nodes1, root1, h1, p)} ::
      Get(nodes1, root1, h1, p) == if p == q then x else Get(nodes0, root0, h0, p)
  }

  /** The binding of index `x` is now `leaf`; that of every other index is the same. */
  ghost predicate IndexSet(nodes0: seq<Node>, root0: Option<nat>, h0: nat, nodes1: seq<Node>, root1: Option<nat>,
                           h1: nat,
                           x: nat, leaf: nat) {
    forall y: nat {:trigger DigitsOf(y)} :: y < MAX_INDEX ==>
      Get(nodes1, root1, h1, DigitsOf(y)) == if y == x then leaf else Get(nodes0, root0, h0, DigitsOf(y))
  }

  /** Different indices have different digits. */
  lemma MapSetIndex(nodes0: seq<Node>, root0: Option<nat>, h0: nat, nodes1: seq<Node>, root1: Option<nat>, h1: nat,
                    p: Digits, leaf: nat)
    requires DigitsOk(p) && MapSet(nodes0, root0, h0, nodes1, root1, h1, p, leaf)
    ensures IndexSet(nodes0, root0, h0, nodes1, root1, h1, IndexOf(p), leaf)
  {
    DigitsRoundTrip(p);
    forall y: nat | y < MAX_INDEX
      ensures Get(nodes1, root1, h1, DigitsOf(y)) ==
              if y == IndexOf(p) then leaf else Get(nodes0, root0, h0, DigitsOf(y))
    {
      IndexRoundTrip(y);
    }
  }

  /** The node that a walk to the leaves ends in. */
  lemma LeafNode(nodes: seq<Node>, loc: seq<Loc>, root: Option<nat>, h: nat, f: nat, p: Digits)
    requires Inv(nodes, loc, root, h) && DigitsOk(p) && root.Some? && h > 0 && Fits(p, h)
    requires On(nodes, root.value, h, p, 0) == Some(f)
    ensures f < |nodes| && |nodes[f].slots| == WIDTH && nodes[f].slots[p.d0] == Get(nodes, root, h, p)
  {
    OnLoc(nodes, loc, root, h, p, 0);
    assert NodeOk(nodes, loc, f, h);
  }

  /** A leaf goes into its empty slot. */
  lemma LeafPut(nodes: seq<Node>, loc: seq<Loc>, root: Option<nat>, h: nat, f: nat, p: Digits, leaf: nat)
    returns (nodes': seq<Node>)
    requires Inv(nodes, loc, root, h) && DigitsOk(p) && root.Some? && h > 0 && Fits(p, h) && leaf != 0
    requires On(nodes, root.value, h, p, 0) == Some(f) && f < |nodes| && |nodes[f].slots| == WIDTH
    requires nodes[f].slots[p.d0] == 0
    ensures nodes' == nodes[f := nodes[f].(slots := nodes[f].slots[p.d0 := leaf], count := nodes[f].count + 1)]
    ensures Inv(nodes', loc, root, h) && MapSet(nodes, root, h, nodes', root, h, p, leaf)
  {
    nodes' := nodes[f := nodes[f].(slots := nodes[f].slots[p.d0 := leaf], count := nodes[f].count + 1)];
    OnLoc(nodes, loc, root, h, p, 0);
    assert NodeOk(nodes, loc, f, h);
    CountUpdate(nodes[f].slots, p.d0, leaf);
    LeafSetInv(nodes, loc, root, h, f, p.d0, leaf, nodes');
    forall q: Digits
      ensures Get(nodes', root, h, q) == if q == p then leaf else Get(nodes, root, h, q)
    {
      LeafSetGet(nodes, loc, root, h, f, leaf, nodes', p, q);
    }
  }

  /** The free list holds exactly the nodes that are not in the tree, each once. */
  ghost predicate FreeOk(free: seq<nat>, loc: seq<Loc>) {
    && (forall i :: 0 <= i < |free| ==> free[i] < |loc| && loc[free[i]].Unused?)
    && (forall f :: 0 <= f < |loc| && loc[f].Unused? ==> f in free)
    && (forall i, j :: 0 <= i < j < |free| ==> free[i] != free[j])
  }

  function BlankNode(parent: Option<nat>): (n: Node)
    ensures Blank(n)
  {
    Node(0, parent, seq(WIDTH, _ => 0))
  }

  /** The nodes that are new are on the way to `q`, or above a tree of height `h0`; all others are where they were. */
  ghost predicate NewOnly(loc0: seq<Loc>, h0: nat, q: Digits, loc1: seq<Loc>) {
    && |loc1| == |loc0|
    && forall f {:trigger loc1[f]} :: 0 <= f < |loc0| ==>
         || loc1[f] == loc0[f]
         || (loc0[f].Unused? && loc1[f].At? && loc1[f].prefix == Pre(q, loc1[f].level))
         || (loc0[f].Unused? && loc1[f].At? && loc1[f].prefix == TOP && loc1[f].level >= h0)
  }

  /** A tree of height `h0` has grown to height `h`, no higher than the index needs. */
  ghost predicate LeastHeight(h0: nat, h: nat, index: nat) {
    h == h0 || (h > h0 && index > MaxIndex(h - 1))
  }

  /** The tree does not reach the index, or has no node for its leaf. */
  ghost predicate NoPlace(nodes: seq<Node>, root: Option<nat>, h: nat, p: Digits, index: nat) {
    index > MaxIndex(h) || root.None? || On(nodes, root.value, h, p, 0).None?
  }

  lemma NewTrans(loc0: seq<Loc>, h0: nat, p: Digits, loc1: seq<Loc>, h1: nat, loc2: seq<Loc>)
    requires NewOnly(loc0, h0, p, loc1) && h0 <= h1 && NewOnly(loc1, h1, p, loc2)
    ensures NewOnly(loc0, h0, p, loc2)
  {
  }

  lemma NewChild(nodes: seq<Node>, loc: seq<Loc>, root: Option<nat>, h: nat, p: Digits, l: nat, f: nat, c: nat,
                 loc': seq<Loc>)
    requires Inv(nodes, loc, root, h) && root.Some? && 1 <= l < h && On(nodes, root.value, h, p, l) == Some(f)
    requires c < |loc| && loc[c].Unused? && loc' == loc[c := At(l - 1, Extend(Pre(Trunc(p, h), l), l, Dig(p, l)))]
    ensures NewOnly(loc, h, Trunc(p, h), loc')
  {
    assert Extend(Pre(Trunc(p, h), l), l, Dig(p, l)) == Pre(Trunc(p, h), l - 1);
  }

  lemma RaisedAll(nodes: seq<Node>, loc: seq<Loc>, root: Option<nat>, h: nat, c: nat, nodes': seq<Node>, loc': seq<Loc>)
    requires Inv(nodes, loc, root, h) && h < MAX_HEIGHT && Raised(nodes, loc, root, h, c, nodes', loc')
    ensures Inv(nodes', loc', Some(c), h + 1) && SameMap(nodes, root, h, nodes', Some(c), h + 1)
  {
    RaisedInv(nodes, loc, root, h, c, nodes', loc');
    var root', h' := Some(c), h + 1;
    forall p: Digits
      ensures Get(nodes', root', h', p) == Get(nodes, root, h, p)
    {
      RaisedGet(nodes, loc, root, h, c, nodes', loc', p);
    }
  }

  class RadixTree {
    var height: nat
    var root: Option<nat>
    var nodes: seq<Node>
    var free: seq<nat>
    ghost var loc: seq<Loc>

    ghost predicate Valid()
      reads this
    {
      Inv(nodes, loc, root, height) && FreeOk(free, loc)
    }

    /** What the tree holds at an index; 0 for nothing. */
    ghost function Map(p: Digits): (x: nat)
      reads this
    {
      Get(nodes, root, height, p)
    }

    constructor (pool: nat)
      ensures Valid() && height == 0 && root.None? && |free| == pool
      ensures forall p :: Map(p) == 0
    {
      height, root := 0, None;
      nodes := seq(pool, _ => BlankNode(None));
      free := seq(pool, i => i);
      loc := seq(pool, _ => Unused);
      new;
      forall f | 0 <= f < |loc|
        ensures f in free
      {
        assert free[f] == f;
      }
    }

    /** The digits of an index. */
    method Split(index: nat) returns (p: Digits)
      requires index < MAX_INDEX
      ensures p == DigitsOf(index) && DigitsOk(p) && IndexOf(p) == index
    {
      IndexRoundTrip(index);
      p := DigitsOf(index);
    }

    method AddLevel() returns (ok: bool)
      requires Valid() && height < MAX_HEIGHT
      modifies this
      ensures Valid() && SameMap(old(nodes), old(root), old(height), nodes, root, height)
      ensures ok ==> height == old(height) + 1
      ensures !ok ==> free == [] && height == old(height) && loc == old(loc)
      ensures forall q :: NewOnly(old(loc), old(height), q, loc)
    {
      if free == [] { return false; }
      var c := free[0];
      free := free[1..];
      PutOnTop(c);
      RaisedAll(old(nodes), old(loc), root, height, c, nodes, loc);
      root, height := Some(c), height + 1;
      return true;
    }

    /** Make node `c` the parent of the root. */
    method PutOnTop(c: nat)
      requires |nodes| == |loc| && c < |nodes| && loc[c].Unused?
      requires root.Some? ==> root.value < |nodes| && root.value != c
      modifies `nodes, `loc
      ensures Raised(old(nodes), old(loc), root, height, c, nodes, loc)
    {
      var node := BlankNode(None);
      if root.Some? {
        node := node.(slots := node.slots[0 := root.value + 1], count := 1);
        nodes := nodes[root.value := nodes[root.value].(parent := Some(c))];
      }
      nodes := nodes[c := node];
      loc := loc[c := At(height, TOP)];
    }

    /** Create the missing child in slot `i` of node `f`. */
    method AddNode(f: nat, i: nat) returns (c: Option<nat>)
      requires Valid() && Inner(loc, f) && i < WIDTH && Slot(nodes, f, i) == 0
      modifies `nodes, `free, `loc
      ensures Valid() && SameMap(old(nodes), root, height, nodes, root, height)
      ensures c.None? ==> free == [] && nodes == old(nodes) && loc == old(loc)
      ensures c.Some? ==> Slot(nodes, f, i) == c.value + 1
      ensures c.Some? ==> c.value < |old(loc)| && old(loc)[c.value].Unused? && loc == old(loc)[c.value :=
                            At(old(loc)[f].level - 1, Extend(old(loc)[f].prefix, old(loc)[f].level, i))]
      ensures Grown(old(nodes), old(loc), root, height, nodes)
    {
      if free == [] { return None; }
      var n := free[0];
      assert NodeOk(nodes, loc, f, height);
      ghost var nodes0, loc0 := nodes, loc;
      free := free[1..];
      nodes := nodes[n := BlankNode(Some(f))];
      nodes := nodes[f := nodes[f].(slots := nodes[f].slots[i := n + 1], count := nodes[f].count + 1)];
      loc := loc[n := At(loc[f].level - 1, Extend(loc[f].prefix, loc[f].level, i))];
      assert Hung(nodes0, loc0, f, i, n, nodes, loc);
      HungInv(nodes0, loc0, root, height, f, i, n, nodes, loc);
      forall p: Digits
        ensures Get(nodes, root, height, p) == Get(nodes0, root, height, p)
      {
        HungGet(nodes0, loc0, root, height, f, i, n, nodes, loc, p);
      }
      HungGrown(nodes0, loc0, root, height, f, i, n, nodes, loc);
      return Some(n);
    }

    /** One level of the search. */
    method Descend(p: Digits, level: nat, node: nat, alloc: bool) returns (r: Option<nat>)
      requires Valid() && DigitsOk(p) && root.Some? && 1 <= level < height
      requires On(nodes, root.value, height, p, level) == Some(node)
      modifies `nodes, `free, `loc
      ensures Valid() && SameMap(old(nodes), root, height, nodes, root, height)
      ensures r == On(nodes, root.value, height, p, level - 1)
      ensures alloc && r.None? ==> free == []
      ensures !alloc ==> nodes == old(nodes) && loc == old(loc) && free == old(free)
      ensures NewOnly(old(loc), height, Trunc(p, height), loc)
    {
      OnLoc(nodes, loc, root, height, p, level);
      assert NodeOk(nodes, loc, node, height);
      var i := Dig(p, level);
      var x := nodes[node].slots[i];
      if x != 0 { return Some(x - 1); }
      if !alloc { return None; }
      ghost var nodes0, loc0 := nodes, loc;
      r := AddNode(node, i);
      if r.Some? { NewChild(nodes0, loc0, root, height, p, level, node, r.value, loc); }
      assert On(nodes, root.value, height, p, level) == On(nodes0, root.value, height, p, level);
    }

    /** One round of the search. */
    method Follow(p: Digits, level: nat, node: nat, alloc: bool, ghost nodes0: seq<Node>, ghost loc0: seq<Loc>)
      returns (r: Option<nat>)
      requires Valid() && DigitsOk(p) && root.Some? && 1 <= level < height
      requires On(nodes, root.value, height, p, level) == Some(node)
      requires SameMap(nodes0, root, height, nodes, root, height) && NewOnly(loc0, height, Trunc(p, height), loc)
      modifies `nodes, `free, `loc
      ensures Valid() && SameMap(nodes0, root, height, nodes, root, height)
      ensures NewOnly(loc0, height, Trunc(p, height), loc)
      ensures r == On(nodes, root.value, height, p, level - 1)
      ensures alloc && r.None? ==> free == []
      ensures !alloc ==> nodes == old(nodes) && loc == old(loc) && free == old(free)
    {
      r := Descend(p, level, node, alloc);
      NewTrans(loc0, height, Trunc(p, height), old(loc), height, loc);
      SameMapTrans(nodes0, old(nodes), nodes, root, height);
    }

    /** The node that holds the leaf of an index, created on the way if asked for. */
    method FindParent(p: Digits, alloc: bool) returns (r: Option<nat>)
      requires Valid() && DigitsOk(p)
      modifies `nodes, `free, `loc
      ensures Valid() && SameMap(old(nodes), root, height, nodes, root, height)
      ensures root.Some? ==> r == On(nodes, root.value, height, p, 0)
      ensures root.None? ==> r.None?
      ensures alloc && r.None? ==> root.None? || free == []
      ensures !alloc ==> nodes == old(nodes) && loc == old(loc) && free == old(free)
      ensures NewOnly(old(loc), height, Trunc(p, height), loc)
    {
      if root.None? { return None; }
      ghost var nodes0, loc0, free0 := nodes, loc, free;
      var level := height - 1;
      r := root;
      while level > 0 && r.Some?
        invariant 0 <= level < height && root == old(root) && height == old(height)
        invariant Valid() && SameMap(nodes0, root, height, nodes, root, height)
        invariant r == On(nodes, root.value, height, p, level)
        invariant alloc && r.None? ==> free == []
        invariant NewOnly(loc0, height, Trunc(p, height), loc)
        invariant !alloc ==> nodes == nodes0 && loc == loc0 && free == free0
      {
        r := Follow(p, level, r.value, alloc, nodes0, loc0);
        level := level - 1;
      }
      if r.None? { NoneBelow(nodes, root.value, height, p, level, 0); }
    }

    method Lookup(index: nat) returns (x: nat)
      requires Valid() && index < MAX_INDEX
      modifies `nodes, `free, `loc
      ensures nodes == old(nodes) && loc == old(loc) && free == old(free)
      ensures x == Map(DigitsOf(index))
    {
      var p := Split(index);
      if height > 0 { FitsIsBelow(p, height); }
      if index > MaxIndex(height) { return 0; }
      var f := FindParent(p, false);
      if f.None? { return 0; }
      OnLoc(nodes, loc, root, height, p, 0);
      assert NodeOk(nodes, loc, f.value, height);
      x := nodes[f.value].slots[p.d0];
    }

    /** Add levels until the index is within reach. */
    method Grow(p: Digits, index: nat) returns (ok: bool)
      requires Valid() && DigitsOk(p) && IndexOf(p) == index < MAX_INDEX
      modifies this
      ensures Valid() && SameMap(old(nodes), old(root), old(height), nodes, root, height)
      ensures ok ==> root.Some? && Fits(p, height) && Trunc(p, height) == p
      ensures !ok ==> free == [] && index > MaxIndex(height)
      ensures NewOnly(old(loc), old(height), p, loc)
      ensures LeastHeight(old(height), height, index)
    {
      while index > MaxIndex(height)
        invariant NewOnly(old(loc), old(height), p, loc)
        invariant LeastHeight(old(height), height, index)
        invariant Valid() && SameMap(old(nodes), old(root), old(height), nodes, root, height)
        decreases MAX_HEIGHT - height
      {
        ghost var loc1 := loc;
        ok := AddLevel();
        assert NewOnly(loc1, height, p, loc) || NewOnly(loc1, height - 1, p, loc);
        if !ok { return; }
      }
      FitsIsBelow(p, height);
      return true;
    }

    /** The node for the leaf of an index, in a tree that is high enough. */
    method FindPlace(p: Digits, index: nat) returns (f: Option<nat>)
      requires Valid() && DigitsOk(p) && IndexOf(p) == index < MAX_INDEX
      modifies this
      ensures Valid() && SameMap(old(nodes), old(root), old(height), nodes, root, height)
      ensures f.Some? ==> root.Some? && Fits(p, height) && f == On(nodes, root.value, height, p, 0)
      ensures f.None? ==> free == [] && NoPlace(nodes, root, height, p, index)
      ensures NewOnly(old(loc), old(height), p, loc)
      ensures LeastHeight(old(height), height, index)
    {
      var ok := Grow(p, index);
      if !ok { return None; }
      ghost var loc1 := loc;
      f := FindParent(p, true);
      NewTrans(old(loc), old(height), p, loc1, height, loc);
    }

    /** Bind a free index; when that fails the map is unchanged. */
    method Insert(index: nat, leaf: nat) returns (r: InsertResult)
      requires Valid() && index < MAX_INDEX && leaf != 0
      modifies this
      ensures Valid()
      ensures r.Inserted? ==> old(Map(DigitsOf(index))) == 0
      ensures r.Inserted? ==> IndexSet(old(nodes), old(root), old(height), nodes, root, height, index, leaf)
      ensures !r.Inserted? ==> SameMap(old(nodes), old(root), old(height), nodes, root, height)
      ensures r.NodeExist? ==> old(Map(DigitsOf(index))) != 0
      ensures r.AllocError? ==> free == [] && NoPlace(nodes, root, height, DigitsOf(index), index)
      ensures NewOnly(old(loc), old(height), DigitsOf(index), loc)
      ensures LeastHeight(old(height), height, index)
    {
      var p := Split(index);
      var f := FindPlace(p, index);
      if f.None? { return AllocError; }
      r := AddLeaf(f.value, p, leaf);
      if r.Inserted? {
        MapSetIndex(old(nodes), old(root), old(height), nodes, root, height, p, leaf);
        IndexRoundTrip(index);
      }
    }

    /** Put a leaf in its slot, unless the slot is taken. */
    method AddLeaf(f: nat, p: Digits, leaf: nat) returns (r: InsertResult)
      requires Valid() && DigitsOk(p) && root.Some? && Fits(p, height)
      requires On(nodes, root.value, height, p, 0) == Some(f) && leaf != 0
      modifies `nodes
      ensures Valid() && !r.AllocError? && (r.Inserted? <==> old(Map(p)) == 0)
      ensures r.Inserted? ==> MapSet(old(nodes), root, height, nodes, root, height, p, leaf)
      ensures r.NodeExist? ==> nodes == old(nodes)
    {
      LeafNode(nodes, loc, root, height, f, p);
      if nodes[f].slots[p.d0] != 0 { return NodeExist; }
      ghost var nodes1 := LeafPut(nodes, loc, root, height, f, p, leaf);
      nodes := nodes[f := nodes[f].(slots := nodes[f].slots[p.d0 := leaf], count := nodes[f].count + 1)];
      assert nodes == nodes1;
      return Inserted;
    }

    /**
     Remove the leaf of an index.  Only the digits that the tree has are looked at,
     whatever the size of the index.
     */
    method Remove(index: nat) returns (leaf: nat)
      requires Valid() && index < MAX_INDEX
      modifies this
      ensures Valid() && leaf == old(Map(Trunc(DigitsOf(index), height)))
      ensures leaf == 0 ==> nodes == old(nodes) && root == old(root) && height == old(height)
      ensures leaf != 0 ==>
                MapSet(old(nodes), old(root), old(height), nodes, root, height, Trunc(DigitsOf(index), old(height)), 0)
      ensures leaf != 0 ==>
                IndexSet(old(nodes), old(root), old(height), nodes, root, height,
                         IndexOf(Trunc(DigitsOf(index), old(height))), 0)
      ensures leaf == 0 ==> free == old(free) && loc == old(loc)
      ensures leaf != 0 ==> old(root).Some? && var r, h, p := old(root).value, old(height), DigitsOf(index);
                && Emptied(old(nodes), r, h, p, free) && OnlyPath(old(nodes), old(loc), r, h, p, loc)
                && (if OnesTo(old(nodes), r, h, p, h) then root.None? && height == 0
                    else root == old(root) && height == h)
    {
      var p := Split(index);
      var f := FindParent(p, false);
      if height > 0 { OnTrunc(nodes, root.value, height, p, 0); }
      if f.None? { return 0; }
      OnLoc(nodes, loc, root, height, p, 0);
      assert NodeOk(nodes, loc, f.value, height);
      leaf := nodes[f.value].slots[p.d0];
      if leaf == 0 { return 0; }
      ghost var n := RemoveUp(f.value, p);
      EmptiedTo(old(nodes), old(loc), old(root), old(height), p, n, free, loc);
      MapSetIndex(old(nodes), old(root), old(height), nodes, root, height, Trunc(p, old(height)), 0);
    }

    /** Clear the slot of a leaf, and free the nodes that become empty, from the leaf up. */
    method RemoveUp(f: nat, p: Digits) returns (ghost n: nat)
      requires Valid() && DigitsOk(p) && root.Some? && On(nodes, root.value, height, p, 0) == Some(f)
      requires Slot(nodes, f, p.d0) != 0
      modifies this
      ensures Valid() && MapSet(old(nodes), old(root), old(height), nodes, root, height, Trunc(p, old(height)), 0)
      ensures n <= old(height) && Rest(old(nodes), old(root).value, old(height), p, n)
      ensures PathFreed(old(nodes), old(loc), old(root).value, old(height), p, n, loc)
      ensures if n == old(height) then root.None? && height == 0 else root == old(root) && height == old(height)
    {
      ghost var q := Trunc(p, height);
      LeafPending(nodes, loc, root, height, f, p);
      var level, node := 0, f;
      while level < height
        invariant 0 <= level <= height && root == old(root) && height == old(height) && FreeOk(free, loc)
        invariant level < height ==> Pending(nodes, loc, root, height, node, Dig(p, level), level, q)
        invariant level < height ==>
                    MapSet(old(nodes), root, height, Clear(nodes, node, Dig(p, level)), root, height, q, 0)
        invariant level == height ==>
                    Inv(nodes, loc, None, 0) && forall r: Digits :: r == q || Get(old(nodes), root, height, r) == 0
        invariant Upward(old(nodes), old(loc), root.value, height, p, level, node, nodes, loc)
      {
        ghost var nodes1, loc1 := nodes, loc;
        var more, parent := RemoveOne(node, level, p, q, old(nodes));
        if !more { return level; }
        UpwardStep(old(nodes), old(loc), root, height, p, level, node, nodes1, loc1, nodes, parent);
        node, level := parent, level + 1;
      }
      root, height := None, 0;
      return level;
    }

    /** Clear one slot; if the node is then empty, free it and go on with its parent. */
    method RemoveOne(node: nat, level: nat, p: Digits, ghost q: Digits, ghost nodes0: seq<Node>)
      returns (more: bool, parent: nat)
      requires FreeOk(free, loc) && DigitsOk(p) && level < height && q == Trunc(p, height)
      requires Pending(nodes, loc, root, height, node, Dig(p, level), level, q)
      requires MapSet(nodes0, root, height, Clear(nodes, node, Dig(p, level)), root, height, q, 0)
      modifies `nodes, `free, `loc
      ensures FreeOk(free, loc)
      ensures !more ==> Inv(nodes, loc, root, height) && MapSet(nodes0, root, height, nodes, root, height, q, 0)
      ensures more && level + 1 < height ==>
                && Pending(nodes, loc, root, height, parent, Dig(p, level + 1), level + 1, q)
                && MapSet(nodes0, root, height, Clear(nodes, parent, Dig(p, level + 1)), root, height, q, 0)
      ensures more && level + 1 == height ==>
                Inv(nodes, loc, None, 0) && forall r: Digits :: r == q || Get(nodes0, root, height, r) == 0
      ensures nodes == Clear(old(nodes), node, Dig(p, level)) && (more <==> old(nodes)[node].count == 1)
      ensures loc == if more then old(loc)[node := Unused] else old(loc)
      ensures more && level + 1 < height ==> old(nodes)[node].parent == Some(parent)
    {
      var i := Dig(p, level);
      nodes := nodes[node := nodes[node].(slots := nodes[node].slots[i := 0], count := nodes[node].count - 1)];
      if nodes[node].count > 0 { return false, 0; }
      ghost var loc0 := loc;
      assert NodeOk(nodes, loc, node, height) && LinkOk(nodes, loc, root, node);
      if level + 1 < height {
        parent := nodes[node].parent.value;
        NextPending(nodes, loc, root, height, node, level, p, q, nodes0);
      } else {
        parent := 0;
        RootGone(nodes, loc, root, height, node, q, nodes0);
      }
      loc := loc[node := Unused];
      free := [node] + free;
      more := true;
    }
  }

  // ----- The nodes on the way to an index -----

  /** The nodes on the way to `p`, from level 0 up to level `n - 1`, have one child each. */
  ghost predicate OnesTo(nodes: seq<Node>, root: nat, h: nat, p: Digits, n: nat) {
    forall l: nat {:trigger On(nodes, root, h, p, l)} :: l < n ==> HasCount(nodes, On(nodes, root, h, p, l), 1)
  }

  ghost predicate HasCount(nodes: seq<Node>, t: Option<nat>, k: nat) {
    t.Some? && t.value < |nodes| && nodes[t.value].count == k
  }

  /** The node at level `n`, if the tree has that level, is the first with more than one child. */
  ghost predicate Rest(nodes: seq<Node>, root: nat, h: nat, p: Digits, n: nat) {
    OnesTo(nodes, root, h, p, n) && (n < h ==> !HasCount(nodes, On(nodes, root, h, p, n), 1))
  }

  ghost predicate OnPath(nodes: seq<Node>, root: nat, h: nat, p: Digits, n: nat, f: int) {
    exists l: nat :: l < n && On(nodes, root, h, p, l) == Some(f)
  }

  /** The `n` lowest nodes on the way to `p` are gone; every other node is where it was. */
  ghost predicate PathFreed(nodes0: seq<Node>, loc0: seq<Loc>, root: nat, h: nat, p: Digits, n: nat, loc1: seq<Loc>) {
    && |loc1| == |loc0|
    && forall f {:trigger loc1[f]} :: 0 <= f < |loc0| ==>
         loc1[f] == if OnPath(nodes0, root, h, p, n, f) then Unused else loc0[f]
  }

  /** A node on the way is free now exactly when it and all nodes below it on the way had one child. */
  ghost predicate Emptied(nodes0: seq<Node>, root: nat, h: nat, p: Digits, free: seq<nat>) {
    forall l: nat {:trigger On(nodes0, root, h, p, l)} :: l < h ==>
      && On(nodes0, root, h, p, l).Some?
      && (On(nodes0, root, h, p, l).value in free <==> OnesTo(nodes0, root, h, p, l + 1))
  }

  /** No node but those on the way has changed its place, and those only by being freed. */
  ghost predicate OnlyPath(nodes0: seq<Node>, loc0: seq<Loc>, root: nat, h: nat, p: Digits, loc1: seq<Loc>) {
    && |loc1| == |loc0|
    && forall f {:trigger loc1[f]} :: 0 <= f < |loc0| ==>
         loc1[f] == loc0[f] || (loc1[f].Unused? && OnPath(nodes0, root, h, p, h, f))
  }

  lemma SomeAbove(nodes: seq<Node>, root: nat, h: nat, p: Digits, l: nat)
    requires On(nodes, root, h, p, 0).Some?
    ensures On(nodes, root, h, p, l).Some?
  {
    if On(nodes, root, h, p, l).None? { NoneBelow(nodes, root, h, p, l, 0); }
  }

  lemma EmptiedTo(nodes0: seq<Node>, loc0: seq<Loc>, root: Option<nat>, h: nat, p: Digits, n: nat, free: seq<nat>,
                  loc1: seq<Loc>)
    requires Inv(nodes0, loc0, root, h) && root.Some? && On(nodes0, root.value, h, p, 0).Some? && FreeOk(free, loc1)
    requires n <= h && Rest(nodes0, root.value, h, p, n) && PathFreed(nodes0, loc0, root.value, h, p, n, loc1)
    ensures Emptied(nodes0, root.value, h, p, free) && OnlyPath(nodes0, loc0, root.value, h, p, loc1)
    ensures OnesTo(nodes0, root.value, h, p, h) <==> n == h
  {
    forall l: nat | l < h
      ensures On(nodes0, root.value, h, p, l).Some?
      ensures On(nodes0, root.value, h, p, l).value in free <==> OnesTo(nodes0, root.value, h, p, l + 1)
    {
      SomeAbove(nodes0, root.value, h, p, l);
      FreedIf(nodes0, loc0, root, h, p, n, free, loc1, l);
    }
    forall f | 0 <= f < |loc0|
      ensures loc1[f] == loc0[f] || (loc1[f].Unused? && OnPath(nodes0, root.value, h, p, h, f))
    {
      if OnPath(nodes0, root.value, h, p, n, f) {
        var l: nat :| l < n && On(nodes0, root.value, h, p, l) == Some(f);
        assert l < h;
      }
    }
  }

  lemma FreedIf(nodes0: seq<Node>, loc0: seq<Loc>, root: Option<nat>, h: nat, p: Digits, n: nat, free: seq<nat>,
                loc1: seq<Loc>, l: nat)
    requires Inv(nodes0, loc0, root, h) && root.Some? && l < h && On(nodes0, root.value, h, p, l).Some?
    requires FreeOk(free, loc1)
    requires n <= h && Rest(nodes0, root.value, h, p, n) && PathFreed(nodes0, loc0, root.value, h, p, n, loc1)
    ensures On(nodes0, root.value, h, p, l).value in free <==> l < n
    ensures OnesTo(nodes0, root.value, h, p, l + 1) <==> l < n
  {
    var f := On(nodes0, root.value, h, p, l).value;
    OnLoc(nodes0, loc0, root, h, p, l);
    if OnPath(nodes0, root.value, h, p, n, f) {
      var k: nat :| k < n && On(nodes0, root.value, h, p, k) == Some(f);
      OnLoc(nodes0, loc0, root, h, p, k);
    }
    assert loc1[f].Unused? <==> l < n;
  }

  /** The nodes below `level` are gone; the node at `level` is next, and from there up nothing has changed. */
  ghost predicate Upward(nodes0: seq<Node>, loc0: seq<Loc>, root: nat, h: nat, p: Digits, level: nat, node: nat,
                         nodes: seq<Node>, loc: seq<Loc>) {
    && PathFreed(nodes0, loc0, root, h, p, level, loc) && OnesTo(nodes0, root, h, p, level)
    && (level < h ==> On(nodes0, root, h, p, level) == Some(node)) && |nodes| == |nodes0| == |loc0|
    && forall f :: 0 <= f < |nodes0| && loc0[f].At? && loc0[f].level >= level ==> nodes[f] == nodes0[f]
  }

  lemma PathStep(nodes0: seq<Node>, loc0: seq<Loc>, root: nat, h: nat, p: Digits, level: nat, node: nat, loc: seq<Loc>)
    requires PathFreed(nodes0, loc0, root, h, p, level, loc) && On(nodes0, root, h, p, level) == Some(node)
    requires node < |loc0|
    ensures PathFreed(nodes0, loc0, root, h, p, level + 1, loc[node := Unused])
  {
    forall f | 0 <= f < |loc0|
      ensures OnPath(nodes0, root, h, p, level + 1, f) <==> f == node || OnPath(nodes0, root, h, p, level, f)
    {
      if OnPath(nodes0, root, h, p, level, f) {
        var l: nat :| l < level && On(nodes0, root, h, p, l) == Some(f);
        assert l < level + 1;
      }
    }
  }

  lemma UpwardStep(nodes0: seq<Node>, loc0: seq<Loc>, root: Option<nat>, h: nat, p: Digits, level: nat, node: nat,
                   nodes: seq<Node>, loc: seq<Loc>, nodes': seq<Node>, parent: nat)
    requires Inv(nodes0, loc0, root, h) && root.Some? && level < h
    requires Upward(nodes0, loc0, root.value, h, p, level, node, nodes, loc)
    requires node < |nodes| && nodes[node].count == 1 && nodes' == Clear(nodes, node, Dig(p, level))
    requires level + 1 < h ==> nodes[node].parent == Some(parent)
    ensures node < |loc| && Upward(nodes0, loc0, root.value, h, p, level + 1, parent, nodes', loc[node := Unused])
  {
    OnLoc(nodes0, loc0, root, h, p, level);
    PathStep(nodes0, loc0, root.value, h, p, level, node, loc);
    if level + 1 < h {
      OnLoc(nodes0, loc0, root, h, p, level + 1);
      var g := On(nodes0, root.value, h, p, level + 1).value;
      assert ChildOk(nodes0, loc0, g, Dig(p, level + 1), node);
    }
  }

  /** The tree without slot `i` of node `f`. */
  ghost function Clear(nodes: seq<Node>, f: nat, i: nat): (nodes': seq<Node>) {
    if f < |nodes| && i < |nodes[f].slots| && nodes[f].count > 0
    then SetSlot(nodes, f, i, 0, nodes[f].count - 1) else nodes
  }

  /** Slot `i` of node `f` is the one thing left to clear: without it the tree is in order. */
  ghost predicate Pending(nodes: seq<Node>, loc: seq<Loc>, root: Option<nat>, h: nat, f: nat, i: nat, level: nat,
                          q: Digits) {
    && f < |nodes| == |loc| && i < |nodes[f].slots| && nodes[f].slots[i] != 0 && nodes[f].count > 0
    && loc[f] == At(level, Pre(q, level)) && Inv(Clear(nodes, f, i), loc, root, h)
  }

  lemma LeafPending(nodes: seq<Node>, loc: seq<Loc>, root: Option<nat>, h: nat, f: nat, p: Digits)
    requires Inv(nodes, loc, root, h) && DigitsOk(p) && root.Some? && On(nodes, root.value, h, p, 0) == Some(f)
    requires Slot(nodes, f, p.d0) != 0
    ensures Pending(nodes, loc, root, h, f, p.d0, 0, Trunc(p, h))
    ensures MapSet(nodes, root, h, Clear(nodes, f, p.d0), root, h, Trunc(p, h), 0)
  {
    var q := Trunc(p, h);
    OnLoc(nodes, loc, root, h, p, 0);
    OnTrunc(nodes, root.value, h, p, 0);
    assert NodeOk(nodes, loc, f, h);
    CountZero(nodes[f].slots, WIDTH, p.d0);
    CountUpdate(nodes[f].slots, p.d0, 0);
    var nodes' := Clear(nodes, f, p.d0);
    assert LeafSet(nodes, loc, f, q.d0, 0, nodes');
    LeafSetInv(nodes, loc, root, h, f, q.d0, 0, nodes');
    forall r: Digits
      ensures Get(nodes', root, h, r) == if r == q then 0 else Get(nodes, root, h, r)
    {
      LeafSetGet(nodes, loc, root, h, f, 0, nodes', q, r);
    }
  }

  /** An empty node below the root: the slot of its parent is next. */
  lemma NextPending(nodes: seq<Node>, loc: seq<Loc>, root: Option<nat>, h: nat, f: nat, level: nat, p: Digits,
                    q: Digits, nodes0: seq<Node>)
    requires Inv(nodes, loc, root, h) && level + 1 < h && f < |nodes| && loc[f] == At(level, Pre(q, level))
    requires nodes[f].count == 0
    requires DigitsOk(p) && q == Trunc(p, h) && MapSet(nodes0, root, h, nodes, root, h, q, 0)
    ensures nodes[f].parent.Some?
    ensures var g, j := nodes[f].parent.value, Dig(p, level + 1);
            && Pending(nodes, loc[f := Unused], root, h, g, j, level + 1, q)
            && MapSet(nodes0, root, h, Clear(nodes, g, j), root, h, q, 0)
  {
    assert NodeOk(nodes, loc, f, h) && LinkOk(nodes, loc, root, f);
    var g, j := nodes[f].parent.value, Dig(p, level + 1);
    assert Dig(Pre(q, level), level + 1) == j;
    assert NodeOk(nodes, loc, g, h);
    CountZero(nodes[g].slots, WIDTH, j);
    CountUpdate(nodes[g].slots, j, 0);
    assert Clear(nodes, g, j) == Dropped(nodes, g, j);
    DroppedInv(nodes, loc, root, h, f, g, j);
    assert ChildOk(nodes, loc, g, j, f);
    assert Pre(Extend(loc[g].prefix, level + 1, j), level + 1) == loc[g].prefix;
    assert Pre(Pre(q, level), level + 1) == Pre(q, level + 1);
    forall r: Digits
      ensures Get(Dropped(nodes, g, j), root, h, r) == Get(nodes, root, h, r)
    {
      DroppedGet(nodes, loc, root, h, f, g, j, r);
    }
  }

  /** An empty root: nothing is left. */
  lemma RootGone(nodes: seq<Node>, loc: seq<Loc>, root: Option<nat>, h: nat, f: nat, q: Digits, nodes0: seq<Node>)
    requires Inv(nodes, loc, root, h) && h > 0 && f < |nodes| && loc[f] == At(h - 1, Pre(q, h - 1))
    requires nodes[f].count == 0
    requires MapSet(nodes0, root, h, nodes, root, h, q, 0)
    ensures root == Some(f) && Inv(nodes, loc[f := Unused], None, 0)
    ensures forall r: Digits :: r == q || Get(nodes0, root, h, r) == 0
  {
    if Some(f) != root { BelowRoot(nodes, loc, root, h, f); }
    RootDropped(nodes, loc, root, h);
    forall r: Digits | r != q
      ensures Get(nodes0, root, h, r) == 0
    {
      EmptyRoot(nodes, loc, root, h, r);
      assert Get(nodes, root, h, r) == Get(nodes0, root, h, r);
    }
  }

  /** Nodes on a way that existed stay on it. */
  ghost predicate Grown(nodes0: seq<Node>, loc0: seq<Loc>, root: Option<nat>, h: nat, nodes1: seq<Node>) {
    forall p: Digits, l: nat {:trigger On(nodes1, root.value, h, p, l)} ::
      root.Some? && l < h && On(nodes0, root.value, h, p, l).Some? ==>
        On(nodes1, root.value, h, p, l) == On(nodes0, root.value, h, p, l)
  }

  lemma HungGrown(nodes: seq<Node>, loc: seq<Loc>, root: Option<nat>, h: nat, f: nat, i: nat, c: nat,
                  nodes': seq<Node>, loc': seq<Loc>)
    requires CanHang(nodes, loc, root, h, f, i, c) && Hung(nodes, loc, f, i, c, nodes', loc')
    ensures Grown(nodes, loc, root, h, nodes')
  {
    forall p: Digits, l: nat | root.Some? && l < h && On(nodes, root.value, h, p, l).Some?
      ensures On(nodes', root.value, h, p, l) == On(nodes, root.value, h, p, l)
    {
      HungOn(nodes, loc, root, h, f, i, c, nodes', loc', p, l);
    }
  }

  // ----- Removing an index beyond the tree -----

  /** What a removal is documented to do: return the leaf of the index, and unbind that index only. */
  ghost predicate Removes(nodes0: seq<Node>, root0: Option<nat>, h0: nat, nodes1: seq<Node>, root1: Option<nat>,
                          h1: nat,
                          p: Digits, leaf: nat) {
    leaf == Get(nodes0, root0, h0, p) && MapSet(nodes0, root0, h0, nodes1, root1, h1, p, 0)
  }

  /**
   Removal, which acts on the index cut to the digits of the tree, does what is documented
   exactly when the index is not above the largest one of the tree or nothing is bound at
   the cut index.
   */
  lemma RemoveExact(nodes0: seq<Node>, root0: Option<nat>, h0: nat, nodes1: seq<Node>, root1: Option<nat>, h1: nat,
                    p: Digits, leaf: nat)
    requires DigitsOk(p) && h0 <= MAX_HEIGHT && leaf == Get(nodes0, root0, h0, Trunc(p, h0))
    requires leaf == 0 ==> SameMap(nodes0, root0, h0, nodes1, root1, h1)
    requires leaf != 0 ==> MapSet(nodes0, root0, h0, nodes1, root1, h1, Trunc(p, h0), 0)
    ensures Removes(nodes0, root0, h0, nodes1, root1, h1, p, leaf) <==>
              IndexOf(p) <= MaxIndex(h0) || Get(nodes0, root0, h0, Trunc(p, h0)) == 0
  {
  }

  /** With leaf 7 at index 0 in a tree of height 1, removing index 64 removes index 0. */
  lemma RemoveCanAlias() returns (nodes: seq<Node>, loc: seq<Loc>)
    ensures Inv(nodes, loc, Some(0), 1)
    ensures Get(nodes, Some(0), 1, DigitsOf(64)) == 0 && Get(nodes, Some(0), 1, Trunc(DigitsOf(64), 1)) == 7
    ensures DigitsOf(0) == Trunc(DigitsOf(64), 1)
  {
    var blank := BlankNode(None);
    nodes := [blank.(slots := blank.slots[0 := 7], count := 1)];
    loc := [At(0, TOP)];
    CountEmpty(blank.slots, WIDTH);
    CountUpdate(blank.slots, 0, 7);
  }
}
