/**
 The block maps of the simple file system as values: inodes with direct and
 indirect block pointers, and disk blocks of bytes.

 The ghost sequence `own` gives every block the one pointer that may refer to it.
 That is why a change through one pointer is not seen through any other.
 */
module SfsSpec {
  import opened LittleEndian

  const BLK: nat := 512
  const NDIRECT: nat := 12
  const PTRS: nat := 128
  const MAX_BLOCKS: nat := 268
  const MAX_FILE_SIZE: nat := 137216

  type Block = seq<nat>
  type Disk = seq<Block>

  datatype Inode = Inode(size: nat, addrs: seq<nat>)

  // ----- Pointers inside a block: 32-bit numbers, low byte first -----

  function PtrAt(b: Block, j: nat): (p: nat)
    requires |b| == BLK && j < PTRS
  {
    DecodeU32(b[4 * j..4 * j + 4])
  }

  function SetPtr(b: Block, j: nat, p: nat): (b': Block)
    requires |b| == BLK && j < PTRS && p < LIMIT
    ensures |b'| == BLK
  {
    b[..4 * j] + EncodeU32(p) + b[4 * j + 4..]
  }

  /** Storing a pointer changes that pointer and no other. */
  lemma SetPtrAt(b: Block, j: nat, p: nat, i: nat)
    requires |b| == BLK && j < PTRS && i < PTRS && p < LIMIT
    ensures PtrAt(SetPtr(b, j, p), i) == if i == j then p else PtrAt(b, i)
  {
    var b' := SetPtr(b, j, p);
    if i == j {
      assert b'[4 * j..4 * j + 4] == EncodeU32(p);
      U32RoundTrip(p);
    } else {
      assert b'[4 * i..4 * i + 4] == b[4 * i..4 * i + 4];
    }
  }

  function ZeroBlock(): (b: Block)
    ensures |b| == BLK && forall i :: 0 <= i < BLK ==> b[i] == 0
  {
    seq(BLK, _ => 0)
  }

  lemma ZeroPtr(j: nat)
    requires j < PTRS
    ensures PtrAt(ZeroBlock(), j) == 0
  {
  }

  // ----- Pointers of an inode -----

  /** A place that holds a block number: in an inode, or in one of its indirect blocks. */
  datatype Slot = Direct(a: nat) | Indirect(a: nat, j: nat)

  predicate SlotOk(s: Slot) {
    match s
    case Direct(a) => a < 14
    case Indirect(a, j) => NDIRECT <= a < 14 && j < PTRS
  }

  /** The place of the pointer to block `k` of a file. */
  function SlotOf(k: nat): (s: Slot)
    ensures k < MAX_BLOCKS ==> SlotOk(s)
  {
    if k < NDIRECT then Direct(k)
    else if k < NDIRECT + PTRS then Indirect(12, k - NDIRECT)
    else Indirect(13, k - NDIRECT - PTRS)
  }

  predicate Shape(inodes: seq<Inode>, disk: Disk) {
    && (forall f :: 0 <= f < |inodes| ==> |inodes[f].addrs| == 14 && inodes[f].size <= MAX_FILE_SIZE)
    && (forall b :: 0 <= b < |disk| ==> |disk[b]| == BLK)
  }

  function Addr(inodes: seq<Inode>, f: nat, a: nat): (p: nat) {
    if f < |inodes| && a < |inodes[f].addrs| then inodes[f].addrs[a] else 0
  }

  /** What the pointer at place `s` of file `f` holds; 0 for none. */
  function Ptr(inodes: seq<Inode>, disk: Disk, f: nat, s: Slot): (p: nat) {
    if !SlotOk(s) then 0
    else
      var p := Addr(inodes, f, s.a);
      if s.Direct? then p
      else if 0 < p < |disk| && |disk[p]| == BLK then PtrAt(disk[p], s.j) else 0
  }

  datatype Owner = Nobody | Used(f: nat, s: Slot)

  /** Every pointer leads to a block that it alone owns, and every block that is owned has its pointer. */
  ghost predicate Inv(inodes: seq<Inode>, disk: Disk, own: seq<Owner>, ds: nat) {
    && Shape(inodes, disk) && |own| == |disk| <= LIMIT && 0 < ds <= |disk|
    && (forall f: nat, s: Slot :: Ptr(inodes, disk, f, s) != 0 ==> Owned(own, ds, Ptr(inodes, disk, f, s), f, s))
    && (forall b :: 0 <= b < |own| && own[b].Used? ==> Pointed(inodes, disk, own, ds, b))
  }

  ghost predicate Pointed(inodes: seq<Inode>, disk: Disk, own: seq<Owner>, ds: nat, b: nat)
    requires b < |own| && own[b].Used?
  {
    ds <= b && Ptr(inodes, disk, own[b].f, own[b].s) == b
  }

  ghost predicate Owned(own: seq<Owner>, ds: nat, p: nat, f: nat, s: Slot) {
    ds <= p < |own| && own[p] == Used(f, s)
  }

  // ----- The bytes of a file -----

  /** Byte `x` of block `k` of file `f`; 0 where there is no block. */
  function Cell(inodes: seq<Inode>, disk: Disk, f: nat, k: nat, x: nat): (c: nat) {
    var p := Ptr(inodes, disk, f, SlotOf(k));
    if 0 < p < |disk| && x < |disk[p]| then disk[p][x] else 0
  }

  // ----- The same, read off the inode and the bytes of its indirect blocks -----

  /** The 32-bit number at byte `o` of a block. */
  function Number(x: Block, o: nat): (n: nat)
    requires o + 4 <= |x|
  {
    x[o] + 256 * x[o + 1] + 65536 * x[o + 2] + 16777216 * x[o + 3]
  }

  /** The number of block `k` of a file: 12 are in the inode, 128 in each of two indirect blocks; 0 for none. */
  function BlockNo(inodes: seq<Inode>, disk: Disk, f: nat, k: nat): (b: nat)
    requires Shape(inodes, disk) && f < |inodes| && k < 268
  {
    var addrs := inodes[f].addrs;
    if k < 12 then addrs[k]
    else
      var ib := addrs[12 + (k - 12) / 128];
      if 0 < ib < |disk| then Number(disk[ib], (k - 12) % 128 * 4) else 0
  }

  /** Byte `o` of a file; 0 where there is no block. */
  function ByteAt(inodes: seq<Inode>, disk: Disk, f: nat, o: nat): (x: nat)
    requires Shape(inodes, disk) && f < |inodes| && o < 137216
  {
    var b := BlockNo(inodes, disk, f, o / 512);
    if 0 < b < |disk| then disk[b][o % 512] else 0
  }

  /** Block `k` is found through exactly this pointer. */
  lemma PtrIsBlockNo(inodes: seq<Inode>, disk: Disk, f: nat, k: nat)
    requires Shape(inodes, disk) && f < |inodes| && k < MAX_BLOCKS
    ensures Ptr(inodes, disk, f, SlotOf(k)) == BlockNo(inodes, disk, f, k)
  {
    if k >= NDIRECT {
      var a, j := 12 + (k - 12) / 128, (k - 12) % 128;
      assert SlotOf(k) == Indirect(a, j);
      assert Addr(inodes, f, a) == inodes[f].addrs[a];
    }
  }

  lemma CellIsByteAt(inodes: seq<Inode>, disk: Disk, f: nat, o: nat)
    requires Shape(inodes, disk) && f < |inodes| && o < MAX_FILE_SIZE
    ensures Cell(inodes, disk, f, o / 512, o % 512) == ByteAt(inodes, disk, f, o)
  {
    PtrIsBlockNo(inodes, disk, f, o / 512);
  }

  // ----- Clearing a block that nobody uses -----

  lemma ClearPtr(inodes: seq<Inode>, disk: Disk, own: seq<Owner>, ds: nat, b: nat, page: Block, f: nat, s: Slot)
    requires Inv(inodes, disk, own, ds) && ds <= b < |disk| && own[b].Nobody? && |page| == BLK
    ensures Ptr(inodes, disk[b := page], f, s) == Ptr(inodes, disk, f, s)
  {
    if SlotOk(s) && s.Indirect? {
      var p := Addr(inodes, f, s.a);
      assert Ptr(inodes, disk, f, Direct(s.a)) == p;
    }
  }

  lemma ClearInv(inodes: seq<Inode>, disk: Disk, own: seq<Owner>, ds: nat, b: nat, page: Block)
    requires Inv(inodes, disk, own, ds) && ds <= b < |disk| && own[b].Nobody? && |page| == BLK
    ensures Inv(inodes, disk[b := page], own, ds)
  {
    var disk' := disk[b := page];
    forall f: nat, s: Slot | Ptr(inodes, disk', f, s) != 0
      ensures Owned(own, ds, Ptr(inodes, disk', f, s), f, s)
    {
      ClearPtr(inodes, disk, own, ds, b, page, f, s);
    }
    forall x | 0 <= x < |own| && own[x].Used?
      ensures Pointed(inodes, disk', own, ds, x)
    {
      assert Pointed(inodes, disk, own, ds, x);
      ClearPtr(inodes, disk, own, ds, b, page, own[x].f, own[x].s);
    }
  }

  lemma ClearCell(inodes: seq<Inode>, disk: Disk, own: seq<Owner>, ds: nat, b: nat, page: Block, f: nat, k: nat, x: nat)
    requires Inv(inodes, disk, own, ds) && ds <= b < |disk| && own[b].Nobody? && |page| == BLK
    ensures Cell(inodes, disk[b := page], f, k, x) == Cell(inodes, disk, f, k, x)
  {
    ClearPtr(inodes, disk, own, ds, b, page, f, SlotOf(k));
    assert Ptr(inodes, disk, f, SlotOf(k)) != 0 ==> Owned(own, ds, Ptr(inodes, disk, f, SlotOf(k)), f, SlotOf(k));
  }

  // ----- Making a pointer in an inode -----

  function SetAddr(inodes: seq<Inode>, f: nat, a: nat, b: nat): (inodes': seq<Inode>)
    requires f < |inodes| && a < |inodes[f].addrs|
  {
    inodes[f := inodes[f].(addrs := inodes[f].addrs[a := b])]
  }

  /** Block `b` is zeroed and free to be taken for the empty place `s` of file `f`. */
  ghost predicate CanTake(inodes: seq<Inode>, disk: Disk, own: seq<Owner>, ds: nat, f: nat, s: Slot, b: nat) {
    && Inv(inodes, disk, own, ds) && f < |inodes| && SlotOk(s) && Ptr(inodes, disk, f, s) == 0
    && ds <= b < |disk| && own[b].Nobody? && disk[b] == ZeroBlock()
  }

  lemma DirectPtr(inodes: seq<Inode>, disk: Disk, own: seq<Owner>, ds: nat, f: nat, a: nat, b: nat, g: nat, s: Slot)
    requires CanTake(inodes, disk, own, ds, f, Direct(a), b)
    ensures Ptr(SetAddr(inodes, f, a, b), disk, g, s) ==
            if g == f && s == Direct(a) then b else Ptr(inodes, disk, g, s)
  {
    assert Ptr(inodes, disk, f, Direct(a)) == Addr(inodes, f, a);
    if SlotOk(s) && s.Indirect? && g == f && s.a == a { ZeroPtr(s.j); }
  }

  lemma DirectInv(inodes: seq<Inode>, disk: Disk, own: seq<Owner>, ds: nat, f: nat, a: nat, b: nat)
    requires CanTake(inodes, disk, own, ds, f, Direct(a), b)
    ensures Inv(SetAddr(inodes, f, a, b), disk, own[b := Used(f, Direct(a))], ds)
  {
    var inodes', own' := SetAddr(inodes, f, a, b), own[b := Used(f, Direct(a))];
    forall g: nat, s: Slot | Ptr(inodes', disk, g, s) != 0
      ensures Owned(own', ds, Ptr(inodes', disk, g, s), g, s)
    {
      DirectPtr(inodes, disk, own, ds, f, a, b, g, s);
      assert Ptr(inodes, disk, g, s) != 0 ==> Owned(own, ds, Ptr(inodes, disk, g, s), g, s);
    }
    forall x | 0 <= x < |own'| && own'[x].Used?
      ensures Pointed(inodes', disk, own', ds, x)
    {
      DirectPtr(inodes, disk, own, ds, f, a, b, own'[x].f, own'[x].s);
      assert x == b || Pointed(inodes, disk, own, ds, x);
    }
  }

  lemma DirectCell(inodes: seq<Inode>, disk: Disk, own: seq<Owner>, ds: nat, f: nat, a: nat, b: nat, g: nat, k: nat,
                   x: nat)
    requires CanTake(inodes, disk, own, ds, f, Direct(a), b)
    ensures Cell(SetAddr(inodes, f, a, b), disk, g, k, x) == Cell(inodes, disk, g, k, x)
  {
    DirectPtr(inodes, disk, own, ds, f, a, b, g, SlotOf(k));
  }

  // ----- Making a pointer in an indirect block -----

  function SetIndirect(disk: Disk, ib: nat, j: nat, b: nat): (disk': Disk)
    requires ib < |disk| && |disk[ib]| == BLK && j < PTRS && b < LIMIT
  {
    disk[ib := SetPtr(disk[ib], j, b)]
  }

  ghost predicate CanTakeIndirect(inodes: seq<Inode>, disk: Disk, own: seq<Owner>, ds: nat, f: nat, a: nat, j: nat,
                                  b: nat) {
    CanTake(inodes, disk, own, ds, f, Indirect(a, j), b) && Addr(inodes, f, a) != 0
  }

  lemma IndexBlock(inodes: seq<Inode>, disk: Disk, own: seq<Owner>, ds: nat, f: nat, a: nat)
    requires Inv(inodes, disk, own, ds) && f < |inodes| && NDIRECT <= a < 14 && Addr(inodes, f, a) != 0
    ensures Owned(own, ds, Addr(inodes, f, a), f, Direct(a))
  {
    assert Ptr(inodes, disk, f, Direct(a)) == Addr(inodes, f, a);
  }

  lemma IndirectPtr(inodes: seq<Inode>, disk: Disk, own: seq<Owner>, ds: nat, f: nat, a: nat, j: nat, b: nat, g: nat,
                    s: Slot)
    requires CanTakeIndirect(inodes, disk, own, ds, f, a, j, b)
    ensures Addr(inodes, f, a) < |disk|
    ensures Ptr(inodes, SetIndirect(disk, Addr(inodes, f, a), j, b), g, s) ==
            if g == f && s == Indirect(a, j) then b else Ptr(inodes, disk, g, s)
  {
    var ib := Addr(inodes, f, a);
    IndexBlock(inodes, disk, own, ds, f, a);
    if SlotOk(s) && s.Indirect? {
      assert Ptr(inodes, disk, g, Direct(s.a)) == Addr(inodes, g, s.a);
      SetPtrAt(disk[ib], j, b, s.j);
    }
  }

  lemma IndirectInv(inodes: seq<Inode>, disk: Disk, own: seq<Owner>, ds: nat, f: nat, a: nat, j: nat, b: nat)
    requires CanTakeIndirect(inodes, disk, own, ds, f, a, j, b)
    ensures Addr(inodes, f, a) < |disk|
    ensures Inv(inodes, SetIndirect(disk, Addr(inodes, f, a), j, b), own[b := Used(f, Indirect(a, j))], ds)
  {
    IndexBlock(inodes, disk, own, ds, f, a);
    var disk', own' := SetIndirect(disk, Addr(inodes, f, a), j, b), own[b := Used(f, Indirect(a, j))];
    forall g: nat, s: Slot | Ptr(inodes, disk', g, s) != 0
      ensures Owned(own', ds, Ptr(inodes, disk', g, s), g, s)
    {
      IndirectPtr(inodes, disk, own, ds, f, a, j, b, g, s);
      assert Ptr(inodes, disk, g, s) != 0 ==> Owned(own, ds, Ptr(inodes, disk, g, s), g, s);
    }
    forall x | 0 <= x < |own'| && own'[x].Used?
      ensures Pointed(inodes, disk', own', ds, x)
    {
      IndirectPtr(inodes, disk, own, ds, f, a, j, b, own'[x].f, own'[x].s);
      assert x == b || Pointed(inodes, disk, own, ds, x);
    }
  }

  lemma IndirectCell(inodes: seq<Inode>, disk: Disk, own: seq<Owner>, ds: nat, f: nat, a: nat, j: nat, b: nat,
                     g: nat, k: nat, x: nat)
    requires CanTakeIndirect(inodes, disk, own, ds, f, a, j, b)
    ensures Addr(inodes, f, a) < |disk|
    ensures Cell(inodes, SetIndirect(disk, Addr(inodes, f, a), j, b), g, k, x) == Cell(inodes, disk, g, k, x)
  {
    IndexBlock(inodes, disk, own, ds, f, a);
    var s := SlotOf(k);
    IndirectPtr(inodes, disk, own, ds, f, a, j, b, g, s);
    assert Ptr(inodes, disk, g, s) != 0 ==> Owned(own, ds, Ptr(inodes, disk, g, s), g, s);
  }

  // ----- Writing a data block -----

  lemma StorePtr(inodes: seq<Inode>, disk: Disk, own: seq<Owner>, ds: nat, f: nat, k: nat, page: Block, g: nat, s: Slot)
    requires Inv(inodes, disk, own, ds) && Ptr(inodes, disk, f, SlotOf(k)) != 0 && |page| == BLK && k < MAX_BLOCKS
    ensures Ptr(inodes, disk, f, SlotOf(k)) < |disk|
    ensures Ptr(inodes, disk[Ptr(inodes, disk, f, SlotOf(k)) := page], g, s) == Ptr(inodes, disk, g, s)
  {
    var b := Ptr(inodes, disk, f, SlotOf(k));
    assert Owned(own, ds, b, f, SlotOf(k));
    if SlotOk(s) && s.Indirect? {
      assert Ptr(inodes, disk, g, Direct(s.a)) == Addr(inodes, g, s.a);
    }
  }

  lemma StoreInv(inodes: seq<Inode>, disk: Disk, own: seq<Owner>, ds: nat, f: nat, k: nat, page: Block)
    requires Inv(inodes, disk, own, ds) && Ptr(inodes, disk, f, SlotOf(k)) != 0 && |page| == BLK && k < MAX_BLOCKS
    ensures Ptr(inodes, disk, f, SlotOf(k)) < |disk|
    ensures Inv(inodes, disk[Ptr(inodes, disk, f, SlotOf(k)) := page], own, ds)
  {
    var b := Ptr(inodes, disk, f, SlotOf(k));
    assert Owned(own, ds, b, f, SlotOf(k));
    var disk' := disk[b := page];
    forall g: nat, s: Slot | Ptr(inodes, disk', g, s) != 0
      ensures Owned(own, ds, Ptr(inodes, disk', g, s), g, s)
    {
      StorePtr(inodes, disk, own, ds, f, k, page, g, s);
    }
    forall x | 0 <= x < |own| && own[x].Used?
      ensures Pointed(inodes, disk', own, ds, x)
    {
      assert Pointed(inodes, disk, own, ds, x);
      StorePtr(inodes, disk, own, ds, f, k, page, own[x].f, own[x].s);
    }
  }

  lemma SlotInjective(k: nat, m: nat)
    ensures SlotOf(k) == SlotOf(m) <==> k == m
  {
  }

  /** Writing one block of a file changes that block of that file only. */
  lemma StoreCell(inodes: seq<Inode>, disk: Disk, own: seq<Owner>, ds: nat, f: nat, k: nat, page: Block,
                  g: nat, m: nat, x: nat)
    requires Inv(inodes, disk, own, ds) && Ptr(inodes, disk, f, SlotOf(k)) != 0 && |page| == BLK && k < MAX_BLOCKS
    requires x < BLK
    ensures Ptr(inodes, disk, f, SlotOf(k)) < |disk|
    ensures Cell(inodes, disk[Ptr(inodes, disk, f, SlotOf(k)) := page], g, m, x) ==
            if g == f && m == k then page[x] else Cell(inodes, disk, g, m, x)
  {
    var b := Ptr(inodes, disk, f, SlotOf(k));
    var s := SlotOf(m);
    assert Owned(own, ds, b, f, SlotOf(k));
    StorePtr(inodes, disk, own, ds, f, k, page, g, s);
    SlotInjective(k, m);
    assert Ptr(inodes, disk, g, s) != 0 ==> Owned(own, ds, Ptr(inodes, disk, g, s), g, s);
  }
}
