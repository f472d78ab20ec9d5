/**
 Block allocation, block maps and file data of kernel/fs/sfs/sfs.c.
 */
module Sfs {
  import opened LittleEndian
  import opened Wrappers
  import opened SfsSpec

  datatype BlkResult = Got(blk: nat) | NotExist | NoSpace

  /** Every file has the same bytes. */
  ghost predicate SameFiles(inodes0: seq<Inode>, disk0: Disk, inodes1: seq<Inode>, disk1: Disk) {
    forall g: nat, k: nat, x: nat {:trigger Cell(inodes1, disk1, g, k, x)} ::
      Cell(inodes1, disk1, g, k, x) == Cell(inodes0, disk0, g, k, x)
  }

  /** Every block pointer is the same, except possibly the one of block `k` of file `f`. */
  ghost predicate SamePtrs(inodes0: seq<Inode>, disk0: Disk, inodes1: seq<Inode>, disk1: Disk, f: nat, k: nat) {
    forall g: nat, m: nat {:trigger Ptr(inodes1, disk1, g, SlotOf(m))} ::
      g != f || m != k ==> Ptr(inodes1, disk1, g, SlotOf(m)) == Ptr(inodes0, disk0, g, SlotOf(m))
  }

  ghost predicate SameSizes(inodes0: seq<Inode>, inodes1: seq<Inode>) {
    |inodes1| == |inodes0| && forall g :: 0 <= g < |inodes0| ==> inodes1[g].size == inodes0[g].size
  }

  /** The bitmap marks exactly the blocks that have a pointer; `x` is a block on the way to its pointer, or -1. */
  ghost predicate BitsOk(used: seq<bool>, own: seq<Owner>, ds: nat, x: int) {
    |own| == ds + |used| && forall b :: ds <= b < |own| ==> (used[b - ds] <==> own[b].Used? || b == x)
  }

  /** All data blocks that a search of the bitmap can find are in use; a rest of fewer than 8 is never searched. */
  ghost predicate Full(used: seq<bool>) {
    forall i :: 0 <= i < |used| / 8 * 8 ==> used[i]
  }

  /** The end of the part of an `n`-bit bitmap that the first `blk` rounds of a search cover. */
  function SearchEnd(n: nat, blk: nat): (e: nat) {
    if 4096 * blk < n / 8 * 8 then 4096 * blk else n / 8 * 8
  }

  lemma DivShift(n: nat, blk: nat)
    requires 4096 * blk <= n
    ensures (n - 4096 * blk) / 8 == n / 8 - 512 * blk
  {
    var q, t := n / 8, n % 8;
    assert n - 4096 * blk == 8 * (q - 512 * blk) + t;
  }

  lemma SearchStep(n: nat, blk: nat)
    requires 4096 * blk <= n
    ensures SearchEnd(n, blk) == if n - 4096 * blk < 8 then n / 8 * 8 else 4096 * blk
    ensures SearchEnd(n, blk + 1) == 4096 * blk + 8 * (if (n - 4096 * blk) / 8 < BLK then (n - 4096 * blk) / 8 else BLK)
  {
    DivShift(n, blk);
  }

  /** The pointer at place `s` of file `f` is now `b`; all others are the same. */
  ghost predicate PtrSet(inodes0: seq<Inode>, disk0: Disk, inodes1: seq<Inode>, disk1: Disk, f: nat, s: Slot, b: nat) {
    forall g: nat, t: Slot {:trigger Ptr(inodes1, disk1, g, t)} ::
      Ptr(inodes1, disk1, g, t) == if g == f && t == s then b else Ptr(inodes0, disk0, g, t)
  }

  /** The allocation of a zeroed block leaves pointers and bytes alone. */
  lemma ClearAll(inodes: seq<Inode>, disk: Disk, own: seq<Owner>, ds: nat, b: nat)
    requires Inv(inodes, disk, own, ds) && ds <= b < |disk| && own[b].Nobody?
    ensures var disk' := disk[b := ZeroBlock()];
            Inv(inodes, disk', own, ds) && SameFiles(inodes, disk, inodes, disk')
            && (forall g: nat, s: Slot {:trigger Ptr(inodes, disk', g, s)} ::
                  Ptr(inodes, disk', g, s) == Ptr(inodes, disk, g, s))
  {
    var disk' := disk[b := ZeroBlock()];
    ClearInv(inodes, disk, own, ds, b, ZeroBlock());
    forall g: nat, m: nat, x: nat
      ensures Cell(inodes, disk', g, m, x) == Cell(inodes, disk, g, m, x)
    {
      ClearCell(inodes, disk, own, ds, b, ZeroBlock(), g, m, x);
    }
    forall g: nat, s: Slot
      ensures Ptr(inodes, disk', g, s) == Ptr(inodes, disk, g, s)
    {
      ClearPtr(inodes, disk, own, ds, b, ZeroBlock(), g, s);
    }
  }

  // ----- Bytes of a file by position -----

  function At(k: nat, x: nat): (o: nat) { k * 512 + x }

  /** Bytes `ofs` up to `ofs + n` of file `f` now hold the start of `buf`; nothing else has changed. */
  ghost predicate Written(inodes0: seq<Inode>, disk0: Disk, f: nat, ofs: nat, buf: seq<nat>, n: nat,
                          inodes1: seq<Inode>, disk1: Disk)
    requires n <= |buf|
  {
    forall g: nat, k: nat, x: nat {:trigger Cell(inodes1, disk1, g, k, x)} :: k < MAX_BLOCKS && x < BLK ==>
      Cell(inodes1, disk1, g, k, x) ==
        if g == f && ofs <= At(k, x) < ofs + n then buf[At(k, x) - ofs] else Cell(inodes0, disk0, g, k, x)
  }

  /** Block `k` has a byte in the range of `n` bytes from `ofs` on. */
  predicate Meets(k: nat, ofs: nat, n: nat) { n > 0 && At(k, 0) < ofs + n && ofs < At(k, 512) }

  /** There is a block for every byte in the range. */
  ghost predicate AllMapped(inodes: seq<Inode>, disk: Disk, f: nat, ofs: nat, n: nat) {
    forall k: nat {:trigger SlotOf(k)} :: k < MAX_BLOCKS && Meets(k, ofs, n) ==> Ptr(inodes, disk, f, SlotOf(k)) != 0
  }

  /** Pointers other than those of file `f` are the same. */
  ghost predicate OthersPtrs(inodes0: seq<Inode>, disk0: Disk, inodes1: seq<Inode>, disk1: Disk, f: nat) {
    forall g: nat, m: nat {:trigger Ptr(inodes1, disk1, g, SlotOf(m))} ::
      g != f ==> Ptr(inodes1, disk1, g, SlotOf(m)) == Ptr(inodes0, disk0, g, SlotOf(m))
  }

  function Patch(page: Block, y: nat, chunk: seq<nat>): (page': Block)
    requires |page| == BLK && y + |chunk| <= BLK
    ensures |page'| == BLK
    ensures forall x :: 0 <= x < BLK ==> page'[x] == if y <= x < y + |chunk| then chunk[x - y] else page[x]
  {
    page[..y] + chunk + page[y + |chunk|..]
  }

  lemma InChunk(ofs: nat, n: nat, k: nat, y: nat, s: nat, m: nat, x: nat)
    requires At(k, y) == ofs + n && y + s <= 512 && x < 512 && y < 512
    ensures ofs <= At(m, x) < ofs + n + s <==> ofs <= At(m, x) < ofs + n || (m == k && y <= x < y + s)
    ensures m == k ==> At(m, x) == ofs + n + x - y
  {
  }

  lemma StorePtrs(inodes: seq<Inode>, disk: Disk, own: seq<Owner>, ds: nat, f: nat, k: nat, page: Block)
    requires Inv(inodes, disk, own, ds) && k < MAX_BLOCKS && Ptr(inodes, disk, f, SlotOf(k)) != 0 && |page| == BLK
    ensures var b := Ptr(inodes, disk, f, SlotOf(k));
            b < |disk| && PtrSet(inodes, disk, inodes, disk[b := page], f, SlotOf(k), b)
  {
    var b := Ptr(inodes, disk, f, SlotOf(k));
    assert Owned(own, ds, b, f, SlotOf(k));
    var disk' := disk[b := page];
    forall g: nat, t: Slot
      ensures Ptr(inodes, disk', g, t) == Ptr(inodes, disk, g, t)
    {
      StorePtr(inodes, disk, own, ds, f, k, page, g, t);
    }
  }

  lemma OthersStep(inodes0: seq<Inode>, disk0: Disk, inodes1: seq<Inode>, disk1: Disk, inodes2: seq<Inode>, disk2: Disk,
                   disk3: Disk, f: nat, k: nat, b: nat, ofs: nat, n: nat, s: nat)
    requires OthersPtrs(inodes0, disk0, inodes1, disk1, f) && AllMapped(inodes1, disk1, f, ofs, n)
    requires SamePtrs(inodes1, disk1, inodes2, disk2, f, k)
    requires PtrSet(inodes2, disk2, inodes2, disk3, f, SlotOf(k), b) && b != 0
    requires At(k, 0) <= ofs + n && ofs + n + s <= At(k, 512)
    ensures OthersPtrs(inodes0, disk0, inodes2, disk3, f) && AllMapped(inodes2, disk3, f, ofs, n + s)
  {
  }

  /** A failed attempt to get block `k`, which had no pointer before, loses no block of the range. */
  lemma OthersSame(inodes0: seq<Inode>, disk0: Disk, inodes1: seq<Inode>, disk1: Disk, inodes2: seq<Inode>, disk2: Disk,
                   f: nat, k: nat, ofs: nat, n: nat)
    requires OthersPtrs(inodes0, disk0, inodes1, disk1, f) && AllMapped(inodes1, disk1, f, ofs, n)
    requires SamePtrs(inodes1, disk1, inodes2, disk2, f, k)
    requires Ptr(inodes1, disk1, f, SlotOf(k)) == 0
    ensures OthersPtrs(inodes0, disk0, inodes2, disk2, f) && AllMapped(inodes2, disk2, f, ofs, n)
  {
  }

  lemma WrittenSame(inodes0: seq<Inode>, disk0: Disk, f: nat, ofs: nat, buf: seq<nat>, n: nat,
                    inodes1: seq<Inode>, disk1: Disk, inodes2: seq<Inode>, disk2: Disk)
    requires n <= |buf| && Written(inodes0, disk0, f, ofs, buf, n, inodes1, disk1)
    requires SameFiles(inodes1, disk1, inodes2, disk2)
    ensures Written(inodes0, disk0, f, ofs, buf, n, inodes2, disk2)
  {
  }

  lemma WrittenStep(inodes0: seq<Inode>, disk0: Disk, f: nat, ofs: nat, buf: seq<nat>, n: nat,
                    inodes: seq<Inode>, disk: Disk, own: seq<Owner>, ds: nat, k: nat, y: nat, s: nat)
    requires Inv(inodes, disk, own, ds) && k < MAX_BLOCKS && Ptr(inodes, disk, f, SlotOf(k)) != 0
    requires n + s <= |buf| && Written(inodes0, disk0, f, ofs, buf, n, inodes, disk)
    requires At(k, y) == ofs + n && y < 512 && y + s <= 512
    ensures var b := Ptr(inodes, disk, f, SlotOf(k));
            b < |disk| && var disk' := disk[b := Patch(disk[b], y, buf[n..n + s])];
            Inv(inodes, disk', own, ds) && Written(inodes0, disk0, f, ofs, buf, n + s, inodes, disk')
  {
    var b := Ptr(inodes, disk, f, SlotOf(k));
    assert Owned(own, ds, b, f, SlotOf(k));
    var page := Patch(disk[b], y, buf[n..n + s]);
    StoreInv(inodes, disk, own, ds, f, k, page);
    var disk' := disk[b := page];
    forall g: nat, m: nat, x: nat | m < MAX_BLOCKS && x < BLK
      ensures Cell(inodes, disk', g, m, x) ==
              if g == f && ofs <= At(m, x) < ofs + n + s then buf[At(m, x) - ofs] else Cell(inodes0, disk0, g, m, x)
    {
      StoreCell(inodes, disk, own, ds, f, k, page, g, m, x);
      InChunk(ofs, n, k, y, s, m, x);
      assert Cell(inodes, disk, f, k, x) == disk[b][x];
    }
  }

  // ----- Sizes -----

  function SetSize(inodes: seq<Inode>, f: nat, size: nat): (inodes': seq<Inode>)
    requires f < |inodes|
  {
    inodes[f := inodes[f].(size := size)]
  }

  lemma SizePtr(inodes: seq<Inode>, disk: Disk, f: nat, size: nat, g: nat, s: Slot)
    requires f < |inodes|
    ensures Ptr(SetSize(inodes, f, size), disk, g, s) == Ptr(inodes, disk, g, s)
  {
  }

  lemma SizeInv(inodes: seq<Inode>, disk: Disk, own: seq<Owner>, ds: nat, f: nat, size: nat)
    requires Inv(inodes, disk, own, ds) && f < |inodes| && size <= MAX_FILE_SIZE
    ensures Inv(SetSize(inodes, f, size), disk, own, ds)
    ensures SameFiles(inodes, disk, SetSize(inodes, f, size), disk)
    ensures forall g: nat, s: Slot {:trigger Ptr(SetSize(inodes, f, size), disk, g, s)} ::
              Ptr(SetSize(inodes, f, size), disk, g, s) == Ptr(inodes, disk, g, s)
  {
    var inodes' := SetSize(inodes, f, size);
    forall g: nat, s: Slot
      ensures Ptr(inodes', disk, g, s) == Ptr(inodes, disk, g, s)
    {
      SizePtr(inodes, disk, f, size, g, s);
    }
    forall x | 0 <= x < |own| && own[x].Used?
      ensures Pointed(inodes', disk, own, ds, x)
    {
      assert Pointed(inodes, disk, own, ds, x);
    }
  }

  lemma SizeKeeps(inodes0: seq<Inode>, disk0: Disk, inodes: seq<Inode>, disk: Disk, f: nat, size: nat,
                  ofs: nat, buf: seq<nat>, n: nat)
    requires f < |inodes| && n <= |buf| && Written(inodes0, disk0, f, ofs, buf, n, inodes, disk)
    requires AllMapped(inodes, disk, f, ofs, n) && OthersPtrs(inodes0, disk0, inodes, disk, f)
    ensures Written(inodes0, disk0, f, ofs, buf, n, SetSize(inodes, f, size), disk)
    ensures AllMapped(SetSize(inodes, f, size), disk, f, ofs, n)
    ensures OthersPtrs(inodes0, disk0, SetSize(inodes, f, size), disk, f)
  {
    var inodes' := SetSize(inodes, f, size);
    forall g: nat, s: Slot
      ensures Ptr(inodes', disk, g, s) == Ptr(inodes, disk, g, s)
    {
      SizePtr(inodes, disk, f, size, g, s);
    }
    assert SameFiles(inodes, disk, inodes', disk);
    WrittenSame(inodes0, disk0, f, ofs, buf, n, inodes, disk, inodes', disk);
  }

  // ----- Reading -----

  /** How much of a request lies within a file of the given size. */
  function Wanted(size: nat, count: nat, ofs: nat): (n: nat) {
    if ofs >= size then 0 else if count < size - ofs then count else size - ofs
  }

  /** `out` holds the bytes of file `f` from `ofs` on. */
  ghost predicate ReadOk(inodes: seq<Inode>, disk: Disk, f: nat, ofs: nat, out: seq<nat>) {
    forall k: nat, x: nat {:trigger Cell(inodes, disk, f, k, x)} ::
      k < MAX_BLOCKS && x < BLK && ofs <= At(k, x) < ofs + |out| ==> out[At(k, x) - ofs] == Cell(inodes, disk, f, k, x)
  }

  /** The block at position `o` is missing. */
  ghost predicate HoleAt(inodes: seq<Inode>, disk: Disk, f: nat, o: nat) {
    forall k: nat {:trigger SlotOf(k)} :: Meets(k, o, 1) ==> Ptr(inodes, disk, f, SlotOf(k)) == 0
  }

  lemma ReadStep(inodes: seq<Inode>, disk: Disk, f: nat, ofs: nat, out: seq<nat>, k: nat, y: nat, s: nat)
    requires Shape(inodes, disk) && ReadOk(inodes, disk, f, ofs, out) && AllMapped(inodes, disk, f, ofs, |out|)
    requires At(k, y) == ofs + |out| && y < 512 && y + s <= 512
    requires var b := Ptr(inodes, disk, f, SlotOf(k)); 0 < b < |disk|
    ensures var b := Ptr(inodes, disk, f, SlotOf(k));
            && ReadOk(inodes, disk, f, ofs, out + disk[b][y..y + s])
            && AllMapped(inodes, disk, f, ofs, |out| + s)
  {
    var b := Ptr(inodes, disk, f, SlotOf(k));
    var out' := out + disk[b][y..y + s];
    forall m: nat, x: nat | m < MAX_BLOCKS && x < BLK && ofs <= At(m, x) < ofs + |out'|
      ensures out'[At(m, x) - ofs] == Cell(inodes, disk, f, m, x)
    {
      InChunk(ofs, |out|, k, y, s, m, x);
    }
    forall m: nat | m < MAX_BLOCKS && Meets(m, ofs, |out| + s)
      ensures Ptr(inodes, disk, f, SlotOf(m)) != 0
    {
      assert m != k ==> Meets(m, ofs, |out|);
    }
  }

  /** A read is complete exactly when no block of the range is missing. */
  lemma ReadComplete(inodes: seq<Inode>, disk: Disk, f: nat, ofs: nat, n: nat, want: nat)
    requires n <= want && ofs + want <= MAX_FILE_SIZE && AllMapped(inodes, disk, f, ofs, n)
    requires n < want ==> HoleAt(inodes, disk, f, ofs + n)
    ensures n == want <==> AllMapped(inodes, disk, f, ofs, want)
  {
    if n < want {
      var k := (ofs + n) / 512;
      assert Meets(k, ofs + n, 1) && Meets(k, ofs, want);
      assert Ptr(inodes, disk, f, SlotOf(k)) == 0;
    }
  }

  lemma HoleInv(inodes: seq<Inode>, disk: Disk)
    requires inodes == [Inode(513, [0, 1, 0, 0, 0, 0, 0, 0, 0, 0, 0, 0, 0, 0])] && disk == [ZeroBlock(), ZeroBlock()]
    ensures Inv(inodes, disk, [Nobody, Used(0, Direct(1))], 1)
  {
    forall f: nat, s: Slot
      ensures Ptr(inodes, disk, f, s) == if f == 0 && s == Direct(1) then 1 else 0
    {
      HolePtr(inodes, disk, f, s);
    }
  }

  lemma HolePtr(inodes: seq<Inode>, disk: Disk, f: nat, s: Slot)
    requires inodes == [Inode(513, [0, 1, 0, 0, 0, 0, 0, 0, 0, 0, 0, 0, 0, 0])]
    ensures Ptr(inodes, disk, f, s) == if f == 0 && s == Direct(1) then 1 else 0
  {
    assert Addr(inodes, f, s.a) == if f == 0 && s.a == 1 then 1 else 0;
  }

  /** A file of 513 bytes whose first block is missing: a read of all of it returns nothing. */
  lemma ReadCanStopShort()
    ensures var inodes := [Inode(513, [0, 1, 0, 0, 0, 0, 0, 0, 0, 0, 0, 0, 0, 0])];
            var disk := [ZeroBlock(), ZeroBlock()];
            && Inv(inodes, disk, [Nobody, Used(0, Direct(1))], 1)
            && Wanted(inodes[0].size, 513, 0) == 513 && HoleAt(inodes, disk, 0, 0)
            && forall n: nat :: AllMapped(inodes, disk, 0, 0, n) ==> n == 0
  {
    var inodes := [Inode(513, [0, 1, 0, 0, 0, 0, 0, 0, 0, 0, 0, 0, 0, 0])];
    var disk := [ZeroBlock(), ZeroBlock()];
    HoleInv(inodes, disk);
    assert Ptr(inodes, disk, 0, SlotOf(0)) == 0;
    forall n: nat | n > 0
      ensures !AllMapped(inodes, disk, 0, 0, n)
    {
      assert Meets(0, 0, n) && Ptr(inodes, disk, 0, SlotOf(0)) == 0;
    }
  }

  /** Reading back what was written gives the same bytes. */
  lemma ReadBack(inodes0: seq<Inode>, disk0: Disk, f: nat, ofs: nat, buf: seq<nat>, inodes: seq<Inode>, disk: Disk,
                 out: seq<nat>)
    requires Written(inodes0, disk0, f, ofs, buf, |buf|, inodes, disk) && AllMapped(inodes, disk, f, ofs, |buf|)
    requires ofs + |buf| <= MAX_FILE_SIZE && |out| <= |buf| && ReadOk(inodes, disk, f, ofs, out)
    requires |out| < |buf| ==> HoleAt(inodes, disk, f, ofs + |out|)
    requires AllMapped(inodes, disk, f, ofs, |out|)
    ensures out == buf
  {
    ReadComplete(inodes, disk, f, ofs, |out|, |buf|);
    forall i | 0 <= i < |buf|
      ensures out[i] == buf[i]
    {
      var k, x := (ofs + i) / 512, (ofs + i) % 512;
      assert At(k, x) == ofs + i;
      assert Cell(inodes, disk, f, k, x) == buf[i];
    }
  }

  /** The bytes of file `f` from `ofs` on are `data`; every other byte of every file is as it was. */
  ghost predicate WrittenBytes(inodes0: seq<Inode>, disk0: Disk, f: nat, ofs: nat, data: seq<nat>,
                               inodes1: seq<Inode>, disk1: Disk)
    requires Shape(inodes0, disk0) && Shape(inodes1, disk1) && |inodes1| == |inodes0|
  {
    forall g: nat, o: nat {:trigger ByteAt(inodes1, disk1, g, o)} :: g < |inodes0| && o < MAX_FILE_SIZE ==>
      ByteAt(inodes1, disk1, g, o) ==
        if g == f && ofs <= o < ofs + |data| then data[o - ofs] else ByteAt(inodes0, disk0, g, o)
  }

  lemma WrittenIsBytes(inodes0: seq<Inode>, disk0: Disk, f: nat, ofs: nat, buf: seq<nat>, n: nat,
                       inodes1: seq<Inode>, disk1: Disk)
    requires Shape(inodes0, disk0) && Shape(inodes1, disk1) && |inodes1| == |inodes0| && n <= |buf|
    requires Written(inodes0, disk0, f, ofs, buf, n, inodes1, disk1)
    ensures WrittenBytes(inodes0, disk0, f, ofs, buf[..n], inodes1, disk1)
  {
    forall g: nat, o: nat | g < |inodes0| && o < MAX_FILE_SIZE
      ensures ByteAt(inodes1, disk1, g, o) ==
              if g == f && ofs <= o < ofs + n then buf[o - ofs] else ByteAt(inodes0, disk0, g, o)
    {
      assert At(o / 512, o % 512) == o;
      CellIsByteAt(inodes0, disk0, g, o);
      CellIsByteAt(inodes1, disk1, g, o);
    }
  }

  /** Byte `o` of file `f` is in a block, and is `x`. */
  ghost predicate Stored(inodes: seq<Inode>, disk: Disk, f: nat, o: nat, x: nat)
    requires Shape(inodes, disk) && f < |inodes| && o < MAX_FILE_SIZE
  {
    BlockNo(inodes, disk, f, o / 512) != 0 && ByteAt(inodes, disk, f, o) == x
  }

  lemma ReadBytes(inodes: seq<Inode>, disk: Disk, f: nat, ofs: nat, out: seq<nat>)
    requires Shape(inodes, disk) && f < |inodes| && ReadOk(inodes, disk, f, ofs, out)
    requires out == [] || ofs + |out| <= MAX_FILE_SIZE
    requires AllMapped(inodes, disk, f, ofs, |out|)
    ensures forall i :: 0 <= i < |out| ==> Stored(inodes, disk, f, ofs + i, out[i])
  {
    forall i | 0 <= i < |out|
      ensures Stored(inodes, disk, f, ofs + i, out[i])
    {
      var o := ofs + i;
      assert At(o / 512, o % 512) == o && Meets(o / 512, ofs, |out|);
      CellIsByteAt(inodes, disk, f, o);
      PtrIsBlockNo(inodes, disk, f, o / 512);
    }
  }

  lemma HoleIs(inodes: seq<Inode>, disk: Disk, f: nat, o: nat)
    requires Shape(inodes, disk) && f < |inodes| && o < MAX_FILE_SIZE
    ensures HoleAt(inodes, disk, f, o) <==> BlockNo(inodes, disk, f, o / 512) == 0
  {
    assert Meets(o / 512, o, 1);
    PtrIsBlockNo(inodes, disk, f, o / 512);
  }

  class FileSystem {
    const ds: nat
    var inodes: seq<Inode>
    var disk: Disk
    var used: seq<bool>
    ghost var own: seq<Owner>

    ghost predicate Valid()
      reads this
    {
      Inv(inodes, disk, own, ds) && BitsOk(used, own, ds, -1)
    }

    /** A file system of empty files: no block is in use. */
    constructor (dataStart: nat, blocks: Disk, files: nat)
      requires 0 < dataStart <= |blocks| <= LIMIT && forall b :: 0 <= b < |blocks| ==> |blocks[b]| == BLK
      ensures Valid() && ds == dataStart && disk == blocks && |inodes| == files
      ensures forall f, s :: Ptr(inodes, disk, f, s) == 0
      ensures (forall f :: 0 <= f < files ==> inodes[f].size == 0) && forall i :: 0 <= i < |used| ==> !used[i]
    {
      ds := dataStart;
      disk := blocks;
      used := seq(|blocks| - dataStart, _ => false);
      inodes := seq(files, _ => Inode(0, seq(14, _ => 0)));
      own := seq(|blocks|, _ => Nobody);
    }

    /** Find and set the first clear bit among `8 * size` bits from `start` on. */
    method BmapAllocElement(start: nat, size: nat) returns (index: int)
      requires start + 8 * size <= |used|
      modifies `used
      ensures index == -1 ==> used == old(used) && forall i :: start <= i < start + 8 * size ==> used[i]
      ensures index != -1 ==> 0 <= index < 8 * size && !old(used)[start + index]
      ensures index != -1 ==> used == old(used)[start + index := true]
      ensures index != -1 ==> forall i :: start <= i < start + index ==> used[i]
    {
      var byte := 0;
      while byte < size
        invariant 0 <= byte <= size && used == old(used)
        invariant forall i :: start <= i < start + 8 * byte ==> used[i]
      {
        var bit := 0;
        while bit < 8
          invariant 0 <= bit <= 8 && used == old(used)
          invariant forall i :: start <= i < start + 8 * byte + bit ==> used[i]
        {
          if !used[start + byte * 8 + bit] {
            used := used[start + byte * 8 + bit := true];
            return byte * 8 + bit;
          }
          bit := bit + 1;
        }
        byte := byte + 1;
      }
      return -1;
    }

    /** Search the bitmap, block by block, and set the first clear bit. */
    method FindClear() returns (r: Option<nat>)
      modifies `used
      ensures r.None? ==> Full(used) && used == old(used)
      ensures r.Some? ==> r.value < |old(used)| && !old(used)[r.value] && used == old(used)[r.value := true]
      ensures r.Some? ==> forall i :: 0 <= i < r.value ==> used[i]
    {
      var blk, bmapBlks, numBlks := 0, (|used| + 4095) / 4096, |used|;
      while blk < bmapBlks
        invariant 0 <= blk <= bmapBlks && numBlks == |used| - 4096 * blk && used == old(used)
        invariant forall i :: 0 <= i < SearchEnd(|used|, blk) ==> used[i]
      {
        var size := if numBlks / 8 < BLK then numBlks / 8 else BLK;
        SearchStep(|used|, blk);
        var index := BmapAllocElement(4096 * blk, size);
        if index != -1 { return Some(4096 * blk + index); }
        blk, numBlks := blk + 1, numBlks - 4096;
      }
      return None;
    }

    /** The first free data block, zeroed. */
    method AllocDataBlock() returns (r: Option<nat>)
      requires Valid()
      modifies `used, `disk
      ensures Inv(inodes, disk, own, ds) && BitsOk(used, own, ds, if r.Some? then r.value else -1)
      ensures SameFiles(inodes, old(disk), inodes, disk)
      ensures r.None? ==> Full(used) && used == old(used) && disk == old(disk)
      ensures r.Some? ==> ds <= r.value < |disk| && own[r.value].Nobody? && disk == old(disk)[r.value := ZeroBlock()]
      ensures r.Some? ==> !old(used)[r.value - ds] && used == old(used)[r.value - ds := true]
      ensures r.Some? ==> forall i :: 0 <= i < r.value - ds ==> used[i]
      ensures forall g: nat, s: Slot {:trigger Ptr(inodes, disk, g, s)} ::
                Ptr(inodes, disk, g, s) == Ptr(inodes, old(disk), g, s)
    {
      var i := FindClear();
      if i.None? { return None; }
      var b := ds + i.value;
      ClearAll(inodes, disk, own, ds, b);
      disk := disk[b := ZeroBlock()];
      return Some(b);
    }

    /** Enter a newly allocated block in an inode. */
    method TakeDirect(f: nat, a: nat, b: nat)
      requires BitsOk(used, own, ds, b) && CanTake(inodes, disk, own, ds, f, Direct(a), b)
      modifies `inodes, `own
      ensures Valid() && SameFiles(old(inodes), disk, inodes, disk) && SameSizes(old(inodes), inodes)
      ensures PtrSet(old(inodes), disk, inodes, disk, f, Direct(a), b)
    {
      DirectInv(inodes, disk, own, ds, f, a, b);
      ghost var inodes' := SetAddr(inodes, f, a, b);
      forall g: nat, k: nat, x: nat
        ensures Cell(inodes', disk, g, k, x) == Cell(inodes, disk, g, k, x)
      {
        DirectCell(inodes, disk, own, ds, f, a, b, g, k, x);
      }
      forall g: nat, s: Slot
        ensures Ptr(inodes', disk, g, s) == if g == f && s == Direct(a) then b else Ptr(inodes, disk, g, s)
      {
        DirectPtr(inodes, disk, own, ds, f, a, b, g, s);
      }
      inodes := SetAddr(inodes, f, a, b);
      own := own[b := Used(f, Direct(a))];
    }

    /** Enter a newly allocated block in an indirect block. */
    method TakeIndirect(f: nat, a: nat, j: nat, b: nat)
      requires BitsOk(used, own, ds, b) && CanTakeIndirect(inodes, disk, own, ds, f, a, j, b)
      modifies `disk, `own
      ensures Valid() && SameFiles(inodes, old(disk), inodes, disk)
      ensures PtrSet(inodes, old(disk), inodes, disk, f, Indirect(a, j), b)
    {
      IndirectInv(inodes, disk, own, ds, f, a, j, b);
      var ib := inodes[f].addrs[a];
      ghost var disk' := SetIndirect(disk, ib, j, b);
      forall g: nat, k: nat, x: nat
        ensures Cell(inodes, disk', g, k, x) == Cell(inodes, disk, g, k, x)
      {
        IndirectCell(inodes, disk, own, ds, f, a, j, b, g, k, x);
      }
      forall g: nat, s: Slot
        ensures Ptr(inodes, disk', g, s) == if g == f && s == Indirect(a, j) then b else Ptr(inodes, disk, g, s)
      {
        IndirectPtr(inodes, disk, own, ds, f, a, j, b, g, s);
      }
      disk := SetIndirect(disk, ib, j, b);
      own := own[b := Used(f, Indirect(a, j))];
    }

    /** Allocate a block for the empty place `s` of file `f`. */
    method Extend(f: nat, s: Slot) returns (r: Option<nat>)
      requires Valid() && f < |inodes| && SlotOk(s) && Ptr(inodes, disk, f, s) == 0
      requires s.Indirect? ==> Addr(inodes, f, s.a) != 0
      modifies this
      ensures Valid() && SameFiles(old(inodes), old(disk), inodes, disk) && SameSizes(old(inodes), inodes)
      ensures r.None? ==> Full(used) && PtrSet(old(inodes), old(disk), inodes, disk, f, s, 0)
      ensures r.Some? ==> r.value != 0 && PtrSet(old(inodes), old(disk), inodes, disk, f, s, r.value)
    {
      r := AllocDataBlock();
      if r.Some? {
        match s {
          case Direct(a) => TakeDirect(f, a, r.value);
          case Indirect(a, j) => TakeIndirect(f, a, j, r.value);
        }
      }
    }

    /** Look up or fill the place `s` of file `f`. */
    method GetSlot(f: nat, s: Slot, alloc: bool) returns (r: BlkResult)
      requires Valid() && f < |inodes| && SlotOk(s) && (s.Indirect? ==> Addr(inodes, f, s.a) != 0)
      modifies this
      ensures Valid() && SameFiles(old(inodes), old(disk), inodes, disk) && SameSizes(old(inodes), inodes)
      ensures PtrSet(old(inodes), old(disk), inodes, disk, f, s, if r.Got? then r.blk else 0)
      ensures r.Got? ==> r.blk != 0
      ensures r.NotExist? ==> !alloc
      ensures r.NoSpace? ==> alloc && Full(used)
      ensures !alloc || Ptr(old(inodes), old(disk), f, s) != 0 ==>
                inodes == old(inodes) && disk == old(disk) && used == old(used)
    {
      var p := Ptr(inodes, disk, f, s);
      if p != 0 { return Got(p); }
      if !alloc { return NotExist; }
      var b := Extend(f, s);
      return if b.None? then NoSpace else Got(b.value);
    }

    /** The block that holds block `k` of a file, allocated on the way if asked for. */
    method GetDataBlock(f: nat, k: nat, alloc: bool) returns (r: BlkResult)
      requires Valid() && f < |inodes| && k < MAX_BLOCKS
      modifies this
      ensures Valid() && SameFiles(old(inodes), old(disk), inodes, disk) && SameSizes(old(inodes), inodes)
      ensures SamePtrs(old(inodes), old(disk), inodes, disk, f, k)
      ensures r.Got? ==> r.blk == Ptr(inodes, disk, f, SlotOf(k)) == BlockNo(inodes, disk, f, k) != 0
      ensures r.Got? && k < 12 ==> r.blk == inodes[f].addrs[k]
      ensures r.Got? && k >= 12 ==>
                var ib, o := inodes[f].addrs[12 + (k - 12) / 128], (k - 12) % 128 * 4;
                && 0 < ib < |disk| && var x := disk[ib];
                && r.blk == x[o] + 256 * x[o + 1] + 65536 * x[o + 2] + 16777216 * x[o + 3]
      ensures r.NotExist? <==> !alloc && old(BlockNo(inodes, disk, f, k)) == 0
      ensures r.NotExist? ==> Ptr(inodes, disk, f, SlotOf(k)) == 0
      ensures r.NoSpace? ==> alloc && Full(used) && Ptr(inodes, disk, f, SlotOf(k)) == 0
      ensures !alloc || Ptr(old(inodes), old(disk), f, SlotOf(k)) != 0 ==>
                inodes == old(inodes) && disk == old(disk) && used == old(used) && (alloc ==> r.Got?)
    {
      PtrIsBlockNo(inodes, disk, f, k);
      r := GetBlock(f, k, alloc);
      PtrIsBlockNo(inodes, disk, f, k);
    }

    method GetBlock(f: nat, k: nat, alloc: bool) returns (r: BlkResult)
      requires Valid() && f < |inodes| && k < MAX_BLOCKS
      modifies this
      ensures Valid() && SameFiles(old(inodes), old(disk), inodes, disk) && SameSizes(old(inodes), inodes)
      ensures SamePtrs(old(inodes), old(disk), inodes, disk, f, k)
      ensures r.Got? ==> r.blk == Ptr(inodes, disk, f, SlotOf(k)) != 0
      ensures r.NotExist? ==> !alloc && Ptr(inodes, disk, f, SlotOf(k)) == 0
      ensures r.NoSpace? ==> alloc && Full(used) && Ptr(inodes, disk, f, SlotOf(k)) == 0
      ensures !alloc || Ptr(old(inodes), old(disk), f, SlotOf(k)) != 0 ==>
                inodes == old(inodes) && disk == old(disk) && used == old(used) && (alloc ==> r.Got?)
    {
      if k < NDIRECT {
        r := GetSlot(f, Direct(k), alloc);
        return;
      }
      var a, j := NDIRECT + (k - NDIRECT) / PTRS, (k - NDIRECT) % PTRS;
      assert SlotOf(k) == Indirect(a, j);
      assert Ptr(inodes, disk, f, Direct(a)) == Addr(inodes, f, a);
      r := GetSlot(f, Direct(a), alloc);
      if r.Got? {
        assert Ptr(inodes, disk, f, Direct(a)) == r.blk;
        r := GetSlot(f, Indirect(a, j), alloc);
      } else {
        assert Ptr(inodes, disk, f, Direct(a)) == 0;
      }
    }

    /** One round of the write loop: store as many bytes as fit in the block at the current position. */
    method WriteChunk(f: nat, buf: seq<nat>, ofs: nat, n: nat, ghost inodes0: seq<Inode>, ghost disk0: Disk)
      returns (s: nat)
      requires Valid() && f < |inodes| && n < |buf| && ofs + |buf| <= MAX_FILE_SIZE
      requires Written(inodes0, disk0, f, ofs, buf, n, inodes, disk) && AllMapped(inodes, disk, f, ofs, n)
      requires OthersPtrs(inodes0, disk0, inodes, disk, f) && SameSizes(inodes0, inodes)
      modifies this
      ensures Valid() && f < |inodes| && n + s <= |buf|
      ensures Written(inodes0, disk0, f, ofs, buf, n + s, inodes, disk) && AllMapped(inodes, disk, f, ofs, n + s)
      ensures OthersPtrs(inodes0, disk0, inodes, disk, f) && SameSizes(inodes0, inodes)
      ensures s == 0 ==> Full(used)
    {
      var k, y := (ofs + n) / BLK, (ofs + n) % BLK;
      assert At(k, y) == ofs + n;
      ghost var inodes1, disk1 := inodes, disk;
      var r := GetDataBlock(f, k, true);
      WrittenSame(inodes0, disk0, f, ofs, buf, n, inodes1, disk1, inodes, disk);
      if !r.Got? {
        OthersSame(inodes0, disk0, inodes1, disk1, inodes, disk, f, k, ofs, n);
        return 0;
      }
      s := if BLK - y < |buf| - n then BLK - y else |buf| - n;
      WrittenStep(inodes0, disk0, f, ofs, buf, n, inodes, disk, own, ds, k, y, s);
      ghost var disk2 := disk;
      disk := disk[r.blk := Patch(disk[r.blk], y, buf[n..n + s])];
      StorePtrs(inodes, disk2, own, ds, f, k, disk[r.blk]);
      OthersStep(inodes0, disk0, inodes1, disk1, inodes, disk2, disk, f, k, r.blk, ofs, n, s);
    }

    /** Store `buf` at `ofs`; stops early only when the disk is full. */
    method WriteBlocks(f: nat, buf: seq<nat>, ofs: nat) returns (total: nat)
      requires Valid() && f < |inodes| && ofs + |buf| <= MAX_FILE_SIZE
      modifies this
      ensures Valid() && total <= |buf| && SameSizes(old(inodes), inodes)
      ensures Written(old(inodes), old(disk), f, ofs, buf, total, inodes, disk)
      ensures AllMapped(inodes, disk, f, ofs, total) && OthersPtrs(old(inodes), old(disk), inodes, disk, f)
      ensures total < |buf| ==> Full(used)
    {
      total := 0;
      while total < |buf|
        invariant Valid() && f < |inodes| && total <= |buf|
        invariant Written(old(inodes), old(disk), f, ofs, buf, total, inodes, disk)
        invariant AllMapped(inodes, disk, f, ofs, total)
        invariant OthersPtrs(old(inodes), old(disk), inodes, disk, f) && SameSizes(old(inodes), inodes)
        decreases |buf| - total
      {
        var s := WriteChunk(f, buf, ofs, total, old(inodes), old(disk));
        if s == 0 { break; }
        total := total + s;
      }
    }

    /** Write `buf` at `ofs`, and let the file end no earlier than where the write stopped. */
    method WriteData(f: nat, buf: seq<nat>, ofs: nat) returns (total: nat)
      requires Valid() && f < |inodes| && ofs + |buf| <= MAX_FILE_SIZE
      modifies this
      ensures Valid() && total <= |buf| && |inodes| == |old(inodes)|
      ensures Written(old(inodes), old(disk), f, ofs, buf, total, inodes, disk)
      ensures AllMapped(inodes, disk, f, ofs, total) && OthersPtrs(old(inodes), old(disk), inodes, disk, f)
      ensures total < |buf| ==> Full(used)
      ensures forall g :: 0 <= g < |inodes| && g != f ==> inodes[g].size == old(inodes)[g].size
      ensures WrittenBytes(old(inodes), old(disk), f, ofs, buf[..total], inodes, disk)
      ensures inodes[f].size ==
              if |buf| > 0 && ofs + total > old(inodes)[f].size then ofs + total else old(inodes)[f].size
    {
      total := WriteBlocks(f, buf, ofs);
      if |buf| > 0 && ofs + total > inodes[f].size {
        SizeInv(inodes, disk, own, ds, f, ofs + total);
        SizeKeeps(old(inodes), old(disk), inodes, disk, f, ofs + total, ofs, buf, total);
        inodes := SetSize(inodes, f, ofs + total);
      }
      WrittenIsBytes(old(inodes), old(disk), f, ofs, buf, total, inodes, disk);
    }

    /** Read up to `count` bytes at `ofs`; stops at the end of the file or at a missing block. */
    method ReadData(f: nat, count: nat, ofs: nat) returns (out: seq<nat>)
      requires Valid() && f < |inodes|
      modifies this
      ensures inodes == old(inodes) && disk == old(disk) && used == old(used) && Valid()
      ensures |out| <= Wanted(inodes[f].size, count, ofs) && ReadOk(inodes, disk, f, ofs, out)
      ensures AllMapped(inodes, disk, f, ofs, |out|)
      ensures |out| < Wanted(inodes[f].size, count, ofs) ==> HoleAt(inodes, disk, f, ofs + |out|)
      ensures forall i :: 0 <= i < |out| ==> Stored(inodes, disk, f, ofs + i, out[i])
      ensures |out| < Wanted(inodes[f].size, count, ofs) ==> BlockNo(inodes, disk, f, (ofs + |out|) / 512) == 0
    {
      out := ReadBlocks(f, count, ofs);
      ReadBytes(inodes, disk, f, ofs, out);
      if |out| < Wanted(inodes[f].size, count, ofs) { HoleIs(inodes, disk, f, ofs + |out|); }
    }

    method ReadBlocks(f: nat, count: nat, ofs: nat) returns (out: seq<nat>)
      requires Valid() && f < |inodes|
      modifies this
      ensures inodes == old(inodes) && disk == old(disk) && used == old(used) && Valid()
      ensures |out| <= Wanted(inodes[f].size, count, ofs) && ReadOk(inodes, disk, f, ofs, out)
      ensures AllMapped(inodes, disk, f, ofs, |out|)
      ensures |out| < Wanted(inodes[f].size, count, ofs) ==> HoleAt(inodes, disk, f, ofs + |out|)
    {
      out := [];
      while |out| < count && ofs + |out| < inodes[f].size
        invariant inodes == old(inodes) && disk == old(disk) && used == old(used) && Valid()
        invariant |out| <= Wanted(inodes[f].size, count, ofs) && ReadOk(inodes, disk, f, ofs, out)
        invariant AllMapped(inodes, disk, f, ofs, |out|)
        decreases count - |out|
      {
        var k, y := (ofs + |out|) / BLK, (ofs + |out|) % BLK;
        assert At(k, y) == ofs + |out|;
        var r := GetDataBlock(f, k, false);
        if !r.Got? { break; }
        assert Owned(own, ds, r.blk, f, SlotOf(k));
        var s := BLK - y;
        if count - |out| < s { s := count - |out|; }
        if inodes[f].size - (ofs + |out|) < s { s := inodes[f].size - (ofs + |out|); }
        ReadStep(inodes, disk, f, ofs, out, k, y, s);
        out := out + disk[r.blk][y..y + s];
      }
    }
  }
}
