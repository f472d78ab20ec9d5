/**
 The write-ahead journal of kernel/fs/jbd.c as a sequence of atomic block writes.

 The on-disk journal is one header block, one block-map block and 128 data
 blocks.  Recovery is not implemented in the kernel; `Replay` is the recovery
 that this layout is made for: copy each journal data block to the block number
 recorded in the block map, as many as the header says.
 */
module JournalSpec {
  import opened LittleEndian

  const BLK_SIZE: nat := 512
  const JOURNAL_SIZE: nat := 128

  type Block = b: seq<Byte> | |b| == 512 witness seq(512, i => 0)

  type Disk = seq<Block>

  datatype Write = Write(blk: nat, data: Block)

  // ----- Layout, relative to the first journal block `js` -----

  function HeaderBlk(js: nat): nat { js }
  function BmapBlk(js: nat): nat { js + 1 }
  function DataBlk(js: nat, i: nat): nat { js + 2 + i }

  predicate InJournal(js: nat, b: nat) {
    js <= b < js + 2 + JOURNAL_SIZE
  }

  // ----- Encoding of block numbers and counts -----

  function EncodeBmap(blks: seq<nat>): (s: seq<Byte>)
    requires forall i :: 0 <= i < |blks| ==> blks[i] < LIMIT
    ensures |s| == 4 * |blks|
  {
    if blks == [] then [] else EncodeU32(blks[0]) + EncodeBmap(blks[1..])
  }

  /** Copying `p` over the first bytes of a block. */
  function Overlay(b: Block, p: seq<Byte>): (r: Block)
    requires |p| <= BLK_SIZE
  {
    p + b[|p|..]
  }

  function HeaderCount(b: Block): (n: nat) { DecodeU32(b[..4]) }

  function BmapEntry(b: Block, i: nat): (blk: nat)
    requires i < JOURNAL_SIZE
  {
    DecodeU32(b[4 * i..4 * i + 4])
  }

  lemma {:induction false} BmapRoundTrip(blks: seq<nat>, i: nat)
    requires forall i :: 0 <= i < |blks| ==> blks[i] < LIMIT
    requires i < |blks|
    ensures DecodeU32(EncodeBmap(blks)[4 * i..4 * i + 4]) == blks[i]
  {
    var s, tail := EncodeBmap(blks), EncodeBmap(blks[1..]);
    if i == 0 {
      assert s[0..4] == EncodeU32(blks[0]);
      U32RoundTrip(blks[0]);
    } else {
      BmapRoundTrip(blks[1..], i - 1);
      assert s[4 * i..4 * i + 4] == tail[4 * (i - 1)..4 * (i - 1) + 4];
    }
  }

  // ----- Writes and replay -----

  function Apply(d: Disk, ws: seq<Write>): (r: Disk)
    ensures |r| == |d|
  {
    if ws == [] then d
    else
      var p := Apply(d, ws[..|ws| - 1]);
      var w := ws[|ws| - 1];
      if w.blk < |d| then p[w.blk := w.data] else p
  }

  /** The first `n` journal entries of `src` copied to their blocks in `d`. */
  function Install(src: Disk, d: Disk, js: nat, n: nat): (r: Disk)
    requires js + 2 + JOURNAL_SIZE <= |src| && n <= JOURNAL_SIZE
    ensures |r| == |d|
  {
    if n == 0 then d
    else
      var p := Install(src, d, js, n - 1);
      var e := BmapEntry(src[BmapBlk(js)], n - 1);
      if e < |d| then p[e := src[DataBlk(js, n - 1)]] else p
  }

  /** What recovery makes of a disk after a crash. */
  function Replay(d: Disk, js: nat): (r: Disk)
    requires js + 2 + JOURNAL_SIZE <= |d|
    ensures |r| == |d|
  {
    var n := HeaderCount(d[HeaderBlk(js)]);
    if n <= JOURNAL_SIZE then Install(d, d, js, n) else d
  }

  /** Equal on every block outside the journal. */
  ghost predicate SameHome(d: Disk, d': Disk, js: nat) {
    |d| == |d'| && forall b :: 0 <= b < |d| && !InJournal(js, b) ==> d[b] == d'[b]
  }

  // ----- Transactions -----

  function Blks(ups: seq<Write>): (bs: seq<nat>)
    ensures |bs| == |ups| && forall i :: 0 <= i < |bs| ==> bs[i] == ups[i].blk
  {
    seq(|ups|, i requires 0 <= i < |ups| => ups[i].blk)
  }

  /** The blocks a transaction has logged: outside the journal, each number once. */
  ghost predicate TxnOk(js: nat, n: nat, ups: seq<Write>) {
    && js + 2 + JOURNAL_SIZE <= n <= LIMIT
    && 0 < |ups| < JOURNAL_SIZE
    && (forall i :: 0 <= i < |ups| ==> ups[i].blk < n && !InJournal(js, ups[i].blk))
    && (forall i, j :: 0 <= i < j < |ups| ==> ups[i].blk != ups[j].blk)
  }

  /** Phase 1a: the data of each logged block into the journal. */
  function DataWrites(js: nat, ups: seq<Write>): (ws: seq<Write>)
    ensures |ws| == |ups|
    ensures forall i :: 0 <= i < |ws| ==> ws[i] == Write(DataBlk(js, i), ups[i].data)
  {
    seq(|ups|, i requires 0 <= i < |ups| => Write(DataBlk(js, i), ups[i].data))
  }

  /** Phase 1b: the block numbers into the block map. */
  function BmapWrite(d: Disk, js: nat, ups: seq<Write>): (w: Write)
    requires js + 2 + JOURNAL_SIZE <= |d| && |ups| < JOURNAL_SIZE
    requires forall i :: 0 <= i < |ups| ==> ups[i].blk < LIMIT
  {
    Write(BmapBlk(js), Overlay(d[BmapBlk(js)], EncodeBmap(Blks(ups))))
  }

  /** Phases 2 and 4: the number of valid entries into the header. */
  function HeaderWrite(d: Disk, js: nat, n: nat): (w: Write)
    requires js + 2 + JOURNAL_SIZE <= |d| && n < LIMIT
  {
    Write(HeaderBlk(js), Overlay(d[HeaderBlk(js)], EncodeU32(n)))
  }

  /** All device writes of one commit, in order; phase 3 is `ups` itself. */
  ghost function CommitWrites(d: Disk, js: nat, ups: seq<Write>): (ws: seq<Write>)
    requires TxnOk(js, |d|, ups)
    ensures |ws| == 2 * |ups| + 3
  {
    DataWrites(js, ups) + [BmapWrite(d, js, ups)] + [HeaderWrite(d, js, |ups|)] + ups
    + [Write(HeaderBlk(js), Overlay(HeaderWrite(d, js, |ups|).data, EncodeU32(0)))]
  }

  // ----- Facts about writes -----

  lemma {:induction false} ApplyConcat(d: Disk, u: seq<Write>, v: seq<Write>)
    ensures Apply(d, u + v) == Apply(Apply(d, u), v)
  {
    if v == [] {
      assert u + v == u;
    } else {
      ApplyConcat(d, u, v[..|v| - 1]);
      assert (u + v)[..|u + v| - 1] == u + v[..|v| - 1];
    }
  }

  /** A block that no write names keeps its contents. */
  lemma {:induction false} ApplyFrame(d: Disk, ws: seq<Write>, b: nat)
    requires b < |d| && forall i :: 0 <= i < |ws| ==> ws[i].blk != b
    ensures Apply(d, ws)[b] == d[b]
  {
    if ws != [] { ApplyFrame(d, ws[..|ws| - 1], b); }
  }

  /** A block that exactly one write names gets that write's data. */
  lemma {:induction false} ApplyHit(d: Disk, ws: seq<Write>, i: nat)
    requires i < |ws| && ws[i].blk < |d|
    requires forall j :: 0 <= j < |ws| && j != i ==> ws[j].blk != ws[i].blk
    ensures Apply(d, ws)[ws[i].blk] == ws[i].data
  {
    var init := ws[..|ws| - 1];
    if i < |init| { ApplyHit(d, init, i); }
  }

  /** The journal entries say what the transaction logged. */
  ghost predicate Logged(src: Disk, js: nat, ups: seq<Write>) {
    && js + 2 + JOURNAL_SIZE <= |src| && |ups| <= JOURNAL_SIZE
    && forall i :: 0 <= i < |ups| ==>
         && BmapEntry(src[BmapBlk(js)], i) == ups[i].blk
         && src[DataBlk(js, i)] == ups[i].data
  }

  lemma {:induction false} InstallIsApply(src: Disk, d: Disk, js: nat, ups: seq<Write>, n: nat)
    requires Logged(src, js, ups) && n <= |ups|
    ensures Install(src, d, js, n) == Apply(d, ups[..n])
  {
    if n > 0 {
      InstallIsApply(src, d, js, ups, n - 1);
      assert ups[..n][..n - 1] == ups[..n - 1];
    }
  }

  /** Writing some of the blocks before writing all of them changes nothing. */
  lemma RedoIsIdempotent(d: Disk, js: nat, ups: seq<Write>, j: nat)
    requires TxnOk(js, |d|, ups) && j <= |ups|
    ensures Apply(Apply(d, ups[..j]), ups) == Apply(d, ups)
  {
    var d' := Apply(d, ups[..j]);
    forall b | 0 <= b < |d|
      ensures Apply(d', ups)[b] == Apply(d, ups)[b]
    {
      RedoAt(d, js, ups, j, b);
    }
  }

  lemma RedoAt(d: Disk, js: nat, ups: seq<Write>, j: nat, b: nat)
    requires TxnOk(js, |d|, ups) && j <= |ups| && b < |d|
    ensures Apply(Apply(d, ups[..j]), ups)[b] == Apply(d, ups)[b]
  {
    if b in Blks(ups) {
      var i :| 0 <= i < |ups| && Blks(ups)[i] == b;
      ApplySame(d, Apply(d, ups[..j]), js, ups, i);
    } else {
      RedoFrame(d, ups, j, b);
    }
  }

  lemma RedoFrame(d: Disk, ups: seq<Write>, j: nat, b: nat)
    requires j <= |ups| && b < |d| && b !in Blks(ups)
    ensures Apply(Apply(d, ups[..j]), ups)[b] == Apply(d, ups)[b]
  {
    forall i | 0 <= i < |ups|
      ensures ups[i].blk != b
    {
      assert Blks(ups)[i] == ups[i].blk;
    }
    ApplyFrame(d, ups, b);
    ApplyFrame(Apply(d, ups[..j]), ups, b);
    ApplyFrame(d, ups[..j], b);
  }

  /** A logged block ends up with its logged contents, whatever was there before. */
  lemma ApplySame(d: Disk, d': Disk, js: nat, ups: seq<Write>, i: nat)
    requires TxnOk(js, |d|, ups) && |d'| == |d| && i < |ups|
    ensures Apply(d', ups)[ups[i].blk] == Apply(d, ups)[ups[i].blk]
  {
    assert forall j :: 0 <= j < |ups| && j != i ==> ups[j].blk != ups[i].blk;
    ApplyHit(d, ups, i);
    ApplyHit(d', ups, i);
  }

  /** Two disks with the same home blocks still have them after the same home writes. */
  lemma {:induction false} ApplySameHome(d: Disk, d': Disk, js: nat, ws: seq<Write>)
    requires SameHome(d, d', js)
    ensures SameHome(Apply(d, ws), Apply(d', ws), js)
  {
    if ws != [] { ApplySameHome(d, d', js, ws[..|ws| - 1]); }
  }
}
