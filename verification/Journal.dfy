/**
 The journaling block layer of kernel/fs/jbd.c over the cached block device of
 kernel/bdev.c.  The journal holds block headers, as the source does; the lemmas show
 that none of them is ever freed while the journal holds it.
 */
module Journal {
  import opened LittleEndian
  import opened Sequences
  import opened JournalSpec
  import opened JournalCrash
  import opened BlockCache
  import opened JournalLog

  datatype JournalState = IDLE | BUSY

  const BMAP_BLKS: nat := 1
  // Block numbers that fit in one block-map block.
  const BMAP_ENTRIES: nat := 128

  function Min(a: nat, b: nat): nat { if a < b then a else b }

  class JournaledDevice {
    const js: nat
    const dev: BlockDevice
    const datablks: array<nat>
    var nextIndex: nat
    var state: JournalState
    // References held outside the journal, and the contents of every transaction that
    // has ended.
    ghost var clients: multiset<nat>
    ghost var txns: seq<seq<Write>>

    ghost predicate Shape()
      reads this, dev
    {
      && js + 2 + JOURNAL_SIZE <= |dev.disk| == |dev.disk0| <= LIMIT
      && datablks.Length == JOURNAL_SIZE
      && nextIndex <= JOURNAL_SIZE
    }

    /** The headers that the open transaction holds. */
    ghost function Log(): (log: seq<nat>)
      requires Shape()
      reads this, dev, datablks
    {
      datablks[..nextIndex]
    }

    /** The journal has a reference to every header it holds. */
    ghost predicate Ready()
      reads this, dev, datablks
    {
      Shape() && dev.Valid() && LogHeld(js, |dev.disk|, dev.hdrs, dev.refs, clients, Log())
    }

    ghost predicate Valid()
      reads this, dev, datablks
    {
      && Ready() && DirtyLogged(dev.hdrs, Log())
      && (state == IDLE ==> nextIndex == 0)
      && History(js, dev.disk0, txns, dev.trace)
    }

    constructor (js: nat, contents: Disk)
      requires js + 2 + JOURNAL_SIZE <= |contents| <= LIMIT && Erased(contents, js)
      ensures Valid() && state == IDLE && txns == [] && clients == multiset{}
      ensures this.js == js && dev.disk == dev.disk0 == contents && dev.trace == []
      ensures fresh(dev) && fresh(datablks)
    {
      this.js := js;
      dev := new BlockDevice(contents);
      datablks := new nat[JOURNAL_SIZE](i => 0);
      nextIndex, state := 0, IDLE;
      clients, txns := multiset{}, [];
    }

    /** What everybody reads of every block. */
    ghost function Cache(): (c: Disk)
      reads this, dev
    {
      View(dev.disk, dev.pages)
    }

    /** Between transactions no header is dirty and every slice of every cached page equals its block on the device. */
    lemma IdleCacheIsDisk()
      requires Valid() && state == IDLE
      ensures forall h :: h in dev.hdrs ==> !dev.hdrs[h].dirty
      ensures forall p :: p in dev.pages ==> PageIsDisk(dev.disk, dev.pages[p], p)
      ensures Cache() == dev.disk
    {
      CleanIsDisk(dev.disk, dev.pages, dev.hdrs);
    }

    /**
     A header that the open transaction holds is allocated, with a reference for the journal, and is the only
     one of its block.
     */
    lemma LoggedHeld(i: nat, h: nat)
      requires Valid() && i < nextIndex
      ensures datablks[i] in dev.hdrs && dev.hdrs[datablks[i]].ref >= 1 + clients[datablks[i]]
      ensures h in dev.hdrs && dev.hdrs[h].blk == dev.hdrs[datablks[i]].blk ==> h == datablks[i]
    {
      assert Log()[i] in multiset(Log());
      assert RefOk(dev.hdrs, dev.refs, datablks[i]);
      if h in dev.hdrs && dev.hdrs[h].blk == dev.hdrs[datablks[i]].blk {
        OneHeader(dev.pages, dev.hdrs, h, datablks[i]);
      }
    }

    /**
     A crash now, or after any earlier device write: recovery gives the home
     blocks after the transactions committed by then.
     */
    lemma CrashAnywhere(m: nat)
      requires Valid() && m <= |dev.trace|
      ensures Committed(dev.disk0, js, txns, m) <= |txns|
      ensures SameHome(Replay(Apply(dev.disk0, dev.trace[..m]), js),
                       AfterTxns(dev.disk0, txns, Committed(dev.disk0, js, txns, m)), js)
    {
      CrashAtomic(dev.disk0, js, txns, m);
    }

    // ----- The open transaction -----

    /** `state` is IDLE when the wait on the journal's condition variable ends. */
    method BeginTxn()
      requires Valid() && state == IDLE
      modifies this`state
      ensures Valid() && state == BUSY
    {
      state := BUSY;
    }

    /** A reference to the header of a block, for the file system. */
    method GetBlk(b: nat) returns (h: nat)
      requires Valid()
      modifies `clients, dev
      ensures Valid() && h in dev.hdrs && dev.hdrs[h].blk == b && clients == old(clients) + multiset{h}
      ensures dev.disk == old(dev.disk) && Same(dev.disk, old(dev.pages), old(dev.hdrs), dev.pages, dev.hdrs)
    {
      h := dev.GetBlk(b);
      Regroup(clients, multiset(Log()), h);
      clients := clients + multiset{h};
      HeldStep(js, dev.disk, old(dev.pages), old(dev.hdrs), old(dev.refs), old(clients), Log(),
               dev.pages, dev.hdrs, dev.refs, clients);
    }

    /** The file system gives up a reference. */
    method ReleaseBlk(h: nat)
      requires Valid() && h in clients
      modifies `clients, dev
      ensures Valid() && clients == old(clients) - multiset{h}
      ensures dev.disk == old(dev.disk) && Same(dev.disk, old(dev.pages), old(dev.hdrs), dev.pages, dev.hdrs)
    {
      dev.ReleaseBlk(h);
      Regroup(clients, multiset(Log()), h);
      clients := clients - multiset{h};
      HeldStep(js, dev.disk, old(dev.pages), old(dev.hdrs), old(dev.refs), old(clients), Log(),
               dev.pages, dev.hdrs, dev.refs, clients);
    }

    /** Records a header in the journal, once however often its block is written. */
    method WriteBlk(h: nat)
      requires Ready() && state == BUSY && h in clients
      requires AtHome(js, |dev.disk|, dev.hdrs, h)
      requires h in Log() || nextIndex < JOURNAL_SIZE
      modifies this`nextIndex, datablks, dev
      ensures Ready() && Log() == old(Log()) + if h in old(Log()) then [] else [h]
      ensures dev.disk == old(dev.disk) && dev.trace == old(dev.trace)
      ensures Same(dev.disk, old(dev.pages), old(dev.hdrs), dev.pages, dev.hdrs) && dev.hdrs.Keys == old(dev.hdrs).Keys
    {
      ghost var log := Log();
      var found := Recorded(h);
      if found { return; }
      dev.AddRef(h);
      datablks[nextIndex] := h;
      nextIndex := nextIndex + 1;
      assert Log() == log + [h];
      AddHeld(js, |dev.disk|, old(dev.hdrs), old(dev.refs), clients, log, h, dev.hdrs);
    }

    /** Whether the block of a header is in the journal; the comparison is by block number. */
    method Recorded(h: nat) returns (found: bool)
      requires Ready() && h in dev.hdrs
      ensures found <==> h in Log()
      ensures !found ==> BlkOf(dev.hdrs, h) !in BlksOf(dev.hdrs, Log())
    {
      for i := 0 to nextIndex
        invariant forall k :: 0 <= k < i ==> BlksOf(dev.hdrs, Log())[k] != dev.hdrs[h].blk
      {
        assert AtHome(js, |dev.disk|, dev.hdrs, Log()[i]) && BlksOf(dev.hdrs, Log())[i] == dev.hdrs[datablks[i]].blk;
        if dev.hdrs[datablks[i]].blk == dev.hdrs[h].blk {
          OneHeader(dev.pages, dev.hdrs, datablks[i], h);
          return true;
        }
      }
      return false;
    }

    /** A file system update: change the block, mark it dirty and log it. */
    method ModifyBlk(h: nat, data: Block)
      requires Valid() && state == BUSY && h in clients
      requires AtHome(js, |dev.disk|, dev.hdrs, h)
      requires h in Log() || nextIndex < JOURNAL_SIZE
      modifies this`nextIndex, datablks, dev
      ensures Valid() && Cache() == old(Cache())[old(dev.hdrs)[h].blk := data] && dev.disk == old(dev.disk)
      ensures Log() == old(Log()) + if h in old(Log()) then [] else [h]
    {
      ghost var log := Log();
      dev.Change(h, data);
      MarkHeld(js, |dev.disk|, old(dev.hdrs), dev.refs, clients, log, h, dev.hdrs);
      WriteBlk(h);
      DirtyAdd(old(dev.hdrs), log, h, dev.hdrs, Log());
    }

    // ----- Commit -----

    /** What the open transaction has logged, with the current contents. */
    ghost function Updates(): (ups: seq<Write>)
      requires Ready()
      reads this, dev, datablks
    {
      UpdatesOf(BlksOf(dev.hdrs, Log()), Cache())
    }

    /** Puts new bytes at the start of a journal block and writes it out. */
    method WriteJournalBlk(pb: nat, prefix: seq<Byte>)
      requires Shape() && dev.Valid() && InJournal(js, pb) && |prefix| <= BLK_SIZE
      modifies dev
      ensures Shape() && dev.Valid()
      ensures Wrote(old(dev.Now()), dev.Now(), pb, Overlay(old(Cache())[pb], prefix))
    {
      var h := dev.GetBlk(pb);
      ghost var refs1, hdrs1 := dev.refs, dev.hdrs;
      dev.PutBytes(h, prefix);
      ghost var hdrs2 := dev.hdrs;
      dev.ReleaseBlk(h);
      AddDrop(old(dev.refs), h);
      JournalBlkSteady(old(dev.refs), old(dev.hdrs), h, refs1, hdrs1, hdrs2, dev.hdrs);
    }

    /** Copies the data of the `i`-th logged block into the journal. */
    method WriteDataBlk(i: nat, ghost s0: Snap) returns (blk: nat)
      requires Ready() && i < nextIndex
      requires LogHeld(js, |s0.disk|, s0.hdrs, s0.refs, clients, Log()) && |s0.disk| == |s0.cache|
      requires Staging(js, Log(), s0, dev.Now(), i)
      modifies dev
      ensures Ready() && Staging(js, Log(), s0, dev.Now(), i + 1) && blk == BlksOf(s0.hdrs, Log())[i]
    {
      ghost var log, s1 := Log(), dev.Now();
      assert AtHome(js, |dev.disk|, dev.hdrs, log[i]);
      MovedLog(js, DataBlk(js, 0), s0, s1, clients, log);
      assert BlksOf(s1.hdrs, log)[i] == BlkOf(s1.hdrs, log[i]);
      blk := dev.hdrs[datablks[i]].blk;
      var data := dev.Load(datablks[i]);
      assert Overlay(Cache()[DataBlk(js, i)], data) == data;
      WriteJournalBlk(DataBlk(js, i), data);
      StagingStep(js, log, clients, s0, s1, dev.Now(), i);
      MovedLog(js, DataBlk(js, 0), s0, dev.Now(), clients, log);
    }

    /** Copies the data of each logged block into the journal; returns the block map. */
    method WriteDataBlks() returns (bmap: seq<nat>)
      requires Ready() && nextIndex < JOURNAL_SIZE
      modifies dev
      ensures Ready() && bmap == old(BlksOf(dev.hdrs, Log()))
      ensures Staging(js, Log(), old(dev.Now()), dev.Now(), nextIndex)
    {
      ghost var s0, blks := dev.Now(), BlksOf(dev.hdrs, Log());
      bmap := [];
      MovedStart(js, DataBlk(js, 0), s0);
      for i := 0 to nextIndex
        invariant Ready() && bmap == blks[..i] && Staging(js, Log(), s0, dev.Now(), i)
      {
        var blk := WriteDataBlk(i, s0);
        bmap := bmap + [blk];
        TakeNext(blks, i);
      }
      TakeAll(blks);
    }

    method WriteBmapBlks(bmap: seq<nat>)
      requires Shape() && dev.Valid()
      requires 0 < |bmap| < JOURNAL_SIZE && forall i :: 0 <= i < |bmap| ==> bmap[i] < |dev.disk|
      modifies dev
      ensures Shape() && dev.Valid()
      ensures Wrote(old(dev.Now()), dev.Now(), BmapBlk(js), Overlay(old(Cache())[BmapBlk(js)], EncodeBmap(bmap)))
    {
      var i, bi := 0, 0;
      while i < |bmap| && bi < BMAP_BLKS
        invariant (i == 0 && bi == 0) || (i == |bmap| && bi == BMAP_BLKS)
        invariant Shape() && dev.Valid()
        invariant bi == 0 ==> dev.Now() == old(dev.Now())
        invariant bi != 0 ==>
          Wrote(old(dev.Now()), dev.Now(), BmapBlk(js), Overlay(old(Cache())[BmapBlk(js)], EncodeBmap(bmap)))
        decreases BMAP_BLKS - bi
      {
        var pb := BmapBlk(js) + bi;
        var n := Min(BMAP_ENTRIES, |bmap| - i);
        assert bmap[i..i + n] == bmap;
        WriteJournalBlk(pb, EncodeBmap(bmap[i..i + n]));
        bi := bi + 1;
        i := i + n;
      }
    }

    /** The data and the block map reach the journal. */
    method WriteJournalBlks()
      requires Ready() && 0 < nextIndex < JOURNAL_SIZE
      modifies dev
      ensures Ready() && TxnOk(js, |dev.disk|, old(Updates())) && Moved(js, BmapBlk(js), old(dev.Now()), dev.Now())
      ensures dev.trace == old(dev.trace)
                + (DataWrites(js, old(Updates())) + [BmapWrite(old(Cache()), js, old(Updates()))])
    {
      ghost var ups, log, s0 := Updates(), Log(), dev.Now();
      LogTxn(js, dev.hdrs, log, Cache());
      var bmap := WriteDataBlks();
      assert bmap == Blks(ups);
      ghost var s1 := dev.Now();
      WriteBmapBlks(bmap);
      StagingDone(js, log, s0, s1, dev.Now());
      MovedLog(js, BmapBlk(js), s0, dev.Now(), clients, log);
    }

    method WriteJournalHeader()
      requires Shape() && dev.Valid()
      modifies dev
      ensures Shape() && dev.Valid()
      ensures Wrote(old(dev.Now()), dev.Now(), js, Overlay(old(Cache())[js], EncodeU32(nextIndex)))
    {
      WriteJournalBlk(HeaderBlk(js), EncodeU32(nextIndex));
    }

    /** Writes a block to the device; it is then clean. */
    method WriteHome(h: nat)
      requires dev.Valid() && h in dev.refs && h in dev.hdrs && dev.hdrs[h].blk < |dev.disk|
      modifies dev
      ensures dev.Valid() && Cache() == old(Cache()) && |dev.disk| == |old(dev.disk)| && dev.refs == old(dev.refs)
      ensures dev.hdrs == old(dev.hdrs)[h := old(dev.hdrs)[h].(dirty := false)]
      ensures var b := old(dev.hdrs)[h].blk; dev.trace == old(dev.trace) + [Write(b, OnDisk(old(Cache()), b))]
    {
      dev.WriteBlk(h);
      dev.SetBlkDirty(h, false);
    }

    /** Writes the `i`-th logged block home and gives up its header. */
    method ApplyBlk(i: nat, ghost s0: Snap)
      requires Shape() && dev.Valid() && i < nextIndex
      requires Applying(js, clients, Log(), s0, dev.Now(), i)
      modifies dev
      ensures Shape() && dev.Valid() && Applying(js, clients, Log(), s0, dev.Now(), i + 1)
    {
      ghost var log, s1 := Log(), dev.Now();
      NextHeld(js, clients, log, s0, s1, i);
      WriteHome(datablks[i]);
      ghost var hdrs2 := dev.hdrs;
      dev.ReleaseBlk(datablks[i]);
      ApplyingStep(js, clients, log, s0, s1, hdrs2, dev.Now(), i);
    }

    /** Writes every logged block home; the journal then holds no header, and no header is dirty. */
    method ApplyJournal()
      requires Ready() && DirtyLogged(dev.hdrs, Log())
      modifies dev
      ensures Shape() && dev.Valid() && dev.refs == clients && DirtyLogged(dev.hdrs, [])
      ensures dev.trace == old(dev.trace) + old(Updates()) && Cache() == old(Cache())
    {
      ghost var s0 := dev.Now();
      ApplyingStart(js, clients, Log(), s0);
      for i := 0 to nextIndex
        invariant Shape() && dev.Valid() && Applying(js, clients, Log(), s0, dev.Now(), i)
      {
        ApplyBlk(i, s0);
      }
      ApplyingDone(js, clients, Log(), s0, dev.Now());
    }

    /** The data, the block map and then the header: the transaction is committed. */
    method SealJournal()
      requires Ready() && DirtyLogged(dev.hdrs, Log()) && 0 < nextIndex < JOURNAL_SIZE
      modifies dev
      ensures Ready() && DirtyLogged(dev.hdrs, Log()) && TxnOk(js, |dev.disk|, old(Updates()))
      ensures Updates() == old(Updates())
      ensures HeaderOut(js, old(dev.Now()), dev.Now(), old(Updates()))
    {
      ghost var ups, log, s0 := Updates(), Log(), dev.Now();
      JournalClean(js, dev.disk, dev.pages, dev.hdrs, log);
      WriteJournalBlks();
      ghost var s1 := dev.Now();
      WriteJournalHeader();
      SealDone(js, clients, log, s0, s1, dev.Now());
    }

    method EraseJournal()
      requires Shape() && dev.Valid()
      modifies this`nextIndex, dev
      ensures Shape() && dev.Valid() && nextIndex == 0
      ensures Wrote(old(dev.Now()), dev.Now(), js, Overlay(old(Cache())[js], EncodeU32(0)))
    {
      nextIndex := 0;
      WriteJournalHeader();
    }

    method CommitJournal()
      requires Valid() && state == BUSY && 0 < nextIndex < JOURNAL_SIZE
      modifies this`nextIndex, dev
      ensures Ready() && nextIndex == 0 && DirtyLogged(dev.hdrs, [])
      ensures TxnOk(js, |dev.disk|, old(Updates()))
      ensures dev.trace == old(dev.trace) + CommitWrites(old(dev.disk), js, old(Updates()))
    {
      ghost var ups, s0 := Updates(), dev.Now();
      SealJournal();
      ghost var s1 := dev.Now();
      ApplyJournal();
      ghost var s2 := dev.Now();
      EraseJournal();
      CommitIssued(js, clients, s0, s1, s2, dev.Now(), ups);
      assert Log() == [];
    }

    /** A commit, entered in the history. */
    method CommitTxn()
      requires Valid() && state == BUSY && 0 < nextIndex < JOURNAL_SIZE
      modifies this`nextIndex, this`txns, dev
      ensures Valid() && nextIndex == 0 && txns == old(txns) + [old(Updates())]
    {
      ghost var ups := Updates();
      CommitJournal();
      AppendTxn(dev.disk0, js, txns, old(dev.trace), ups, dev.trace);
      txns := txns + [ups];
    }

    /** Commits what the transaction has logged, as one unit, and closes it. */
    method EndTxn()
      requires Valid() && state == BUSY && nextIndex < JOURNAL_SIZE
      modifies this, dev
      ensures Valid() && state == IDLE && clients == old(clients)
      ensures txns == old(txns) + if old(nextIndex) == 0 then [] else [old(Updates())]
      ensures Cache() == dev.disk
    {
      if nextIndex > 0 { CommitTxn(); }
      state := IDLE;
      IdleCacheIsDisk();
    }
  }
}
