/**
 The block headers that a transaction of kernel/fs/jbd.c holds, and how the four phases of a
 commit change the device while the journal holds them.
 */
module JournalLog {
  import opened LittleEndian
  import opened Sequences
  import opened JournalSpec
  import opened JournalCrash
  import opened BlockCache

  // ----- Logged headers -----

  ghost function BlkOf(hdrs: Headers, h: nat): (b: nat) {
    if h in hdrs then hdrs[h].blk else 0
  }

  ghost function BlksOf(hdrs: Headers, log: seq<nat>): (blks: seq<nat>)
    ensures |blks| == |log| && forall i :: 0 <= i < |log| ==> blks[i] == BlkOf(hdrs, log[i])
  {
    seq(|log|, i requires 0 <= i < |log| => BlkOf(hdrs, log[i]))
  }

  /** A logged header is allocated and belongs to a home block. */
  ghost predicate AtHome(js: nat, n: nat, hdrs: Headers, h: nat) {
    h in hdrs && hdrs[h].blk < n && !InJournal(js, hdrs[h].blk)
  }

  /** The headers of a transaction belong to different blocks. */
  ghost predicate LogOk(js: nat, n: nat, hdrs: Headers, log: seq<nat>) {
    && (forall i {:trigger AtHome(js, n, hdrs, log[i])} :: 0 <= i < |log| ==> AtHome(js, n, hdrs, log[i]))
    && DistinctBlks(BlksOf(hdrs, log))
  }

  ghost predicate DistinctBlks(blks: seq<nat>) {
    forall i, j {:trigger Apart(blks, i, j)} :: Apart(blks, i, j)
  }

  ghost predicate Apart(blks: seq<nat>, i: int, j: int) {
    0 <= i < j < |blks| ==> blks[i] != blks[j]
  }

  /** The logged blocks make a transaction. */
  lemma LogTxn(js: nat, hdrs: Headers, log: seq<nat>, c: Disk)
    requires LogOk(js, |c|, hdrs, log) && js + 2 + JOURNAL_SIZE <= |c| <= LIMIT
    ensures forall i :: 0 <= i < |log| ==> BlksOf(hdrs, log)[i] < |c| && !InJournal(js, BlksOf(hdrs, log)[i])
    ensures 0 < |log| < JOURNAL_SIZE ==> TxnOk(js, |c|, UpdatesOf(BlksOf(hdrs, log), c))
  {
    var blks := BlksOf(hdrs, log);
    forall i | 0 <= i < |log|
      ensures blks[i] < |c| && !InJournal(js, blks[i])
    {
      assert AtHome(js, |c|, hdrs, log[i]);
    }
    forall i, j | 0 <= i < j < |log|
      ensures blks[i] != blks[j]
    {
      assert Apart(blks, i, j);
    }
  }

  ghost function UpdatesOf(blks: seq<nat>, c: Disk): (ups: seq<Write>)
    ensures |ups| == |blks|
    ensures forall i :: 0 <= i < |ups| ==> ups[i] == Write(blks[i], OnDisk(c, blks[i]))
  {
    seq(|blks|, i requires 0 <= i < |blks| => Write(blks[i], OnDisk(c, blks[i])))
  }

  lemma UpdatesFrame(blks: seq<nat>, c: Disk, c': Disk)
    requires |c| == |c'| && forall i :: 0 <= i < |blks| ==> OnDisk(c', blks[i]) == OnDisk(c, blks[i])
    ensures UpdatesOf(blks, c') == UpdatesOf(blks, c)
  {
  }

  /** Every dirty header is one that the open transaction holds. */
  ghost predicate DirtyLogged(hdrs: Headers, log: seq<nat>) {
    forall h :: h in hdrs && hdrs[h].dirty ==> h in log
  }

  /** Headers that are referred to all along belong to the same block; no other block has become dirty. */
  ghost predicate Steady(refs: multiset<nat>, hdrs0: Headers, hdrs1: Headers) {
    && (forall h :: h in refs ==> h in hdrs0 && h in hdrs1 && hdrs1[h].blk == hdrs0[h].blk)
    && (forall h :: h in hdrs1 && hdrs1[h].dirty ==> h in hdrs0 && hdrs0[h].dirty)
  }

  lemma SteadyTrans(refs: multiset<nat>, hdrs0: Headers, hdrs1: Headers, hdrs2: Headers)
    requires Steady(refs, hdrs0, hdrs1) && Steady(refs, hdrs1, hdrs2)
    ensures Steady(refs, hdrs0, hdrs2)
  {
  }

  lemma KeptSteady(refs0: multiset<nat>, hdrs0: Headers, refs1: multiset<nat>, hdrs1: Headers, refs: multiset<nat>)
    requires RefsOk(hdrs0, refs0) && RefsOk(hdrs1, refs1) && Kept(hdrs0, hdrs1) && refs <= refs0 && refs <= refs1
    ensures Steady(refs, hdrs0, hdrs1)
  {
    forall h | h in refs
      ensures h in hdrs0 && h in hdrs1
    {
      assert RefOk(hdrs0, refs0, h) && RefOk(hdrs1, refs1, h);
    }
  }

  lemma SteadyLog(js: nat, n: nat, refs: multiset<nat>, hdrs0: Headers, hdrs1: Headers, log: seq<nat>)
    requires Steady(refs, hdrs0, hdrs1) && LogOk(js, n, hdrs0, log) && multiset(log) <= refs
    ensures LogOk(js, n, hdrs1, log) && BlksOf(hdrs1, log) == BlksOf(hdrs0, log)
    ensures DirtyLogged(hdrs0, log) ==> DirtyLogged(hdrs1, log)
  {
    forall i | 0 <= i < |log|
      ensures log[i] in hdrs0 && log[i] in hdrs1 && hdrs1[log[i]].blk == hdrs0[log[i]].blk
      ensures AtHome(js, n, hdrs1, log[i])
    {
      assert log[i] in multiset(log);
      assert AtHome(js, n, hdrs0, log[i]);
    }
    assert BlksOf(hdrs1, log) == BlksOf(hdrs0, log);
  }

  /** The journal has a reference to every header it holds. */
  ghost predicate LogHeld(js: nat, n: nat, hdrs: Headers, refs: multiset<nat>, clients: multiset<nat>, log: seq<nat>) {
    LogOk(js, n, hdrs, log) && refs == clients + multiset(log)
  }

  /** Getting and releasing blocks does not disturb the log. */
  lemma HeldStep(js: nat, disk: Disk, pages0: Pages, hdrs0: Headers, refs0: multiset<nat>, clients0: multiset<nat>,
                 log: seq<nat>,
                 pages1: Pages, hdrs1: Headers, refs1: multiset<nat>, clients1: multiset<nat>)
    requires Inv(disk, pages0, hdrs0, refs0) && Inv(disk, pages1, hdrs1, refs1)
    requires Same(disk, pages0, hdrs0, pages1, hdrs1)
    requires LogHeld(js, |disk|, hdrs0, refs0, clients0, log) && refs1 == clients1 + multiset(log)
    ensures LogHeld(js, |disk|, hdrs1, refs1, clients1, log)
    ensures DirtyLogged(hdrs0, log) ==> DirtyLogged(hdrs1, log)
  {
    KeptSteady(refs0, hdrs0, refs1, hdrs1, multiset(log));
    SteadyLog(js, |disk|, multiset(log), hdrs0, hdrs1, log);
  }

  lemma Regroup(clients: multiset<nat>, log: multiset<nat>, h: nat)
    ensures clients + log + multiset{h} == clients + multiset{h} + log
    ensures h in clients ==> clients + log - multiset{h} == clients - multiset{h} + log
  {
  }

  lemma LogAdd(js: nat, n: nat, hdrs: Headers, log: seq<nat>, h: nat)
    requires LogOk(js, n, hdrs, log) && AtHome(js, n, hdrs, h) && BlkOf(hdrs, h) !in BlksOf(hdrs, log)
    ensures LogOk(js, n, hdrs, log + [h])
  {
    var log1, blks := log + [h], BlksOf(hdrs, log);
    assert BlksOf(hdrs, log1) == blks + [BlkOf(hdrs, h)];
    forall i | 0 <= i < |log1|
      ensures AtHome(js, n, hdrs, log1[i])
    {
      assert i < |log| ==> AtHome(js, n, hdrs, log[i]);
    }
    forall i, j
      ensures Apart(BlksOf(hdrs, log1), i, j)
    {
      assert Apart(blks, i, j);
    }
  }

  /** One more header is held. */
  lemma AddHeld(js: nat, n: nat, hdrs0: Headers, refs: multiset<nat>, clients: multiset<nat>, log: seq<nat>, h: nat,
                hdrs1: Headers)
    requires LogHeld(js, n, hdrs0, refs, clients, log) && Kept(hdrs0, hdrs1) && hdrs1.Keys == hdrs0.Keys
    requires AtHome(js, n, hdrs0, h) && BlkOf(hdrs0, h) !in BlksOf(hdrs0, log)
    ensures LogHeld(js, n, hdrs1, refs + multiset{h}, clients, log + [h])
  {
    LogAdd(js, n, hdrs0, log, h);
    forall g | g in multiset(log + [h])
      ensures g in hdrs0
    {
      var i :| 0 <= i < |log + [h]| && (log + [h])[i] == g;
      assert AtHome(js, n, hdrs0, (log + [h])[i]);
    }
    SteadyLog(js, n, multiset(log + [h]), hdrs0, hdrs1, log + [h]);
    assert multiset(log + [h]) == multiset(log) + multiset{h};
  }

  lemma MarkHeld(js: nat, n: nat, hdrs0: Headers, refs: multiset<nat>, clients: multiset<nat>, log: seq<nat>, h: nat,
                 hdrs1: Headers)
    requires LogHeld(js, n, hdrs0, refs, clients, log) && h in hdrs0 && hdrs1 == hdrs0[h := hdrs0[h].(dirty := true)]
    ensures LogHeld(js, n, hdrs1, refs, clients, log)
  {
    assert BlksOf(hdrs1, log) == BlksOf(hdrs0, log);
    forall i | 0 <= i < |log|
      ensures AtHome(js, n, hdrs1, log[i])
    {
      assert AtHome(js, n, hdrs0, log[i]);
    }
  }

  lemma DirtyAdd(hdrs0: Headers, log0: seq<nat>, h: nat, hdrs1: Headers, log1: seq<nat>)
    requires DirtyLogged(hdrs0, log0) && h in hdrs0 && Kept(hdrs0[h := hdrs0[h].(dirty := true)], hdrs1)
    requires log1 == log0 + if h in log0 then [] else [h]
    ensures DirtyLogged(hdrs1, log1)
  {
  }

  lemma AddDrop(refs: multiset<nat>, h: nat)
    ensures refs + multiset{h} - multiset{h} == refs
  {
  }

  /** Getting, changing and releasing a block disturbs no other header that is referred to. */
  lemma JournalBlkSteady(refs0: multiset<nat>, hdrs0: Headers, h: nat, refs1: multiset<nat>, hdrs1: Headers,
                         hdrs2: Headers, hdrs3: Headers)
    requires RefsOk(hdrs0, refs0) && Kept(hdrs0, hdrs1) && RefsOk(hdrs1, refs1) && refs1 == refs0 + multiset{h}
    requires h in hdrs1 && hdrs2 == hdrs1[h := hdrs1[h].(dirty := false)] && RefsOk(hdrs2, refs1)
    requires Kept(hdrs2, hdrs3) && RefsOk(hdrs3, refs0)
    ensures Steady(refs0, hdrs0, hdrs3)
  {
    KeptSteady(refs0, hdrs0, refs1, hdrs1, refs0);
    KeptSteady(refs1, hdrs2, refs0, hdrs3, refs0);
    SteadyTrans(refs0, hdrs0, hdrs1, hdrs2);
    SteadyTrans(refs0, hdrs0, hdrs2, hdrs3);
  }

  /** Nothing but journal blocks from `first` on has changed. */
  ghost predicate KeptBelow(js: nat, c: Disk, c': Disk, first: nat) {
    |c'| == |c| && forall b :: 0 <= b < |c| && (!InJournal(js, b) || b < first) ==> c'[b] == c[b]
  }

  /** What writing to the journal area leaves alone: home blocks, references and headers. */
  ghost predicate Moved(js: nat, first: nat, s0: Snap, s1: Snap) {
    && s1.refs == s0.refs && KeptBelow(js, s0.disk, s1.disk, first) && KeptBelow(js, s0.cache, s1.cache, first)
    && Steady(s0.refs, s0.hdrs, s1.hdrs)
  }

  /** Block `b` has been written through the cache. */
  ghost predicate Wrote(s0: Snap, s1: Snap, b: nat, data: Block) {
    && b < |s0.disk| == |s0.cache| && s1.disk == s0.disk[b := data] && s1.cache == s0.cache[b := data]
    && s1.trace == s0.trace + [Write(b, data)]
    && s1.refs == s0.refs && Steady(s0.refs, s0.hdrs, s1.hdrs)
  }

  lemma MovedStart(js: nat, first: nat, s: Snap)
    requires RefsOk(s.hdrs, s.refs)
    ensures Moved(js, first, s, s)
  {
    KeptSteady(s.refs, s.hdrs, s.refs, s.hdrs, s.refs);
  }

  lemma MovedStep(js: nat, first: nat, s0: Snap, s1: Snap, s2: Snap, b: nat, data: Block)
    requires Moved(js, first, s0, s1) && Wrote(s1, s2, b, data) && InJournal(js, b) && first <= b
    ensures Moved(js, first, s0, s2)
  {
  }

  /** The log of the transaction is undisturbed. */
  lemma MovedLog(js: nat, first: nat, s0: Snap, s1: Snap, clients: multiset<nat>, log: seq<nat>)
    requires Moved(js, first, s0, s1) && LogHeld(js, |s0.disk|, s0.hdrs, s0.refs, clients, log)
    ensures LogHeld(js, |s1.disk|, s1.hdrs, s1.refs, clients, log) && BlksOf(s1.hdrs, log) == BlksOf(s0.hdrs, log)
    ensures DirtyLogged(s0.hdrs, log) ==> DirtyLogged(s1.hdrs, log)
  {
    SteadyLog(js, |s0.disk|, s0.refs, s0.hdrs, s1.hdrs, log);
  }

  /** The first `i` data writes of a commit have been issued. */
  ghost predicate Staging(js: nat, log: seq<nat>, s0: Snap, s1: Snap, i: nat) {
    && Moved(js, DataBlk(js, 0), s0, s1)
    && i <= |log| && s1.trace == s0.trace + DataWrites(js, UpdatesOf(BlksOf(s0.hdrs, log), s0.cache))[..i]
  }

  lemma StagingStep(js: nat, log: seq<nat>, clients: multiset<nat>, s0: Snap, s1: Snap, s2: Snap, i: nat)
    requires LogHeld(js, |s0.disk|, s0.hdrs, s0.refs, clients, log) && |s0.cache| == |s0.disk| && i < |log|
    requires Staging(js, log, s0, s1, i) && Wrote(s1, s2, DataBlk(js, i), OnDisk(s1.cache, BlkOf(s1.hdrs, log[i])))
    requires |log| <= JOURNAL_SIZE
    ensures Staging(js, log, s0, s2, i + 1)
  {
    MovedLog(js, DataBlk(js, 0), s0, s1, clients, log);
    var blks := BlksOf(s0.hdrs, log);
    var ws, b := DataWrites(js, UpdatesOf(blks, s0.cache)), BlksOf(s1.hdrs, log)[i];
    assert AtHome(js, |s0.disk|, s0.hdrs, log[i]) && b == blks[i] == BlkOf(s1.hdrs, log[i]);
    assert OnDisk(s1.cache, b) == OnDisk(s0.cache, b);
    assert ws[..i + 1] == ws[..i] + [ws[i]];
    Assoc(s0.trace, ws[..i], [ws[i]]);
    MovedStep(js, DataBlk(js, 0), s0, s1, s2, DataBlk(js, i), ws[i].data);
  }

  /** All data writes and then the block map. */
  lemma StagingDone(js: nat, log: seq<nat>, s0: Snap, s1: Snap, s2: Snap)
    requires Staging(js, log, s0, s1, |log|) && |s0.cache| == |s0.disk| && js + 2 + JOURNAL_SIZE <= |s0.cache|
    requires TxnOk(js, |s0.cache|, UpdatesOf(BlksOf(s0.hdrs, log), s0.cache))
    requires var ups := UpdatesOf(BlksOf(s0.hdrs, log), s0.cache);
             Wrote(s1, s2, BmapBlk(js), Overlay(s1.cache[BmapBlk(js)], EncodeBmap(Blks(ups))))
    ensures Moved(js, BmapBlk(js), s0, s2)
    ensures var ups := UpdatesOf(BlksOf(s0.hdrs, log), s0.cache);
            s2.trace == s0.trace + (DataWrites(js, ups) + [BmapWrite(s0.cache, js, ups)])
  {
    var ups := UpdatesOf(BlksOf(s0.hdrs, log), s0.cache);
    var ws, w := DataWrites(js, ups), BmapWrite(s0.cache, js, ups);
    TakeAll(ws);
    assert s1.cache[BmapBlk(js)] == s0.cache[BmapBlk(js)];
    Assoc(s0.trace, ws, [w]);
    MovedLower(js, s0, s1);
    MovedStep(js, BmapBlk(js), s0, s1, s2, BmapBlk(js), w.data);
  }

  lemma MovedLower(js: nat, s0: Snap, s1: Snap)
    requires Moved(js, DataBlk(js, 0), s0, s1)
    ensures Moved(js, BmapBlk(js), s0, s1)
  {
  }

  /** Blocks of the journal area are never dirty outside a commit. */
  lemma JournalClean(js: nat, disk: Disk, pages: Pages, hdrs: Headers, log: seq<nat>)
    requires Synced(disk, pages, hdrs) && LogOk(js, |disk|, hdrs, log) && DirtyLogged(hdrs, log)
    ensures forall b: nat :: InJournal(js, b) && b < |disk| ==> View(disk, pages)[b] == disk[b]
  {
    forall h | h in hdrs && hdrs[h].dirty
      ensures !InJournal(js, hdrs[h].blk)
    {
      var i :| 0 <= i < |log| && log[i] == h;
      assert AtHome(js, |disk|, hdrs, log[i]);
    }
    forall b: nat | InJournal(js, b) && b < |disk|
      ensures View(disk, pages)[b] == disk[b]
    {
      assert b !in DirtyBlks(hdrs);
    }
  }

  /** The writes up to the header have been issued. */
  ghost predicate HeaderOut(js: nat, s0: Snap, s1: Snap, ups: seq<Write>) {
    && TxnOk(js, |s0.disk|, ups) && |s1.cache| == |s0.disk|
    && var h := HeaderWrite(s0.disk, js, |ups|);
    && s1.cache[js] == h.data
    && s1.trace == s0.trace + (DataWrites(js, ups) + [BmapWrite(s0.disk, js, ups)]) + [h]
  }

  lemma SealDone(js: nat, clients: multiset<nat>, log: seq<nat>, s0: Snap, s1: Snap, s2: Snap)
    requires |s0.cache| == |s0.disk| && js + 2 + JOURNAL_SIZE <= |s0.disk| && |log| < JOURNAL_SIZE
    requires LogHeld(js, |s0.disk|, s0.hdrs, s0.refs, clients, log) && DirtyLogged(s0.hdrs, log)
    requires s0.cache[js] == s0.disk[js] && s0.cache[js + 1] == s0.disk[js + 1]
    requires Moved(js, BmapBlk(js), s0, s1) && Wrote(s1, s2, js, Overlay(s1.cache[js], EncodeU32(|log|)))
    requires var ups := UpdatesOf(BlksOf(s0.hdrs, log), s0.cache);
             && TxnOk(js, |s0.disk|, ups)
             && s1.trace == s0.trace + (DataWrites(js, ups) + [BmapWrite(s0.cache, js, ups)])
    ensures HeaderOut(js, s0, s2, UpdatesOf(BlksOf(s0.hdrs, log), s0.cache))
    ensures LogHeld(js, |s2.disk|, s2.hdrs, s2.refs, clients, log) && DirtyLogged(s2.hdrs, log)
    ensures UpdatesOf(BlksOf(s2.hdrs, log), s2.cache) == UpdatesOf(BlksOf(s0.hdrs, log), s0.cache)
  {
    var blks := BlksOf(s0.hdrs, log);
    assert Moved(js, js, s0, s1);
    MovedStep(js, js, s0, s1, s2, js, Overlay(s1.cache[js], EncodeU32(|log|)));
    MovedLog(js, js, s0, s2, clients, log);
    LogTxn(js, s0.hdrs, log, s0.cache);
    UpdatesFrame(blks, s0.cache, s2.cache);
  }

  /** The first `i` logged blocks have been written home; the journal still holds the others. */
  ghost predicate Applying(js: nat, clients: multiset<nat>, log: seq<nat>, s0: Snap, s1: Snap, i: nat) {
    && i <= |log| && |s0.cache| == |s0.disk| == |s1.disk| && s1.cache == s0.cache
    && LogOk(js, |s0.disk|, s0.hdrs, log) && s1.refs == clients + multiset(log[i..])
    && (forall k {:trigger Waiting(s0.hdrs, s1.hdrs, log, k)} :: i <= k < |log| ==> Waiting(s0.hdrs, s1.hdrs, log, k))
    && DirtyLogged(s1.hdrs, log[i..])
    && s1.trace == s0.trace + UpdatesOf(BlksOf(s0.hdrs, log), s0.cache)[..i]
  }

  /** The header of a block that is still to be written home. */
  ghost predicate Waiting(hdrs0: Headers, hdrs1: Headers, log: seq<nat>, k: int) {
    0 <= k < |log| && log[k] in hdrs0 && log[k] in hdrs1 && hdrs1[log[k]].blk == hdrs0[log[k]].blk
  }

  lemma ApplyingStart(js: nat, clients: multiset<nat>, log: seq<nat>, s: Snap)
    requires LogHeld(js, |s.disk|, s.hdrs, s.refs, clients, log) && DirtyLogged(s.hdrs, log) && |s.cache| == |s.disk|
    ensures Applying(js, clients, log, s, s, 0)
  {
    assert log[0..] == log;
    forall k | 0 <= k < |log|
      ensures Waiting(s.hdrs, s.hdrs, log, k)
    {
      assert AtHome(js, |s.disk|, s.hdrs, log[k]);
    }
  }

  lemma NextHeld(js: nat, clients: multiset<nat>, log: seq<nat>, s0: Snap, s1: Snap, i: nat)
    requires Applying(js, clients, log, s0, s1, i) && i < |log|
    ensures log[i] in s1.refs && log[i] in s1.hdrs && log[i] in s0.hdrs
    ensures s1.hdrs[log[i]].blk == s0.hdrs[log[i]].blk < |s1.disk|
  {
    assert Waiting(s0.hdrs, s1.hdrs, log, i) && AtHome(js, |s0.disk|, s0.hdrs, log[i]);
    assert log[i..][0] == log[i];
  }

  /** Different logged blocks have different headers. */
  lemma LogDistinct(js: nat, n: nat, hdrs: Headers, log: seq<nat>, i: nat, j: nat)
    requires LogOk(js, n, hdrs, log) && i < j < |log|
    ensures log[i] != log[j]
  {
    assert Apart(BlksOf(hdrs, log), i, j);
  }

  lemma ApplyingStep(js: nat, clients: multiset<nat>, log: seq<nat>, s0: Snap, s1: Snap, hdrs2: Headers, s3: Snap,
                     i: nat)
    requires Applying(js, clients, log, s0, s1, i) && i < |log| && log[i] in s1.hdrs
    requires hdrs2 == s1.hdrs[log[i] := s1.hdrs[log[i]].(dirty := false)]
    requires Kept(hdrs2, s3.hdrs) && RefsOk(s3.hdrs, s3.refs) && s3.refs == s1.refs - multiset{log[i]}
    requires |s3.disk| == |s1.disk| && s3.cache == s1.cache
    requires s3.trace == s1.trace + [Write(s1.hdrs[log[i]].blk, OnDisk(s1.cache, s1.hdrs[log[i]].blk))]
    ensures Applying(js, clients, log, s0, s3, i + 1)
  {
    var ups := UpdatesOf(BlksOf(s0.hdrs, log), s0.cache);
    assert Waiting(s0.hdrs, s1.hdrs, log, i);
    TakeNext(ups, i);
    Assoc(s0.trace, ups[..i], [ups[i]]);
    RestHeld(clients, log, i);
    forall k | i + 1 <= k < |log|
      ensures Waiting(s0.hdrs, s3.hdrs, log, k)
    {
      assert Waiting(s0.hdrs, s1.hdrs, log, k);
      LogDistinct(js, |s0.disk|, s0.hdrs, log, i, k);
      StillHeldAt(clients, log, i + 1, k, s3.hdrs, s3.refs);
    }
    DirtyRest(s1.hdrs, hdrs2, s3.hdrs, log, i);
  }

  lemma StillHeldAt(clients: multiset<nat>, log: seq<nat>, i: nat, k: nat, hdrs: Headers, refs: multiset<nat>)
    requires i <= k < |log| && refs == clients + multiset(log[i..]) && RefsOk(hdrs, refs)
    ensures log[k] in hdrs
  {
    assert log[i..][k - i] == log[k];
    assert RefOk(hdrs, refs, log[k]);
  }

  lemma DirtyRest(hdrs1: Headers, hdrs2: Headers, hdrs3: Headers, log: seq<nat>, i: nat)
    requires i < |log| && log[i] in hdrs1 && DirtyLogged(hdrs1, log[i..])
    requires hdrs2 == hdrs1[log[i] := hdrs1[log[i]].(dirty := false)] && Kept(hdrs2, hdrs3)
    ensures DirtyLogged(hdrs3, log[i + 1..])
  {
    assert log[i..] == [log[i]] + log[i + 1..];
  }

  lemma RestHeld(clients: multiset<nat>, log: seq<nat>, i: nat)
    requires i < |log|
    ensures clients + multiset(log[i..]) - multiset{log[i]} == clients + multiset(log[i + 1..])
  {
    assert log[i..] == [log[i]] + log[i + 1..];
  }

  lemma ApplyingDone(js: nat, clients: multiset<nat>, log: seq<nat>, s0: Snap, s1: Snap)
    requires Applying(js, clients, log, s0, s1, |log|)
    ensures s1.refs == clients && DirtyLogged(s1.hdrs, []) && s1.cache == s0.cache
    ensures s1.trace == s0.trace + UpdatesOf(BlksOf(s0.hdrs, log), s0.cache)
  {
    assert log[|log|..] == [];
    TakeAll(UpdatesOf(BlksOf(s0.hdrs, log), s0.cache));
  }

  /** Nothing but whole commits has ever reached the device. */
  ghost predicate History(js: nat, d0: Disk, txns: seq<seq<Write>>, trace: seq<Write>) {
    RunOk(js, |d0|, txns) && Erased(d0, js) && trace == RunWrites(d0, js, txns)
  }

  /** A run with one more commit. */
  lemma AppendTxn(d0: Disk, js: nat, txns: seq<seq<Write>>, trace: seq<Write>, ups: seq<Write>, trace': seq<Write>)
    requires History(js, d0, txns, trace) && TxnOk(js, |d0|, ups)
    requires trace' == trace + CommitWrites(Apply(d0, trace), js, ups)
    ensures History(js, d0, txns + [ups], trace')
  {
    assert (txns + [ups])[..|txns + [ups]| - 1] == txns;
  }

  lemma CommitTrace(t: seq<Write>, d: Disk, js: nat, ups: seq<Write>)
    requires TxnOk(js, |d|, ups)
    ensures var h := HeaderWrite(d, js, |ups|);
            t + (DataWrites(js, ups) + [BmapWrite(d, js, ups)]) + [h] + ups
              + [Write(js, Overlay(h.data, EncodeU32(0)))]
            == t + CommitWrites(d, js, ups)
  {
  }

  /** The four phases together issue the writes of a commit, and leave nothing held and nothing dirty. */
  lemma CommitIssued(js: nat, clients: multiset<nat>, s0: Snap, s1: Snap, s2: Snap, s3: Snap, ups: seq<Write>)
    requires HeaderOut(js, s0, s1, ups) && s2.trace == s1.trace + ups && s2.cache == s1.cache
    requires s2.refs == clients && DirtyLogged(s2.hdrs, []) && js < |s2.cache|
    requires Wrote(s2, s3, js, Overlay(s2.cache[js], EncodeU32(0)))
    ensures s3.trace == s0.trace + CommitWrites(s0.disk, js, ups)
    ensures DirtyLogged(s3.hdrs, []) && LogHeld(js, |s3.disk|, s3.hdrs, s3.refs, clients, [])
  {
    CommitTrace(s0.trace, s0.disk, js, ups);
  }
}
