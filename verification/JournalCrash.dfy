/**
 Crash atomicity of the journal: stop the device after any one of its block
 writes, in any run of transactions, and recovery yields the home blocks as they
 were after some number of whole transactions.
 */
module JournalCrash {
  import opened LittleEndian
  import opened Sequences
  import opened JournalSpec

  /** No committed entries in the journal. */
  ghost predicate Erased(d: Disk, js: nat) {
    js + 2 + JOURNAL_SIZE <= |d| && HeaderCount(d[HeaderBlk(js)]) == 0
  }

  lemma OverlayHeader(b: Block, n: nat)
    requires n < LIMIT
    ensures HeaderCount(Overlay(b, EncodeU32(n))) == n
  {
    assert Overlay(b, EncodeU32(n))[..4] == EncodeU32(n);
    U32RoundTrip(n);
  }

  lemma OverlayBmap(b: Block, blks: seq<nat>, i: nat)
    requires |blks| <= JOURNAL_SIZE && forall i :: 0 <= i < |blks| ==> blks[i] < LIMIT
    requires i < |blks|
    ensures BmapEntry(Overlay(b, EncodeBmap(blks)), i) == blks[i]
  {
    OverlayEntry(b, EncodeBmap(blks), i);
    BmapRoundTrip(blks, i);
  }

  lemma OverlayEntry(b: Block, p: seq<Byte>, i: nat)
    requires 4 * i + 4 <= |p| <= BLK_SIZE
    ensures BmapEntry(Overlay(b, p), i) == DecodeU32(p[4 * i..4 * i + 4])
  {
  }

  // ----- One commit, phase by phase -----

  /** The disk once the journal data and the block map are written. */
  ghost function Staged(d: Disk, js: nat, ups: seq<Write>): (r: Disk)
    requires TxnOk(js, |d|, ups)
    ensures |r| == |d|
  {
    Apply(d, DataWrites(js, ups) + [BmapWrite(d, js, ups)])
  }

  /** The disk once the header is written: the transaction is committed. */
  ghost function Sealed(d: Disk, js: nat, ups: seq<Write>): (r: Disk)
    requires TxnOk(js, |d|, ups)
    ensures |r| == |d|
  {
    Staged(d, js, ups)[HeaderBlk(js) := HeaderWrite(d, js, |ups|).data]
  }

  /** Journal writes before the header leave the home blocks and the header alone. */
  lemma StagingHidden(d: Disk, js: nat, ups: seq<Write>, m: nat)
    requires TxnOk(js, |d|, ups) && Erased(d, js) && m <= |ups| + 1
    ensures var d' := Apply(d, (DataWrites(js, ups) + [BmapWrite(d, js, ups)])[..m]);
            SameHome(d', d, js) && Erased(d', js) && d'[HeaderBlk(js)] == d[HeaderBlk(js)]
  {
    var ws := (DataWrites(js, ups) + [BmapWrite(d, js, ups)])[..m];
    forall b | 0 <= b < |d| && (!InJournal(js, b) || b == HeaderBlk(js))
      ensures Apply(d, ws)[b] == d[b]
    {
      ApplyFrame(d, ws, b);
    }
  }

  lemma SealedLogged(d: Disk, js: nat, ups: seq<Write>)
    requires TxnOk(js, |d|, ups) && Erased(d, js)
    ensures Logged(Sealed(d, js, ups), js, ups)
    ensures HeaderCount(Sealed(d, js, ups)[HeaderBlk(js)]) == |ups|
    ensures SameHome(Sealed(d, js, ups), d, js)
  {
    var ws := DataWrites(js, ups) + [BmapWrite(d, js, ups)];
    StagingHidden(d, js, ups, |ups| + 1);
    assert ws[..|ups| + 1] == ws;
    OverlayHeader(d[HeaderBlk(js)], |ups|);
    ApplyHit(d, ws, |ups|);
    forall i | 0 <= i < |ups|
      ensures BmapEntry(Sealed(d, js, ups)[BmapBlk(js)], i) == ups[i].blk
      ensures Sealed(d, js, ups)[DataBlk(js, i)] == ups[i].data
    {
      ApplyHit(d, ws, i);
      OverlayBmap(d[BmapBlk(js)], Blks(ups), i);
    }
  }

  /** Once sealed, recovery gives the new contents however much has been applied. */
  lemma ReplaySealed(d: Disk, js: nat, ups: seq<Write>, j: nat)
    requires TxnOk(js, |d|, ups) && Erased(d, js) && j <= |ups|
    ensures SameHome(Replay(Apply(Sealed(d, js, ups), ups[..j]), js), Apply(d, ups), js)
  {
    var s := Sealed(d, js, ups);
    var s' := Apply(s, ups[..j]);
    SealedLogged(d, js, ups);
    forall b | 0 <= b < |d| && InJournal(js, b)
      ensures s'[b] == s[b]
    {
      ApplyFrame(s, ups[..j], b);
    }
    assert Logged(s', js, ups);
    InstallIsApply(s', s', js, ups, |ups|);
    assert ups[..|ups|] == ups;
    RedoIsIdempotent(s, js, ups, j);
    ApplySameHome(s, d, js, ups);
  }

  /** The three stretches of the write sequence of one commit. */
  lemma CommitPrefix(d: Disk, js: nat, ups: seq<Write>, m: nat)
    requires TxnOk(js, |d|, ups) && m <= 2 * |ups| + 3
    ensures var w := CommitWrites(d, js, ups)[..m];
            var stage := DataWrites(js, ups) + [BmapWrite(d, js, ups)];
            && (m <= |ups| + 1 ==> w == stage[..m])
            && (|ups| + 2 <= m <= 2 * |ups| + 2 ==>
                 Apply(d, w) == Apply(Sealed(d, js, ups), ups[..m - |ups| - 2]))
  {
    var stage := DataWrites(js, ups) + [BmapWrite(d, js, ups)];
    var head := stage + [HeaderWrite(d, js, |ups|)];
    var erase := CommitWrites(d, js, ups)[|head + ups|..];
    assert CommitWrites(d, js, ups) == head + ups + erase;
    if m <= 2 * |ups| + 2 {
      TakeConcat(head + ups, erase, m);
      TakeConcat(head, ups, m);
      if m <= |ups| + 1 {
        TakeConcat(stage, [HeaderWrite(d, js, |ups|)], m);
      } else {
        ApplyConcat(d, head, ups[..m - |ups| - 2]);
        assert head[..|stage|] == stage;
      }
    }
  }

  /** What a whole commit leaves on the device. */
  lemma CommitDone(d: Disk, js: nat, ups: seq<Write>)
    requires TxnOk(js, |d|, ups) && Erased(d, js)
    ensures SameHome(Apply(d, CommitWrites(d, js, ups)), Apply(d, ups), js)
    ensures Erased(Apply(d, CommitWrites(d, js, ups)), js)
  {
    var w := CommitWrites(d, js, ups);
    var n := |w| - 1;
    CommitPrefix(d, js, ups, n);
    assert ups[..|ups|] == ups;
    SealedLogged(d, js, ups);
    ApplySameHome(Sealed(d, js, ups), d, js, ups);
    OverlayHeader(HeaderWrite(d, js, |ups|).data, 0);
  }

  /**
   A crash after any `m` writes of a commit: recovery gives the old home blocks
   up to the header write and the new ones from then on, never a mixture.
   */
  lemma CommitCrashAtomic(d: Disk, js: nat, ups: seq<Write>, m: nat)
    requires TxnOk(js, |d|, ups) && Erased(d, js) && m <= 2 * |ups| + 3
    ensures SameHome(Replay(Apply(d, CommitWrites(d, js, ups)[..m]), js),
                     if m <= |ups| + 1 then d else Apply(d, ups), js)
  {
    var w := CommitWrites(d, js, ups);
    CommitPrefix(d, js, ups, m);
    if m <= |ups| + 1 {
      StagingHidden(d, js, ups, m);
    } else if m <= 2 * |ups| + 2 {
      ReplaySealed(d, js, ups, m - |ups| - 2);
    } else {
      assert w[..m] == w;
      CommitDone(d, js, ups);
    }
  }

  // ----- Any run of transactions -----

  ghost predicate RunOk(js: nat, n: nat, txns: seq<seq<Write>>) {
    forall i :: 0 <= i < |txns| ==> TxnOk(js, n, txns[i])
  }

  /** All device writes of a run that starts with the disk `d`. */
  ghost function RunWrites(d: Disk, js: nat, txns: seq<seq<Write>>): (ws: seq<Write>)
    requires RunOk(js, |d|, txns)
  {
    if txns == [] then []
    else
      var p := RunWrites(d, js, txns[..|txns| - 1]);
      p + CommitWrites(Apply(d, p), js, txns[|txns| - 1])
  }

  /** The home blocks after the first `k` transactions, each applied as a whole. */
  ghost function AfterTxns(d: Disk, txns: seq<seq<Write>>, k: nat): (r: Disk)
    requires k <= |txns|
    ensures |r| == |d|
  {
    if k == 0 then d else Apply(AfterTxns(d, txns, k - 1), txns[k - 1])
  }

  lemma {:induction false} AfterTxnsPrefix(d: Disk, txns: seq<seq<Write>>, k: nat)
    requires k < |txns|
    ensures AfterTxns(d, txns[..|txns| - 1], k) == AfterTxns(d, txns, k)
  {
    if k > 0 { AfterTxnsPrefix(d, txns, k - 1); }
  }

  lemma {:induction false} RunDone(d: Disk, js: nat, txns: seq<seq<Write>>)
    requires RunOk(js, |d|, txns) && Erased(d, js)
    ensures Erased(Apply(d, RunWrites(d, js, txns)), js)
    ensures SameHome(Apply(d, RunWrites(d, js, txns)), AfterTxns(d, txns, |txns|), js)
  {
    if txns != [] {
      var init, last := txns[..|txns| - 1], txns[|txns| - 1];
      RunDone(d, js, init);
      var p := RunWrites(d, js, init);
      var d' := Apply(d, p);
      CommitDone(d', js, last);
      ApplyConcat(d, p, CommitWrites(d', js, last));
      AfterTxnsPrefix(d, txns, |init|);
      ApplySameHome(d', AfterTxns(d, txns, |init|), js, last);
    }
  }

  /** `m` writes into the run, this many headers have been committed. */
  ghost function Committed(d: Disk, js: nat, txns: seq<seq<Write>>, m: nat): (k: nat)
    requires RunOk(js, |d|, txns) && m <= |RunWrites(d, js, txns)|
    ensures k <= |txns|
  {
    if txns == [] then 0
    else
      var init := txns[..|txns| - 1];
      var p := RunWrites(d, js, init);
      if m <= |p| then Committed(d, js, init, m)
      else |init| + if m - |p| <= |txns[|init|]| + 1 then 0 else 1
  }

  /**
   Crash atomicity of every run: after any number of block writes, recovery
   restores exactly the transactions whose header write had happened.
   */
  lemma {:induction false} CrashAtomic(d: Disk, js: nat, txns: seq<seq<Write>>, m: nat)
    requires RunOk(js, |d|, txns) && Erased(d, js) && m <= |RunWrites(d, js, txns)|
    ensures SameHome(Replay(Apply(d, RunWrites(d, js, txns)[..m]), js),
                     AfterTxns(d, txns, Committed(d, js, txns, m)), js)
  {
    if txns == [] {
      assert RunWrites(d, js, txns)[..m] == [];
    } else {
      var init, last := txns[..|txns| - 1], txns[|txns| - 1];
      var p := RunWrites(d, js, init);
      if m <= |p| {
        CrashAtomic(d, js, init, m);
        TakeConcat(p, CommitWrites(Apply(d, p), js, last), m);
        AfterTxnsPrefix(d, txns, Committed(d, js, init, m));
      } else {
        var crashed, after := CrashInLast(d, js, txns, m);
      }
    }
  }

  /** A crash in the last commit: `crashed` is the disk then, and `after` the home blocks to be recovered. */
  lemma CrashInLast(d: Disk, js: nat, txns: seq<seq<Write>>, m: nat) returns (crashed: Disk, after: Disk)
    requires RunOk(js, |d|, txns) && Erased(d, js) && txns != []
    requires |RunWrites(d, js, txns[..|txns| - 1])| < m <= |RunWrites(d, js, txns)|
    ensures crashed == Apply(d, RunWrites(d, js, txns)[..m]) && |crashed| == |d|
    ensures after == AfterTxns(d, txns, Committed(d, js, txns, m))
    ensures SameHome(Replay(crashed, js), after, js)
  {
    var init, last := txns[..|txns| - 1], txns[|txns| - 1];
    var p := RunWrites(d, js, init);
    crashed, after := CrashAfterRun(d, js, txns, init, last, m - |p|);
    RunPrefix(d, js, txns, m);
    CommittedLast(d, js, txns, m);
    AfterLast(d, txns);
  }

  lemma CrashAfterRun(d: Disk, js: nat, txns: seq<seq<Write>>, init: seq<seq<Write>>, last: seq<Write>, m: nat)
    returns (crashed: Disk, after: Disk)
    requires RunOk(js, |d|, txns) && Erased(d, js) && txns != [] && init == txns[..|txns| - 1]
    requires last == txns[|txns| - 1]
    requires m <= 2 * |last| + 3
    ensures var d' := Apply(d, RunWrites(d, js, init));
            crashed == Apply(d', CommitWrites(d', js, last)[..m]) && |crashed| == |d|
    ensures after == if m <= |last| + 1 then AfterTxns(d, txns, |init|) else Apply(AfterTxns(d, txns, |init|), last)
    ensures SameHome(Replay(crashed, js), after, js)
  {
    var d' := Apply(d, RunWrites(d, js, init));
    RunDone(d, js, init);
    AfterTxnsPrefix(d, txns, |init|);
    crashed, after := CrashAfter(d', AfterTxns(d, txns, |init|), js, last, m);
  }

  /** The disk during the last commit of a run. */
  lemma RunPrefix(d: Disk, js: nat, txns: seq<seq<Write>>, m: nat)
    requires RunOk(js, |d|, txns) && txns != []
    requires |RunWrites(d, js, txns[..|txns| - 1])| < m <= |RunWrites(d, js, txns)|
    ensures var p, last := RunWrites(d, js, txns[..|txns| - 1]), txns[|txns| - 1];
            var w := CommitWrites(Apply(d, p), js, last);
            m - |p| <= |w| && Apply(d, RunWrites(d, js, txns)[..m]) == Apply(Apply(d, p), w[..m - |p|])
  {
    var p, last := RunWrites(d, js, txns[..|txns| - 1]), txns[|txns| - 1];
    var w := CommitWrites(Apply(d, p), js, last);
    TakeConcat(p, w, m);
    ApplyConcat(d, p, w[..m - |p|]);
  }

  lemma CommittedLast(d: Disk, js: nat, txns: seq<seq<Write>>, m: nat)
    requires RunOk(js, |d|, txns) && txns != []
    requires |RunWrites(d, js, txns[..|txns| - 1])| < m <= |RunWrites(d, js, txns)|
    ensures var p, last := RunWrites(d, js, txns[..|txns| - 1]), txns[|txns| - 1];
            Committed(d, js, txns, m) == |txns| - if m - |p| <= |last| + 1 then 1 else 0
  {
  }

  lemma AfterLast(d: Disk, txns: seq<seq<Write>>)
    requires txns != []
    ensures AfterTxns(d, txns, |txns|) == Apply(AfterTxns(d, txns, |txns| - 1), txns[|txns| - 1])
  {
  }

  /** A crash during a commit on a disk whose home blocks are those of `before`. */
  lemma CrashAfter(d: Disk, before: Disk, js: nat, ups: seq<Write>, m: nat) returns (crashed: Disk, after: Disk)
    requires TxnOk(js, |d|, ups) && Erased(d, js) && SameHome(d, before, js) && m <= 2 * |ups| + 3
    ensures crashed == Apply(d, CommitWrites(d, js, ups)[..m]) && |crashed| == |d|
    ensures after == if m <= |ups| + 1 then before else Apply(before, ups)
    ensures SameHome(Replay(crashed, js), after, js)
  {
    CommitCrashAtomic(d, js, ups, m);
    crashed := Apply(d, CommitWrites(d, js, ups)[..m]);
    if m <= |ups| + 1 {
      after := before;
      SameHomeTrans(Replay(crashed, js), d, before, js);
    } else {
      after := Apply(before, ups);
      ApplySameHome(d, before, js, ups);
      SameHomeTrans(Replay(crashed, js), Apply(d, ups), after, js);
    }
  }

  lemma SameHomeTrans(d: Disk, d': Disk, d'': Disk, js: nat)
    requires SameHome(d, d', js) && SameHome(d', d'', js)
    ensures SameHome(d, d'', js)
  {
  }

  /** Transactions become durable in order, and none is ever lost again. */
  lemma {:induction false} CommittedMonotone(d: Disk, js: nat, txns: seq<seq<Write>>, m: nat, m': nat)
    requires RunOk(js, |d|, txns) && m <= m' <= |RunWrites(d, js, txns)|
    ensures Committed(d, js, txns, m) <= Committed(d, js, txns, m') <= Committed(d, js, txns, m) + (m' - m)
  {
    if txns != [] {
      var init := txns[..|txns| - 1];
      var p := RunWrites(d, js, init);
      if m' <= |p| {
        CommittedMonotone(d, js, init, m, m');
      } else if m <= |p| {
        CommittedMonotone(d, js, init, m, |p|);
        CommittedAll(d, js, init);
      }
    }
  }

  lemma {:induction false} CommittedAll(d: Disk, js: nat, txns: seq<seq<Write>>)
    requires RunOk(js, |d|, txns)
    ensures Committed(d, js, txns, |RunWrites(d, js, txns)|) == |txns|
  {
  }
}
