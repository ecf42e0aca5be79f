/** Commits, power cuts and recoveries in any order: the main theorems about the rollback journal. */
module CrashRuns {
  import opened Bytes
  import opened Disk
  import opened Sorting
  import opened Paging
  import opened Journal
  import opened Atomicity

  function JournalSteps(tx: Tx): (r: seq<Step>)
    requires WellFormed(tx)
    ensures JournalWritesOnly(r) && |r| == |Journaled(tx)| + 1
  {
    [JournalWrite(0, HeaderRegion(tx))] + RecordSteps(tx, |Journaled(tx)|)
  }

  /** The main file once the commit is complete. */
  function PostImage(tx: Tx): (r: seq<Byte>)
    requires WellFormed(tx)
  {
    ApplyAll(tx.pre, Ops(PageSteps(tx, |tx.dirty|)))
  }

  // ----- before the journal is synced -----

  ghost predicate Harmless(tx: Tx, img: seq<Byte>)
    requires WellFormed(tx)
  {
    Quiet(tx, img) && NoBlankAccepted(tx, img)
  }

  lemma HarmlessKept(tx: Tx, img: seq<Byte>, i: nat)
    requires WellFormed(tx) && Harmless(tx, img) && i < |JournalSteps(tx)|
    requires tx.nonce != 0 || |Journaled(tx)| == 1
    ensures Harmless(tx, Apply(img, OpOf(JournalSteps(tx)[i])))
  {
    hide Journaled, PrePage, WellFormed, Quiet, NoBlankAccepted, HeaderRegion, TxRecord, WriteAt, Slot;
    if tx.nonce != 0 { SaltKeepsBlanksOut(tx, Apply(img, OpOf(JournalSteps(tx)[i]))); }
    if i == 0 {
      HeaderWriteKeepsQuiet(tx, img);
      if tx.nonce == 0 { FirstSlotAfterHeader(tx, img); }
    } else {
      RecordStepOp(tx, i - 1);
      RecordWriteKeepsQuiet(tx, img, i - 1);
      if tx.nonce == 0 { FirstSlotAfterRecord(tx, img); }
    }
  }

  lemma SaltKeepsBlanksOut(tx: Tx, img: seq<Byte>)
    requires WellFormed(tx) && tx.nonce != 0
    ensures NoBlankAccepted(tx, img)
  {
    hide WellFormed;
  }

  lemma FirstSlotAfterHeader(tx: Tx, img: seq<Byte>)
    requires WellFormed(tx) && |Journaled(tx)| == 1 && NoBlankAccepted(tx, img) && tx.nonce == 0
    ensures NoBlankAccepted(tx, WriteAt(img, 0, HeaderRegion(tx)))
  {
    hide Journaled, PrePage, WellFormed, HeaderRegion, RecordOfPre;
    assert tx.pageSize <= Slot(tx, 0);
    var r := WriteAt(img, 0, HeaderRegion(tx));
    var a, e := Slot(tx, 0), Slot(tx, 0) + RecordLen(tx.pageSize);
    if e <= |r| {
      WriteAtSlices(img, 0, HeaderRegion(tx), a, e);
      assert SlotAt(tx, r, 0) == SlotAt(tx, img, 0);
    }
  }

  lemma FirstSlotAfterRecord(tx: Tx, img: seq<Byte>)
    requires WellFormed(tx) && |Journaled(tx)| == 1
    ensures NoBlankAccepted(tx, WriteAt(img, Slot(tx, 0), TxRecord(tx, 0)))
  {
    var r := WriteAt(img, Slot(tx, 0), TxRecord(tx, 0));
    WriteAtSlices(img, Slot(tx, 0), TxRecord(tx, 0), Slot(tx, 0), Slot(tx, 0) + RecordLen(tx.pageSize));
    assert SlotAt(tx, r, 0) == TxRecord(tx, 0);
    TxRecordOfPre(tx, 0);
  }

  lemma UnsyncedJournal(tx: Tx, j0: seq<Byte>, k: nat, img: seq<Byte>)
    requires WellFormed(tx) && Harmless(tx, j0) && k <= |JournalSteps(tx)|
    requires tx.nonce != 0 || |Journaled(tx)| == 1
    requires SurvivesAs(File(j0, Ops(JournalSteps(tx)[..k])), img)
    ensures Harmless(tx, img)
  {
    hide Journaled, WellFormed, Quiet, NoBlankAccepted, JournalSteps, Harmless;
    var ops := Ops(JournalSteps(tx)[..k]);
    forall x: seq<Byte>, i | Harmless(tx, x) && 0 <= i < |ops| ensures Harmless(tx, Apply(x, ops[i])) {
      HarmlessKept(tx, x, i);
    }
    SurvivorKeeps(File(j0, ops), img, x => Harmless(tx, x));
  }

  // ----- the synced journal -----

  lemma {:induction false} JournalWritten(tx: Tx, j0: seq<Byte>, k: nat)
    requires WellFormed(tx) && k <= |Journaled(tx)|
    ensures var r := ApplyAll(j0, Ops(JournalSteps(tx)[..k + 1]));
            && HeaderIs(tx, r)
            && forall i :: 0 <= i < k ==>
                Slot(tx, i) + RecordLen(tx.pageSize) <= |r| && SlotAt(tx, r, i) == TxRecord(tx, i)
  {
    hide Journaled, PrePage, WellFormed, TxRecord, HeaderRegion, ApplyAll, SlotOffset, Slot;
    var steps := JournalSteps(tx);
    var before := ApplyAll(j0, Ops(steps[..k]));
    var op := OpOf(steps[k]);
    assert Ops(steps[..k + 1]) == Ops(steps[..k]) + [op];
    ApplyAllSnoc(j0, Ops(steps[..k]), op);
    var r := Apply(before, op);
    if k == 0 {
      assert HeaderIs(tx, r);
    } else {
      JournalWritten(tx, j0, k - 1);
      SlotOrder(tx, k - 1, k - 1);
      assert op == Write(Slot(tx, k - 1), TxRecord(tx, k - 1)) by { RecordStepOp(tx, k - 1); }
      WriteAtSlices(before, Slot(tx, k - 1), TxRecord(tx, k - 1), 0, tx.pageSize);
      assert r[0..tx.pageSize] == r[..tx.pageSize] && before[0..tx.pageSize] == before[..tx.pageSize];
      forall i | 0 <= i < k
        ensures Slot(tx, i) + RecordLen(tx.pageSize) <= |r| && SlotAt(tx, r, i) == TxRecord(tx, i)
      {
        SlotOrder(tx, i, k - 1);
        WriteAtSlices(before, Slot(tx, k - 1), TxRecord(tx, k - 1), Slot(tx, i), Slot(tx, i) + RecordLen(tx.pageSize));
      }
    }
  }

  lemma RecordStepOp(tx: Tx, k: nat)
    requires WellFormed(tx) && k < |Journaled(tx)|
    ensures OpOf(JournalSteps(tx)[k + 1]) == Write(Slot(tx, k), TxRecord(tx, k))
  {
    hide Journaled, PrePage, WellFormed;
  }

  lemma SyncedJournalComplete(tx: Tx, j0: seq<Byte>)
    requires WellFormed(tx)
    ensures Complete(tx, ApplyAll(j0, Ops(JournalSteps(tx))))
  {
    hide Journaled, PrePage, WellFormed, TxRecord, HeaderRegion, ApplyAll;
    var n := |Journaled(tx)|;
    JournalWritten(tx, j0, n);
    assert JournalSteps(tx)[..n + 1] == JournalSteps(tx);
  }

  // ----- the main file being overwritten -----

  lemma PageOp(tx: Tx, i: nat)
    requires WellFormed(tx) && i < |tx.dirty|
    ensures var n := SortedKeys(tx.dirty.Keys)[i];
            n in tx.dirty && Ops(PageSteps(tx, |tx.dirty|))[i] == Write(PageOffset(tx.pageSize, n), tx.dirty[n])
  {
    hide WellFormed, SortedKeys;
  }

  lemma PartlyWritten(tx: Tx, k: nat, image: seq<Byte>)
    requires WellFormed(tx) && k <= |tx.dirty|
    requires SurvivesAs(File(tx.pre, Ops(PageSteps(tx, |tx.dirty|)[..k])), image)
    ensures Near(tx, image)
  {
    hide WellFormed, SortedKeys, Near, PageSteps;
    var ops := Ops(PageSteps(tx, |tx.dirty|)[..k]);
    forall x: seq<Byte>, i | Near(tx, x) && 0 <= i < |ops| ensures Near(tx, Apply(x, ops[i])) {
      PageOp(tx, i);
      NearKept(tx, x, ops[i]);
    }
    PreIsNear(tx);
    SurvivorKeeps(File(tx.pre, ops), image, x => Near(tx, x));
  }

  lemma PostIsNear(tx: Tx)
    requires WellFormed(tx)
    ensures Near(tx, PostImage(tx))
  {
    hide WellFormed, SortedKeys, Near, PageSteps;
    var ops := Ops(PageSteps(tx, |tx.dirty|));
    forall x: seq<Byte>, i | Near(tx, x) && 0 <= i < |ops| ensures Near(tx, Apply(x, ops[i])) {
      PageOp(tx, i);
      NearKept(tx, x, ops[i]);
    }
    PreIsNear(tx);
    AllKeep(tx.pre, ops, x => Near(tx, x));
  }

  // ----- one commit -----

  ghost function JournalBytes(d: Disk): seq<Byte> {
    if d.journal.None? then [] else d.journal.value.durable
  }

  lemma CommitStepsShape(tx: Tx)
    requires WellFormed(tx) && Journaled(tx) != []
    ensures CommitSteps(tx) ==
            [JournalOpen] + JournalSteps(tx) + [JournalSync] + PageSteps(tx, |tx.dirty|) + [DbSync, JournalDelete]
  {
    hide Journaled, WellFormed, HeaderRegion, PageSteps, RecordSteps;
  }

  /** While the journal is being written, the main file is untouched. */
  lemma JournalPhase(tx: Tx, d: Disk, k: nat)
    requires WellFormed(tx) && Clean(tx, d) && k <= |JournalSteps(tx)|
    ensures Run(d, [JournalOpen] + JournalSteps(tx)[..k]) ==
            d.(journal := Some(File(JournalBytes(d), Ops(JournalSteps(tx)[..k]))))
  {
    hide WellFormed, Leftover, JournalSteps, Run;
    var j := JournalSteps(tx)[..k];
    RunConcat(d, [JournalOpen], j);
    RunTwo(d, JournalOpen, JournalOpen);
    var started := Run(d, [JournalOpen]);
    RunJournalWrites(started, j);
    assert started.journal.value.pending + Ops(j) == Ops(j);
  }

  lemma SyncPhase(tx: Tx, d: Disk) returns (img: seq<Byte>)
    requires WellFormed(tx) && Clean(tx, d)
    ensures Complete(tx, img)
    ensures Run(d, [JournalOpen] + JournalSteps(tx) + [JournalSync]) == d.(journal := Some(File(img, [])))
  {
    hide WellFormed, Leftover, JournalSteps, Run, Complete, ApplyAll;
    var j := JournalSteps(tx);
    assert j[..|j|] == j;
    JournalPhase(tx, d, |j|);
    RunConcat(d, [JournalOpen] + j, [JournalSync]);
    RunTwo(Run(d, [JournalOpen] + j), JournalSync, JournalSync);
    img := ApplyAll(JournalBytes(d), Ops(j));
    SyncedJournalComplete(tx, JournalBytes(d));
  }

  lemma WritePhase(tx: Tx, d: Disk, k: nat) returns (img: seq<Byte>)
    requires WellFormed(tx) && Clean(tx, d) && k <= |tx.dirty|
    ensures Complete(tx, img)
    ensures Run(d, [JournalOpen] + JournalSteps(tx) + [JournalSync] + PageSteps(tx, |tx.dirty|)[..k]) ==
            Disk(File(tx.pre, Ops(PageSteps(tx, |tx.dirty|)[..k])), Some(File(img, [])))
  {
    hide WellFormed, Leftover, JournalSteps, Run, Complete;
    var p := PageSteps(tx, |tx.dirty|)[..k];
    img := SyncPhase(tx, d);
    var synced := [JournalOpen] + JournalSteps(tx) + [JournalSync];
    RunConcat(d, synced, p);
    RunDbOnly(Run(d, synced), p);
    assert [] + Ops(p) == Ops(p);
  }

  ghost predicate SaltSafe(tx: Tx, d: Disk)
    requires WellFormed(tx)
  {
    tx.nonce != 0 || (|Journaled(tx)| == 1 && d.journal.None?)
  }

  lemma CleanIsHarmless(tx: Tx, d: Disk)
    requires WellFormed(tx) && Clean(tx, d) && SaltSafe(tx, d)
    ensures Harmless(tx, JournalBytes(d))
  {
    hide Journaled, WellFormed;
    if d.journal.None? {
      forall i: nat ensures !(Slot(tx, i) + RecordLen(tx.pageSize) <= 0) { SlotOrder(tx, i, i); }
    }
  }

  /** Losing power while the journal is written or synced, or the main file overwritten, leaves a
      disk that rolls back. */
  lemma CutBeforeDelete(tx: Tx, d: Disk, n: nat, d': Disk)
    requires WellFormed(tx) && Journaled(tx) != [] && Clean(tx, d) && SaltSafe(tx, d)
    requires n < |CommitSteps(tx)| && PowerCut(Run(d, CommitSteps(tx)[..n]), d')
    ensures RollsBack(tx, d')
  {
    hide Journaled, WellFormed, Leftover, JournalSteps, PageSteps, Run, Complete, Quiet, NoBlankAccepted, Near;
    hide SurvivesAs, CommitSteps, SaltSafe;
    CommitStepsShape(tx);
    CleanIsHarmless(tx, d);
    var steps, j, p := CommitSteps(tx), JournalSteps(tx), PageSteps(tx, |tx.dirty|);
    if n == 0 {
      assert steps[..0] == [];
      CutAtRest(tx, d, d');
    } else if n <= 1 + |j| {
      assert steps[..n] == [JournalOpen] + j[..n - 1];
      JournalPhase(tx, d, n - 1);
      SyncedSurvives(tx.pre, d'.db.durable);
      SaltSplit(tx, d);
      UnsyncedJournal(tx, JournalBytes(d), n - 1, d'.journal.value.durable);
    } else if n <= 2 + |j| + |p| {
      var k := n - 2 - |j|;
      assert steps[..n] == [JournalOpen] + j + [JournalSync] + p[..k];
      var img := WritePhase(tx, d, k);
      SyncedSurvives(img, d'.journal.value.durable);
      PartlyWritten(tx, k, d'.db.durable);
    } else {
      var all := [JournalOpen] + j + [JournalSync] + p;
      assert steps[..n] == all + [DbSync];
      var img := WrittenPhase(tx, d);
      SyncedSurvives(img, d'.journal.value.durable);
      SyncedSurvives(PostImage(tx), d'.db.durable);
      PostIsNear(tx);
    }
  }

  lemma SaltSplit(tx: Tx, d: Disk)
    requires WellFormed(tx) && SaltSafe(tx, d)
    ensures tx.nonce != 0 || |Journaled(tx)| == 1
  {
  }

  lemma CutAtRest(tx: Tx, d: Disk, d': Disk)
    requires WellFormed(tx) && Clean(tx, d) && Harmless(tx, JournalBytes(d)) && PowerCut(Run(d, []), d')
    ensures RollsBack(tx, d')
  {
    hide WellFormed, Leftover, Quiet, NoBlankAccepted, Complete, Near, SurvivesAs;
    SyncedSurvives(d.db.durable, d'.db.durable);
    if d.journal.Some? { SyncedSurvives(d.journal.value.durable, d'.journal.value.durable); }
  }

  /** The commit just after the main file's `sync`. */
  lemma WrittenPhase(tx: Tx, d: Disk) returns (img: seq<Byte>)
    requires WellFormed(tx) && Clean(tx, d)
    ensures Complete(tx, img)
    ensures Run(d, [JournalOpen] + JournalSteps(tx) + [JournalSync] + PageSteps(tx, |tx.dirty|) + [DbSync]) ==
            Disk(File(PostImage(tx), []), Some(File(img, [])))
  {
    hide WellFormed, Leftover, JournalSteps, PageSteps, Run, Complete, ApplyAll;
    var p := PageSteps(tx, |tx.dirty|);
    assert p[..|p|] == p;
    img := WritePhase(tx, d, |tx.dirty|);
    var all := [JournalOpen] + JournalSteps(tx) + [JournalSync] + p;
    RunConcat(d, all, [DbSync]);
    RunTwo(Run(d, all), DbSync, DbSync);
  }

  /** A commit that runs to its end leaves the new file, synced, and no journal. */
  lemma CommitCompletes(tx: Tx, d: Disk)
    requires WellFormed(tx) && Journaled(tx) != [] && Clean(tx, d)
    ensures Run(d, CommitSteps(tx)) == Disk(File(PostImage(tx), []), None)
  {
    hide Journaled, WellFormed, Leftover, JournalSteps, PageSteps, Run, Complete, CommitSteps, PostImage;
    CommitStepsShape(tx);
    var img := WrittenPhase(tx, d);
    var all := [JournalOpen] + JournalSteps(tx) + [JournalSync] + PageSteps(tx, |tx.dirty|) + [DbSync];
    assert CommitSteps(tx) == all + [JournalDelete];
    RunConcat(d, all, [JournalDelete]);
    RunTwo(Run(d, all), JournalDelete, JournalDelete);
  }

  // ----- exactly when one commit is atomic -----

  function Reopened(d: Disk): (r: Disk)
    requires OpenSteps(d).Ok?
  {
    Run(d, OpenSteps(d).value)
  }

  /** Cut the power after `n` steps of the commit: whatever survives, the next open finds the old
      file if the journal had not been deleted yet and the new one otherwise. */
  ghost predicate AllOrNothing(tx: Tx, d: Disk)
    requires WellFormed(tx)
  {
    forall n: nat, d' :: n <= |CommitSteps(tx)| && PowerCut(Run(d, CommitSteps(tx)[..n]), d') ==>
      && OpenSteps(d').Ok?
      && Reopened(d').db == File(if n < |CommitSteps(tx)| then tx.pre else PostImage(tx), [])
  }

  lemma CommitAtomic(tx: Tx, d: Disk)
    requires WellFormed(tx) && Journaled(tx) != [] && Clean(tx, d) && SaltSafe(tx, d)
    ensures AllOrNothing(tx, d)
  {
    hide Journaled, WellFormed, Leftover, CommitSteps, PostImage, Run, RollsBack, SaltSafe, OpenSteps;
    forall n: nat, d' | n <= |CommitSteps(tx)| && PowerCut(Run(d, CommitSteps(tx)[..n]), d')
      ensures OpenSteps(d').Ok?
      ensures Reopened(d').db == File(if n < |CommitSteps(tx)| then tx.pre else PostImage(tx), [])
    {
      if n < |CommitSteps(tx)| {
        CutBeforeDelete(tx, d, n, d');
        OpenRollsBack(tx, d');
      } else {
        assert CommitSteps(tx)[..n] == CommitSteps(tx);
        CommitCompletes(tx, d);
        SyncedSurvives(PostImage(tx), d'.db.durable);
        NothingToRecover(d');
      }
    }
  }

  lemma NothingToRecover(d: Disk)
    requires d.journal.None?
    ensures OpenSteps(d) == Ok([]) && Reopened(d) == d
  {
  }

  /** The journal left when the write of the first record is lost and the second survives. */
  ghost function TornJournal(tx: Tx): (r: seq<Byte>)
    requires WellFormed(tx) && |Journaled(tx)| >= 2
  {
    WriteAt(WriteAt([], 0, HeaderRegion(tx)), Slot(tx, 1), TxRecord(tx, 1))
  }

  lemma TornJournalReads(tx: Tx)
    requires WellFormed(tx) && |Journaled(tx)| >= 2
    ensures var j := TornJournal(tx);
            && HeaderIs(tx, j)
            && |j| == Slot(tx, 1) + RecordLen(tx.pageSize)
            && Slot(tx, 0) + RecordLen(tx.pageSize) == Slot(tx, 1)
            && SlotAt(tx, j, 0) == Zeros(RecordLen(tx.pageSize))
            && SlotAt(tx, j, 1) == TxRecord(tx, 1)
  {
    hide Journaled, PrePage, WellFormed, HeaderRegion, TxRecord, WriteAt, SlotOffset, Slot;
    SlotOrder(tx, 0, 1);
    SlotOrder(tx, 1, 1);
    var h := WriteAt([], 0, HeaderRegion(tx));
    var j := TornJournal(tx);
    var l := RecordLen(tx.pageSize);
    WriteAtSlices([], 0, HeaderRegion(tx), 0, tx.pageSize);
    WriteAtSlices(h, Slot(tx, 1), TxRecord(tx, 1), 0, tx.pageSize);
    assert j[0..tx.pageSize] == j[..tx.pageSize];
    assert Slot(tx, 0) == tx.pageSize by { FirstSlot(tx); }
    WriteAtSlices(h, Slot(tx, 1), TxRecord(tx, 1), Slot(tx, 0), Slot(tx, 0) + l);
  }

  lemma FirstSlot(tx: Tx)
    ensures Slot(tx, 0) == tx.pageSize
  {
  }

  lemma TornJournalReplay(tx: Tx)
    requires WellFormed(tx) && |Journaled(tx)| >= 2 && tx.nonce == 0
    ensures var m := Journaled(tx)[1];
            Replay(TornJournal(tx), TxHeader(tx), 0) ==
            [DbWrite(0, Zeros(tx.pageSize)), DbWrite(PageOffset(tx.pageSize, m), PrePage(tx, m))]
  {
    hide Journaled, PrePage, WellFormed, TornJournal, RecordWrite, SlotOffset, Slot, HeaderIs;
    var j, h := TornJournal(tx), TxHeader(tx);
    TornJournalReads(tx);
    BlankSlotReads(tx, j, 0);
    WholeSlotReads(tx, j, 1);
    SlotOrder(tx, 1, 2);
    PastEnd(tx, j, 2);
    assert Replay(j, h, 2) == [];
    assert Replay(j, h, 1) == [RecordWrite(j, h, 1).value] + Replay(j, h, 2);
  }

  lemma PastEnd(tx: Tx, img: seq<Byte>, i: nat)
    requires WellFormed(tx) && Slot(tx, i) + RecordLen(tx.pageSize) > |img|
    ensures RecordWrite(img, TxHeader(tx), i) == None
  {
    hide Journaled;
  }

  /** With a zero salt and two records to lose one of, the next open overwrites page 1 with zeros. */
  lemma ZeroSaltNotAtomic(tx: Tx)
    requires WellFormed(tx) && |Journaled(tx)| >= 2 && tx.nonce == 0
    ensures !AllOrNothing(tx, Disk(File(tx.pre, []), None))
  {
    hide Journaled, PrePage, WellFormed, TornJournal, Replay, HeaderIs, CommitSteps, Run, JournalSteps, SurvivesAs;
    hide OpenSteps;
    var d := Disk(File(tx.pre, []), None);
    var d' := Disk(File(tx.pre, []), Some(File(TornJournal(tx), [])));
    CommitStepsShape(tx);
    var steps := CommitSteps(tx);
    assert steps[..4] == [JournalOpen] + JournalSteps(tx)[..3];
    JournalPhase(tx, d, 3);
    TornSurvives(tx);
    AtRestSurvives(tx.pre);
    assert PowerCut(Run(d, steps[..4]), d');
    TornOpenDamages(tx, d');
    var after := Reopened(d').db;
    assert after != File(tx.pre, []);
  }

  lemma AtRestSurvives(data: seq<Byte>)
    ensures SurvivesAs(File(data, []), data)
  {
    var keep: seq<bool> := [];
    assert data == ApplyAll(data, Kept([], keep));
  }

  lemma TornSurvives(tx: Tx)
    requires WellFormed(tx) && |Journaled(tx)| >= 2
    ensures SurvivesAs(File([], Ops(JournalSteps(tx)[..3])), TornJournal(tx))
  {
    hide Journaled, PrePage, WellFormed, HeaderRegion, TxRecord, WriteAt, SlotOffset, Slot;
    var ops := Ops(JournalSteps(tx)[..3]);
    RecordStepOp(tx, 0);
    RecordStepOp(tx, 1);
    var h, r0, r1 := Write(0, HeaderRegion(tx)), ops[1], Write(Slot(tx, 1), TxRecord(tx, 1));
    assert ops == [h, r0, r1];
    KeepOuter(h, r0, r1);
    ApplyAllSnoc([], [h], r1);
    ApplyAllSnoc([], [], h);
    assert [] + [h] == [h] && [h] + [r1] == [h, r1];
    assert TornJournal(tx) == ApplyAll([], [h, r1]);
  }

  lemma KeepOuter(a: Op, b: Op, c: Op)
    ensures Kept([a, b, c], [true, false, true]) == [a, c]
  {
    assert [a, b, c][..2] == [a, b] && [true, false, true][..2] == [true, false];
    assert [a, b][..1] == [a] && [true, false][..1] == [true];
    assert Kept([a], [true]) == [a];
    assert Kept([a, b], [true, false]) == [a];
  }

  lemma TornOpenDamages(tx: Tx, d: Disk)
    requires WellFormed(tx) && |Journaled(tx)| >= 2 && tx.nonce == 0
    requires d == Disk(File(tx.pre, []), Some(File(TornJournal(tx), [])))
    ensures OpenSteps(d).Ok? && Reopened(d).db.durable != tx.pre
  {
    hide Journaled, PrePage, WellFormed, TornJournal, Replay, HeaderIs, Run, JournalSteps, ApplyAll, PageOffset, Hot;
    hide ParseHeader;
    var j := TornJournal(tx);
    TornJournalReads(tx);
    HeaderIsParses(tx, j);
    TornJournalReplay(tx);
    var m := Journaled(tx)[1];
    assert Journaled(tx)[0] < m;
    var w := [DbWrite(0, Zeros(tx.pageSize)), DbWrite(PageOffset(tx.pageSize, m), PrePage(tx, m))];
    var dbSteps := w + [DbSetLen(|tx.pre|)];
    assert d.journal.value.Contents() == j by { NoOps(j); }
    assert OpenSteps(d).value == dbSteps + [DbSync, JournalDelete] by { SetLenIsPre(tx); }
    RunConcat(d, dbSteps, [DbSync, JournalDelete]);
    RunDbOnly(d, dbSteps);
    assert d.db.pending + Ops(dbSteps) == Ops(dbSteps);
    RunTwo(Run(d, dbSteps), DbSync, JournalDelete);
    assert Ops(dbSteps) == [Write(0, Zeros(tx.pageSize)), Write(PageOffset(tx.pageSize, m), PrePage(tx, m)),
           SetLen(|tx.pre|)];
    DamagedContents(tx, m);
  }

  lemma SetLenIsPre(tx: Tx)
    requires WellFormed(tx)
    ensures Times(TxHeader(tx).initialPageCount, TxHeader(tx).pageSize) == |tx.pre|
  {
  }

  lemma DamagedContents(tx: Tx, m: nat)
    requires WellFormed(tx) && 2 <= m <= PageCount(tx)
    ensures ApplyAll(tx.pre, [Write(0, Zeros(tx.pageSize)), Write(PageOffset(tx.pageSize, m), PrePage(tx, m)),
            SetLen(|tx.pre|)])
            != tx.pre
  {
    var a, b, c := Write(0, Zeros(tx.pageSize)), Write(PageOffset(tx.pageSize, m), PrePage(tx, m)), SetLen(|tx.pre|);
    ApplyAllSnoc(tx.pre, [a, b], c);
    ApplyAllSnoc(tx.pre, [a], b);
    ApplyAllSnoc(tx.pre, [], a);
    assert [] + [a] == [a] && [a] + [b] == [a, b] && [a, b] + [c] == [a, b, c];
    var x := Apply(tx.pre, a);
    var y := Apply(x, b);
    assert PageOffset(tx.pageSize, m) >= tx.pageSize by {
      TimesMono(1, m - 1, tx.pageSize);
      assert Times(1, tx.pageSize) == Times(0, tx.pageSize) + tx.pageSize;
    }
    assert x[28] == 0 && x[29] == 0 && x[30] == 0 && x[31] == 0;
    assert y[28] == 0 && y[29] == 0 && y[30] == 0 && y[31] == 0;
    var z := Apply(y, c);
    assert ReadBe32(z, PAGE_COUNT_OFFSET) == 0;
  }

  /** Exactly when a journaled commit, started with no journal file present, is all-or-nothing
      under every power cut: its salt is not zero, or it journals a single page. */
  lemma CommitAtomicIff(tx: Tx)
    requires WellFormed(tx) && Journaled(tx) != []
    ensures AllOrNothing(tx, Disk(File(tx.pre, []), None)) <==> (tx.nonce != 0 || |Journaled(tx)| == 1)
  {
    hide Journaled, WellFormed, AllOrNothing;
    var d := Disk(File(tx.pre, []), None);
    if tx.nonce != 0 || |Journaled(tx)| == 1 {
      CommitAtomic(tx, d);
    } else {
      ZeroSaltNotAtomic(tx);
    }
  }

  // ----- what the new file holds -----

  lemma {:induction false} WrittenPrefix(tx: Tx, k: nat)
    requires WellFormed(tx) && k <= |tx.dirty|
    ensures var r := ApplyAll(tx.pre, Ops(PageSteps(tx, |tx.dirty|))[..k]); var keys := SortedKeys(tx.dirty.Keys);
            forall i :: 0 <= i < k ==> keys[i] in tx.dirty && PageIs(tx.pageSize, r, keys[i], tx.dirty[keys[i]])
  {
    hide WellFormed, SortedKeys, PageSteps, PageIs, PageOffset, ApplyAll, WriteAt;
    var ops, keys := Ops(PageSteps(tx, |tx.dirty|)), SortedKeys(tx.dirty.Keys);
    if k > 0 {
      WrittenPrefix(tx, k - 1);
      PageOp(tx, k - 1);
      assert ops[..k] == ops[..k - 1] + [ops[k - 1]];
      ApplyAllSnoc(tx.pre, ops[..k - 1], ops[k - 1]);
      var n := keys[k - 1];
      DirtyPage(tx, n);
      WritePage(tx.pageSize, ApplyAll(tx.pre, ops[..k - 1]), n, tx.dirty[n]);
      forall i | 0 <= i < k - 1 ensures 1 <= keys[i] != n { assert keys[i] in tx.dirty; DirtyPage(tx, keys[i]); }
    }
  }

  lemma DirtyPage(tx: Tx, n: nat)
    requires WellFormed(tx) && n in tx.dirty
    ensures 1 <= n <= U32_MAX && |tx.dirty[n]| == tx.pageSize
  {
  }

  /** Every dirty page reads as written; every other old page reads as before. */
  lemma PostImageReads(tx: Tx, n: nat)
    requires WellFormed(tx) && n >= 1
    ensures n in tx.dirty ==> PageIs(tx.pageSize, PostImage(tx), n, tx.dirty[n])
    ensures n !in tx.dirty && n <= PageCount(tx) ==> PageIs(tx.pageSize, PostImage(tx), n, PrePage(tx, n))
  {
    hide WellFormed, SortedKeys, PageSteps, PageIs, PageOffset, ApplyAll, PrePage;
    var ops := Ops(PageSteps(tx, |tx.dirty|));
    assert ops[..|tx.dirty|] == ops;
    WrittenPrefix(tx, |tx.dirty|);
    PostIsNear(tx);
    if n in tx.dirty {
      assert n in SortedKeys(tx.dirty.Keys);
      var i :| 0 <= i < |SortedKeys(tx.dirty.Keys)| && SortedKeys(tx.dirty.Keys)[i] == n;
    }
  }

  // ----- a commit that journals nothing -----

  ghost predicate OldOrNew(tx: Tx)
    requires WellFormed(tx)
  {
    forall n: nat, d' :: n <= |CommitSteps(tx)| && PowerCut(Run(Disk(File(tx.pre, []), None), CommitSteps(tx)[..n]),
      d') ==>
      OpenSteps(d').Ok? && (Reopened(d').db.durable == tx.pre || Reopened(d').db.durable == PostImage(tx))
  }

  /** A commit whose dirty pages all lie past the old end of the file writes no journal; it is safe
      only if there is at most one page to write. */
  lemma UnjournaledAtomicIff(tx: Tx)
    requires WellFormed(tx) && Journaled(tx) == []
    ensures OldOrNew(tx) <==> |tx.dirty| <= 1
  {
    hide Journaled, WellFormed, PageSteps, Run, SurvivesAs, PostImage, OpenSteps, CommitSteps;
    if |tx.dirty| <= 1 {
      forall n: nat, d' | n <= |CommitSteps(tx)| && PowerCut(Run(Disk(File(tx.pre, []), None), CommitSteps(tx)[..n]),
        d')
        ensures OpenSteps(d').Ok? && (Reopened(d').db.durable == tx.pre || Reopened(d').db.durable == PostImage(tx))
      {
        SmallUnjournaledCut(tx, n, d');
        NothingToRecover(d');
      }
    } else {
      LargeUnjournaledCut(tx);
    }
  }

  lemma LargeUnjournaledCut(tx: Tx)
    requires WellFormed(tx) && Journaled(tx) == [] && |tx.dirty| >= 2
    ensures !OldOrNew(tx)
  {
    hide Journaled, WellFormed, PageSteps, Run, SurvivesAs, PostImage, OpenSteps;
    var d, p := Disk(File(tx.pre, []), None), PageSteps(tx, |tx.dirty|);
    var x := UnjournaledHalf(tx);
    var d' := Disk(File(x, []), None);
    assert CommitSteps(tx)[..1] == p[..1];
    RunDbOnly(d, p[..1]);
    assert [] + Ops(p[..1]) == Ops(p[..1]);
    assert PowerCut(Run(d, CommitSteps(tx)[..1]), d');
    NothingToRecover(d');
    assert Reopened(d').db.durable == x;
  }

  lemma SmallUnjournaledCut(tx: Tx, n: nat, d': Disk)
    requires WellFormed(tx) && Journaled(tx) == [] && |tx.dirty| <= 1 && n <= |CommitSteps(tx)|
    requires PowerCut(Run(Disk(File(tx.pre, []), None), CommitSteps(tx)[..n]), d')
    ensures d'.journal.None? && (d'.db.durable == tx.pre || d'.db.durable == PostImage(tx))
  {
    hide Journaled, WellFormed, PageSteps, Run, SurvivesAs, PostImage, ApplyAll, CommitSteps, Ops;
    var d, p := Disk(File(tx.pre, []), None), PageSteps(tx, |tx.dirty|);
    UnjournaledSteps(tx);
    if n <= |p| {
      assert CommitSteps(tx)[..n] == p[..n];
      RunDbOnly(d, p[..n]);
      assert [] + Ops(p[..n]) == Ops(p[..n]);
      if n == 1 {
        assert p[..1] == p;
        OneOpSurvives(tx.pre, Ops(p), d'.db.durable);
      } else {
        assert p[..n] == [] && Ops([]) == [];
        SyncedSurvives(tx.pre, d'.db.durable);
      }
    } else {
      assert CommitSteps(tx)[..n] == p + [DbSync];
      RunConcat(d, p, [DbSync]);
      RunDbOnly(d, p);
      assert [] + Ops(p) == Ops(p);
      RunTwo(Run(d, p), DbSync, DbSync);
      SyncedSurvives(PostImage(tx), d'.db.durable);
    }
  }

  lemma UnjournaledSteps(tx: Tx)
    requires WellFormed(tx) && Journaled(tx) == []
    ensures var p := PageSteps(tx, |tx.dirty|);
            CommitSteps(tx) == p + [DbSync] && |p| == |tx.dirty| == |Ops(p)| &&
              PostImage(tx) == ApplyAll(tx.pre, Ops(p))
  {
    hide Journaled, WellFormed, ApplyAll;
  }

  lemma OneOpSurvives(data: seq<Byte>, ops: seq<Op>, image: seq<Byte>)
    requires |ops| == 1 && SurvivesAs(File(data, ops), image)
    ensures image == data || image == ApplyAll(data, ops)
  {
    hide ApplyAll;
    var keep: seq<bool> :| |keep| == |ops| && image == ApplyAll(data, Kept(ops, keep));
    assert ops[..0] == [] && keep[..0] == [];
    assert Kept(ops[..0], keep[..0]) == [];
    if keep[0] {
      assert Kept(ops, keep) == [ops[0]] == ops;
    } else {
      assert Kept(ops, keep) == [];
      NoOps(data);
    }
  }

  lemma UnjournaledHalf(tx: Tx) returns (x: seq<Byte>)
    requires WellFormed(tx) && Journaled(tx) == [] && |tx.dirty| >= 2
    ensures SurvivesAs(File(tx.pre, Ops(PageSteps(tx, |tx.dirty|)[..1])), x)
    ensures x != tx.pre && x != PostImage(tx)
  {
    hide Journaled, SortedKeys, PageSteps, ApplyAll, SurvivesAs, PostImage, PageOffset, PageIs, WellFormed;
    var keys := SortedKeys(tx.dirty.Keys);
    var a, b := keys[0], keys[1];
    PageOp(tx, 0);
    var op := Write(PageOffset(tx.pageSize, a), tx.dirty[a]);
    assert Ops(PageSteps(tx, |tx.dirty|)[..1]) == [op];
    x := Apply(tx.pre, op);
    AllSurvives(tx.pre, op);
    assert a in keys && b in keys;
    DirtyPage(tx, a);
    DirtyPage(tx, b);
    NewPage(tx, a);
    PostImageReads(tx, b);
    GrownByOne(tx.pageSize, tx.pre, PageCount(tx), a, b, tx.dirty[a]);
    assert !PageIs(tx.pageSize, x, b, tx.dirty[b]);
  }

  lemma NewPage(tx: Tx, n: nat)
    requires WellFormed(tx) && Journaled(tx) == [] && n in tx.dirty
    ensures n > PageCount(tx) && |tx.pre| == Times(PageCount(tx), tx.pageSize) && tx.pageSize > 0
  {
    assert n !in Journaled(tx);
  }

  /** A page written past the end makes the file longer, but not long enough to hold a later page. */
  lemma GrownByOne(ps: nat, pre: seq<Byte>, count: nat, a: nat, b: nat, page: seq<Byte>)
    requires |pre| == Times(count, ps) && count < a < b && |page| == ps > 0
    ensures WriteAt(pre, PageOffset(ps, a), page) != pre
    ensures forall p :: !PageIs(ps, WriteAt(pre, PageOffset(ps, a), page), b, p)
  {
    TimesMono(count, a - 1, ps);
    TimesMono(a, b - 1, ps);
  }

  lemma AllSurvives(data: seq<Byte>, op: Op)
    ensures SurvivesAs(File(data, [op]), Apply(data, op))
  {
    var keep := [true];
    assert [op][..0] == [] && keep[..0] == [] && [] + [op] == [op];
    ApplyAllSnoc(data, [], op);
    assert Apply(data, op) == ApplyAll(data, Kept([op], keep));
  }

  // ----- whole histories -----

  /** What can happen to a database that is only ever changed by this pager, one process at a time. */
  datatype Event =
    | Commit(tx: Tx)
    | CommitCut(tx: Tx, steps: nat)  // power is cut after this many steps of the commit
    | Open
    | OpenCut(steps: nat)

  datatype Machine = Machine(disk: Disk, running: bool)

  /** The commits that are atomic by themselves: journaled, with a salt that keeps blank slots out. */
  ghost predicate MayCommit(ps: nat, m: Machine, tx: Tx) {
    && m.running && WellFormed(tx) && tx.pageSize == ps && tx.pre == m.disk.db.durable
    && Journaled(tx) != [] && SaltSafe(tx, m.disk)
  }

  ghost predicate Next(ps: nat, m: Machine, e: Event, m': Machine) {
    match e
    case Commit(tx) => MayCommit(ps, m, tx) && m' == Machine(Run(m.disk, CommitSteps(tx)), true)
    case CommitCut(tx, n) =>
      MayCommit(ps, m, tx) && n <= |CommitSteps(tx)| && !m'.running &&
        PowerCut(Run(m.disk, CommitSteps(tx)[..n]), m'.disk)
    case Open => !m.running && OpenSteps(m.disk).Ok? && m' == Machine(Reopened(m.disk), true)
    case OpenCut(k) =>
      && !m.running && OpenSteps(m.disk).Ok? && k <= |OpenSteps(m.disk).value|
      && !m'.running && PowerCut(Run(m.disk, OpenSteps(m.disk).value[..k]), m'.disk)
  }

  /** The file as the committed transactions define it, with no notion of journals or power. */
  ghost function Expected(file: seq<Byte>, e: Event): (r: seq<Byte>) {
    match e
    case Commit(tx) => if WellFormed(tx) then PostImage(tx) else file
    case CommitCut(tx, n) => if WellFormed(tx) && n == |CommitSteps(tx)| then PostImage(tx) else file
    case _ => file
  }

  ghost function ExpectedAfter(file: seq<Byte>, es: seq<Event>): (r: seq<Byte>) {
    if es == [] then file else Expected(ExpectedAfter(file, es[..|es| - 1]), es[|es| - 1])
  }

  function IdleTx(ps: nat, file: seq<Byte>): Tx { Tx(ps, file, map[], 1) }

  ghost predicate Settled(ps: nat, d: Disk, file: seq<Byte>) {
    && AtRest(d) && d.db.durable == file
    && (d.journal.Some? ==> WellFormed(IdleTx(ps, file)) && Leftover(IdleTx(ps, file), d.journal.value.durable))
  }

  ghost predicate Recoverable(ps: nat, d: Disk, file: seq<Byte>) {
    || (AtRest(d) && d.db.durable == file && d.journal.None?)
    || exists tx :: WellFormed(tx) && tx.pageSize == ps && tx.pre == file && RollsBack(tx, d)
  }

  ghost predicate Consistent(ps: nat, m: Machine, file: seq<Byte>) {
    if m.running then Settled(ps, m.disk, file) else Recoverable(ps, m.disk, file)
  }

  lemma SamePre(a: Tx, b: Tx, img: seq<Byte>)
    requires WellFormed(a) && WellFormed(b) && a.pageSize == b.pageSize && a.pre == b.pre && Leftover(a, img)
    ensures Leftover(b, img)
  {
    hide WellFormed, PrePage;
    assert forall i :: Slot(a, i) == Slot(b, i);
    assert PageCount(a) == PageCount(b);
    if |img| != 0 {
      var k: nat :| |img| == Slot(a, k);
      assert |img| == Slot(b, k);
    }
    forall i: nat | Slot(b, i) + RecordLen(b.pageSize) <= |img|
      ensures SlotAt(b, img, i) == Zeros(RecordLen(b.pageSize)) || RecordOfPre(b, SlotAt(b, img, i))
    {
      assert SlotAt(a, img, i) == SlotAt(b, img, i);
      if RecordOfPre(a, SlotAt(a, img, i)) { SameRecord(a, b, SlotAt(a, img, i)); }
    }
  }

  lemma SameRecord(a: Tx, b: Tx, slot: seq<Byte>)
    requires WellFormed(a) && WellFormed(b) && a.pageSize == b.pageSize && a.pre == b.pre && RecordOfPre(a, slot)
    ensures RecordOfPre(b, slot)
  {
    var n: nat, nonce: U32 :| 1 <= n <= PageCount(a) && slot == RecordBytes(nonce, n, PrePage(a, n));
    assert PrePage(b, n) == PrePage(a, n);
  }

  lemma SettledIsClean(ps: nat, m: Machine, tx: Tx)
    requires MayCommit(ps, m, tx) && Settled(ps, m.disk, tx.pre)
    ensures Clean(tx, m.disk)
  {
    if m.disk.journal.Some? { SamePre(IdleTx(ps, tx.pre), tx, m.disk.journal.value.durable); }
  }

  lemma CleanIsSettled(tx: Tx, d: Disk)
    requires WellFormed(tx) && Clean(tx, d)
    ensures Settled(tx.pageSize, d, tx.pre)
  {
    if d.journal.Some? { SamePre(tx, IdleTx(tx.pageSize, tx.pre), d.journal.value.durable); }
  }

  lemma NextKeepsConsistent(ps: nat, m: Machine, e: Event, m': Machine, file: seq<Byte>)
    requires Consistent(ps, m, file) && Next(ps, m, e, m')
    ensures Consistent(ps, m', Expected(file, e))
  {
    hide WellFormed, Journaled, Leftover, RollsBack, Clean, CommitSteps, PostImage, Run, OpenSteps, SurvivesAs;
    match e {
      case Commit(tx) =>
        SettledIsClean(ps, m, tx);
        CommitCompletes(tx, m.disk);
      case CommitCut(tx, n) =>
        SettledIsClean(ps, m, tx);
        if n < |CommitSteps(tx)| {
          CutBeforeDelete(tx, m.disk, n, m'.disk);
        } else {
          assert CommitSteps(tx)[..n] == CommitSteps(tx);
          CommitCompletes(tx, m.disk);
          SyncedSurvives(PostImage(tx), m'.disk.db.durable);
        }
      case Open =>
        if m.disk.journal.None? {
          RecoverableAlone(ps, m.disk, file);
          NothingToRecover(m.disk);
        } else {
          var tx :| WellFormed(tx) && tx.pageSize == ps && tx.pre == file && RollsBack(tx, m.disk);
          OpenRollsBack(tx, m.disk);
          CleanIsSettled(tx, m'.disk);
        }
      case OpenCut(k) =>
        if m.disk.journal.None? {
          RecoverableAlone(ps, m.disk, file);
          NothingToRecover(m.disk);
          IdleOpenCut(m.disk, k, m'.disk);
        } else {
          var tx :| WellFormed(tx) && tx.pageSize == ps && tx.pre == file && RollsBack(tx, m.disk);
          OpenRestartable(tx, m.disk, k, m'.disk);
        }
    }
  }

  lemma RecoverableAlone(ps: nat, d: Disk, file: seq<Byte>)
    requires Recoverable(ps, d, file) && d.journal.None?
    ensures AtRest(d) && d.db.durable == file
  {
  }

  lemma IdleOpenCut(d: Disk, k: nat, d': Disk)
    requires AtRest(d) && OpenSteps(d) == Ok([]) && k == 0 && d.journal.None? &&
             PowerCut(Run(d, OpenSteps(d).value[..k]), d')
    ensures d' == d
  {
    assert OpenSteps(d).value[..k] == [];
    SyncedSurvives(d.db.durable, d'.db.durable);
  }

  ghost predicate History(ps: nat, ms: seq<Machine>, es: seq<Event>) {
    |ms| == |es| + 1 && forall i :: 0 <= i < |es| ==> Next(ps, ms[i], es[i], ms[i + 1])
  }

  /** Over every history of commits, power cuts at any step, recoveries and power cuts during
      recovery: whenever the database is open, the main file is exactly what its completed
      transactions make it, and whenever it is closed the next open can recover it. */
  lemma {:induction false} HistoriesAreAtomic(ps: nat, file: seq<Byte>, ms: seq<Machine>, es: seq<Event>)
    requires History(ps, ms, es) && ms[0] == Machine(Disk(File(file, []), None), true)
    ensures Consistent(ps, ms[|es|], ExpectedAfter(file, es))
    ensures ms[|es|].running ==> ms[|es|].disk.db == File(ExpectedAfter(file, es), [])
    decreases |es|
  {
    hide Next, Leftover, WellFormed;
    if es != [] {
      var n := |es| - 1;
      assert es[..n] + [es[n]] == es;
      HistoriesAreAtomic(ps, file, ms[..n + 1], es[..n]);
      NextKeepsConsistent(ps, ms[n], es[n], ms[n + 1], ExpectedAfter(file, es[..n]));
    }
  }

  /** No history gets stuck: a closed database can always be opened, with the expected contents. */
  lemma OpenAlwaysSucceeds(ps: nat, file: seq<Byte>, ms: seq<Machine>, es: seq<Event>)
    requires History(ps, ms, es) && ms[0] == Machine(Disk(File(file, []), None), true)
    requires !ms[|es|].running
    ensures OpenSteps(ms[|es|].disk).Ok?
    ensures Reopened(ms[|es|].disk).db == File(ExpectedAfter(file, es), [])
  {
    hide Next, Leftover, WellFormed, OpenSteps, RollsBack, Run;
    HistoriesAreAtomic(ps, file, ms, es);
    var d, now := ms[|es|].disk, ExpectedAfter(file, es);
    if d.journal.None? {
      RecoverableAlone(ps, d, now);
      NothingToRecover(d);
    } else {
      var tx :| WellFormed(tx) && tx.pageSize == ps && tx.pre == now && RollsBack(tx, d);
      OpenRollsBack(tx, d);
    }
  }
}
