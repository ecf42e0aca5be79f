/** The commit and recovery code paths as they run: loops that issue one I/O operation at a time.
    Each is proved to issue exactly the steps the crash theorems speak about. */
module JournalOps {
  import opened Bytes
  import opened Disk
  import opened Sorting
  import opened Paging
  import opened Journal

  /** The two files behind one connection; `log` lists the operations issued so far. */
  class Vfs {
    var disk: Disk
    ghost var log: seq<Step>
    ghost const base: Disk

    ghost predicate Valid()
      reads this
    {
      disk == Run(base, log)
    }

    constructor (d: Disk)
      ensures Valid() && disk == d && log == []
    {
      disk := d;
      log := [];
      base := d;
    }

    method Perform(s: Step)
      requires Valid()
      modifies this
      ensures Valid() && disk == Do(old(disk), s) && log == old(log) + [s]
    {
      assert (log + [s])[..|log|] == log;
      disk := Do(disk, s);
      log := log + [s];
    }
  }

  lemma LoggedRun(base: Disk, before: seq<Step>, steps: seq<Step>)
    ensures Run(base, before + steps) == Run(Run(base, before), steps)
  {
    RunConcat(base, before, steps);
  }

  lemma RecordStepsSnoc(tx: Tx, i: nat)
    requires WellFormed(tx) && i < |Journaled(tx)|
    ensures RecordSteps(tx, i + 1) == RecordSteps(tx, i) + [JournalWrite(SlotOffset(tx.pageSize, tx.pageSize, i),
            TxRecord(tx, i))]
  {
    hide Journaled, WellFormed, TxRecord, SlotOffset;
  }

  lemma PageStepsSnoc(tx: Tx, i: nat)
    requires WellFormed(tx) && i < |tx.dirty|
    ensures var n := SortedKeys(tx.dirty.Keys)[i];
            && n in tx.dirty && n >= 1
            && PageSteps(tx, i + 1) == PageSteps(tx, i) + [DbWrite(PageOffset(tx.pageSize, n), tx.dirty[n])]
  {
    hide SortedKeys, PageOffset;
    assert SortedKeys(tx.dirty.Keys)[i] in SortedKeys(tx.dirty.Keys);
  }

  /** One journal record: the page's pre-image as it now stands in the main file. */
  method WriteRecord(vfs: Vfs, tx: Tx, i: nat, n: nat)
    requires vfs.Valid() && WellFormed(tx) && i < |Journaled(tx)| && n == Journaled(tx)[i]
    requires vfs.disk.db.Contents() == tx.pre
    modifies vfs
    ensures vfs.Valid() && vfs.disk.db == old(vfs.disk.db)
    ensures vfs.log == old(vfs.log) + [JournalWrite(SlotOffset(tx.pageSize, tx.pageSize, i), TxRecord(tx, i))]
  {
    hide Journaled, SlotOffset, PageChecksum, Run;
    PageFits(tx.pageSize, n, PageCount(tx));
    var off := PageOffset(tx.pageSize, n);
    var original := vfs.disk.db.Contents()[off..off + tx.pageSize];
    var sum := ComputePageChecksum(tx.nonce, original);
    vfs.Perform(JournalWrite(SlotOffset(tx.pageSize, tx.pageSize, i), Be32(n) + original + Be32(sum)));
  }

  /** Writes the zero-padded header and one record per page, then forces the journal out. */
  method WriteJournal(vfs: Vfs, tx: Tx, toJournal: seq<nat>)
    requires vfs.Valid() && WellFormed(tx) && toJournal == Journaled(tx)
    requires vfs.disk.db.Contents() == tx.pre
    modifies vfs
    ensures vfs.Valid()
    ensures vfs.log == old(vfs.log) + [JournalOpen, JournalWrite(0, HeaderRegion(tx))] +
            RecordSteps(tx, |Journaled(tx)|) + [JournalSync]
  {
    hide Journaled, Run, TxRecord, SlotOffset;
    ghost var log0 := vfs.log;
    var header := Header(|toJournal|, tx.nonce, ReadBe32(tx.pre, PAGE_COUNT_OFFSET), tx.pageSize, tx.pageSize);
    vfs.Perform(JournalOpen);
    vfs.Perform(JournalWrite(0, HeaderBytes(header) + Zeros(tx.pageSize - HEADER_LEN)));
    ghost var start := log0 + [JournalOpen, JournalWrite(0, HeaderRegion(tx))];
    assert vfs.log == start + RecordSteps(tx, 0);
    var i := 0;
    while i < |toJournal|
      invariant 0 <= i <= |toJournal|
      invariant vfs.Valid() && vfs.log == start + RecordSteps(tx, i)
      invariant vfs.disk.db.Contents() == tx.pre
    {
      WriteRecord(vfs, tx, i, toJournal[i]);
      RecordStepsSnoc(tx, i);
      assert vfs.log == start + RecordSteps(tx, i + 1);
      i := i + 1;
    }
    vfs.Perform(JournalSync);
  }

  method WritePages(vfs: Vfs, tx: Tx, pageNums: seq<nat>)
    requires vfs.Valid() && WellFormed(tx) && pageNums == SortedKeys(tx.dirty.Keys)
    modifies vfs
    ensures vfs.Valid() && vfs.log == old(vfs.log) + PageSteps(tx, |tx.dirty|)
  {
    hide Run, SortedKeys, PageSteps;
    ghost var log0 := vfs.log;
    assert PageSteps(tx, 0) == [];
    var i := 0;
    while i < |pageNums|
      invariant 0 <= i <= |pageNums| == |tx.dirty|
      invariant vfs.Valid() && vfs.log == log0 + PageSteps(tx, i)
    {
      PageStepsSnoc(tx, i);
      vfs.Perform(DbWrite(PageOffset(tx.pageSize, pageNums[i]), tx.dirty[pageNums[i]]));
      assert vfs.log == log0 + PageSteps(tx, i + 1);
      i := i + 1;
    }
  }

  lemma LogShape(log: seq<Step>, a: seq<Step>, b: seq<Step>, p: seq<Step>)
    ensures log + a + b + [JournalSync] + p + [DbSync] + [JournalDelete] ==
            log + (a + b + [JournalSync] + p + [DbSync, JournalDelete])
  {
  }

  /** `flush_locked` at `synchronous = FULL`. */
  method FlushLocked(vfs: Vfs, tx: Tx)
    requires vfs.Valid() && WellFormed(tx) && vfs.disk.db.Contents() == tx.pre
    modifies vfs
    ensures vfs.Valid() && vfs.log == old(vfs.log) + CommitSteps(tx)
    ensures vfs.disk == Run(old(vfs.disk), CommitSteps(tx))
  {
    hide Run, SortedKeys, PageSteps, RecordSteps, UpTo, HeaderRegion;
    ghost var log0, p := vfs.log, PageSteps(tx, |tx.dirty|);
    var pageNums := SortedKeys(tx.dirty.Keys);
    var toJournal := UpTo(pageNums, ReadBe32(tx.pre, PAGE_COUNT_OFFSET));
    if toJournal != [] {
      WriteJournal(vfs, tx, toJournal);
    }
    WritePages(vfs, tx, pageNums);
    vfs.Perform(DbSync);
    if toJournal != [] {
      vfs.Perform(JournalDelete);
      LogShape(log0, [JournalOpen, JournalWrite(0, HeaderRegion(tx))], RecordSteps(tx, |Journaled(tx)|), p);
    } else {
      assert log0 + p + [DbSync] == log0 + (p + [DbSync]);
    }
    LoggedRun(vfs.base, log0, CommitSteps(tx));
  }

  lemma HotSteps(d: Disk)
    requires d.journal.Some? && Hot(d.journal.value.Contents())
    ensures var j := d.journal.value.Contents();
            && (ParseHeader(j).None? <==> |j| < HEADER_LEN)
            && OpenSteps(d) ==
               (match ParseHeader(j)
                case None => Err(HeaderTooShort(|j|))
                case Some(h) => Ok(Replay(j, h, 0) + [DbSetLen(Times(h.initialPageCount, h.pageSize)), DbSync,
                                JournalDelete]))
  {
    hide Replay, Times, Hot;
  }

  lemma ReplayStep(journal: seq<Byte>, h: Header, index: nat)
    ensures Replay(journal, h, index) ==
            if index >= h.nRec || RecordWrite(journal, h, index).None? then []
            else [RecordWrite(journal, h, index).value] + Replay(journal, h, index + 1)
  {
    hide RecordWrite;
  }

  /** `recover_hot_journal`, run by every open once the journal's magic has been seen. */
  method RecoverHotJournal(vfs: Vfs) returns (r: Result<(), OpenError>)
    requires vfs.Valid() && vfs.disk.journal.Some? && Hot(vfs.disk.journal.value.Contents())
    modifies vfs
    ensures vfs.Valid()
    ensures r.Ok? <==> OpenSteps(old(vfs.disk)).Ok?
    ensures r.Ok? ==> vfs.disk == Run(old(vfs.disk), OpenSteps(old(vfs.disk)).value)
                      && vfs.log == old(vfs.log) + OpenSteps(old(vfs.disk)).value
    ensures r.Err? ==> vfs.disk == old(vfs.disk) && vfs.log == old(vfs.log)
  {
    hide Run, RecordWrite, Times, Replay, OpenSteps, ParseHeader, Hot, Do;
    HotSteps(vfs.disk);
    ghost var d0, log0 := vfs.disk, vfs.log;
    var journal := vfs.disk.journal.value.Contents();
    if |journal| < HEADER_LEN {
      return Err(HeaderTooShort(|journal|));
    }
    var h := ParseHeader(journal).value;
    ghost var all := Replay(journal, h, 0);
    var index := 0;
    while index < h.nRec && RecordWrite(journal, h, index).Some?
      invariant 0 <= index <= |all| && 0 <= index <= h.nRec
      invariant vfs.Valid() && vfs.log == log0 + all[..index]
      invariant Replay(journal, h, index) == all[index..]
    {
      ReplayStep(journal, h, index);
      vfs.Perform(RecordWrite(journal, h, index).value);
      assert all[index..][1..] == all[index + 1..];
      assert all[index] == RecordWrite(journal, h, index).value;
      assert all[..index + 1] == all[..index] + [all[index]];
      index := index + 1;
    }
    ReplayStep(journal, h, index);
    assert all[..index] == all;
    vfs.Perform(DbSetLen(Times(h.initialPageCount, h.pageSize)));
    vfs.Perform(DbSync);
    vfs.Perform(JournalDelete);
    assert vfs.log == log0 + OpenSteps(d0).value;
    LoggedRun(vfs.base, log0, OpenSteps(d0).value);
    r := Ok(());
  }
}
