/** A rollback-journal commit is all-or-nothing: whatever a power cut during the commit, or
    during any number of recoveries after it, leaves behind, the next open that completes finds
    the file as it was before the transaction or as it is after it. */
module Atomicity {
  import opened Bytes
  import opened Disk
  import opened Sorting
  import opened Paging
  import opened Journal

  // ----- what a journal image may hold before its first sync -----

  function Slot(tx: Tx, i: nat): nat { SlotOffset(tx.pageSize, tx.pageSize, i) }

  lemma SlotOrder(tx: Tx, i: nat, j: nat)
    ensures Slot(tx, i + 1) == Slot(tx, i) + RecordLen(tx.pageSize)
    ensures i < j ==> Slot(tx, i) + RecordLen(tx.pageSize) <= Slot(tx, j)
    ensures Slot(tx, i) >= tx.pageSize
  {
    if i < j { TimesMono(i, j, RecordLen(tx.pageSize)); }
  }

  /** A record of some page as it is in `tx.pre`, under any salt: replaying it changes nothing. */
  ghost predicate RecordOfPre(tx: Tx, slot: seq<Byte>)
    requires WellFormed(tx)
  {
    exists n: nat, nonce: U32 :: 1 <= n <= PageCount(tx) && slot == RecordBytes(nonce, n, PrePage(tx, n))
  }

  function SlotAt(tx: Tx, img: seq<Byte>, i: nat): seq<Byte>
    requires Slot(tx, i) + RecordLen(tx.pageSize) <= |img|
  {
    img[Slot(tx, i)..Slot(tx, i) + RecordLen(tx.pageSize)]
  }

  ghost predicate Aligned(tx: Tx, img: seq<Byte>) {
    |img| == 0 || exists k: nat :: |img| == Slot(tx, k)
  }

  ghost predicate SlotsQuiet(tx: Tx, img: seq<Byte>)
    requires WellFormed(tx)
  {
    forall i: nat :: Slot(tx, i) + RecordLen(tx.pageSize) <= |img| ==>
      SlotAt(tx, img, i) == Zeros(RecordLen(tx.pageSize)) || RecordOfPre(tx, SlotAt(tx, img, i))
  }

  predicate HeaderIs(tx: Tx, img: seq<Byte>)
    requires WellFormed(tx)
  {
    tx.pageSize <= |img| && img[..tx.pageSize] == HeaderRegion(tx)
  }

  predicate HeaderBlank(tx: Tx, img: seq<Byte>) {
    |img| == 0 || (tx.pageSize <= |img| && img[..tx.pageSize] == Zeros(tx.pageSize))
  }

  /** Every whole slot is blank or harmless; the header is this transaction's or was never written. */
  ghost predicate Quiet(tx: Tx, img: seq<Byte>)
    requires WellFormed(tx)
  {
    Aligned(tx, img) && SlotsQuiet(tx, img) && (HeaderIs(tx, img) || HeaderBlank(tx, img))
  }

  /** A blank slot inside the file carries checksum 0 over an all-zero page, which only a zero
      salt accepts. */
  ghost predicate NoBlankAccepted(tx: Tx, img: seq<Byte>)
    requires WellFormed(tx)
  {
    tx.nonce != 0 || forall i: nat :: i < |Journaled(tx)| && Slot(tx, i) + RecordLen(tx.pageSize) <= |img| ==>
                                        RecordOfPre(tx, SlotAt(tx, img, i))
  }

  lemma HeaderWriteKeepsQuiet(tx: Tx, img: seq<Byte>)
    requires WellFormed(tx) && Quiet(tx, img)
    ensures Quiet(tx, WriteAt(img, 0, HeaderRegion(tx)))
  {
    hide Journaled, PrePage, RecordOfPre, HeaderRegion;
    var r := WriteAt(img, 0, HeaderRegion(tx));
    assert r[..tx.pageSize] == HeaderRegion(tx);
    assert Slot(tx, 0) == tx.pageSize;
    if |img| != 0 {
      var k: nat :| |img| == Slot(tx, k);
      SlotOrder(tx, k, k);
    }
    forall i: nat | Slot(tx, i) + RecordLen(tx.pageSize) <= |r|
      ensures Slot(tx, i) + RecordLen(tx.pageSize) <= |img| && SlotAt(tx, r, i) == SlotAt(tx, img, i)
    {
      SlotOrder(tx, i, i);
    }
  }

  lemma TxRecordOfPre(tx: Tx, i: nat)
    requires WellFormed(tx) && i < |Journaled(tx)|
    ensures RecordOfPre(tx, TxRecord(tx, i))
  {
  }

  lemma RecordWriteSlot(tx: Tx, img: seq<Byte>, i: nat, j: nat)
    requires WellFormed(tx) && Aligned(tx, img) && SlotsQuiet(tx, img) && i < |Journaled(tx)|
    requires Slot(tx, j) + RecordLen(tx.pageSize) <= |WriteAt(img, Slot(tx, i), TxRecord(tx, i))|
    ensures var slot := SlotAt(tx, WriteAt(img, Slot(tx, i), TxRecord(tx, i)), j);
            slot == Zeros(RecordLen(tx.pageSize)) || RecordOfPre(tx, slot)
  {
    hide Journaled, PrePage, WellFormed, WriteAt, TxRecord, RecordOfPre, SlotOffset, Slot;
    var l := RecordLen(tx.pageSize);
    var r := WriteAt(img, Slot(tx, i), TxRecord(tx, i));
    SlotOrder(tx, i, j);
    SlotOrder(tx, j, i);
    WriteAtSlices(img, Slot(tx, i), TxRecord(tx, i), Slot(tx, j), Slot(tx, j) + l);
    if j == i {
      assert SlotAt(tx, r, i) == TxRecord(tx, i);
      TxRecordOfPre(tx, i);
    } else if Slot(tx, j) + l <= |img| {
      assert SlotAt(tx, r, j) == SlotAt(tx, img, j);
    } else {
      if |img| != 0 {
        var k: nat :| |img| == Slot(tx, k);
        SlotOrder(tx, j, k);
        SlotOrder(tx, k, j);
      }
      assert |img| <= Slot(tx, j);
      assert SlotAt(tx, r, j) == Zeros(l);
    }
  }

  lemma RecordWriteKeepsQuiet(tx: Tx, img: seq<Byte>, i: nat)
    requires WellFormed(tx) && Quiet(tx, img) && i < |Journaled(tx)|
    ensures Quiet(tx, WriteAt(img, Slot(tx, i), TxRecord(tx, i)))
  {
    hide Journaled, PrePage, WellFormed, TxRecord, RecordOfPre, SlotOffset, Slot, HeaderRegion;
    var r := WriteAt(img, Slot(tx, i), TxRecord(tx, i));
    SlotOrder(tx, i, i);
    assert |r| == Max(|img|, Slot(tx, i + 1));
    assert Aligned(tx, r);
    if |img| != 0 {
      assert r[..tx.pageSize] == img[..tx.pageSize] by {
        var k: nat :| |img| == Slot(tx, k);
        SlotOrder(tx, k, k);
      }
    } else {
      assert r[..tx.pageSize] == Zeros(tx.pageSize);
    }
    forall j: nat | Slot(tx, j) + RecordLen(tx.pageSize) <= |r|
      ensures SlotAt(tx, r, j) == Zeros(RecordLen(tx.pageSize)) || RecordOfPre(tx, SlotAt(tx, r, j))
    {
      RecordWriteSlot(tx, img, i, j);
    }
  }

  // ----- replaying a quiet or a complete journal -----

  ghost predicate Restores(tx: Tx, s: Step)
    requires WellFormed(tx)
  {
    exists n: nat :: 1 <= n <= PageCount(tx) && s == DbWrite(PageOffset(tx.pageSize, n), PrePage(tx, n))
  }

  lemma HeaderIsParses(tx: Tx, img: seq<Byte>)
    requires WellFormed(tx) && HeaderIs(tx, img)
    ensures Hot(img) && ParseHeader(img) == Some(TxHeader(tx))
  {
    var rest := Zeros(tx.pageSize - HEADER_LEN) + img[tx.pageSize..];
    assert img == HeaderBytes(TxHeader(tx)) + rest by {
      assert img == img[..tx.pageSize] + img[tx.pageSize..];
    }
    HeaderRoundTrip(TxHeader(tx), rest);
  }

  /** Reading back a record that was written whole. */
  lemma RecordReads(img: seq<Byte>, off: nat, nonce: U32, n: U32, page: seq<Byte>)
    requires off + |page| + 8 <= |img|
    requires img[off..off + |page| + 8] == RecordBytes(nonce, n, page)
    ensures ReadBe32(img, off) == n
    ensures img[off + 4..off + 4 + |page|] == page
    ensures ReadBe32(img, off + 4 + |page|) == PageChecksum(nonce, page)
  {
    var s, m := img[off..off + |page| + 8], |page| + 8;
    var sum := Be32(PageChecksum(nonce, page));
    assert s == Be32(n) + page + sum;
    SubSlice(img, off, m, 0, 4);
    SubSlice(img, off, m, 4, m - 4);
    SubSlice(img, off, m, m - 4, m);
    assert s[0..4] == Be32(n);
    assert s[4..m - 4] == page;
    assert s[m - 4..m] == sum;
    ReadBe32Of(img, off, n);
    ReadBe32Of(img, off + 4 + |page|, PageChecksum(nonce, page));
  }

  lemma QuietSlotRestores(tx: Tx, img: seq<Byte>, index: nat)
    requires WellFormed(tx) && Slot(tx, index) + RecordLen(tx.pageSize) <= |img|
    requires RecordOfPre(tx, SlotAt(tx, img, index))
    ensures var w := RecordWrite(img, TxHeader(tx), index); w.Some? ==> Restores(tx, w.value)
  {
    hide PageChecksum, ReadBe32, RecordBytes, PrePage;
    var n: nat, nonce: U32 :| 1 <= n <= PageCount(tx) && SlotAt(tx, img, index) ==
      RecordBytes(nonce, n, PrePage(tx, n));
    RecordReads(img, Slot(tx, index), nonce, n, PrePage(tx, n));
  }

  lemma BlankReads(img: seq<Byte>, off: nat, len: nat)
    requires off + len + 8 <= |img| && img[off..off + len + 8] == Zeros(len + 8)
    ensures ReadBe32(img, off) == 0
    ensures img[off + 4..off + 4 + len] == Zeros(len)
    ensures ReadBe32(img, off + 4 + len) == 0
  {
    var s, m := img[off..off + len + 8], len + 8;
    SubSlice(img, off, m, 0, 4);
    SubSlice(img, off, m, 4, m - 4);
    SubSlice(img, off, m, m - 4, m);
    assert s[4..m - 4] == Zeros(len);
    assert s[0..4] == Be32(0);
    assert s[m - 4..m] == Be32(0);
    ReadBe32Of(img, off, 0);
    ReadBe32Of(img, off + 4 + len, 0);
  }

  lemma BlankSlotReads(tx: Tx, img: seq<Byte>, index: nat)
    requires WellFormed(tx) && Slot(tx, index) + RecordLen(tx.pageSize) <= |img|
    requires SlotAt(tx, img, index) == Zeros(RecordLen(tx.pageSize))
    ensures RecordWrite(img, TxHeader(tx), index) ==
            if tx.nonce != 0 then None else Some(DbWrite(0, Zeros(tx.pageSize)))
  {
    BlankReads(img, Slot(tx, index), tx.pageSize);
    BlankSum(tx.pageSize, tx.pageSize - 200);
  }

  lemma {:induction false} ReplayQuiet(tx: Tx, img: seq<Byte>, index: nat)
    requires WellFormed(tx) && SlotsQuiet(tx, img) && NoBlankAccepted(tx, img)
    ensures forall s :: s in Replay(img, TxHeader(tx), index) ==> Restores(tx, s)
    decreases |Journaled(tx)| - index
  {
    hide Journaled, PrePage, WellFormed, RecordOfPre, Restores, SlotOffset;
    if index < |Journaled(tx)| && Slot(tx, index) + RecordLen(tx.pageSize) <= |img| {
      ReplayQuiet(tx, img, index + 1);
      if RecordOfPre(tx, SlotAt(tx, img, index)) {
        QuietSlotRestores(tx, img, index);
      } else {
        BlankSlotReads(tx, img, index);
      }
    }
  }

  /** The synced journal: header and every record in place. */
  predicate Complete(tx: Tx, img: seq<Byte>)
    requires WellFormed(tx)
  {
    && HeaderIs(tx, img)
    && forall i :: 0 <= i < |Journaled(tx)| ==>
         Slot(tx, i) + RecordLen(tx.pageSize) <= |img| && SlotAt(tx, img, i) == TxRecord(tx, i)
  }

  function RestoreSteps(tx: Tx, index: nat): (r: seq<Step>)
    requires WellFormed(tx) && index <= |Journaled(tx)|
    decreases |Journaled(tx)| - index
  {
    if index == |Journaled(tx)| then []
    else
      var n := Journaled(tx)[index];
      [DbWrite(PageOffset(tx.pageSize, n), PrePage(tx, n))] + RestoreSteps(tx, index + 1)
  }

  lemma WholeSlotReads(tx: Tx, img: seq<Byte>, index: nat)
    requires WellFormed(tx) && index < |Journaled(tx)|
    requires Slot(tx, index) + RecordLen(tx.pageSize) <= |img| && SlotAt(tx, img, index) == TxRecord(tx, index)
    ensures RecordWrite(img, TxHeader(tx), index) ==
            Some(DbWrite(PageOffset(tx.pageSize, Journaled(tx)[index]), PrePage(tx, Journaled(tx)[index])))
  {
    hide Journaled, PrePage, PageChecksum, ReadBe32, RecordBytes, SlotOffset;
    var n := Journaled(tx)[index];
    RecordReads(img, Slot(tx, index), tx.nonce, n, PrePage(tx, n));
  }

  lemma {:induction false} ReplayComplete(tx: Tx, img: seq<Byte>, index: nat)
    requires WellFormed(tx) && Complete(tx, img) && index <= |Journaled(tx)|
    ensures Replay(img, TxHeader(tx), index) == RestoreSteps(tx, index)
    decreases |Journaled(tx)| - index
  {
    hide Journaled, PrePage, WellFormed, RecordWrite, SlotOffset, HeaderIs;
    if index < |Journaled(tx)| {
      WholeSlotReads(tx, img, index);
      ReplayComplete(tx, img, index + 1);
    }
  }

  lemma {:induction false} RestoreStepsAre(tx: Tx, index: nat)
    requires WellFormed(tx) && index <= |Journaled(tx)|
    ensures |RestoreSteps(tx, index)| == |Journaled(tx)| - index
    ensures forall i :: 0 <= i < |RestoreSteps(tx, index)| ==>
      RestoreSteps(tx, index)[i] ==
        DbWrite(PageOffset(tx.pageSize, Journaled(tx)[index + i]), PrePage(tx, Journaled(tx)[index + i]))
    decreases |Journaled(tx)| - index
  {
    hide Journaled, PrePage, WellFormed;
    if index < |Journaled(tx)| {
      RestoreStepsAre(tx, index + 1);
      var r := RestoreSteps(tx, index);
      forall i | 0 <= i < |r| ensures
        r[i] == DbWrite(PageOffset(tx.pageSize, Journaled(tx)[index + i]), PrePage(tx, Journaled(tx)[index + i]))
      {
        if i > 0 { assert r[i] == RestoreSteps(tx, index + 1)[i - 1]; }
      }
    }
  }

  // ----- the main file while it is being overwritten or restored -----

  /** Only pages of the transaction differ from the file as it was. */
  predicate Near(tx: Tx, data: seq<Byte>)
    requires WellFormed(tx)
  {
    && |tx.pre| <= |data|
    && forall n: nat :: 1 <= n <= PageCount(tx) && n !in tx.dirty ==> PageIs(tx.pageSize, data, n, PrePage(tx, n))
  }

  lemma NearKept(tx: Tx, data: seq<Byte>, op: Op)
    requires WellFormed(tx) && Near(tx, data)
    requires
      || (exists n: nat :: n in tx.dirty && op == Write(PageOffset(tx.pageSize, n), tx.dirty[n]))
      || (exists n: nat :: 1 <= n <= PageCount(tx) && op == Write(PageOffset(tx.pageSize, n), PrePage(tx, n)))
      || op == SetLen(|tx.pre|)
    ensures Near(tx, Apply(data, op))
  {
    var ps := tx.pageSize;
    if n: nat :| n in tx.dirty && op == Write(PageOffset(ps, n), tx.dirty[n]) {
      WritePage(ps, data, n, tx.dirty[n]);
    } else if n: nat :| 1 <= n <= PageCount(tx) && op == Write(PageOffset(ps, n), PrePage(tx, n)) {
      WritePage(ps, data, n, PrePage(tx, n));
    } else {
      var r := Apply(data, op);
      forall n: nat | 1 <= n <= PageCount(tx) && n !in tx.dirty ensures PageIs(ps, r, n, PrePage(tx, n)) {
        PageFits(ps, n, PageCount(tx));
        assert PageIs(ps, data, n, PrePage(tx, n));
        assert r[PageOffset(ps, n)..PageOffset(ps, n) + ps] == data[PageOffset(ps, n)..PageOffset(ps, n) + ps];
      }
    }
  }

  lemma PreIsNear(tx: Tx)
    requires WellFormed(tx)
    ensures Near(tx, tx.pre)
  {
    forall n: nat | 1 <= n <= PageCount(tx) ensures PageIs(tx.pageSize, tx.pre, n, PrePage(tx, n)) {
      PageFits(tx.pageSize, n, PageCount(tx));
    }
  }

  /** A file whose pages all read as before holds the bytes it held before. */
  lemma AllPagesRestored(tx: Tx, data: seq<Byte>)
    requires WellFormed(tx) && |tx.pre| <= |data|
    requires forall n: nat :: 1 <= n <= PageCount(tx) ==> PageIs(tx.pageSize, data, n, PrePage(tx, n))
    ensures Resize(data, |tx.pre|) == tx.pre
  {
    forall x | 0 <= x < |tx.pre| ensures data[x] == tx.pre[x] {
      var n := PageOfByte(tx.pageSize, x, PageCount(tx));
      var off := PageOffset(tx.pageSize, n);
      assert PageIs(tx.pageSize, data, n, PrePage(tx, n));
      assert data[x] == data[off..off + tx.pageSize][x - off];
      PageFits(tx.pageSize, n, PageCount(tx));
      assert tx.pre[off..off + tx.pageSize] == PrePage(tx, n);
      assert tx.pre[x] == PrePage(tx, n)[x - off];
    }
  }

  // ----- runs of steps on one file -----

  function OpOf(s: Step): Op {
    match s
    case JournalWrite(off, bytes) => Write(off, bytes)
    case DbWrite(off, bytes) => Write(off, bytes)
    case DbSetLen(len) => SetLen(len)
    case _ => SetLen(0)
  }

  function Ops(steps: seq<Step>): (r: seq<Op>)
    ensures |r| == |steps| && forall i :: 0 <= i < |r| ==> r[i] == OpOf(steps[i])
  {
    seq(|steps|, i requires 0 <= i < |steps| => OpOf(steps[i]))
  }

  predicate DbOnly(steps: seq<Step>) {
    forall i :: 0 <= i < |steps| ==> steps[i].DbWrite? || steps[i].DbSetLen?
  }

  predicate JournalWritesOnly(steps: seq<Step>) {
    forall i :: 0 <= i < |steps| ==> steps[i].JournalWrite?
  }

  lemma {:induction false} RunDbOnly(d: Disk, steps: seq<Step>)
    requires DbOnly(steps)
    ensures Run(d, steps) == d.(db := File(d.db.durable, d.db.pending + Ops(steps)))
  {
    if steps == [] {
      assert d.db.pending + Ops(steps) == d.db.pending;
    } else {
      var n := |steps| - 1;
      RunDbOnly(d, steps[..n]);
      assert Ops(steps) == Ops(steps[..n]) + [OpOf(steps[n])];
      assert d.db.pending + Ops(steps) == d.db.pending + Ops(steps[..n]) + [OpOf(steps[n])];
    }
  }

  lemma {:induction false} RunJournalWrites(d: Disk, steps: seq<Step>)
    requires JournalWritesOnly(steps) && d.journal.Some?
    ensures var f := d.journal.value; Run(d, steps) == d.(journal := Some(File(f.durable, f.pending + Ops(steps))))
  {
    var f := d.journal.value;
    if steps == [] {
      assert f.pending + Ops(steps) == f.pending;
    } else {
      var n := |steps| - 1;
      RunJournalWrites(d, steps[..n]);
      assert Ops(steps) == Ops(steps[..n]) + [OpOf(steps[n])];
      assert f.pending + Ops(steps) == f.pending + Ops(steps[..n]) + [OpOf(steps[n])];
    }
  }

  lemma SyncedSurvives(data: seq<Byte>, image: seq<Byte>)
    requires SurvivesAs(File(data, []), image)
    ensures image == data
  {
  }

  // ----- disks from which the next open rolls back -----

  ghost predicate Leftover(tx: Tx, img: seq<Byte>)
    requires WellFormed(tx)
  {
    Aligned(tx, img) && SlotsQuiet(tx, img) && HeaderBlank(tx, img)
  }

  /** The database as an open leaves it: synced, with no journal or one that was never made hot. */
  ghost predicate Clean(tx: Tx, d: Disk)
    requires WellFormed(tx)
  {
    && AtRest(d) && d.db.durable == tx.pre
    && (d.journal.Some? ==> Leftover(tx, d.journal.value.durable))
  }

  ghost predicate RollsBack(tx: Tx, d: Disk)
    requires WellFormed(tx)
  {
    && AtRest(d)
    && (|| (d.db.durable == tx.pre
            && (d.journal.Some? ==> Quiet(tx, d.journal.value.durable) && NoBlankAccepted(tx, d.journal.value.durable)))
        || (d.journal.Some? && Complete(tx, d.journal.value.durable) && Near(tx, d.db.durable)))
  }

  lemma BlankIsCold(tx: Tx, img: seq<Byte>)
    requires WellFormed(tx) && HeaderBlank(tx, img)
    ensures !Hot(img)
  {
    if |img| > 0 { assert img[0] == img[..tx.pageSize][0] == 0; }
  }

  lemma RestoringPreIsNoop(tx: Tx, op: Op)
    requires WellFormed(tx)
    requires op == SetLen(|tx.pre|) || exists n: nat ::
            1 <= n <= PageCount(tx) && op == Write(PageOffset(tx.pageSize, n), PrePage(tx, n))
    ensures Apply(tx.pre, op) == tx.pre
  {
    if op.Write? {
      var n: nat :| 1 <= n <= PageCount(tx) && op == Write(PageOffset(tx.pageSize, n), PrePage(tx, n));
      PageFits(tx.pageSize, n, PageCount(tx));
    }
  }

  /** Restoring every journaled page and cutting the file back undoes the transaction. */
  lemma RestoreUndoes(tx: Tx, data: seq<Byte>)
    requires WellFormed(tx) && Near(tx, data)
    ensures ApplyAll(data, Ops(RestoreSteps(tx, 0) + [DbSetLen(|tx.pre|)])) == tx.pre
  {
    hide Journaled, PrePage, WellFormed, RestoreSteps, PageIs, PageOffset, ApplyAll;
    var w := RestoreSteps(tx, 0);
    assert Ops(w + [DbSetLen(|tx.pre|)]) == Ops(w) + [SetLen(|tx.pre|)];
    ApplyAllSnoc(data, Ops(w), SetLen(|tx.pre|));
    RestorePrefix(tx, data, |w|);
    assert w[..|w|] == w;
    var r := ApplyAll(data, Ops(w));
    RestoreStepsAre(tx, 0);
    forall n: nat | 1 <= n <= PageCount(tx) ensures PageIs(tx.pageSize, r, n, PrePage(tx, n)) {
      if n in tx.dirty {
        assert n in Journaled(tx);
        var j :| 0 <= j < |Journaled(tx)| && Journaled(tx)[j] == n;
      }
    }
    AllPagesRestored(tx, r);
  }

  lemma {:induction false} RestorePrefix(tx: Tx, data: seq<Byte>, k: nat)
    requires WellFormed(tx) && Near(tx, data) && k <= |RestoreSteps(tx, 0)|
    ensures |RestoreSteps(tx, 0)| == |Journaled(tx)|
    ensures var r := ApplyAll(data, Ops(RestoreSteps(tx, 0)[..k]));
            Near(tx, r) && forall j :: 0 <= j < k ==> PageIs(tx.pageSize, r, Journaled(tx)[j],
              PrePage(tx, Journaled(tx)[j]))
  {
    hide Journaled, PrePage, WellFormed, WriteAt, RestoreSteps, Near, PageIs, PageOffset, ApplyAll;
    RestoreStepsAre(tx, 0);
    var w := RestoreSteps(tx, 0);
    if k > 0 {
      RestorePrefix(tx, data, k - 1);
      var r := ApplyAll(data, Ops(w[..k - 1]));
      var m := Journaled(tx)[k - 1];
      var op := RestoreOpAt(tx, k - 1);
      ApplyAllSnoc(data, Ops(w[..k - 1]), op);
      NearKept(tx, r, op);
      WritePage(tx.pageSize, r, m, PrePage(tx, m));
      JournaledDistinct(tx, k - 1);
    } else {
      assert Ops(w[..0]) == [];
      NoOps(data);
    }
  }

  lemma NoOps(data: seq<Byte>)
    ensures ApplyAll(data, []) == data
  {
  }

  lemma JournaledDistinct(tx: Tx, k: nat)
    requires WellFormed(tx) && k < |Journaled(tx)|
    ensures forall j :: 0 <= j < k ==> Journaled(tx)[j] != Journaled(tx)[k]
  {
  }

  lemma RestoreOpAt(tx: Tx, k: nat) returns (op: Op)
    requires WellFormed(tx) && k < |Journaled(tx)| == |RestoreSteps(tx, 0)|
    ensures op == Write(PageOffset(tx.pageSize, Journaled(tx)[k]), PrePage(tx, Journaled(tx)[k]))
    ensures Ops(RestoreSteps(tx, 0)[..k + 1]) == Ops(RestoreSteps(tx, 0)[..k]) + [op]
  {
    hide Journaled, PrePage, WellFormed, RestoreSteps, PageOffset;
    RestoreStepsAre(tx, 0);
    op := OpOf(RestoreSteps(tx, 0)[k]);
  }

  ghost predicate OpensBy(tx: Tx, d: Disk, w: seq<Step>)
    requires WellFormed(tx)
  {
    && OpenSteps(d) == Ok(w + [DbSetLen(|tx.pre|), DbSync, JournalDelete])
    && DbOnly(w) && (forall s :: s in w ==> Restores(tx, s))
    && (d.db.durable == tx.pre || w == RestoreSteps(tx, 0))
  }

  /** A hot but incomplete journal holds nothing that would change the untouched main file. */
  lemma OpenStepsQuiet(tx: Tx, d: Disk) returns (w: seq<Step>)
    requires WellFormed(tx) && AtRest(d) && d.db.durable == tx.pre && d.journal.Some?
    requires var j := d.journal.value.durable; HeaderIs(tx, j) && SlotsQuiet(tx, j) && NoBlankAccepted(tx, j)
    ensures OpensBy(tx, d, w)
  {
    hide Journaled, PrePage, NoBlankAccepted, SlotsQuiet, HeaderIs, Restores, Replay;
    var j := d.journal.value.durable;
    assert d.journal.value.Contents() == j;
    HeaderIsParses(tx, j);
    w := Replay(j, TxHeader(tx), 0);
    ReplayQuiet(tx, j, 0);
    forall i | 0 <= i < |w| ensures w[i].DbWrite? { assert w[i] in w; RestoreIsWrite(tx, w[i]); }
  }

  lemma RestoreIsWrite(tx: Tx, s: Step)
    requires WellFormed(tx) && Restores(tx, s)
    ensures s.DbWrite?
  {
  }

  lemma OpenStepsComplete(tx: Tx, d: Disk) returns (w: seq<Step>)
    requires WellFormed(tx) && AtRest(d) && d.journal.Some? && Complete(tx, d.journal.value.durable)
    ensures w == RestoreSteps(tx, 0) && OpensBy(tx, d, w)
  {
    hide Journaled, PrePage, HeaderIs, Replay, RestoreSteps;
    var j := d.journal.value.durable;
    assert d.journal.value.Contents() == j;
    HeaderIsParses(tx, j);
    ReplayComplete(tx, j, 0);
    RestoreStepsAre(tx, 0);
    w := RestoreSteps(tx, 0);
    forall s | s in w ensures Restores(tx, s) {
      var i :| 0 <= i < |w| && w[i] == s;
      assert 1 <= Journaled(tx)[i] <= PageCount(tx);
    }
  }

  /** Either there is nothing to recover, or the open's steps restore pages and cut the file back. */
  lemma OpenStepsOf(tx: Tx, d: Disk) returns (idle: bool, w: seq<Step>)
    requires WellFormed(tx) && RollsBack(tx, d)
    ensures idle ==> OpenSteps(d) == Ok([]) && Clean(tx, d)
    ensures !idle ==> d.journal.Some? && OpensBy(tx, d, w)
  {
    hide Journaled, PrePage, WellFormed, SlotsQuiet, NoBlankAccepted, Aligned, HeaderIs, HeaderBlank, Replay;
    hide RestoreSteps, Near, Hot, OpensBy;
    idle, w := false, [];
    if d.journal.None? {
      idle := true;
    } else {
      var j := d.journal.value.durable;
      assert d.journal.value.Contents() == j;
      if Complete(tx, j) {
        w := OpenStepsComplete(tx, d);
      } else if HeaderIs(tx, j) {
        w := OpenStepsQuiet(tx, d);
      } else {
        BlankIsCold(tx, j);
        idle := true;
      }
    }
  }

  /** An open that completes leaves the pre-transaction file. */
  lemma OpenRollsBack(tx: Tx, d: Disk)
    requires WellFormed(tx) && RollsBack(tx, d)
    ensures OpenSteps(d).Ok? && Clean(tx, Run(d, OpenSteps(d).value))
  {
    hide Journaled, PrePage, WellFormed, SlotsQuiet, NoBlankAccepted, Aligned, HeaderIs, HeaderBlank, RestoreSteps;
    hide Complete, Near, OpenSteps, Restores;
    var idle, w := OpenStepsOf(tx, d);
    if !idle {
      var mid := OpenSynced(tx, d, w);
      var synced := w + [DbSetLen(|tx.pre|)] + [DbSync];
      assert OpenSteps(d).value == synced + [JournalDelete];
      RunConcat(d, synced, [JournalDelete]);
      RunTwo(mid, JournalDelete, JournalDelete);
    }
  }

  lemma RunTwo(d: Disk, a: Step, b: Step)
    ensures Run(d, [a, b]) == Do(Do(d, a), b)
    ensures Run(d, [a]) == Do(d, a)
  {
    assert [a, b][..1] == [a];
    assert Run(d, [a]) == Do(Run(d, [a][..0]), a);
    assert Run(d, [a, b]) == Do(Run(d, [a, b][..1]), b);
  }

  lemma RestoredContents(tx: Tx, data: seq<Byte>, w: seq<Step>)
    requires WellFormed(tx) && DbOnly(w) && forall s :: s in w ==> Restores(tx, s)
    requires data == tx.pre || (w == RestoreSteps(tx, 0) && Near(tx, data))
    ensures ApplyAll(data, Ops(w + [DbSetLen(|tx.pre|)])) == tx.pre
  {
    if data == tx.pre {
      var steps := w + [DbSetLen(|tx.pre|)];
      var ops := Ops(steps);
      forall x: seq<Byte>, i | x == tx.pre && 0 <= i < |ops| ensures Apply(x, ops[i]) == tx.pre {
        RestoreOp(tx, w, i);
        RestoringPreIsNoop(tx, ops[i]);
      }
      AllKeep(data, ops, x => x == tx.pre);
    } else {
      RestoreUndoes(tx, data);
    }
  }

  lemma RestoreOp(tx: Tx, w: seq<Step>, i: nat)
    requires WellFormed(tx) && DbOnly(w) && (forall s :: s in w ==> Restores(tx, s)) && i <= |w|
    ensures var op := Ops(w + [DbSetLen(|tx.pre|)])[i];
            op == SetLen(|tx.pre|) || exists n: nat ::
                1 <= n <= PageCount(tx) && op == Write(PageOffset(tx.pageSize, n), PrePage(tx, n))
  {
    if i < |w| {
      assert w[i] in w;
      var n: nat :| 1 <= n <= PageCount(tx) && w[i] == DbWrite(PageOffset(tx.pageSize, n), PrePage(tx, n));
      assert (w + [DbSetLen(|tx.pre|)])[i] == w[i];
    }
  }

  /** An open that loses power anywhere leaves a disk the next open can still roll back. */
  lemma OpenRestartable(tx: Tx, d: Disk, k: nat, d': Disk)
    requires WellFormed(tx) && RollsBack(tx, d)
    requires OpenSteps(d).Ok? && k <= |OpenSteps(d).value|
    requires PowerCut(Run(d, OpenSteps(d).value[..k]), d')
    ensures RollsBack(tx, d')
  {
    hide Journaled, PrePage, WellFormed, SlotsQuiet, NoBlankAccepted, Aligned, HeaderIs, HeaderBlank, RestoreSteps;
    hide Complete, Near, OpenSteps, Restores, SurvivesAs;
    var idle, w := OpenStepsOf(tx, d);
    var steps := OpenSteps(d).value;
    if d.journal.Some? && d'.journal.Some? && Run(d, steps[..k]).journal == d.journal {
      SyncedSurvives(d.journal.value.durable, d'.journal.value.durable);
    }
    if idle {
      assert steps[..k] == [];
      SyncedSurvives(d.db.durable, d'.db.durable);
    } else {
      var dbSteps := w + [DbSetLen(|tx.pre|)];
      if k <= |dbSteps| {
        assert steps[..k] == dbSteps[..k];
        RunDbOnly(d, dbSteps[..k]);
        assert d.db.pending + Ops(dbSteps[..k]) == Ops(dbSteps)[..k];
        PartlyRestored(tx, d.db.durable, w, k, d'.db.durable);
      } else {
        OpenSyncedThenCut(tx, d, w, k, d');
      }
    }
  }

  lemma OpenSyncedThenCut(tx: Tx, d: Disk, w: seq<Step>, k: nat, d': Disk)
    requires WellFormed(tx) && RollsBack(tx, d) && d.journal.Some? && OpensBy(tx, d, w)
    requires |w| + 1 < k <= |w| + 3
    requires PowerCut(Run(d, OpenSteps(d).value[..k]), d')
    ensures RollsBack(tx, d')
  {
    hide Journaled, PrePage, WellFormed, SlotsQuiet, NoBlankAccepted, Quiet, RestoreSteps, Complete, Near, OpenSteps;
    hide Restores, SurvivesAs, ApplyAll, Run;
    var steps, dbSteps := OpenSteps(d).value, w + [DbSetLen(|tx.pre|)];
    var mid := OpenSynced(tx, d, w);
    if k == |w| + 2 {
      assert steps[..k] == dbSteps + [DbSync];
      SyncedSurvives(d.journal.value.durable, d'.journal.value.durable);
      PreIsNear(tx);
    } else {
      assert steps[..k] == (dbSteps + [DbSync]) + [JournalDelete];
      RunConcat(d, dbSteps + [DbSync], [JournalDelete]);
      RunTwo(mid, JournalDelete, JournalDelete);
    }
    SyncedSurvives(tx.pre, d'.db.durable);
  }

  /** The state of an open just after its `sync`. */
  lemma OpenSynced(tx: Tx, d: Disk, w: seq<Step>) returns (mid: Disk)
    requires WellFormed(tx) && RollsBack(tx, d) && OpensBy(tx, d, w)
    ensures mid == Run(d, w + [DbSetLen(|tx.pre|)] + [DbSync])
    ensures mid == d.(db := File(tx.pre, []))
  {
    hide Journaled, PrePage, WellFormed, Quiet, NoBlankAccepted, RestoreSteps, Complete, Near, OpenSteps, Restores, Run;
    hide ApplyAll, OpOf;
    var dbSteps := w + [DbSetLen(|tx.pre|)];
    RunDbOnly(d, dbSteps);
    assert d.db.pending + Ops(dbSteps) == Ops(dbSteps);
    RestoredContents(tx, d.db.durable, w);
    RunConcat(d, dbSteps, [DbSync]);
    RunTwo(Run(d, dbSteps), DbSync, DbSync);
    mid := Run(d, dbSteps + [DbSync]);
  }

  lemma PartlyRestored(tx: Tx, data: seq<Byte>, w: seq<Step>, k: nat, image: seq<Byte>)
    requires WellFormed(tx) && DbOnly(w) && (forall s :: s in w ==> Restores(tx, s)) && k <= |w| + 1
    requires SurvivesAs(File(data, Ops(w + [DbSetLen(|tx.pre|)])[..k]), image)
    ensures data == tx.pre ==> image == tx.pre
    ensures Near(tx, data) ==> Near(tx, image)
  {
    var ops := Ops(w + [DbSetLen(|tx.pre|)])[..k];
    forall i | 0 <= i < |ops| ensures
      ops[i] == SetLen(|tx.pre|) || exists n: nat ::
          1 <= n <= PageCount(tx) && ops[i] == Write(PageOffset(tx.pageSize, n), PrePage(tx, n))
    {
      RestoreOp(tx, w, i);
    }
    if data == tx.pre {
      forall x: seq<Byte>, i | x == tx.pre && 0 <= i < |ops| ensures Apply(x, ops[i]) == tx.pre {
        RestoringPreIsNoop(tx, ops[i]);
      }
      SurvivorKeeps(File(data, ops), image, x => x == tx.pre);
    }
    if Near(tx, data) {
      forall x: seq<Byte>, i | Near(tx, x) && 0 <= i < |ops| ensures Near(tx, Apply(x, ops[i])) {
        NearKept(tx, x, ops[i]);
      }
      SurvivorKeeps(File(data, ops), image, x => Near(tx, x));
    }
  }
}
