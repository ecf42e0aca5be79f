/** Passive checkpoints: copying committed log frames into the main file, bounded by the readers. */
module Checkpoint {
  import opened Bytes
  import opened Sorting
  import opened Paging
  import opened Files
  import opened Wal
  import opened WalOps

  datatype CheckpointResult = CheckpointResult(backfilled: nat, total: nat, complete: bool)

  // ----- how far a pass may go -----

  /** The smallest nonzero mark, if any. */
  function LeastMark(marks: seq<U32>): (r: Option<nat>)
    ensures r.Some? ==> r.value > 0 && r.value in marks
    ensures forall m :: m in marks && m > 0 ==> r.Some? && r.value <= m
  {
    if marks == [] then None
    else
      var rest := LeastMark(marks[1..]);
      assert marks == [marks[0]] + marks[1..];
      if marks[0] == 0 then rest
      else if rest.None? || marks[0] <= rest.value then Some(marks[0])
      else rest
  }

  function SafeFrame(marks: seq<U32>, total: nat): (r: nat)
    ensures r <= total
    ensures forall m :: m in marks && m > 0 ==> r <= m
  {
    var least := LeastMark(marks);
    if least.None? then total else Min(least.value, total)
  }

  /** The bound is safe, and no greater one would be. */
  lemma SafeFrameIs(marks: seq<U32>, total: nat, k: nat)
    ensures k <= SafeFrame(marks, total) <==> k <= total && forall m :: m in marks && m > 0 ==> k <= m
  {
  }

  function PageCountFromSize(size: nat, ps: nat): (n: nat) {
    var n := (size + Max(ps - 1, 0)) / Max(ps, 1);
    if n <= U32_MAX then n else 0
  }

  /** The fewest pages that hold `size` bytes, or 0 when they cannot be numbered. */
  lemma PageCountIs(size: nat, ps: nat)
    requires ps > 0
    ensures var n := PageCountFromSize(size, ps);
            && (size > ps * U32_MAX ==> n == 0)
            && (size <= ps * U32_MAX ==> size <= ps * n && (n > 0 ==> ps * (n - 1) < size))
  {
    var x := size + ps - 1;
    var n := x / ps;
    assert x == ps * n + x % ps;
    if n > U32_MAX {
      TimesGrows(ps, U32_MAX, n - 1);
    } else {
      TimesGrows(ps, n, U32_MAX);
    }
  }

  lemma TimesGrows(k: nat, a: nat, b: nat)
    requires a <= b
    ensures k * a <= k * b
  {
  }

  // ----- copying pages -----

  /** The main file after the first `k` of `keys` are copied in; page 0 and pages past `maxPage` are skipped. */
  function CopyPages(ps: nat, data: seq<Byte>, pages: PageMap, keys: seq<nat>, maxPage: nat): (r: seq<Byte>)
    requires forall i :: 0 <= i < |keys| ==> keys[i] in pages
  {
    if keys == [] then data
    else
      var n := |keys| - 1;
      var front := CopyPages(ps, data, pages, keys[..n], maxPage);
      if keys[n] == 0 || keys[n] > maxPage then front else WriteAt(front, PageOffset(ps, keys[n]), pages[keys[n]])
  }

  function KeysOf(pages: PageMap): (r: seq<nat>)
    ensures Ascending(r)
    ensures forall i :: 0 <= i < |r| ==> r[i] in pages
    ensures forall p :: p in pages ==> p in r
  {
    var s := set p | p in pages :: p as nat;
    var r := SortedKeys(s);
    assert forall i :: 0 <= i < |r| ==> r[i] in r;
    r
  }

  ghost predicate PagesSized(ps: nat, pages: PageMap) { forall p :: p in pages ==> |pages[p]| == ps }

  lemma {:induction false} CopyReads(ps: nat, data: seq<Byte>, pages: PageMap, keys: seq<nat>, maxPage: nat, n: nat)
    requires Ascending(keys) && PagesSized(ps, pages) && forall i :: 0 <= i < |keys| ==> keys[i] in pages
    ensures var r := CopyPages(ps, data, pages, keys, maxPage);
            && (n in keys && 1 <= n <= maxPage ==> n in pages && PageAt(ps, r, n) == Some(pages[n]))
            && (n !in keys && PageAt(ps, data, n).Some? ==> PageAt(ps, r, n) == PageAt(ps, data, n))
  {
    hide PageAt, WriteAt, PageOffset;
    if keys != [] {
      var k := |keys| - 1;
      var front, m := CopyPages(ps, data, pages, keys[..k], maxPage), keys[k];
      assert keys == keys[..k] + [m];
      CopyReads(ps, data, pages, keys[..k], maxPage, n);
      if m != 0 && m <= maxPage { WritePageReads(ps, front, m, pages[m]); }
      assert n in keys && n != m ==> n in keys[..k];
      assert m !in keys[..k];
    }
  }

  // ----- the pass -----

  /** What a pass leaves: the main file, the published backfill, and its report. */
  datatype Outcome = Outcome(data: seq<Byte>, backfill: nat, result: CheckpointResult)

  function Pass(ps: nat, data: seq<Byte>, wal: Option<seq<Byte>>, marks: seq<U32>,
                backfill: nat): (r: Result<Outcome, WalError>)
  {
    if wal.None? || |wal.value| < HEADER_LEN then Ok(Outcome(data, backfill, CheckpointResult(0, 0, true)))
    else
      match ParseHeader(wal.value)
      case Err(e) => Err(e)
      case Ok(h) =>
        if h.pageSize != ps then Err(InvalidPageSize(h.pageSize))
        else
          var total := (|wal.value| - HEADER_LEN) / FrameSize(h);
          if total == 0 then Ok(Outcome(data, backfill, CheckpointResult(0, 0, true)))
          else
            var safe := SafeFrame(marks, total);
            if safe == 0 then Ok(Outcome(data, backfill, CheckpointResult(0, total, false)))
            else if safe <= backfill then Ok(Outcome(data, backfill,
              CheckpointResult(backfill, total, backfill == total)))
            else
              var db := Snapshot(ScanWal(h, wal.value[..Min(FrameOffset(h, safe), |wal.value|)]).frames);
              var maxPage := Max(db.size, PageCountFromSize(|data|, h.pageSize));
              Ok(Outcome(CopyPages(ps, data, db.pages, KeysOf(db.pages), maxPage), safe,
                CheckpointResult(safe, total, safe == total)))
  }

  method CopyAscending(file: RawFile, ps: nat, pages: PageMap, keys: seq<nat>, maxPage: nat)
    requires forall i :: 0 <= i < |keys| ==> keys[i] in pages
    modifies file
    ensures file.data == CopyPages(ps, old(file.data), pages, keys, maxPage)
  {
    hide PageOffset, WriteAt;
    var i := 0;
    while i < |keys|
      invariant 0 <= i <= |keys|
      invariant file.data == CopyPages(ps, old(file.data), pages, keys[..i], maxPage)
    {
      assert keys[..i + 1][..i] == keys[..i];
      if keys[i] != 0 && keys[i] <= maxPage {
        file.Write(PageOffset(ps, keys[i]), pages[keys[i]]);
      }
      i := i + 1;
    }
    assert keys[..i] == keys;
  }

  /** `checkpoint_passive`. */
  method CheckpointPassive(file: RawFile, ps: nat, wal: Option<seq<Byte>>, marks: seq<U32>, backfill: nat)
    returns (r: Result<CheckpointResult, WalError>, published: nat)
    modifies file
    ensures r.Err? <==> Pass(ps, old(file.data), wal, marks, backfill).Err?
    ensures r.Err? ==> r.error == Pass(ps, old(file.data), wal, marks, backfill).error
                       && file.data == old(file.data) && published == backfill
    ensures r.Ok? ==> Pass(ps, old(file.data), wal, marks, backfill).value == Outcome(file.data, published, r.value)
  {
    hide ScanWal, ParseHeader, Snapshot, SafeFrame, KeysOf, FrameOffset, PageCountFromSize, CopyPages, FrameSize;
    published := backfill;
    if wal.None? || |wal.value| < HEADER_LEN {
      return Ok(CheckpointResult(0, 0, true)), published;
    }
    var bytes := wal.value;
    var parsed := ParseHeader(bytes);
    if parsed.Err? {
      return Err(parsed.error), published;
    }
    var h := parsed.value;
    if h.pageSize != ps {
      return Err(InvalidPageSize(h.pageSize)), published;
    }
    var total := (|bytes| - HEADER_LEN) / FrameSize(h);
    if total == 0 {
      return Ok(CheckpointResult(0, 0, true)), published;
    }
    var safe := SafeFrame(marks, total);
    if safe == 0 {
      return Ok(CheckpointResult(0, total, false)), published;
    }
    if safe <= backfill {
      return Ok(CheckpointResult(backfill, total, backfill == total)), published;
    }
    var pages, size := CommittedPages(h, bytes[..Min(FrameOffset(h, safe), |bytes|)]);
    var maxPage := Max(size, PageCountFromSize(|file.data|, h.pageSize));
    CopyAscending(file, ps, pages, KeysOf(pages), maxPage);
    published := safe;
    r := Ok(CheckpointResult(safe, total, safe == total));
  }

  // ----- meaning -----

  /** What a reader of the log and the file together sees. */
  function View(ps: nat, data: seq<Byte>, frames: seq<Frame>, n: U32): (r: Option<seq<Byte>>) {
    var pages := Snapshot(frames).pages;
    if n in pages then Some(pages[n]) else PageAt(ps, data, n)
  }

  lemma {:induction false} LiveGrows(frames: seq<Frame>, k: nat)
    requires k <= |frames|
    ensures Live(frames[..k]).Keys <= Live(frames).Keys
    ensures Snapshot(frames[..k]).pages.Keys <= Live(frames[..k]).Keys
    ensures Snapshot(frames[..k]).pages.Keys <= Snapshot(frames).pages.Keys
    decreases |frames|, k
  {
    if frames == [] {
      assert frames[..k] == [];
    } else {
      var n := |frames| - 1;
      if k <= n {
        LiveGrows(frames[..n], k);
        assert frames[..n][..k] == frames[..k];
      } else {
        assert frames[..k] == frames;
        if frames[n].dbSize == 0 {
          LiveGrows(frames[..n], n);
          assert frames[..n][..n] == frames[..n];
        }
      }
    }
  }

  lemma {:induction false} SnapshotSized(h: Header, frames: seq<Frame>)
    requires Sized(h, frames)
    ensures PagesSized(h.pageSize, Live(frames)) && PagesSized(h.pageSize, Snapshot(frames).pages)
  {
    if frames != [] { SnapshotSized(h, frames[..|frames| - 1]); }
  }

  /** What a pass over a log this code wrote actually does. */
  lemma PassOnLog(data: seq<Byte>, wal: seq<Byte>, h: Header, frames: seq<Frame>, marks: seq<U32>, backfill: nat)
    requires Holds(wal, h, frames)
    ensures var r := Pass(h.pageSize, data, Some(wal), marks, backfill); var safe := SafeFrame(marks, |frames|);
            && r.Ok?
            && (frames == [] ==> r.value == Outcome(data, backfill, CheckpointResult(0, 0, true)))
            && (frames != [] && safe == 0 ==> r.value == Outcome(data, backfill, CheckpointResult(0, |frames|, false)))
            && (frames != [] && 0 < safe <= backfill ==>
                  r.value == Outcome(data, backfill, CheckpointResult(backfill, |frames|, backfill == |frames|)))
            && (frames != [] && safe > backfill ==>
                  var db := Snapshot(frames[..safe]); var maxPage := Max(db.size,
                            PageCountFromSize(|data|, h.pageSize));
                  r.value == Outcome(CopyPages(h.pageSize, data, db.pages, KeysOf(db.pages), maxPage), safe,
                                     CheckpointResult(safe, |frames|, safe == |frames|)))
  {
    hide ScanWal, Snapshot, SafeFrame, KeysOf, CopyPages, Encode, ParseHeader, FileOf, PageCountFromSize;
    LogHeader(wal, h, frames);
    if frames != [] && SafeFrame(marks, |frames|) > 0 {
      SafeScan(wal, h, frames, SafeFrame(marks, |frames|));
    }
  }

  lemma LogHeader(wal: seq<Byte>, h: Header, frames: seq<Frame>)
    requires Holds(wal, h, frames)
    ensures ParseHeader(wal) == Ok(h) && |wal| >= HEADER_LEN
    ensures (|wal| - HEADER_LEN) / FrameSize(h) == |frames|
  {
    hide ParseHeader, Encode, ValidPageSize;
    EncodeLength(h, h.sum, frames);
    var rest := wal[HEADER_LEN..];
    assert wal == HeaderBytes(h) + rest;
    HeaderRoundTrip(h, rest);
    TimesDiv(|frames|, FrameSize(h), |wal| - FrameOffset(h, |frames|));
  }

  lemma SafeScan(wal: seq<Byte>, h: Header, frames: seq<Frame>, safe: nat)
    requires Holds(wal, h, frames) && safe <= |frames|
    ensures FrameOffset(h, safe) <= |wal|
    ensures ScanWal(h, wal[..FrameOffset(h, safe)]).frames == frames[..safe]
  {
    hide ScanWal, Encode, ValidHeader;
    EncodeLength(h, h.sum, frames);
    TimesMono(safe, |frames|, FrameSize(h));
    var cut := wal[..FrameOffset(h, safe)];
    assert cut <= FileOf(h, frames);
    ScanOfCut(h, frames, cut, safe);
  }

  /** A pass under any marks leaves every readable page of the overlay-over-file view unchanged. */
  lemma PassPreservesView(data: seq<Byte>, wal: seq<Byte>, h: Header, frames: seq<Frame>, marks: seq<U32>,
                          backfill: nat, n: U32)
    requires Holds(wal, h, frames)
    requires View(h.pageSize, data, frames, n).Some?
    ensures var r := Pass(h.pageSize, data, Some(wal), marks, backfill);
            r.Ok? && View(h.pageSize, r.value.data, frames, n) == View(h.pageSize, data, frames, n)
  {
    hide Snapshot, SafeFrame, KeysOf, CopyPages, Holds, Pass, PageAt, PageCountFromSize;
    PassOnLog(data, wal, h, frames, marks, backfill);
    var safe := SafeFrame(marks, |frames|);
    if frames != [] && safe > backfill && n !in Snapshot(frames).pages {
      LiveGrows(frames, safe);
      CopyLeavesOthers(data, wal, h, frames, safe, n);
    }
  }

  lemma CopyLeavesOthers(data: seq<Byte>, wal: seq<Byte>, h: Header, frames: seq<Frame>, safe: nat, n: U32)
    requires Holds(wal, h, frames) && safe <= |frames| && n !in Snapshot(frames[..safe]).pages
    requires PageAt(h.pageSize, data, n).Some?
    ensures var db := Snapshot(frames[..safe]); var maxPage := Max(db.size, PageCountFromSize(|data|, h.pageSize));
            PageAt(h.pageSize, CopyPages(h.pageSize, data, db.pages, KeysOf(db.pages), maxPage), n) ==
              PageAt(h.pageSize, data, n)
  {
    hide Snapshot, CopyPages, PageAt, Encode, ValidHeader, FileOf, PageCountFromSize;
    var db := Snapshot(frames[..safe]);
    SnapshotSized(h, frames[..safe]);
    var keys := KeysOf(db.pages);
    CopyReads(h.pageSize, data, db.pages, keys, Max(db.size, PageCountFromSize(|data|, h.pageSize)), n);
  }

  // ----- completeness -----

  /** Every snapshot of the log names only pages within its own size. */
  ghost predicate Bounded(frames: seq<Frame>) {
    forall k, n :: 0 <= k <= |frames| && n in Snapshot(frames[..k]).pages ==> 1 <= n <= Snapshot(frames[..k]).size
  }

  predicate CommitEnded(frames: seq<Frame>) { frames == [] || frames[|frames| - 1].dbSize != 0 }

  /** The published backfill tells the truth: those frames are in the main file. */
  ghost predicate BackfillTrue(ps: nat, data: seq<Byte>, frames: seq<Frame>, backfill: nat) {
    && backfill <= |frames|
    && forall n :: n in Snapshot(frames[..backfill]).pages ==>
       PageAt(ps, data, n) == Some(Snapshot(frames[..backfill]).pages[n])
  }

  /** A pass keeps the published backfill true. */
  lemma PassKeepsBackfillTrue(data: seq<Byte>, wal: seq<Byte>, h: Header, frames: seq<Frame>, marks: seq<U32>,
                              backfill: nat)
    requires Holds(wal, h, frames) && Bounded(frames) && BackfillTrue(h.pageSize, data, frames, backfill)
    ensures var r := Pass(h.pageSize, data, Some(wal), marks, backfill);
            r.Ok? && BackfillTrue(h.pageSize, r.value.data, frames, r.value.backfill)
  {
    hide Snapshot, SafeFrame, KeysOf, CopyPages, Holds, Pass, PageAt, PageCountFromSize;
    PassOnLog(data, wal, h, frames, marks, backfill);
    var safe := SafeFrame(marks, |frames|);
    if frames != [] && safe > backfill {
      forall n | n in Snapshot(frames[..safe]).pages
        ensures var r := Pass(h.pageSize, data, Some(wal), marks, backfill).value.data;
                PageAt(h.pageSize, r, n) == Some(Snapshot(frames[..safe]).pages[n])
      {
        CopySets(data, wal, h, frames, safe, n);
      }
    }
  }

  lemma CopySets(data: seq<Byte>, wal: seq<Byte>, h: Header, frames: seq<Frame>, safe: nat, n: U32)
    requires Holds(wal, h, frames) && safe <= |frames| && Bounded(frames) && n in Snapshot(frames[..safe]).pages
    ensures var db := Snapshot(frames[..safe]); var maxPage := Max(db.size, PageCountFromSize(|data|, h.pageSize));
            PageAt(h.pageSize, CopyPages(h.pageSize, data, db.pages, KeysOf(db.pages), maxPage), n) == Some(db.pages[n])
  {
    hide Snapshot, CopyPages, PageAt, Encode, ValidHeader, FileOf, PageCountFromSize, KeysOf, PagesSized, Bounded;
    var db := Snapshot(frames[..safe]);
    SnapshotSized(h, frames[..safe]);
    InBounds(frames, safe, n);
    CopyReads(h.pageSize, data, db.pages, KeysOf(db.pages), Max(db.size, PageCountFromSize(|data|, h.pageSize)), n);
  }

  lemma InBounds(frames: seq<Frame>, k: nat, n: U32)
    requires Bounded(frames) && k <= |frames| && n in Snapshot(frames[..k]).pages
    ensures 1 <= n <= Snapshot(frames[..k]).size
  {
    hide Snapshot;
  }

  /** When a pass reports complete, the main file alone is what the log and the file were together. */
  lemma CompletePassIsWhole(data: seq<Byte>, wal: seq<Byte>, h: Header, frames: seq<Frame>, marks: seq<U32>,
                            backfill: nat, n: U32)
    requires Holds(wal, h, frames) && CommitEnded(frames) && Bounded(frames)
    requires BackfillTrue(h.pageSize, data, frames, backfill)
    requires View(h.pageSize, data, frames, n).Some?
    ensures var r := Pass(h.pageSize, data, Some(wal), marks, backfill);
            r.Ok? && (r.value.result.complete ==>
                PageAt(h.pageSize, r.value.data, n) == View(h.pageSize, data, frames, n))
  {
    hide Snapshot, SafeFrame, KeysOf, CopyPages, Holds, Pass, PageAt, Bounded, PageCountFromSize, Live;
    PassOnLog(data, wal, h, frames, marks, backfill);
    PassKeepsBackfillTrue(data, wal, h, frames, marks, backfill);
    PassPreservesView(data, wal, h, frames, marks, backfill, n);
    assert frames[..|frames|] == frames;
    if frames == [] { EmptyRun(); }
  }

  /** A pass reports complete exactly when everything was copied before, or no live reader stands below the
      end of the log. */
  lemma PassCompletesIff(data: seq<Byte>, wal: seq<Byte>, h: Header, frames: seq<Frame>, marks: seq<U32>, backfill: nat)
    requires Holds(wal, h, frames) && backfill <= |frames|
    ensures var r := Pass(h.pageSize, data, Some(wal), marks, backfill);
            && r.Ok?
            && (r.value.result.complete <==> backfill == |frames| || forall m :: m in marks && m > 0 ==> m >= |frames|)
  {
    hide Snapshot, SafeFrame, KeysOf, CopyPages, Holds, Pass, PageCountFromSize;
    PassOnLog(data, wal, h, frames, marks, backfill);
    var safe := SafeFrame(marks, |frames|);
    SafeFrameIs(marks, |frames|, 1);
    SafeFrameIs(marks, |frames|, |frames|);
  }
}
