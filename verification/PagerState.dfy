/** What one connection's layers and files amount to: a working map of pages over a committed one. */
module PagerState {
  import opened Bytes
  import opened Sorting
  import opened Paging
  import opened Wal
  import opened WalRuns
  import opened WalOps
  import opened Checkpoint
  import opened Snapshots
  import F = Freelist

  datatype JournalMode = Legacy | WalMode

  const VERSIONS := 18

  /** `journal_mode_from_page1`. */
  function ModeOf(page1: seq<Byte>): (m: JournalMode)
    requires |page1| >= 20
  {
    if page1[VERSIONS] == 2 && page1[VERSIONS + 1] == 2 then WalMode else Legacy
  }

  function PageCountOf(page1: seq<Byte>): (n: U32)
    requires |page1| >= 32
  {
    F.Field(page1, F.PAGE_COUNT)
  }

  /** The fields of the file header where the format puts them (section 1.3): the version bytes at 18, then from 28
      the page count, the first trunk and the number of free pages. */
  lemma FileHeaderReads(page1: seq<Byte>, a: seq<Byte>, write: Byte, read: Byte, b: seq<Byte>, size: U32, trunk: U32,
                        free: U32, rest: seq<Byte>)
    requires |a| == 18 && |b| == 8
    requires page1 == a + ([write, read] + (b + (Be32(size) + (Be32(trunk) + (Be32(free) + rest)))))
    ensures ModeOf(page1) == (if write == 2 && read == 2 then WalMode else Legacy) && PageCountOf(page1) == size
    ensures F.Field(page1, F.FREELIST_TRUNK) == trunk && F.Field(page1, F.FREELIST_COUNT) == free
  {
    hide Be32, ReadBe32;
    assert page1[18] == write && page1[19] == read;
    assert page1[28..32] == Be32(size) && page1[32..36] == Be32(trunk) && page1[36..40] == Be32(free);
    ReadBe32Of(page1, 28, size);
    ReadBe32Of(page1, 32, trunk);
    ReadBe32Of(page1, 36, free);
  }

  /** Whole pages numbered from 1 to the count page 1 records. */
  ghost predicate WholeMap(ps: nat, m: PageMap) {
    && ValidPageSize(ps) && 1 in m && (forall n :: n in m ==> |m[n]| == ps)
    && forall n: U32 :: n in m <==> 1 <= n <= PageCountOf(m[1])
  }

  /** A page through the log's overlay, then the main file. */
  function Through(ps: nat, data: seq<Byte>, overlay: PageMap, n: U32): (r: Option<seq<Byte>>) {
    if n in overlay then Some(overlay[n]) else PageAt(ps, data, n)
  }

  function PageIn(m: PageMap, n: U32): (r: Option<seq<Byte>>) { if n in m then Some(m[n]) else None }

  /** What the log file holds. */
  datatype LogFile = LogFile(header: Header, commits: seq<Commit>)

  ghost predicate LogOk(ps: nat, wal: seq<Byte>, log: LogFile) {
    && ValidHeader(log.header) && log.header.pageSize == ps
    && ValidCommits(log.header, log.commits) && BoundedCommits(log.commits)
    && Holds(wal, log.header, AllFrames(log.commits))
  }

  /** The files on disk hold exactly the committed pages. There is a log exactly in WAL mode. */
  ghost predicate OnDisk(ps: nat, data: seq<Byte>, wal: Option<seq<Byte>>, log: LogFile, committed: PageMap) {
    && WholeMap(ps, committed)
    && (forall n: U32 :: Through(ps, data, AfterAll(log.commits).pages, n) == PageIn(committed, n))
    && PageAt(ps, data, 1).Some? && (wal.Some? <==> ModeOf(PageAt(ps, data, 1).value) == WalMode)
    && (if wal.Some? then LogOk(ps, wal.value, log) else log.commits == [])
    && (log.commits != [] ==> log.commits[|log.commits| - 1].size == PageCountOf(committed[1]))
  }

  // ----- committing -----

  lemma OverlayGrows(cs: seq<Commit>, c: Commit)
    ensures AfterAll(cs + [c]).pages == AfterAll(cs).pages + c.dirty
    ensures AllFrames(cs + [c]) == AllFrames(cs) + CommitFrames(c)
  {
    assert (cs + [c])[..|cs|] == cs;
  }

  lemma CommitsGrow(h: Header, cs: seq<Commit>, c: Commit)
    requires ValidCommits(h, cs) && BoundedCommits(cs) && ValidCommit(h, c)
    requires (forall n :: n in c.dirty ==> 1 <= n <= c.size) && (cs != [] ==> cs[|cs| - 1].size <= c.size)
    ensures ValidCommits(h, cs + [c]) && BoundedCommits(cs + [c])
  {
    var all := cs + [c];
    forall i, j | 0 <= i < j < |all| ensures all[i].size <= all[j].size {
      if j == |cs| && i < |cs| - 1 { assert cs[i].size <= cs[|cs| - 1].size; }
    }
  }

  /** A commit appended to the log makes the working pages the committed ones. */
  lemma WalCommit(ps: nat, data: seq<Byte>, wal: seq<Byte>, log: LogFile, committed: PageMap, dirty: PageMap,
                  wal': seq<Byte>)
    requires OnDisk(ps, data, Some(wal), log, committed) && WholeMap(ps, committed + dirty) && dirty != map[]
    requires var c := Commit(dirty, PageCountOf((committed + dirty)[1]));
             wal' == FileOf(log.header, AllFrames(log.commits) + CommitFrames(c)) && ValidCommit(log.header, c)
    ensures var c := Commit(dirty, PageCountOf((committed + dirty)[1]));
            OnDisk(ps, data, Some(wal'), log.(commits := log.commits + [c]), committed + dirty)
  {
    hide PageAt, FileOf, Holds, AllFrames, CommitFrames, AfterAll, ValidHeader, PageCountOf, ModeOf, ValidCommits;
    hide BoundedCommits;
    var c, all := Commit(dirty, PageCountOf((committed + dirty)[1])), committed + dirty;
    OverlayGrows(log.commits, c);
    CountsGrow(ps, committed, dirty);
    CommitsGrow(log.header, log.commits, c);
    LogAppends(wal, log, c);
    forall n: U32 ensures Through(ps, data, AfterAll(log.commits + [c]).pages, n) == PageIn(all, n) {
      assert Through(ps, data, AfterAll(log.commits).pages, n) == PageIn(committed, n);
    }
  }

  lemma LogAppends(wal: seq<Byte>, log: LogFile, c: Commit)
    requires Holds(wal, log.header, AllFrames(log.commits)) && ValidCommit(log.header, c)
    ensures var w := FileOf(log.header, AllFrames(log.commits) + CommitFrames(c)); Holds(w, log.header,
            AllFrames(log.commits) + CommitFrames(c))
  {
    hide Holds, AllFrames, CommitFrames, FileOf;
    CommitSized(log.header, c);
    AppendHolds(wal, log.header, AllFrames(log.commits), CommitFrames(c));
  }

  lemma CountsGrow(ps: nat, committed: PageMap, dirty: PageMap)
    requires WholeMap(ps, committed) && WholeMap(ps, committed + dirty)
    ensures PageCountOf(committed[1]) <= PageCountOf((committed + dirty)[1])
    ensures forall n :: n in dirty ==> 1 <= n <= PageCountOf((committed + dirty)[1]) && |dirty[n]| == ps
  {
    hide PageCountOf;
    var all := committed + dirty;
    assert 1 <= PageCountOf(committed[1]);
    assert PageCountOf(committed[1]) in committed;
    assert PageCountOf(committed[1]) in all;
    forall n | n in dirty ensures 1 <= n <= PageCountOf(all[1]) && |dirty[n]| == ps { assert n in all; }
  }

  /** The dirty pages written to the main file, in ascending order, make the working pages the
      committed ones. */
  lemma LegacyCommit(ps: nat, data: seq<Byte>, log: LogFile, committed: PageMap, dirty: PageMap)
    requires OnDisk(ps, data, None, log, committed) && WholeMap(ps, committed + dirty)
    requires ModeOf((committed + dirty)[1]) == Legacy
    ensures OnDisk(ps, CopyPages(ps, data, dirty, KeysOf(dirty), U32_MAX), None, log, committed + dirty)
  {
    hide PageAt, PageCountOf, CopyPages, KeysOf, ModeOf, AfterAll;
    var r, all := CopyPages(ps, data, dirty, KeysOf(dirty), U32_MAX), committed + dirty;
    CountsGrow(ps, committed, dirty);
    EmptyOverlay();
    forall n: U32 ensures Through(ps, r, map[], n) == PageIn(all, n) {
      assert Through(ps, data, map[], n) == PageIn(committed, n);
      CopyReads(ps, data, dirty, KeysOf(dirty), U32_MAX, n);
      if n !in all { PastTheEnd(ps, data, committed, dirty, n); }
    }
    assert Through(ps, r, map[], 1) == PageIn(all, 1);
  }

  lemma EmptyOverlay()
    ensures AfterAll([]).pages == map[]
  {
  }

  /** A page past the working count is past the end of the written file too. */
  lemma PastTheEnd(ps: nat, data: seq<Byte>, committed: PageMap, dirty: PageMap, n: U32)
    requires WholeMap(ps, committed) && WholeMap(ps, committed + dirty) && n !in committed + dirty
    requires forall m: U32 :: PageAt(ps, data, m) == PageIn(committed, m)
    ensures PageAt(ps, CopyPages(ps, data, dirty, KeysOf(dirty), U32_MAX), n) == None
  {
    hide CopyPages, KeysOf, PageCountOf, Times;
    CountsGrow(ps, committed, dirty);
    var last := PageCountOf((committed + dirty)[1]);
    CopyLength(ps, data, dirty, KeysOf(dirty), U32_MAX, last);
    assert PageAt(ps, data, n) == PageIn(committed, n);
    if n > 0 { TimesMono(last, n - 1, ps); TimesStep(n, ps); }
  }

  lemma TimesStep(n: nat, k: nat)
    requires n > 0
    ensures Times(n, k) == Times(n - 1, k) + k
  {
  }

  // ----- switching the journal mode -----

  /** The committed pages with page 1's version bytes rewritten. */
  function Switched(m: PageMap, v: Byte): (r: PageMap)
    requires 1 in m && |m[1]| >= 32
  {
    m[1 := PatchVersion(m[1], v)]
  }

  lemma SwitchedWhole(ps: nat, m: PageMap, v: Byte)
    requires WholeMap(ps, m)
    ensures WholeMap(ps, Switched(m, v)) && PageCountOf(Switched(m, v)[1]) == PageCountOf(m[1])
    ensures ModeOf(Switched(m, v)[1]) == if v == 2 then WalMode else Legacy
  {
    var p, q := m[1], PatchVersion(m[1], v);
    assert q[28] == p[28] && q[29] == p[29] && q[30] == p[30] && q[31] == p[31];
  }

  lemma EnterWal(ps: nat, data: seq<Byte>, log: LogFile, committed: PageMap, h: Header, page1: seq<Byte>)
    requires OnDisk(ps, data, None, log, committed) && ValidHeader(h) && h.pageSize == ps
    requires PageAt(ps, data, 1) == Some(page1)
    ensures page1 == committed[1]
    ensures OnDisk(ps, WriteAt(data, PageOffset(ps, 1), PatchVersion(page1, 2)), Some(HeaderBytes(h)), LogFile(h, []),
            Switched(committed, 2))
  {
    hide PageAt, PageCountOf, ModeOf, WriteAt, PageOffset, HeaderBytes, ValidHeader, PatchVersion;
    EmptyOverlay();
    assert Through(ps, data, map[], 1) == PageIn(committed, 1);
    var r := WriteAt(data, PageOffset(ps, 1), PatchVersion(page1, 2));
    SwitchedWhole(ps, committed, 2);
    WritePageReads(ps, data, 1, PatchVersion(page1, 2));
    forall n: U32 ensures Through(ps, r, map[], n) == PageIn(Switched(committed, 2), n) {
      assert Through(ps, data, map[], n) == PageIn(committed, n);
      if n != 1 && n !in committed { Unreached(ps, data, 1, PatchVersion(page1, 2), n); }
    }
    FreshLog(h);
  }

  /** Rewriting a page the file holds does not bring another page into being. */
  lemma Unreached(ps: nat, data: seq<Byte>, m: nat, page: seq<Byte>, n: U32)
    requires m >= 1 && |page| == ps && PageAt(ps, data, m).Some? && PageAt(ps, data, n).None?
    ensures PageAt(ps, WriteAt(data, PageOffset(ps, m), page), n).None?
  {
    hide PageOffset, WriteAt;
  }

  lemma FreshLog(h: Header)
    requires ValidHeader(h)
    ensures Holds(HeaderBytes(h), h, AllFrames([])) && ValidCommits(h, []) && BoundedCommits([])
  {
    assert HeaderBytes(h) + [] == HeaderBytes(h);
  }

  /** A log of bounded transactions meets what a checkpoint asks of it. */
  lemma LogReady(ps: nat, data: seq<Byte>, wal: seq<Byte>, log: LogFile, committed: PageMap)
    requires OnDisk(ps, data, Some(wal), log, committed)
    ensures var frames := AllFrames(log.commits);
            && Holds(wal, log.header, frames) && ps == log.header.pageSize && CommitEnded(frames) && Bounded(frames)
            && BackfillTrue(ps, data, frames, 0) && Snapshot(frames) == AfterAll(log.commits)
            && (forall n: U32 :: View(ps, data, frames, n) == PageIn(committed, n))
  {
    hide PageAt, PageCountOf, ModeOf, Holds, AfterAll, AllFrames, Snapshot, Bounded, BoundedCommits;
    var frames := AllFrames(log.commits);
    TransactionsBounded(log.header, log.commits);
    SnapshotIsAfterAll(log.header, log.commits);
    LastIsCommit(log.header, log.commits);
    assert frames[..0] == [];
    NoPages();
    forall n: U32 ensures View(ps, data, frames, n) == PageIn(committed, n) {
      assert Through(ps, data, AfterAll(log.commits).pages, n) == PageIn(committed, n);
    }
  }

  lemma NoPages()
    ensures Snapshot([]).pages == map[]
  {
  }

  lemma LastIsCommit(h: Header, cs: seq<Commit>)
    requires ValidCommits(h, cs)
    ensures CommitEnded(AllFrames(cs))
  {
    if cs != [] {
      var c := cs[|cs| - 1];
      assert ValidCommit(h, c) && |c.dirty| > 0;
      var f, g := AllFrames(cs), CommitFrames(c);
      assert f[|f| - 1] == g[|g| - 1];
    }
  }

  /** Once the log is drained and page 1 rewritten, the main file alone holds the committed pages. */
  lemma LeftWal(ps: nat, data: seq<Byte>, wal: seq<Byte>, log: LogFile, committed: PageMap, data': seq<Byte>)
    requires OnDisk(ps, data, Some(wal), log, committed)
    requires forall n: U32 :: n in committed ==>
               PageAt(ps, data', n) == Some(if n == 1 then PatchVersion(committed[n], 1) else committed[n])
    requires |data'| <= Max(|data|, Times(AfterAll(log.commits).size, ps))
    ensures OnDisk(ps, data', None, log.(commits := []), Switched(committed, 1))
  {
    hide PageAt, PageCountOf, ModeOf, AfterAll, PatchVersion, Times, LogOk, Through, PageIn, WholeMap, Switched;
    EmptyOverlay();
    OneCommitted(ps, data, Some(wal), log, committed);
    SwitchedWhole(ps, committed, 1);
    forall n: U32 ensures Through(ps, data', map[], n) == PageIn(Switched(committed, 1), n) {
      LeftPage(ps, data, wal, log, committed, data', n);
    }
    assert PageAt(ps, data', 1) == Some(PatchVersion(committed[1], 1));
    SwitchedFirst(committed);
  }

  lemma OneCommitted(ps: nat, data: seq<Byte>, wal: Option<seq<Byte>>, log: LogFile, committed: PageMap)
    requires OnDisk(ps, data, wal, log, committed)
    ensures 1 in committed && |committed[1]| == ps && ps >= 512 && WholeMap(ps, committed)
  {
  }

  lemma SwitchedFirst(m: PageMap)
    requires 1 in m && |m[1]| >= 32
    ensures 1 in Switched(m, 1) && Switched(m, 1)[1] == PatchVersion(m[1], 1)
  {
  }

  lemma LeftPage(ps: nat, data: seq<Byte>, wal: seq<Byte>, log: LogFile, committed: PageMap, data': seq<Byte>, n: U32)
    requires OnDisk(ps, data, Some(wal), log, committed)
    requires n in committed ==> PageAt(ps, data', n) == Some(if n == 1 then PatchVersion(committed[n], 1)
             else committed[n])
    requires |data'| <= Max(|data|, Times(AfterAll(log.commits).size, ps))
    ensures 1 in committed && |committed[1]| >= 32 && Through(ps, data', map[], n) == PageIn(Switched(committed, 1), n)
  {
    hide PageAt, PageCountOf, ModeOf, AfterAll, PatchVersion, Times, LogOk;
    if n !in committed { BeyondDrained(ps, data, wal, log, committed, data', n); }
  }

  lemma BeyondDrained(ps: nat, data: seq<Byte>, wal: seq<Byte>, log: LogFile, committed: PageMap, data': seq<Byte>,
                      n: U32)
    requires OnDisk(ps, data, Some(wal), log, committed) && n !in committed
    requires |data'| <= Max(|data|, Times(AfterAll(log.commits).size, ps))
    ensures PageAt(ps, data', n) == None
  {
    hide PageCountOf, ModeOf, Times, LogOk;
    assert Through(ps, data, AfterAll(log.commits).pages, n) == PageIn(committed, n);
    var last := PageCountOf(committed[1]);
    if n > 0 {
      TimesStep(n, ps);
      TimesMono(last, n - 1, ps);
      assert AfterAll(log.commits).size <= last;
      TimesMono(AfterAll(log.commits).size, last, ps);
    }
  }
}
