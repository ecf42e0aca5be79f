/** Readers, writers and checkpoints sharing a database in WAL mode, and leaving that mode. */
module Snapshots {
  import opened Bytes
  import opened Paging
  import opened Files
  import opened Wal
  import opened WalRuns
  import opened WalOps
  import opened Checkpoint

  /** The main file, the log, and the published backfill. */
  datatype Shared = Shared(data: seq<Byte>, wal: seq<Byte>, backfill: nat)

  datatype Action = Write(c: Commit) | Checkpoint(marks: seq<U32>)

  /** One action as a relation on the files. A commit appends its frames; a checkpoint is one pass. */
  ghost predicate Act(h: Header, s: Shared, a: Action, s': Shared) {
    match a
    case Write(c) =>
      && ValidCommit(h, c)
      && exists frames :: Holds(s.wal, h, frames) && s' == s.(wal := FileOf(h, frames + CommitFrames(c)))
    case Checkpoint(marks) =>
      && var r := Pass(h.pageSize, s.data, Some(s.wal), marks, s.backfill);
      && r.Ok? && s' == s.(data := r.value.data, backfill := r.value.backfill)
  }

  /** A connection's snapshot: the mark it published, then the committed pages it loaded. */
  datatype Reader = Reader(mark: nat, overlay: PageMap)

  function ReaderView(ps: nat, s: Shared, r: Reader, n: U32): (p: Option<seq<Byte>>) {
    if n in r.overlay then Some(r.overlay[n]) else PageAt(ps, s.data, n)
  }

  /** The reader published its mark no later than it loaded the log, as an open does. */
  ghost predicate Loaded(h: Header, s: Shared, frames: seq<Frame>, r: Reader) {
    Holds(s.wal, h, frames) && 0 < r.mark <= |frames| && r.overlay == Snapshot(frames).pages
  }

  ghost predicate RunsTo(h: Header, ss: seq<Shared>, acts: seq<Action>) {
    |ss| == |acts| + 1 && forall i :: 0 <= i < |acts| ==> Act(h, ss[i], acts[i], ss[i + 1])
  }

  /** Checkpoints see the marks of every live reader. */
  ghost predicate MarkHeld(acts: seq<Action>, mark: nat) {
    forall i :: 0 <= i < |acts| && acts[i].Checkpoint? ==> mark in acts[i].marks
  }

  /** The log still starts with the frames the reader loaded, and its view of page `n` is intact. */
  ghost predicate Undisturbed(h: Header, s: Shared, frames: seq<Frame>, r: Reader, n: U32, page: seq<Byte>) {
    && (exists now :: Holds(s.wal, h, now) && frames <= now)
    && ReaderView(h.pageSize, s, r, n) == Some(page)
  }

  lemma ActUndisturbed(h: Header, s: Shared, a: Action, s': Shared, frames: seq<Frame>, r: Reader, n: U32,
                       page: seq<Byte>)
    requires Act(h, s, a, s') && Undisturbed(h, s, frames, r, n, page)
    requires 0 < r.mark <= |frames| && r.overlay == Snapshot(frames).pages
    requires a.Checkpoint? ==> r.mark in a.marks
    ensures Undisturbed(h, s', frames, r, n, page)
  {
    hide Holds, Snapshot, PageAt, FileOf, CommitFrames, Pass, ReaderView;
    var now :| Holds(s.wal, h, now) && frames <= now;
    match a {
      case Write(c) =>
        var later := WriteExtends(h, s, c, s', now);
        assert Holds(s'.wal, h, later) && frames <= later;
        SameData(h.pageSize, s, s', r, n);
      case Checkpoint(marks) =>
        PassUndisturbed(h, s, marks, frames, now, r, n);
        SameData(h.pageSize, s.(data := s'.data), s', r, n);
        assert Holds(s'.wal, h, now) && frames <= now;
    }
  }

  lemma SameData(ps: nat, s: Shared, s': Shared, r: Reader, n: U32)
    requires s.data == s'.data
    ensures ReaderView(ps, s, r, n) == ReaderView(ps, s', r, n)
  {
  }

  lemma WriteExtends(h: Header, s: Shared, c: Commit, s': Shared, now: seq<Frame>) returns (later: seq<Frame>)
    requires Act(h, s, Write(c), s') && Holds(s.wal, h, now)
    ensures s'.data == s.data && Holds(s'.wal, h, later) && later == now + CommitFrames(c)
  {
    hide Holds, FileOf, CommitFrames;
    var seen :| Holds(s.wal, h, seen) && s' == s.(wal := FileOf(h, seen + CommitFrames(c)));
    SameLog(s.wal, h, seen, now);
    CommitSized(h, c);
    HeldSized(s.wal, h, now);
    AppendHolds(s.wal, h, now, CommitFrames(c));
    later := now + CommitFrames(c);
  }

  lemma PassUndisturbed(h: Header, s: Shared, marks: seq<U32>, frames: seq<Frame>, now: seq<Frame>, r: Reader, n: U32)
    requires Holds(s.wal, h, now) && frames <= now
    requires 0 < r.mark <= |frames| && r.overlay == Snapshot(frames).pages && r.mark in marks
    requires ReaderView(h.pageSize, s, r, n).Some?
    ensures var p := Pass(h.pageSize, s.data, Some(s.wal), marks, s.backfill);
            p.Ok? && ReaderView(h.pageSize, s.(data := p.value.data), r, n) == ReaderView(h.pageSize, s, r, n)
  {
    hide Holds, Snapshot, PageAt, Pass, SafeFrame, KeysOf, CopyPages, PageCountFromSize;
    PassOnLog(s.data, s.wal, h, now, marks, s.backfill);
    var safe := SafeFrame(marks, |now|);
    if now != [] && safe > s.backfill && n !in r.overlay {
      assert now[..safe] == frames[..safe];
      LiveGrows(frames, safe);
      CopyLeavesOthers(s.data, s.wal, h, now, safe, n);
    }
  }

  /** A file holds only one run of frames. */
  lemma SameLog(wal: seq<Byte>, h: Header, a: seq<Frame>, b: seq<Frame>)
    requires Holds(wal, h, a) && Holds(wal, h, b)
    ensures a == b
  {
    hide ScanFrom, SumAfter, FileOf, ValidHeader;
    HeldScan(wal, h, a, 0);
    HeldScan(wal, h, b, 0);
    assert a[..0] == b[..0] == [] && a[0..] == a && b[0..] == b;
  }

  /** Snapshot isolation: over any interleaving of commits and checkpoints that respect its mark, a
      reader keeps seeing the same bytes for every page of its snapshot. */
  lemma {:induction false} SnapshotIsolation(h: Header, ss: seq<Shared>, acts: seq<Action>, frames: seq<Frame>,
                                             r: Reader, n: U32)
    requires RunsTo(h, ss, acts) && Loaded(h, ss[0], frames, r) && MarkHeld(acts, r.mark)
    requires ReaderView(h.pageSize, ss[0], r, n).Some?
    ensures ReaderView(h.pageSize, ss[|acts|], r, n) == ReaderView(h.pageSize, ss[0], r, n)
  {
    IsolationRun(h, ss, acts, frames, r, n, |acts|);
  }

  lemma {:induction false} IsolationRun(h: Header, ss: seq<Shared>, acts: seq<Action>, frames: seq<Frame>, r: Reader,
                                        n: U32, k: nat)
    requires RunsTo(h, ss, acts) && Loaded(h, ss[0], frames, r) && MarkHeld(acts, r.mark) && k <= |acts|
    requires ReaderView(h.pageSize, ss[0], r, n).Some?
    ensures Undisturbed(h, ss[k], frames, r, n, ReaderView(h.pageSize, ss[0], r, n).value)
  {
    hide Holds, Act, ReaderView;
    if k > 0 {
      IsolationRun(h, ss, acts, frames, r, n, k - 1);
      ActUndisturbed(h, ss[k - 1], acts[k - 1], ss[k], frames, r, n, ReaderView(h.pageSize, ss[0], r, n).value);
    }
  }

  /** What one pass under any marks, over any backfill, does to a reader that is not among them, as one
      with mark 0 is not: its view of a page is kept if and only if it loaded that page itself, or the
      pass copies nothing different over it. */
  lemma UnmarkedReaderIff(h: Header, s: Shared, s': Shared, frames: seq<Frame>, r: Reader, marks: seq<U32>, n: U32)
    requires Holds(s.wal, h, frames) && Bounded(frames) && PageAt(h.pageSize, s.data, n).Some?
    requires Act(h, s, Checkpoint(marks), s')
    ensures var safe := SafeFrame(marks, |frames|);
            ReaderView(h.pageSize, s', r, n) == ReaderView(h.pageSize, s, r, n) <==>
            n in r.overlay ||
            (safe > s.backfill && n in Snapshot(frames[..safe]).pages ==>
               Some(Snapshot(frames[..safe]).pages[n]) == PageAt(h.pageSize, s.data, n))
  {
    hide Holds, Snapshot, PageAt, Pass, Bounded, CopyPages, KeysOf, SafeFrame;
    PassOnLog(s.data, s.wal, h, frames, marks, s.backfill);
    var safe := SafeFrame(marks, |frames|);
    if frames != [] && safe > s.backfill {
      if n in Snapshot(frames[..safe]).pages {
        CopySets(s.data, s.wal, h, frames, safe, n);
      } else {
        CopyLeavesOthers(s.data, s.wal, h, frames, safe, n);
      }
    }
  }

  /** A mark of 0 does not hold a checkpoint back. */
  lemma {:induction false} ZeroMarkIgnored(marks: seq<U32>, total: nat)
    ensures SafeFrame([0] + marks, total) == SafeFrame(marks, total)
  {
    assert ([0] + marks)[1..] == marks;
  }

  /** The run that breaks isolation: a reader opens over an empty log and publishes mark 0, someone
      commits, a checkpoint runs; the reader now sees the new content of every page of the commit. */
  lemma UnmarkedReaderDisturbed(h: Header, data: seq<Byte>, c: Commit, n: U32) returns (ss: seq<Shared>)
    requires ValidHeader(h) && ValidCommit(h, c) && BoundedCommits([c])
    requires n in c.dirty && PageAt(h.pageSize, data, n).Some?
    ensures |ss| == 3 && ss[0] == Shared(data, HeaderBytes(h), 0) && RunsTo(h, ss, [Write(c), Checkpoint([0])])
    ensures var r := Reader(0, map[]);
            && ReaderView(h.pageSize, ss[0], r, n) == ReaderView(h.pageSize, ss[1], r, n) == PageAt(h.pageSize, data, n)
            && ReaderView(h.pageSize, ss[2], r, n) == Some(c.dirty[n])
  {
    hide *;
    var s0 := Shared(data, HeaderBytes(h), 0);
    var s1 := s0.(wal := FileOf(h, CommitFrames(c)));
    FirstWrite(h, data, c);
    OneCommit(h, c);
    var s2 := UnboundedPass(h, s1, CommitFrames(c), n);
    ss := [s0, s1, s2];
    ThreeStates(h, ss, Write(c), Checkpoint([0]));
    Bare(h.pageSize, s0, n);
    Bare(h.pageSize, s1, n);
    Bare(h.pageSize, s2, n);
  }

  lemma FirstWrite(h: Header, data: seq<Byte>, c: Commit)
    requires ValidHeader(h) && ValidCommit(h, c)
    ensures var s := Shared(data, HeaderBytes(h), 0); Act(h, s, Write(c), s.(wal := FileOf(h, CommitFrames(c))))
    ensures Holds(FileOf(h, CommitFrames(c)), h, CommitFrames(c))
  {
    hide *;
    var frames := CommitFrames(c);
    EmptyLog(h, 0);
    CommitSized(h, c);
    SomeFrames(h, c);
    AppendHolds(HeaderBytes(h), h, [], frames);
    assert [] + frames == frames;
    WriteActs(h, Shared(data, HeaderBytes(h), 0), [], c);
  }

  lemma SomeFrames(h: Header, c: Commit)
    requires ValidCommit(h, c)
    ensures CommitFrames(c) != []
  {
    assert |CommitFrames(c)| == |c.dirty|;
  }

  lemma WriteActs(h: Header, s: Shared, frames: seq<Frame>, c: Commit)
    requires Holds(s.wal, h, frames) && ValidCommit(h, c)
    ensures Act(h, s, Write(c), s.(wal := FileOf(h, frames + CommitFrames(c))))
  {
    hide Holds, FileOf, CommitFrames, ValidCommit;
  }

  /** A pass that sees only marks of 0 copies the whole log. */
  lemma UnboundedPass(h: Header, s: Shared, frames: seq<Frame>, n: U32) returns (s': Shared)
    requires Holds(s.wal, h, frames) && Bounded(frames) && s.backfill < |frames| && n in Snapshot(frames).pages
    ensures Act(h, s, Checkpoint([0]), s') && PageAt(h.pageSize, s'.data, n) == Some(Snapshot(frames).pages[n])
  {
    hide Holds, Snapshot, PageAt, Pass, Bounded, CopyPages, KeysOf, SafeFrame, PageCountFromSize;
    PassOnLog(s.data, s.wal, h, frames, [0], s.backfill);
    ZeroMarkIgnored([], |frames|);
    NoMarks(|frames|);
    assert [0] + [] == [0] && frames[..|frames|] == frames;
    CopySets(s.data, s.wal, h, frames, |frames|, n);
    var p := Pass(h.pageSize, s.data, Some(s.wal), [0], s.backfill).value;
    s' := s.(data := p.data, backfill := p.backfill);
  }

  lemma ThreeStates(h: Header, ss: seq<Shared>, a: Action, b: Action)
    requires |ss| == 3 && Act(h, ss[0], a, ss[1]) && Act(h, ss[1], b, ss[2])
    ensures RunsTo(h, ss, [a, b])
  {
    hide Act;
  }

  lemma Bare(ps: nat, s: Shared, n: U32)
    ensures ReaderView(ps, s, Reader(0, map[]), n) == PageAt(ps, s.data, n)
  {
  }

  lemma NoMarks(total: nat)
    ensures SafeFrame([], total) == total
  {
  }

  /** A log of one commit reads as that commit. */
  lemma OneCommit(h: Header, c: Commit)
    requires ValidCommit(h, c) && BoundedCommits([c])
    ensures Snapshot(CommitFrames(c)) == Db(c.dirty, c.size) && Bounded(CommitFrames(c)) && CommitFrames(c) != []
  {
    hide Snapshot, CommitFrames, Bounded, BoundedCommits;
    var cs := [c];
    assert cs[..0] == [] && AllFrames(cs) == [] + CommitFrames(c) == CommitFrames(c) by { assert cs[..|cs| - 1] == []; }
    assert AfterAll(cs) == Db(map[] + c.dirty, c.size) by { assert cs[..|cs| - 1] == []; }
    assert map[] + c.dirty == c.dirty;
    SnapshotIsAfterAll(h, cs);
    TransactionsBounded(h, cs);
    if CommitFrames(c) == [] { EmptyRun(); }
  }

  /** For one: a one-page file of zeros, and a commit of a page of ones. */
  lemma UnmarkedReaderMisled() returns (h: Header, ss: seq<Shared>, acts: seq<Action>)
    ensures RunsTo(h, ss, acts) && |acts| == 2 && acts[1] == Checkpoint([0])
    ensures ReaderView(h.pageSize, ss[0], Reader(0, map[]), 1) == Some(Zeros(512))
    ensures ReaderView(h.pageSize, ss[2], Reader(0, map[]), 1) == Some(seq(512, _ => 1))
  {
    hide *;
    var page: seq<Byte> := seq(512, _ => 1);
    h := NewHeader(true, 512, 0, 0, 1);
    OnePageFile(Zeros(512));
    OnePageCommit(h, page);
    assert ValidPageSize(512) by { SmallestPage(); }
    ss := UnmarkedReaderDisturbed(h, Zeros(512), Commit(map[1 := page], 1), 1);
    acts := [Write(Commit(map[1 := page], 1)), Checkpoint([0])];
  }

  lemma SmallestPage()
    ensures ValidPageSize(512)
  {
  }

  lemma OnePageFile(data: seq<Byte>)
    ensures PageAt(|data|, data, 1) == Some(data)
  {
    assert data[0..|data|] == data;
  }

  lemma OnePageCommit(h: Header, page: seq<Byte>)
    requires |page| == h.pageSize
    ensures var c := Commit(map[1 := page], 1); ValidCommit(h, c) && BoundedCommits([c])
  {
    assert 1 in map[1 := page];
  }

  // ----- logs of transactions are bounded -----

  ghost predicate BoundedCommits(cs: seq<Commit>) {
    && (forall i, n :: 0 <= i < |cs| && n in cs[i].dirty ==> 1 <= n <= cs[i].size)
    && (forall i, j :: 0 <= i < j < |cs| ==> cs[i].size <= cs[j].size)
  }

  lemma {:induction false} AfterAllBounded(cs: seq<Commit>)
    requires BoundedCommits(cs)
    ensures forall n :: n in AfterAll(cs).pages ==> 1 <= n <= AfterAll(cs).size
  {
    if cs != [] {
      var k := |cs| - 1;
      AfterAllBounded(cs[..k]);
      assert k > 0 ==> AfterAll(cs[..k]).size == cs[k - 1].size;
    }
  }

  /** Transactions that touch only pages within non-shrinking sizes make a bounded log. */
  lemma TransactionsBounded(h: Header, cs: seq<Commit>)
    requires ValidCommits(h, cs) && BoundedCommits(cs)
    ensures Bounded(AllFrames(cs))
  {
    hide Snapshot, AllFrames, AfterAll;
    forall k, n | 0 <= k <= |AllFrames(cs)| && n in Snapshot(AllFrames(cs)[..k]).pages
      ensures 1 <= n <= Snapshot(AllFrames(cs)[..k]).size
    {
      var j := EveryCutCounts(h, cs, FrameOffset(h, k));
      FramesAtCut(h, cs, j, FrameOffset(h, k), k);
      SnapshotIsAfterAll(h, cs[..j]);
      AfterAllBounded(cs[..j]);
    }
  }

  // ----- leaving WAL mode -----

  const MAX_PASSES := 1000

  datatype SwitchError = Log(e: WalError) | CheckpointIncomplete

  lemma {:induction false} CopyLength(ps: nat, data: seq<Byte>, pages: PageMap, keys: seq<nat>, maxPage: nat, last: nat)
    requires PagesSized(ps, pages) && forall i :: 0 <= i < |keys| ==> keys[i] in pages && keys[i] <= last
    ensures |CopyPages(ps, data, pages, keys, maxPage)| <= Max(|data|, Times(last, ps))
  {
    if keys != [] {
      var k := |keys| - 1;
      CopyLength(ps, data, pages, keys[..k], maxPage, last);
      if 1 <= keys[k] <= maxPage { PageFits(ps, keys[k], last); }
    }
  }

  /** With no reader in the way one pass copies everything, and grows the file no further than the
      database. */
  lemma UnreadPassCompletes(data: seq<Byte>, wal: seq<Byte>, h: Header, frames: seq<Frame>, backfill: nat)
    requires Holds(wal, h, frames) && Bounded(frames) && BackfillTrue(h.pageSize, data, frames, backfill)
    ensures var r := Pass(h.pageSize, data, Some(wal), [], backfill);
            r.Ok? && r.value.result.complete && |r.value.data| <= Max(|data|, Times(Snapshot(frames).size, h.pageSize))
  {
    hide Snapshot, KeysOf, CopyPages, Holds, Pass, PageAt, PageCountFromSize, Times;
    PassOnLog(data, wal, h, frames, [], backfill);
    assert frames[..|frames|] == frames;
    if frames != [] && |frames| > backfill {
      var db := Snapshot(frames);
      HeldSized(wal, h, frames);
      SnapshotSized(h, frames);
      CopyLength(h.pageSize, data, db.pages, KeysOf(db.pages), Max(db.size, PageCountFromSize(|data|, h.pageSize)),
        db.size);
    }
  }

  /** The checkpoint loop of `switch_wal_to_journal`; `marks[i]` are the readers seen by pass `i`. */
  method DrainLog(file: RawFile, ps: nat, wal: seq<Byte>, marks: seq<seq<U32>>, backfill: nat, ghost h: Header,
                  ghost frames: seq<Frame>)
    returns (r: Result<nat, SwitchError>)
    requires |marks| == MAX_PASSES
    requires Holds(wal, h, frames) && ps == h.pageSize && CommitEnded(frames) && Bounded(frames)
    requires BackfillTrue(ps, file.data, frames, backfill)
    modifies file
    ensures forall n: U32 :: View(ps, old(file.data), frames, n).Some? ==>
              View(ps, file.data, frames, n) == View(ps, old(file.data), frames, n)
    ensures r.Ok? ==> forall n: U32 :: View(ps, old(file.data), frames, n).Some? ==>
              PageAt(ps, file.data, n) == View(ps, old(file.data), frames, n)
    ensures r.Err? ==> r.error == CheckpointIncomplete
    ensures marks[0] == [] ==> r.Ok? && |file.data| <= Max(|old(file.data)|, Times(Snapshot(frames).size, ps))
  {
    hide Holds, View, PageAt, Pass, Bounded, BackfillTrue, CommitEnded, Snapshot, Times;
    var done := backfill;
    var i := 0;
    while i < MAX_PASSES
      invariant 0 <= i <= MAX_PASSES && (marks[0] == [] ==> i == 0)
      invariant i == 0 ==> file.data == old(file.data)
      invariant BackfillTrue(ps, file.data, frames, done)
      invariant forall n: U32 :: View(ps, old(file.data), frames, n).Some? ==>
                  View(ps, file.data, frames, n) == View(ps, old(file.data), frames, n)
    {
      ghost var before := file.data;
      PassKeepsBackfillTrue(before, wal, h, frames, marks[i], done);
      if marks[i] == [] { UnreadPassCompletes(before, wal, h, frames, done); }
      forall n: U32 | View(ps, before, frames, n).Some?
        ensures var o := Pass(ps, before, Some(wal), marks[i], done).value;
                && View(ps, o.data, frames, n) == View(ps, before, frames, n)
                && (o.result.complete ==> PageAt(ps, o.data, n) == View(ps, before, frames, n))
      {
        PassPreservesView(before, wal, h, frames, marks[i], done, n);
        CompletePassIsWhole(before, wal, h, frames, marks[i], done, n);
      }
      var result, published := CheckpointPassive(file, ps, Some(wal), marks[i], done);
      match result {
        case Err(e) => return Err(Log(e));
        case Ok(pass) => if pass.complete { return Ok(i + 1); }
      }
      done := published;
      i := i + 1;
    }
    r := Err(CheckpointIncomplete);
  }

  /** `patch_journal_mode_bytes`: the two version bytes of page 1. */
  function PatchVersion(page: seq<Byte>, v: Byte): (r: seq<Byte>)
    requires |page| >= 20
    ensures |r| == |page| && forall i :: 0 <= i < |page| ==> r[i] == if i == 18 || i == 19 then v else page[i]
  {
    page[18 := v][19 := v]
  }

  /** Leaving WAL mode: drain the log, then rewrite the version bytes of page 1 in the main file.
      With the log gone, every page reads as the log and the file together did, but for those bytes. */
  method LeaveWal(file: RawFile, ps: nat, wal: seq<Byte>, marks: seq<seq<U32>>, backfill: nat, ghost h: Header,
                  ghost frames: seq<Frame>)
    returns (r: Result<(), SwitchError>)
    requires |marks| == MAX_PASSES
    requires Holds(wal, h, frames) && ps == h.pageSize && CommitEnded(frames) && Bounded(frames)
    requires BackfillTrue(ps, file.data, frames, backfill)
    requires View(ps, file.data, frames, 1).Some?
    modifies file
    ensures r.Ok? ==> forall n: U32 :: View(ps, old(file.data), frames, n).Some? ==>
              var was := View(ps, old(file.data), frames, n).value;
              PageAt(ps, file.data, n) == Some(if n == 1 && |was| >= 20 then PatchVersion(was, 1) else was)
    ensures r.Err? ==> forall n: U32 :: View(ps, old(file.data), frames, n).Some? ==>
              View(ps, file.data, frames, n) == View(ps, old(file.data), frames, n)
    ensures marks[0] == [] ==> r.Ok? && |file.data| <= Max(|old(file.data)|, Times(Snapshot(frames).size, ps))
  {
    hide View, PageAt, Pass, Bounded, BackfillTrue, CommitEnded, PageOffset, FileOf, ScanWal, Snapshot, Times;
    LogPageSize(wal, h, frames);
    var drained := DrainLog(file, ps, wal, marks, backfill, h, frames);
    if drained.Err? {
      return Err(drained.error);
    }
    ghost var before := file.data;
    var page1 := PageAt(ps, file.data, 1).value;
    var patched := PatchVersion(page1, 1);
    file.Write(PageOffset(ps, 1), patched);
    WritePageReads(ps, before, 1, patched);
    PageAtMeans(ps, before, 1);
    r := Ok(());
  }

  lemma PageAtMeans(ps: nat, data: seq<Byte>, n: nat)
    requires PageAt(ps, data, n).Some?
    ensures n >= 1 && PageOffset(ps, n) + ps <= |data|
  {
  }

  lemma LogPageSize(wal: seq<Byte>, h: Header, frames: seq<Frame>)
    requires Holds(wal, h, frames)
    ensures h.pageSize >= 512
  {
  }
}
