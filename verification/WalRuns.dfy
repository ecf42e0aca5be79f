/** Transactions in the write-ahead log: what a log cut at any byte reads back as, and what
    happens when a writer resumes after such a cut. */
module WalRuns {
  import opened Bytes
  import opened Sorting
  import opened Wal

  /** A transaction: the dirty pages and the page count after it. */
  datatype Commit = Commit(dirty: PageMap, size: U32)

  ghost predicate ValidCommit(h: Header, c: Commit) {
    c.dirty != map[] && c.size != 0 && forall p :: p in c.dirty ==> |c.dirty[p]| == h.pageSize
  }

  ghost predicate ValidCommits(h: Header, cs: seq<Commit>) { forall i :: 0 <= i < |cs| ==> ValidCommit(h, cs[i]) }

  function Keys(c: Commit): (r: seq<nat>)
    ensures |r| == |c.dirty|
    ensures forall i :: 0 <= i < |r| ==> r[i] in c.dirty
    ensures Ascending(r) && forall p: nat :: p in r <==> p in c.dirty
  {
    var r := SortedKeys(set p | p in c.dirty :: p as nat);
    assert (set p | p in c.dirty :: p as nat) == c.dirty.Keys;
    assert forall i :: 0 <= i < |r| ==> r[i] in r;
    r
  }

  /** The frames of a transaction: its pages in ascending order, the last one marked as commit. */
  function CommitFrames(c: Commit): (r: seq<Frame>)
    ensures |r| == |c.dirty|
    ensures forall i :: 0 <= i < |r| ==>
      var p := Keys(c)[i]; r[i] == Frame(p, if i == |r| - 1 then c.size else 0, c.dirty[p])
  {
    var keys := Keys(c);
    seq(|keys|, i requires 0 <= i < |keys| => Frame(keys[i], if i == |keys| - 1 then c.size else 0, c.dirty[keys[i]]))
  }

  function AllFrames(cs: seq<Commit>): (r: seq<Frame>) {
    if cs == [] then [] else AllFrames(cs[..|cs| - 1]) + CommitFrames(cs[|cs| - 1])
  }

  /** The database a reader should see, with no notion of frames. */
  function After(d: Db, c: Commit): (r: Db) { Db(d.pages + c.dirty, c.size) }

  function AfterAll(cs: seq<Commit>): (r: Db) {
    if cs == [] then Db(map[], 0) else After(AfterAll(cs[..|cs| - 1]), cs[|cs| - 1])
  }

  // ----- frames of a commit, applied -----

  lemma {:induction false} LiveConcat(a: seq<Frame>, b: seq<Frame>)
    ensures Live(a + b) == Live(a) + Live(b)
    decreases |b|
  {
    hide Live;
    if b == [] {
      assert a + b == a;
      EmptyRun();
    } else {
      var n := |b| - 1;
      LiveConcat(a, b[..n]);
      LiveSnoc(a + b[..n], b[n]);
      LiveSnoc(b[..n], b[n]);
      assert a + b == (a + b[..n]) + [b[n]] && b == b[..n] + [b[n]];
      assert (Live(a) + Live(b[..n]))[b[n].page := b[n].content] == Live(a) + Live(b[..n])[b[n].page := b[n].content];
    }
  }

  lemma {:induction false} LiveOfCommit(c: Commit, k: nat)
    requires k <= |c.dirty|
    ensures var m := Live(CommitFrames(c)[..k]);
            && (forall i :: 0 <= i < k ==> Keys(c)[i] in m)
            && forall p :: p in m ==> p in c.dirty && m[p] == c.dirty[p]
  {
    hide Keys, CommitFrames, Live;
    if k > 0 {
      LiveOfCommit(c, k - 1);
      var f := CommitFrames(c)[k - 1];
      assert CommitFrames(c)[..k] == CommitFrames(c)[..k - 1] + [f];
      LiveSnoc(CommitFrames(c)[..k - 1], f);
      assert f.page == Keys(c)[k - 1];
    } else {
      assert CommitFrames(c)[..0] == [];
      EmptyRun();
    }
  }

  lemma LiveOfWholeCommit(c: Commit)
    ensures Live(CommitFrames(c)) == c.dirty
  {
    hide Keys, CommitFrames, Live;
    var n := |c.dirty|;
    assert CommitFrames(c)[..n] == CommitFrames(c);
    LiveOfCommit(c, n);
    forall p | p in c.dirty ensures p in Live(CommitFrames(c)) {
      assert p in Keys(c);
      var i :| 0 <= i < |Keys(c)| && Keys(c)[i] == p;
    }
  }

  lemma {:induction false} LiveIsAfterAll(cs: seq<Commit>)
    ensures Live(AllFrames(cs)) == AfterAll(cs).pages
  {
    hide CommitFrames, Live;
    if cs == [] {
      EmptyRun();
    } else {
      var n := |cs| - 1;
      LiveIsAfterAll(cs[..n]);
      LiveConcat(AllFrames(cs[..n]), CommitFrames(cs[n]));
      LiveOfWholeCommit(cs[n]);
    }
  }

  /** A partial transaction at the end of a run is invisible. */
  lemma {:induction false} PartialInvisible(frames: seq<Frame>, c: Commit, k: nat)
    requires k < |c.dirty|
    ensures Snapshot(frames + CommitFrames(c)[..k]) == Snapshot(frames)
  {
    hide CommitFrames, Snapshot, Live, Keys;
    if k == 0 {
      assert frames + CommitFrames(c)[..0] == frames;
    } else {
      var f := CommitFrames(c)[k - 1];
      PartialInvisible(frames, c, k - 1);
      LiveSnoc(frames + CommitFrames(c)[..k - 1], f);
      assert f.dbSize == 0;
      assert frames + CommitFrames(c)[..k] == (frames + CommitFrames(c)[..k - 1]) + [f];
    }
  }

  lemma WholeVisible(frames: seq<Frame>, c: Commit)
    requires c.dirty != map[] && c.size != 0
    ensures Snapshot(frames + CommitFrames(c)) == Db(Live(frames) + c.dirty, c.size)
  {
    hide CommitFrames, Snapshot, Live, Keys;
    assert |c.dirty| > 0;
    var n := |c.dirty| - 1;
    var f := CommitFrames(c)[n];
    assert f.dbSize == c.size;
    var front := frames + CommitFrames(c)[..n];
    assert frames + CommitFrames(c) == front + [f];
    LiveSnoc(front, f);
    LiveConcat(frames, CommitFrames(c));
    LiveOfWholeCommit(c);
  }

  lemma SnapshotIsAfterAll(h: Header, cs: seq<Commit>)
    requires ValidCommits(h, cs)
    ensures Snapshot(AllFrames(cs)) == AfterAll(cs)
  {
    hide CommitFrames, Live;
    if cs != [] {
      var n := |cs| - 1;
      assert ValidCommit(h, cs[n]);
      WholeVisible(AllFrames(cs[..n]), cs[n]);
      LiveIsAfterAll(cs[..n]);
    }
  }

  lemma {:induction false} AllFramesSized(h: Header, cs: seq<Commit>)
    requires ValidCommits(h, cs)
    ensures Sized(h, AllFrames(cs))
  {
    hide Keys;
    if cs != [] {
      var n := |cs| - 1;
      AllFramesSized(h, cs[..n]);
      assert ValidCommit(h, cs[n]);
    }
  }

  lemma {:induction false} AllFramesPrefix(cs: seq<Commit>, j: nat)
    requires j <= |cs|
    ensures AllFrames(cs[..j]) <= AllFrames(cs)
    ensures j < |cs| ==> AllFrames(cs[..j + 1]) == AllFrames(cs[..j]) + CommitFrames(cs[j])
    decreases |cs| - j
  {
    hide CommitFrames;
    if j == |cs| {
      assert cs[..j] == cs;
    } else {
      AllFramesPrefix(cs, j + 1);
      assert cs[..j + 1][..j] == cs[..j];
    }
  }

  // ----- the crash theorem -----

  /** Of `cs`, exactly the first `j` transactions lie wholly inside the first `len` bytes of the log. */
  ghost predicate InsideCut(h: Header, cs: seq<Commit>, j: nat, len: nat) {
    && j <= |cs| && FrameOffset(h, |AllFrames(cs[..j])|) <= len
    && (j < |cs| ==> len < FrameOffset(h, |AllFrames(cs[..j + 1])|))
  }

  lemma FramesInside(h: Header, n: nat, len: nat) returns (k: nat)
    requires FrameOffset(h, 0) <= len <= FrameOffset(h, n)
    ensures k <= n && FrameOffset(h, k) <= len < FrameOffset(h, k + 1)
  {
    if n == 0 || len == FrameOffset(h, n) {
      k := n;
    } else if len >= FrameOffset(h, n - 1) {
      k := n - 1;
    } else {
      k := FramesInside(h, n - 1, len);
    }
  }

  /** Write any transactions to a log, cut the file at any byte past its header, and read it back:
      the result is the database after exactly the transactions that lie wholly inside the cut. */
  lemma CutReadsCommitted(h: Header, cs: seq<Commit>, j: nat, bytes: seq<Byte>)
    requires ValidCommits(h, cs) && HEADER_LEN <= |bytes| && bytes <= FileOf(h, AllFrames(cs))
    requires InsideCut(h, cs, j, |bytes|)
    ensures Snapshot(ScanWal(h, bytes).frames) == AfterAll(cs[..j])
  {
    hide Snapshot, ScanWal, AllFrames, CommitFrames, FileOf, AfterAll, FrameSize, ValidCommits, Sized;
    var frames := AllFrames(cs);
    AllFramesSized(h, cs);
    LogLength(h, cs);
    var k := FramesInside(h, |frames|, |bytes|);
    ScanOfCut(h, frames, bytes, k);
    FramesAtCut(h, cs, j, |bytes|, k);
    SnapshotIsAfterAll(h, cs[..j]) by { ValidFront(h, cs, j); }
  }

  lemma ValidFront(h: Header, cs: seq<Commit>, j: nat)
    requires ValidCommits(h, cs) && j <= |cs|
    ensures ValidCommits(h, cs[..j])
  {
  }

  /** The whole frames inside the cut: those of the whole transactions, and part of the next one. */
  lemma FramesAtCut(h: Header, cs: seq<Commit>, j: nat, len: nat, k: nat)
    requires InsideCut(h, cs, j, len) && k <= |AllFrames(cs)|
    requires FrameOffset(h, k) <= len < FrameOffset(h, k + 1)
    ensures Snapshot(AllFrames(cs)[..k]) == Snapshot(AllFrames(cs[..j]))
  {
    hide Snapshot, AllFrames, CommitFrames, FrameSize;
    var frames, done := AllFrames(cs), AllFrames(cs[..j]);
    AllFramesPrefix(cs, j);
    OffsetOrder(h, |done|, k + 1);
    if j == |cs| {
      assert cs[..j] == cs;
      assert frames[..k] == done;
    } else {
      AllFramesPrefix(cs, j + 1);
      OffsetOrder(h, k, |done| + |CommitFrames(cs[j])|);
      var m := k - |done|;
      PrefixOf(frames, done + CommitFrames(cs[j]), k);
      assert (done + CommitFrames(cs[j]))[..k] == done + CommitFrames(cs[j])[..m];
      PartialInvisible(done, cs[j], m);
    }
  }

  lemma OffsetOrder(h: Header, a: nat, b: nat)
    requires FrameOffset(h, a) < FrameOffset(h, b)
    ensures a < b
  {
    if b <= a { TimesMono(b, a, FrameSize(h)); }
  }

  lemma PrefixOf(frames: seq<Frame>, front: seq<Frame>, k: nat)
    requires front <= frames && k <= |front|
    ensures frames[..k] == front[..k]
  {
  }

  lemma LogLength(h: Header, cs: seq<Commit>)
    requires ValidCommits(h, cs)
    ensures |FileOf(h, AllFrames(cs))| == FrameOffset(h, |AllFrames(cs)|)
  {
    AllFramesSized(h, cs);
    EncodeLength(h, h.sum, AllFrames(cs));
  }

  /** Every cut falls after some number of whole transactions, so the theorem covers every cut. */
  lemma {:induction false} EveryCutCounts(h: Header, cs: seq<Commit>, len: nat) returns (j: nat)
    requires HEADER_LEN <= len
    ensures InsideCut(h, cs, j, len)
    decreases |cs|
  {
    hide AllFrames, FrameOffset;
    NoFrames(h);
    if cs == [] || FrameOffset(h, |AllFrames(cs)|) <= len {
      j := |cs|;
      assert cs[..j] == cs;
    } else {
      var n := |cs| - 1;
      j := EveryCutCounts(h, cs[..n], len);
      assert cs[..n][..j] == cs[..j];
      if j < n { assert cs[..n][..j + 1] == cs[..j + 1]; } else { assert cs[..j + 1] == cs; }
    }
  }

  lemma NoFrames(h: Header)
    ensures FrameOffset(h, |AllFrames([])|) == HEADER_LEN
  {
  }

  // ----- resuming after a torn transaction -----

  /** The frames after the last commit frame. */
  function Orphans(frames: seq<Frame>): (r: seq<Frame>) {
    if frames == [] || frames[|frames| - 1].dbSize != 0 then []
    else Orphans(frames[..|frames| - 1]) + [frames[|frames| - 1]]
  }

  lemma {:induction false} OrphansApart(frames: seq<Frame>)
    ensures Live(frames) == Snapshot(frames).pages + Live(Orphans(frames))
  {
    if frames != [] && frames[|frames| - 1].dbSize == 0 {
      var n := |frames| - 1;
      OrphansApart(frames[..n]);
      LiveSnoc(Orphans(frames[..n]), frames[n]);
    }
  }

  /** A writer appends after the last valid frame, committed or not, so orphans left by a torn
      transaction become part of the next one. The next transaction has its intended effect if and
      only if every orphan page is overwritten by it or already had the orphan's content. */
  lemma ResumeIff(frames: seq<Frame>, c: Commit)
    requires c.dirty != map[] && c.size != 0
    ensures Snapshot(frames + CommitFrames(c)) == After(Snapshot(frames), c) <==>
            forall p :: p in Live(Orphans(frames)) ==>
              p in c.dirty || (p in Snapshot(frames).pages && Snapshot(frames).pages[p] == Live(Orphans(frames))[p])
  {
    hide Snapshot, Live, CommitFrames, Orphans;
    WholeVisible(frames, c);
    OrphansApart(frames);
    var s, o := Snapshot(frames).pages, Live(Orphans(frames));
    if p :| p in o && p !in c.dirty && (p !in s || s[p] != o[p]) {
      assert (s + o + c.dirty)[p] == o[p];
      assert p in s + c.dirty ==> (s + c.dirty)[p] == s[p];
    } else {
      assert s + o + c.dirty == s + c.dirty;
    }
  }

  /** In particular a log that ends in a commit frame can be resumed safely. */
  lemma ResumeAfterCommit(frames: seq<Frame>, c: Commit)
    requires c.dirty != map[] && c.size != 0
    requires frames == [] || frames[|frames| - 1].dbSize != 0
    ensures Snapshot(frames + CommitFrames(c)) == After(Snapshot(frames), c)
  {
    hide CommitFrames, Live;
    assert Orphans(frames) == [];
    EmptyRun();
    ResumeIff(frames, c);
  }

  /** A two-page transaction cut after its first frame resurfaces with the next commit. */
  lemma OrphanResurfaces(page: seq<Byte>)
    ensures var torn := [Frame(2, 0, page)]; var next := Commit(map[3 := page], 3);
            2 !in Snapshot(torn).pages && 2 in Snapshot(torn + CommitFrames(next)).pages
  {
    hide CommitFrames;
    var torn := [Frame(2, 0, page)];
    var dirty: PageMap := map[3 := page];
    assert 3 in dirty;
    WholeVisible(torn, Commit(dirty, 3));
    EmptyRun();
    LiveSnoc([], torn[0]);
    assert [] + [torn[0]] == torn;
  }
}
