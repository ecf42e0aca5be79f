/** The log writer: buffered appends, the resume shortcut, and commits by writers taking turns. */
module WalOps {
  import opened Bytes
  import opened Sorting
  import opened Files
  import opened Wal
  import opened WalRuns

  datatype ResumeHint = ResumeHint(header: Header, offset: nat, running: Sum, expectedSize: nat)

  /** Where a writer continues. */
  datatype Position = Position(header: Header, offset: nat, running: Sum)

  /** A hint is trusted when the file has the size it was taken at and still starts with its header. */
  predicate Trusted(data: seq<Byte>, hint: Option<ResumeHint>) {
    hint.Some? && hint.value.expectedSize == |data| && ParseHeader(data[..Min(|data|, HEADER_LEN)]) ==
      Ok(hint.value.header)
  }

  /** Full rescan: the position just past the last valid frame. */
  function Rescan(data: seq<Byte>, pageSize: nat): (r: Result<Position, WalError>) {
    match ParseHeader(data)
    case Err(e) => Err(e)
    case Ok(h) =>
      if h.pageSize != pageSize then Err(InvalidPageSize(h.pageSize))
      else Ok(Position(h, ScanWal(h, data).end, ScanWal(h, data).running))
  }

  function Resume(data: seq<Byte>, pageSize: nat, hint: Option<ResumeHint>): (r: Result<Position, WalError>) {
    if Trusted(data, hint) then Ok(Position(hint.value.header, hint.value.offset, hint.value.running))
    else Rescan(data, pageSize)
  }

  // ----- logs this code produced -----

  /** The file holds these frames and, after a power cut, perhaps part of one more. */
  ghost predicate Holds(data: seq<Byte>, h: Header, frames: seq<Frame>) {
    ValidHeader(h) && Sized(h, frames) && FileOf(h, frames) <= data && |data| < FrameOffset(h, |frames| + 1)
  }

  function PositionAt(h: Header, frames: seq<Frame>): Position {
    Position(h, FrameOffset(h, |frames|), SumAfter(h, h.sum, frames))
  }

  function HintAt(h: Header, frames: seq<Frame>): ResumeHint {
    ResumeHint(h, FrameOffset(h, |frames|), SumAfter(h, h.sum, frames), FrameOffset(h, |frames|))
  }

  /** A hint taken at some earlier point of this log. */
  ghost predicate Fits(h: Header, frames: seq<Frame>, hint: Option<ResumeHint>) {
    hint.Some? ==> exists m: nat :: m <= |frames| && hint.value == HintAt(h, frames[..m])
  }

  lemma RescanFinds(data: seq<Byte>, h: Header, frames: seq<Frame>)
    requires Holds(data, h, frames)
    ensures Rescan(data, h.pageSize) == Ok(PositionAt(h, frames))
    ensures |FileOf(h, frames)| == FrameOffset(h, |frames|)
  {
    hide Encode, SumAfter, ScanFrom, FrameSum;
    EncodeLength(h, h.sum, frames);
    var torn := data[|FileOf(h, frames)|..];
    assert data == HeaderBytes(h) + (Encode(h, h.sum, frames) + torn);
    HeaderRoundTrip(h, Encode(h, h.sum, frames) + torn);
    assert frames[..0] == [] && frames[0..|frames|] == frames && frames[..|frames|] == frames;
    HeldScan(data, h, frames, 0);
    assert SumAfter(h, h.sum, []) == h.sum by { EmptySum(h); }
  }

  lemma EmptySum(h: Header)
    ensures SumAfter(h, h.sum, []) == h.sum
  {
  }

  /** A torn tail shorter than a frame does not change what the scan finds. */
  lemma {:induction false} HeldScan(data: seq<Byte>, h: Header, frames: seq<Frame>, i: nat)
    requires Holds(data, h, frames) && i <= |frames|
    ensures ScanFrom(h, data, FrameOffset(h, i), SumAfter(h, h.sum, frames[..i])) ==
            Scan(frames[i..], FrameOffset(h, |frames|), SumAfter(h, h.sum, frames))
    decreases |frames| - i
  {
    hide FrameBytes, FrameSum, Encode, FrameAt, FileOf, SumAfter, ValidHeader;
    var off, running := FrameOffset(h, i), SumAfter(h, h.sum, frames[..i]);
    if i < |frames| {
      var f := frames[i];
      FrameLies(h, frames, i);
      assert data[off..off + FrameSize(h)] == FileOf(h, frames)[off..off + FrameSize(h)];
      FrameReads(h, data, off, running, f);
      assert frames[..i + 1] == frames[..i] + [f];
      EncodeSnoc(h, h.sum, frames[..i], f);
      HeldScan(data, h, frames, i + 1);
      assert frames[i..] == [f] + frames[i + 1..];
    } else {
      assert frames[..i] == frames && frames[i..] == [];
      TooShort(h, data, off, running);
    }
  }

  /** Resuming from a hint gives exactly the position a full rescan would. */
  lemma HintMatchesRescan(data: seq<Byte>, h: Header, frames: seq<Frame>, hint: Option<ResumeHint>)
    requires Holds(data, h, frames) && Fits(h, frames, hint)
    ensures Resume(data, h.pageSize, hint) == Rescan(data, h.pageSize) == Ok(PositionAt(h, frames))
  {
    hide Encode, SumAfter, ScanWal, Rescan, ParseHeader, FileOf;
    RescanFinds(data, h, frames);
    if Trusted(data, hint) {
      var m: nat :| m <= |frames| && hint.value == HintAt(h, frames[..m]);
      if m < |frames| { TimesMono(m, |frames|, FrameSize(h)); assert false; }
      assert frames[..m] == frames;
    }
  }

  lemma FitsLater(h: Header, frames: seq<Frame>, more: seq<Frame>, hint: Option<ResumeHint>)
    requires Fits(h, frames, hint)
    ensures Fits(h, frames + more, hint)
  {
    if hint.Some? {
      var m: nat :| m <= |frames| && hint.value == HintAt(h, frames[..m]);
      assert (frames + more)[..m] == frames[..m];
    }
  }

  /** Appending whole frames overwrites any torn tail. */
  lemma AppendHolds(data: seq<Byte>, h: Header, frames: seq<Frame>, more: seq<Frame>)
    requires Holds(data, h, frames) && Sized(h, more) && more != []
    ensures WriteAt(data, FrameOffset(h, |frames|), Encode(h, SumAfter(h, h.sum, frames), more)) ==
            FileOf(h, frames + more)
    ensures Holds(FileOf(h, frames + more), h, frames + more)
  {
    hide SumAfter, FrameSum, Encode, ValidHeader, HeaderBytes, Sized, FileOf, WriteAt;
    AppendLengths(h, frames, more);
    FileConcat(h, frames, more);
    OverwriteTail(data, FileOf(h, frames), Encode(h, SumAfter(h, h.sum, frames), more));
  }

  lemma FileConcat(h: Header, frames: seq<Frame>, more: seq<Frame>)
    ensures FileOf(h, frames + more) == FileOf(h, frames) + Encode(h, SumAfter(h, h.sum, frames), more)
  {
    hide SumAfter, FrameSum, Encode, HeaderBytes;
    EncodeConcat(h, h.sum, frames, more);
  }

  lemma OverwriteTail(data: seq<Byte>, front: seq<Byte>, bytes: seq<Byte>)
    requires front <= data && |data| <= |front| + |bytes|
    ensures WriteAt(data, |front|, bytes) == front + bytes
  {
  }

  lemma AppendLengths(h: Header, frames: seq<Frame>, more: seq<Frame>)
    requires Sized(h, frames) && Sized(h, more) && more != []
    ensures |FileOf(h, frames)| == FrameOffset(h, |frames|)
    ensures |FileOf(h, frames + more)| == FrameOffset(h, |frames + more|)
    ensures Sized(h, frames + more)
    ensures FrameOffset(h, |frames| + 1) <= FrameOffset(h, |frames|) + |Encode(h, SumAfter(h, h.sum, frames), more)|
    ensures FrameOffset(h, |frames|) + |Encode(h, SumAfter(h, h.sum, frames), more)| == FrameOffset(h, |frames + more|)
  {
    hide SumAfter, FrameSum, Encode, FrameSize, HeaderBytes;
    EncodeLength(h, h.sum, frames);
    EncodeLength(h, SumAfter(h, h.sum, frames), more);
    EncodeLength(h, h.sum, frames + more);
    TimesSum(|frames|, |more|, FrameSize(h));
    TimesMono(|frames| + 1, |frames| + |more|, FrameSize(h));
  }

  lemma {:induction false} TimesSum(a: nat, b: nat, k: nat)
    ensures Times(a + b, k) == Times(a, k) + Times(b, k)
    decreases b
  {
    if b > 0 { TimesSum(a, b - 1, k); }
  }

  // ----- the writer -----

  class WalWriter {
    const file: RawFile
    const header: Header
    var running: Sum
    var offset: nat
    var pendingOffset: Option<nat>
    var pending: seq<Byte>
    ghost var synced: seq<Frame>  // frames already in the file
    ghost var queued: seq<Frame>  // frames appended since the last sync

    ghost predicate Valid()
      reads this, file
    {
      && Holds(file.data, header, synced) && Sized(header, queued)
      && Position(header, offset, running) == PositionAt(header, synced + queued)
      && pending == Encode(header, SumAfter(header, header.sum, synced), queued)
      && pendingOffset == if queued == [] then None else Some(FrameOffset(header, |synced|))
    }

    constructor Create(f: RawFile, h: Header)
      requires ValidHeader(h)
      modifies f
      ensures file == f && header == h && f.data == WriteAt(old(f.data), 0, HeaderBytes(h))
      ensures synced == [] && queued == []
      ensures |old(f.data)| < FrameOffset(h, 1) ==> Valid()
    {
      file := f;
      header := h;
      running := h.sum;
      offset := HEADER_LEN;
      pendingOffset := None;
      pending := [];
      synced := [];
      queued := [];
      new;
      f.data := WriteAt(f.data, 0, HeaderBytes(h));
      assert HeaderBytes(h) + [] == HeaderBytes(h);
    }

    constructor At(f: RawFile, p: Position, ghost frames: seq<Frame>)
      ensures file == f && header == p.header && offset == p.offset && running == p.running
      ensures pendingOffset == None && pending == [] && synced == frames && queued == []
    {
      file := f;
      header := p.header;
      running := p.running;
      offset := p.offset;
      pendingOffset := None;
      pending := [];
      synced := frames;
      queued := [];
    }

    method AppendFrame(page: U32, content: seq<Byte>, dbSize: U32)
      requires Valid() && |content| == header.pageSize
      modifies this
      ensures Valid() && synced == old(synced) && queued == old(queued) + [Frame(page, dbSize, content)]
    {
      hide Encode, FrameSum, FrameBytes, Holds, SumAfter;
      ghost var start := SumAfter(header, header.sum, synced);
      var f := Frame(page, dbSize, content);
      EncodeSnoc(header, start, queued, f);
      EncodeConcat(header, header.sum, synced, queued);
      EncodeConcat(header, header.sum, synced, queued + [f]);
      if pendingOffset.None? {
        pendingOffset := Some(offset);
      }
      pending := pending + FrameBytes(header, running, f);
      running := FrameSum(header, running, f);
      offset := offset + FrameSize(header);
      queued := queued + [f];
      assert |synced + queued| == |old(synced + queued)| + 1;
    }

    method Sync()
      requires Valid()
      modifies this, file
      ensures Valid() && synced == old(synced + queued) && queued == []
      ensures file.data == if old(queued) == [] then old(file.data) else FileOf(header, synced)
    {
      hide Encode, FrameSum, FrameBytes, SumAfter;
      if pendingOffset.Some? {
        AppendHolds(file.data, header, synced, queued);
        file.data := WriteAt(file.data, pendingOffset.value, pending);
      }
      pendingOffset := None;
      pending := [];
      assert old(queued) == [] ==> synced + queued == synced;
      synced := synced + queued;
      queued := [];
      assert synced + queued == synced;
      assert Encode(header, SumAfter(header, header.sum, synced), []) == [] by {
        EmptyEncode(header, SumAfter(header, header.sum, synced));
      }
    }

    method HintNow() returns (r: ResumeHint)
      requires Valid()
      ensures queued == [] ==> r == HintAt(header, synced)
    {
      assert synced + [] == synced;
      r := ResumeHint(header, offset, running, offset);
    }

    method FrameCount() returns (n: nat)
      requires Valid()
      ensures n == |synced| + |queued|
    {
      hide Holds, Encode, SumAfter;
      CountOf(header, |synced + queued|);
      n := (offset - HEADER_LEN) / FrameSize(header);
    }
  }

  lemma CountOf(h: Header, n: nat)
    ensures (FrameOffset(h, n) - HEADER_LEN) / FrameSize(h) == n
  {
    TimesDiv(n, FrameSize(h), 0);
  }

  lemma EmptyEncode(h: Header, start: Sum)
    ensures Encode(h, start, []) == []
  {
  }

  /** `open_existing`. */
  method OpenExisting(f: RawFile, pageSize: nat, hint: Option<ResumeHint>, ghost h: Header, ghost frames: seq<Frame>)
    returns (r: Result<WalWriter, WalError>)
    ensures r.Err? <==> Resume(f.data, pageSize, hint).Err?
    ensures r.Err? ==> r.error == Resume(f.data, pageSize, hint).error
    ensures r.Ok? ==> fresh(r.value) && r.value.file == f
                      && Position(r.value.header, r.value.offset, r.value.running) ==
                         Resume(f.data, pageSize, hint).value
    ensures Holds(f.data, h, frames) && Fits(h, frames, hint) && pageSize == h.pageSize ==>
              r.Ok? && r.value.header == h && r.value.Valid() && r.value.synced == frames && r.value.queued == []
  {
    hide ScanWal, Encode, SumAfter, FileOf, ParseHeader, ValidHeader;
    if Holds(f.data, h, frames) && Fits(h, frames, hint) && pageSize == h.pageSize {
      HintMatchesRescan(f.data, h, frames, hint);
    }
    var p: Position;
    if Trusted(f.data, hint) {
      p := Position(hint.value.header, hint.value.offset, hint.value.running);
    } else {
      var parsed := ParseHeader(f.data);
      if parsed.Err? {
        return Err(parsed.error);
      }
      if parsed.value.pageSize != pageSize {
        return Err(InvalidPageSize(parsed.value.pageSize));
      }
      var off, running := LastValidFrameState(parsed.value, f.data);
      p := Position(parsed.value, off, running);
    }
    var w := new WalWriter.At(f, p, frames);
    assert frames + [] == frames;
    EmptyEncode(h, SumAfter(h, h.sum, frames));
    r := Ok(w);
  }

  /** The log, and the hint cached with it, once a commit is appended to `frames`. */
  function LogWith(h: Header, frames: seq<Frame>, c: Commit): (r: seq<Byte>) { FileOf(h, frames + CommitFrames(c)) }

  function HintWith(h: Header, frames: seq<Frame>, c: Commit): (r: ResumeHint) { HintAt(h, frames + CommitFrames(c)) }

  /** The log half of `flush_wal_locked` at `synchronous = FULL`: one commit appended and synced. */
  method FlushWal(f: RawFile, hint: Option<ResumeHint>, c: Commit, ghost h: Header, ghost frames: seq<Frame>,
                  pageSize: nat)
    returns (r: Result<ResumeHint, WalError>)
    requires Holds(f.data, h, frames) && Fits(h, frames, hint) && pageSize == h.pageSize && ValidCommit(h, c)
    modifies f
    ensures r == Ok(HintWith(h, frames, c))
    ensures f.data == LogWith(h, frames, c)
  {
    hide Encode, SumAfter, FileOf, CommitFrames, Keys, Holds, Fits, Resume;
    var opened' := OpenExisting(f, pageSize, hint, h, frames);
    var w: WalWriter;
    match opened' {
      case Err(e) => return Err(e);
      case Ok(writer) => w := writer;
    }
    var keys := Keys(c);
    var i := 0;
    assert CommitFrames(c)[..0] == [];
    while i < |keys|
      invariant 0 <= i <= |keys|
      invariant w.Valid() && w.file == f && w.header == h && w.synced == frames && w.queued == CommitFrames(c)[..i]
      invariant f.data == old(f.data)
    {
      assert keys[i] in c.dirty;
      w.AppendFrame(keys[i], c.dirty[keys[i]], if i == |keys| - 1 then c.size else 0);
      assert CommitFrames(c)[..i + 1] == CommitFrames(c)[..i] + [CommitFrames(c)[i]];
      i := i + 1;
    }
    assert CommitFrames(c)[..i] == CommitFrames(c);
    assert |c.dirty| > 0;
    w.Sync();
    var next := w.HintNow();
    r := Ok(next);
  }

  // ----- writers taking turns -----

  datatype LogState = LogState(data: seq<Byte>, hints: map<nat, ResumeHint>)

  function HintFor(s: LogState, who: nat): Option<ResumeHint> {
    if who in s.hints then Some(s.hints[who]) else None
  }

  /** One commit by connection `who`, resuming from whatever hint it last cached. */
  function Turn(s: LogState, pageSize: nat, who: nat, c: Commit): (r: LogState) {
    match Resume(s.data, pageSize, HintFor(s, who))
    case Err(_) => s
    case Ok(p) =>
      var bytes := Encode(p.header, p.running, CommitFrames(c));
      var end := p.offset + |bytes|;
      LogState(WriteAt(s.data, p.offset, bytes), s.hints[who := ResumeHint(p.header, end,
        SumAfter(p.header, p.running, CommitFrames(c)), end)])
  }

  function Turns(s: LogState, pageSize: nat, who: seq<nat>, cs: seq<Commit>): (r: LogState)
    requires |who| == |cs|
  {
    if cs == [] then s
    else
      var n := |cs| - 1;
      Turn(Turns(s, pageSize, who[..n], cs[..n]), pageSize, who[n], cs[n])
  }

  lemma TurnAppends(s: LogState, h: Header, frames: seq<Frame>, who: nat, c: Commit)
    requires Holds(s.data, h, frames) && ValidCommit(h, c) && Fits(h, frames, HintFor(s, who))
    ensures var s' := Turn(s, h.pageSize, who, c);
            && s'.data == FileOf(h, frames + CommitFrames(c))
            && Holds(s'.data, h, frames + CommitFrames(c))
            && s'.hints == s.hints[who := HintAt(h, frames + CommitFrames(c))]
  {
    hide Encode, SumAfter, FileOf, Holds, Fits, Resume, ScanWal, CommitFrames, FrameOffset, Sized;
    var more := CommitFrames(c);
    HintMatchesRescan(s.data, h, frames, HintFor(s, who));
    CommitSized(h, c);
    AppendHolds(s.data, h, frames, more);
    EncodeConcat(h, h.sum, frames, more);
    HeldSized(s.data, h, frames);
    AppendLengths(h, frames, more);
  }

  lemma HeldSized(data: seq<Byte>, h: Header, frames: seq<Frame>)
    requires Holds(data, h, frames)
    ensures Sized(h, frames)
  {
  }

  lemma CommitSized(h: Header, c: Commit)
    requires ValidCommit(h, c)
    ensures Sized(h, CommitFrames(c)) && CommitFrames(c) != []
  {
    hide Keys;
    assert |c.dirty| > 0;
  }

  /** Whoever commits, and whatever hints they hold, the log is the transactions in turn, and every
      cached hint resumes exactly where a full rescan would. */
  lemma {:induction false} TurnsWriteTheLog(h: Header, who: seq<nat>, cs: seq<Commit>, w: nat)
    requires ValidHeader(h) && ValidCommits(h, cs) && |who| == |cs|
    ensures var s := Turns(LogState(HeaderBytes(h), map[]), h.pageSize, who, cs);
            && s.data == FileOf(h, AllFrames(cs))
            && Holds(s.data, h, AllFrames(cs))
            && Fits(h, AllFrames(cs), HintFor(s, w))
            && Resume(s.data, h.pageSize, HintFor(s, w)) == Rescan(s.data, h.pageSize)
    decreases |cs|
  {
    hide CommitFrames, Holds, Fits, Resume, Rescan, Turn, ValidHeader, FileOf;
    var s := Turns(LogState(HeaderBytes(h), map[]), h.pageSize, who, cs);
    if cs == [] {
      EmptyLog(h, w);
    } else {
      var n := |cs| - 1;
      var frames := AllFrames(cs[..n]);
      TurnsWriteTheLog(h, who[..n], cs[..n], who[n]);
      TurnsWriteTheLog(h, who[..n], cs[..n], w);
      var before := Turns(LogState(HeaderBytes(h), map[]), h.pageSize, who[..n], cs[..n]);
      TurnAppends(before, h, frames, who[n], cs[n]);
      if w == who[n] {
        OwnHintFits(h, AllFrames(cs));
      } else {
        FitsLater(h, frames, CommitFrames(cs[n]), HintFor(before, w));
        assert HintFor(s, w) == HintFor(before, w);
      }
    }
    HintMatchesRescan(s.data, h, AllFrames(cs), HintFor(s, w));
  }

  /** Writers commit in turn, the file is cut at any byte past its header and read back: the result is
      the database after the transactions lying wholly inside the cut. */
  lemma TurnsSurviveCuts(h: Header, who: seq<nat>, cs: seq<Commit>, bytes: seq<Byte>) returns (j: nat)
    requires ValidHeader(h) && ValidCommits(h, cs) && |who| == |cs| && HEADER_LEN <= |bytes|
    requires bytes <= Turns(LogState(HeaderBytes(h), map[]), h.pageSize, who, cs).data
    ensures InsideCut(h, cs, j, |bytes|) && Snapshot(ScanWal(h, bytes).frames) == AfterAll(cs[..j])
  {
    hide *;
    TurnsWriteTheLog(h, who, cs, 0);
    j := EveryCutCounts(h, cs, |bytes|);
    CutReadsCommitted(h, cs, j, bytes);
  }

  lemma EmptyLog(h: Header, w: nat)
    requires ValidHeader(h)
    ensures HeaderBytes(h) == FileOf(h, []) && Holds(HeaderBytes(h), h, []) &&
            Fits(h, [], HintFor(LogState(HeaderBytes(h), map[]), w))
  {
    assert HeaderBytes(h) + [] == HeaderBytes(h);
  }

  lemma OwnHintFits(h: Header, frames: seq<Frame>)
    ensures Fits(h, frames, Some(HintAt(h, frames)))
  {
    assert frames[..|frames|] == frames;
  }
}
