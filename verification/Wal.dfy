/** The write-ahead log: header and frame format, and the frame scan (sections 4.1 to 4.5 of the
    SQLite Database File Format). "Native" word order is little-endian. */
module Wal {
  import opened Bytes

  const HEADER_LEN := 32
  const FRAME_HEADER_LEN := 24
  const FORMAT_VERSION: U32 := 3_007_000

  type Sum = (U32, U32)

  // ----- checksum -----

  function Word(native: bool, data: seq<Byte>, off: nat): (w: U32)
    requires off + 4 <= |data|
  {
    if native then data[off] + 0x100 * (data[off + 1] as int) + 0x1_0000 * (data[off + 2] as int) +
       0x100_0000 * (data[off + 3] as int)
    else ReadBe32(data, off)
  }

  function Mix(native: bool, data: seq<Byte>, off: nat, s: Sum): (r: Sum)
    requires off + 8 <= |data|
  {
    var s1: U32 := (s.0 + Word(native, data, off) + s.1) % 0x1_0000_0000;
    (s1, (s.1 + Word(native, data, off + 4) + s1) % 0x1_0000_0000)
  }

  /** Continues a running pair of sums over `data`, eight bytes at a time; a partial tail is ignored. */
  function ChecksumFrom(native: bool, data: seq<Byte>, off: nat, s: Sum): (r: Sum)
    decreases |data| - off
  {
    if off + 8 <= |data| then ChecksumFrom(native, data, off + 8, Mix(native, data, off, s)) else s
  }

  function Checksum(native: bool, data: seq<Byte>, init: Sum): (r: Sum) { ChecksumFrom(native, data, 0, init) }

  method ComputeChecksum(native: bool, data: seq<Byte>, init: Sum) returns (r: Sum)
    ensures r == Checksum(native, data, init)
  {
    r := init;
    var off := 0;
    while off + 8 <= |data|
      invariant 0 <= off
      invariant ChecksumFrom(native, data, off, r) == Checksum(native, data, init)
      decreases |data| - off
    {
      r := Mix(native, data, off, r);
      off := off + 8;
    }
  }

  // ----- header -----

  datatype Header = Header(native: bool, pageSize: U32, salt1: U32, salt2: U32, version: U32, checkpointSeq: U32,
                           sum: Sum)

  datatype WalError =
    | HeaderTooShort(len: nat)
    | InvalidMagic(magic: U32)
    | InvalidPageSize(pageSize: U32)
    | HeaderChecksumMismatch(stored: Sum, computed: Sum)

  predicate ValidPageSize(ps: nat) { ps in {512, 1024, 2048, 4096, 8192, 16384, 32768, 65536} }

  function HeaderFields(h: Header): (r: seq<Byte>)
    ensures |r| == 24
  {
    Be32(if h.native then 0x377f_0682 else 0x377f_0683) + Be32(h.version) + Be32(h.pageSize) + Be32(h.checkpointSeq)
    + Be32(h.salt1) + Be32(h.salt2)
  }

  function HeaderBytes(h: Header): (r: seq<Byte>)
    ensures |r| == HEADER_LEN
  {
    HeaderFields(h) + Be32(h.sum.0) + Be32(h.sum.1)
  }

  function ParseHeader(bytes: seq<Byte>): (r: Result<Header, WalError>) {
    if |bytes| < HEADER_LEN then Err(HeaderTooShort(|bytes|))
    else
      var magic := ReadBe32(bytes, 0);
      if magic != 0x377f_0682 && magic != 0x377f_0683 then Err(InvalidMagic(magic))
      else if !ValidPageSize(ReadBe32(bytes, 8)) then Err(InvalidPageSize(ReadBe32(bytes, 8)))
      else
        var native := magic == 0x377f_0682;
        var stored := (ReadBe32(bytes, 24), ReadBe32(bytes, 28));
        var computed := Checksum(native, bytes[0..24], (0, 0));
        if computed != stored then Err(HeaderChecksumMismatch(stored, computed))
        else Ok(Header(native, ReadBe32(bytes, 8), ReadBe32(bytes, 16), ReadBe32(bytes, 20), ReadBe32(bytes, 4),
             ReadBe32(bytes, 12), stored))
  }

  /** A header carries the checksum of its own fields and a page size the format allows. */
  predicate ValidHeader(h: Header) {
    ValidPageSize(h.pageSize) && h.sum == Checksum(h.native, HeaderFields(h), (0, 0))
  }

  function NewHeader(native: bool, pageSize: U32, salt1: U32, salt2: U32, checkpointSeq: U32): (h: Header)
    ensures h.pageSize == pageSize && (ValidPageSize(pageSize) ==> ValidHeader(h))
  {
    var h := Header(native, pageSize, salt1, salt2, FORMAT_VERSION, checkpointSeq, (0, 0));
    h.(sum := Checksum(native, HeaderFields(h), (0, 0)))
  }

  /** Parsing gives back every valid header that was serialized. */
  lemma HeaderRoundTrip(h: Header, rest: seq<Byte>)
    requires ValidHeader(h)
    ensures ParseHeader(HeaderBytes(h) + rest) == Ok(h)
  {
    hide Checksum, Be32, ReadBe32, ValidPageSize;
    var s := HeaderBytes(h) + rest;
    var magic: U32 := if h.native then 0x377f_0682 else 0x377f_0683;
    assert s[0..4] == Be32(magic) && s[4..8] == Be32(h.version) && s[8..12] == Be32(h.pageSize);
    assert s[12..16] == Be32(h.checkpointSeq) && s[16..20] == Be32(h.salt1) && s[20..24] == Be32(h.salt2);
    assert s[24..28] == Be32(h.sum.0) && s[28..32] == Be32(h.sum.1);
    assert s[0..24] == HeaderFields(h);
    ReadBe32Of(s, 0, magic);
    ReadBe32Of(s, 4, h.version);
    ReadBe32Of(s, 8, h.pageSize);
    ReadBe32Of(s, 12, h.checkpointSeq);
    ReadBe32Of(s, 16, h.salt1);
    ReadBe32Of(s, 20, h.salt2);
    ReadBe32Of(s, 24, h.sum.0);
    ReadBe32Of(s, 28, h.sum.1);
  }

  /** Parsing accepts nothing else. */
  lemma ParsedIsValid(bytes: seq<Byte>)
    requires ParseHeader(bytes).Ok?
    ensures var h := ParseHeader(bytes).value; ValidHeader(h) && bytes[..HEADER_LEN] == HeaderBytes(h)
  {
    hide Checksum, Be32, ReadBe32, ValidPageSize;
    var h := ParseHeader(bytes).value;
    Be32OfRead(bytes, 0);
    Be32OfRead(bytes, 4);
    Be32OfRead(bytes, 8);
    Be32OfRead(bytes, 12);
    Be32OfRead(bytes, 16);
    Be32OfRead(bytes, 20);
    Be32OfRead(bytes, 24);
    Be32OfRead(bytes, 28);
    assert bytes[0..24] == bytes[0..4] + bytes[4..8] + bytes[8..12] + bytes[12..16] + bytes[16..20] + bytes[20..24];
    assert bytes[..HEADER_LEN] == bytes[0..24] + bytes[24..28] + bytes[28..32];
  }

  // ----- frames -----

  /** One page image; `dbSize` is nonzero exactly on the last frame of a transaction. */
  datatype Frame = Frame(page: U32, dbSize: U32, content: seq<Byte>)

  function FrameSize(h: Header): (n: nat)
    ensures n >= FRAME_HEADER_LEN
  {
    FRAME_HEADER_LEN + h.pageSize
  }

  function FrameHead(f: Frame): (r: seq<Byte>)
    ensures |r| == 8
  {
    Be32(f.page) + Be32(f.dbSize)
  }

  function FrameSum(h: Header, running: Sum, f: Frame): (s: Sum) {
    Checksum(h.native, f.content, Checksum(h.native, FrameHead(f), running))
  }

  function FrameBytes(h: Header, running: Sum, f: Frame): (r: seq<Byte>)
    ensures |r| == FRAME_HEADER_LEN + |f.content|
  {
    FrameHead(f) + Be32(h.salt1) + Be32(h.salt2) + Be32(FrameSum(h, running, f).0) + Be32(FrameSum(h, running, f).1) +
      f.content
  }

  /** The frame at `off`, if a whole one lies there with this generation's salts and a checksum
      that continues the chain. */
  function FrameAt(h: Header, bytes: seq<Byte>, off: nat, running: Sum): (r: Option<Frame>)
    ensures r.Some? ==> off + FrameSize(h) <= |bytes| && |r.value.content| == h.pageSize
  {
    if off + FrameSize(h) > |bytes| then None
    else
      var f := Frame(ReadBe32(bytes, off), ReadBe32(bytes, off + 4), bytes[off + FRAME_HEADER_LEN..off + FrameSize(h)]);
      if ReadBe32(bytes, off + 8) != h.salt1 || ReadBe32(bytes, off + 12) != h.salt2 then None
      else if FrameSum(h, running, f) != (ReadBe32(bytes, off + 16), ReadBe32(bytes, off + 20)) then None
      else Some(f)
  }

  /** The longest valid run of frames, where it ends, and the running checksum there. */
  datatype Scan = Scan(frames: seq<Frame>, end: nat, running: Sum)

  function ScanFrom(h: Header, bytes: seq<Byte>, off: nat, running: Sum): (r: Scan)
    decreases |bytes| - off
  {
    match FrameAt(h, bytes, off, running)
    case None => Scan([], off, running)
    case Some(f) =>
      var rest := ScanFrom(h, bytes, off + FrameSize(h), FrameSum(h, running, f));
      rest.(frames := [f] + rest.frames)
  }

  function ScanWal(h: Header, bytes: seq<Byte>): (r: Scan) { ScanFrom(h, bytes, HEADER_LEN, h.sum) }

  // ----- what a run of frames means -----

  type PageMap = map<U32, seq<Byte>>
  datatype Db = Db(pages: PageMap, size: U32)

  /** Every frame applied, committed or not. */
  function Live(frames: seq<Frame>): (m: PageMap) {
    if frames == [] then map[]
    else Live(frames[..|frames| - 1])[frames[|frames| - 1].page := frames[|frames| - 1].content]
  }

  /** The map as copied at the last commit frame. */
  function Snapshot(frames: seq<Frame>): (d: Db) {
    if frames == [] then Db(map[], 0)
    else
      var last := frames[|frames| - 1];
      if last.dbSize != 0 then Db(Live(frames), last.dbSize) else Snapshot(frames[..|frames| - 1])
  }

  /** Puts back the pre-images of an undo log, newest first. */
  function Unwind(pages: PageMap, undo: seq<(U32, Option<seq<Byte>>)>): (m: PageMap)
    decreases |undo|
  {
    if undo == [] then pages
    else
      var (p, pre) := undo[|undo| - 1];
      Unwind(if pre.Some? then pages[p := pre.value] else pages - {p}, undo[..|undo| - 1])
  }

  lemma UnwindPush(pages: PageMap, undo: seq<(U32, Option<seq<Byte>>)>, p: U32, content: seq<Byte>)
    ensures var pre := if p in pages then Some(pages[p]) else None;
            Unwind(pages[p := content], undo + [(p, pre)]) == Unwind(pages, undo)
  {
    var pre := if p in pages then Some(pages[p]) else None;
    assert (undo + [(p, pre)])[..|undo|] == undo;
    var changed := pages[p := content];
    assert (if pre.Some? then changed[p := pre.value] else changed - {p}) == pages;
  }

  lemma LiveSnoc(frames: seq<Frame>, f: Frame)
    ensures Live(frames + [f]) == Live(frames)[f.page := f.content]
    ensures Snapshot(frames + [f]) == if f.dbSize != 0 then Db(Live(frames + [f]), f.dbSize) else Snapshot(frames)
  {
    assert (frames + [f])[..|frames|] == frames;
  }

  /** `committed_pages`: one live map and an undo log in place of a copy of the map per commit. For
      every byte string it yields the snapshot at the last commit of the longest valid run. */
  method CommittedPages(h: Header, bytes: seq<Byte>) returns (pages: PageMap, size: U32)
    ensures Db(pages, size) == Snapshot(ScanWal(h, bytes).frames)
  {
    hide FrameAt, FrameSum, Snapshot, Live;
    var off := HEADER_LEN;
    var running := h.sum;
    var undo: seq<(U32, Option<seq<Byte>>)> := [];
    pages, size := map[], 0;
    ghost var frames: seq<Frame> := [];
    EmptyRun();
    assert [] + ScanFrom(h, bytes, off, running).frames == ScanFrom(h, bytes, off, running).frames;
    var next := FrameAt(h, bytes, off, running);
    while next.Some?
      invariant off >= HEADER_LEN && next == FrameAt(h, bytes, off, running)
      invariant frames + ScanFrom(h, bytes, off, running).frames == ScanWal(h, bytes).frames
      invariant pages == Live(frames)
      invariant Db(Unwind(pages, undo), size) == Snapshot(frames)
      decreases |bytes| - off
    {
      var f := next.value;
      UnwindPush(pages, undo, f.page, f.content);
      LiveSnoc(frames, f);
      undo := undo + [(f.page, if f.page in pages then Some(pages[f.page]) else None)];
      pages := pages[f.page := f.content];
      if f.dbSize != 0 {
        undo := [];
        size := f.dbSize;
      }
      ghost var rest := ScanFrom(h, bytes, off + FrameSize(h), FrameSum(h, running, f)).frames;
      assert frames + ([f] + rest) == (frames + [f]) + rest;
      frames := frames + [f];
      running := FrameSum(h, running, f);
      off := off + FrameSize(h);
      next := FrameAt(h, bytes, off, running);
    }
    assert frames + [] == frames;
    while undo != []
      invariant Db(Unwind(pages, undo), size) == Snapshot(ScanWal(h, bytes).frames)
      decreases |undo|
    {
      var (p, pre) := undo[|undo| - 1];
      pages := if pre.Some? then pages[p := pre.value] else pages - {p};
      undo := undo[..|undo| - 1];
    }
  }

  lemma EmptyRun()
    ensures Live([]) == map[] && Snapshot([]) == Db(map[], 0)
  {
  }

  /** `last_valid_frame_state`: where the same run of frames ends, and its running checksum. */
  method LastValidFrameState(h: Header, bytes: seq<Byte>) returns (off: nat, running: Sum)
    ensures off == ScanWal(h, bytes).end && running == ScanWal(h, bytes).running
  {
    hide FrameAt, FrameSum;
    off, running := HEADER_LEN, h.sum;
    var next := FrameAt(h, bytes, off, running);
    while next.Some?
      invariant next == FrameAt(h, bytes, off, running)
      invariant ScanFrom(h, bytes, off, running).end == ScanWal(h, bytes).end
      invariant ScanFrom(h, bytes, off, running).running == ScanWal(h, bytes).running
      decreases |bytes| - off
    {
      off, running := off + FrameSize(h), FrameSum(h, running, next.value);
      next := FrameAt(h, bytes, off, running);
    }
  }

  // ----- writing frames -----

  ghost predicate Sized(h: Header, frames: seq<Frame>) {
    forall i :: 0 <= i < |frames| ==> |frames[i].content| == h.pageSize
  }

  function SumAfter(h: Header, start: Sum, frames: seq<Frame>): (s: Sum) {
    if frames == [] then start
    else FrameSum(h, SumAfter(h, start, frames[..|frames| - 1]), frames[|frames| - 1])
  }

  function Encode(h: Header, start: Sum, frames: seq<Frame>): (r: seq<Byte>) {
    if frames == [] then []
    else
      var front := frames[..|frames| - 1];
      Encode(h, start, front) + FrameBytes(h, SumAfter(h, start, front), frames[|frames| - 1])
  }

  /** A `-wal` file holding exactly these frames. */
  function FileOf(h: Header, frames: seq<Frame>): (r: seq<Byte>) { HeaderBytes(h) + Encode(h, h.sum, frames) }

  function FrameOffset(h: Header, i: nat): (n: nat) { HEADER_LEN + Times(i, FrameSize(h)) }

  lemma EncodeSnoc(h: Header, start: Sum, frames: seq<Frame>, f: Frame)
    ensures Encode(h, start, frames + [f]) == Encode(h, start, frames) + FrameBytes(h, SumAfter(h, start, frames), f)
    ensures SumAfter(h, start, frames + [f]) == FrameSum(h, SumAfter(h, start, frames), f)
  {
    assert (frames + [f])[..|frames|] == frames;
  }

  lemma EncodeNone(h: Header, start: Sum)
    ensures Encode(h, start, []) == [] && SumAfter(h, start, []) == start
  {
  }

  lemma {:induction false} EncodeConcat(h: Header, start: Sum, a: seq<Frame>, b: seq<Frame>)
    ensures Encode(h, start, a + b) == Encode(h, start, a) + Encode(h, SumAfter(h, start, a), b)
    ensures SumAfter(h, start, a + b) == SumAfter(h, SumAfter(h, start, a), b)
    decreases |b|
  {
    hide FrameBytes, FrameSum, Encode, SumAfter;
    if b == [] {
      assert a + b == a;
      EncodeNone(h, SumAfter(h, start, a));
    } else {
      var n := |b| - 1;
      EncodeConcat(h, start, a, b[..n]);
      EncodeSnoc(h, start, a + b[..n], b[n]);
      EncodeSnoc(h, SumAfter(h, start, a), b[..n], b[n]);
      assert a + b == (a + b[..n]) + [b[n]] && b == b[..n] + [b[n]];
    }
  }

  lemma {:induction false} EncodeLength(h: Header, start: Sum, frames: seq<Frame>)
    requires Sized(h, frames)
    ensures |Encode(h, start, frames)| == Times(|frames|, FrameSize(h))
  {
    hide FrameBytes, FrameSum;
    if frames != [] { EncodeLength(h, start, frames[..|frames| - 1]); }
  }

  /** The bytes of frame `i` lie whole at its offset. */
  lemma FrameLies(h: Header, frames: seq<Frame>, i: nat)
    requires Sized(h, frames) && i < |frames|
    ensures |FileOf(h, frames)| == FrameOffset(h, |frames|)
    ensures FrameOffset(h, i) + FrameSize(h) <= |FileOf(h, frames)|
    ensures FileOf(h, frames)[FrameOffset(h, i)..FrameOffset(h, i) + FrameSize(h)] ==
            FrameBytes(h, SumAfter(h, h.sum, frames[..i]), frames[i])
  {
    hide FrameBytes, FrameSum, Encode, SumAfter;
    var front, f, back := frames[..i], frames[i], frames[i + 1..];
    assert frames == (front + [f]) + back;
    EncodeConcat(h, h.sum, front + [f], back);
    EncodeSnoc(h, h.sum, front, f);
    EncodeLength(h, h.sum, front);
    EncodeLength(h, h.sum, frames);
    var bytes := FrameBytes(h, SumAfter(h, h.sum, front), f);
    var pre, post := HeaderBytes(h) + Encode(h, h.sum, front), Encode(h, SumAfter(h, h.sum, front + [f]), back);
    assert FileOf(h, frames) == pre + bytes + post;
    assert |pre| == FrameOffset(h, i);
  }

  lemma FrameReads(h: Header, bytes: seq<Byte>, off: nat, running: Sum, f: Frame)
    requires |f.content| == h.pageSize && off + FrameSize(h) <= |bytes|
    requires bytes[off..off + FrameSize(h)] == FrameBytes(h, running, f)
    ensures FrameAt(h, bytes, off, running) == Some(f)
  {
    hide FrameSum, Be32, ReadBe32;
    var s, n, sum := bytes[off..off + FrameSize(h)], FrameSize(h), FrameSum(h, running, f);
    SubSlice(bytes, off, n, 0, 4);
    SubSlice(bytes, off, n, 4, 8);
    SubSlice(bytes, off, n, 8, 12);
    SubSlice(bytes, off, n, 12, 16);
    SubSlice(bytes, off, n, 16, 20);
    SubSlice(bytes, off, n, 20, 24);
    SubSlice(bytes, off, n, 24, n);
    FrameFields(h, running, f);
    ReadBe32Of(bytes, off, f.page);
    ReadBe32Of(bytes, off + 4, f.dbSize);
    ReadBe32Of(bytes, off + 8, h.salt1);
    ReadBe32Of(bytes, off + 12, h.salt2);
    ReadBe32Of(bytes, off + 16, sum.0);
    ReadBe32Of(bytes, off + 20, sum.1);
  }

  lemma FrameFields(h: Header, running: Sum, f: Frame)
    ensures var s, sum := FrameBytes(h, running, f), FrameSum(h, running, f);
            && s[0..4] == Be32(f.page) && s[4..8] == Be32(f.dbSize)
            && s[8..12] == Be32(h.salt1) && s[12..16] == Be32(h.salt2)
            && s[16..20] == Be32(sum.0) && s[20..24] == Be32(sum.1)
            && s[24..|s|] == f.content
  {
    hide FrameSum, Be32;
  }

  /** Cutting a log anywhere past its header leaves exactly the frames that lie whole before the cut. */
  lemma {:induction false} CutScan(h: Header, frames: seq<Frame>, bytes: seq<Byte>, i: nat, k: nat)
    requires Sized(h, frames) && i <= k <= |frames|
    requires bytes <= FileOf(h, frames) && FrameOffset(h, k) <= |bytes| < FrameOffset(h, k + 1)
    ensures ScanFrom(h, bytes, FrameOffset(h, i), SumAfter(h, h.sum, frames[..i])) ==
            Scan(frames[i..k], FrameOffset(h, k), SumAfter(h, h.sum, frames[..k]))
    decreases k - i
  {
    hide FrameBytes, FrameSum, Encode, FrameAt, FileOf, SumAfter;
    var off, running := FrameOffset(h, i), SumAfter(h, h.sum, frames[..i]);
    if i < k {
      var f := frames[i];
      FrameLies(h, frames, i);
      TimesMono(i + 1, k, FrameSize(h));
      assert bytes[off..off + FrameSize(h)] == FileOf(h, frames)[off..off + FrameSize(h)];
      FrameReads(h, bytes, off, running, f);
      assert frames[..i + 1] == frames[..i] + [f];
      EncodeSnoc(h, h.sum, frames[..i], f);
      CutScan(h, frames, bytes, i + 1, k);
      assert frames[i..k] == [f] + frames[i + 1..k];
    } else {
      TooShort(h, bytes, off, running);
    }
  }

  lemma TooShort(h: Header, bytes: seq<Byte>, off: nat, running: Sum)
    requires off + FrameSize(h) > |bytes|
    ensures FrameAt(h, bytes, off, running) == None
  {
  }

  lemma ScanOfCut(h: Header, frames: seq<Frame>, bytes: seq<Byte>, k: nat)
    requires Sized(h, frames) && k <= |frames|
    requires bytes <= FileOf(h, frames) && FrameOffset(h, k) <= |bytes| < FrameOffset(h, k + 1)
    ensures ScanWal(h, bytes) == Scan(frames[..k], FrameOffset(h, k), SumAfter(h, h.sum, frames[..k]))
  {
    hide FrameAt, FrameSum, Encode, FileOf;
    assert frames[..0] == [];
    CutScan(h, frames, bytes, 0, k);
  }
}
