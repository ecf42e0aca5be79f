/** The rollback journal: format, commit protocol and hot-journal recovery, and the proof that
    a commit is all-or-nothing across power cuts (section 3 of the SQLite Database File Format). */
module Journal {
  import opened Bytes
  import opened Disk
  import opened Sorting
  import opened Paging

  const MAGIC: seq<Byte> := [0xd9, 0xd5, 0x05, 0xf9, 0x20, 0xa1, 0x63, 0xd7]
  const HEADER_LEN := 28
  const PAGE_COUNT_OFFSET := 28

  type Pages = map<nat, seq<Byte>>

  // ----- the sampled page checksum -----

  /** The bytes 200, 400, 600, ... before the end of the page, index 0 excluded, summed. */
  function SampleSum(page: seq<Byte>, idx: int): (r: nat)
    decreases idx
  {
    if 0 < idx < |page| then (page[idx] as int) + SampleSum(page, idx - 200) else 0
  }

  function PageChecksum(nonce: U32, page: seq<Byte>): (c: U32) {
    (nonce + SampleSum(page, |page| - 200)) % 0x1_0000_0000
  }

  method ComputePageChecksum(nonce: U32, page: seq<Byte>) returns (c: U32)
    ensures c == PageChecksum(nonce, page)
  {
    c := nonce;
    var idx := Max(|page| - 200, 0);
    while 0 < idx < |page|
      invariant 0 <= idx
      invariant (c + SampleSum(page, idx)) % 0x1_0000_0000 == PageChecksum(nonce, page)
      decreases idx
    {
      c := (c + page[idx]) % 0x1_0000_0000;
      idx := Max(idx - 200, 0);
    }
  }

  lemma BlankSum(n: nat, idx: int)
    ensures SampleSum(Zeros(n), idx) == 0
    decreases idx
  {
    if 0 < idx < n { BlankSum(n, idx - 200); }
  }

  /** The bytes at whole multiples of 200 from the end of the page, the first byte excepted. */
  predicate IsSampled(page: seq<Byte>, i: nat) { 0 < i < |page| && (|page| - i) % 200 == 0 }

  function SampledBelow(page: seq<Byte>, n: nat): (r: nat) {
    if n == 0 then 0 else SampledBelow(page, n - 1) + if IsSampled(page, n - 1) then page[n - 1] else 0
  }

  lemma {:induction false} NoneSampled(page: seq<Byte>, a: nat, b: nat)
    requires a <= b && forall i :: a <= i < b ==> !IsSampled(page, i)
    ensures SampledBelow(page, b) == SampledBelow(page, a)
    decreases b
  {
    hide IsSampled;
    if a < b { NoneSampled(page, a, b - 1); }
  }

  /** No two sampled bytes are less than 200 apart. */
  lemma BetweenSamples(page: seq<Byte>, idx: int, i: nat)
    requires idx <= |page| && (|page| - idx) % 200 == 0 && i < idx < i + 200
    ensures !IsSampled(page, i)
  {
  }

  lemma {:induction false} SampleSumIs(page: seq<Byte>, idx: int)
    requires idx < |page| && (|page| - idx) % 200 == 0
    ensures SampleSum(page, idx) == SampledBelow(page, Max(0, idx + 1))
    decreases idx
  {
    hide IsSampled;
    FirstSample(page, idx);
    if idx > 0 {
      SampleSumIs(page, idx - 200);
      forall i | Max(0, idx - 199) <= i < idx ensures !IsSampled(page, i) { BetweenSamples(page, idx, i); }
      NoneSampled(page, Max(0, idx - 199), idx);
    }
  }

  lemma FirstSample(page: seq<Byte>, idx: int)
    requires idx < |page| && (|page| - idx) % 200 == 0
    ensures SampledBelow(page, 1) == SampledBelow(page, 0) == 0
    ensures idx > 0 ==> IsSampled(page, idx)
  {
  }

  /** The checksum is the nonce plus exactly the sampled bytes, modulo 2^32. */
  lemma ChecksumIs(nonce: U32, page: seq<Byte>)
    ensures PageChecksum(nonce, page) == (nonce + SampledBelow(page, |page|)) % 0x1_0000_0000
  {
    hide SampleSum, SampledBelow, IsSampled;
    var from := Max(0, |page| - 199);
    SampleSumIs(page, |page| - 200);
    forall i | from <= i < |page| ensures !IsSampled(page, i) { BetweenSamples(page, |page|, i); }
    NoneSampled(page, from, |page|);
  }

  // ----- format -----

  datatype Header = Header(nRec: U32, nonce: U32, initialPageCount: U32, sectorSize: U32, pageSize: U32)

  function HeaderBytes(h: Header): (r: seq<Byte>)
    ensures |r| == HEADER_LEN
  {
    MAGIC + Be32(h.nRec) + Be32(h.nonce) + Be32(h.initialPageCount) + Be32(h.sectorSize) + Be32(h.pageSize)
  }

  /** Parsing does not look at the magic: the caller already has. */
  function ParseHeader(buf: seq<Byte>): (r: Option<Header>) {
    if |buf| < HEADER_LEN then None
    else Some(Header(ReadBe32(buf, 8), ReadBe32(buf, 12), ReadBe32(buf, 16), ReadBe32(buf, 20), ReadBe32(buf, 24)))
  }

  predicate Hot(journal: seq<Byte>) { |journal| >= 8 && journal[..8] == MAGIC }

  /** The magic number alone makes a journal hot, and nothing shorter does. */
  lemma HotIff(journal: seq<Byte>)
    ensures Hot(journal) <==> exists rest :: journal == MAGIC + rest
  {
    if Hot(journal) { assert journal == MAGIC + journal[8..]; }
  }

  lemma HeaderRoundTrip(h: Header, rest: seq<Byte>)
    ensures ParseHeader(HeaderBytes(h) + rest) == Some(h)
    ensures Hot(HeaderBytes(h) + rest)
  {
    var s := HeaderBytes(h) + rest;
    assert s[..8] == MAGIC;
    assert s[8..12] == Be32(h.nRec);
    assert s[12..16] == Be32(h.nonce);
    assert s[16..20] == Be32(h.initialPageCount);
    assert s[20..24] == Be32(h.sectorSize);
    assert s[24..28] == Be32(h.pageSize);
    ReadBe32Of(s, 8, h.nRec);
    ReadBe32Of(s, 12, h.nonce);
    ReadBe32Of(s, 16, h.initialPageCount);
    ReadBe32Of(s, 20, h.sectorSize);
    ReadBe32Of(s, 24, h.pageSize);
  }

  function RecordLen(pageSize: nat): nat { pageSize + 8 }

  function SlotOffset(start: nat, pageSize: nat, i: nat): (r: nat) { start + Times(i, RecordLen(pageSize)) }

  function RecordBytes(nonce: U32, n: U32, page: seq<Byte>): (r: seq<Byte>) {
    Be32(n) + page + Be32(PageChecksum(nonce, page))
  }

  // ----- commit -----

  /** A transaction about to be flushed: the main file, the dirty pages, the checksum salt. */
  datatype Tx = Tx(pageSize: nat, pre: seq<Byte>, dirty: Pages, nonce: U32)

  /** The file holds exactly the pages its own header counts. */
  predicate WellFormed(tx: Tx) {
    && 512 <= tx.pageSize <= 65536
    && tx.pageSize <= |tx.pre|
    && |tx.pre| == Times(ReadBe32(tx.pre, PAGE_COUNT_OFFSET), tx.pageSize)
    && forall n :: n in tx.dirty ==> 1 <= n <= U32_MAX && |tx.dirty[n]| == tx.pageSize
  }

  function PageCount(tx: Tx): U32
    requires WellFormed(tx)
  {
    ReadBe32(tx.pre, PAGE_COUNT_OFFSET)
  }

  /** The page count is the four bytes after the first 28 of the file. */
  lemma PageCountReads(tx: Tx, before: seq<Byte>, count: U32, rest: seq<Byte>)
    requires WellFormed(tx) && |before| == 28 && tx.pre == before + (Be32(count) + rest)
    ensures PageCount(tx) == count && |tx.pre| == count * tx.pageSize
  {
    hide Be32, ReadBe32;
    assert tx.pre[28..32] == Be32(count);
    ReadBe32Of(tx.pre, 28, count);
    TimesIsProduct(count, tx.pageSize);
  }

  function PrePage(tx: Tx, n: nat): (r: seq<Byte>)
    requires WellFormed(tx) && 1 <= n <= PageCount(tx)
    ensures |r| == tx.pageSize
  {
    PageFits(tx.pageSize, n, PageCount(tx));
    tx.pre[PageOffset(tx.pageSize, n)..PageOffset(tx.pageSize, n) + tx.pageSize]
  }

  /** The dirty pages that already existed, in the order they are journaled. */
  function UpTo(s: seq<nat>, limit: nat): (r: seq<nat>) {
    if s == [] then []
    else UpTo(s[..|s| - 1], limit) + if s[|s| - 1] <= limit then [s[|s| - 1]] else []
  }

  lemma UpToSorted(s: seq<nat>, limit: nat)
    requires Ascending(s)
    ensures Ascending(UpTo(s, limit))
    ensures forall x :: x in UpTo(s, limit) <==> x in s && x <= limit
  {
    if s != [] {
      var n := |s| - 1;
      assert s == s[..n] + [s[n]];
      UpToSorted(s[..n], limit);
      var r := UpTo(s[..n], limit);
      forall i | 0 <= i < |r| ensures r[i] < s[n] {
        assert r[i] in r;
      }
    }
  }

  function Journaled(tx: Tx): (r: seq<nat>)
    requires WellFormed(tx)
    ensures Ascending(r)
    ensures forall n :: n in r <==> n in tx.dirty && n <= PageCount(tx)
    ensures forall i :: 0 <= i < |r| ==> 1 <= r[i] <= PageCount(tx)
    ensures |r| <= PageCount(tx)
  {
    UpToSorted(SortedKeys(tx.dirty.Keys), PageCount(tx));
    var r := UpTo(SortedKeys(tx.dirty.Keys), PageCount(tx));
    assert forall i :: 0 <= i < |r| ==> r[i] in r;
    AscendingBound(r, PageCount(tx));
    r
  }

  lemma AscendingBound(s: seq<nat>, limit: nat)
    requires Ascending(s) && forall i :: 0 <= i < |s| ==> 1 <= s[i] <= limit
    ensures |s| <= limit
  {
    var i := 0;
    while i < |s|
      invariant 0 <= i <= |s|
      invariant i > 0 ==> s[i - 1] >= i
    { i := i + 1; }
  }

  function TxHeader(tx: Tx): Header
    requires WellFormed(tx)
  {
    Header(|Journaled(tx)|, tx.nonce, PageCount(tx), tx.pageSize, tx.pageSize)
  }

  /** The header zero-padded to one sector; the sector size is the page size. */
  function HeaderRegion(tx: Tx): (r: seq<Byte>)
    requires WellFormed(tx)
    ensures |r| == tx.pageSize
  {
    HeaderBytes(TxHeader(tx)) + Zeros(tx.pageSize - HEADER_LEN)
  }

  function TxRecord(tx: Tx, i: nat): (r: seq<Byte>)
    requires WellFormed(tx) && i < |Journaled(tx)|
    ensures |r| == RecordLen(tx.pageSize)
  {
    RecordBytes(tx.nonce, Journaled(tx)[i], PrePage(tx, Journaled(tx)[i]))
  }

  function RecordSteps(tx: Tx, k: nat): (r: seq<Step>)
    requires WellFormed(tx) && k <= |Journaled(tx)|
    ensures |r| == k
    ensures forall i :: 0 <= i < k ==> r[i] == JournalWrite(SlotOffset(tx.pageSize, tx.pageSize, i), TxRecord(tx, i))
  {
    seq(k, i requires 0 <= i < k => JournalWrite(SlotOffset(tx.pageSize, tx.pageSize, i), TxRecord(tx, i)))
  }

  function PageSteps(tx: Tx, k: nat): (r: seq<Step>)
    requires WellFormed(tx) && k <= |tx.dirty|
    ensures |r| == k
    ensures forall i :: 0 <= i < k ==>
      var n := SortedKeys(tx.dirty.Keys)[i]; n in tx.dirty && r[i] == DbWrite(PageOffset(tx.pageSize, n), tx.dirty[n])
  {
    var keys := SortedKeys(tx.dirty.Keys);
    assert |keys| == |tx.dirty.Keys|;
    assert forall i :: 0 <= i < |keys| ==> keys[i] in keys;
    seq(k, i requires 0 <= i < k => DbWrite(PageOffset(tx.pageSize, keys[i]), tx.dirty[keys[i]]))
  }

  /** Every I/O step of `flush_locked` at `synchronous = FULL`, in order. */
  function CommitSteps(tx: Tx): (r: seq<Step>)
    requires WellFormed(tx)
  {
    if Journaled(tx) == [] then PageSteps(tx, |tx.dirty|) + [DbSync]
    else
      [JournalOpen, JournalWrite(0, HeaderRegion(tx))] + RecordSteps(tx, |Journaled(tx)|) + [JournalSync]
      + PageSteps(tx, |tx.dirty|) + [DbSync, JournalDelete]
  }

  // ----- recovery -----

  /** The main-file write for record `index`, or nothing if the record is cut off or fails its
      checksum. A record naming page 0 is written where page 1 lives. */
  function RecordWrite(journal: seq<Byte>, h: Header, index: nat): (r: Option<Step>) {
    var off := SlotOffset(h.sectorSize, h.pageSize, index);
    if off + RecordLen(h.pageSize) > |journal| then None
    else
      var n := ReadBe32(journal, off);
      var page := journal[off + 4..off + 4 + h.pageSize];
      if PageChecksum(h.nonce, page) != ReadBe32(journal, off + 4 + h.pageSize) then None
      else Some(DbWrite(if n == 0 then 0 else PageOffset(h.pageSize, n), page))
  }

  /** Whatever the sector size, the record after `index` others is restored to its own page if and only if its
      checksum is the page's; a record cut short is not. */
  lemma RecordReplays(journal: seq<Byte>, h: Header, index: nat, before: seq<Byte>, n: U32, page: seq<Byte>, c: U32,
                      rest: seq<Byte>)
    requires |before| == h.sectorSize + index * (h.pageSize + 8) && |page| == h.pageSize
    requires journal == before + (Be32(n) + (page + (Be32(c) + rest)))
    ensures RecordWrite(journal, h, index) ==
            if c == PageChecksum(h.nonce, page) then Some(DbWrite(Max(0, n - 1) * h.pageSize, page)) else None
    ensures forall k :: |before| <= k < |before| + h.pageSize + 8 ==> RecordWrite(journal[..k], h, index) == None
  {
    hide PageChecksum, Be32, ReadBe32;
    var off := |before|;
    TimesIsProduct(index, h.pageSize + 8);
    TimesIsProduct(Max(0, n - 1), h.pageSize);
    assert journal[off..off + 4] == Be32(n);
    ReadBe32Of(journal, off, n);
    assert journal[off + 4..off + 4 + h.pageSize] == page;
    assert journal[off + 4 + h.pageSize..off + 8 + h.pageSize] == Be32(c);
    ReadBe32Of(journal, off + 4 + h.pageSize, c);
  }

  /** The writes `recover` issues: records from `index` on, up to the first unusable one. */
  function Replay(journal: seq<Byte>, h: Header, index: nat): (r: seq<Step>)
    decreases h.nRec - index
  {
    if index >= h.nRec || RecordWrite(journal, h, index).None? then []
    else [RecordWrite(journal, h, index).value] + Replay(journal, h, index + 1)
  }

  datatype OpenError = HeaderTooShort(len: nat)

  /** The I/O steps of opening a database at rest: nothing unless a hot journal is found. */
  function OpenSteps(d: Disk): (r: Result<seq<Step>, OpenError>) {
    if d.journal.None? || !Hot(d.journal.value.Contents()) then Ok([])
    else
      var j := d.journal.value.Contents();
      match ParseHeader(j)
      case None => Err(HeaderTooShort(|j|))
      case Some(h) => Ok(Replay(j, h, 0) + [DbSetLen(Times(h.initialPageCount, h.pageSize)), DbSync, JournalDelete])
  }
}
