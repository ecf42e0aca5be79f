/** Freelist trunk pages (section 1.5 of the SQLite Database File Format): a next pointer, a count and
    an array of leaf page numbers. */
module Trunks {
  import opened Bytes

  datatype TrunkPage = TrunkPage(nextTrunk: U32, leaves: seq<U32>)
  datatype TrunkError = PageTooShort

  function MaxLeaves(pageSize: nat): (n: nat) { Max(0, pageSize - 8) / 4 }

  /** As many entries as fit after the two header fields. */
  lemma MaxLeavesIs(pageSize: nat)
    requires pageSize >= 8
    ensures 8 + 4 * MaxLeaves(pageSize) <= pageSize < 8 + 4 * (MaxLeaves(pageSize) + 1)
  {
  }

  function Leaves(buf: seq<Byte>, n: nat): (r: seq<U32>)
    requires 8 + 4 * n <= |buf|
    ensures |r| == n && forall i :: 0 <= i < n ==> r[i] == ReadBe32(buf, 8 + 4 * i)
  {
    seq(n, i requires 0 <= i < n => ReadBe32(buf, 8 + 4 * i))
  }

  /** `TrunkPage::parse`: a count that claims more entries than fit is cut to what fits. */
  function Parse(buf: seq<Byte>): (r: Result<TrunkPage, TrunkError>)
    ensures r.Ok? <==> |buf| >= 8
    ensures r.Ok? ==> |r.value.leaves| <= MaxLeaves(|buf|)
  {
    if |buf| < 8 then Err(PageTooShort)
    else Ok(TrunkPage(ReadBe32(buf, 0), Leaves(buf, Min(ReadBe32(buf, 4), MaxLeaves(|buf|)))))
  }

  /** Every leaf of a page whose count fits is kept, in order; of an overclaimed count, as many as fit. */
  lemma ParseKeeps(buf: seq<Byte>)
    requires |buf| >= 8
    ensures Parse(buf).Ok? && Parse(buf).value.nextTrunk == ReadBe32(buf, 0)
    ensures var t, count := Parse(buf).value, ReadBe32(buf, 4);
            && (8 + 4 * count <= |buf| ==> |t.leaves| == count)
            && (8 + 4 * count > |buf| ==> 8 + 4 * |t.leaves| <= |buf| < 8 + 4 * (|t.leaves| + 1))
            && forall i :: 0 <= i < |t.leaves| ==> t.leaves[i] == ReadBe32(buf, 8 + 4 * i)
  {
    hide ReadBe32;
  }

  function LeafBytes(leaves: seq<U32>): (r: seq<Byte>)
    ensures |r| == 4 * |leaves|
  {
    if leaves == [] then [] else LeafBytes(leaves[..|leaves| - 1]) + Be32(leaves[|leaves| - 1])
  }

  /** The page `TrunkPage::write` leaves behind, stale bytes past the array cleared. */
  function Write(t: TrunkPage, size: nat): (r: seq<Byte>)
    requires |t.leaves| <= MaxLeaves(size) && 8 <= size <= 0x1_0000
    ensures |r| == size
  {
    Be32(t.nextTrunk) + Be32(|t.leaves|) + LeafBytes(t.leaves) + Zeros(size - 8 - 4 * |t.leaves|)
  }

  lemma {:induction false} LeafBytesAt(leaves: seq<U32>, i: nat)
    requires i < |leaves|
    ensures LeafBytes(leaves)[4 * i..4 * i + 4] == Be32(leaves[i])
  {
    hide Be32;
    var n := |leaves| - 1;
    if i < n {
      LeafBytesAt(leaves[..n], i);
      assert LeafBytes(leaves)[4 * i..4 * i + 4] == LeafBytes(leaves[..n])[4 * i..4 * i + 4];
    }
  }

  lemma WrittenLeaf(t: TrunkPage, size: nat, i: nat)
    requires |t.leaves| <= MaxLeaves(size) && 8 <= size <= 0x1_0000 && i < |t.leaves|
    ensures ReadBe32(Write(t, size), 8 + 4 * i) == t.leaves[i]
  {
    hide Be32, ReadBe32, LeafBytes;
    var w, l := Write(t, size), LeafBytes(t.leaves);
    assert w[8 + 4 * i..8 + 4 * i + 4] == l[4 * i..4 * i + 4];
    LeafBytesAt(t.leaves, i);
    ReadBe32Of(w, 8 + 4 * i, t.leaves[i]);
  }

  /** What was written parses back. */
  lemma RoundTrip(t: TrunkPage, size: nat)
    requires |t.leaves| <= MaxLeaves(size) && 8 <= size <= 0x1_0000
    ensures Parse(Write(t, size)) == Ok(t)
  {
    hide Be32, ReadBe32, LeafBytes;
    var w := Write(t, size);
    assert w[0..4] == Be32(t.nextTrunk) && w[4..8] == Be32(|t.leaves|);
    ReadBe32Of(w, 0, t.nextTrunk);
    ReadBe32Of(w, 4, |t.leaves|);
    var r := Leaves(w, |t.leaves|);
    forall i | 0 <= i < |t.leaves| ensures r[i] == t.leaves[i] { WrittenLeaf(t, size, i); }
    assert r == t.leaves;
  }

  // ----- the loops -----

  method ParseTrunk(buf: seq<Byte>) returns (r: Result<TrunkPage, TrunkError>)
    ensures r == Parse(buf)
  {
    if |buf| < 8 { return Err(PageTooShort); }
    var count := Min(ReadBe32(buf, 4), Max(0, |buf| - 8) / 4);
    var leaves: seq<U32> := [];
    for i := 0 to count
      invariant |leaves| == i && forall j :: 0 <= j < i ==> leaves[j] == ReadBe32(buf, 8 + 4 * j)
    {
      leaves := leaves + [ReadBe32(buf, 8 + 4 * i)];
    }
    assert leaves == Leaves(buf, count);
    return Ok(TrunkPage(ReadBe32(buf, 0), leaves));
  }

  method WriteU32(buf: array<Byte>, off: nat, v: U32)
    requires off + 4 <= buf.Length
    modifies buf
    ensures buf[..] == old(buf[..off]) + Be32(v) + old(buf[off + 4..])
  {
    var b := Be32(v);
    buf[off], buf[off + 1], buf[off + 2], buf[off + 3] := b[0], b[1], b[2], b[3];
  }

  /** Whatever the page held before, it holds exactly the trunk afterwards. */
  method WriteTrunk(buf: array<Byte>, t: TrunkPage)
    requires |t.leaves| <= MaxLeaves(buf.Length) && 8 <= buf.Length <= 0x1_0000
    modifies buf
    ensures buf[..] == Write(t, buf.Length)
  {
    hide Be32;
    WriteU32(buf, 0, t.nextTrunk);
    assert buf[..4] == Be32(t.nextTrunk);
    WriteU32(buf, 4, |t.leaves|);
    ghost var head := Be32(t.nextTrunk) + Be32(|t.leaves|);
    assert buf[..8] == head;
    for i := 0 to |t.leaves|
      invariant buf[..8 + 4 * i] == head + LeafBytes(t.leaves[..i])
    {
      ghost var was := buf[..8 + 4 * i];
      WriteU32(buf, 8 + 4 * i, t.leaves[i]);
      assert buf[..8 + 4 * i + 4] == was + Be32(t.leaves[i]);
      assert t.leaves[..i + 1][..i] == t.leaves[..i];
    }
    assert t.leaves[..|t.leaves|] == t.leaves;
    ghost var tail := 8 + 4 * |t.leaves|;
    ghost var written := buf[..tail];
    ZeroFrom(buf, 8 + 4 * |t.leaves|);
    assert buf[..] == written + Zeros(buf.Length - tail);
  }

  method ZeroFrom(buf: array<Byte>, from: nat)
    requires from <= buf.Length
    modifies buf
    ensures buf[..] == old(buf[..from]) + Zeros(buf.Length - from)
  {
    var k := from;
    while k < buf.Length
      invariant from <= k <= buf.Length
      invariant buf[..from] == old(buf[..from])
      invariant forall x :: from <= x < k ==> buf[x] == 0
    {
      buf[k] := 0;
      k := k + 1;
    }
    assert buf[from..] == Zeros(buf.Length - from);
    assert buf[..] == buf[..from] + buf[from..];
  }
}
