/** The cells the write paths build, and what the readers make of the bytes. */
module CellCodec {
  import opened Bytes
  import opened Overflow
  import opened LeafLayout
  import opened TablePage
  import Values
  import Varint
  import IndexTree

  // ----- building cells -----

  /** A rowid as the unsigned number its varint carries. */
  function AsU64(rowid: Values.I64): (v: Varint.U64)
    ensures AsI64(v) == rowid
  {
    if rowid < 0 then rowid + 0x1_0000_0000_0000_0000 else rowid
  }

  lemma AsU64OfI64(v: Varint.U64)
    ensures -0x8000_0000_0000_0000 <= AsI64(v) < 0x8000_0000_0000_0000 && AsU64(AsI64(v)) == v
  {
  }

  /** The bytes kept in the cell and, when some spill, the first page of their chain. */
  function PayloadPart(usable: nat, payload: seq<Byte>, isIndex: bool, first: U32): (r: seq<Byte>) {
    var local := LocalSize(usable, |payload|, isIndex);
    if local < |payload| then payload[..local] + Be32(first) else payload
  }

  /** `encode_leaf_cell`, once the chain is written. */
  function TableCell(usable: nat, rowid: Values.I64, payload: seq<Byte>, first: U32): (r: seq<Byte>)
    requires |payload| <= MAX_PAYLOAD_LEN
  {
    Varint.Encode(|payload|) + (Varint.Encode(AsU64(rowid)) + PayloadPart(usable, payload, false, first))
  }

  /** `encode_index_cell`, once the chain is written. */
  function IndexCell(usable: nat, payload: seq<Byte>, first: U32): (r: seq<Byte>)
    requires |payload| <= MAX_PAYLOAD_LEN
  {
    Varint.Encode(|payload|) + PayloadPart(usable, payload, true, first)
  }

  /** `build_interior_cell`. */
  function KeyCell(child: U32, key: Values.I64): (r: seq<Byte>) { Be32(child) + Varint.Encode(AsU64(key)) }

  // ----- reading them -----

  /** The first varint of a leaf cell is the payload length, the second the rowid. */
  lemma CellHeadReads(page: seq<Byte>, start: nat, len: Varint.U64, rowid: Varint.U64, rest: seq<Byte>)
    requires start <= |page| && page[start..] == Varint.Encode(len) + (Varint.Encode(rowid) + rest)
    ensures var tail := start + |Varint.Encode(len)| + |Varint.Encode(rowid)|;
            && CellHead(page, start) == Ok(LeafCell(AsI64(rowid), len, tail))
            && tail <= |page| && page[tail..] == rest
  {
    hide Varint.Encode, Varint.Decode, CellHead;
    var n1, n2 := |Varint.Encode(len)|, |Varint.Encode(rowid)|;
    VarintReads(page, start, len, Varint.Encode(rowid) + rest);
    VarintReads(page, start + n1, rowid, rest);
    HeadFrom(page, start, len, n1, rowid, n2);
  }

  lemma VarintReads(page: seq<Byte>, start: nat, v: Varint.U64, rest: seq<Byte>)
    requires start <= |page| && page[start..] == Varint.Encode(v) + rest
    ensures var n := |Varint.Encode(v)|;
            && Varint.Decode(page[start..]) == Ok((v, n)) && start + n <= |page| && page[start + n..] == rest
  {
    hide Varint.Encode, Varint.Decode;
    Varint.RoundTrip(v, rest);
    Past(page, start, Varint.Encode(v), rest);
  }

  lemma HeadFrom(page: seq<Byte>, start: nat, len: nat, n1: nat, rowid: nat, n2: nat)
    requires start + n1 <= |page| && Varint.Decode(page[start..]) == Ok((len, n1))
    requires Varint.Decode(page[start + n1..]) == Ok((rowid, n2))
    ensures CellHead(page, start) == Ok(LeafCell(AsI64(rowid), len, start + n1 + n2))
  {
    hide Varint.Decode;
  }

  /** What follows the first piece. */
  lemma Past(page: seq<Byte>, start: nat, a: seq<Byte>, rest: seq<Byte>)
    requires start <= |page| && page[start..] == a + rest
    ensures start + |a| <= |page| && page[start + |a|..] == rest
  {
    assert page[start + |a|..] == page[start..][|a|..];
  }

  /** An interior cell is the child's page number and then the key. */
  lemma KeyCellReads(page: seq<Byte>, hs: nat, i: nat, start: nat, child: U32, key: Values.I64, rest: seq<Byte>)
    requires CellPtr(page, hs + 12, i) == Ok(start) && start <= |page| && page[start..] == KeyCell(child, key) + rest
    ensures ChildAt(page, hs + 12, i) == Ok(child) && KeyAt(page, hs + 12, i) == Ok(key)
    ensures ReadInteriorCell(page, hs, i) == Ok(InteriorCell(child, key))
  {
    hide Varint.Encode, Varint.Decode, Be32, ReadBe32, CellPtr;
    var b := Varint.Encode(AsU64(key));
    assert page[start..start + 4] == page[start..][..4] == Be32(child);
    ReadBe32Of(page, start, child);
    assert page[start + 4..] == page[start..][4..] == b + rest;
    Varint.RoundTrip(AsU64(key), rest);
  }

  /** Reassembly looks at no more than the payload part of a cell. */
  lemma PartIsEnough(store: Store, usable: nat, payload: seq<Byte>, isIndex: bool, first: U32, rest: seq<Byte>)
    ensures var part := PayloadPart(usable, payload, isIndex, first);
            Reassembled(store, usable, part + rest, |payload|, isIndex) ==
            Reassembled(store, usable, part, |payload|, isIndex)
  {
    hide LocalSize, Gather, ReadBe32;
    var part, local := PayloadPart(usable, payload, isIndex, first), LocalSize(usable, |payload|, isIndex);
    assert (part + rest)[..local] == part[..local];
    if local < |payload| {
      assert (part + rest)[local..local + 4] == part[local..local + 4] == Be32(first);
      ReadBe32Of(part + rest, local, first);
      ReadBe32Of(part, local, first);
    }
  }

  /** The pages the payload spills to hold it, in order. */
  predicate Spilled(store: Store, usable: nat, payload: seq<Byte>, isIndex: bool, nums: seq<nat>): (r: bool)
    ensures r ==> |payload| <= MAX_PAYLOAD_LEN
  {
    var local := LocalSize(usable, |payload|, isIndex);
    |payload| <= MAX_PAYLOAD_LEN && |nums| <= MAX_PAGES_VISITED &&
      (local < |payload| ==> nums != [] && ChainOf(store, nums, Chunks(payload[local..], Available(usable))))
  }

  /** The page the cell points at, 0 when nothing spills. */
  function First(nums: seq<nat>): (r: U32) { if nums != [] && nums[0] <= U32_MAX then nums[0] else 0 }

  lemma PartReads(store: Store, usable: nat, payload: seq<Byte>, isIndex: bool, nums: seq<nat>, rest: seq<Byte>)
    requires Spilled(store, usable, payload, isIndex, nums)
    ensures Reassembled(store, usable, PayloadPart(usable, payload, isIndex, First(nums)) + rest, |payload|, isIndex) ==
            Ok(payload)
  {
    hide LocalSize, Reassembled, Chunks, Gather, Available;
    PartIsEnough(store, usable, payload, isIndex, First(nums), rest);
    SpillReassembles(store, usable, payload, nums, isIndex);
  }

  /** A table cell reads as its rowid and length; its payload comes back whole, overflow pages included,
      and the page it points at is the first of its chain. */
  lemma TableCellReads(store: Store, page: seq<Byte>, start: nat, usable: nat, rowid: Values.I64, payload: seq<Byte>,
                       nums: seq<nat>, rest: seq<Byte>)
    requires Spilled(store, usable, payload, false, nums)
    requires start <= |page| && page[start..] == TableCell(usable, rowid, payload, First(nums)) + rest
    ensures CellHead(page, start).Ok?
    ensures var c := CellHead(page, start).value;
            && c.rowid == rowid && c.len == |payload| && c.tail <= |page|
            && Reassembled(store, usable, page[c.tail..], c.len, false) == Ok(payload)
            && FirstOverflow(page, c, usable) ==
               Ok(if LocalSize(usable, |payload|, false) < |payload| then Some(nums[0]) else None)
  {
    hide LocalSize, Reassembled, CellHead, PayloadPart, FirstOverflow, Spilled, First, TableCell;
    var part := PayloadPart(usable, payload, false, First(nums));
    TableCellHead(page, start, usable, rowid, payload, First(nums), rest);
    PartReads(store, usable, payload, false, nums, rest);
    PartPoints(store, page, CellHead(page, start).value, usable, payload, nums, rest);
  }

  lemma TableCellHead(page: seq<Byte>, start: nat, usable: nat, rowid: Values.I64, payload: seq<Byte>, first: U32,
                      rest: seq<Byte>)
    requires |payload| <= MAX_PAYLOAD_LEN
    requires start <= |page| && page[start..] == TableCell(usable, rowid, payload, first) + rest
    ensures CellHead(page, start).Ok?
    ensures var c := CellHead(page, start).value;
            && c.rowid == rowid && c.len == |payload| && c.tail <= |page|
            && page[c.tail..] == PayloadPart(usable, payload, false, first) + rest
  {
    hide Varint.Encode, CellHead, PayloadPart;
    var part := PayloadPart(usable, payload, false, first);
    assert page[start..] == Varint.Encode(|payload|) + (Varint.Encode(AsU64(rowid)) + (part + rest));
    CellHeadReads(page, start, |payload|, AsU64(rowid), part + rest);
  }

  /** The overflow page a cell names is the first of its chain. */
  lemma PartPoints(store: Store, page: seq<Byte>, c: LeafCell, usable: nat, payload: seq<Byte>, nums: seq<nat>,
                   rest: seq<Byte>)
    requires Spilled(store, usable, payload, false, nums) && c.len == |payload| && c.tail <= |page|
    requires page[c.tail..] == PayloadPart(usable, payload, false, First(nums)) + rest
    ensures FirstOverflow(page, c, usable) ==
            Ok(if LocalSize(usable, |payload|, false) < |payload| then Some(nums[0]) else None)
  {
    hide LocalSize, ReadBe32, Be32, Chunks, Available;
    var local := LocalSize(usable, |payload|, false);
    if local < |payload| {
      var x := c.tail + local;
      assert page[x..x + 4] == page[c.tail..][local..local + 4] == Be32(nums[0]);
      ReadBe32Of(page, x, nums[0]);
    }
  }

  /** An index cell's payload comes back whole. */
  lemma IndexCellReads(store: Store, page: seq<Byte>, start: nat, usable: nat, payload: seq<Byte>, nums: seq<nat>,
                       rest: seq<Byte>)
    requires Spilled(store, usable, payload, true, nums)
    requires start <= |page| && page[start..] == IndexCell(usable, payload, First(nums)) + rest
    ensures IndexTree.PayloadAt(store, usable, page, start) == Ok(payload)
  {
    hide LocalSize, Reassembled, Varint.Encode, Varint.Decode, PayloadPart, Chunks, Available;
    var a, part := Varint.Encode(|payload|), PayloadPart(usable, payload, true, First(nums));
    assert page[start..] == a + (part + rest);
    Varint.RoundTrip(|payload|, part + rest);
    Past(page, start, a, part + rest);
    PartReads(store, usable, payload, true, nums, rest);
  }

  // ----- their lengths -----

  lemma TableCellValid(usable: nat, rowid: Values.I64, payload: seq<Byte>, first: U32)
    requires |payload| <= MAX_PAYLOAD_LEN
    ensures ValidCell(TableCell(usable, rowid, payload, first), usable, true)
  {
    hide LocalSize, Varint.Encode, Varint.Decode;
    var a, b := Varint.Encode(|payload|), Varint.Encode(AsU64(rowid));
    var part := PayloadPart(usable, payload, false, first);
    Varint.RoundTrip(|payload|, b + part);
    assert (a + (b + part))[|a|..] == b + part;
    Varint.RoundTrip(AsU64(rowid), part);
  }

  lemma IndexCellValid(usable: nat, payload: seq<Byte>, first: U32)
    requires |payload| <= MAX_PAYLOAD_LEN
    ensures ValidCell(IndexCell(usable, payload, first), usable, false)
  {
    hide LocalSize, Varint.Encode, Varint.Decode;
    Varint.RoundTrip(|payload|, PayloadPart(usable, payload, true, first));
  }
}
