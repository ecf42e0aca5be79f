/** Reading table b-tree pages (section 1.6 of the SQLite Database File Format). */
module TablePage {
  import opened Bytes
  import opened Overflow
  import Varint

  const INTERIOR_TABLE: Byte := 0x05
  const LEAF_TABLE: Byte := 0x0d

  datatype PageError =
    | PageTooShort | InvalidCellPointer | InvalidCellVarint | UnexpectedPageType | NoSuchPage | TraversalTooLong
    | BadPayload(error: OverflowError)

  /** The file header takes the first 100 bytes of page 1. */
  function HeaderStart(n: nat): (hs: nat) { if n == 1 then 100 else 0 }

  function PageType(page: seq<Byte>, hs: nat): (r: Result<Byte, PageError>) {
    if hs < |page| then Ok(page[hs]) else Err(PageTooShort)
  }

  function CellCount(page: seq<Byte>, hs: nat): (r: Result<U16, PageError>) {
    if hs + 5 <= |page| then Ok(ReadBe16(page, hs + 3)) else Err(PageTooShort)
  }

  function CellPtr(page: seq<Byte>, base: nat, i: nat): (r: Result<U16, PageError>) {
    if base + 2 * i + 2 <= |page| then Ok(ReadBe16(page, base + 2 * i)) else Err(InvalidCellPointer)
  }

  /** A field reads the same from a page cut short, as long as the cut leaves it whole, and not at all otherwise. */
  lemma CutPage(page: seq<Byte>, hs: nat, i: nat, n: nat)
    requires n <= |page|
    ensures PageType(page[..n], hs) == if n >= hs + 1 then PageType(page, hs) else Err(PageTooShort)
    ensures CellCount(page[..n], hs) == if n >= hs + 5 then CellCount(page, hs) else Err(PageTooShort)
    ensures CellPtr(page[..n], hs, i) == if n >= hs + 2 * i + 2 then CellPtr(page, hs, i) else Err(InvalidCellPointer)
    ensures Rightmost(page[..n], hs) == if n >= hs + 12 then Rightmost(page, hs) else Err(PageTooShort)
  {
  }

  function AsI64(v: nat): (r: int) { if v < 0x8000_0000_0000_0000 then v else v - 0x1_0000_0000_0000_0000 }

  datatype LeafCell = LeafCell(rowid: int, len: nat, tail: nat)
  datatype InteriorCell = InteriorCell(child: U32, key: int)

  /** `decode_cell_head`. */
  function CellHead(page: seq<Byte>, start: nat): (r: Result<LeafCell, PageError>) {
    if start > |page| then Err(InvalidCellPointer)
    else
      match Varint.Decode(page[start..])
      case Err(_) => Err(InvalidCellVarint)
      case Ok((len, n1)) =>
        match Varint.Decode(page[start + n1..])
        case Err(_) => Err(InvalidCellVarint)
        case Ok((rowid, n2)) => Ok(LeafCell(AsI64(rowid), len, start + n1 + n2))
  }

  /** Cell `i` behind the pointer array at `base`. */
  function LeafCellAt(page: seq<Byte>, base: nat, i: nat): (r: Result<LeafCell, PageError>) {
    match CellPtr(page, base, i)
    case Err(e) => Err(e)
    case Ok(start) => CellHead(page, start)
  }

  /** Cell `i` of a leaf page. */
  function ReadLeafCell(page: seq<Byte>, hs: nat, i: nat): (r: Result<LeafCell, PageError>)
  {
    LeafCellAt(page, hs + 8, i)
  }

  /** The child of interior cell `i`. */
  function ChildAt(page: seq<Byte>, base: nat, i: nat): (r: Result<U32, PageError>) {
    match CellPtr(page, base, i)
    case Err(e) => Err(e)
    case Ok(start) => if start + 4 <= |page| then Ok(ReadBe32(page, start)) else Err(PageTooShort)
  }

  /** The separator key of interior cell `i`. */
  function KeyAt(page: seq<Byte>, base: nat, i: nat): (r: Result<int, PageError>) {
    match CellPtr(page, base, i)
    case Err(e) => Err(e)
    case Ok(start) =>
      if start + 4 > |page| then Err(InvalidCellPointer)
      else
        match Varint.Decode(page[start + 4..])
        case Err(_) => Err(InvalidCellVarint)
        case Ok((key, _)) => Ok(AsI64(key))
  }

  /** Cell `i` of an interior page: a child and the largest rowid under it. */
  function ReadInteriorCell(page: seq<Byte>, hs: nat, i: nat): (r: Result<InteriorCell, PageError>) {
    match CellPtr(page, hs + 12, i)
    case Err(e) => Err(e)
    case Ok(start) =>
      if start + 4 > |page| then Err(PageTooShort)
      else
        match Varint.Decode(page[start + 4..])
        case Err(_) => Err(InvalidCellVarint)
        case Ok((key, _)) => Ok(InteriorCell(ReadBe32(page, start), AsI64(key)))
  }

  function Rightmost(page: seq<Byte>, hs: nat): (r: Result<U32, PageError>) {
    if hs + 12 <= |page| then Ok(ReadBe32(page, hs + 8)) else Err(PageTooShort)
  }

  /** The first overflow page of a leaf cell, if its payload spills. */
  function FirstOverflow(page: seq<Byte>, c: LeafCell, usable: nat): (r: Result<Option<U32>, PageError>) {
    var local := LocalSize(usable, c.len, false);
    if local >= c.len then Ok(None)
    else if c.tail + local + 4 <= |page| then Ok(Some(ReadBe32(page, c.tail + local)))
    else Err(PageTooShort)
  }

  /** The interior cells from the first, or the first error among them. */
  function InteriorCells(page: seq<Byte>, hs: nat, n: nat): (r: Result<seq<InteriorCell>, PageError>)
    ensures r.Ok? ==> |r.value| == n && forall i :: 0 <= i < n ==> ReadInteriorCell(page, hs, i) == Ok(r.value[i])
  {
    if n == 0 then Ok([])
    else
      match InteriorCells(page, hs, n - 1)
      case Err(e) => Err(e)
      case Ok(cells) =>
        match ReadInteriorCell(page, hs, n - 1)
        case Err(e) => Err(e)
        case Ok(c) => Ok(cells + [c])
  }

  /** The same for the fields inside a cell. */
  lemma CutCell(page: seq<Byte>, base: nat, i: nat, c: LeafCell, usable: nat, n: nat)
    requires n <= |page|
    ensures var p := CellPtr(page[..n], base, i);
            ChildAt(page[..n], base, i) ==
            if p.Err? then Err(p.error) else if n >= p.value + 4 then ChildAt(page, base, i) else Err(PageTooShort)
    ensures var local := LocalSize(usable, c.len, false);
            FirstOverflow(page[..n], c, usable) ==
            if local == c.len || n >= c.tail + local + 4 then FirstOverflow(page, c, usable) else Err(PageTooShort)
  {
    hide LocalSize;
    CutPage(page, base, i, n);
  }
}
