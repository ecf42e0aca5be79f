/** Trees as the write paths leave them on their pages, and what the cursors then find. */
module WrittenTree {
  import opened Bytes
  import opened Overflow
  import opened TablePage
  import opened Values
  import opened PageImage
  import opened CellCodec
  import opened RowTree
  import Varint
  import Record
  import TableScan
  import IndexOrder
  import IndexTree
  import IndexScan
  import LeafEdits
  import LeafOps
  import LeafPage
  import LeafLayout
  import LeafRebuild

  // ----- one page -----

  /** Page `n` is exactly the image of these cells; the header of page 1 follows the file header. */
  ghost predicate Laid(pages: Pages, n: nat, kind: Byte, right: seq<Byte>, cells: seq<seq<Byte>>): (r: bool)
    ensures r ==> n in pages
  {
    && n in pages
    && var p, hs := pages[n], if n == 1 then 100 else 0;
    && Roomy(hs + 8 + |right|, cells, |p|) && p == Image(p[..hs], kind, right, cells, |p|)
  }

  lemma LaidHead(pages: Pages, n: nat, kind: Byte, right: seq<Byte>, cells: seq<seq<Byte>>)
    requires Laid(pages, n, kind, right, cells)
    ensures PageType(pages[n], HeaderStart(n)) == Ok(kind) && CellCount(pages[n], HeaderStart(n)) == Ok(|cells|)
  {
    hide Image, PageType, CellCount, LeafPage.TotalLen;
    ImageHead(pages[n][..HeaderStart(n)], kind, right, cells, |pages[n]|);
  }

  lemma LaidCell(pages: Pages, n: nat, kind: Byte, right: seq<Byte>, cells: seq<seq<Byte>>, i: nat)
    returns (start: nat, rest: seq<Byte>)
    requires Laid(pages, n, kind, right, cells) && i < |cells| && cells[i] != []
    ensures CellPtr(pages[n], HeaderStart(n) + 8 + |right|, i) == Ok(start)
    ensures start <= |pages[n]| && pages[n][start..] == cells[i] + rest
  {
    hide Image, CellPtr, Join, LeafPage.TotalLen;
    ImageCell(pages[n][..HeaderStart(n)], kind, right, cells, |pages[n]|, i);
    start, rest := LeafRebuild.CellOff(cells, i, |pages[n]|), Join(cells[i + 1..]);
  }

  /** Pointer `i` leads to the bytes of `cell`, which read as the rowid and the length at their head. */
  ghost predicate ReadsAs(r: seq<Byte>, hs: nat, i: nat, cell: seq<Byte>) {
    && CellHead(cell, 0).Ok? && CellPtr(r, hs + 8, i).Ok?
    && var c, start := CellHead(cell, 0).value, CellPtr(r, hs + 8, i).value;
    && start + |cell| <= |r| && r[start..start + |cell|] == cell
    && ReadLeafCell(r, hs, i) == Ok(LeafCell(c.rowid, c.len, start + c.tail))
  }

  /** A rebuilt leaf reads as exactly its cells: the type, the count, and cell by cell the rowid and the length
      found at the head of the bytes that were stored. */
  lemma RebuiltReads(page: seq<Byte>, n: nat, usable: nat, cells: seq<seq<Byte>>, i: nat)
    requires var sh := LeafPage.Shape(if n == 1 then 100 else 0, usable, true);
             LeafRebuild.Room(page, sh, cells) && LeafRebuild.AllValid(cells, sh) && i < |cells|
    ensures var sh := LeafPage.Shape(if n == 1 then 100 else 0, usable, true);
            var r, hs := LeafRebuild.RebuildImage(page, sh, LEAF_TABLE, cells), HeaderStart(n);
            && PageType(r, hs) == Ok(LEAF_TABLE) && CellCount(r, hs) == Ok(|cells|)
            && ReadsAs(r, hs, i, cells[i])
  {
    hide LeafRebuild.RebuildImage, LeafRebuild.AllValid, Image, CellHead, CellPtr, Join, LeafPage.TotalLen;
    hide PageType, CellCount;
    var sh := LeafPage.Shape(if n == 1 then 100 else 0, usable, true);
    var r := LeafRebuild.RebuildImage(page, sh, LEAF_TABLE, cells);
    RebuildIsImage(page, sh, LEAF_TABLE, cells);
    ImageHead(page[..sh.hs], LEAF_TABLE, [], cells, |page|);
    LeafRebuild.CellNonempty(cells, sh, i);
    ImageCell(page[..sh.hs], LEAF_TABLE, [], cells, |page|, i);
    var start, rest := LeafRebuild.CellOff(cells, i, |page|), Join(cells[i + 1..]);
    assert r[start..start + |cells[i]|] == r[start..][..|cells[i]|] == cells[i];
    HeadIsLocal(r, start, cells[i], rest, usable);
  }

  /** Whatever edits led to it, a well-formed leaf reads as exactly its cells. */
  lemma SoundReads(page: seq<Byte>, n: nat, usable: nat, tiles: seq<LeafLayout.Tile>, i: nat)
    requires var sh := LeafPage.Shape(if n == 1 then 100 else 0, usable, true);
             LeafPage.Sound(page, sh, tiles) && i < LeafPage.NumCells(page, sh)
    ensures var sh, hs := LeafPage.Shape(if n == 1 then 100 else 0, usable, true), HeaderStart(n);
            && CellCount(page, hs) == Ok(|LeafPage.Cells(page, sh)|)
            && ReadsAs(page, hs, i, LeafPage.Cells(page, sh)[i])
  {
    hide LeafPage.Sound, LeafLayout.CellLen, CellHead, ReadBe16;
    var sh := LeafPage.Shape(if n == 1 then 100 else 0, usable, true);
    SoundFits(page, sh, tiles);
    var k := LeafEdits.PtrTile(page, sh, tiles, i);
    var p := LeafPage.Ptr(page, sh, i);
    var cell, rest := page[p..p + tiles[k].len], page[p + tiles[k].len..];
    assert page[p..] == cell + rest && page[p..][..|cell|] == cell[..|cell|];
    LeafLayout.CellLenLocal(page[p..], cell, usable, true);
    HeadIsLocal(page, p, cell, rest, usable);
  }

  lemma SoundFits(page: seq<Byte>, sh: LeafPage.Shape, tiles: seq<LeafLayout.Tile>)
    requires LeafPage.Sound(page, sh, tiles)
    ensures LeafPage.PtrsFit(page, sh)
  {
  }

  /** The type byte a rebuilt leaf gets is the one its cursor expects, eight above that of an interior page. */
  lemma LeafKindIs(sh: LeafPage.Shape)
    ensures LeafOps.LeafKind(sh) == if sh.hasRowid then LEAF_TABLE else IndexTree.LEAF_INDEX
    ensures LeafOps.LeafKind(sh) == 8 + if sh.hasRowid then INTERIOR_TABLE else IndexTree.INTERIOR_INDEX
  {
  }

  /** The head of a cell depends only on the cell's own bytes. */
  lemma HeadIsLocal(page: seq<Byte>, start: nat, cell: seq<Byte>, rest: seq<Byte>, usable: nat)
    requires start <= |page| && page[start..] == cell + rest && LeafLayout.ValidCell(cell, usable, true)
    ensures CellHead(cell, 0).Ok?
    ensures var c := CellHead(cell, 0).value; CellHead(page, start) == Ok(LeafCell(c.rowid, c.len, start + c.tail))
  {
    hide LocalSize, Varint.DecodeFrom;
    assert cell[0..] == cell;
    var n1 := Varint.Decode(cell).value.1;
    Varint.DecodeLocal(cell, page[start..], 0, 0);
    assert page[start + n1..] == page[start..][n1..] == cell[n1..] + rest;
    var n2 := Varint.Decode(cell[n1..]).value.1;
    assert (cell[n1..] + rest)[..n2] == cell[n1..][..n2];
    Varint.DecodeLocal(cell[n1..], cell[n1..] + rest, 0, 0);
  }

  // ----- table trees -----

  /** A row handed to the insert path, with the overflow pages it was given. */
  datatype Saved = Saved(rowid: I64, payload: seq<Byte>, chain: seq<nat>)

  datatype Written = RowsPage(page: nat, saved: seq<Saved>) | KeysPage(page: nat, kids: seq<Written>, keys: seq<I64>)

  function TableCells(usable: nat, saved: seq<Saved>): (r: seq<seq<Byte>>)
    requires forall i :: 0 <= i < |saved| ==> |saved[i].payload| <= MAX_PAYLOAD_LEN
    ensures |r| == |saved|
    ensures forall i :: 0 <= i < |r| ==>
            r[i] == TableCell(usable, saved[i].rowid, saved[i].payload, First(saved[i].chain))
  {
    seq(|saved|, i requires 0 <= i < |saved| =>
      TableCell(usable, saved[i].rowid, saved[i].payload, First(saved[i].chain)))
  }

  function Page32(n: nat): (r: U32) { if n <= U32_MAX then n else 0 }

  function KeyCells(kids: seq<Written>, keys: seq<I64>): (r: seq<seq<Byte>>)
    requires |kids| == |keys| + 1
    ensures |r| == |keys| && forall i :: 0 <= i < |r| ==> r[i] == KeyCell(Page32(kids[i].page), keys[i])
  {
    seq(|keys|, i requires 0 <= i < |keys| => KeyCell(Page32(kids[i].page), keys[i]))
  }

  /** Every page of the tree is the image of its cells, and every spilled payload is on its chain. */
  ghost predicate On(pages: Pages, usable: nat, w: Written)
    decreases w
  {
    && w.page <= U32_MAX
    && match w
       case RowsPage(n, saved) =>
         && (forall i :: 0 <= i < |saved| ==> Spilled(pages, usable, saved[i].payload, false, saved[i].chain))
         && Laid(pages, n, LEAF_TABLE, [], TableCells(usable, saved))
       case KeysPage(n, kids, keys) =>
         && |kids| == |keys| + 1
         && Laid(pages, n, INTERIOR_TABLE, Be32(Page32(kids[|keys|].page)), KeyCells(kids, keys))
         && forall i :: 0 <= i < |kids| ==> On(pages, usable, kids[i])
  }

  function SavedRows(w: Written): (r: seq<Saved>)
    decreases w, 0
  {
    match w
    case RowsPage(_, saved) => saved
    case KeysPage(_, kids, _) => AllSaved(kids)
  }

  function AllSaved(ws: seq<Written>): (r: seq<Saved>)
    decreases ws, 1
  {
    if ws == [] then [] else SavedRows(ws[0]) + AllSaved(ws[1..])
  }

  function PageCount(w: Written): (n: nat)
    decreases w, 0
  {
    match w
    case RowsPage(_, _) => 1
    case KeysPage(_, kids, _) => 1 + PagesCount(kids)
  }

  function PagesCount(ws: seq<Written>): (n: nat)
    decreases ws, 1
  {
    if ws == [] then 0 else PageCount(ws[0]) + PagesCount(ws[1..])
  }

  ghost predicate SameRow(pages: Pages, usable: nat, row: Row, s: Saved) {
    row.cell.rowid == s.rowid && RowPayload(pages, usable, row) == Ok(s.payload)
  }

  /** The rows found are the rows saved, payloads and all, in order. */
  ghost predicate SameRows(pages: Pages, usable: nat, rows: seq<Row>, saved: seq<Saved>) {
    |rows| == |saved| && forall i :: 0 <= i < |rows| ==> SameRow(pages, usable, rows[i], saved[i])
  }

  lemma SameConcat(pages: Pages, usable: nat, a: seq<Row>, b: seq<Row>, sa: seq<Saved>, sb: seq<Saved>)
    requires SameRows(pages, usable, a, sa) && SameRows(pages, usable, b, sb)
    ensures SameRows(pages, usable, a + b, sa + sb)
  {
    hide SameRow;
  }

  lemma RowStored(pages: Pages, usable: nat, n: nat, saved: seq<Saved>, i: nat)
    requires On(pages, usable, RowsPage(n, saved)) && i < |saved|
    ensures ReadLeafCell(pages[n], HeaderStart(n), i).Ok?
    ensures SameRow(pages, usable, Row(n, ReadLeafCell(pages[n], HeaderStart(n), i).value), saved[i])
  {
    hide Laid, TableCell, CellHead, Reassembled, CellPtr, FirstOverflow, Spilled, First;
    var s, cells := saved[i], TableCells(usable, saved);
    assert Spilled(pages, usable, s.payload, false, s.chain);
    CellsAreLong(usable, s);
    var start, rest := LaidCell(pages, n, LEAF_TABLE, [], cells, i);
    TableCellReads(pages, pages[n], start, usable, s.rowid, s.payload, s.chain, rest);
  }

  lemma CellsAreLong(usable: nat, s: Saved)
    requires |s.payload| <= MAX_PAYLOAD_LEN
    ensures TableCell(usable, s.rowid, s.payload, First(s.chain)) != []
  {
    hide LocalSize, First, PayloadPart;
  }

  lemma LeafStored(pages: Pages, usable: nat, n: nat, saved: seq<Saved>) returns (t: Tree)
    requires On(pages, usable, RowsPage(n, saved))
    ensures t.page == n && NodeCount(t) == 1 && StoredAt(pages, t) && SameRows(pages, usable, Rows(t), saved)
  {
    hide Laid, SameRow, TableCells, ReadLeafCell, PageType, CellCount;
    LaidHead(pages, n, LEAF_TABLE, [], TableCells(usable, saved));
    var buf, hs := pages[n], HeaderStart(n);
    forall i | 0 <= i < |saved|
      ensures ReadLeafCell(buf, hs, i).Ok? && SameRow(pages, usable, Row(n, ReadLeafCell(buf, hs, i).value), saved[i])
    {
      RowStored(pages, usable, n, saved, i);
    }
    t := Leaf(n, seq(|saved|, i requires 0 <= i < |saved| => ReadLeafCell(buf, hs, i).value));
  }

  lemma KeyStored(pages: Pages, usable: nat, n: nat, kids: seq<Written>, keys: seq<I64>, i: nat)
    requires On(pages, usable, KeysPage(n, kids, keys)) && i < |keys|
    ensures ChildAt(pages[n], HeaderStart(n) + 12, i) == Ok(kids[i].page)
    ensures KeyAt(pages[n], HeaderStart(n) + 12, i) == Ok(keys[i])
  {
    hide Laid, KeyCell, ChildAt, KeyAt, ReadInteriorCell, CellPtr, Be32;
    var right := Be32(Page32(kids[|keys|].page));
    assert On(pages, usable, kids[i]);
    KeyCellLong(kids[i].page, keys[i]);
    var start, rest := LaidCell(pages, n, INTERIOR_TABLE, right, KeyCells(kids, keys), i);
    KeyCellReads(pages[n], HeaderStart(n), i, start, kids[i].page, keys[i], rest);
  }

  lemma KeyCellLong(child: U32, key: I64)
    ensures KeyCell(child, key) != []
  {
    hide Be32, Varint.Encode;
  }

  lemma RightStored(pages: Pages, usable: nat, n: nat, kids: seq<Written>, keys: seq<I64>)
    requires On(pages, usable, KeysPage(n, kids, keys))
    ensures Rightmost(pages[n], HeaderStart(n)) == Ok(kids[|keys|].page)
  {
    hide Image, Be32, Rightmost, KeyCells;
    assert On(pages, usable, kids[|keys|]);
    ImageRight(pages[n][..HeaderStart(n)], INTERIOR_TABLE, kids[|keys|].page, KeyCells(kids, keys), |pages[n]|);
  }

  /** A written tree is a stored tree, holding the rows that were saved. */
  lemma {:induction false} WrittenIsStored(pages: Pages, usable: nat, w: Written) returns (t: Tree)
    requires On(pages, usable, w)
    ensures t.page == w.page && NodeCount(t) == PageCount(w)
    ensures StoredAt(pages, t) && SameRows(pages, usable, Rows(t), SavedRows(w))
    decreases w, 0
  {
    hide Laid, SameRows, PageType, CellCount, ChildAt, KeyAt, Rightmost, Rows, SavedRows, KeyCells, TableCells;
    match w
    case RowsPage(n, saved) =>
      t := LeafStored(pages, usable, n, saved);
      assert SavedRows(w) == saved by { RowsPageRows(n, saved); }
    case KeysPage(n, kids, keys) =>
      var ts := KidsStored(pages, usable, kids);
      NodeStored(pages, usable, n, kids, keys, ts);
      t := Node(n, ts, keys);
      KeysPageRows(n, kids, keys, ts);
  }

  lemma NodeStored(pages: Pages, usable: nat, n: nat, kids: seq<Written>, keys: seq<I64>, ts: seq<Tree>)
    requires On(pages, usable, KeysPage(n, kids, keys)) && |ts| == |kids|
    requires forall i :: 0 <= i < |kids| ==> ts[i].page == kids[i].page && StoredAt(pages, ts[i])
    ensures StoredAt(pages, Node(n, ts, keys))
  {
    hide Laid, PageType, CellCount, ChildAt, KeyAt, Rightmost, KeyCells, TableCells;
    LaidHead(pages, n, INTERIOR_TABLE, Be32(Page32(kids[|keys|].page)), KeyCells(kids, keys));
    forall i | 0 <= i < |keys|
      ensures ChildAt(pages[n], HeaderStart(n) + 12, i) == Ok(ts[i].page)
      ensures KeyAt(pages[n], HeaderStart(n) + 12, i) == Ok(keys[i])
    {
      KeyStored(pages, usable, n, kids, keys, i);
    }
    RightStored(pages, usable, n, kids, keys);
  }

  lemma RowsPageRows(n: nat, saved: seq<Saved>)
    ensures SavedRows(RowsPage(n, saved)) == saved
  {
  }

  lemma KeysPageRows(n: nat, kids: seq<Written>, keys: seq<I64>, ts: seq<Tree>)
    ensures SavedRows(KeysPage(n, kids, keys)) == AllSaved(kids) && Rows(Node(n, ts, keys)) == AllRows(ts)
  {
  }

  lemma {:induction false} KidsStored(pages: Pages, usable: nat, ws: seq<Written>) returns (ts: seq<Tree>)
    requires forall i :: 0 <= i < |ws| ==> On(pages, usable, ws[i])
    ensures |ts| == |ws| && NodesCount(ts) == PagesCount(ws)
    ensures forall i :: 0 <= i < |ws| ==> ts[i].page == ws[i].page && StoredAt(pages, ts[i])
    ensures SameRows(pages, usable, AllRows(ts), AllSaved(ws))
    decreases ws, 1
  {
    hide On, StoredAt, SameRow, Rows, SavedRows;
    if ws == [] {
      ts := [];
    } else {
      assert On(pages, usable, ws[0]);
      var t := WrittenIsStored(pages, usable, ws[0]);
      var rest := KidsStored(pages, usable, ws[1..]);
      ts := [t] + rest;
      assert ts[1..] == rest;
      SameConcat(pages, usable, Rows(t), AllRows(rest), SavedRows(ws[0]), AllSaved(ws[1..]));
    }
  }

  /** Scanning a written tree yields the rows that were saved, in their order or the reverse, and asking for each
      row's payload returns the saved bytes. */
  lemma WrittenScans(pages: Pages, usable: nat, w: Written, c: TableScan.Cursor, reverse: bool) returns (rows: seq<Row>)
    requires On(pages, usable, w) && PageCount(w) <= MAX_PAGES_VISITED
    ensures SameRows(pages, usable, rows, SavedRows(w))
    ensures TableScan.Scans(pages, TableScan.Start(pages, w.page, c, reverse), TableScan.Met(rows, reverse), reverse)
  {
    hide On, StoredAt, SameRows, Rows, SavedRows, TableScan.Scans, TableScan.Start, TableScan.Met;
    var t := WrittenIsStored(pages, usable, w);
    TableScan.ScanIsTraversal(pages, t, c, reverse);
    rows := Rows(t);
  }

  // ----- index trees -----

  /** `cell` is what the insert path builds for the entry. */
  ghost predicate CellFor(pages: Pages, usable: nat, cell: seq<Byte>, e: IndexTree.Entry) {
    && Record.AllEncodable(e.key) && e.payload == Record.EncodeRecord(e.key)
    && exists nums :: Spilled(pages, usable, e.payload, true, nums) && cell == IndexCell(usable, e.payload, First(nums))
  }

  ghost predicate CellsFor(pages: Pages, usable: nat, cells: seq<seq<Byte>>, es: seq<IndexTree.Entry>) {
    |cells| == |es| && forall i :: 0 <= i < |es| ==> CellFor(pages, usable, cells[i], es[i])
  }

  function WithChild(kids: seq<IndexTree.Tree>, values: seq<seq<Byte>>): (r: seq<seq<Byte>>)
    requires |kids| == |values| + 1
    ensures |r| == |values| && forall i :: 0 <= i < |r| ==> r[i] == Be32(Page32(kids[i].page)) + values[i]
  {
    seq(|values|, i requires 0 <= i < |values| => Be32(Page32(kids[i].page)) + values[i])
  }

  ghost predicate LeafOn(pages: Pages, usable: nat, t: IndexTree.Tree, cells: seq<seq<Byte>>) {
    t.Leaf? && CellsFor(pages, usable, cells, t.entries) && Laid(pages, t.page, IndexTree.LEAF_INDEX, [], cells)
  }

  ghost predicate NodeOn(pages: Pages, usable: nat, t: IndexTree.Tree, values: seq<seq<Byte>>) {
    && t.Node? && |t.kids| == |t.seps| + 1 && CellsFor(pages, usable, values, t.seps)
    && Laid(pages, t.page, IndexTree.INTERIOR_INDEX, Be32(Page32(t.kids[|t.seps|].page)), WithChild(t.kids, values))
  }

  ghost predicate IndexOn(pages: Pages, usable: nat, t: IndexTree.Tree)
    decreases t
  {
    && t.page <= U32_MAX
    && match t
       case Leaf(_, _) => exists cells :: LeafOn(pages, usable, t, cells)
       case Node(_, kids, _) =>
         && (exists values :: NodeOn(pages, usable, t, values))
         && forall i :: 0 <= i < |kids| ==> IndexOn(pages, usable, kids[i])
  }

  lemma EntryReads(pages: Pages, usable: nat, buf: seq<Byte>, start: nat, cell: seq<Byte>, rest: seq<Byte>,
                   e: IndexTree.Entry)
    requires CellFor(pages, usable, cell, e) && start <= |buf| && buf[start..] == cell + rest
    ensures IndexTree.PayloadAt(pages, usable, buf, start) == Ok(e.payload)
    ensures Record.DecodeRecord(e.payload) == Ok(e.key)
  {
    hide Spilled, IndexCell, IndexTree.PayloadAt, Record.EncodeRecord, Record.DecodeRecord, First;
    var nums :| Spilled(pages, usable, e.payload, true, nums) && cell == IndexCell(usable, e.payload, First(nums));
    IndexCellReads(pages, buf, start, usable, e.payload, nums, rest);
    Record.RecordRoundTrip(e.key);
    KeysHaveNoNaN(e.key);
  }

  lemma KeysHaveNoNaN(key: IndexOrder.Key)
    ensures Record.NoNaN(key)
  {
  }

  lemma CellForLong(pages: Pages, usable: nat, cell: seq<Byte>, e: IndexTree.Entry)
    requires CellFor(pages, usable, cell, e)
    ensures cell != []
  {
    hide Spilled, Record.EncodeRecord, PayloadPart, First, LocalSize;
    var nums :| Spilled(pages, usable, e.payload, true, nums) && cell == IndexCell(usable, e.payload, First(nums));
  }

  lemma LeafEntryStored(pages: Pages, usable: nat, t: IndexTree.Tree, cells: seq<seq<Byte>>, i: nat)
    requires LeafOn(pages, usable, t, cells) && i < |t.entries|
    ensures IndexTree.EntryIs(pages, usable, pages[t.page], HeaderStart(t.page) + 8, false, i, t.entries[i])
  {
    hide Laid, CellFor, CellPtr, IndexTree.PayloadAt, Record.DecodeRecord;
    assert CellFor(pages, usable, cells[i], t.entries[i]);
    CellForLong(pages, usable, cells[i], t.entries[i]);
    var start, rest := LaidCell(pages, t.page, IndexTree.LEAF_INDEX, [], cells, i);
    EntryReads(pages, usable, pages[t.page], start, cells[i], rest, t.entries[i]);
  }

  lemma SepStored(pages: Pages, usable: nat, t: IndexTree.Tree, values: seq<seq<Byte>>, i: nat)
    requires NodeOn(pages, usable, t, values) && i < |t.seps| && t.kids[i].page <= U32_MAX
    ensures ChildAt(pages[t.page], HeaderStart(t.page) + 12, i) == Ok(t.kids[i].page)
    ensures IndexTree.EntryIs(pages, usable, pages[t.page], HeaderStart(t.page) + 12, true, i, t.seps[i])
  {
    hide Laid, CellFor, CellPtr, IndexTree.PayloadAt, Record.DecodeRecord, Be32, ReadBe32;
    var child, right, buf := Be32(t.kids[i].page), Be32(Page32(t.kids[|t.seps|].page)), pages[t.page];
    assert CellFor(pages, usable, values[i], t.seps[i]);
    var start, rest := LaidCell(pages, t.page, IndexTree.INTERIOR_INDEX, right, WithChild(t.kids, values), i);
    assert buf[start..] == child + (values[i] + rest);
    assert buf[start..start + 4] == buf[start..][..4] == child;
    ReadBe32Of(buf, start, t.kids[i].page);
    assert buf[start + 4..] == buf[start..][4..] == values[i] + rest;
    EntryReads(pages, usable, buf, start + 4, values[i], rest, t.seps[i]);
  }

  lemma SepRightStored(pages: Pages, usable: nat, t: IndexTree.Tree, values: seq<seq<Byte>>)
    requires NodeOn(pages, usable, t, values) && t.kids[|t.seps|].page <= U32_MAX
    ensures Rightmost(pages[t.page], HeaderStart(t.page)) == Ok(t.kids[|t.seps|].page)
  {
    hide Image, Be32, Rightmost, CellFor;
    ImageRight(pages[t.page][..HeaderStart(t.page)], IndexTree.INTERIOR_INDEX, t.kids[|t.seps|].page,
      WithChild(t.kids, values), |pages[t.page]|);
  }

  /** A written index is a stored index: every key comes back through the record it was encoded as. */
  lemma {:induction false} IndexIsStored(pages: Pages, usable: nat, t: IndexTree.Tree)
    requires IndexOn(pages, usable, t)
    ensures IndexTree.StoredAt(pages, usable, t)
    decreases t
  {
    hide Laid, CellFor, LeafOn, NodeOn, IndexTree.StoredAt;
    match t
    case Leaf(_, _) =>
      var cells :| LeafOn(pages, usable, t, cells);
      IndexLeafStored(pages, usable, t, cells);
    case Node(_, kids, _) =>
      var values :| NodeOn(pages, usable, t, values);
      forall i | 0 <= i < |kids| ensures IndexTree.StoredAt(pages, usable, kids[i]) && kids[i].page <= U32_MAX {
        IndexIsStored(pages, usable, kids[i]);
      }
      IndexNodeStored(pages, usable, t, values);
  }

  lemma IndexLeafStored(pages: Pages, usable: nat, t: IndexTree.Tree, cells: seq<seq<Byte>>)
    requires LeafOn(pages, usable, t, cells)
    ensures IndexTree.StoredAt(pages, usable, t)
  {
    hide Laid, CellFor, PageType, CellCount, IndexTree.EntryIs;
    LaidHead(pages, t.page, IndexTree.LEAF_INDEX, [], cells);
    forall i | 0 <= i < |t.entries|
      ensures IndexTree.EntryIs(pages, usable, pages[t.page], HeaderStart(t.page) + 8, false, i, t.entries[i])
    {
      LeafEntryStored(pages, usable, t, cells, i);
    }
  }

  lemma IndexNodeStored(pages: Pages, usable: nat, t: IndexTree.Tree, values: seq<seq<Byte>>)
    requires NodeOn(pages, usable, t, values)
    requires forall i :: 0 <= i < |t.kids| ==> IndexTree.StoredAt(pages, usable, t.kids[i]) && t.kids[i].page <= U32_MAX
    ensures IndexTree.StoredAt(pages, usable, t)
  {
    hide Laid, CellFor, PageType, CellCount, ChildAt, Rightmost, IndexTree.EntryIs;
    var n, last := t.page, |t.seps|;
    LaidHead(pages, n, IndexTree.INTERIOR_INDEX, Be32(Page32(t.kids[last].page)), WithChild(t.kids, values));
    forall i | 0 <= i < last
      ensures ChildAt(pages[n], HeaderStart(n) + 12, i) == Ok(t.kids[i].page)
      ensures IndexTree.EntryIs(pages, usable, pages[n], HeaderStart(n) + 12, true, i, t.seps[i])
    {
      SepStored(pages, usable, t, values, i);
    }
    SepRightStored(pages, usable, t, values);
  }

  /** Scanning a written index yields its entries in order, or the reverse. */
  lemma IndexScans(pages: Pages, usable: nat, t: IndexTree.Tree, desc: bool)
    requires IndexOn(pages, usable, t) && IndexTree.NodeCount(t) <= MAX_PAGES_VISITED
    ensures IndexScan.Scans(pages, usable, IndexScan.Start(pages, usable, t.page, desc),
            IndexScan.Met(IndexTree.Entries(t), desc), desc)
  {
    hide IndexOn, IndexTree.StoredAt, IndexScan.Scans, IndexScan.Start;
    IndexIsStored(pages, usable, t);
    IndexScan.ScanIsTraversal(pages, usable, t, desc);
  }
}
