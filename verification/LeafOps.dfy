/** Leaf page editing in place, on a page buffer, and the runs of edits. */
module LeafOps {
  import opened Bytes
  import opened LeafLayout
  import opened LeafPage
  import opened Freeblocks
  import opened LeafEdits
  import opened LeafDelete
  import opened LeafRebuild

  method PutBytes(buf: array<Byte>, off: nat, bytes: seq<Byte>)
    requires off + |bytes| <= buf.Length
    modifies buf
    ensures buf[..] == Put(old(buf[..]), off, bytes)
  {
    var i := 0;
    while i < |bytes|
      invariant 0 <= i <= |bytes|
      invariant forall x :: 0 <= x < buf.Length ==> buf[x] == if off <= x < off + i then bytes[x - off] else old(buf[x])
    {
      buf[off + i] := bytes[i];
      i := i + 1;
    }
  }

  lemma Be16OfRead(s: seq<Byte>, off: nat)
    requires off + 2 <= |s|
    ensures Be16(ReadBe16(s, off)) == s[off..off + 2]
  {
  }

  // ----- insertion -----

  /** Moving one more pointer up extends the moved range by one entry. */
  lemma ShiftUp(p: seq<Byte>, b: nat, i: nat, n: nat)
    requires i < n && b + 2 * n + 2 <= |p|
    ensures var q := Put(p, b + 2 * i + 4, p[b + 2 * i + 2..b + 2 * n]);
            && ReadBe16(q, b + 2 * i) == ReadBe16(p, b + 2 * i)
            && Put(q, b + 2 * i + 2, Be16(ReadBe16(p, b + 2 * i))) == Put(p, b + 2 * i + 2, p[b + 2 * i..b + 2 * n])
  {
    hide Put, Be16;
    var q := Put(p, b + 2 * i + 4, p[b + 2 * i + 2..b + 2 * n]);
    Be16OfRead(p, b + 2 * i);
    var l, r := Put(q, b + 2 * i + 2, p[b + 2 * i..b + 2 * i + 2]), Put(p, b + 2 * i + 2, p[b + 2 * i..b + 2 * n]);
    forall x | 0 <= x < |p| ensures l[x] == r[x] {
    }
  }

  /** The writes of an accepted insertion. */
  method WriteInserted(buf: array<Byte>, sh: Shape, index: nat, cell: seq<Byte>)
    requires PtrsFit(buf[..], sh) && ContentStart(buf[..], sh) <= buf.Length && Fits(buf[..], sh, cell)
    requires index <= NumCells(buf[..], sh) && |cell| >= 1
    modifies buf
    ensures buf[..] == InsertImage(old(buf[..]), sh, index, cell)
  {
    hide Put, ReadBe16, Be16;
    var n, b := NumCells(buf[..], sh), PtrBase(sh);
    var start := ContentStart(buf[..], sh) - |cell|;
    PutBytes(buf, start, cell);
    ghost var p1 := buf[..];
    var i := n;
    EmptyPut(p1, b + 2 * n + 2);
    assert p1[b + 2 * n..b + 2 * n] == [];
    while i > index
      invariant index <= i <= n
      invariant buf[..] == Put(p1, b + 2 * i + 2, p1[b + 2 * i..b + 2 * n])
    {
      i := i - 1;
      ShiftUp(p1, b, i, n);
      var v := ReadBe16(buf[..], b + 2 * i);
      PutBytes(buf, b + 2 * i + 2, Be16(v));
    }
    PutBytes(buf, b + 2 * index, Be16(start));
    PutBytes(buf, sh.hs + 5, Be16(start));
    PutBytes(buf, sh.hs + 3, Be16(n + 1));
  }

  /** `r` is `page` with `cell` added at `index`, laid out as `w`: well formed, the other cells in
      order, and every byte up to the page type unchanged. */
  ghost predicate WithCell(r: seq<Byte>, page: seq<Byte>, sh: Shape, index: nat, cell: seq<Byte>, w: seq<Tile>)
    requires PtrsFit(page, sh) && index <= NumCells(page, sh)
  {
    |r| == |page| && Sound(r, sh, w) && Cells(r, sh) == InsertAt(Cells(page, sh), index, cell) &&
      r[..sh.hs + 1] == page[..sh.hs + 1]
  }

  /** `splice_insert_cell`: declined, changing nothing, exactly when the gap is too small. */
  method SpliceInsert(buf: array<Byte>, sh: Shape, index: nat, cell: seq<Byte>, ghost tiles: seq<Tile>)
    returns (done: bool)
    requires Sound(buf[..], sh, tiles) && index <= NumCells(buf[..], sh) && ValidCell(cell, sh.usable, sh.hasRowid)
    modifies buf
    ensures done <==> Fits(old(buf[..]), sh, cell)
    ensures !done ==> buf[..] == old(buf[..])
    ensures done ==> WithCell(buf[..], old(buf[..]), sh, index, cell, [NewTile(old(buf[..]), sh, cell)] + tiles)
    ensures done && Conserved(old(buf[..]), sh, tiles) ==> Conserved(buf[..], sh,
            [NewTile(old(buf[..]), sh, cell)] + tiles)
  {
    hide Tiling, NoTouchingFree, CountOf, SumOf, FreeBlocks, ChainIs, PtrOk, PtrsDistinct, Cells, CellLen, ReadBe16;
    hide InsertImage, WithCell;
    ghost var page := buf[..];
    var contentStart := ContentStart(buf[..], sh);
    var ptrEnd := PtrBase(sh) + 2 * NumCells(buf[..], sh);
    if contentStart < ptrEnd || contentStart - ptrEnd < |cell| + 2 {
      return false;
    }
    WriteInserted(buf, sh, index, cell);
    done := true;
    InsertSound(page, sh, tiles, index, cell);
    assert WithCell(InsertImage(page, sh, index, cell), page, sh, index, cell, [NewTile(page, sh, cell)] + tiles) by {
      InsertedIsWith(page, sh, tiles, index, cell);
    }
  }

  lemma InsertedIsWith(page: seq<Byte>, sh: Shape, tiles: seq<Tile>, index: nat, cell: seq<Byte>)
    requires Sound(page, sh, tiles) && Fits(page, sh, cell) && index <= NumCells(page, sh) &&
             ValidCell(cell, sh.usable, sh.hasRowid)
    ensures WithCell(InsertImage(page, sh, index, cell), page, sh, index, cell, [NewTile(page, sh, cell)] + tiles)
  {
    hide Tiling, NoTouchingFree, CountOf, SumOf, FreeBlocks, ChainIs, PtrOk, PtrsDistinct, Cells, CellLen, ReadBe16;
    hide InsertImage;
    InsertSound(page, sh, tiles, index, cell);
  }

  lemma EmptyPut(p: seq<Byte>, off: nat)
    requires off <= |p|
    ensures Put(p, off, []) == p
  {
  }

  // ----- deletion -----

  /** `walk_freeblocks` reads back the whole chain, or gives up past the cap. */
  method WalkFreeblocks(page: seq<Byte>, sh: Shape, ghost blocks: seq<Block>) returns (r: Option<seq<Block>>)
    requires HasHeader(page, sh) && ChainIs(page, sh, blocks)
    ensures r == if |blocks| <= MAX_FREEBLOCKS then Some(blocks) else None
  {
    hide ReadBe16;
    var out: seq<Block> := [];
    var off: nat := FirstFreeblock(page, sh);
    var n := 0;
    while off != 0
      invariant n == |out| <= |blocks| && n <= MAX_FREEBLOCKS && out == blocks[..n] && off == NextBlock(blocks, n)
      decreases |blocks| - n
    {
      n := n + 1;
      if n > MAX_FREEBLOCKS { return None; }
      var next := ReadBe16(page, off);
      var size := ReadBe16(page, off + 2);
      out := out + [Block(off, size)];
      off := next;
    }
    ChainEnds(page, sh, blocks, n);
    assert blocks[..n] == blocks;
    return Some(out);
  }

  lemma ChainEnds(page: seq<Byte>, sh: Shape, blocks: seq<Block>, n: nat)
    requires HasHeader(page, sh) && ChainIs(page, sh, blocks) && n <= |blocks| && NextBlock(blocks, n) == 0
    ensures n == |blocks|
  {
  }

  method WriteFreeblockChain(buf: array<Byte>, sh: Shape, blocks: seq<Block>)
    requires BlocksFit(buf[..], sh, blocks)
    modifies buf
    ensures buf[..] == WriteChain(old(buf[..]), sh, blocks)
  {
    hide Put, Be16;
    ghost var page := buf[..];
    var i := 0;
    while i < |blocks|
      invariant 0 <= i <= |blocks|
      invariant buf[..] == WriteBlocks(page, sh, blocks, i)
    {
      PutBytes(buf, blocks[i].off, Be16(NextBlock(blocks, i + 1)));
      PutBytes(buf, blocks[i].off + 2, Be16(blocks[i].size));
      i := i + 1;
    }
    PutBytes(buf, sh.hs + 1, Be16(NextBlock(blocks, 0)));
  }

  /** Moving one more pointer down extends the moved range by one entry. */
  lemma ShiftDown(p: seq<Byte>, b: nat, index: nat, i: nat)
    requires index <= i && b + 2 * i + 4 <= |p|
    ensures var q := Put(p, b + 2 * index, p[b + 2 * index + 2..b + 2 * i + 2]);
            && ReadBe16(q, b + 2 * i + 2) == ReadBe16(p, b + 2 * i + 2)
            && Put(q, b + 2 * i, Be16(ReadBe16(p, b + 2 * i + 2))) ==
               Put(p, b + 2 * index, p[b + 2 * index + 2..b + 2 * i + 4])
  {
    hide Put, Be16;
    var q := Put(p, b + 2 * index, p[b + 2 * index + 2..b + 2 * i + 2]);
    Be16OfRead(p, b + 2 * i + 2);
    var l, r := Put(q, b + 2 * i, p[b + 2 * i + 2..b + 2 * i + 4]),
                Put(p, b + 2 * index, p[b + 2 * index + 2..b + 2 * i + 4]);
    forall x | 0 <= x < |p| ensures l[x] == r[x] {
    }
  }

  /** Drops pointer `index` and zeroes the cell's bytes. */
  method ClearCell(buf: array<Byte>, sh: Shape, index: nat, len: nat)
    requires PtrsFit(buf[..], sh) && index < NumCells(buf[..], sh) && Ptr(buf[..], sh, index) + len <= buf.Length
    modifies buf
    ensures buf[..] == Cleared(old(buf[..]), sh, index, len)
  {
    hide Put, Be16, ReadBe16;
    ghost var page := buf[..];
    var b, n := PtrBase(sh), NumCells(buf[..], sh);
    var start := Ptr(buf[..], sh, index);
    var i := index;
    EmptyPut(page, b + 2 * index);
    assert page[b + 2 * index + 2..b + 2 * index + 2] == [];
    while i < n - 1
      invariant index <= i <= n - 1
      invariant buf[..] == Put(page, b + 2 * index, page[b + 2 * index + 2..b + 2 * i + 2])
    {
      ShiftDown(page, b, index, i);
      var v := ReadBe16(buf[..], b + 2 * i + 2);
      PutBytes(buf, b + 2 * i, Be16(v));
      i := i + 1;
    }
    PutBytes(buf, sh.hs + 3, Be16(n - 1));
    PutBytes(buf, start, Zeros(len));
  }

  /** `splice_delete_cell` on a well-formed page, where `k` is the tile of the deleted cell. When the
      freeblock chain is too long to walk it fails with the cell already cleared. */
  method SpliceDelete(buf: array<Byte>, sh: Shape, index: nat, ghost tiles: seq<Tile>) returns (ok: bool, ghost k: nat)
    requires Sound(buf[..], sh, tiles)
    modifies buf
    ensures index >= NumCells(old(buf[..]), sh) ==> !ok && buf[..] == old(buf[..])
    ensures index < NumCells(old(buf[..]), sh) ==> CellTile(old(buf[..]), sh, tiles, Ptr(old(buf[..]), sh, index), k)
    ensures ok <==>
            index < NumCells(old(buf[..]), sh) && (BecomesFragment(tiles, k) || |FreeBlocks(tiles)| <= MAX_FREEBLOCKS)
    ensures !ok && index < NumCells(old(buf[..]), sh) ==> buf[..] == Cleared(old(buf[..]), sh, index, tiles[k].len)
    ensures ok ==> WithoutCell(buf[..], old(buf[..]), sh, index, WithoutTile(tiles, k))
    ensures ok && Conserved(old(buf[..]), sh, tiles) ==>
              (Conserved(buf[..], sh, WithoutTile(tiles, k)) <==>
               !(BecomesFragment(tiles, k) && FragBytes(old(buf[..]), sh) as int + tiles[k].len > 255))
  {
    hide Tiling, NoTouchingFree, CountOf, SumOf, FreeBlocks, ChainIs, PtrOk, PtrsDistinct, Cells, CellLen, Put;
    hide ReadBe16, Be16, WithoutTile, AddBlock, Absorb, WriteChain, BlocksFit, Cleared, WithoutCell, Conserved;
    hide TotalLen, OthersKept, PtrDropped;
    ghost var page := buf[..];
    k := 0;
    if index >= NumCells(buf[..], sh) {
      return false, k;
    }
    k := PtrTile(page, sh, tiles, index);
    TileInside(tiles, ContentStart(page, sh), |page|, k);
    var start := Ptr(buf[..], sh, index);
    var len := CellLen(buf[..][start..], sh.usable, sh.hasRowid).value;
    ClearedReads(page, sh, tiles, index, k);
    ClearedCells(page, sh, tiles, index, k);
    ClearCell(buf, sh, index, len);
    var contentStart := ContentStart(buf[..], sh);
    if start == contentStart {
      var walked := WalkFreeblocks(buf[..], sh, FreeBlocks(tiles));
      if walked.None? { return false, k; }
      DeleteFirst(page, sh, tiles, index);
      var newStart, left := AbsorbBlocks(start + len, walked.value);
      PutBytes(buf, sh.hs + 5, Be16(if newStart >= 0x1_0000 then 0 else newStart));
      WriteFreeblockChain(buf, sh, left);
    } else if len < MIN_FREEBLOCK_SIZE {
      DeleteAsFragment(page, sh, tiles, index, k);
      var frag := FragBytes(buf[..], sh);
      PutBytes(buf, sh.hs + 7, [Min(255, frag as int + len)]);
    } else {
      var walked := WalkFreeblocks(buf[..], sh, FreeBlocks(tiles));
      if walked.None? { return false, k; }
      DeleteAsFreeblock(page, sh, tiles, index, k);
      WriteFreeblockChain(buf, sh, AddBlock(walked.value, start, len));
    }
    ok := true;
  }

  ghost predicate BecomesFragment(tiles: seq<Tile>, k: nat) {
    0 < k < |tiles| && tiles[k].len < MIN_FREEBLOCK_SIZE
  }

  // ----- rebuilding -----

  /** `write_page_common` for a leaf: refuses before touching the page when the cells do not fit. */
  method Rebuild(buf: array<Byte>, sh: Shape, kind: Byte, cells: seq<seq<Byte>>) returns (ok: bool)
    requires PtrBase(sh) <= buf.Length <= 0x1_0000 && AllValid(cells, sh)
    modifies buf
    ensures ok <==> Needed(sh, cells) <= buf.Length
    ensures !ok ==> buf[..] == old(buf[..])
    ensures ok ==> Rebuilt(buf[..], old(buf[..]), sh, kind, cells)
  {
    hide Put, TotalLen, AllValid, RebuildImage, PutCells, PutPtrs, Blank, Rebuilt;
    ghost var page := buf[..];
    var needed := ComputeNeeded(sh, cells);
    if needed > buf.Length { return false; }
    ClearPage(buf, sh, kind);
    var offs := WriteCells(buf, sh, cells);
    WritePtrs(buf, sh, cells, offs);
    ghost var p2 := buf[..];
    assert p2 == PutPtrs(PutCells(Blank(page, sh, kind), sh, cells, 0), sh, cells, |cells|);
    var contentEnd := if cells == [] then buf.Length else offs[0];
    assert contentEnd == |page| - TotalLen(cells) by { assert cells[0..] == cells; EmptyTotal(); }
    PutBytes(buf, sh.hs + 3, Be16(|cells|));
    PutBytes(buf, sh.hs + 5, Be16(Stored(contentEnd)));
    PutBytes(buf, sh.hs + 7, [0]);
    RebuildIs(page, sh, kind, cells, p2);
    ok := true;
  }

  lemma EmptyTotal()
    ensures TotalLen([]) == 0
  {
  }

  /** Well formed, exactly these cells, no free space inside, and the bytes before the header kept. */
  ghost predicate Rebuilt(r: seq<Byte>, page: seq<Byte>, sh: Shape, kind: Byte, cells: seq<seq<Byte>>) {
    && |r| == |page| && sh.hs < |page| && TotalLen(cells) <= |page|
    && var t := LaidTiles(cells, |page| - TotalLen(cells));
    && Sound(r, sh, t) && Conserved(r, sh, t) && Cells(r, sh) == cells && r[..sh.hs] == page[..sh.hs] &&
       r[sh.hs] == kind
  }

  lemma RebuildIs(page: seq<Byte>, sh: Shape, kind: Byte, cells: seq<seq<Byte>>, p2: seq<Byte>)
    requires Room(page, sh, cells) && AllValid(cells, sh)
    requires p2 == PutPtrs(PutCells(Blank(page, sh, kind), sh, cells, 0), sh, cells, |cells|)
    ensures Rebuilt(Put(Put(Put(p2, sh.hs + 3, Be16(|cells|)), sh.hs + 5, Be16(Stored(|page| - TotalLen(cells)))),
            sh.hs + 7, [0]), page, sh, kind, cells)
  {
    hide Put, TotalLen, AllValid, PutCells, PutPtrs, Blank, Sound, Conserved, Cells, LaidTiles;
    RebuildSound(page, sh, kind, cells);
  }

  method ComputeNeeded(sh: Shape, cells: seq<seq<Byte>>) returns (n: nat)
    ensures n == Needed(sh, cells)
  {
    hide TotalLen;
    n := PtrBase(sh);
    assert cells[0..] == cells;
    EmptyTotal();
    var i := 0;
    while i < |cells|
      invariant 0 <= i <= |cells|
      invariant n + 2 * (|cells| - i) + TotalLen(cells[i..]) == Needed(sh, cells)
    {
      TailLen(cells, i);
      n := n + |cells[i]| + 2;
      i := i + 1;
    }
    assert cells[|cells|..] == [];
  }

  method ClearPage(buf: array<Byte>, sh: Shape, kind: Byte)
    requires PtrBase(sh) <= buf.Length <= 0x1_0000
    modifies buf
    ensures buf[..] == Blank(old(buf[..]), sh, kind)
  {
    var i := sh.hs;
    while i < buf.Length
      invariant sh.hs <= i <= buf.Length
      invariant forall x :: 0 <= x < buf.Length ==> buf[x] == if sh.hs <= x < i then 0 else old(buf[x])
    {
      buf[i] := 0;
      i := i + 1;
    }
    buf[sh.hs] := kind;
    assert buf[..] == Blank(old(buf[..]), sh, kind);
  }

  /** Writes the cells from the last to the first, and returns where each went. */
  method WriteCells(buf: array<Byte>, sh: Shape, cells: seq<seq<Byte>>) returns (offs: seq<nat>)
    requires Room(buf[..], sh, cells)
    modifies buf
    ensures buf[..] == PutCells(old(buf[..]), sh, cells, 0)
    ensures |offs| == |cells|
    ensures forall j :: 0 <= j < |cells| ==>
            TotalLen(cells[j..]) <= buf.Length && offs[j] == CellOff(cells, j, buf.Length)
  {
    hide Put, TotalLen;
    ghost var page := buf[..];
    var contentEnd := buf.Length;
    offs := [];
    var i := |cells|;
    assert cells[|cells|..] == [];
    EmptyTotal();
    while i > 0
      invariant 0 <= i <= |cells| && |offs| == |cells| - i
      invariant TotalLen(cells[i..]) <= buf.Length && contentEnd == CellOff(cells, i, buf.Length)
      invariant buf[..] == PutCells(page, sh, cells, i)
      invariant forall j :: i <= j < |cells| ==>
              TotalLen(cells[j..]) <= buf.Length && offs[j - i] == CellOff(cells, j, buf.Length)
    {
      i := i - 1;
      TailLen(cells, i);
      contentEnd := contentEnd - |cells[i]|;
      PutBytes(buf, contentEnd, cells[i]);
      offs := [contentEnd] + offs;
    }
  }

  method WritePtrs(buf: array<Byte>, sh: Shape, cells: seq<seq<Byte>>, offs: seq<nat>)
    requires Room(buf[..], sh, cells) && |offs| == |cells|
    requires forall j :: 0 <= j < |cells| ==>
            TotalLen(cells[j..]) <= buf.Length && offs[j] == CellOff(cells, j, buf.Length)
    modifies buf
    ensures buf[..] == PutPtrs(old(buf[..]), sh, cells, |cells|)
  {
    hide Put, TotalLen, Be16;
    ghost var page := buf[..];
    var i := 0;
    while i < |offs|
      invariant 0 <= i <= |offs|
      invariant buf[..] == PutPtrs(page, sh, cells, i)
    {
      PutBytes(buf, PtrBase(sh) + 2 * i, Be16(Stored(offs[i])));
      i := i + 1;
    }
  }

  // ----- runs of edits -----

  datatype Edit = Rewrite(cells: seq<seq<Byte>>) | Insert(index: nat, cell: seq<Byte>) | Delete(index: nat)

  ghost predicate EditValid(e: Edit, sh: Shape) {
    match e
    case Rewrite(cells) => AllValid(cells, sh)
    case Insert(_, cell) => ValidCell(cell, sh.usable, sh.hasRowid)
    case Delete(_) => true
  }

  /** What an accepted edit does to a plain sequence of cells. */
  function Edited(cells: seq<seq<Byte>>, e: Edit): (r: seq<seq<Byte>>) {
    match e
    case Rewrite(c) => c
    case Insert(index, cell) => if index <= |cells| then InsertAt(cells, index, cell) else cells
    case Delete(index) => if index < |cells| then RemoveAt(cells, index) else cells
  }

  /** What a run of edits, each accepted or not, does to it. */
  function EditedAll(cells: seq<seq<Byte>>, edits: seq<Edit>, accepted: seq<bool>): (r: seq<seq<Byte>>)
    requires |edits| == |accepted|
  {
    if edits == [] then cells
    else
      var last := |edits| - 1;
      var before := EditedAll(cells, edits[..last], accepted[..last]);
      if accepted[last] then Edited(before, edits[last]) else before
  }

  /** The deletion turns its cell into fragment bytes that the one-byte counter cannot take in. */
  predicate Overflows(page: seq<Byte>, sh: Shape, e: Edit)
    requires PtrsFit(page, sh)
  {
    && e.Delete? && e.index < NumCells(page, sh)
    && Ptr(page, sh, e.index) != ContentStart(page, sh)
    && var len := |CellAt(page, sh, Ptr(page, sh, e.index))|;
       len < MIN_FREEBLOCK_SIZE && FragBytes(page, sh) as int + len > 255
  }

  /** The deletion needs the freeblock chain, and the chain is too long to walk. */
  ghost predicate Stuck(page: seq<Byte>, sh: Shape, tiles: seq<Tile>, e: Edit)
    requires PtrsFit(page, sh)
  {
    && |FreeBlocks(tiles)| > MAX_FREEBLOCKS
    && e.Delete? && e.index < NumCells(page, sh) && NeedsChain(page, sh, e.index)
  }

  /** The cell is the first of the content area, or long enough to become a freeblock. */
  predicate NeedsChain(page: seq<Byte>, sh: Shape, index: nat)
    requires PtrsFit(page, sh) && index < NumCells(page, sh)
  {
    Ptr(page, sh, index) == ContentStart(page, sh) || |CellAt(page, sh, Ptr(page, sh, index))| >= MIN_FREEBLOCK_SIZE
  }

  lemma NeedsChainIs(page: seq<Byte>, sh: Shape, tiles: seq<Tile>, index: nat, k: nat)
    requires Sound(page, sh, tiles) && index < NumCells(page, sh) && CellTile(page, sh, tiles, Ptr(page, sh, index), k)
    ensures NeedsChain(page, sh, index) <==> !BecomesFragment(tiles, k)
  {
    hide Tiling, ChainIs, PtrOk, Cells, CellLen, ReadBe16;
    TileInside(tiles, ContentStart(page, sh), |page|, k);
  }

  method IsStuck(page: seq<Byte>, sh: Shape, e: Edit, ghost tiles: seq<Tile>) returns (stuck: bool)
    requires Sound(page, sh, tiles)
    ensures stuck == Stuck(page, sh, tiles, e)
  {
    if !e.Delete? || e.index >= NumCells(page, sh) || !NeedsChain(page, sh, e.index) { return false; }
    var walked := WalkFreeblocks(page, sh, FreeBlocks(tiles));
    stuck := walked.None?;
  }

  /** Page sizes on which a freeblock chain can never be too long to walk. */
  const ALWAYS_WALKABLE := 0x8000

  /** No deletion is stuck while the fragment counter is true, or on a page of at most 32768 bytes, or
      where every cell is at least three bytes long. */
  lemma ChainWalkable(page: seq<Byte>, sh: Shape, tiles: seq<Tile>)
    requires Sound(page, sh, tiles) && (Conserved(page, sh, tiles) || |page| <= ALWAYS_WALKABLE || LongTiles(tiles))
    ensures |FreeBlocks(tiles)| <= MAX_FREEBLOCKS
  {
    hide ChainIs, PtrOk, Cells, ReadBe16, FreeBlocks, Tiling, SumOf, CountOf, LongTiles, NoTouchingFree;
    if Conserved(page, sh, tiles) {
      ContentConserved(page, sh, tiles);
    } else if LongTiles(tiles) {
      LongTilesBounded(tiles, ContentStart(page, sh), |page|);
    } else {
      TilingTotal(tiles, ContentStart(page, sh), |page|);
      TotalSplits(tiles);
    }
  }

  ghost predicate LongEdit(e: Edit) {
    match e
    case Rewrite(cells) => forall i :: 0 <= i < |cells| ==> |cells[i]| >= 3
    case Insert(_, cell) => |cell| >= 3
    case Delete(_) => true
  }

  lemma OverflowsIs(page: seq<Byte>, sh: Shape, tiles: seq<Tile>, index: nat, k: nat)
    requires Sound(page, sh, tiles) && index < NumCells(page, sh) && CellTile(page, sh, tiles, Ptr(page, sh, index), k)
    ensures Overflows(page, sh, Delete(index)) <==>
            BecomesFragment(tiles, k) && FragBytes(page, sh) as int + tiles[k].len > 255
  {
    hide Tiling, ChainIs, PtrOk, Cells, CellLen, ReadBe16;
    TileInside(tiles, ContentStart(page, sh), |page|, k);
  }

  /** The page type of a table or an index leaf. */
  function LeafKind(sh: Shape): Byte { if sh.hasRowid then 0x0d else 0x0a }

  /** One edit. A refused edit leaves the page as it was, an accepted one performs exactly its edit on
      the cells; the content area stays accounted for unless the fragment counter overflows. */
  method ApplyEdit(buf: array<Byte>, sh: Shape, e: Edit, ghost tiles: seq<Tile>)
    returns (accepted: bool, ghost left: seq<Tile>)
    requires Sound(buf[..], sh, tiles) && EditValid(e, sh)
    requires !Stuck(buf[..], sh, tiles, e)
    modifies buf
    ensures Sound(buf[..], sh, left)
    ensures !accepted ==> buf[..] == old(buf[..]) && left == tiles
    ensures accepted ==> Cells(buf[..], sh) == Edited(Cells(old(buf[..]), sh), e)
    ensures buf[..][..sh.hs] == old(buf[..])[..sh.hs]
    ensures Conserved(old(buf[..]), sh, tiles) ==> (Conserved(buf[..], sh, left) <==> !Overflows(old(buf[..]), sh, e))
    ensures accepted <==> Accepts(old(buf[..]), sh, e)
    ensures LongTiles(tiles) && LongEdit(e) ==> LongTiles(left)
  {
    hide Tiling, NoTouchingFree, CountOf, SumOf, FreeBlocks, ChainIs, PtrOk, PtrsDistinct, CellLen, ReadBe16;
    hide WithoutTile;
    hide TotalLen, Overflows, Sound, Conserved, Cells, NeedsChain, LongTiles, LaidTiles;
    ghost var page := buf[..];
    left := tiles;
    SoundFits(page, sh, tiles);
    assert !e.Delete? ==> !Overflows(page, sh, e) by { NoOverflow(page, sh, e); }
    match e
    case Rewrite(cells) =>
      accepted := Rebuild(buf, sh, LeafKind(sh), cells);
      if accepted {
        left := LaidTiles(cells, buf.Length - TotalLen(cells));
        LaidLong(cells, buf.Length - TotalLen(cells));
      }
    case Insert(index, cell) =>
      accepted := false;
      if index <= NumCells(buf[..], sh) {
        accepted := SpliceInsert(buf, sh, index, cell, tiles);
        if accepted {
          left := [NewTile(page, sh, cell)] + tiles;
          PrefixOfPrefix(buf[..], page, sh);
          ConsLong(NewTile(page, sh, cell), tiles);
        }
      }
    case Delete(index) =>
      ghost var k;
      accepted, k := SpliceDelete(buf, sh, index, tiles);
      if index < NumCells(page, sh) { NeedsChainIs(page, sh, tiles, index, k); }
      if accepted {
        left := WithoutTile(tiles, k);
        PrefixOfPrefix(buf[..], page, sh);
        if LongTiles(tiles) { WithoutTileLong(tiles, k); }
        OverflowsIs(page, sh, tiles, index, k);
      } else {
        NoOverflow(page, sh, e);
      }
  }

  /** When an edit is accepted, read off the page. */
  predicate Accepts(page: seq<Byte>, sh: Shape, e: Edit)
    requires PtrsFit(page, sh)
  {
    match e
    case Rewrite(cells) => Needed(sh, cells) <= |page|
    case Insert(index, cell) => index <= NumCells(page, sh) && Fits(page, sh, cell)
    case Delete(index) => index < NumCells(page, sh)
  }

  lemma LaidLong(cells: seq<seq<Byte>>, from: nat)
    ensures LongEdit(Rewrite(cells)) ==> LongTiles(LaidTiles(cells, from))
  {
    forall i | 0 <= i < |cells| ensures LaidTiles(cells, from)[i].len == |cells[i]| { LaidTileAt(cells, from, i); }
  }

  lemma ConsLong(t: Tile, tiles: seq<Tile>)
    ensures t.len >= 3 && LongTiles(tiles) ==> LongTiles([t] + tiles)
  {
    forall k | 0 < k < |[t] + tiles| ensures ([t] + tiles)[k] == tiles[k - 1] {
    }
  }

  lemma NoOverflow(page: seq<Byte>, sh: Shape, e: Edit)
    requires PtrsFit(page, sh)
    ensures !(e.Delete? && e.index < NumCells(page, sh)) ==> !Overflows(page, sh, e)
  {
  }

  lemma PrefixOfPrefix(r: seq<Byte>, page: seq<Byte>, sh: Shape)
    requires sh.hs < |r| == |page| && r[..sh.hs + 1] == page[..sh.hs + 1]
    ensures r[..sh.hs] == page[..sh.hs]
  {
    assert r[..sh.hs] == r[..sh.hs + 1][..sh.hs] && page[..sh.hs] == page[..sh.hs + 1][..sh.hs];
  }

  /** Leaf page editing refines editing a sequence of cells: after any run of edits the page is well
      formed and its cells are those the accepted edits make. The run stops only before a deletion that
      is stuck, which no run does while the fragment counter is true, on pages of at most 32768 bytes,
      or with cells of at least three bytes. With `exact`, it stops before a deletion that would overflow
      the fragment counter, and until then every byte of the content area is accounted for. */
  method RunEdits(buf: array<Byte>, sh: Shape, edits: seq<Edit>, exact: bool, ghost tiles: seq<Tile>)
    returns (accepted: seq<bool>, ghost left: seq<Tile>)
    requires Sound(buf[..], sh, tiles)
    requires exact ==> Conserved(buf[..], sh, tiles)
    requires forall i :: 0 <= i < |edits| ==> EditValid(edits[i], sh)
    modifies buf
    ensures |accepted| <= |edits| && Sound(buf[..], sh, left)
    ensures Cells(buf[..], sh) == EditedAll(Cells(old(buf[..]), sh), edits[..|accepted|], accepted)
    ensures buf[..][..sh.hs] == old(buf[..])[..sh.hs]
    ensures exact ==> Conserved(buf[..], sh, left)
    ensures |accepted| < |edits| ==>
              (exact && Overflows(buf[..], sh, edits[|accepted|])) || Stuck(buf[..], sh, left, edits[|accepted|])
    ensures exact || buf.Length <= ALWAYS_WALKABLE || (LongTiles(tiles) && forall i :: 0 <= i < |edits| ==>
            LongEdit(edits[i])) ==>
              |accepted| < |edits| ==> exact && Overflows(buf[..], sh, edits[|accepted|])
  {
    hide Sound, Conserved, Cells, Edited, EditValid, Overflows, FreeBlocks, LongTiles, LongEdit, NeedsChain;
    accepted, left := [], tiles;
    var i := 0;
    SoundFits(buf[..], sh, tiles);
    while i < |edits|
      invariant 0 <= i == |accepted| <= |edits| && PtrsFit(old(buf[..]), sh) && PtrsFit(buf[..], sh)
      invariant Sound(buf[..], sh, left) && (exact ==> Conserved(buf[..], sh, left))
      invariant Cells(buf[..], sh) == EditedAll(Cells(old(buf[..]), sh), edits[..i], accepted)
      invariant buf[..][..sh.hs] == old(buf[..])[..sh.hs]
      invariant LongTiles(tiles) && (forall i :: 0 <= i < |edits| ==> LongEdit(edits[i])) ==> LongTiles(left)
    {
      if exact && Overflows(buf[..], sh, edits[i]) { return; }
      if exact || buf.Length <= ALWAYS_WALKABLE || LongTiles(left) { ChainWalkable(buf[..], sh, left); }
      var stuck := IsStuck(buf[..], sh, edits[i], left);
      if stuck { return; }
      ghost var was := accepted;
      var a;
      a, left := ApplyEdit(buf, sh, edits[i], left);
      accepted := accepted + [a];
      assert edits[..i + 1][..i] == edits[..i] && accepted[..i] == was;
      i := i + 1;
      SoundFits(buf[..], sh, left);
    }
    assert edits[..i] == edits;
  }

  lemma SoundFits(page: seq<Byte>, sh: Shape, tiles: seq<Tile>)
    requires Sound(page, sh, tiles)
    ensures PtrsFit(page, sh)
  {
  }
}
