/** Splice insertion and deletion on a well-formed leaf page change one cell and nothing else. */
module LeafEdits {
  import opened Bytes
  import opened Overflow
  import opened LeafLayout
  import opened LeafPage
  import opened Freeblocks

  // ----- insertion -----

  function NewTile(page: seq<Byte>, sh: Shape, cell: seq<Byte>): Tile
    requires HasHeader(page, sh) && |cell| <= ContentStart(page, sh)
  {
    Tile(ContentStart(page, sh) - |cell|, |cell|, Cell)
  }

  lemma NewTiling(page: seq<Byte>, sh: Shape, tiles: seq<Tile>, cell: seq<Byte>)
    requires Sound(page, sh, tiles) && 1 <= |cell| <= ContentStart(page, sh)
    ensures var r := [NewTile(page, sh, cell)] + tiles;
            && Tiling(r, ContentStart(page, sh) - |cell|, |page|) && NoTouchingFree(r)
            && CountOf(r, Cell) == CountOf(tiles, Cell) + 1 && SumOf(r, Cell) == SumOf(tiles, Cell) + |cell|
            && SumOf(r, Frag) == SumOf(tiles, Frag) && FreeBlocks(r) == FreeBlocks(tiles)
  {
    hide Cells, ChainIs, PtrOk, PtrsDistinct, Tiling, NoTouchingFree, SumOf, CountOf, FreeBlocks, Total, TotalLen;
    hide ReadBe16;
    var t := NewTile(page, sh, cell);
    OneTile(t, Cell);
    OneTile(t, Frag);
    TilingConcat([t], tiles, t.off, |page|);
    Touching([t], tiles);
    SumsConcat([t], tiles, Cell);
    SumsConcat([t], tiles, Frag);
  }

  lemma ReadsFrom(r: seq<Byte>, page: seq<Byte>, from: nat, x: nat)
    requires |r| == |page| && from <= x && x + 2 <= |page| && r[from..] == page[from..]
    ensures ReadBe16(r, x) == ReadBe16(page, x)
  {
    assert r[x] == r[from..][x - from] && r[x + 1] == r[from..][x + 1 - from];
  }

  lemma ChainKept(r: seq<Byte>, page: seq<Byte>, sh: Shape, from: nat, to: nat, tiles: seq<Tile>)
    requires HasHeader(page, sh) && HasHeader(r, sh) && |r| == |page| && from <= |page| && r[from..] == page[from..]
    requires FirstFreeblock(r, sh) == FirstFreeblock(page, sh)
    requires Tiling(tiles, from, to) && to == |page| && ChainIs(page, sh, FreeBlocks(tiles))
    ensures ChainIs(r, sh, FreeBlocks(tiles))
  {
    var blocks := FreeBlocks(tiles);
    forall i | 0 <= i < |blocks|
      ensures ReadBe16(r, blocks[i].off) == ReadBe16(page, blocks[i].off)
      ensures ReadBe16(r, blocks[i].off + 2) == ReadBe16(page, blocks[i].off + 2)
    {
      BlockInside(tiles, from, to, i);
      ReadsFrom(r, page, from, blocks[i].off);
      ReadsFrom(r, page, from, blocks[i].off + 2);
    }
  }

  /** The cell behind a pointer, and where its tile is. */
  lemma PtrTile(page: seq<Byte>, sh: Shape, tiles: seq<Tile>, i: nat) returns (k: nat)
    requires Sound(page, sh, tiles) && i < NumCells(page, sh)
    ensures CellTile(page, sh, tiles, Ptr(page, sh, i), k)
    ensures ContentStart(page, sh) <= Ptr(page, sh, i)
    ensures CellAt(page, sh, Ptr(page, sh, i)) == page[Ptr(page, sh, i)..Ptr(page, sh, i) + tiles[k].len]
  {
    hide ChainIs, Cells, CellLen;
    assert PtrOk(page, sh, tiles, i);
    k :| CellTile(page, sh, tiles, Ptr(page, sh, i), k);
    TileInside(tiles, ContentStart(page, sh), |page|, k);
  }

  /** A cell in the untouched part of the page is still there after an insertion. */
  lemma OldCellAfterInsert(page: seq<Byte>, sh: Shape, tiles: seq<Tile>, index: nat, cell: seq<Byte>, i: nat)
    requires Sound(page, sh, tiles) && Fits(page, sh, cell) && index <= NumCells(page, sh) && |cell| >= 1 &&
             i < NumCells(page, sh)
    ensures var r, p := InsertImage(page, sh, index, cell), Ptr(page, sh, i);
            && CellAt(r, sh, p) == CellAt(page, sh, p)
            && exists k: nat :: CellTile(r, sh, [NewTile(page, sh, cell)] + tiles, p, k)
  {
    hide InsertImage, CellLen, ChainIs, Cells, PtrsDistinct;
    var r, p, cs := InsertImage(page, sh, index, cell), Ptr(page, sh, i), ContentStart(page, sh);
    InsertReads(page, sh, index, cell);
    var k := PtrTile(page, sh, tiles, i);
    assert r[p..] == r[cs..][p - cs..] == page[p..];
    assert r[p..p + tiles[k].len] == r[p..][..tiles[k].len];
    assert page[p..p + tiles[k].len] == page[p..][..tiles[k].len];
    assert CellTile(r, sh, [NewTile(page, sh, cell)] + tiles, p, k + 1);
  }

  lemma NewCellAfterInsert(page: seq<Byte>, sh: Shape, tiles: seq<Tile>, index: nat, cell: seq<Byte>)
    requires Sound(page, sh, tiles) && Fits(page, sh, cell) && index <= NumCells(page, sh) &&
             ValidCell(cell, sh.usable, sh.hasRowid)
    ensures var r, p := InsertImage(page, sh, index, cell), ContentStart(page, sh) - |cell|;
            && CellAt(r, sh, p) == cell
            && CellTile(r, sh, [NewTile(page, sh, cell)] + tiles, p, 0)
  {
    hide InsertImage, CellLen, ChainIs, Cells, PtrsDistinct;
    var r, cs := InsertImage(page, sh, index, cell), ContentStart(page, sh);
    var p := cs - |cell|;
    InsertReads(page, sh, index, cell);
    assert r[p..][..|cell|] == r[p..cs] == cell && cell[..|cell|] == cell;
    CellLenLocal(cell, r[p..], sh.usable, sh.hasRowid);
  }

  function InsertAt<T>(s: seq<T>, index: nat, x: T): (r: seq<T>)
    requires index <= |s|
  {
    s[..index] + [x] + s[index..]
  }

  function RemoveAt<T>(s: seq<T>, index: nat): (r: seq<T>)
    requires index < |s|
  {
    s[..index] + s[index + 1..]
  }

  /** The cell of pointer `i` after an insertion. */
  lemma InsertedCell(page: seq<Byte>, sh: Shape, tiles: seq<Tile>, index: nat, cell: seq<Byte>, i: nat)
    requires Sound(page, sh, tiles) && Fits(page, sh, cell) && index <= NumCells(page, sh)
    requires ValidCell(cell, sh.usable, sh.hasRowid) && i <= NumCells(page, sh)
    ensures var r := InsertImage(page, sh, index, cell);
            && PtrsFit(r, sh) && NumCells(r, sh) == NumCells(page, sh) + 1
            && CellAt(r, sh, Ptr(r, sh, i)) == InsertAt(Cells(page, sh), index, cell)[i]
            && PtrOk(r, sh, [NewTile(page, sh, cell)] + tiles, i)
            && (i == index <==> Ptr(r, sh, i) < ContentStart(page, sh))
  {
    hide InsertImage, CellLen, ChainIs, PtrsDistinct, CellAt, Tiling;
    var r := InsertImage(page, sh, index, cell);
    InsertPtr(page, sh, index, cell, i);
    if i == index {
      NewCellAfterInsert(page, sh, tiles, index, cell);
    } else {
      var j := if i < index then i else i - 1;
      var k := PtrTile(page, sh, tiles, j);
      OldCellAfterInsert(page, sh, tiles, index, cell, j);
      assert InsertAt(Cells(page, sh), index, cell)[i] == Cells(page, sh)[j];
    }
  }

  /** The cells after an insertion, in key order. */
  lemma InsertedCells(page: seq<Byte>, sh: Shape, tiles: seq<Tile>, index: nat, cell: seq<Byte>)
    requires Sound(page, sh, tiles) && Fits(page, sh, cell) && index <= NumCells(page, sh) &&
             ValidCell(cell, sh.usable, sh.hasRowid)
    ensures PtrsFit(InsertImage(page, sh, index, cell), sh)
    ensures Cells(InsertImage(page, sh, index, cell), sh) == InsertAt(Cells(page, sh), index, cell)
    ensures TotalLen(Cells(InsertImage(page, sh, index, cell), sh)) == TotalLen(Cells(page, sh)) + |cell|
  {
    hide InsertImage, CellLen, CellAt, Tiling, NoTouchingFree, SumOf, CountOf, FreeBlocks, TotalLen, PtrOk, ChainIs;
    var r, was := InsertImage(page, sh, index, cell), Cells(page, sh);
    InsertReads(page, sh, index, cell);
    forall i | 0 <= i < |was| + 1 ensures CellAt(r, sh, Ptr(r, sh, i)) == InsertAt(was, index, cell)[i] {
      InsertedCell(page, sh, tiles, index, cell, i);
    }
    assert Cells(r, sh) == InsertAt(was, index, cell);
    TotalLenAround(was[..index], cell, was[index..]);
    TotalLenConcat(was[..index], was[index..]);
    assert was == was[..index] + was[index..];
  }

  /** Inserting a cell yields a well-formed page with that cell added at `index` and everything else,
      the bytes before the header included, unchanged. */
  lemma InsertSound(page: seq<Byte>, sh: Shape, tiles: seq<Tile>, index: nat, cell: seq<Byte>)
    requires Sound(page, sh, tiles) && Fits(page, sh, cell) && index <= NumCells(page, sh) &&
             ValidCell(cell, sh.usable, sh.hasRowid)
    ensures var r := InsertImage(page, sh, index, cell); var t := [NewTile(page, sh, cell)] + tiles;
            && Sound(r, sh, t) && (Conserved(page, sh, tiles) ==> Conserved(r, sh, t))
            && Cells(r, sh) == InsertAt(Cells(page, sh), index, cell)
            && r[..sh.hs + 1] == page[..sh.hs + 1]
  {
    hide InsertImage, CellLen, CellAt, Tiling, NoTouchingFree, SumOf, CountOf, FreeBlocks, TotalLen, PtrOk, ChainIs;
    hide Cells, PtrsDistinct;
    var r, t := InsertImage(page, sh, index, cell), [NewTile(page, sh, cell)] + tiles;
    InsertReads(page, sh, index, cell);
    NewTiling(page, sh, tiles, cell);
    ChainKept(r, page, sh, ContentStart(page, sh), |page|, tiles);
    InsertedCells(page, sh, tiles, index, cell);
    forall i | 0 <= i < NumCells(r, sh) ensures PtrOk(r, sh, t, i) { InsertedCell(page, sh, tiles, index, cell, i); }
    InsertDistinct(page, sh, tiles, index, cell);
  }

  lemma InsertDistinct(page: seq<Byte>, sh: Shape, tiles: seq<Tile>, index: nat, cell: seq<Byte>)
    requires Sound(page, sh, tiles) && Fits(page, sh, cell) && index <= NumCells(page, sh) &&
             ValidCell(cell, sh.usable, sh.hasRowid)
    ensures PtrsFit(InsertImage(page, sh, index, cell), sh) && PtrsDistinct(InsertImage(page, sh, index, cell), sh)
  {
    hide InsertImage, CellLen, CellAt, Tiling, NoTouchingFree, SumOf, CountOf, FreeBlocks, TotalLen, PtrOk, ChainIs;
    hide Cells;
    var r := InsertImage(page, sh, index, cell);
    InsertReads(page, sh, index, cell);
    forall i, j | 0 <= i < j < NumCells(r, sh) ensures Ptr(r, sh, i) != Ptr(r, sh, j) {
      InsertedCell(page, sh, tiles, index, cell, i);
      InsertedCell(page, sh, tiles, index, cell, j);
      InsertPtr(page, sh, index, cell, i);
      InsertPtr(page, sh, index, cell, j);
    }
  }

  // ----- deletion: the layout -----

  /** `r` reads as `page` with pointer `index` dropped. */
  ghost predicate PtrDropped(r: seq<Byte>, page: seq<Byte>, sh: Shape, index: nat)
    requires PtrsFit(page, sh) && index < NumCells(page, sh)
  {
    && PtrsFit(r, sh) && |r| == |page| && NumCells(r, sh) == NumCells(page, sh) - 1
    && forall i :: 0 <= i < NumCells(r, sh) ==> Ptr(r, sh, i) == Ptr(page, sh, if i < index then i else i + 1)
  }

  /** The bytes of every cell but tile `k` are the same in both pages. */
  ghost predicate OthersKept(r: seq<Byte>, page: seq<Byte>, tiles: seq<Tile>, k: nat) {
    forall j ::
      0 <= j < |tiles| && j != k && tiles[j].kind == Cell && tiles[j].off + tiles[j].len <= |page| && |r| == |page| ==>
      r[tiles[j].off..tiles[j].off + tiles[j].len] == page[tiles[j].off..tiles[j].off + tiles[j].len]
  }

  /** Another cell, through its pointer, after the deletion of tile `k`. */
  lemma OldCellAfterDelete(r: seq<Byte>, page: seq<Byte>, sh: Shape, tiles: seq<Tile>, k: nat, index: nat, i: nat)
    requires Sound(page, sh, tiles) && index < NumCells(page, sh) && i < NumCells(page, sh) && i != index &&
             |r| == |page|
    requires CellTile(page, sh, tiles, Ptr(page, sh, index), k) && OthersKept(r, page, tiles, k)
    ensures CellAt(r, sh, Ptr(page, sh, i)) == CellAt(page, sh, Ptr(page, sh, i))
    ensures exists m: nat :: CellTile(r, sh, WithoutTile(tiles, k), Ptr(page, sh, i), m)
  {
    hide CellLen, ChainIs, Cells, WithoutTile, Tiling, NoTouchingFree, FreeBlocks, SumOf, CountOf, TotalLen, PtrOk;
    var p := Ptr(page, sh, i);
    var j := PtrTile(page, sh, tiles, i);
    assert Ptr(page, sh, index) != p;
    var len := tiles[j].len;
    assert r[p..][..len] == r[p..p + len] == page[p..p + len] == page[p..][..len];
    CellLenLocal(page[p..], r[p..], sh.usable, sh.hasRowid);
    var m := OtherCellsStay(tiles, k, j, ContentStart(page, sh), |page|);
    assert CellTile(r, sh, WithoutTile(tiles, k), p, m);
  }

  lemma CellsAfterDelete(r: seq<Byte>, page: seq<Byte>, sh: Shape, tiles: seq<Tile>, k: nat, index: nat)
    requires Sound(page, sh, tiles) && index < NumCells(page, sh) && PtrDropped(r, page, sh, index)
    requires CellTile(page, sh, tiles, Ptr(page, sh, index), k) && OthersKept(r, page, tiles, k)
    ensures Cells(r, sh) == RemoveAt(Cells(page, sh), index)
    ensures TotalLen(Cells(r, sh)) + tiles[k].len == TotalLen(Cells(page, sh))
  {
    hide CellLen, ChainIs, WithoutTile, Tiling, CellAt, OthersKept, TotalLen;
    var was := Cells(page, sh);
    forall i | 0 <= i < NumCells(r, sh) ensures Cells(r, sh)[i] == RemoveAt(was, index)[i] {
      OldCellAfterDelete(r, page, sh, tiles, k, index, if i < index then i else i + 1);
    }
    assert Cells(r, sh) == RemoveAt(was, index);
    TotalLenAround(was[..index], was[index], was[index + 1..]);
    TotalLenConcat(was[..index], was[index + 1..]);
    assert was == was[..index] + [was[index]] + was[index + 1..];
    var m := PtrTile(page, sh, tiles, index);
    SameStart(tiles, ContentStart(page, sh), |page|, k, m);
  }

  /** A page that reads as `page` without one cell, with the layout's remaining freeblocks as its
      chain, is well formed and holds the other cells. */
  lemma DeleteLayout(r: seq<Byte>, page: seq<Byte>, sh: Shape, tiles: seq<Tile>, k: nat, index: nat)
    requires Sound(page, sh, tiles) && index < NumCells(page, sh) && PtrDropped(r, page, sh, index)
    requires CellTile(page, sh, tiles, Ptr(page, sh, index), k) && OthersKept(r, page, tiles, k)
    requires ContentStart(r, sh) == StartWithout(tiles, k, ContentStart(page, sh))
    requires ChainIs(r, sh, FreeBlocks(WithoutTile(tiles, k)))
    ensures Sound(r, sh, WithoutTile(tiles, k)) && Cells(r, sh) == RemoveAt(Cells(page, sh), index)
  {
    hide CellLen, ChainIs, WithoutTile, Tiling, NoTouchingFree, CellAt, OthersKept, TotalLen, Cells, PtrsDistinct;
    hide SumOf, CountOf, FreeBlocks;
    WithoutTileTiling(tiles, k, ContentStart(page, sh), |page|);
    CellsAfterDelete(r, page, sh, tiles, k, index);
    forall i | 0 <= i < NumCells(r, sh) ensures PtrOk(r, sh, WithoutTile(tiles, k), i) {
      var q := if i < index then i else i + 1;
      OldCellAfterDelete(r, page, sh, tiles, k, index, q);
      var m: nat :| CellTile(r, sh, WithoutTile(tiles, k), Ptr(page, sh, q), m);
      assert CellTile(r, sh, WithoutTile(tiles, k), Ptr(r, sh, i), m);
    }
    StartWithin(tiles, k, ContentStart(page, sh), |page|);
    DistinctAfterDrop(r, page, sh, index);
  }

  lemma StartWithin(tiles: seq<Tile>, k: nat, from: nat, to: nat)
    requires Tiling(tiles, from, to) && NoTouchingFree(tiles) && k < |tiles| && tiles[k].kind == Cell
    ensures from <= StartWithout(tiles, k, from) <= to
  {
    WithoutTileTiling(tiles, k, from, to);
    TilingTotal(WithoutTile(tiles, k), StartWithout(tiles, k, from), to);
  }

  lemma DistinctAfterDrop(r: seq<Byte>, page: seq<Byte>, sh: Shape, index: nat)
    requires PtrsFit(page, sh) && PtrsDistinct(page, sh) && index < NumCells(page, sh) && PtrDropped(r, page, sh, index)
    ensures PtrsDistinct(r, sh)
  {
    forall i, j | 0 <= i < j < NumCells(r, sh) ensures Ptr(r, sh, i) != Ptr(r, sh, j) {
      var a, b := if i < index then i else i + 1, if j < index then j else j + 1;
      assert Ptr(page, sh, a) != Ptr(page, sh, b);
    }
  }
}
