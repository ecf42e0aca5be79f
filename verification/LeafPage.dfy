/** A leaf page as bytes: its header, cell pointers, freeblock chain, and when they agree with a
    layout; and the page images the splice operations produce. */
module LeafPage {
  import opened Bytes
  import opened Overflow
  import opened LeafLayout
  import Varint

  /** Where the b-tree header starts, the usable size, and whether cells carry rowids. */
  datatype Shape = Shape(hs: nat, usable: nat, hasRowid: bool)

  function PtrBase(sh: Shape): nat { sh.hs + 8 }

  // ----- fields -----

  predicate HasHeader(page: seq<Byte>, sh: Shape) { PtrBase(sh) <= |page| <= 65536 }

  function FirstFreeblock(page: seq<Byte>, sh: Shape): (v: U16)
    requires HasHeader(page, sh)
  {
    ReadBe16(page, sh.hs + 1)
  }

  function NumCells(page: seq<Byte>, sh: Shape): (v: U16)
    requires HasHeader(page, sh)
  {
    ReadBe16(page, sh.hs + 3)
  }

  /** A stored 0 stands for 65536. */
  function ContentStart(page: seq<Byte>, sh: Shape): (v: nat)
    requires HasHeader(page, sh)
  {
    var v := ReadBe16(page, sh.hs + 5);
    if v == 0 then 65536 else v
  }

  function FragBytes(page: seq<Byte>, sh: Shape): (v: Byte)
    requires HasHeader(page, sh)
  {
    page[sh.hs + 7]
  }

  predicate PtrsFit(page: seq<Byte>, sh: Shape) {
    HasHeader(page, sh) && PtrBase(sh) + 2 * NumCells(page, sh) <= |page|
  }

  function Ptr(page: seq<Byte>, sh: Shape, i: nat): (v: U16)
    requires PtrsFit(page, sh) && i < NumCells(page, sh)
  {
    ReadBe16(page, PtrBase(sh) + 2 * i)
  }

  // ----- agreement with a layout -----

  function NextBlock(blocks: seq<Block>, i: nat): nat { if i < |blocks| then blocks[i].off else 0 }

  /** The chain stored in the page is exactly `blocks`. */
  ghost predicate ChainIs(page: seq<Byte>, sh: Shape, blocks: seq<Block>)
    requires HasHeader(page, sh)
  {
    && FirstFreeblock(page, sh) == NextBlock(blocks, 0)
    && forall i :: 0 <= i < |blocks| ==>
         && 0 < blocks[i].off && blocks[i].off + 4 <= |page|
         && ReadBe16(page, blocks[i].off) == NextBlock(blocks, i + 1)
         && ReadBe16(page, blocks[i].off + 2) == blocks[i].size
  }

  /** Tile `k` is a cell that starts at `p` and decodes to its own length. */
  ghost predicate CellTile(page: seq<Byte>, sh: Shape, tiles: seq<Tile>, p: nat, k: nat) {
    && k < |tiles| && tiles[k].kind == Cell && tiles[k].off == p && p + tiles[k].len <= |page|
    && CellLen(page[p..], sh.usable, sh.hasRowid) == Some(tiles[k].len)
  }

  ghost predicate PtrOk(page: seq<Byte>, sh: Shape, tiles: seq<Tile>, i: nat)
    requires PtrsFit(page, sh) && i < NumCells(page, sh)
  {
    exists k: nat :: CellTile(page, sh, tiles, Ptr(page, sh, i), k)
  }

  ghost predicate PtrsDistinct(page: seq<Byte>, sh: Shape)
    requires PtrsFit(page, sh)
  {
    forall i, j :: 0 <= i < j < NumCells(page, sh) ==> Ptr(page, sh, i) != Ptr(page, sh, j)
  }

  /** The page's bytes describe this layout. */
  ghost predicate Sound(page: seq<Byte>, sh: Shape, tiles: seq<Tile>) {
    && PtrsFit(page, sh)
    && PtrBase(sh) + 2 * NumCells(page, sh) <= ContentStart(page, sh) <= |page|
    && Tiling(tiles, ContentStart(page, sh), |page|) && NoTouchingFree(tiles)
    && CountOf(tiles, Cell) == NumCells(page, sh)
    && ChainIs(page, sh, FreeBlocks(tiles))
    && (forall i :: 0 <= i < NumCells(page, sh) ==> PtrOk(page, sh, tiles, i))
    && PtrsDistinct(page, sh)
    && TotalLen(Cells(page, sh)) == SumOf(tiles, Cell)
  }

  /** The fragment counter accounts for every fragment byte. */
  ghost predicate Conserved(page: seq<Byte>, sh: Shape, tiles: seq<Tile>)
    requires HasHeader(page, sh)
  {
    FragBytes(page, sh) == SumOf(tiles, Frag)
  }

  // ----- the cells, in key order -----

  function CellAt(page: seq<Byte>, sh: Shape, p: nat): (c: seq<Byte>) {
    if p <= |page| && CellLen(page[p..], sh.usable, sh.hasRowid).Some?
       && p + CellLen(page[p..], sh.usable, sh.hasRowid).value <= |page|
    then page[p..p + CellLen(page[p..], sh.usable, sh.hasRowid).value] else []
  }

  /** What `collect_leaf_cells` reads. */
  function Cells(page: seq<Byte>, sh: Shape): (r: seq<seq<Byte>>)
    requires PtrsFit(page, sh)
    ensures |r| == NumCells(page, sh) && forall i :: 0 <= i < |r| ==> r[i] == CellAt(page, sh, Ptr(page, sh, i))
  {
    seq(NumCells(page, sh), i requires 0 <= i < NumCells(page, sh) => CellAt(page, sh, Ptr(page, sh, i)))
  }

  function TotalLen(cells: seq<seq<Byte>>): (n: nat) { if cells == [] then 0 else |cells[0]| + TotalLen(cells[1..]) }

  lemma {:induction false} TotalLenConcat(a: seq<seq<Byte>>, b: seq<seq<Byte>>)
    ensures TotalLen(a + b) == TotalLen(a) + TotalLen(b)
  {
    if a == [] {
      assert a + b == b;
    } else {
      assert (a + b)[1..] == a[1..] + b;
      TotalLenConcat(a[1..], b);
    }
  }

  lemma TotalLenAround(a: seq<seq<Byte>>, c: seq<Byte>, b: seq<seq<Byte>>)
    ensures TotalLen(a + [c] + b) == TotalLen(a) + |c| + TotalLen(b)
  {
    TotalLenConcat(a + [c], b);
    TotalLenConcat(a, [c]);
    assert [c][1..] == [];
  }

  function BlockSizes(blocks: seq<Block>): (n: nat) { if blocks == [] then 0
    else blocks[0].size + BlockSizes(blocks[1..]) }

  lemma {:induction false} BlockSizesAre(tiles: seq<Tile>)
    ensures BlockSizes(FreeBlocks(tiles)) == SumOf(tiles, Free)
  {
    if tiles != [] {
      BlockSizesAre(tiles[1..]);
      var r := FreeBlocks(tiles);
      assert if tiles[0].kind == Free then r[1..] == FreeBlocks(tiles[1..]) else r == FreeBlocks(tiles[1..]);
    }
  }

  /** The content area is exactly the cells, the freeblocks and the fragments. */
  lemma ContentConserved(page: seq<Byte>, sh: Shape, tiles: seq<Tile>)
    requires Sound(page, sh, tiles) && Conserved(page, sh, tiles)
    ensures |page| - ContentStart(page, sh) ==
            TotalLen(Cells(page, sh)) + BlockSizes(FreeBlocks(tiles)) + FragBytes(page, sh)
    ensures |FreeBlocks(tiles)| <= MAX_FREEBLOCKS
  {
    hide Cells, ChainIs, PtrsDistinct;
    TilingTotal(tiles, ContentStart(page, sh), |page|);
    TotalSplits(tiles);
    BlockSizesAre(tiles);
    FreeBlocksBounded(tiles, ContentStart(page, sh), |page|);
  }

  // ----- insertion -----

  /** There is room between the pointers and the content area for one more pointer and the cell. */
  predicate Fits(page: seq<Byte>, sh: Shape, cell: seq<Byte>)
    requires HasHeader(page, sh)
  {
    PtrBase(sh) + 2 * NumCells(page, sh) + |cell| + 2 <= ContentStart(page, sh)
  }

  /** The page after `splice_insert_cell` accepts. */
  function InsertImage(page: seq<Byte>, sh: Shape, index: nat, cell: seq<Byte>): (r: seq<Byte>)
    requires PtrsFit(page, sh) && ContentStart(page, sh) <= |page| && Fits(page, sh, cell)
    requires index <= NumCells(page, sh) && |cell| >= 1
    ensures |r| == |page|
  {
    var n, start := NumCells(page, sh), ContentStart(page, sh) - |cell|;
    var p1 := Put(page, start, cell);
    var p2 := Put(p1, PtrBase(sh) + 2 * index + 2, p1[PtrBase(sh) + 2 * index..PtrBase(sh) + 2 * n]);
    var p3 := Put(p2, PtrBase(sh) + 2 * index, Be16(start));
    var p4 := Put(p3, sh.hs + 5, Be16(start));
    Put(p4, sh.hs + 3, Be16(n + 1))
  }

  /** What the inserted page reads as, field by field. */
  lemma InsertReads(page: seq<Byte>, sh: Shape, index: nat, cell: seq<Byte>)
    requires PtrsFit(page, sh) && ContentStart(page, sh) <= |page| && Fits(page, sh, cell)
    requires index <= NumCells(page, sh) && |cell| >= 1
    ensures var r, n, cs := InsertImage(page, sh, index, cell), NumCells(page, sh), ContentStart(page, sh);
            && PtrsFit(r, sh) && NumCells(r, sh) == n + 1 && ContentStart(r, sh) == cs - |cell|
            && FirstFreeblock(r, sh) == FirstFreeblock(page, sh) && FragBytes(r, sh) == FragBytes(page, sh)
            && r[..sh.hs + 1] == page[..sh.hs + 1]
            && r[cs - |cell|..cs] == cell && r[cs..] == page[cs..]
  {
    hide InsertImage, Put;
    var b, n, cs := PtrBase(sh), NumCells(page, sh), ContentStart(page, sh);
    var start, r := cs - |cell|, InsertImage(page, sh, index, cell);
    assert forall x :: 0 <= x < |page| ==> r[x] == InsertedByte(page, sh, index, cell, x) by {
      InsertBytes(page, sh, index, cell);
    }
    assert r[start..cs] == cell;
    assert r[cs..] == page[cs..];
    assert ReadBe16(r, sh.hs + 3) == n + 1 by {
      assert r[sh.hs + 3..sh.hs + 5] == Be16(n + 1);
      ReadBe16Of(r, sh.hs + 3, n + 1);
    }
    assert ReadBe16(r, sh.hs + 5) == start by {
      assert r[sh.hs + 5..sh.hs + 7] == Be16(start);
      ReadBe16Of(r, sh.hs + 5, start);
    }
  }

  lemma InsertPtr(page: seq<Byte>, sh: Shape, index: nat, cell: seq<Byte>, i: nat)
    requires PtrsFit(page, sh) && ContentStart(page, sh) <= |page| && Fits(page, sh, cell)
    requires index <= NumCells(page, sh) && |cell| >= 1 && i <= NumCells(page, sh)
    ensures var r := InsertImage(page, sh, index, cell);
            && PtrsFit(r, sh) && NumCells(r, sh) == NumCells(page, sh) + 1
            && Ptr(r, sh, i) == if i < index then Ptr(page, sh, i)
               else if i == index then ContentStart(page, sh) - |cell| else Ptr(page, sh, i - 1)
  {
    hide InsertImage, Put;
    var r, x, start := InsertImage(page, sh, index, cell), PtrBase(sh) + 2 * i, ContentStart(page, sh) - |cell|;
    InsertReads(page, sh, index, cell);
    InsertBytes(page, sh, index, cell);
    assert r[x] == InsertedByte(page, sh, index, cell, x) && r[x + 1] == InsertedByte(page, sh, index, cell, x + 1);
    if i == index { assert r[x..x + 2] == Be16(start); ReadBe16Of(r, x, start); }
  }

  /** Byte `x` of the page after an insertion. */
  ghost function InsertedByte(page: seq<Byte>, sh: Shape, index: nat, cell: seq<Byte>, x: nat): (r: Byte)
    requires PtrsFit(page, sh) && ContentStart(page, sh) <= |page| && Fits(page, sh, cell)
    requires index <= NumCells(page, sh) && |cell| >= 1 && x < |page|
  {
    var b, n, start := PtrBase(sh), NumCells(page, sh), ContentStart(page, sh) - |cell|;
    if sh.hs + 3 <= x < sh.hs + 5 then Be16(n + 1)[x - sh.hs - 3]
    else if sh.hs + 5 <= x < sh.hs + 7 then Be16(start)[x - sh.hs - 5]
    else if b + 2 * index <= x < b + 2 * index + 2 then Be16(start)[x - b - 2 * index]
    else if b + 2 * index + 2 <= x < b + 2 * n + 2 then page[x - 2]
    else if start <= x < start + |cell| then cell[x - start]
    else page[x]
  }

  lemma InsertBytes(page: seq<Byte>, sh: Shape, index: nat, cell: seq<Byte>)
    requires PtrsFit(page, sh) && ContentStart(page, sh) <= |page| && Fits(page, sh, cell)
    requires index <= NumCells(page, sh) && |cell| >= 1
    ensures forall x :: 0 <= x < |page| ==>
            InsertImage(page, sh, index, cell)[x] == InsertedByte(page, sh, index, cell, x)
  {
    hide Put;
    var b, n := PtrBase(sh), NumCells(page, sh);
    var start := ContentStart(page, sh) - |cell|;
    var p1 := Put(page, start, cell);
    var moved := p1[b + 2 * index..b + 2 * n];
    var p2 := Put(p1, b + 2 * index + 2, moved);
    var p3 := Put(p2, b + 2 * index, Be16(start));
    var p4 := Put(p3, sh.hs + 5, Be16(start));
    var r := Put(p4, sh.hs + 3, Be16(n + 1));
    forall x | 0 <= x < |page| ensures r[x] == InsertedByte(page, sh, index, cell, x) {
      if b + 2 * index + 2 <= x < b + 2 * n + 2 {
        assert p2[x] == moved[x - (b + 2 * index + 2)] == p1[x - 2] == page[x - 2];
      }
    }
  }
}
