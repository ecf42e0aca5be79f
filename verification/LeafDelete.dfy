/** The page images of a splice deletion, byte by byte. */
module LeafDelete {
  import opened Bytes
  import opened LeafLayout
  import opened LeafPage
  import opened Freeblocks
  import opened LeafEdits

  // ----- rewriting the freeblock chain -----

  /** The block headers lie past the page header, inside the page, in order and apart. */
  ghost predicate BlocksFit(page: seq<Byte>, sh: Shape, blocks: seq<Block>) {
    && HasHeader(page, sh)
    && (forall i :: 0 <= i < |blocks| ==>
        PtrBase(sh) <= blocks[i].off && blocks[i].off + 4 <= |page| && blocks[i].size < 0x1_0000)
    && (forall i, j :: 0 <= i < j < |blocks| ==> blocks[i].off + 4 <= blocks[j].off)
  }

  ghost function WriteBlocks(page: seq<Byte>, sh: Shape, blocks: seq<Block>, m: nat): (r: seq<Byte>)
    requires BlocksFit(page, sh, blocks) && m <= |blocks|
    ensures |r| == |page|
  {
    if m == 0 then page
    else
      var b := blocks[m - 1];
      Put(Put(WriteBlocks(page, sh, blocks, m - 1), b.off, Be16(NextBlock(blocks, m))), b.off + 2, Be16(b.size))
  }

  /** `write_freeblock_chain`. */
  ghost function WriteChain(page: seq<Byte>, sh: Shape, blocks: seq<Block>): (r: seq<Byte>)
    requires BlocksFit(page, sh, blocks)
    ensures |r| == |page|
  {
    Put(WriteBlocks(page, sh, blocks, |blocks|), sh.hs + 1, Be16(NextBlock(blocks, 0)))
  }

  lemma {:induction false} WriteBlocksKeeps(page: seq<Byte>, sh: Shape, blocks: seq<Block>, m: nat, a: nat, e: nat)
    requires BlocksFit(page, sh, blocks) && m <= |blocks| && a <= e <= |page|
    requires forall i :: 0 <= i < m ==> e <= blocks[i].off || blocks[i].off + 4 <= a
    ensures WriteBlocks(page, sh, blocks, m)[a..e] == page[a..e]
  {
    hide Put;
    if m > 0 {
      var b := blocks[m - 1];
      WriteBlocksKeeps(page, sh, blocks, m - 1, a, e);
      var w := WriteBlocks(page, sh, blocks, m - 1);
      PutSlices(w, b.off, Be16(NextBlock(blocks, m)), a, e);
      PutSlices(Put(w, b.off, Be16(NextBlock(blocks, m))), b.off + 2, Be16(b.size), a, e);
    }
  }

  lemma {:induction false} WriteBlocksReads(page: seq<Byte>, sh: Shape, blocks: seq<Block>, m: nat, i: nat)
    requires BlocksFit(page, sh, blocks) && i < m <= |blocks|
    ensures var w := WriteBlocks(page, sh, blocks, m);
            ReadBe16(w, blocks[i].off) == NextBlock(blocks, i + 1) && ReadBe16(w, blocks[i].off + 2) == blocks[i].size
  {
    hide Put, ReadBe16, Be16;
    var b, w := blocks[m - 1], WriteBlocks(page, sh, blocks, m - 1);
    var x := Put(w, b.off, Be16(NextBlock(blocks, m)));
    if i < m - 1 {
      WriteBlocksReads(page, sh, blocks, m - 1, i);
    }
    PutReads(w, b.off, Be16(NextBlock(blocks, m)), blocks[i].off);
    PutReads(w, b.off, Be16(NextBlock(blocks, m)), blocks[i].off + 2);
    PutReads(x, b.off + 2, Be16(b.size), blocks[i].off);
    PutReads(x, b.off + 2, Be16(b.size), blocks[i].off + 2);
  }

  /** The chain read back is the chain written. */
  lemma WriteChainReads(page: seq<Byte>, sh: Shape, blocks: seq<Block>)
    requires BlocksFit(page, sh, blocks)
    ensures ChainIs(WriteChain(page, sh, blocks), sh, blocks)
  {
    hide Put, ReadBe16, Be16, WriteBlocks;
    var w := WriteBlocks(page, sh, blocks, |blocks|);
    var first := Be16(NextBlock(blocks, 0));
    PutReads(w, sh.hs + 1, first, sh.hs + 1);
    var r := WriteChain(page, sh, blocks);
    forall i | 0 <= i < |blocks|
      ensures ReadBe16(r, blocks[i].off) == NextBlock(blocks, i + 1) && ReadBe16(r, blocks[i].off + 2) == blocks[i].size
    {
      WriteBlocksReads(page, sh, blocks, |blocks|, i);
      PutReads(w, sh.hs + 1, first, blocks[i].off);
      PutReads(w, sh.hs + 1, first, blocks[i].off + 2);
    }
  }

  lemma WriteChainKeeps(page: seq<Byte>, sh: Shape, blocks: seq<Block>, a: nat, e: nat)
    requires BlocksFit(page, sh, blocks) && a <= e <= |page| && (e <= sh.hs + 1 || sh.hs + 3 <= a)
    requires forall i :: 0 <= i < |blocks| ==> e <= blocks[i].off || blocks[i].off + 4 <= a
    ensures WriteChain(page, sh, blocks)[a..e] == page[a..e]
  {
    hide Put;
    WriteBlocksKeeps(page, sh, blocks, |blocks|, a, e);
    PutSlices(WriteBlocks(page, sh, blocks, |blocks|), sh.hs + 1, Be16(NextBlock(blocks, 0)), a, e);
  }

  /** The freeblocks of a layout can be written as a chain. */
  lemma LayoutBlocksFit(page: seq<Byte>, sh: Shape, tiles: seq<Tile>, from: nat)
    requires HasHeader(page, sh) && Tiling(tiles, from, |page|) && NoTouchingFree(tiles) && PtrBase(sh) <= from
    ensures BlocksFit(page, sh, FreeBlocks(tiles))
  {
    hide Tiling, NoTouchingFree, FreeBlocks;
    var blocks := FreeBlocks(tiles);
    forall i | 0 <= i < |blocks|
      ensures PtrBase(sh) <= blocks[i].off && blocks[i].off + 4 <= |page| && blocks[i].size < 0x1_0000
    {
      BlockInside(tiles, from, |page|, i);
    }
    forall i, j | 0 <= i < j < |blocks| ensures blocks[i].off + 4 <= blocks[j].off {
      FreeBlocksApart(tiles, from, |page|, i, j);
      BlockInside(tiles, from, |page|, i);
    }
  }

  /** Writing a layout's chain touches neither its cells nor anything before its start but the
      first-freeblock field. */
  lemma ChainSparesCell(page: seq<Byte>, sh: Shape, tiles: seq<Tile>, from: nat, j: nat)
    requires HasHeader(page, sh) && Tiling(tiles, from, |page|) && NoTouchingFree(tiles) && PtrBase(sh) <= from
    requires BlocksFit(page, sh, FreeBlocks(tiles)) && j < |tiles| && tiles[j].kind == Cell
    ensures tiles[j].off + tiles[j].len <= |page|
    ensures WriteChain(page, sh, FreeBlocks(tiles))[tiles[j].off..tiles[j].off + tiles[j].len] ==
            page[tiles[j].off..tiles[j].off + tiles[j].len]
  {
    hide Tiling, NoTouchingFree, FreeBlocks, BlocksFit, WriteChain;
    var blocks, a, e := FreeBlocks(tiles), tiles[j].off, tiles[j].off + tiles[j].len;
    TileInside(tiles, from, |page|, j);
    forall i | 0 <= i < |blocks| ensures e <= blocks[i].off || blocks[i].off + 4 <= a {
      var k := BlockTile(tiles, i);
      BlockInside(tiles, from, |page|, i);
      if k < j { TilesApart(tiles, from, |page|, k, j); } else { TilesApart(tiles, from, |page|, j, k); }
    }
    WriteChainKeeps(page, sh, blocks, a, e);
  }

  // ----- dropping the pointer and clearing the cell -----

  function DropPtr(page: seq<Byte>, sh: Shape, index: nat): (r: seq<Byte>)
    requires PtrsFit(page, sh) && index < NumCells(page, sh)
    ensures |r| == |page|
  {
    var b, n := PtrBase(sh), NumCells(page, sh);
    Put(Put(page, b + 2 * index, page[b + 2 * index + 2..b + 2 * n]), sh.hs + 3, Be16(n - 1))
  }

  /** Byte `x` of the page once pointer `index` is gone. */
  ghost function DroppedByte(page: seq<Byte>, sh: Shape, index: nat, x: nat): (r: Byte)
    requires PtrsFit(page, sh) && index < NumCells(page, sh) && x < |page|
  {
    var b, n := PtrBase(sh), NumCells(page, sh);
    if sh.hs + 3 <= x < sh.hs + 5 then Be16(n - 1)[x - sh.hs - 3]
    else if b + 2 * index <= x < b + 2 * n - 2 then page[x + 2]
    else page[x]
  }

  lemma DropPtrBytes(page: seq<Byte>, sh: Shape, index: nat)
    requires PtrsFit(page, sh) && index < NumCells(page, sh)
    ensures forall x :: 0 <= x < |page| ==> DropPtr(page, sh, index)[x] == DroppedByte(page, sh, index, x)
  {
    hide Put;
    var b, n := PtrBase(sh), NumCells(page, sh);
    var moved := page[b + 2 * index + 2..b + 2 * n];
    forall x | 0 <= x < |page| ensures DropPtr(page, sh, index)[x] == DroppedByte(page, sh, index, x) {
      if b + 2 * index <= x < b + 2 * n - 2 { assert moved[x - (b + 2 * index)] == page[x + 2]; }
    }
  }

  lemma DropPtrReads(page: seq<Byte>, sh: Shape, index: nat)
    requires PtrsFit(page, sh) && index < NumCells(page, sh)
    ensures var r := DropPtr(page, sh, index);
            && PtrDropped(r, page, sh, index)
            && FirstFreeblock(r, sh) == FirstFreeblock(page, sh) && ContentStart(r, sh) == ContentStart(page, sh)
            && FragBytes(r, sh) == FragBytes(page, sh)
            && r[..sh.hs + 1] == page[..sh.hs + 1] && r[PtrBase(sh) + 2 * NumCells(page, sh)..] ==
               page[PtrBase(sh) + 2 * NumCells(page, sh)..]
  {
    hide DropPtr, Put;
    var r, n := DropPtr(page, sh, index), NumCells(page, sh);
    DropPtrBytes(page, sh, index);
    assert r[sh.hs + 3..sh.hs + 5] == Be16(n - 1);
    ReadBe16Of(r, sh.hs + 3, n - 1);
  }

  /** The page once the pointer is gone and the cell's bytes are zero. */
  function Cleared(page: seq<Byte>, sh: Shape, index: nat, len: nat): (r: seq<Byte>)
    requires PtrsFit(page, sh) && index < NumCells(page, sh) && Ptr(page, sh, index) + len <= |page|
    ensures |r| == |page|
  {
    Put(DropPtr(page, sh, index), Ptr(page, sh, index), Zeros(len))
  }

  /** A write inside the content area keeps what lies before it. */
  lemma LatePut(p: seq<Byte>, sh: Shape, off: nat, bytes: seq<Byte>)
    requires PtrsFit(p, sh) && PtrBase(sh) + 2 * NumCells(p, sh) <= off && off + |bytes| <= |p|
    ensures SameHead(Put(p, off, bytes), p, sh)
  {
    var r := Put(p, off, bytes);
    assert r[..off] == p[..off];
    var e := PtrBase(sh) + 2 * NumCells(p, sh);
    assert r[..e] == r[..off][..e] == p[..e];
  }

  /** Both pages have the same header and the same pointers. */
  ghost predicate SameHead(r: seq<Byte>, p: seq<Byte>, sh: Shape)
    requires PtrsFit(p, sh)
  {
    |r| == |p| && r[..PtrBase(sh) + 2 * NumCells(p, sh)] == p[..PtrBase(sh) + 2 * NumCells(p, sh)]
  }

  /** The same pointers and cell count; the other header fields may differ. */
  ghost predicate SamePtrs(r: seq<Byte>, p: seq<Byte>, sh: Shape)
    requires PtrsFit(p, sh)
  {
    && |r| == |p| && r[..sh.hs + 1] == p[..sh.hs + 1] && NumCells(r, sh) == NumCells(p, sh)
    && r[PtrBase(sh)..PtrBase(sh) + 2 * NumCells(p, sh)] == p[PtrBase(sh)..PtrBase(sh) + 2 * NumCells(p, sh)]
  }

  lemma SameHeadReads(r: seq<Byte>, p: seq<Byte>, sh: Shape)
    requires PtrsFit(p, sh) && SameHead(r, p, sh)
    ensures SamePtrs(r, p, sh)
    ensures FirstFreeblock(r, sh) == FirstFreeblock(p, sh) && ContentStart(r, sh) == ContentStart(p, sh) &&
            FragBytes(r, sh) == FragBytes(p, sh)
  {
    var e := PtrBase(sh) + 2 * NumCells(p, sh);
    assert forall x :: 0 <= x < e ==> r[x] == r[..e][x] && p[x] == p[..e][x];
  }

  lemma SamePtrsDropped(r: seq<Byte>, p: seq<Byte>, page: seq<Byte>, sh: Shape, index: nat)
    requires PtrsFit(page, sh) && index < NumCells(page, sh) && PtrDropped(p, page, sh, index) && SamePtrs(r, p, sh)
    ensures PtrDropped(r, page, sh, index)
  {
    var b, n := PtrBase(sh), NumCells(p, sh);
    forall i | 0 <= i < n ensures Ptr(r, sh, i) == Ptr(p, sh, i) {
      var x := b + 2 * i;
      assert r[x] == r[b..b + 2 * n][2 * i] && p[x] == p[b..b + 2 * n][2 * i];
      assert r[x + 1] == r[b..b + 2 * n][2 * i + 1] && p[x + 1] == p[b..b + 2 * n][2 * i + 1];
    }
  }

  lemma ClearedReads(page: seq<Byte>, sh: Shape, tiles: seq<Tile>, index: nat, k: nat)
    requires Sound(page, sh, tiles) && index < NumCells(page, sh) && CellTile(page, sh, tiles, Ptr(page, sh, index), k)
    ensures var r := Cleared(page, sh, index, tiles[k].len);
            && PtrDropped(r, page, sh, index) && r[..sh.hs + 1] == page[..sh.hs + 1]
            && FirstFreeblock(r, sh) == FirstFreeblock(page, sh) && ContentStart(r, sh) == ContentStart(page, sh)
            && FragBytes(r, sh) == FragBytes(page, sh)
  {
    hide DropPtr, Put, Tiling, FreeBlocks, CellLen, Cells, ChainIs, PtrsDistinct, PtrOk;
    DropPtrReads(page, sh, index);
    TileInside(tiles, ContentStart(page, sh), |page|, k);
    var p := DropPtr(page, sh, index);
    LatePut(p, sh, Ptr(page, sh, index), Zeros(tiles[k].len));
    SameHeadReads(Put(p, Ptr(page, sh, index), Zeros(tiles[k].len)), p, sh);
    SamePtrsDropped(Cleared(page, sh, index, tiles[k].len), p, page, sh, index);
  }

  /** Bytes of the content area outside the cleared cell are as they were. */
  lemma ClearedKeeps(page: seq<Byte>, sh: Shape, tiles: seq<Tile>, index: nat, k: nat, j: nat)
    requires Sound(page, sh, tiles) && index < NumCells(page, sh) && CellTile(page, sh, tiles, Ptr(page, sh, index), k)
    requires j < |tiles| && j != k
    ensures tiles[j].off + tiles[j].len <= |page|
    ensures Cleared(page, sh, index, tiles[k].len)[tiles[j].off..tiles[j].off + tiles[j].len] ==
            page[tiles[j].off..tiles[j].off + tiles[j].len]
  {
    hide DropPtr, Put, Tiling, NoTouchingFree, FreeBlocks, CellLen, Cells, ChainIs, PtrsDistinct, PtrOk, SumOf, CountOf;
    hide PtrDropped;
    var cs := ContentStart(page, sh);
    DropPtrReads(page, sh, index);
    TileInside(tiles, cs, |page|, k);
    TileInside(tiles, cs, |page|, j);
    if j < k { TilesApart(tiles, cs, |page|, j, k); } else { TilesApart(tiles, cs, |page|, k, j); }
    var p, a, e := DropPtr(page, sh, index), tiles[j].off, tiles[j].off + tiles[j].len;
    PutSlices(p, Ptr(page, sh, index), Zeros(tiles[k].len), a, e);
    var x := PtrBase(sh) + 2 * NumCells(page, sh);
    SliceOfTail(p, page, x, a, e);
  }

  lemma ClearedChain(page: seq<Byte>, sh: Shape, tiles: seq<Tile>, index: nat, k: nat, i: nat)
    requires Sound(page, sh, tiles) && index < NumCells(page, sh) && CellTile(page, sh, tiles, Ptr(page, sh, index), k)
    requires i < |FreeBlocks(tiles)|
    ensures var r, b := Cleared(page, sh, index, tiles[k].len), FreeBlocks(tiles)[i];
            b.off + 4 <= |page| && ReadBe16(r, b.off) == ReadBe16(page, b.off) &&
              ReadBe16(r, b.off + 2) == ReadBe16(page, b.off + 2)
  {
    hide Cleared, Tiling, NoTouchingFree, FreeBlocks, CellLen, Cells, PtrsDistinct, PtrOk, ChainIs, SumOf, CountOf;
    hide ReadBe16;
    var r := Cleared(page, sh, index, tiles[k].len);
    var j := BlockTile(tiles, i);
    BlockInside(tiles, ContentStart(page, sh), |page|, i);
    ClearedKeeps(page, sh, tiles, index, k, j);
    var a, e := tiles[j].off, tiles[j].off + tiles[j].len;
    Be16OfSlice(r, page, a, e, a);
    Be16OfSlice(r, page, a, e, a + 2);
  }

  lemma ClearedOthers(page: seq<Byte>, sh: Shape, tiles: seq<Tile>, index: nat, k: nat)
    requires Sound(page, sh, tiles) && index < NumCells(page, sh) && CellTile(page, sh, tiles, Ptr(page, sh, index), k)
    ensures OthersKept(Cleared(page, sh, index, tiles[k].len), page, tiles, k)
  {
    hide Cleared, Tiling, NoTouchingFree, FreeBlocks, CellLen, Cells, PtrsDistinct, PtrOk, SumOf, CountOf, ChainIs;
    hide ReadBe16;
    var r := Cleared(page, sh, index, tiles[k].len);
    forall j | 0 <= j < |tiles| && j != k && tiles[j].off + tiles[j].len <= |page|
      ensures r[tiles[j].off..tiles[j].off + tiles[j].len] == page[tiles[j].off..tiles[j].off + tiles[j].len]
    {
      ClearedKeeps(page, sh, tiles, index, k, j);
    }
  }

  lemma SoundChain(page: seq<Byte>, sh: Shape, tiles: seq<Tile>)
    requires Sound(page, sh, tiles)
    ensures HasHeader(page, sh) && ChainIs(page, sh, FreeBlocks(tiles))
  {
    hide ChainIs, FreeBlocks, Tiling;
  }

  lemma ClearedCells(page: seq<Byte>, sh: Shape, tiles: seq<Tile>, index: nat, k: nat)
    requires Sound(page, sh, tiles) && index < NumCells(page, sh) && CellTile(page, sh, tiles, Ptr(page, sh, index), k)
    ensures OthersKept(Cleared(page, sh, index, tiles[k].len), page, tiles, k)
    ensures HasHeader(Cleared(page, sh, index, tiles[k].len), sh)
    ensures ChainIs(Cleared(page, sh, index, tiles[k].len), sh, FreeBlocks(tiles))
  {
    hide Cleared, Tiling, NoTouchingFree, FreeBlocks, CellLen, Cells, PtrsDistinct, PtrOk, SumOf, CountOf, ReadBe16;
    hide PtrDropped, OthersKept;
    var r := Cleared(page, sh, index, tiles[k].len);
    ClearedReads(page, sh, tiles, index, k);
    ClearedOthers(page, sh, tiles, index, k);
    SoundChain(page, sh, tiles);
    forall i | 0 <= i < |FreeBlocks(tiles)|
      ensures FreeBlocks(tiles)[i].off + 4 <= |page|
      ensures ReadBe16(r, FreeBlocks(tiles)[i].off) == ReadBe16(page, FreeBlocks(tiles)[i].off)
      ensures ReadBe16(r, FreeBlocks(tiles)[i].off + 2) == ReadBe16(page, FreeBlocks(tiles)[i].off + 2)
    {
      ClearedChain(page, sh, tiles, index, k, i);
    }
  }

  // ----- the three endings -----

  /** A one-byte or two-byte write to a header field past the cell count keeps pointers and cells. */
  lemma FieldPut(p: seq<Byte>, sh: Shape, off: nat, bytes: seq<Byte>)
    requires PtrsFit(p, sh) && sh.hs + 5 <= off && off + |bytes| <= PtrBase(sh)
    ensures var r := Put(p, off, bytes); SamePtrs(r, p, sh) && FirstFreeblock(r, sh) == FirstFreeblock(p, sh)
    ensures Put(p, off, bytes)[PtrBase(sh)..] == p[PtrBase(sh)..]
  {
    hide Put;
  }

  lemma OthersStillKept(r: seq<Byte>, p: seq<Byte>, page: seq<Byte>, sh: Shape, tiles: seq<Tile>, k: nat, from: nat)
    requires |r| == |p| == |page| && from <= |page| && r[from..] == p[from..] && OthersKept(p, page, tiles, k)
    requires forall j :: 0 <= j < |tiles| ==> from <= tiles[j].off
    ensures OthersKept(r, page, tiles, k)
  {
    forall j | 0 <= j < |tiles| && j != k && tiles[j].kind == Cell && tiles[j].off + tiles[j].len <= |page|
      ensures r[tiles[j].off..tiles[j].off + tiles[j].len] == page[tiles[j].off..tiles[j].off + tiles[j].len]
    {
      SliceOfTail(r, p, from, tiles[j].off, tiles[j].off + tiles[j].len);
    }
  }

  /** The page after clearing, with one more header field written. */
  lemma ClearedThenField(page: seq<Byte>, sh: Shape, tiles: seq<Tile>, index: nat, k: nat, off: nat, bytes: seq<Byte>)
    requires Sound(page, sh, tiles) && index < NumCells(page, sh) && CellTile(page, sh, tiles, Ptr(page, sh, index), k)
    requires sh.hs + 5 <= off && off + |bytes| <= PtrBase(sh)
    ensures var r := Put(Cleared(page, sh, index, tiles[k].len), off, bytes);
            && PtrDropped(r, page, sh, index) && OthersKept(r, page, tiles, k) && r[..sh.hs + 1] == page[..sh.hs + 1]
            && ChainIs(r, sh, FreeBlocks(tiles))
  {
    hide Cleared, Tiling, NoTouchingFree, FreeBlocks, CellLen, Cells, PtrsDistinct, PtrOk, SumOf, CountOf, PtrDropped;
    hide OthersKept, ChainIs, Put;
    var p := Cleared(page, sh, index, tiles[k].len);
    var cs := ContentStart(page, sh);
    ClearedReads(page, sh, tiles, index, k);
    ClearedCells(page, sh, tiles, index, k);
    assert PtrsFit(p, sh) by { assert PtrDropped(p, page, sh, index); DroppedFits(p, page, sh, index); }
    FieldPut(p, sh, off, bytes);
    var r := Put(p, off, bytes);
    SamePtrsDropped(r, p, page, sh, index);
    forall j | 0 <= j < |tiles| ensures PtrBase(sh) <= tiles[j].off { TileInside(tiles, cs, |page|, j); }
    OthersStillKept(r, p, page, sh, tiles, k, PtrBase(sh));
    assert r[cs..] == r[PtrBase(sh)..][cs - PtrBase(sh)..] && p[cs..] == p[PtrBase(sh)..][cs - PtrBase(sh)..];
    ChainKept(r, p, sh, cs, |page|, tiles);
  }

  lemma DroppedFits(r: seq<Byte>, page: seq<Byte>, sh: Shape, index: nat)
    requires PtrsFit(page, sh) && index < NumCells(page, sh) && PtrDropped(r, page, sh, index)
    ensures PtrsFit(r, sh) && |r| == |page| && NumCells(r, sh) == NumCells(page, sh) - 1
  {
  }

  /** `r` is `page` without cell `index`, laid out as `w`: well formed, the other cells in order, and
      every byte up to the page type unchanged. */
  ghost predicate WithoutCell(r: seq<Byte>, page: seq<Byte>, sh: Shape, index: nat, w: seq<Tile>)
    requires PtrsFit(page, sh) && index < NumCells(page, sh)
  {
    |r| == |page| && Sound(r, sh, w) && Cells(r, sh) == RemoveAt(Cells(page, sh), index) &&
      r[..sh.hs + 1] == page[..sh.hs + 1]
  }

  /** A cell too short to hold a freeblock header becomes fragment bytes. */
  lemma DeleteAsFragment(page: seq<Byte>, sh: Shape, tiles: seq<Tile>, index: nat, k: nat)
    requires Sound(page, sh, tiles) && index < NumCells(page, sh) && CellTile(page, sh, tiles, Ptr(page, sh, index), k)
    requires k > 0 && tiles[k].len < MIN_FREEBLOCK_SIZE
    ensures var frag := FragBytes(page, sh) as int + tiles[k].len;
            var r := Put(Cleared(page, sh, index, tiles[k].len), sh.hs + 7, [Min(255, frag)]);
            && WithoutCell(r, page, sh, index, WithoutTile(tiles, k))
            && (Conserved(page, sh, tiles) ==> (Conserved(r, sh, WithoutTile(tiles, k)) <==> frag <= 255))
  {
    hide Cleared, Tiling, NoTouchingFree, FreeBlocks, CellLen, Cells, PtrsDistinct, PtrOk, SumOf, CountOf, OthersKept;
    hide ChainIs, Put;
    hide TotalLen, PtrDropped;
    var p, frag := Cleared(page, sh, index, tiles[k].len), FragBytes(page, sh) as int + tiles[k].len;
    var r := Put(p, sh.hs + 7, [Min(255, frag)]);
    var cs := ContentStart(page, sh);
    ClearedReads(page, sh, tiles, index, k);
    ClearedThenField(page, sh, tiles, index, k, sh.hs + 7, [Min(255, frag)]);
    SplitAt(tiles, k, cs, |page|);
    SumsAround(tiles[..k], tiles[k], tiles[k + 1..], Free);
    SumsAround(tiles[..k], tiles[k].(kind := Frag), tiles[k + 1..], Free);
    WithoutTileTiling(tiles, k, cs, |page|);
    assert ContentStart(r, sh) == cs;
    DeleteLayout(r, page, sh, tiles, k, index);
  }

  /** Writing the remaining chain over a page that already reads without the cell. */
  lemma ChainFinish(p: seq<Byte>, page: seq<Byte>, sh: Shape, tiles: seq<Tile>, index: nat, k: nat)
    requires Sound(page, sh, tiles) && index < NumCells(page, sh) && CellTile(page, sh, tiles, Ptr(page, sh, index), k)
    requires PtrDropped(p, page, sh, index) && OthersKept(p, page, tiles, k) && p[..sh.hs + 1] == page[..sh.hs + 1]
    requires ContentStart(p, sh) == StartWithout(tiles, k, ContentStart(page, sh)) &&
             FragBytes(p, sh) == FragBytes(page, sh)
    ensures BlocksFit(p, sh, FreeBlocks(WithoutTile(tiles, k)))
    ensures var r := WriteChain(p, sh, FreeBlocks(WithoutTile(tiles, k)));
            && WithoutCell(r, page, sh, index, WithoutTile(tiles, k)) && FragBytes(r, sh) == FragBytes(page, sh)
  {
    hide Tiling, NoTouchingFree, FreeBlocks, CellLen, Cells, PtrsDistinct, PtrOk, SumOf, CountOf, OthersKept, ChainIs;
    hide WriteChain, WithoutTile, BlocksFit, StartWithout;
    var w, cs := WithoutTile(tiles, k), ContentStart(p, sh);
    WithoutTileTiling(tiles, k, ContentStart(page, sh), |page|);
    StartWithin(tiles, k, ContentStart(page, sh), |page|);
    LayoutBlocksFit(p, sh, w, cs);
    var r := WriteChain(p, sh, FreeBlocks(w));
    WriteChainReads(p, sh, FreeBlocks(w));
    ChainSparesHead(p, sh, w, cs);
    SamePtrsDropped(r, p, page, sh, index);
    CellsSpared(p, page, sh, tiles, k);
    DeleteLayout(r, page, sh, tiles, k, index);
  }

  lemma ChainSparesHead(p: seq<Byte>, sh: Shape, tiles: seq<Tile>, from: nat)
    requires PtrsFit(p, sh) && Tiling(tiles, from, |p|) && NoTouchingFree(tiles) &&
             PtrBase(sh) + 2 * NumCells(p, sh) <= from
    requires BlocksFit(p, sh, FreeBlocks(tiles))
    ensures var r := WriteChain(p, sh, FreeBlocks(tiles));
            SamePtrs(r, p, sh) && ContentStart(r, sh) == ContentStart(p, sh) && FragBytes(r, sh) == FragBytes(p, sh)
  {
    hide Tiling, NoTouchingFree, FreeBlocks, WriteChain, BlocksFit;
    var blocks, b, e := FreeBlocks(tiles), PtrBase(sh), PtrBase(sh) + 2 * NumCells(p, sh);
    forall i | 0 <= i < |blocks| ensures e <= blocks[i].off { BlockInside(tiles, from, |p|, i); }
    WriteChainKeeps(p, sh, blocks, 0, sh.hs + 1);
    WriteChainKeeps(p, sh, blocks, sh.hs + 3, e);
    var r := WriteChain(p, sh, blocks);
    assert forall x :: sh.hs + 3 <= x < e ==>
        r[x] == r[sh.hs + 3..e][x - sh.hs - 3] && p[x] == p[sh.hs + 3..e][x - sh.hs - 3];
    assert r[b..e] == p[b..e];
  }

  lemma CellsSpared(p: seq<Byte>, page: seq<Byte>, sh: Shape, tiles: seq<Tile>, k: nat)
    requires Sound(page, sh, tiles) && k < |tiles| && tiles[k].kind == Cell && |p| == |page| && HasHeader(p, sh)
    requires OthersKept(p, page, tiles, k) && BlocksFit(p, sh, FreeBlocks(WithoutTile(tiles, k)))
    ensures OthersKept(WriteChain(p, sh, FreeBlocks(WithoutTile(tiles, k))), page, tiles, k)
  {
    hide Tiling, NoTouchingFree, FreeBlocks, CellLen, Cells, PtrsDistinct, PtrOk, SumOf, CountOf, ChainIs, WriteChain;
    hide WithoutTile, BlocksFit, StartWithout;
    var w, cs := WithoutTile(tiles, k), ContentStart(page, sh);
    var r := WriteChain(p, sh, FreeBlocks(w));
    WithoutTileTiling(tiles, k, cs, |page|);
    StartWithin(tiles, k, cs, |page|);
    forall j | 0 <= j < |tiles| && j != k && tiles[j].kind == Cell && tiles[j].off + tiles[j].len <= |page|
      ensures r[tiles[j].off..tiles[j].off + tiles[j].len] == page[tiles[j].off..tiles[j].off + tiles[j].len]
    {
      var m := OtherCellsStay(tiles, k, j, cs, |page|);
      ChainSparesCell(p, sh, w, StartWithout(tiles, k, cs), m);
    }
  }

  /** A longer cell becomes a freeblock, merged with the ones that touch it. */
  lemma DeleteAsFreeblock(page: seq<Byte>, sh: Shape, tiles: seq<Tile>, index: nat, k: nat)
    requires Sound(page, sh, tiles) && index < NumCells(page, sh) && CellTile(page, sh, tiles, Ptr(page, sh, index), k)
    requires k > 0 && tiles[k].len >= MIN_FREEBLOCK_SIZE
    ensures var p, blocks := Cleared(page, sh, index, tiles[k].len),
            AddBlock(FreeBlocks(tiles), tiles[k].off, tiles[k].len);
            && BlocksFit(p, sh, blocks)
            && var r := WriteChain(p, sh, blocks);
            && WithoutCell(r, page, sh, index, WithoutTile(tiles, k))
            && (Conserved(page, sh, tiles) ==> Conserved(r, sh, WithoutTile(tiles, k)))
  {
    hide Cleared, Tiling, NoTouchingFree, FreeBlocks, CellLen, Cells, PtrsDistinct, PtrOk, SumOf, CountOf, OthersKept;
    hide ChainIs, AddBlock, BlocksFit, WithoutTile, WriteChain, PtrDropped;
    ClearedReads(page, sh, tiles, index, k);
    ClearedCells(page, sh, tiles, index, k);
    AddBlockIs(tiles, k, ContentStart(page, sh), |page|);
    WithoutTileTiling(tiles, k, ContentStart(page, sh), |page|);
    ChainFinish(Cleared(page, sh, index, tiles[k].len), page, sh, tiles, index, k);
  }

  /** Deleting the first cell of the content area grows the gap over it and over a freeblock after it. */
  lemma DeleteFirst(page: seq<Byte>, sh: Shape, tiles: seq<Tile>, index: nat)
    requires Sound(page, sh, tiles) && index < NumCells(page, sh) && CellTile(page, sh, tiles, Ptr(page, sh, index), 0)
    ensures var start, blocks := Absorb(Ptr(page, sh, index) + tiles[0].len, FreeBlocks(tiles)).0,
            Absorb(Ptr(page, sh, index) + tiles[0].len, FreeBlocks(tiles)).1;
            var p := Put(Cleared(page, sh, index, tiles[0].len), sh.hs + 5,
                     Be16(if start >= 0x1_0000 then 0 else start));
            && BlocksFit(p, sh, blocks)
            && var r := WriteChain(p, sh, blocks);
            && WithoutCell(r, page, sh, index, WithoutTile(tiles, 0))
            && (Conserved(page, sh, tiles) ==> Conserved(r, sh, WithoutTile(tiles, 0)))
  {
    hide Cleared, Tiling, NoTouchingFree, FreeBlocks, CellLen, Cells, PtrsDistinct, PtrOk, SumOf, CountOf, OthersKept;
    hide ChainIs, BlocksFit, WithoutTile, WriteChain, Absorb, Put, Be16, ReadBe16, TotalLen, WithoutCell;
    var cs := ContentStart(page, sh);
    TileInside(tiles, cs, |page|, 0);
    AbsorbIs(tiles, cs, |page|);
    var start := StartWithout(tiles, 0, cs);
    StartWithin(tiles, 0, cs, |page|);
    WithoutTileTiling(tiles, 0, cs, |page|);
    var v := if start >= 0x1_0000 then 0 else start;
    ClearedReads(page, sh, tiles, index, 0);
    ClearedThenField(page, sh, tiles, index, 0, sh.hs + 5, Be16(v));
    var q := Cleared(page, sh, index, tiles[0].len);
    PutReads(q, sh.hs + 5, Be16(v), sh.hs + 5);
    ChainFinish(Put(q, sh.hs + 5, Be16(v)), page, sh, tiles, index, 0);
  }
}
