/** The freeblock list of a leaf page as the code keeps it, against the layout's free tiles. */
module Freeblocks {
  import opened Bytes
  import opened LeafLayout

  /** How many leading blocks start before `start`. */
  function PartitionPoint(blocks: seq<Block>, start: nat): (n: nat)
    ensures n <= |blocks|
  {
    if blocks == [] || blocks[0].off >= start then 0 else 1 + PartitionPoint(blocks[1..], start)
  }

  /** `add_freeblock`: insert in order, merging with a block that ends or starts where it does. */
  function AddBlock(blocks: seq<Block>, start: nat, size: nat): (r: seq<Block>) {
    var pos := PartitionPoint(blocks, start);
    var joinsPrev := pos > 0 && blocks[pos - 1].off + blocks[pos - 1].size == start;
    var newStart := if joinsPrev then blocks[pos - 1].off else start;
    var newSize := if joinsPrev then size + blocks[pos - 1].size else size;
    var front := if joinsPrev then blocks[..pos - 1] else blocks[..pos];
    if pos < |blocks| && newStart + newSize == blocks[pos].off
    then front + [Block(newStart, newSize + blocks[pos].size)] + blocks[pos + 1..]
    else front + [Block(newStart, newSize)] + blocks[pos..]
  }

  /** The first block that starts at `off`. */
  function FindBlock(blocks: seq<Block>, off: nat): (r: Option<nat>)
    ensures r.Some? ==> r.value < |blocks| && blocks[r.value].off == off
    ensures r.None? ==> forall i :: 0 <= i < |blocks| ==> blocks[i].off != off
  {
    if blocks == [] then None
    else if blocks[0].off == off then Some(0)
    else
      match FindBlock(blocks[1..], off)
      case None => None
      case Some(i) => Some(i + 1)
  }

  /** The content start grown over every block that starts where it ends. */
  function Absorb(start: nat, blocks: seq<Block>): (r: (nat, seq<Block>))
    decreases |blocks|
  {
    match FindBlock(blocks, start)
    case None => (start, blocks)
    case Some(i) => Absorb(start + blocks[i].size, blocks[..i] + blocks[i + 1..])
  }

  method AbsorbBlocks(start: nat, blocks: seq<Block>) returns (newStart: nat, left: seq<Block>)
    ensures (newStart, left) == Absorb(start, blocks)
  {
    newStart, left := start, blocks;
    var found := FindBlock(left, newStart);
    while found.Some?
      invariant found == FindBlock(left, newStart)
      invariant Absorb(newStart, left) == Absorb(start, blocks)
      decreases |left|
    {
      newStart, left := newStart + left[found.value].size, left[..found.value] + left[found.value + 1..];
      found := FindBlock(left, newStart);
    }
  }

  // ----- against the tiles -----

  /** Blocks of the tiles before tile `k` start before it, and end before it unless they touch it. */
  lemma {:induction false} PartitionIs(x: seq<Block>, y: seq<Block>, start: nat)
    requires forall i :: 0 <= i < |x| ==> x[i].off < start
    requires forall i :: 0 <= i < |y| ==> y[i].off >= start
    ensures PartitionPoint(x + y, start) == |x|
  {
    if x == [] {
      assert x + y == y;
    } else {
      assert (x + y)[1..] == x[1..] + y;
      PartitionIs(x[1..], y, start);
    }
  }

  lemma LastTile(a: seq<Tile>, from: nat, to: nat)
    requires Tiling(a, from, to) && a != []
    ensures var t := a[|a| - 1];
            && t.off + t.len == to
            && (t.kind == Free ==> FreeBlocks(a) == FreeBlocks(a[..|a| - 1]) + [Block(t.off, t.len)])
  {
    hide Tiling, FreeBlocks, SumOf, CountOf, Total;
    var n := |a| - 1;
    TileInside(a, from, to, n);
    TilingTotal(a, from, to);
    assert a == a[..n] + [a[n]];
    SumsConcat(a[..n], [a[n]], Free);
    OneTile(a[n], Free);
  }

  lemma BlocksBefore(a: seq<Tile>, from: nat, to: nat)
    requires Tiling(a, from, to)
    ensures forall i :: 0 <= i < |FreeBlocks(a)| ==> FreeBlocks(a)[i].off < to
    ensures EndLen(a) <= to
    ensures EndLen(a) > 0 ==> FreeBlocks(a) == FreeBlocks(EndFree(a)) + [Block(to - EndLen(a), EndLen(a))]
    ensures EndLen(a) == 0 ==> EndFree(a) == a
  {
    hide Tiling, FreeBlocks;
    forall i | 0 <= i < |FreeBlocks(a)| ensures FreeBlocks(a)[i].off < to { BlockInside(a, from, to, i); }
    if a != [] {
      TileInside(a, from, to, |a| - 1);
      LastTile(a, from, to);
    }
  }

  lemma BlocksEndBefore(a: seq<Tile>, from: nat, to: nat, i: nat)
    requires Tiling(a, from, to) && NoTouchingFree(a) && EndLen(a) == 0 && i < |FreeBlocks(a)|
    ensures FreeBlocks(a)[i].off + FreeBlocks(a)[i].size < to
  {
    hide Tiling, NoTouchingFree, FreeBlocks;
    var k := BlockTile(a, i);
    var n := |a| - 1;
    TileInside(a, from, to, n);
    if k < n { TilesApart(a, from, to, k, n); }
  }

  lemma BlocksAfter(b: seq<Tile>, from: nat, to: nat)
    requires Tiling(b, from, to) && NoTouchingFree(b)
    ensures forall i :: 0 <= i < |FreeBlocks(b)| ==> FreeBlocks(b)[i].off >= from
    ensures FrontLen(b) > 0 ==> FreeBlocks(b) == [Block(from, FrontLen(b))] + FreeBlocks(FrontFree(b))
    ensures FrontLen(b) == 0 ==> FrontFree(b) == b
    ensures forall i :: 0 <= i < |FreeBlocks(FrontFree(b))| ==> FreeBlocks(FrontFree(b))[i].off > from + FrontLen(b)
  {
    forall i | 0 <= i < |FreeBlocks(b)| ensures FreeBlocks(b)[i].off >= from { BlockInside(b, from, to, i); }
    FrontFreeTiling(b, from, to);
    var c := FrontFree(b);
    forall i | 0 <= i < |FreeBlocks(c)| ensures FreeBlocks(c)[i].off > from + FrontLen(b) {
      var k := BlockTile(c, i);
      TileInside(c, from + FrontLen(b), to, k);
    }
    if b != [] { TileInside(b, from, to, 0); }
  }

  /** Freeing a cell into the list gives the free tiles of the layout without it. */
  lemma AddBlockIs(tiles: seq<Tile>, k: nat, from: nat, to: nat)
    requires Tiling(tiles, from, to) && NoTouchingFree(tiles) && 0 < k < |tiles|
    requires tiles[k].kind == Cell && tiles[k].len >= MIN_FREEBLOCK_SIZE
    ensures AddBlock(FreeBlocks(tiles), tiles[k].off, tiles[k].len) == FreeBlocks(WithoutTile(tiles, k))
  {
    hide Tiling, NoTouchingFree, FreeBlocks, EndFree, FrontFree, EndLen, FrontLen, PartitionPoint, AddBlock, SumOf;
    hide CountOf;
    var a, t, b := tiles[..k], tiles[k], tiles[k + 1..];
    SplitAt(tiles, k, from, to);
    SumsAround(a, t, b, Free);
    BlocksBefore(a, from, t.off);
    if EndLen(a) == 0 {
      forall i | 0 <= i < |FreeBlocks(a)| ensures FreeBlocks(a)[i].off + FreeBlocks(a)[i].size < t.off {
        BlocksEndBefore(a, from, t.off, i);
      }
    }
    BlocksAfter(b, t.off + t.len, to);
    var x, y := FreeBlocks(a), FreeBlocks(b);
    assert FreeBlocks(tiles) == x + y;
    PartitionIs(x, y, t.off);
    var f := Tile(t.off - EndLen(a), EndLen(a) + t.len + FrontLen(b), Free);
    SumsAround(EndFree(a), f, FrontFree(b), Free);
    AddBlockShape(x, y, t.off, t.len, FreeBlocks(EndFree(a)), EndLen(a), FrontLen(b), FreeBlocks(FrontFree(b)));
  }

  lemma AddBlockShape(x: seq<Block>, y: seq<Block>, start: nat, size: nat, x': seq<Block>, before: nat, after: nat,
                      y': seq<Block>)
    requires PartitionPoint(x + y, start) == |x| && before <= start && size > 0
    requires if before > 0 then x == x' + [Block(start - before, before)]
             else x' == x && forall i :: 0 <= i < |x| ==> x[i].off + x[i].size < start
    requires if after > 0 then y == [Block(start + size, after)] + y' else y == y' && forall i :: 0 <= i < |y| ==>
             y[i].off > start + size
    ensures AddBlock(x + y, start, size) == x' + [Block(start - before, before + size + after)] + y'
  {
    hide PartitionPoint;
    var blocks, pos := x + y, |x|;
    assert blocks[pos..] == y && blocks[..pos] == x;
    if before > 0 {
      assert blocks[pos - 1] == Block(start - before, before) && blocks[..pos - 1] == x';
    } else if pos > 0 {
      assert blocks[pos - 1] == x[pos - 1];
    }
    if after > 0 {
      assert blocks[pos] == Block(start + size, after) && blocks[pos + 1..] == y';
    } else if pos < |blocks| {
      assert blocks[pos] == y[0];
    }
  }

  lemma AbsorbNone(start: nat, blocks: seq<Block>)
    requires forall i :: 0 <= i < |blocks| ==> blocks[i].off != start
    ensures Absorb(start, blocks) == (start, blocks)
  {
    hide FindBlock;
  }

  lemma FindHead(start: nat, len: nat, rest: seq<Block>)
    ensures FindBlock([Block(start, len)] + rest, start) == Some(0)
  {
  }

  lemma AbsorbStep(start: nat, blocks: seq<Block>)
    requires FindBlock(blocks, start) == Some(0)
    ensures |blocks| > 0 && Absorb(start, blocks) == Absorb(start + blocks[0].size, blocks[..0] + blocks[1..])
  {
    hide FindBlock;
  }

  lemma AbsorbHead(start: nat, len: nat, rest: seq<Block>)
    requires forall i :: 0 <= i < |rest| ==> rest[i].off != start + len
    ensures Absorb(start, [Block(start, len)] + rest) == (start + len, rest)
  {
    hide *;
    var blocks := [Block(start, len)] + rest;
    FindHead(start, len, rest);
    assert blocks[..0] + blocks[1..] == rest;
    AbsorbStep(start, blocks);
    AbsorbNone(start + len, rest);
  }

  lemma FreeBlocksAfterCell(tiles: seq<Tile>)
    requires tiles != [] && tiles[0].kind == Cell
    ensures FreeBlocks(tiles) == FreeBlocks(tiles[1..])
  {
  }

  /** Freeing the first cell grows the gap over the freeblock after it, if any, and over no more. */
  lemma AbsorbIs(tiles: seq<Tile>, from: nat, to: nat)
    requires Tiling(tiles, from, to) && NoTouchingFree(tiles) && tiles != [] && tiles[0].kind == Cell
    ensures Absorb(from + tiles[0].len, FreeBlocks(tiles)) ==
            (StartWithout(tiles, 0, from), FreeBlocks(WithoutTile(tiles, 0)))
  {
    hide Tiling, NoTouchingFree, FreeBlocks, Absorb, FindBlock, FrontFree, FrontLen;
    var t, b := tiles[0], tiles[1..];
    SplitAt(tiles, 0, from, to);
    TileInside(tiles, from, to, 0);
    var start := from + t.len;
    BlocksAfter(b, start, to);
    FreeBlocksAfterCell(tiles);
    if FrontLen(b) > 0 {
      AbsorbHead(start, FrontLen(b), FreeBlocks(FrontFree(b)));
    } else {
      AbsorbNone(start, FreeBlocks(b));
    }
  }
}
