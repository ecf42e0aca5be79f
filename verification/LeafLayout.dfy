/** The layout of a leaf page's content area (sections 1.6 and 1.7 of the SQLite Database File
    Format): cells, freeblocks and fragments laid end to end from the content start to the page end. */
module LeafLayout {
  import opened Bytes
  import opened Overflow
  import Varint

  const MIN_FREEBLOCK_SIZE := 4
  const MAX_FREEBLOCKS := 10_000

  // ----- cells -----

  /** The length of the cell at the head of `c`, decoded from its own varints. Table cells carry a
      rowid after the payload length, index cells do not. */
  function CellLen(c: seq<Byte>, usable: nat, hasRowid: bool): (r: Option<nat>)
    ensures r.Some? ==> r.value >= 1
  {
    match Varint.Decode(c)
    case Err(_) => None
    case Ok((len, n1)) =>
      var local := LocalSize(usable, len, !hasRowid);
      var body := local + if local < len then 4 else 0;
      if !hasRowid then Some(n1 + body)
      else
        match Varint.Decode(c[n1..])
        case Err(_) => None
        case Ok((_, n2)) => Some(n1 + n2 + body)
  }

  /** Bytes that decode as exactly one cell. */
  predicate ValidCell(c: seq<Byte>, usable: nat, hasRowid: bool) { CellLen(c, usable, hasRowid) == Some(|c|) }

  /** The length depends only on the cell's own bytes. */
  lemma CellLenLocal(a: seq<Byte>, b: seq<Byte>, usable: nat, hasRowid: bool)
    requires CellLen(a, usable, hasRowid).Some?
    requires var n := CellLen(a, usable, hasRowid).value; n <= |a| && n <= |b| && a[..n] == b[..n]
    ensures CellLen(b, usable, hasRowid) == CellLen(a, usable, hasRowid)
  {
    hide LocalSize, Varint.DecodeFrom;
    var n := CellLen(a, usable, hasRowid).value;
    var n1 := Varint.Decode(a).value.1;
    assert a[..n1] == a[..n][..n1] && b[..n1] == b[..n][..n1];
    Varint.DecodeLocal(a, b, 0, 0);
    if hasRowid {
      var n2 := Varint.Decode(a[n1..]).value.1;
      assert a[n1..][..n2] == a[..n][n1..n1 + n2] && b[n1..][..n2] == b[..n][n1..n1 + n2];
      Varint.DecodeLocal(a[n1..], b[n1..], 0, 0);
    }
  }

  /** A table cell with a payload, and an index cell with one of two bytes or more, takes three bytes. */
  lemma PayloadIsLong(c: seq<Byte>, usable: nat, hasRowid: bool)
    requires ValidCell(c, usable, hasRowid) && Varint.Decode(c).value.0 >= (if hasRowid then 1 else 2)
    ensures |c| >= 3
  {
    hide Varint.Decode;
    var len := Varint.Decode(c).value.0;
    var local := LocalSize(usable, len, !hasRowid);
    assert local + (if local < len then 4 else 0) >= Min(len, 4);
  }

  // ----- tiles -----

  datatype Kind = Cell | Free | Frag
  datatype Tile = Tile(off: nat, len: nat, kind: Kind)
  datatype Block = Block(off: nat, size: nat)

  predicate TileOk(t: Tile) {
    t.len >= 1 && (t.kind == Free ==> t.len >= MIN_FREEBLOCK_SIZE) && (t.kind == Frag ==> t.len < MIN_FREEBLOCK_SIZE)
  }

  /** The tiles cover `[from, to)` end to end. */
  predicate Tiling(tiles: seq<Tile>, from: nat, to: nat) {
    if tiles == [] then from == to
    else tiles[0].off == from && TileOk(tiles[0]) && Tiling(tiles[1..], from + tiles[0].len, to)
  }

  predicate NoTouchingFree(tiles: seq<Tile>) {
    forall k :: 0 < k < |tiles| ==> !(tiles[k - 1].kind == Free && tiles[k].kind == Free)
  }

  function Total(tiles: seq<Tile>): (n: nat) { if tiles == [] then 0 else tiles[0].len + Total(tiles[1..]) }

  function SumOf(tiles: seq<Tile>, kind: Kind): (n: nat) {
    if tiles == [] then 0 else (if tiles[0].kind == kind then tiles[0].len else 0) + SumOf(tiles[1..], kind)
  }

  function CountOf(tiles: seq<Tile>, kind: Kind): (n: nat) {
    if tiles == [] then 0 else (if tiles[0].kind == kind then 1 else 0) + CountOf(tiles[1..], kind)
  }

  function FreeBlocks(tiles: seq<Tile>): (r: seq<Block>) {
    if tiles == [] then []
    else (if tiles[0].kind == Free then [Block(tiles[0].off, tiles[0].len)] else []) + FreeBlocks(tiles[1..])
  }

  lemma {:induction false} TilingConcat(a: seq<Tile>, b: seq<Tile>, from: nat, to: nat)
    ensures Tiling(a + b, from, to) <==> Tiling(a, from, from + Total(a)) && Tiling(b, from + Total(a), to)
  {
    if a == [] {
      assert a + b == b;
    } else {
      assert (a + b)[1..] == a[1..] + b;
      TilingConcat(a[1..], b, from + a[0].len, to);
    }
  }

  lemma {:induction false} SumsConcat(a: seq<Tile>, b: seq<Tile>, kind: Kind)
    ensures Total(a + b) == Total(a) + Total(b)
    ensures SumOf(a + b, kind) == SumOf(a, kind) + SumOf(b, kind)
    ensures CountOf(a + b, kind) == CountOf(a, kind) + CountOf(b, kind)
    ensures FreeBlocks(a + b) == FreeBlocks(a) + FreeBlocks(b)
  {
    FreeBlocksConcat(a, b);
    hide FreeBlocks;
    if a == [] {
      assert a + b == b;
    } else {
      assert (a + b)[1..] == a[1..] + b;
      SumsConcat(a[1..], b, kind);
    }
  }

  lemma {:induction false} FreeBlocksConcat(a: seq<Tile>, b: seq<Tile>)
    ensures FreeBlocks(a + b) == FreeBlocks(a) + FreeBlocks(b)
  {
    if a == [] {
      assert a + b == b;
    } else {
      assert (a + b)[1..] == a[1..] + b;
      FreeBlocksConcat(a[1..], b);
    }
  }

  lemma {:induction false} TotalSplits(tiles: seq<Tile>)
    ensures Total(tiles) == SumOf(tiles, Cell) + SumOf(tiles, Free) + SumOf(tiles, Frag)
    ensures |tiles| == CountOf(tiles, Cell) + CountOf(tiles, Free) + CountOf(tiles, Frag)
    ensures |FreeBlocks(tiles)| == CountOf(tiles, Free)
  {
    if tiles != [] { TotalSplits(tiles[1..]); }
  }

  lemma {:induction false} TilingTotal(tiles: seq<Tile>, from: nat, to: nat)
    requires Tiling(tiles, from, to)
    ensures from + Total(tiles) == to
    ensures SumOf(tiles, Free) >= 4 * CountOf(tiles, Free) && SumOf(tiles, Frag) >= CountOf(tiles, Frag)
    ensures SumOf(tiles, Cell) >= CountOf(tiles, Cell)
  {
    if tiles != [] { TilingTotal(tiles[1..], from + tiles[0].len, to); }
  }

  /** Every tile lies inside the area, and later tiles start where earlier ones have ended. */
  lemma {:induction false} TileInside(tiles: seq<Tile>, from: nat, to: nat, k: nat)
    requires Tiling(tiles, from, to) && k < |tiles|
    ensures from <= tiles[k].off && tiles[k].off + tiles[k].len <= to && TileOk(tiles[k])
    ensures tiles[k].off == from <==> k == 0
    ensures tiles[k].off == from + Total(tiles[..k])
  {
    if k > 0 {
      TileInside(tiles[1..], from + tiles[0].len, to, k - 1);
      assert tiles[..k][1..] == tiles[1..][..k - 1];
    } else {
      TilingTotal(tiles[1..], from + tiles[0].len, to);
    }
  }

  lemma TilesApart(tiles: seq<Tile>, from: nat, to: nat, j: nat, k: nat)
    requires Tiling(tiles, from, to) && j < k < |tiles|
    ensures tiles[j].off + tiles[j].len <= tiles[k].off
    ensures k > j + 1 ==> tiles[j].off + tiles[j].len < tiles[k].off
    ensures k == j + 1 ==> tiles[j].off + tiles[j].len == tiles[k].off
  {
    var a, b := tiles[..j + 1], tiles[j + 1..];
    assert tiles == a + b;
    TilingConcat(a, b, from, to);
    TileInside(tiles, from, to, j);
    assert a == tiles[..j] + [tiles[j]];
    SumsConcat(tiles[..j], [tiles[j]], Cell);
    assert Total([tiles[j]]) == tiles[j].len by { assert [tiles[j]][1..] == []; }
    TileInside(b, from + Total(a), to, k - j - 1);
  }

  /** A tile is determined by where it starts. */
  lemma SameStart(tiles: seq<Tile>, from: nat, to: nat, j: nat, k: nat)
    requires Tiling(tiles, from, to) && j < |tiles| && k < |tiles| && tiles[j].off == tiles[k].off
    ensures j == k
  {
    TileInside(tiles, from, to, j);
    TileInside(tiles, from, to, k);
    if j < k { TilesApart(tiles, from, to, j, k); }
    if k < j { TilesApart(tiles, from, to, k, j); }
  }

  /** The tile of each freeblock, in order. */
  lemma {:induction false} BlockTile(tiles: seq<Tile>, i: nat) returns (k: nat)
    requires i < |FreeBlocks(tiles)|
    ensures k < |tiles| && tiles[k].kind == Free && FreeBlocks(tiles)[i] == Block(tiles[k].off, tiles[k].len)
    ensures CountOf(tiles[..k], Free) == i
  {
    if tiles[0].kind == Free && i == 0 {
      k := 0;
    } else {
      k := BlockTile(tiles[1..], if tiles[0].kind == Free then i - 1 else i);
      assert tiles[..k + 1][1..] == tiles[1..][..k];
      k := k + 1;
    }
  }

  /** Freeblocks ascend, do not overlap, and never touch. */
  lemma FreeBlocksApart(tiles: seq<Tile>, from: nat, to: nat, i: nat, j: nat)
    requires Tiling(tiles, from, to) && NoTouchingFree(tiles) && i < j < |FreeBlocks(tiles)|
    ensures FreeBlocks(tiles)[i].off + FreeBlocks(tiles)[i].size < FreeBlocks(tiles)[j].off
  {
    var k := BlockTile(tiles, i);
    var m := BlockTile(tiles, j);
    if m <= k { CountMono(tiles, m, k, Free); }
    TilesApart(tiles, from, to, k, m);
  }

  lemma {:induction false} CountMono(tiles: seq<Tile>, a: nat, b: nat, kind: Kind)
    requires a <= b <= |tiles|
    ensures CountOf(tiles[..a], kind) <= CountOf(tiles[..b], kind)
  {
    assert tiles[..b] == tiles[..a] + tiles[a..b];
    SumsConcat(tiles[..a], tiles[a..b], kind);
  }

  lemma BlockInside(tiles: seq<Tile>, from: nat, to: nat, i: nat)
    requires Tiling(tiles, from, to) && i < |FreeBlocks(tiles)|
    ensures from <= FreeBlocks(tiles)[i].off && FreeBlocks(tiles)[i].off + FreeBlocks(tiles)[i].size <= to
    ensures FreeBlocks(tiles)[i].size >= MIN_FREEBLOCK_SIZE
  {
    var k := BlockTile(tiles, i);
    TileInside(tiles, from, to, k);
  }

  /** Every freeblock but the last is followed by a cell or a fragment. */
  lemma {:induction false} FreeNeedsNeighbour(tiles: seq<Tile>)
    requires NoTouchingFree(tiles)
    ensures CountOf(tiles, Free) <= CountOf(tiles, Cell) + CountOf(tiles, Frag) + 1
    ensures tiles != [] && tiles[0].kind != Free ==> CountOf(tiles, Free) <= CountOf(tiles, Cell) + CountOf(tiles, Frag)
  {
    if tiles != [] {
      var rest := tiles[1..];
      assert forall k :: 0 < k < |rest| ==> rest[k - 1] == tiles[k] && rest[k] == tiles[k + 1];
      FreeNeedsNeighbour(rest);
    }
  }

  /** With at most 255 fragment bytes no page of any size can hold too many freeblocks to walk: each
      needs four bytes, and each but a few needs a cell, itself worth a byte and a pointer. */
  lemma FreeBlocksBounded(tiles: seq<Tile>, from: nat, to: nat)
    requires Tiling(tiles, from, to) && NoTouchingFree(tiles)
    requires SumOf(tiles, Frag) <= 255 && 2 * CountOf(tiles, Cell) <= from && to <= 65536
    ensures |FreeBlocks(tiles)| <= MAX_FREEBLOCKS
  {
    TilingTotal(tiles, from, to);
    TotalSplits(tiles);
    FreeNeedsNeighbour(tiles);
  }

  /** Every cell and fragment is at least three bytes long. */
  ghost predicate LongTiles(tiles: seq<Tile>) { forall k :: 0 <= k < |tiles| ==>
    tiles[k].kind == Free || tiles[k].len >= 3 }

  lemma {:induction false} LongSums(tiles: seq<Tile>)
    requires LongTiles(tiles)
    ensures SumOf(tiles, Cell) >= 3 * CountOf(tiles, Cell) && SumOf(tiles, Frag) >= 3 * CountOf(tiles, Frag)
  {
    if tiles != [] {
      forall k | 0 <= k < |tiles[1..]| ensures tiles[1..][k].kind == Free || tiles[1..][k].len >= 3 {
        assert tiles[1..][k] == tiles[k + 1];
      }
      LongSums(tiles[1..]);
    }
  }

  /** Nor can one whose cells are all at least three bytes long, whatever its fragments add up to. */
  lemma LongTilesBounded(tiles: seq<Tile>, from: nat, to: nat)
    requires Tiling(tiles, from, to) && NoTouchingFree(tiles) && LongTiles(tiles) && to <= 65536
    ensures |FreeBlocks(tiles)| <= MAX_FREEBLOCKS
  {
    hide Tiling, SumOf, CountOf, FreeBlocks, Total;
    LongSums(tiles);
    TilingTotal(tiles, from, to);
    TotalSplits(tiles);
    FreeNeedsNeighbour(tiles);
  }

  // ----- deleting a tile -----

  function FrontFree(tiles: seq<Tile>): (r: seq<Tile>) {
    if tiles != [] && tiles[0].kind == Free then tiles[1..] else tiles
  }

  function EndFree(tiles: seq<Tile>): (r: seq<Tile>) {
    if tiles != [] && tiles[|tiles| - 1].kind == Free then tiles[..|tiles| - 1] else tiles
  }

  function FrontLen(tiles: seq<Tile>): (n: nat) { if tiles != [] && tiles[0].kind == Free then tiles[0].len else 0 }

  function EndLen(tiles: seq<Tile>): (n: nat) {
    if tiles != [] && tiles[|tiles| - 1].kind == Free then tiles[|tiles| - 1].len else 0
  }

  /** What becomes of the area when tile `k`, a cell, is freed: it joins the gap before the content
      area, or turns into a fragment, or into a freeblock merged with its neighbours. */
  function WithoutTile(tiles: seq<Tile>, k: nat): (r: seq<Tile>)
    requires k < |tiles|
  {
    var a, t, b := tiles[..k], tiles[k], tiles[k + 1..];
    if k == 0 then FrontFree(b)
    else if t.len < MIN_FREEBLOCK_SIZE then a + [t.(kind := Frag)] + b
    else if t.off < EndLen(a) then tiles
    else EndFree(a) + [Tile(t.off - EndLen(a), EndLen(a) + t.len + FrontLen(b), Free)] + FrontFree(b)
  }

  function StartWithout(tiles: seq<Tile>, k: nat, from: nat): (r: nat)
    requires k < |tiles|
  {
    if k == 0 then from + tiles[0].len + FrontLen(tiles[1..]) else from
  }

  lemma Touching(x: seq<Tile>, y: seq<Tile>)
    ensures NoTouchingFree(x + y) <==>
            NoTouchingFree(x) && NoTouchingFree(y) && !(x != [] && y != [] && x[|x| - 1].kind == Free &&
              y[0].kind == Free)
  {
    var s := x + y;
    if NoTouchingFree(s) {
      forall k | 0 < k < |x| ensures !(x[k - 1].kind == Free && x[k].kind == Free) {
        assert s[k - 1] == x[k - 1] && s[k] == x[k];
      }
      forall k | 0 < k < |y| ensures !(y[k - 1].kind == Free && y[k].kind == Free) {
        assert s[|x| + k - 1] == y[k - 1] && s[|x| + k] == y[k];
      }
      if x != [] && y != [] { assert s[|x| - 1] == x[|x| - 1] && s[|x|] == y[0]; }
    }
  }

  /** Dropping a leading freeblock leaves the rest of the tiling, and nothing free at its head. */
  lemma FrontFreeTiling(b: seq<Tile>, from: nat, to: nat)
    requires Tiling(b, from, to) && NoTouchingFree(b)
    ensures Tiling(FrontFree(b), from + FrontLen(b), to) && NoTouchingFree(FrontFree(b))
    ensures FrontFree(b) != [] ==> FrontFree(b)[0].kind != Free
    ensures CountOf(FrontFree(b), Cell) == CountOf(b, Cell) && SumOf(FrontFree(b), Cell) == SumOf(b, Cell)
    ensures SumOf(FrontFree(b), Frag) == SumOf(b, Frag)
  {
    if b != [] && b[0].kind == Free { Touching([b[0]], b[1..]); assert b == [b[0]] + b[1..]; }
  }

  lemma EndFreeTiling(a: seq<Tile>, from: nat, to: nat)
    requires Tiling(a, from, to) && NoTouchingFree(a)
    ensures EndLen(a) <= to && Tiling(EndFree(a), from, to - EndLen(a)) && NoTouchingFree(EndFree(a))
    ensures EndFree(a) != [] ==> EndFree(a)[|EndFree(a)| - 1].kind != Free
    ensures CountOf(EndFree(a), Cell) == CountOf(a, Cell) && SumOf(EndFree(a), Cell) == SumOf(a, Cell)
    ensures SumOf(EndFree(a), Frag) == SumOf(a, Frag)
  {
    if a != [] && a[|a| - 1].kind == Free {
      var n := |a| - 1;
      assert a == a[..n] + [a[n]];
      Touching(a[..n], [a[n]]);
      TilingConcat(a[..n], [a[n]], from, to);
      SumsConcat(a[..n], [a[n]], Cell);
      SumsConcat(a[..n], [a[n]], Frag);
      assert [a[n]][1..] == [];
    }
  }

  lemma OneTile(t: Tile, kind: Kind)
    ensures Tiling([t], t.off, t.off + t.len) <==> TileOk(t)
    ensures Total([t]) == t.len && NoTouchingFree([t])
    ensures SumOf([t], kind) == (if t.kind == kind then t.len else 0) &&
            CountOf([t], kind) == (if t.kind == kind then 1 else 0)
    ensures FreeBlocks([t]) == if t.kind == Free then [Block(t.off, t.len)] else []
  {
    assert [t][1..] == [];
  }

  /** The parts of a tiling around tile `k`. */
  lemma SplitAt(tiles: seq<Tile>, k: nat, from: nat, to: nat)
    requires Tiling(tiles, from, to) && NoTouchingFree(tiles) && k < |tiles|
    ensures var a, t, b := tiles[..k], tiles[k], tiles[k + 1..];
            && tiles == a + [t] + b
            && Tiling(a, from, t.off) && Tiling(b, t.off + t.len, to) && TileOk(t)
            && NoTouchingFree(a) && NoTouchingFree(b)
            && (a != [] && t.kind == Free ==> a[k - 1].kind != Free) &&
               (b != [] && t.kind == Free ==> b[0].kind != Free)
  {
    hide Tiling, NoTouchingFree, Total, SumOf, CountOf, FreeBlocks;
    var a, t, b := tiles[..k], tiles[k], tiles[k + 1..];
    assert tiles == a + ([t] + b);
    TileInside(tiles, from, to, k);
    TilingConcat(a, [t] + b, from, to);
    TilingConcat([t], b, t.off, to);
    OneTile(t, Cell);
    Touching(a, [t] + b);
    Touching([t], b);
  }

  lemma {:induction false} SumsAround(a: seq<Tile>, t: Tile, b: seq<Tile>, kind: Kind)
    ensures SumOf(a + [t] + b, kind) == SumOf(a, kind) + (if t.kind == kind then t.len else 0) + SumOf(b, kind)
    ensures CountOf(a + [t] + b, kind) == CountOf(a, kind) + (if t.kind == kind then 1 else 0) + CountOf(b, kind)
    ensures FreeBlocks(a + [t] + b) == FreeBlocks(a) + (if t.kind == Free then [Block(t.off, t.len)] else []) +
            FreeBlocks(b)
  {
    SumsConcat(a + [t], b, kind);
    SumsConcat(a, [t], kind);
    OneTile(t, kind);
  }

  lemma TilingAround(a: seq<Tile>, t: Tile, b: seq<Tile>, from: nat, to: nat)
    requires Tiling(a, from, t.off) && TileOk(t) && Tiling(b, t.off + t.len, to)
    ensures Tiling(a + [t] + b, from, to)
  {
    TilingTotal(a, from, t.off);
    OneTile(t, Cell);
    TilingConcat(a, [t], from, t.off + t.len);
    SumsConcat(a, [t], Cell);
    TilingConcat(a + [t], b, from, to);
  }

  /** Freeing a cell keeps the area tiled with no two freeblocks touching, and moves the cell's bytes
      to free space: to the gap, to a fragment, or to a freeblock. */
  lemma WithoutTileTiling(tiles: seq<Tile>, k: nat, from: nat, to: nat)
    requires Tiling(tiles, from, to) && NoTouchingFree(tiles) && k < |tiles| && tiles[k].kind == Cell
    ensures var r := WithoutTile(tiles, k);
            && Tiling(r, StartWithout(tiles, k, from), to) && NoTouchingFree(r)
            && CountOf(r, Cell) + 1 == CountOf(tiles, Cell)
            && SumOf(r, Cell) + tiles[k].len == SumOf(tiles, Cell)
            && SumOf(r, Frag) == SumOf(tiles, Frag) + if k > 0 && tiles[k].len < MIN_FREEBLOCK_SIZE then tiles[k].len
               else 0
  {
    hide Tiling, NoTouchingFree, SumOf, CountOf, FreeBlocks, EndFree, FrontFree, EndLen, FrontLen;
    var a, t, b := tiles[..k], tiles[k], tiles[k + 1..];
    SplitAt(tiles, k, from, to);
    SumsAround(a, t, b, Cell);
    SumsAround(a, t, b, Frag);
    if k == 0 {
      assert a == [] && tiles[1..] == b;
      FrontFreeTiling(b, t.off + t.len, to);
      TileInside(tiles, from, to, 0);
      NoTiles();
    } else if t.len < MIN_FREEBLOCK_SIZE {
      InPlace(a, t.(kind := Frag), b, from, to);
    } else {
      Merged(a, t, b, from, to);
    }
  }

  /** A tile laid between two parts of a tiling, touching neither freely. */
  lemma InPlace(a: seq<Tile>, f: Tile, b: seq<Tile>, from: nat, to: nat)
    requires Tiling(a, from, f.off) && TileOk(f) && Tiling(b, f.off + f.len, to) && NoTouchingFree(a) &&
             NoTouchingFree(b)
    requires f.kind == Free ==> (a != [] ==> a[|a| - 1].kind != Free) && (b != [] ==> b[0].kind != Free)
    ensures var r := a + [f] + b;
            && Tiling(r, from, to) && NoTouchingFree(r)
            && CountOf(r, Cell) == CountOf(a, Cell) + (if f.kind == Cell then 1 else 0) + CountOf(b, Cell)
            && SumOf(r, Cell) == SumOf(a, Cell) + (if f.kind == Cell then f.len else 0) + SumOf(b, Cell)
            && SumOf(r, Frag) == SumOf(a, Frag) + (if f.kind == Frag then f.len else 0) + SumOf(b, Frag)
  {
    hide Tiling, NoTouchingFree, SumOf, CountOf, FreeBlocks;
    TilingAround(a, f, b, from, to);
    SumsAround(a, f, b, Cell);
    SumsAround(a, f, b, Frag);
    TouchingAround(a, f, b);
  }

  lemma Merged(a: seq<Tile>, t: Tile, b: seq<Tile>, from: nat, to: nat)
    requires Tiling(a, from, t.off) && Tiling(b, t.off + t.len, to) && NoTouchingFree(a) && NoTouchingFree(b)
    requires t.len >= MIN_FREEBLOCK_SIZE
    ensures EndLen(a) <= t.off
    ensures var r := EndFree(a) + [Tile(t.off - EndLen(a), EndLen(a) + t.len + FrontLen(b), Free)] + FrontFree(b);
            && Tiling(r, from, to) && NoTouchingFree(r) && CountOf(r, Cell) == CountOf(a, Cell) + CountOf(b, Cell)
            && SumOf(r, Cell) == SumOf(a, Cell) + SumOf(b, Cell) && SumOf(r, Frag) == SumOf(a, Frag) + SumOf(b, Frag)
  {
    hide Tiling, NoTouchingFree, SumOf, CountOf, FreeBlocks, EndFree, FrontFree, EndLen, FrontLen;
    FrontFreeTiling(b, t.off + t.len, to);
    EndFreeTiling(a, from, t.off);
    InPlace(EndFree(a), Tile(t.off - EndLen(a), EndLen(a) + t.len + FrontLen(b), Free), FrontFree(b), from, to);
  }

  lemma NoTiles()
    ensures forall kind :: SumOf([], kind) == 0 && CountOf([], kind) == 0
    ensures FreeBlocks([]) == []
  {
  }

  lemma TouchingAround(a: seq<Tile>, t: Tile, b: seq<Tile>)
    requires NoTouchingFree(a) && NoTouchingFree(b)
    requires t.kind == Free ==> (a != [] ==> a[|a| - 1].kind != Free) && (b != [] ==> b[0].kind != Free)
    ensures NoTouchingFree(a + [t] + b)
  {
    Touching(a, [t]);
    Touching(a + [t], b);
    OneTile(t, Cell);
  }

  lemma WithoutTileLong(tiles: seq<Tile>, k: nat)
    requires LongTiles(tiles) && k < |tiles| && tiles[k].kind == Cell
    ensures LongTiles(WithoutTile(tiles, k))
  {
    var a, b, r := tiles[..k], tiles[k + 1..], WithoutTile(tiles, k);
    assert forall i :: 0 <= i < |a| ==> a[i] == tiles[i];
    assert forall i :: 0 <= i < |b| ==> b[i] == tiles[i + k + 1];
    assert forall i :: 0 <= i < |r| ==>
        r[i].kind == Free || r[i].len == tiles[k].len || r[i] in a || r[i] in b || r[i] in tiles;
  }

  /** The other cells stay where they are. */
  lemma OtherCellsStay(tiles: seq<Tile>, k: nat, j: nat, from: nat, to: nat) returns (m: nat)
    requires Tiling(tiles, from, to) && k < |tiles| && j < |tiles| && j != k && tiles[j].kind == Cell &&
             tiles[k].kind == Cell
    ensures m < |WithoutTile(tiles, k)| && WithoutTile(tiles, k)[m] == tiles[j]
  {
    hide Tiling, EndFree, FrontFree, EndLen, FrontLen;
    var a, b := tiles[..k], tiles[k + 1..];
    if k == 0 {
      m := FrontKeeps(b, j - 1);
    } else if tiles[k].len < MIN_FREEBLOCK_SIZE {
      m := j;
    } else {
      assert EndLen(a) <= tiles[k].off by {
        TileInside(tiles, from, to, k - 1);
        TilesApart(tiles, from, to, k - 1, k);
        EndIs(a);
      }
      if j < k {
        EndKeeps(a, j);
        m := j;
      } else {
        m := FrontKeeps(b, j - k - 1);
        m := |EndFree(a)| + 1 + m;
      }
    }
  }

  lemma FrontKeeps(b: seq<Tile>, j: nat) returns (m: nat)
    requires j < |b| && b[j].kind == Cell
    ensures m < |FrontFree(b)| && FrontFree(b)[m] == b[j]
  {
    m := if b[0].kind == Free then j - 1 else j;
  }

  lemma EndKeeps(a: seq<Tile>, j: nat)
    requires j < |a| && a[j].kind == Cell
    ensures j < |EndFree(a)| && EndFree(a)[j] == a[j]
  {
  }

  lemma EndIs(a: seq<Tile>)
    requires a != []
    ensures EndLen(a) <= a[|a| - 1].len
  {
  }
}
