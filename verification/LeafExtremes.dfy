/** Pages that reach the two limits of leaf editing: the fragment counter and the freeblock cap. */
module LeafExtremes {
  import opened Bytes
  import opened LeafLayout
  import opened LeafPage
  import opened LeafEdits
  import opened LeafDelete
  import opened LeafRebuild
  import opened LeafOps

  /** Table cells of two, three and four bytes: a payload length, a rowid, and the payload. */
  const TWO: seq<Byte> := [0, 1]
  const THREE: seq<Byte> := [1, 1, 0]
  const FOUR: seq<Byte> := [2, 1, 0, 0]

  lemma SmallCells(usable: nat)
    requires usable >= 512
    ensures ValidCell(TWO, usable, true) && ValidCell(THREE, usable, true) && ValidCell(FOUR, usable, true)
  {
    assert TWO[1..] == [1] && THREE[1..] == [1, 0] && FOUR[1..] == [1, 0, 0];
  }

  /** One cell at the start of the content area, and nothing else but free space. */
  ghost predicate OneCell(tiles: seq<Tile>, len: nat) {
    tiles != [] && tiles[0].kind == Cell && tiles[0].len == len && forall k :: 0 < k < |tiles| ==> tiles[k].kind != Cell
  }

  lemma FirstTile(page: seq<Byte>, sh: Shape, tiles: seq<Tile>)
    requires Sound(page, sh, tiles) && tiles != []
    ensures tiles[0].off == ContentStart(page, sh)
  {
    hide ChainIs, PtrOk, PtrsDistinct, Cells, CountOf, SumOf, TotalLen, FreeBlocks;
  }

  lemma OneCellPage(r: seq<Byte>, page: seq<Byte>, sh: Shape, kind: Byte, cell: seq<Byte>)
    requires Rebuilt(r, page, sh, kind, [cell])
    ensures var t := [Tile(|page| - |cell|, |cell|, Cell)];
            && |cell| <= |page| && Sound(r, sh, t) && Conserved(r, sh, t) && Cells(r, sh) == [cell] &&
               ContentStart(r, sh) == |page| - |cell|
            && OneCell(t, |cell|) && SumOf(t, Frag) == 0 && CountOf(t, Free) == 0
  {
    hide Sound, Conserved, Cells;
    assert [cell][1..] == [] && TotalLen([cell]) == |cell|;
    var t := LaidTiles([cell], |page| - |cell|);
    assert t == [Tile(|page| - |cell|, |cell|, Cell)] by { assert LaidTiles([], |page|) == []; }
    FirstTile(r, sh, t);
    OneTile(t[0], Frag);
    OneTile(t[0], Free);
  }

  /** A pointer other than the one to the start of the content area. */
  method LaterCell(page: seq<Byte>, sh: Shape, ghost tiles: seq<Tile>) returns (i: nat)
    requires Sound(page, sh, tiles) && NumCells(page, sh) == 2
    ensures i < 2 && Ptr(page, sh, i) != ContentStart(page, sh)
  {
    hide Tiling, ChainIs, PtrOk, Cells, CountOf, SumOf, TotalLen, FreeBlocks;
    i := if Ptr(page, sh, 0) == ContentStart(page, sh) then 1 else 0;
  }

  // ----- the fragment counter -----

  lemma FragmentTiles(tiles: seq<Tile>, t: Tile)
    requires OneCell(tiles, 3) && t.kind == Cell && t.len == 3
    ensures var r := WithoutTile([t] + tiles, 1);
            && r == [t, tiles[0].(kind := Frag)] + tiles[1..] && OneCell(r, 3) &&
               SumOf(r, Frag) == SumOf(tiles, Frag) + 3
  {
    var both := [t] + tiles;
    assert both[..1] == [t] && both[2..] == tiles[1..];
    var r := [t, tiles[0].(kind := Frag)] + tiles[1..];
    assert r[1..][1..] == tiles[1..];
    assert r[1..][0] == tiles[0].(kind := Frag);
  }

  /** An insertion at the front that fits. */
  method AddFirst(buf: array<Byte>, sh: Shape, cell: seq<Byte>, ghost tiles: seq<Tile>) returns (ghost left: seq<Tile>)
    requires Sound(buf[..], sh, tiles) && ValidCell(cell, sh.usable, sh.hasRowid) && Fits(buf[..], sh, cell)
    modifies buf
    ensures Sound(buf[..], sh, left) && Cells(buf[..], sh) == [cell] + Cells(old(buf[..]), sh)
    ensures ContentStart(buf[..], sh) == ContentStart(old(buf[..]), sh) - |cell|
    ensures left == [Tile(ContentStart(buf[..], sh), |cell|, Cell)] + tiles
    ensures Conserved(old(buf[..]), sh, tiles) ==> Conserved(buf[..], sh, left)
  {
    hide Sound, Conserved, Cells, ValidCell, ReadBe16;
    ghost var page := buf[..];
    SoundFits(page, sh, tiles);
    left := [NewTile(page, sh, cell)] + tiles;
    var done := SpliceInsert(buf, sh, 0, cell, tiles);
    assert InsertAt(Cells(page, sh), 0, cell) == [cell] + Cells(page, sh);
    FirstTile(buf[..], sh, left);
  }

  /** What deleting a fragment-sized cell past the first does. */
  ghost predicate Deleted(r: seq<Byte>, page: seq<Byte>, sh: Shape, tiles: seq<Tile>, i: nat, k: nat) {
    && Sound(page, sh, tiles) && i < NumCells(page, sh) && k < |tiles|
    && WithoutCell(r, page, sh, i, WithoutTile(tiles, k))
    && (Conserved(page, sh, tiles) ==>
          (Conserved(r, sh, WithoutTile(tiles, k)) <==>
              !(tiles[k].len < 4 && FragBytes(page, sh) as int + tiles[k].len > 255)))
  }

  /** Of two cells, deletes the one that is not first in the content area. */
  method DropLater(buf: array<Byte>, sh: Shape, ghost tiles: seq<Tile>) returns (ghost i: nat, ghost k: nat)
    requires Sound(buf[..], sh, tiles) && NumCells(buf[..], sh) == 2
    requires forall j :: 0 < j < |tiles| && tiles[j].kind == Cell ==> tiles[j].len < 4
    modifies buf
    ensures 0 < k < |tiles| && tiles[k].kind == Cell && i < 2 && Deleted(buf[..], old(buf[..]), sh, tiles, i, k)
  {
    hide Sound, Conserved, Cells, WithoutCell, ReadBe16, CellLen;
    ghost var page := buf[..];
    SoundFits(page, sh, tiles);
    var j := LaterCell(buf[..], sh, tiles);
    var ok;
    ok, k := SpliceDelete(buf, sh, j, tiles);
    FirstTile(page, sh, tiles);
    i := j;
  }

  /** Adds a three-byte cell and deletes the one before it, which leaves three fragment bytes. */
  method Fragment(buf: array<Byte>, sh: Shape, ghost tiles: seq<Tile>) returns (ghost left: seq<Tile>)
    requires sh.hasRowid && sh.usable >= 512
    requires Sound(buf[..], sh, tiles) && OneCell(tiles, 3) && Cells(buf[..], sh) == [THREE]
    requires ContentStart(buf[..], sh) >= PtrBase(sh) + 7
    modifies buf
    ensures Sound(buf[..], sh, left) && OneCell(left, 3) && Cells(buf[..], sh) == [THREE]
    ensures ContentStart(buf[..], sh) == ContentStart(old(buf[..]), sh) - 3 &&
            SumOf(left, Frag) == SumOf(tiles, Frag) + 3
    ensures Conserved(old(buf[..]), sh, tiles) ==>
              (Conserved(buf[..], sh, left) <==> FragBytes(old(buf[..]), sh) as int + 3 <= 255)
  {
    hide Sound, Conserved, ReadBe16, CellLen, SumOf, WithoutTile, Cells;
    ghost var page := buf[..];
    SoundFits(page, sh, tiles);
    SmallCells(sh.usable);
    ghost var both := AddFirst(buf, sh, THREE, tiles);
    ghost var mid := buf[..];
    SoundFits(mid, sh, both);
    FragmentTiles(tiles, both[0]);
    if Conserved(page, sh, tiles) { FragKept(mid, page, sh, both, tiles); }
    ghost var i, k := DropLater(buf, sh, both);
    assert k == 1;
    left := WithoutTile(both, 1);
    FirstTile(buf[..], sh, left);
    assert RemoveAt([THREE, THREE], i) == [THREE];
  }

  lemma FragKept(mid: seq<Byte>, page: seq<Byte>, sh: Shape, both: seq<Tile>, tiles: seq<Tile>)
    requires HasHeader(mid, sh) && HasHeader(page, sh) && both != [] && both[0].kind == Cell && both[1..] == tiles
    requires Conserved(page, sh, tiles) && Conserved(mid, sh, both)
    ensures FragBytes(mid, sh) == FragBytes(page, sh)
  {
  }

  /** After 85 such rounds the counter stands at 255 and is true; the next one saturates it, and three
      bytes of the content area are no longer accounted for. */
  method SaturateCounter(buf: array<Byte>) returns (ghost tiles: seq<Tile>)
    requires buf.Length == 512
    modifies buf
    ensures var sh := Shape(0, 512, true);
            && Sound(buf[..], sh, tiles) && SumOf(tiles, Frag) == 258 && FragBytes(buf[..], sh) <= 255
            && !Conserved(buf[..], sh, tiles)
  {
    hide Sound, Conserved, Cells, ReadBe16, SumOf, CellLen, Rebuilt;
    var sh := Shape(0, 512, true);
    SmallCells(512);
    ghost var page := buf[..];
    ThreeFits(sh);
    var ok := Rebuild(buf, sh, LeafKind(sh), [THREE]);
    OneCellPage(buf[..], page, sh, LeafKind(sh), THREE);
    tiles := [Tile(509, 3, Cell)];
    var n := 0;
    while n < 85
      invariant n <= 85 && Sound(buf[..], sh, tiles) && PtrsFit(buf[..], sh) && Conserved(buf[..], sh, tiles) &&
                OneCell(tiles, 3)
      invariant Cells(buf[..], sh) == [THREE] && ContentStart(buf[..], sh) == 509 - 3 * n && SumOf(tiles, Frag) == 3 * n
    {
      CounterIs(buf[..], sh, tiles);
      tiles := Fragment(buf, sh, tiles);
      SoundFits(buf[..], sh, tiles);
      n := n + 1;
    }
    CounterIs(buf[..], sh, tiles);
    tiles := Fragment(buf, sh, tiles);
    SoundFits(buf[..], sh, tiles);
  }

  lemma CounterIs(page: seq<Byte>, sh: Shape, tiles: seq<Tile>)
    requires HasHeader(page, sh) && Conserved(page, sh, tiles)
    ensures FragBytes(page, sh) == SumOf(tiles, Frag)
  {
  }

  lemma ThreeFits(sh: Shape)
    requires ValidCell(THREE, sh.usable, sh.hasRowid)
    ensures AllValid([THREE], sh) && Needed(sh, [THREE]) == PtrBase(sh) + 5
  {
    OneLen(THREE);
  }

  lemma OneLen(c: seq<Byte>)
    ensures TotalLen([c]) == |c|
  {
    assert [c][1..] == [];
  }

  // ----- the freeblock cap -----

  ghost predicate Crowd(tiles: seq<Tile>, n: nat) { OneCell(tiles, 2) && CountOf(tiles, Free) == n }

  /** A two-byte cell over a four-byte one over the rest; then with the four-byte one freed; then with
      the cell below it turned into a fragment. */
  function Stacked(tiles: seq<Tile>, off: nat): seq<Tile> { [Tile(off, 2, Cell), Tile(off + 2, 4, Cell)] + tiles }

  function Opened(tiles: seq<Tile>, off: nat): seq<Tile> { [Tile(off, 2, Cell), Tile(off + 2, 4, Free)] + tiles }

  function Walled(tiles: seq<Tile>, off: nat): seq<Tile>
    requires tiles != []
  {
    [Tile(off, 2, Cell), Tile(off + 2, 4, Free), tiles[0].(kind := Frag)] + tiles[1..]
  }

  lemma FreeCount(a: Tile, b: Tile, rest: seq<Tile>)
    ensures CountOf([a, b] + rest, Free) == (if a.kind == Free then 1 else 0) + (if b.kind == Free then 1 else 0) +
            CountOf(rest, Free)
  {
    var s := [a, b] + rest;
    assert s[1..][1..] == rest;
  }

  lemma CrowdTiles(tiles: seq<Tile>, off: nat, n: nat)
    requires Crowd(tiles, n)
    ensures CountOf(Stacked(tiles, off), Free) == n
    ensures WithoutTile(Stacked(tiles, off), 1) == Opened(tiles, off) &&
            WithoutTile(Opened(tiles, off), 2) == Walled(tiles, off)
    ensures Crowd(Walled(tiles, off), n + 1)
  {
    var s, o, w := Stacked(tiles, off), Opened(tiles, off), Walled(tiles, off);
    FreeCount(s[0], s[1], tiles);
    assert s == [s[0], s[1]] + tiles;
    assert s[..1] == [s[0]] && s[2..] == tiles;
    assert WithoutTile(s, 1) == [s[0]] + [Tile(off + 2, 4, Free)] + tiles;
    assert o[..2] == [o[0], o[1]] && o[3..] == tiles[1..];
    FreeCount(w[0], w[1], w[2..]);
    assert w == [w[0], w[1]] + w[2..] && w[2..][1..] == tiles[1..];
  }

  /** One more freeblock: a four-byte cell is added, walled in by a two-byte one, and freed; then the
      two-byte cell before it is deleted. */
  method CrowdMore(buf: array<Byte>, sh: Shape, ghost tiles: seq<Tile>, ghost n: nat) returns (ghost left: seq<Tile>)
    requires sh.hasRowid && sh.usable >= 512 && n <= MAX_FREEBLOCKS
    requires Sound(buf[..], sh, tiles) && Crowd(tiles, n) && Cells(buf[..], sh) == [TWO]
    requires ContentStart(buf[..], sh) >= PtrBase(sh) + 14
    modifies buf
    ensures Sound(buf[..], sh, left) && Crowd(left, n + 1) && Cells(buf[..], sh) == [TWO]
    ensures ContentStart(buf[..], sh) == ContentStart(old(buf[..]), sh) - 6
  {
    hide Sound, Conserved, ReadBe16, CellLen, CountOf, WithoutTile, Cells;
    SoundFits(buf[..], sh, tiles);
    SmallCells(sh.usable);
    ghost var off := ContentStart(buf[..], sh) - 6;
    ghost var t1 := AddFirst(buf, sh, FOUR, tiles);
    SoundFits(buf[..], sh, t1);
    ghost var t2 := AddFirst(buf, sh, TWO, t1);
    SoundFits(buf[..], sh, t2);
    assert t2 == Stacked(tiles, off);
    CrowdTiles(tiles, off, n);
    DropFour(buf, sh, t2, tiles);
    SoundFits(buf[..], sh, Opened(tiles, off));
    ghost var i, k := DropLater(buf, sh, Opened(tiles, off));
    assert k == 2;
    left := Walled(tiles, off);
    FirstTile(buf[..], sh, left);
    assert RemoveAt([TWO, TWO], i) == [TWO];
  }

  method DropFour(buf: array<Byte>, sh: Shape, ghost t: seq<Tile>, ghost tiles: seq<Tile>)
    requires Sound(buf[..], sh, t) && OneCell(tiles, 2) && CountOf(t, Free) <= MAX_FREEBLOCKS
    requires |t| >= 2 && t[0].len == 2 && t[1].len == 4 && t[2..] == tiles && Cells(buf[..], sh) == [TWO, FOUR, TWO]
    modifies buf
    ensures Sound(buf[..], sh, WithoutTile(t, 1)) && Cells(buf[..], sh) == [TWO, TWO]
  {
    hide Sound, Conserved, ReadBe16, CountOf, WithoutTile, FreeBlocks;
    ghost var page := buf[..];
    SoundFits(page, sh, t);
    TotalSplits(t);
    var ok;
    ghost var k;
    ok, k := SpliceDelete(buf, sh, 1, t);
    assert Cells(page, sh)[1] == CellAt(page, sh, Ptr(page, sh, 1)) == FOUR;
    assert t[k].len == 4;
    assert forall j :: 0 <= j < |tiles| ==> tiles[j] == t[j + 2];
    assert k == 1;
    assert RemoveAt([TWO, FOUR, TWO], 1) == [TWO, TWO];
  }

  /** On a page of 65536 bytes, after 10001 such rounds, deleting the one cell left is stuck. */
  method CrowdPage(buf: array<Byte>) returns (ghost tiles: seq<Tile>)
    requires buf.Length == 65536
    modifies buf
    ensures var sh := Shape(0, 65536, true);
            && Sound(buf[..], sh, tiles) && Cells(buf[..], sh) == [TWO] && Stuck(buf[..], sh, tiles, Delete(0))
  {
    hide Sound, Conserved, Cells, ReadBe16, CountOf, CellLen, Rebuilt;
    var sh := Shape(0, 65536, true);
    SmallCells(65536);
    ghost var page := buf[..];
    TwoFits(sh);
    var ok := Rebuild(buf, sh, LeafKind(sh), [TWO]);
    OneCellPage(buf[..], page, sh, LeafKind(sh), TWO);
    tiles := [Tile(65534, 2, Cell)];
    var n := 0;
    while n <= MAX_FREEBLOCKS
      invariant n <= MAX_FREEBLOCKS + 1 && Sound(buf[..], sh, tiles) && PtrsFit(buf[..], sh) && Crowd(tiles, n)
      invariant Cells(buf[..], sh) == [TWO] && ContentStart(buf[..], sh) == 65534 - 6 * n
    {
      tiles := CrowdMore(buf, sh, tiles, n);
      SoundFits(buf[..], sh, tiles);
      n := n + 1;
    }
    CrowdStuck(buf[..], sh, tiles, n);
  }

  lemma TwoFits(sh: Shape)
    requires ValidCell(TWO, sh.usable, sh.hasRowid)
    ensures AllValid([TWO], sh) && Needed(sh, [TWO]) == PtrBase(sh) + 4
  {
    OneLen(TWO);
  }

  lemma CrowdStuck(page: seq<Byte>, sh: Shape, tiles: seq<Tile>, n: nat)
    requires Sound(page, sh, tiles) && Crowd(tiles, n) && n > MAX_FREEBLOCKS && PtrsFit(page, sh) &&
             Cells(page, sh) == [TWO]
    ensures Stuck(page, sh, tiles, Delete(0))
  {
    hide Sound, Cells, CountOf, FreeBlocks, ReadBe16, CellLen;
    TotalSplits(tiles);
    FirstTile(page, sh, tiles);
    var k := PtrTile(page, sh, tiles, 0);
  }
}
