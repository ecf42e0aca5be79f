/** Laying a leaf page out from scratch. */
module LeafRebuild {
  import opened Bytes
  import opened LeafLayout
  import opened LeafPage

  /** Where cell `i` goes: the cells end at the end of the page, in order. */
  function CellOff(cells: seq<seq<Byte>>, i: nat, size: nat): (off: nat)
    requires i <= |cells| && TotalLen(cells[i..]) <= size
  {
    size - TotalLen(cells[i..])
  }

  function Stored(off: nat): (v: U16)
    requires off <= 0x1_0000
  {
    if off >= 0x1_0000 then 0 else off
  }

  /** Header, one pointer per cell, and the cells. */
  function Needed(sh: Shape, cells: seq<seq<Byte>>): (n: nat) { PtrBase(sh) + 2 * |cells| + TotalLen(cells) }

  ghost predicate Room(page: seq<Byte>, sh: Shape, cells: seq<seq<Byte>>) { Needed(sh, cells) <= |page| <= 0x1_0000 }

  lemma {:induction false} TailLen(cells: seq<seq<Byte>>, i: nat)
    requires i <= |cells|
    ensures TotalLen(cells[i..]) <= TotalLen(cells)
    ensures i < |cells| ==> TotalLen(cells[i..]) == |cells[i]| + TotalLen(cells[i + 1..])
  {
    TotalLenConcat(cells[..i], cells[i..]);
    assert cells == cells[..i] + cells[i..];
    if i < |cells| { assert cells[i..][1..] == cells[i + 1..]; }
  }

  lemma {:induction false} CellsApart(cells: seq<seq<Byte>>, i: nat, j: nat)
    requires i < j <= |cells|
    ensures TotalLen(cells[i..]) >= |cells[i]| + TotalLen(cells[j..])
    decreases j - i
  {
    TailLen(cells, i);
    if i + 1 < j { CellsApart(cells, i + 1, j); }
  }

  // ----- the image -----

  ghost function PutCells(page: seq<Byte>, sh: Shape, cells: seq<seq<Byte>>, i: nat): (r: seq<Byte>)
    requires Room(page, sh, cells) && i <= |cells|
    ensures |r| == |page|
    decreases |cells| - i
  {
    TailLen(cells, i);
    if i == |cells| then page
    else Put(PutCells(page, sh, cells, i + 1), CellOff(cells, i, |page|), cells[i])
  }

  ghost function PutPtrs(page: seq<Byte>, sh: Shape, cells: seq<seq<Byte>>, m: nat): (r: seq<Byte>)
    requires Room(page, sh, cells) && m <= |cells|
    ensures |r| == |page|
  {
    if m == 0 then page
    else
      TailLen(cells, m - 1);
      Put(PutPtrs(page, sh, cells, m - 1), PtrBase(sh) + 2 * (m - 1), Be16(Stored(CellOff(cells, m - 1, |page|))))
  }

  /** The cleared page with its type byte. */
  function Blank(page: seq<Byte>, sh: Shape, kind: Byte): (r: seq<Byte>)
    requires HasHeader(page, sh)
    ensures |r| == |page|
  {
    page[..sh.hs] + [kind] + Zeros(|page| - sh.hs - 1)
  }

  /** `write_page_common` on a leaf, when the cells fit. */
  ghost function RebuildImage(page: seq<Byte>, sh: Shape, kind: Byte, cells: seq<seq<Byte>>): (r: seq<Byte>)
    requires Room(page, sh, cells)
    ensures |r| == |page|
  {
    var p1 := PutCells(Blank(page, sh, kind), sh, cells, 0);
    var p2 := PutPtrs(p1, sh, cells, |cells|);
    var p3 := Put(p2, sh.hs + 3, Be16(|cells|));
    var p4 := Put(p3, sh.hs + 5, Be16(Stored(|page| - TotalLen(cells))));
    Put(p4, sh.hs + 7, [0])
  }

  // ----- reading it back -----

  lemma {:induction false} PutCellsReads(page: seq<Byte>, sh: Shape, cells: seq<seq<Byte>>, i: nat, j: nat)
    requires Room(page, sh, cells) && i <= j < |cells|
    ensures TotalLen(cells[j..]) <= |page| && CellOff(cells, j, |page|) + |cells[j]| <= |page|
    ensures PutCells(page, sh, cells, i)[CellOff(cells, j, |page|)..CellOff(cells, j, |page|) + |cells[j]|] == cells[j]
    decreases |cells| - i
  {
    hide Put, TotalLen;
    TailLen(cells, i);
    TailLen(cells, j);
    var w, off := PutCells(page, sh, cells, i + 1), CellOff(cells, j, |page|);
    if i < j {
      PutCellsReads(page, sh, cells, i + 1, j);
      CellsApart(cells, i, j);
    }
    PutSlices(w, CellOff(cells, i, |page|), cells[i], off, off + |cells[j]|);
  }

  lemma {:induction false} PutCellsKeeps(page: seq<Byte>, sh: Shape, cells: seq<seq<Byte>>, i: nat, e: nat)
    requires Room(page, sh, cells) && i <= |cells| && TotalLen(cells) <= |page| && e <= |page| - TotalLen(cells)
    ensures PutCells(page, sh, cells, i)[..e] == page[..e]
    decreases |cells| - i
  {
    hide Put, TotalLen;
    if i < |cells| {
      TailLen(cells, i);
      PutCellsKeeps(page, sh, cells, i + 1, e);
      PutSlices(PutCells(page, sh, cells, i + 1), CellOff(cells, i, |page|), cells[i], 0, e);
    }
  }

  lemma {:induction false} PutPtrsReads(page: seq<Byte>, sh: Shape, cells: seq<seq<Byte>>, m: nat, i: nat)
    requires Room(page, sh, cells) && i < m <= |cells|
    ensures TotalLen(cells[i..]) <= |page|
    ensures ReadBe16(PutPtrs(page, sh, cells, m), PtrBase(sh) + 2 * i) == Stored(CellOff(cells, i, |page|))
  {
    hide Put, TotalLen, ReadBe16, Be16;
    TailLen(cells, m - 1);
    TailLen(cells, i);
    if i < m - 1 { PutPtrsReads(page, sh, cells, m - 1, i); }
    PutReads(PutPtrs(page, sh, cells, m - 1), PtrBase(sh) + 2 * (m - 1), Be16(Stored(CellOff(cells, m - 1, |page|))),
      PtrBase(sh) + 2 * i);
  }

  lemma PutPtrsStep(page: seq<Byte>, sh: Shape, cells: seq<seq<Byte>>, m: nat)
    requires Room(page, sh, cells) && m <= |cells|
    ensures m == 0 ==> PutPtrs(page, sh, cells, m) == page
    ensures m > 0 ==> TotalLen(cells[m - 1..]) <= |page|
    ensures m > 0 ==> PutPtrs(page, sh, cells, m) ==
                      Put(PutPtrs(page, sh, cells, m - 1), PtrBase(sh) + 2 * (m - 1),
                        Be16(Stored(CellOff(cells, m - 1, |page|))))
  {
    hide Put, TotalLen, Be16, Stored;
    if m > 0 { TailLen(cells, m - 1); }
  }

  lemma {:induction false} PutPtrsKeeps(page: seq<Byte>, sh: Shape, cells: seq<seq<Byte>>, m: nat, a: nat, e: nat)
    requires Room(page, sh, cells) && m <= |cells| && a <= e <= |page| &&
             (e <= PtrBase(sh) || PtrBase(sh) + 2 * |cells| <= a)
    ensures PutPtrs(page, sh, cells, m)[a..e] == page[a..e]
  {
    hide Put, TotalLen, PutPtrs, Be16, Stored;
    PutPtrsStep(page, sh, cells, m);
    if m > 0 {
      TailLen(cells, m - 1);
      PutPtrsKeeps(page, sh, cells, m - 1, a, e);
      PutSlices(PutPtrs(page, sh, cells, m - 1), PtrBase(sh) + 2 * (m - 1),
        Be16(Stored(CellOff(cells, m - 1, |page|))), a, e);
    }
  }

  lemma RebuildHead(page: seq<Byte>, sh: Shape, kind: Byte, cells: seq<seq<Byte>>)
    requires Room(page, sh, cells)
    ensures var r := RebuildImage(page, sh, kind, cells);
            && PtrsFit(r, sh) && NumCells(r, sh) == |cells| && ContentStart(r, sh) == |page| - TotalLen(cells)
            && FirstFreeblock(r, sh) == 0 && FragBytes(r, sh) == 0 && r[sh.hs] == kind && r[..sh.hs] == page[..sh.hs]
  {
    hide Put, PutCells, PutPtrs, TotalLen, RebuildImage, Blank;
    var b := Blank(page, sh, kind);
    var p1 := PutCells(b, sh, cells, 0);
    var r := RebuildImage(page, sh, kind, cells);
    PutCellsKeeps(b, sh, cells, 0, sh.hs + 3);
    PutPtrsKeeps(p1, sh, cells, |cells|, 0, sh.hs + 3);
    RebuildFields(page, sh, kind, cells);
    BlankHead(page, sh, kind);
    var h := page[..sh.hs] + [kind, 0, 0];
    assert r[..sh.hs + 3] == h;
    assert r[..sh.hs] == r[..sh.hs + 3][..sh.hs] == h[..sh.hs] == page[..sh.hs];
    assert r[sh.hs] == h[sh.hs] && r[sh.hs + 1] == h[sh.hs + 1] && r[sh.hs + 2] == h[sh.hs + 2];
  }

  lemma BlankHead(page: seq<Byte>, sh: Shape, kind: Byte)
    requires HasHeader(page, sh)
    ensures Blank(page, sh, kind)[..sh.hs + 3] == page[..sh.hs] + [kind, 0, 0]
  {
  }

  lemma RebuildFields(page: seq<Byte>, sh: Shape, kind: Byte, cells: seq<seq<Byte>>)
    requires Room(page, sh, cells)
    ensures var r := RebuildImage(page, sh, kind, cells); var p2 := PutPtrs(PutCells(Blank(page, sh, kind), sh, cells,
            0), sh, cells, |cells|);
            && r[..sh.hs + 3] == p2[..sh.hs + 3] && r[PtrBase(sh)..] == p2[PtrBase(sh)..]
            && ReadBe16(r, sh.hs + 3) == |cells| && ReadBe16(r, sh.hs + 5) == Stored(|page| - TotalLen(cells)) &&
               r[sh.hs + 7] == 0
  {
    hide Put, PutCells, PutPtrs, TotalLen, ReadBe16, Be16, Stored;
    var p2 := PutPtrs(PutCells(Blank(page, sh, kind), sh, cells, 0), sh, cells, |cells|);
    var n, c := Be16(|cells|), Be16(Stored(|page| - TotalLen(cells)));
    var p3 := Put(p2, sh.hs + 3, n);
    var p4 := Put(p3, sh.hs + 5, c);
    PutReads(p2, sh.hs + 3, n, sh.hs + 3);
    PutReads(p3, sh.hs + 5, c, sh.hs + 3);
    PutReads(p4, sh.hs + 7, [0], sh.hs + 3);
    PutReads(p3, sh.hs + 5, c, sh.hs + 5);
    PutReads(p4, sh.hs + 7, [0], sh.hs + 5);
  }

  lemma RebuildCell(page: seq<Byte>, sh: Shape, kind: Byte, cells: seq<seq<Byte>>, i: nat)
    requires Room(page, sh, cells) && i < |cells|
    ensures var r := RebuildImage(page, sh, kind, cells);
            && PtrsFit(r, sh) && NumCells(r, sh) == |cells| && TotalLen(cells[i..]) <= |page|
            && CellOff(cells, i, |page|) + |cells[i]| <= |page|
            && Ptr(r, sh, i) == Stored(CellOff(cells, i, |page|))
            && r[CellOff(cells, i, |page|)..CellOff(cells, i, |page|) + |cells[i]|] == cells[i]
  {
    hide Put, PutCells, PutPtrs, TotalLen, RebuildImage, Blank;
    var r, base := RebuildImage(page, sh, kind, cells), PtrBase(sh);
    RebuildHead(page, sh, kind, cells);
    RebuildFields(page, sh, kind, cells);
    TailLen(cells, i);
    TailLen(cells, 0);
    assert cells[0..] == cells;
    var p1 := PutCells(Blank(page, sh, kind), sh, cells, 0);
    var p2 := PutPtrs(p1, sh, cells, |cells|);
    var off := CellOff(cells, i, |page|);
    var e := off + |cells[i]|;
    PutPtrsReads(p1, sh, cells, |cells|, i);
    var x := base + 2 * i;
    assert r[x] == r[base..][2 * i] && r[x + 1] == r[base..][2 * i + 1] && p2[x] == p2[base..][2 * i] &&
           p2[x + 1] == p2[base..][2 * i + 1];
    PutCellsReads(Blank(page, sh, kind), sh, cells, 0, i);
    PutPtrsKeeps(p1, sh, cells, |cells|, off, e);
    assert r[off..e] == r[base..][off - base..e - base] == p2[base..][off - base..e - base] == p2[off..e];
  }

  // ----- well-formedness -----

  /** One cell after another to the end of the page. */
  function LaidTiles(cells: seq<seq<Byte>>, from: nat): (r: seq<Tile>)
    ensures |r| == |cells|
  {
    if cells == [] then [] else [Tile(from, |cells[0]|, Cell)] + LaidTiles(cells[1..], from + |cells[0]|)
  }

  lemma {:induction false} LaidTilesTile(cells: seq<seq<Byte>>, from: nat)
    requires forall i :: 0 <= i < |cells| ==> |cells[i]| >= 1
    ensures var t := LaidTiles(cells, from);
            && Tiling(t, from, from + TotalLen(cells)) && CountOf(t, Cell) == |cells| &&
               SumOf(t, Cell) == TotalLen(cells)
            && SumOf(t, Frag) == 0 && FreeBlocks(t) == []
            && forall i :: 0 <= i < |t| ==> t[i].kind == Cell
  {
    if cells != [] {
      var t := LaidTiles(cells, from);
      LaidTilesTile(cells[1..], from + |cells[0]|);
      assert t[1..] == LaidTiles(cells[1..], from + |cells[0]|);
      forall i | 0 <= i < |t| ensures t[i].kind == Cell { if i > 0 { assert t[i] == t[1..][i - 1]; } }
    }
  }

  lemma {:induction false} LaidTileAt(cells: seq<seq<Byte>>, from: nat, i: nat)
    requires i < |cells|
    ensures TotalLen(cells[i..]) <= TotalLen(cells)
    ensures LaidTiles(cells, from)[i] == Tile(from + TotalLen(cells) - TotalLen(cells[i..]), |cells[i]|, Cell)
  {
    TailLen(cells, i);
    if i > 0 {
      LaidTileAt(cells[1..], from + |cells[0]|, i - 1);
      assert cells[1..][i - 1..] == cells[i..];
    }
  }

  ghost predicate AllValid(cells: seq<seq<Byte>>, sh: Shape) {
    forall i :: 0 <= i < |cells| ==> ValidCell(cells[i], sh.usable, sh.hasRowid)
  }

  /** A cell stored whole at `p` is the cell read at `p`. */
  lemma StoredCell(r: seq<Byte>, sh: Shape, t: seq<Tile>, i: nat, p: nat, c: seq<Byte>)
    requires p + |c| <= |r| && r[p..p + |c|] == c && ValidCell(c, sh.usable, sh.hasRowid)
    requires i < |t| && t[i] == Tile(p, |c|, Cell)
    ensures CellTile(r, sh, t, p, i) && CellAt(r, sh, p) == c
  {
    hide CellLen;
    assert r[p..][..|c|] == r[p..p + |c|] == c && c[..|c|] == c;
    CellLenLocal(c, r[p..], sh.usable, sh.hasRowid);
  }

  lemma RebuiltPtr(page: seq<Byte>, sh: Shape, kind: Byte, cells: seq<seq<Byte>>, i: nat)
    requires Room(page, sh, cells) && AllValid(cells, sh) && i < |cells|
    ensures var r, t := RebuildImage(page, sh, kind, cells), LaidTiles(cells, |page| - TotalLen(cells));
            && PtrsFit(r, sh) && NumCells(r, sh) == |cells| && CellTile(r, sh, t, Ptr(r, sh, i), i)
            && Ptr(r, sh, i) == |page| - TotalLen(cells[i..])
            && CellAt(r, sh, Ptr(r, sh, i)) == cells[i]
  {
    hide RebuildImage, CellLen, TotalLen, LaidTiles, ReadBe16, CellAt, AllValid, ValidCell, CellTile;
    var r, p := RebuildImage(page, sh, kind, cells), |page| - TotalLen(cells[i..]);
    RebuildCell(page, sh, kind, cells, i);
    LaidTileAt(cells, |page| - TotalLen(cells), i);
    CellNonempty(cells, sh, i);
    assert Ptr(r, sh, i) == p;
    StoredCell(r, sh, LaidTiles(cells, |page| - TotalLen(cells)), i, p, cells[i]);
  }

  lemma RebuiltCells(page: seq<Byte>, sh: Shape, kind: Byte, cells: seq<seq<Byte>>)
    requires Room(page, sh, cells) && AllValid(cells, sh)
    ensures var r, t := RebuildImage(page, sh, kind, cells), LaidTiles(cells, |page| - TotalLen(cells));
            && PtrsFit(r, sh) && NumCells(r, sh) == |cells| && Cells(r, sh) == cells && PtrsDistinct(r, sh)
            && (forall i :: 0 <= i < |cells| ==> PtrOk(r, sh, t, i))
  {
    hide RebuildImage, CellLen, TotalLen, CellTile, CellAt, LaidTiles, ReadBe16, AllValid;
    var r := RebuildImage(page, sh, kind, cells);
    var t := LaidTiles(cells, |page| - TotalLen(cells));
    RebuildHead(page, sh, kind, cells);
    forall i | 0 <= i < |cells|
      ensures PtrOk(r, sh, t, i) && CellAt(r, sh, Ptr(r, sh, i)) == cells[i] &&
              Ptr(r, sh, i) == |page| - TotalLen(cells[i..])
    {
      RebuiltPtr(page, sh, kind, cells, i);
      assert CellTile(r, sh, t, Ptr(r, sh, i), i);
    }
    forall i, j | 0 <= i < j < |cells| ensures Ptr(r, sh, i) != Ptr(r, sh, j) {
      CellsApart(cells, i, j);
      assert |cells[i]| >= 1 by { CellNonempty(cells, sh, i); }
    }
    assert Cells(r, sh) == cells;
  }

  lemma CellNonempty(cells: seq<seq<Byte>>, sh: Shape, i: nat)
    requires AllValid(cells, sh) && i < |cells|
    ensures |cells[i]| >= 1 && ValidCell(cells[i], sh.usable, sh.hasRowid)
  {
    hide CellLen;
    assert ValidCell(cells[i], sh.usable, sh.hasRowid);
  }

  /** A rebuilt page is well formed, holds exactly the given cells, has no free space inside its
      content area, and keeps the bytes before its header. */
  lemma RebuildSound(page: seq<Byte>, sh: Shape, kind: Byte, cells: seq<seq<Byte>>)
    requires Room(page, sh, cells) && AllValid(cells, sh)
    ensures var r, t := RebuildImage(page, sh, kind, cells), LaidTiles(cells, |page| - TotalLen(cells));
            && Sound(r, sh, t) && Conserved(r, sh, t) && Cells(r, sh) == cells
            && r[..sh.hs] == page[..sh.hs] && r[sh.hs] == kind
  {
    hide RebuildImage, TotalLen, PtrOk, Tiling, SumOf, CountOf, FreeBlocks, LaidTiles, Cells, PtrsDistinct, AllValid;
    hide ReadBe16;
    var r, from := RebuildImage(page, sh, kind, cells), |page| - TotalLen(cells);
    RebuildHead(page, sh, kind, cells);
    forall i | 0 <= i < |cells| ensures |cells[i]| >= 1 { CellNonempty(cells, sh, i); }
    LaidTilesTile(cells, from);
    assert NoTouchingFree(LaidTiles(cells, from));
    hide NoTouchingFree;
    RebuiltCells(page, sh, kind, cells);
  }
}
