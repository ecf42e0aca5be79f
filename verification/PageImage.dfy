/** A freshly laid-out b-tree page as one byte string: what the writer leaves and what the readers find. */
module PageImage {
  import opened Bytes
  import opened Overflow
  import opened LeafPage
  import opened LeafRebuild
  import opened TablePage
  import opened LeafOps

  // ----- the closed form -----

  predicate Roomy(base: nat, cells: seq<seq<Byte>>, size: nat) {
    base + 2 * |cells| + TotalLen(cells) <= size <= 0x1_0000
  }

  /** Type, no freeblock, cell count, content start, no fragments. */
  function Fields(kind: Byte, n: seq<Byte>, c: seq<Byte>): (r: seq<Byte>) { [kind, 0, 0] + n + c + [0] }

  function Header(kind: Byte, cells: seq<seq<Byte>>, size: nat): (r: seq<Byte>)
    requires Roomy(0, cells, size) && |cells| < 0x1_0000
    ensures |r| == 8
  {
    Fields(kind, Be16(|cells|), Be16(Stored(size - TotalLen(cells))))
  }

  /** The pointers to the first `m` cells. */
  function Pointers(cells: seq<seq<Byte>>, size: nat, m: nat): (r: seq<Byte>)
    requires Roomy(0, cells, size) && m <= |cells|
    ensures |r| == 2 * m
  {
    if m == 0 then []
    else
      TailLen(cells, m - 1);
      Pointers(cells, size, m - 1) + Be16(Stored(CellOff(cells, m - 1, size)))
  }

  /** Pointers, zeros, and the cells one after another to the end of the page. */
  function Body(cells: seq<seq<Byte>>, size: nat, base: nat): (r: seq<Byte>)
    requires Roomy(base, cells, size)
    ensures |r| == size - base
  {
    JoinLen(cells);
    Pointers(cells, size, |cells|) + Zeros(size - base - 2 * |cells| - TotalLen(cells)) + Join(cells)
  }

  function Assembled(before: seq<Byte>, header: seq<Byte>, right: seq<Byte>, body: seq<Byte>): (r: seq<Byte>)
    ensures |r| == |before| + |header| + |right| + |body|
  {
    before + (header + (right + body))
  }

  /** The page: what came before the header, the header, an interior page's rightmost child, the body. */
  function Image(before: seq<Byte>, kind: Byte, right: seq<Byte>, cells: seq<seq<Byte>>, size: nat): (r: seq<Byte>)
    requires Roomy(|before| + 8 + |right|, cells, size)
    ensures |r| == size
  {
    Assembled(before, Header(kind, cells, size), right, Body(cells, size, |before| + 8 + |right|))
  }

  lemma {:induction false} JoinLen(cells: seq<seq<Byte>>)
    ensures |Join(cells)| == TotalLen(cells)
  {
    if cells != [] { JoinLen(cells[1..]); }
  }

  lemma {:induction false} JoinFrom(cells: seq<seq<Byte>>, i: nat)
    requires i <= |cells|
    ensures TotalLen(cells[i..]) <= TotalLen(cells) == |Join(cells)|
    ensures Join(cells)[TotalLen(cells) - TotalLen(cells[i..])..] == Join(cells[i..])
  {
    JoinLen(cells);
    if i == 0 {
      assert cells[0..] == cells;
    } else {
      JoinFrom(cells[1..], i - 1);
      assert cells[1..][i - 1..] == cells[i..];
      var k := TotalLen(cells[1..]) - TotalLen(cells[i..]);
      assert Join(cells)[|cells[0]| + k..] == Join(cells[1..])[k..];
    }
  }

  lemma {:induction false} PointerAt(cells: seq<seq<Byte>>, size: nat, m: nat, i: nat)
    requires Roomy(0, cells, size) && i < m <= |cells|
    ensures TotalLen(cells[i..]) <= size
    ensures Pointers(cells, size, m)[2 * i..2 * i + 2] == Be16(Stored(CellOff(cells, i, size)))
  {
    hide TotalLen, Be16, Stored;
    TailLen(cells, m - 1);
    var p := Pointers(cells, size, m - 1);
    if i < m - 1 {
      PointerAt(cells, size, m - 1, i);
      assert Pointers(cells, size, m)[2 * i..2 * i + 2] == p[2 * i..2 * i + 2];
    }
  }

  // ----- reading it -----

  /** The type byte and the cell count. */
  lemma ImageHead(before: seq<Byte>, kind: Byte, right: seq<Byte>, cells: seq<seq<Byte>>, size: nat)
    requires Roomy(|before| + 8 + |right|, cells, size)
    ensures var p, hs := Image(before, kind, right, cells, size), |before|;
            && p[..hs] == before && PageType(p, hs) == Ok(kind) && CellCount(p, hs) == Ok(|cells|)
  {
    hide Be16, TotalLen, Body, Stored, ReadBe16;
    var p, hs, h := Image(before, kind, right, cells, size), |before|, Header(kind, cells, size);
    assert p[hs..hs + 8] == h;
    assert p[hs] == p[hs..hs + 8][0] && p[hs + 3..hs + 5] == p[hs..hs + 8][3..5] == h[3..5] == Be16(|cells|);
    ReadBe16Of(p, hs + 3, |cells|);
  }

  lemma ImageRight(before: seq<Byte>, kind: Byte, right: U32, cells: seq<seq<Byte>>, size: nat)
    requires Roomy(|before| + 12, cells, size)
    ensures Rightmost(Image(before, kind, Be32(right), cells, size), |before|) == Ok(right)
  {
    hide Be32, TotalLen, Body, Header, ReadBe32;
    var p, x := Image(before, kind, Be32(right), cells, size), |before| + 8;
    assert p[x..x + 4] == Be32(right);
    ReadBe32Of(p, x, right);
  }

  /** Pointer `i` leads to cell `i`, and the cells after it follow. */
  lemma ImageCell(before: seq<Byte>, kind: Byte, right: seq<Byte>, cells: seq<seq<Byte>>, size: nat, i: nat)
    requires Roomy(|before| + 8 + |right|, cells, size) && i < |cells| && cells[i] != []
    ensures var p, base := Image(before, kind, right, cells, size), |before| + 8 + |right|;
            && TotalLen(cells[i..]) <= size && CellPtr(p, base, i) == Ok(CellOff(cells, i, size))
            && p[CellOff(cells, i, size)..] == cells[i] + Join(cells[i + 1..])
  {
    hide Be16, TotalLen, Header, Pointers, ReadBe16;
    var p, base := Image(before, kind, right, cells, size), |before| + 8 + |right|;
    TailLen(cells, i);
    var off, ptrs := CellOff(cells, i, size), Pointers(cells, size, |cells|);
    assert p[base..] == Body(cells, size, base);
    assert p[base + 2 * i..base + 2 * i + 2] == p[base..][2 * i..2 * i + 2] == ptrs[2 * i..2 * i + 2];
    PointerAt(cells, size, |cells|, i);
    ReadBe16Of(p, base + 2 * i, Stored(off));
    JoinFrom(cells, i);
    assert p[size - TotalLen(cells)..] == Join(cells);
    assert p[off..] == p[size - TotalLen(cells)..][off - (size - TotalLen(cells))..] == Join(cells[i..]);
    assert cells[i..] == [cells[i]] + cells[i + 1..];
  }

  // ----- writing it -----

  lemma {:induction false} PutCellsIs(page: seq<Byte>, sh: Shape, cells: seq<seq<Byte>>, i: nat)
    requires Room(page, sh, cells) && i <= |cells|
    ensures TotalLen(cells[i..]) <= |page|
    ensures PutCells(page, sh, cells, i) == page[..|page| - TotalLen(cells[i..])] + Join(cells[i..])
    decreases |cells| - i
  {
    hide TotalLen;
    TailLen(cells, i);
    JoinLen(cells[i..]);
    if i == |cells| {
      assert cells[i..] == [] && page[..|page|] == page;
    } else {
      PutCellsIs(page, sh, cells, i + 1);
      assert cells[i..] == [cells[i]] + cells[i + 1..];
    }
  }

  lemma {:induction false} PutPtrsAre(page: seq<Byte>, sh: Shape, cells: seq<seq<Byte>>, m: nat)
    requires Room(page, sh, cells) && m <= |cells|
    ensures PutPtrs(page, sh, cells, m) ==
            page[..PtrBase(sh)] + Pointers(cells, |page|, m) + page[PtrBase(sh) + 2 * m..]
  {
    hide TotalLen, Be16, Stored, PutPtrs;
    PutPtrsStep(page, sh, cells, m);
    if m == 0 {
      assert page == page[..PtrBase(sh)] + page[PtrBase(sh)..];
    } else {
      PutPtrsAre(page, sh, cells, m - 1);
    }
  }

  /** Cells and pointers written over zeros. */
  lemma LaidOut(page: seq<Byte>, sh: Shape, cells: seq<seq<Byte>>)
    requires Room(page, sh, cells) && page[PtrBase(sh)..] == Zeros(|page| - PtrBase(sh))
    ensures PutPtrs(PutCells(page, sh, cells, 0), sh, cells, |cells|) ==
            page[..PtrBase(sh)] + Body(cells, |page|, PtrBase(sh))
  {
    hide TotalLen, PutCells, PutPtrs, Pointers, Join, Zeros;
    var n, base, start := |cells|, PtrBase(sh), |page| - TotalLen(cells);
    var p, ptrs := PutCells(page, sh, cells, 0), Pointers(cells, |page|, |cells|);
    assert p == page[..start] + Join(cells) by {
      assert cells[0..] == cells;
      PutCellsIs(page, sh, cells, 0);
    }
    JoinLen(cells);
    PutPtrsAre(p, sh, cells, n);
    BetweenZeros(page, base, start, ptrs, Join(cells), start - base - 2 * n, p);
  }

  lemma BetweenZeros(page: seq<Byte>, base: nat, start: nat, ptrs: seq<Byte>, tail: seq<Byte>, gap: nat, p: seq<Byte>)
    requires base + |ptrs| + gap == start <= |page| && page[base..] == Zeros(|page| - base) && p == page[..start] + tail
    ensures p[..base] + ptrs + p[base + |ptrs|..] == page[..base] + (ptrs + Zeros(gap) + tail)
  {
    var k := base + |ptrs|;
    assert page[k..start] == Zeros(gap) by {
      forall x | k <= x < start ensures page[x] == 0 { assert page[x] == page[base..][x - base]; }
    }
    assert p[k..] == page[k..start] + tail;
  }

  /** What `write_page_common` leaves on a leaf, byte for byte. */
  lemma RebuildIsImage(page: seq<Byte>, sh: Shape, kind: Byte, cells: seq<seq<Byte>>)
    requires Room(page, sh, cells)
    ensures RebuildImage(page, sh, kind, cells) == Image(page[..sh.hs], kind, [], cells, |page|)
  {
    hide TotalLen, PutCells, PutPtrs, Body, Be16, Stored;
    var b := Blank(page, sh, kind);
    LaidOut(b, sh, cells);
  }

  /** The last writes: the counts, no fragments, and the rightmost child. */
  function Finished(p: seq<Byte>, hs: nat, n: seq<Byte>, c: seq<Byte>, right: seq<Byte>): (r: seq<Byte>)
    requires |n| == 2 && |c| == 2 && hs + 8 + |right| <= |p|
  {
    Put(Put(Put(Put(p, hs + 3, n), hs + 5, c), hs + 7, [0]), hs + 8, right)
  }

  /** The header fields written over a cleared header. */
  lemma HeaderPut(before: seq<Byte>, kind: Byte, n: seq<Byte>, c: seq<Byte>, right: seq<Byte>, rest: seq<Byte>,
                  p: seq<Byte>)
    requires |n| == 2 && |c| == 2 && p == before + [kind] + Zeros(7 + |right|) + rest
    ensures Finished(p, |before|, n, c, right) == Assembled(before, Fields(kind, n, c), right, rest)
  {
  }

  lemma NothingPut(p: seq<Byte>, off: nat)
    requires off <= |p|
    ensures Put(p, off, []) == p
  {
  }

  /** A cleared page ends in zeros whatever base is taken. */
  lemma BlankIs(page: seq<Byte>, hs: nat, kind: Byte, base: nat)
    requires hs + 8 <= base <= |page| <= 0x1_0000
    ensures var b := Blank(page, Shape(hs, 0, false), kind);
            b[..base] == page[..hs] + [kind] + Zeros(base - hs - 1) && b[base..] == Zeros(|page| - base)
  {
  }

  lemma OverBlank(page: seq<Byte>, hs: nat, kind: Byte, right: seq<Byte>, cells: seq<seq<Byte>>, sh: Shape)
    requires PtrBase(sh) == hs + 8 + |right| && Room(page, sh, cells)
    ensures PutPtrs(PutCells(Blank(page, Shape(hs, 0, false), kind), sh, cells, 0), sh, cells, |cells|) ==
            page[..hs] + [kind] + Zeros(7 + |right|) + Body(cells, |page|, PtrBase(sh))
  {
    hide TotalLen, PutCells, PutPtrs, Body, Blank, Zeros;
    var b := Blank(page, Shape(hs, 0, false), kind);
    BlankIs(page, hs, kind, PtrBase(sh));
    LaidOut(b, sh, cells);
  }

  /** The writes, in their order, make the image. */
  lemma WrittenIs(page: seq<Byte>, hs: nat, kind: Byte, right: seq<Byte>, cells: seq<seq<Byte>>, sh: Shape)
    requires PtrBase(sh) == hs + 8 + |right| && Room(page, sh, cells)
    ensures var p := PutPtrs(PutCells(Blank(page, Shape(hs, 0, false), kind), sh, cells, 0), sh, cells, |cells|);
            var c := Be16(Stored(|page| - TotalLen(cells)));
            Finished(p, hs, Be16(|cells|), c, right) == Image(page[..hs], kind, right, cells, |page|)
  {
    hide Put, TotalLen, PutCells, PutPtrs, Body, Be16, Stored, Blank, Zeros, Fields, Finished, Assembled;
    var b, c := Blank(page, Shape(hs, 0, false), kind), Be16(Stored(|page| - TotalLen(cells)));
    var body, p := Body(cells, |page|, PtrBase(sh)), PutPtrs(PutCells(b, sh, cells, 0), sh, cells, |cells|);
    OverBlank(page, hs, kind, right, cells, sh);
    HeaderPut(page[..hs], kind, Be16(|cells|), c, right, body, p);
  }

  /** `write_leaf_page` and `write_interior_page`: refuse before touching the page when the cells do not
      fit, and otherwise leave exactly the image. */
  method WritePage(buf: array<Byte>, hs: nat, kind: Byte, right: Option<U32>, cells: seq<seq<Byte>>) returns (ok: bool)
    requires buf.Length <= 0x1_0000
    modifies buf
    ensures var tail := if right.Some? then Be32(right.value) else [];
            && (ok <==> Roomy(hs + 8 + |tail|, cells, buf.Length))
            && (!ok ==> buf[..] == old(buf[..]))
            && (ok ==> buf[..] == Image(old(buf[..hs]), kind, tail, cells, buf.Length))
  {
    hide Put, TotalLen, PutCells, PutPtrs, Image, Be16, Stored, Be32, Blank;
    ghost var page, tail := buf[..], if right.Some? then Be32(right.value) else [];
    var sh := Shape(if right.Some? then hs + 4 else hs, 0, false);
    var needed := ComputeNeeded(sh, cells);
    if needed > buf.Length { return false; }
    ClearPage(buf, Shape(hs, 0, false), kind);
    var offs := WriteCells(buf, sh, cells);
    WritePtrs(buf, sh, cells, offs);
    WrittenIs(page, hs, kind, tail, cells, sh);
    var contentEnd := if cells == [] then buf.Length else offs[0];
    assert contentEnd == |page| - TotalLen(cells) by { assert cells[0..] == cells; EmptyTotal(); }
    PutBytes(buf, hs + 3, Be16(|cells|));
    PutBytes(buf, hs + 5, Be16(Stored(contentEnd)));
    PutBytes(buf, hs + 7, [0]);
    if right.Some? { PutBytes(buf, hs + 8, Be32(right.value)); } else { NothingPut(buf[..], hs + 8); }
    ok := true;
  }
}
