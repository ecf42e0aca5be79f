/** Pages of a file: page `n` (1-based) is the `ps` bytes at offset `(n - 1) * ps`. */
module Paging {
  import opened Bytes

  function PageOffset(ps: nat, n: nat): nat
    requires n >= 1
  {
    Times(n - 1, ps)
  }

  lemma PageFits(ps: nat, n: nat, count: nat)
    requires 1 <= n <= count
    ensures PageOffset(ps, n) + ps <= Times(count, ps)
  {
    TimesMono(n, count, ps);
  }

  predicate PageIs(ps: nat, data: seq<Byte>, n: nat, page: seq<Byte>)
    requires n >= 1
  {
    PageOffset(ps, n) + ps <= |data| && data[PageOffset(ps, n)..PageOffset(ps, n) + ps] == page
  }

  /** `read_page`: nothing for page 0 or a page the file does not hold whole. */
  function PageAt(ps: nat, data: seq<Byte>, n: nat): (r: Option<seq<Byte>>)
    ensures n >= 1 ==> forall p :: r == Some(p) <==> PageIs(ps, data, n, p)
    ensures r.Some? ==> n >= 1 && |r.value| == ps
  {
    if n >= 1 && PageOffset(ps, n) + ps <= |data| then Some(data[PageOffset(ps, n)..PageOffset(ps, n) + ps]) else None
  }

  lemma PagesApart(ps: nat, m: nat, n: nat)
    requires m >= 1 && n >= 1 && m != n
    ensures PageOffset(ps, m) + ps <= PageOffset(ps, n) || PageOffset(ps, n) + ps <= PageOffset(ps, m)
  {
    if m < n { PageFits(ps, m, n - 1); } else { PageFits(ps, n, m - 1); }
  }

  /** Writing page `m` sets it and leaves every other page alone. */
  lemma WritePage(ps: nat, data: seq<Byte>, m: nat, page: seq<Byte>)
    requires m >= 1 && |page| == ps
    ensures PageIs(ps, WriteAt(data, PageOffset(ps, m), page), m, page)
    ensures forall n: nat, p :: n >= 1 && n != m && PageIs(ps, data, n, p) ==>
            PageIs(ps, WriteAt(data, PageOffset(ps, m), page), n, p)
  {
    var r := WriteAt(data, PageOffset(ps, m), page);
    assert r[PageOffset(ps, m)..PageOffset(ps, m) + ps] == page;
    forall n: nat, p | n >= 1 && n != m && PageIs(ps, data, n, p) ensures PageIs(ps, r, n, p) {
      PagesApart(ps, m, n);
      assert r[PageOffset(ps, n)..PageOffset(ps, n) + ps] == data[PageOffset(ps, n)..PageOffset(ps, n) + ps];
    }
  }

  /** The same, as reads: page `m` reads as written, and a page that could be read still reads the same. */
  lemma WritePageReads(ps: nat, data: seq<Byte>, m: nat, page: seq<Byte>)
    requires m >= 1 && |page| == ps
    ensures PageAt(ps, WriteAt(data, PageOffset(ps, m), page), m) == Some(page)
    ensures forall n: nat :: n != m && PageAt(ps, data, n).Some? ==>
              PageAt(ps, WriteAt(data, PageOffset(ps, m), page), n) == PageAt(ps, data, n)
  {
    hide PageAt, PageIs, PageOffset, WriteAt;
    WritePage(ps, data, m, page);
    forall n: nat | n != m && PageAt(ps, data, n).Some?
      ensures PageAt(ps, WriteAt(data, PageOffset(ps, m), page), n) == PageAt(ps, data, n)
    {
      assert PageIs(ps, data, n, PageAt(ps, data, n).value);
    }
  }

  /** The page a byte belongs to. */
  lemma {:induction false} PageOfByte(ps: nat, x: nat, count: nat) returns (n: nat)
    requires x < Times(count, ps)
    ensures 1 <= n <= count && PageOffset(ps, n) <= x < PageOffset(ps, n) + ps
  {
    if x >= Times(count - 1, ps) { n := count; } else { n := PageOfByte(ps, x, count - 1); }
  }
}
