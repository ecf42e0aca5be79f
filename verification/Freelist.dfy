/** Page allocation and release over the pager's view of the pages, and the set of free pages the
    trunk chain stands for. */
module Freelist {
  import opened Bytes
  import opened Trunks

  type Pages = map<nat, seq<Byte>>

  const PAGE_COUNT := 28
  const FREELIST_TRUNK := 32
  const FREELIST_COUNT := 36

  datatype AllocError = NoSuchPage(page: nat)

  predicate SizeOk(size: nat) { 512 <= size <= 0x1_0000 }

  ghost predicate PagesOk(pages: Pages, size: nat) {
    SizeOk(size) && forall n :: n in pages ==> |pages[n]| == size
  }

  function Field(page1: seq<Byte>, off: nat): (v: U32)
    requires off + 4 <= |page1|
  {
    ReadBe32(page1, off)
  }

  function SetField(page1: seq<Byte>, off: nat, v: U32): (r: seq<Byte>)
    requires off + 4 <= |page1|
    ensures |r| == |page1|
  {
    Put(page1, off, Be32(v))
  }

  function TrunkAt(page: seq<Byte>): (t: TrunkPage)
    requires |page| >= 8
    ensures |t.leaves| <= MaxLeaves(|page|)
  {
    Parse(page).value
  }

  /** Page 1 with the freelist head and count replaced. */
  function SetFreelist(pages: Pages, size: nat, trunk: U32, count: U32): (r: Pages)
    requires PagesOk(pages, size) && 1 in pages
  {
    pages[1 := SetField(SetField(pages[1], FREELIST_TRUNK, trunk), FREELIST_COUNT, count)]
  }

  /** `allocate_page`. */
  function Allocate(pages: Pages, size: nat): (r: Result<(nat, Pages), AllocError>)
    requires PagesOk(pages, size)
    ensures r.Ok? ==> r.value.0 <= U32_MAX
  {
    if 1 !in pages then Err(NoSuchPage(1))
    else
      var count, trunk := Field(pages[1], PAGE_COUNT), Field(pages[1], FREELIST_TRUNK);
      var free := Field(pages[1], FREELIST_COUNT);
      if trunk == 0 then
        var n := Min(U32_MAX, count + 1);
        var grown := pages[n := Zeros(size)];
        Ok((n, grown[1 := SetField(grown[1], PAGE_COUNT, n)]))
      else if trunk !in pages then Err(NoSuchPage(trunk))
      else
        var t := TrunkAt(pages[trunk]);
        var left := Max(0, free - 1);
        if t.leaves == [] then Ok((trunk, SetFreelist(pages, size, t.nextTrunk, left)))
        else
          var last := |t.leaves| - 1;
          var popped := pages[trunk := Write(t.(leaves := t.leaves[..last]), size)];
          Ok((t.leaves[last], SetFreelist(popped, size, trunk, left)))
  }

  /** `deallocate_page`. */
  function Deallocate(pages: Pages, size: nat, n: U32): (r: Result<Pages, AllocError>)
    requires PagesOk(pages, size)
  {
    if 1 !in pages then Err(NoSuchPage(1))
    else
      var trunk, free := Field(pages[1], FREELIST_TRUNK), Field(pages[1], FREELIST_COUNT);
      var more := Min(U32_MAX, free + 1);
      if trunk != 0 && trunk !in pages then Err(NoSuchPage(trunk))
      else if trunk != 0 && |TrunkAt(pages[trunk]).leaves| < MaxLeaves(size) then
        var t := TrunkAt(pages[trunk]);
        Ok(SetFreelist(pages[trunk := Write(t.(leaves := t.leaves + [n]), size)], size, trunk, more))
      else if n !in pages then Err(NoSuchPage(n))
      else Ok(SetFreelist(pages[n := Write(TrunkPage(trunk, []), size)], size, n, more))
  }

  lemma DeallocateOk(pages: Pages, size: nat, n: U32)
    requires PagesOk(pages, size) && Deallocate(pages, size, n).Ok?
    ensures PagesOk(Deallocate(pages, size, n).value, size)
  {
  }

  // ----- what the chain stands for -----

  datatype Trunk = Trunk(page: U32, leaves: seq<U32>)

  function HeadOf(chain: seq<Trunk>): (v: U32) { if chain == [] then 0 else chain[0].page }

  /** The trunk pages reached from `at` are exactly `chain`. */
  ghost predicate ChainFrom(pages: Pages, at: U32, chain: seq<Trunk>)
    decreases |chain|
  {
    && at == HeadOf(chain)
    && (chain != [] ==>
         && at != 0 && at in pages && Parse(pages[at]) == Ok(TrunkPage(HeadOf(chain[1..]), chain[0].leaves))
         && ChainFrom(pages, HeadOf(chain[1..]), chain[1..]))
  }

  /** Every page number the chain mentions, trunks and leaves. */
  function Listed(chain: seq<Trunk>): (r: seq<U32>) {
    if chain == [] then [] else [chain[0].page] + chain[0].leaves + Listed(chain[1..])
  }

  ghost predicate NoDup<T(!new)>(s: seq<T>) { forall i, j :: 0 <= i < j < |s| ==> s[i] != s[j] }

  lemma NoDupAround<T(!new)>(a: seq<T>, x: T, b: seq<T>)
    ensures NoDup(a + [x] + b) <==> NoDup(a + b) && x !in a + b
    ensures forall y :: y in a + [x] + b <==> y in a + b || y == x
    ensures |a + [x] + b| == |a + b| + 1
  {
    var s, t := a + [x] + b, a + b;
    forall i | 0 <= i < |t| ensures s[if i < |a| then i else i + 1] == t[i] {
    }
    if NoDup(s) {
      forall i, j | 0 <= i < j < |t| ensures t[i] != t[j] {
        assert s[if i < |a| then i else i + 1] != s[if j < |a| then j else j + 1];
      }
      forall i | 0 <= i < |t| ensures t[i] != x {
        assert s[|a|] == x;
        assert s[if i < |a| then i else i + 1] != s[|a|];
      }
    }
    if NoDup(t) && x !in t {
      forall i, j | 0 <= i < j < |s| ensures s[i] != s[j] {
        assert i != |a| ==> s[i] == t[if i < |a| then i else i - 1];
        assert j != |a| ==> s[j] == t[if j < |a| then j else j - 1];
      }
    }
  }

  /** The pages in use: every page of the file that the chain does not mention. */
  ghost function Live(count: nat, chain: seq<Trunk>): (r: set<nat>) { set n | 1 <= n <= count && n !in Listed(chain) }

  /** A file whose freelist is well formed: the pages are 1 to the page count, the chain mentions each
      free page once and never page 1, and the header counts them. */
  ghost predicate Consistent(pages: Pages, size: nat, chain: seq<Trunk>) {
    && PagesOk(pages, size) && 1 in pages
    && (forall n :: n in pages <==> 1 <= n <= Field(pages[1], PAGE_COUNT))
    && ChainFrom(pages, Field(pages[1], FREELIST_TRUNK), chain)
    && NoDup(Listed(chain)) && (forall n :: n in Listed(chain) ==> 2 <= n <= Field(pages[1], PAGE_COUNT))
    && Field(pages[1], FREELIST_COUNT) == |Listed(chain)|
  }

  // ----- frames -----

  /** Changing pages the chain does not run through leaves the chain alone. */
  lemma {:induction false} ChainFrame(pages: Pages, pages': Pages, at: U32, chain: seq<Trunk>)
    requires ChainFrom(pages, at, chain)
    requires forall k :: 0 <= k < |chain| ==>
            chain[k].page in pages && chain[k].page in pages' && pages'[chain[k].page] == pages[chain[k].page]
    ensures ChainFrom(pages', at, chain)
    decreases |chain|
  {
    if chain != [] {
      assert chain[0].page in pages';
      var rest := chain[1..];
      assert forall k :: 0 <= k < |rest| ==> rest[k] == chain[k + 1];
      ChainFrame(pages, pages', HeadOf(rest), rest);
    }
  }

  lemma {:induction false} TrunksListed(chain: seq<Trunk>, k: nat)
    requires k < |chain|
    ensures chain[k].page in Listed(chain)
    ensures forall i :: 0 <= i < |chain[k].leaves| ==> chain[k].leaves[i] in Listed(chain)
  {
    if k > 0 {
      TrunksListed(chain[1..], k - 1);
    } else {
      assert Listed(chain)[0] == chain[0].page;
      forall i | 0 <= i < |chain[0].leaves| ensures chain[0].leaves[i] in Listed(chain) {
        assert Listed(chain)[i + 1] == chain[0].leaves[i];
      }
    }
  }

  lemma {:induction false} TrunksInPages(pages: Pages, at: U32, chain: seq<Trunk>, k: nat)
    requires ChainFrom(pages, at, chain) && k < |chain|
    ensures chain[k].page in pages && chain[k].page != 0
    decreases |chain|
  {
    if k > 0 { TrunksInPages(pages, HeadOf(chain[1..]), chain[1..], k - 1); }
  }

  lemma SetFieldReads(p: seq<Byte>, off: nat, v: U32, x: nat)
    requires off + 4 <= |p| && x + 4 <= |p|
    ensures Field(SetField(p, off, v), off) == v
    ensures x + 4 <= off || off + 4 <= x ==> Field(SetField(p, off, v), x) == Field(p, x)
  {
    var r := SetField(p, off, v);
    assert r[off..off + 4] == Be32(v);
    ReadBe32Of(r, off, v);
  }

  lemma SetFreelistReads(pages: Pages, size: nat, trunk: U32, count: U32)
    requires PagesOk(pages, size) && 1 in pages
    ensures var r := SetFreelist(pages, size, trunk, count);
            && PagesOk(r, size) && r.Keys == pages.Keys && (forall n :: n in pages && n != 1 ==> r[n] == pages[n])
            && Field(r[1], FREELIST_TRUNK) == trunk && Field(r[1], FREELIST_COUNT) == count
            && Field(r[1], PAGE_COUNT) == Field(pages[1], PAGE_COUNT)
            && (forall x :: 0 <= x < size && !(FREELIST_TRUNK <= x < FREELIST_COUNT + 4) ==> r[1][x] == pages[1][x])
  {
    hide Field, SetField;
    var p := SetField(pages[1], FREELIST_TRUNK, trunk);
    SetFieldReads(pages[1], FREELIST_TRUNK, trunk, PAGE_COUNT);
    SetFieldReads(p, FREELIST_COUNT, count, PAGE_COUNT);
    SetFieldReads(p, FREELIST_COUNT, count, FREELIST_TRUNK);
    SetFieldBytes(pages[1], FREELIST_TRUNK, trunk);
    SetFieldBytes(p, FREELIST_COUNT, count);
  }

  lemma SetFieldBytes(p: seq<Byte>, off: nat, v: U32)
    requires off + 4 <= |p|
    ensures forall x :: 0 <= x < |p| && !(off <= x < off + 4) ==> SetField(p, off, v)[x] == p[x]
  {
  }

  // ----- allocation and release keep the file consistent -----

  ghost predicate SameOutside(a: seq<Byte>, b: seq<Byte>, from: nat, to: nat) {
    |a| == |b| && forall x :: 0 <= x < |a| && !(from <= x < to) ==> a[x] == b[x]
  }

  /** Only page 1's page count and freelist fields, and the pages `touched`, may differ. */
  ghost predicate OnlyTouches(pages: Pages, pages': Pages, touched: set<nat>) {
    && (forall n :: n in pages && n != 1 && n !in touched ==> n in pages' && pages'[n] == pages[n])
    && (1 in pages ==> 1 in pages' && SameOutside(pages[1], pages'[1], PAGE_COUNT, FREELIST_COUNT + 4))
  }

  /** A page is free, or the file can still grow by one. */
  ghost predicate CanAllocate(pages: Pages, size: nat)
    requires PagesOk(pages, size) && 1 in pages
  {
    Field(pages[1], FREELIST_TRUNK) != 0 || Field(pages[1], PAGE_COUNT) < U32_MAX
  }

  /** The free pages after an allocation. */
  function ChainAfterAllocate(chain: seq<Trunk>): (r: seq<Trunk>) {
    if chain == [] then []
    else if chain[0].leaves == [] then chain[1..]
    else [chain[0].(leaves := chain[0].leaves[..|chain[0].leaves| - 1])] + chain[1..]
  }

  /** `pages'` is `pages` with page `n` taken into use. */
  ghost predicate Allocated(pages: Pages, pages': Pages, size: nat, chain: seq<Trunk>, chain': seq<Trunk>, n: nat)
    requires Consistent(pages, size, chain)
  {
    && Consistent(pages', size, chain')
    && n !in Live(Field(pages[1], PAGE_COUNT), chain)
    && Live(Field(pages'[1], PAGE_COUNT), chain') == Live(Field(pages[1], PAGE_COUNT), chain) + {n}
  }

  lemma AllocateGrows(pages: Pages, size: nat)
    requires Consistent(pages, size, []) && Field(pages[1], PAGE_COUNT) < U32_MAX
    ensures var n := Field(pages[1], PAGE_COUNT) + 1;
            && Allocate(pages, size).Ok? && Allocate(pages, size).value.0 == n
            && Allocated(pages, Allocate(pages, size).value.1, size, [], [], n)
            && OnlyTouches(pages, Allocate(pages, size).value.1, {})
  {
    hide Field, SetField;
    var n := Field(pages[1], PAGE_COUNT) + 1;
    var p := SetField(pages[1], PAGE_COUNT, n);
    SetFieldReads(pages[1], PAGE_COUNT, n, FREELIST_TRUNK);
    SetFieldReads(pages[1], PAGE_COUNT, n, FREELIST_COUNT);
    SetFieldBytes(pages[1], PAGE_COUNT, n);
    assert 1 in pages && n != 1;
  }

  /** Pages outside the chain may change, and page 1's freelist fields with them. */
  lemma ChainAfter(pages: Pages, mid: Pages, size: nat, at: U32, chain: seq<Trunk>, trunk: U32, count: U32)
    requires PagesOk(mid, size) && 1 in mid && ChainFrom(pages, at, chain)
    requires forall k :: 0 <= k < |chain| ==>
            chain[k].page != 1 && chain[k].page in pages && chain[k].page in mid &&
            mid[chain[k].page] == pages[chain[k].page]
    ensures ChainFrom(SetFreelist(mid, size, trunk, count), at, chain)
  {
    hide SetField;
    ChainFrame(pages, SetFreelist(mid, size, trunk, count), at, chain);
  }

  lemma AllocateTrunk(pages: Pages, size: nat, chain: seq<Trunk>)
    requires Consistent(pages, size, chain) && chain != [] && chain[0].leaves == []
    ensures var n := chain[0].page;
            && Allocate(pages, size).Ok? && Allocate(pages, size).value.0 == n
            && Allocated(pages, Allocate(pages, size).value.1, size, chain, chain[1..], n)
            && OnlyTouches(pages, Allocate(pages, size).value.1, {n})
  {
    hide Field, SetField, SetFreelist, Parse, NoDup;
    var n, rest := chain[0].page, chain[1..];
    var left := |Listed(chain)| - 1;
    assert Listed(chain) == [n] + Listed(rest);
    NoDupAround([], n, Listed(rest));
    assert [] + [n] + Listed(rest) == Listed(chain) && [] + Listed(rest) == Listed(rest);
    TrunksListed(chain, 0);
    SetFreelistReads(pages, size, HeadOf(rest), left);
    forall k | 0 <= k < |rest| ensures rest[k].page != 1 && rest[k].page in pages { TrunksListed(chain, k + 1); }
    ChainAfter(pages, pages, size, HeadOf(rest), rest, HeadOf(rest), left);
  }

  /** Popping the last leaf of the first trunk takes exactly that page off the list. */
  lemma PopListed(chain: seq<Trunk>)
    requires chain != [] && chain[0].leaves != [] && NoDup(Listed(chain))
    ensures var n, left := chain[0].leaves[|chain[0].leaves| - 1], Listed(ChainAfterAllocate(chain));
            && NoDup(left) && n !in left && |Listed(chain)| == |left| + 1
            && (forall y :: y in Listed(chain) <==> y in left || y == n)
  {
    hide NoDup;
    var t, rest := chain[0], chain[1..];
    var last := |t.leaves| - 1;
    var n, kept := t.leaves[last], t.leaves[..last];
    var a := [t.page] + kept;
    assert t.leaves == kept + [n];
    assert Listed(chain) == a + [n] + Listed(rest);
    NoDupAround(a, n, Listed(rest));
    assert ChainAfterAllocate(chain)[1..] == rest;
    assert Listed(ChainAfterAllocate(chain)) == a + Listed(rest);
  }

  lemma HeadUnlisted<T(!new)>(p: T, leaves: seq<T>, rest: seq<T>)
    requires NoDup([p] + leaves + rest)
    ensures p !in rest
  {
    var s := [p] + leaves + rest;
    forall i | 0 <= i < |rest| ensures rest[i] != p {
      assert s[1 + |leaves| + i] == rest[i] && s[0] == p;
    }
  }

  lemma TrunksApart(chain: seq<Trunk>, k: nat)
    requires NoDup(Listed(chain)) && 0 < k < |chain|
    ensures chain[k].page != chain[0].page
  {
    assert Listed(chain) == [chain[0].page] + chain[0].leaves + Listed(chain[1..]);
    hide *;
    TrunksListed(chain[1..], k - 1);
    HeadUnlisted(chain[0].page, chain[0].leaves, Listed(chain[1..]));
  }

  lemma AllocateLeaf(pages: Pages, size: nat, chain: seq<Trunk>)
    requires Consistent(pages, size, chain) && chain != [] && chain[0].leaves != []
    ensures var n := chain[0].leaves[|chain[0].leaves| - 1];
            && Allocate(pages, size).Ok? && Allocate(pages, size).value.0 == n
            && Allocated(pages, Allocate(pages, size).value.1, size, chain, ChainAfterAllocate(chain), n)
            && OnlyTouches(pages, Allocate(pages, size).value.1, {chain[0].page as nat})
  {
    hide Field, SetField, SetFreelist, Parse, Write, Listed, NoDup;
    var t, rest := chain[0], chain[1..];
    var last := |t.leaves| - 1;
    var kept := t.leaves[..last];
    var left := |Listed(chain)| - 1;
    PopListed(chain);
    TrunksListed(chain, 0);
    RoundTrip(TrunkPage(HeadOf(rest), kept), size);
    var mid := pages[t.page as nat := Write(TrunkPage(HeadOf(rest), kept), size)];
    SetFreelistReads(mid, size, t.page, left);
    forall k | 0 <= k < |rest| ensures rest[k].page != 1 && rest[k].page in pages && rest[k].page != t.page {
      TrunksListed(chain, k + 1);
      TrunksApart(chain, k + 1);
    }
    ChainAfter(pages, mid, size, HeadOf(rest), rest, t.page, left);
    var r := SetFreelist(mid, size, t.page, left);
    assert Allocate(pages, size) == Ok((t.leaves[last] as nat, r));
    assert ChainFrom(r, t.page, ChainAfterAllocate(chain)) by { assert ChainAfterAllocate(chain)[1..] == rest; }
  }

  /** The pages in use keep their contents, and page 1 all but its page count and freelist fields. */
  ghost predicate LiveKept(pages: Pages, pages': Pages, live: set<nat>) {
    && (forall n :: n in live && n != 1 && n in pages ==> n in pages' && pages'[n] == pages[n])
    && OnlyTouches(pages, pages', pages.Keys)
  }

  /** Allocation hands out a page that was not in use, and accounts for it, exactly when one is free or
      can be added; past the last page number it wipes and hands out a page in use. */
  lemma AllocateSafe(pages: Pages, size: nat, chain: seq<Trunk>)
    requires Consistent(pages, size, chain)
    ensures Allocate(pages, size).Ok?
    ensures var n, pages', live := Allocate(pages, size).value.0, Allocate(pages, size).value.1,
            Live(Field(pages[1], PAGE_COUNT), chain);
            && (n !in live <==> CanAllocate(pages, size))
            && (CanAllocate(pages, size) ==>
                Allocated(pages, pages', size, chain, ChainAfterAllocate(chain), n) && LiveKept(pages, pages', live))
            && (!CanAllocate(pages, size) ==> n == U32_MAX && n in pages && n in pages' && pages'[n] == Zeros(size))
  {
    hide Field, SetField, SetFreelist, Parse, Write, NoDup;
    if chain == [] {
      if CanAllocate(pages, size) { AllocateGrows(pages, size); }
    } else {
      TrunksListed(chain, 0);
      if chain[0].leaves == [] { AllocateTrunk(pages, size, chain); } else { AllocateLeaf(pages, size, chain); }
    }
  }

  /** Page `n` of a file with as many pages as can be numbered, an empty freelist, and a given last page. */
  function FullPage(size: nat, last: seq<Byte>, n: nat): (r: seq<Byte>)
    requires SizeOk(size) && |last| == size
    ensures |r| == size
  {
    if n == 1 then SetField(Zeros(size), PAGE_COUNT, U32_MAX) else if n == U32_MAX then last else Zeros(size)
  }

  /** The file on which allocation goes wrong: every page number is taken, and the last page is wiped
      and handed out while in use. */
  lemma FullFileReused(size: nat, last: seq<Byte>) returns (pages: Pages)
    requires SizeOk(size) && |last| == size
    ensures Consistent(pages, size, []) && U32_MAX in pages && pages[U32_MAX] == last
    ensures Allocate(pages, size).Ok? && Allocate(pages, size).value.0 == U32_MAX
    ensures U32_MAX in Live(Field(pages[1], PAGE_COUNT), [])
    ensures U32_MAX in Allocate(pages, size).value.1 && Allocate(pages, size).value.1[U32_MAX] == Zeros(size)
  {
    pages := map n: nat | 1 <= n <= U32_MAX :: FullPage(size, last, n);
    hide Field, SetField;
    SetFieldReads(Zeros(size), PAGE_COUNT, U32_MAX, FREELIST_TRUNK);
    SetFieldReads(Zeros(size), PAGE_COUNT, U32_MAX, FREELIST_COUNT);
    SetFieldReads(Zeros(size), PAGE_COUNT, U32_MAX, PAGE_COUNT);
    BlankField(size, FREELIST_TRUNK);
    BlankField(size, FREELIST_COUNT);
    AllocateSafe(pages, size, []);
  }

  lemma BlankField(size: nat, off: nat)
    requires off + 4 <= size
    ensures Field(Zeros(size), off) == 0
  {
  }

  // ----- release -----

  function ChainAfterFree(chain: seq<Trunk>, n: U32, size: nat): (r: seq<Trunk>) {
    if chain != [] && |chain[0].leaves| < MaxLeaves(size) then [chain[0].(leaves := chain[0].leaves + [n])] + chain[1..]
    else [Trunk(n, [])] + chain
  }

  lemma PushListed(chain: seq<Trunk>, n: U32, size: nat)
    requires NoDup(Listed(chain)) && n !in Listed(chain)
    ensures var more := Listed(ChainAfterFree(chain, n, size));
            && NoDup(more) && |more| == |Listed(chain)| + 1
            && (forall y :: y in more <==> y in Listed(chain) || y == n)
  {
    hide NoDup;
    var c := ChainAfterFree(chain, n, size);
    if chain != [] && |chain[0].leaves| < MaxLeaves(size) {
      var a, rest := [chain[0].page] + chain[0].leaves, Listed(chain[1..]);
      assert Listed(chain) == a + rest;
      assert c[1..] == chain[1..];
      assert Listed(c) == a + [n] + rest;
      NoDupAround(a, n, rest);
    } else {
      assert c[1..] == chain;
      assert Listed(c) == [] + [n] + Listed(chain) && [] + Listed(chain) == Listed(chain);
      NoDupAround([], n, Listed(chain));
    }
  }

  ghost predicate InRange(s: seq<nat>, lo: nat, n: nat) { forall i :: 0 <= i < |s| ==> lo <= s[i] < lo + n }

  /** Distinct numbers from a range are no more than the range holds. */
  lemma {:induction false} NoDupBound(s: seq<nat>, lo: nat, n: nat)
    ensures NoDup(s) && InRange(s, lo, n) ==> |s| <= n
    decreases n
  {
    if n == 0 {
      assert |s| > 0 ==> !(lo <= s[0] < lo + n);
    } else {
      var top := lo + n - 1;
      if top in s {
        var i :| 0 <= i < |s| && s[i] == top;
        var a, b := s[..i], s[i + 1..];
        assert s == a + [top] + b;
        NoDupAround(a, top, b);
        NoDupBound(a + b, lo, n - 1);
        if NoDup(s) && InRange(s, lo, n) {
          forall j | 0 <= j < |a + b| ensures lo <= (a + b)[j] < top { assert (a + b)[j] in a + b && (a + b)[j] in s; }
        }
      } else {
        NoDupBound(s, lo, n - 1);
        if InRange(s, lo, n) {
          forall j | 0 <= j < |s| ensures lo <= s[j] < top { assert s[j] in s; }
        }
      }
    }
  }

  lemma ListedFits(pages: Pages, size: nat, chain: seq<Trunk>, more: seq<U32>)
    requires Consistent(pages, size, chain) && NoDup(more) && forall y :: y in more ==>
             2 <= y <= Field(pages[1], PAGE_COUNT)
    ensures |more| < U32_MAX
  {
    var s := seq(|more|, i requires 0 <= i < |more| => more[i] as nat);
    forall i | 0 <= i < |s| ensures 2 <= s[i] <= Field(pages[1], PAGE_COUNT) { assert more[i] in more; }
    NoDupBound(s, 2, Max(0, Field(pages[1], PAGE_COUNT) - 1));
  }

  /** `pages'` is `pages` with page `n` given back. */
  ghost predicate Freed(pages: Pages, pages': Pages, size: nat, chain: seq<Trunk>, chain': seq<Trunk>, n: nat)
    requires Consistent(pages, size, chain)
  {
    && Consistent(pages', size, chain')
    && n !in Live(Field(pages'[1], PAGE_COUNT), chain')
    && Live(Field(pages'[1], PAGE_COUNT), chain') + {n} == Live(Field(pages[1], PAGE_COUNT), chain)
    && LiveKept(pages, pages', Live(Field(pages'[1], PAGE_COUNT), chain'))
  }

  /** Giving back a page in use, other than page 1, frees that page and no other. */
  lemma DeallocateSafe(pages: Pages, size: nat, chain: seq<Trunk>, n: U32)
    requires Consistent(pages, size, chain) && n in Live(Field(pages[1], PAGE_COUNT), chain) && n != 1
    ensures Deallocate(pages, size, n).Ok?
    ensures Freed(pages, Deallocate(pages, size, n).value, size, chain, ChainAfterFree(chain, n, size), n)
  {
    hide Field, SetField, SetFreelist, Parse, Write, NoDup, Listed;
    PushListed(chain, n, size);
    var chain' := ChainAfterFree(chain, n, size);
    ListedFits(pages, size, chain, Listed(chain'));
    var more := |Listed(chain)| + 1;
    forall k | 0 <= k < |chain| ensures chain[k].page != 1 && chain[k].page in pages && chain[k].page != n &&
      chain[k].page != 0 {
      TrunksListed(chain, k);
    }
    if chain != [] && |chain[0].leaves| < MaxLeaves(size) {
      FreeIntoTrunk(pages, size, chain, n);
    } else {
      var head := HeadOf(chain);
      RoundTrip(TrunkPage(head, []), size);
      var mid := pages[n as nat := Write(TrunkPage(head, []), size)];
      SetFreelistReads(mid, size, n, more);
      ChainAfter(pages, mid, size, head, chain, n, more);
      var r := SetFreelist(mid, size, n, more);
      assert chain'[1..] == chain;
      assert ChainFrom(r, n, chain');
      assert Deallocate(pages, size, n) == Ok(r);
    }
  }

  lemma FreeIntoTrunk(pages: Pages, size: nat, chain: seq<Trunk>, n: U32)
    requires Consistent(pages, size, chain) && n in Live(Field(pages[1], PAGE_COUNT), chain) && n != 1
    requires chain != [] && |chain[0].leaves| < MaxLeaves(size) && |Listed(chain)| + 1 < U32_MAX
    ensures Deallocate(pages, size, n).Ok?
    ensures Freed(pages, Deallocate(pages, size, n).value, size, chain, ChainAfterFree(chain, n, size), n)
  {
    hide Field, SetField, SetFreelist, Parse, Write, NoDup, Listed;
    PushListed(chain, n, size);
    var chain', more := ChainAfterFree(chain, n, size), |Listed(chain)| + 1;
    var t, rest := chain[0], chain[1..];
    TrunksListed(chain, 0);
    RoundTrip(TrunkPage(HeadOf(rest), t.leaves + [n]), size);
    var mid := pages[t.page as nat := Write(TrunkPage(HeadOf(rest), t.leaves + [n]), size)];
    SetFreelistReads(mid, size, t.page, more);
    forall k | 0 <= k < |rest| ensures rest[k].page != 1 && rest[k].page in pages && rest[k].page != t.page {
      TrunksListed(chain, k + 1);
      TrunksApart(chain, k + 1);
    }
    ChainAfter(pages, mid, size, HeadOf(rest), rest, t.page, more);
    var r := SetFreelist(mid, size, t.page, more);
    assert chain'[1..] == rest;
    assert ChainFrom(r, t.page, chain');
    assert Deallocate(pages, size, n) == Ok(r);
  }
}
