/** Runs of allocations, releases and edits, and the integrity check of the freelist. */
module FreelistRuns {
  import opened Bytes
  import opened Trunks
  import opened Freelist

  // ----- runs -----

  /** Taking a page, giving one back, or writing a page in use. */
  datatype Act = Take | Release(n: U32) | Edit(n: U32, bytes: seq<Byte>)

  /** The pages, and which of them have been handed out. */
  datatype File = File(pages: Pages, live: set<nat>)

  /** Every page is in use or free, not both, and the freelist says which. */
  ghost predicate Accounted(f: File, size: nat) {
    exists chain :: AccountedBy(f, size, chain)
  }

  ghost predicate AccountedBy(f: File, size: nat, chain: seq<Trunk>) {
    Consistent(f.pages, size, chain) && f.live == Live(Field(f.pages[1], PAGE_COUNT), chain)
  }

  /** The caller's side: it releases and writes only pages it holds, never releases page 1, and leaves
      the page count and freelist fields of page 1 to the pager. */
  ghost predicate Enabled(f: File, size: nat, a: Act)
    requires PagesOk(f.pages, size) && 1 in f.pages
  {
    match a
    case Take => CanAllocate(f.pages, size)
    case Release(n) => n in f.live && n != 1
    case Edit(n, bytes) =>
      n in f.live && |bytes| == size &&
      (n == 1 ==> bytes[PAGE_COUNT..FREELIST_COUNT + 4] == f.pages[1][PAGE_COUNT..FREELIST_COUNT + 4])
  }

  ghost function Step(f: File, size: nat, a: Act): (r: File)
    requires PagesOk(f.pages, size)
  {
    match a
    case Take =>
      (match Allocate(f.pages, size)
       case Err(_) => f
       case Ok((n, pages)) => File(pages, f.live + {n}))
    case Release(n) =>
      (match Deallocate(f.pages, size, n)
       case Err(_) => f
       case Ok(pages) => File(pages, f.live - {n as nat}))
    case Edit(n, bytes) => File(f.pages[n := bytes], f.live)
  }

  /** `files` is a run of `acts`. */
  ghost predicate Runs(files: seq<File>, acts: seq<Act>, size: nat) {
    && |files| == |acts| + 1
    && forall i :: 0 <= i < |acts| ==>
         && PagesOk(files[i].pages, size) && 1 in files[i].pages
         && Enabled(files[i], size, acts[i]) && files[i + 1] == Step(files[i], size, acts[i])
  }

  lemma EditKeeps(f: File, size: nat, chain: seq<Trunk>, n: U32, bytes: seq<Byte>)
    requires AccountedBy(f, size, chain) && Enabled(f, size, Edit(n, bytes))
    ensures AccountedBy(Step(f, size, Edit(n, bytes)), size, chain)
  {
    hide NoDup, Parse, Listed;
    var pages' := f.pages[n := bytes];
    forall off | off == PAGE_COUNT || off == FREELIST_TRUNK || off == FREELIST_COUNT
      ensures Field(pages'[1], off) == Field(f.pages[1], off)
    {
      if n == 1 {
        var a, b := bytes[PAGE_COUNT..FREELIST_COUNT + 4], f.pages[1][PAGE_COUNT..FREELIST_COUNT + 4];
        assert forall x :: PAGE_COUNT <= x < FREELIST_COUNT + 4 ==>
               bytes[x] == a[x - PAGE_COUNT] && f.pages[1][x] == b[x - PAGE_COUNT];
      }
    }
    forall k | 0 <= k < |chain| ensures chain[k].page in f.pages && chain[k].page != n { TrunksListed(chain, k); }
    ChainFrame(f.pages, pages', Field(f.pages[1], FREELIST_TRUNK), chain);
  }

  lemma StepKeeps(f: File, size: nat, a: Act)
    requires Accounted(f, size) && PagesOk(f.pages, size) && 1 in f.pages && Enabled(f, size, a)
    ensures Accounted(Step(f, size, a), size)
    ensures a.Take? ==> Allocate(f.pages, size).Ok? && Allocate(f.pages, size).value.0 !in f.live
  {
    hide Consistent, Live, LiveKept, Field, Allocate, Deallocate, CanAllocate;
    var chain :| AccountedBy(f, size, chain);
    match a
    case Take =>
      AllocateSafe(f.pages, size, chain);
      assert AccountedBy(Step(f, size, a), size, ChainAfterAllocate(chain));
    case Release(n) =>
      DeallocateSafe(f.pages, size, chain, n);
      assert AccountedBy(Step(f, size, a), size, ChainAfterFree(chain, n, size));
    case Edit(n, bytes) =>
      EditKeeps(f, size, chain, n, bytes);
  }

  /** Over every run: no page is lost or both in use and free, every page taken was not in use, and
      the integrity check of the freelist would find nothing. */
  lemma {:induction false} RunsStayAccounted(files: seq<File>, acts: seq<Act>, size: nat, i: nat)
    requires Runs(files, acts, size) && Accounted(files[0], size) && i < |files|
    ensures Accounted(files[i], size)
    ensures Checks(files[i].pages)
    ensures i < |acts| && acts[i].Take? ==>
            Allocate(files[i].pages, size).Ok? && Allocate(files[i].pages, size).value.0 !in files[i].live
  {
    if i > 0 {
      RunsStayAccounted(files, acts, size, i - 1);
      StepKeeps(files[i - 1], size, acts[i - 1]);
    }
    var chain :| AccountedBy(files[i], size, chain);
    ConsistentChecks(files[i].pages, size, chain);
    if i < |acts| { StepKeeps(files[i], size, acts[i]); }
  }

  // ----- the integrity check -----

  function TrunkPages(chain: seq<Trunk>): (r: seq<nat>)
    ensures |r| == |chain| && forall i :: 0 <= i < |r| ==> r[i] == chain[i].page
  {
    seq(|chain|, i requires 0 <= i < |chain| => chain[i].page as nat)
  }

  /** A chain that passes: its trunks are distinct pages of the file, its leaves are pages of the file,
      and the header counts both. */
  ghost predicate Passes(pages: Pages, chain: seq<Trunk>) {
    && 1 in pages && |pages[1]| >= 100
    && ChainFrom(pages, Field(pages[1], FREELIST_TRUNK), chain)
    && NoDup(TrunkPages(chain))
    && (forall k :: 0 <= k < |chain| ==> TrunkInRange(chain[k], Field(pages[1], PAGE_COUNT)))
    && Field(pages[1], FREELIST_COUNT) == Min(U32_MAX, |Listed(chain)|)
  }

  ghost predicate TrunkInRange(t: Trunk, count: nat) {
    1 <= t.page <= count && forall i :: 0 <= i < |t.leaves| ==> 1 <= t.leaves[i] <= count
  }

  ghost predicate Checks(pages: Pages) { exists chain :: Passes(pages, chain) }

  lemma ConsistentChecks(pages: Pages, size: nat, chain: seq<Trunk>)
    requires Consistent(pages, size, chain)
    ensures Passes(pages, chain)
  {
    hide NoDup, Field, Parse, Listed;
    var count := Field(pages[1], PAGE_COUNT);
    forall k | 0 <= k < |chain| ensures TrunkInRange(chain[k], count) { TrunksListed(chain, k); }
    TrunkPagesDistinct(chain);
    ListedFits(pages, size, chain, Listed(chain));
  }

  lemma {:induction false} TrunkPagesDistinct(chain: seq<Trunk>)
    requires NoDup(Listed(chain))
    ensures NoDup(TrunkPages(chain))
  {
    if chain != [] {
      var rest := chain[1..];
      RestDistinct(chain);
      TrunkPagesDistinct(rest);
      var s := TrunkPages(chain);
      forall i, j | 0 <= i < j < |s| ensures s[i] != s[j] {
        if i == 0 { TrunksApart(chain, j); } else { assert TrunkPages(rest)[i - 1] != TrunkPages(rest)[j - 1]; }
      }
    }
  }

  lemma TailDistinct<T(!new)>(a: seq<T>, r: seq<T>)
    requires NoDup(a + r)
    ensures NoDup(r)
  {
    var s := a + r;
    forall i, j | 0 <= i < j < |r| ensures r[i] != r[j] { assert r[i] == s[|a| + i] && r[j] == s[|a| + j]; }
  }

  lemma RestDistinct(chain: seq<Trunk>)
    requires chain != [] && NoDup(Listed(chain))
    ensures NoDup(Listed(chain[1..]))
  {
    var a, r := [chain[0].page] + chain[0].leaves, Listed(chain[1..]);
    assert Listed(chain) == a + r;
    hide Listed;
    TailDistinct(a, r);
  }

  /** The trunks `walked` lead from `start` to `at`. */
  ghost predicate Path(pages: Pages, start: U32, walked: seq<Trunk>, at: U32)
    decreases |walked|
  {
    if walked == [] then start == at
    else
      && start != 0 && start == walked[0].page && start in pages && Parse(pages[start]).Ok?
      && Parse(pages[start]).value.leaves == walked[0].leaves
      && Path(pages, Parse(pages[start]).value.nextTrunk, walked[1..], at)
  }

  lemma {:induction false} PathSnoc(pages: Pages, start: U32, walked: seq<Trunk>, at: U32)
    requires Path(pages, start, walked, at) && at != 0 && at in pages && Parse(pages[at]).Ok?
    ensures Path(pages, start, walked + [Trunk(at, Parse(pages[at]).value.leaves)], Parse(pages[at]).value.nextTrunk)
    decreases |walked|
  {
    hide Parse;
    var t := Trunk(at, Parse(pages[at]).value.leaves);
    var more := walked + [t];
    if walked == [] {
      assert more[1..] == [];
    } else {
      PathSnoc(pages, Parse(pages[start]).value.nextTrunk, walked[1..], at);
      assert more[1..] == walked[1..] + [t];
    }
  }

  /** The chain, if there is one, begins with what has been walked. */
  lemma {:induction false} PathChain(pages: Pages, start: U32, walked: seq<Trunk>, at: U32, chain: seq<Trunk>)
    requires Path(pages, start, walked, at) && ChainFrom(pages, start, chain)
    ensures |walked| <= |chain| && chain[..|walked|] == walked && ChainFrom(pages, at, chain[|walked|..])
    decreases |walked|
  {
    hide Parse;
    if walked != [] {
      PathChain(pages, Parse(pages[start]).value.nextTrunk, walked[1..], at, chain[1..]);
      assert chain[1..][|walked| - 1..] == chain[|walked|..];
      assert chain[..|walked|] == [chain[0]] + chain[1..][..|walked| - 1];
    } else {
      assert chain[0..] == chain;
    }
  }

  lemma {:induction false} PathEnds(pages: Pages, start: U32, walked: seq<Trunk>)
    requires Path(pages, start, walked, 0)
    ensures ChainFrom(pages, start, walked)
    decreases |walked|
  {
    hide Parse;
    if walked != [] { PathEnds(pages, Parse(pages[start]).value.nextTrunk, walked[1..]); }
  }

  lemma {:induction false} ListedSnoc(chain: seq<Trunk>, t: Trunk)
    ensures |Listed(chain + [t])| == |Listed(chain)| + 1 + |t.leaves|
  {
    if chain == [] {
      assert (chain + [t])[1..] == [];
    } else {
      assert (chain + [t])[1..] == chain[1..] + [t];
      ListedSnoc(chain[1..], t);
    }
  }

  datatype Problem =
    | CountWithoutTrunk
    | ChainTooLong
    | TrunkBad(page: nat)
    | TrunkUnreadable(page: nat)
    | LeafBad(page: nat)
    | CountWrong

  /** `at` can be the next trunk of a passing chain. */
  ghost predicate CanFollow(pages: Pages, walked: seq<Trunk>, at: U32)
    requires 1 in pages && |pages[1]| >= 100
  {
    && at !in TrunkPages(walked) && |walked| <= Field(pages[1], PAGE_COUNT)
    && at in pages && Parse(pages[at]).Ok?
    && TrunkInRange(Trunk(at, Parse(pages[at]).value.leaves), Field(pages[1], PAGE_COUNT))
  }

  /** The next trunk of a passing chain can follow what has been walked. */
  lemma PassingFollows(pages: Pages, walked: seq<Trunk>, at: U32, chain: seq<Trunk>)
    requires 1 in pages && |pages[1]| >= 100 && Path(pages, Field(pages[1], FREELIST_TRUNK), walked, at) && at != 0
    requires Passes(pages, chain)
    ensures CanFollow(pages, walked, at)
  {
    hide Field, Parse, Listed;
    var w, count := |walked|, Field(pages[1], PAGE_COUNT);
    PathChain(pages, Field(pages[1], FREELIST_TRUNK), walked, at, chain);
    var rest := chain[w..];
    assert rest != [] && chain[w] == rest[0] && chain[w].page == at;
    forall i | 0 <= i < w ensures TrunkPages(walked)[i] != at {
      assert walked[i] == chain[i];
      assert TrunkPages(chain)[i] != TrunkPages(chain)[w];
    }
    assert TrunkInRange(chain[w], count);
    forall i | 0 <= i < |chain| ensures 1 <= TrunkPages(chain)[i] <= count { assert TrunkInRange(chain[i], count); }
    NoDupBound(TrunkPages(chain), 1, count);
  }

  /** A trunk reached by the walk that no passing chain can hold. */
  lemma BadTrunk(pages: Pages, walked: seq<Trunk>, at: U32)
    requires 1 in pages && |pages[1]| >= 100 && Path(pages, Field(pages[1], FREELIST_TRUNK), walked, at) && at != 0
    requires !CanFollow(pages, walked, at)
    ensures !Checks(pages)
  {
    hide Field, Parse, Listed;
    forall chain: seq<Trunk> ensures !Passes(pages, chain) {
      if Passes(pages, chain) { PassingFollows(pages, walked, at, chain); }
    }
  }

  /** `check_freelist` reports nothing exactly when a passing chain exists. */
  method CheckFreelist(pages: Pages) returns (problems: seq<Problem>)
    requires 1 in pages && |pages[1]| >= 100
    ensures problems == [] <==> Checks(pages)
  {
    hide Field, Parse, Path, ChainFrom, Listed, TrunkInRange, NoDup, Checks, Passes, CanFollow;
    var count, start := Field(pages[1], PAGE_COUNT), Field(pages[1], FREELIST_TRUNK);
    var free := Field(pages[1], FREELIST_COUNT);
    problems := [];
    if start == 0 {
      if free != 0 { problems := [CountWithoutTrunk]; }
      NoTrunk(pages);
      return;
    }
    var seen: set<nat> := {};
    var totalLeaves: U32 := 0;
    var trunk: U32 := start;
    var maxHops := Min(U32_MAX, count + 1);
    var hops := 0;
    ghost var walked: seq<Trunk> := [];
    PathStart(pages, start);
    assert TrunkPages(walked) == [];
    while trunk != 0
      invariant Path(pages, start, walked, trunk)
      invariant hops == Min(U32_MAX, |walked|)
      invariant forall n :: n in seen <==> n in TrunkPages(walked)
      invariant |seen| == |walked| && NoDup(TrunkPages(walked))
      invariant forall k :: 0 <= k < |walked| ==> 1 <= TrunkPages(walked)[k] <= count
      invariant totalLeaves == Min(U32_MAX, |Listed(walked)| - |walked|) && |Listed(walked)| >= |walked|
      invariant if problems == [] then forall k :: 0 <= k < |walked| ==>
                TrunkInRange(walked[k], count) else !Checks(pages)
      decreases count + 1 - |walked|
    {
      hops := Min(U32_MAX, hops + 1);
      if hops > maxHops {
        problems := problems + [ChainTooLong];
        CannotFollow(pages, walked, trunk);
        BadTrunk(pages, walked, trunk);
        break;
      }
      if trunk > count || trunk in seen {
        problems := problems + [TrunkBad(trunk)];
        assert !CanFollow(pages, walked, trunk) by {
          if trunk > count { OutOfRange(pages, walked, trunk); } else { CannotFollow(pages, walked, trunk); }
        }
        BadTrunk(pages, walked, trunk);
        break;
      }
      seen := seen + {trunk as nat};
      if trunk !in pages {
        problems := problems + [TrunkUnreadable(trunk)];
        CannotFollow(pages, walked, trunk);
        BadTrunk(pages, walked, trunk);
        break;
      }
      var page := ParseTrunk(pages[trunk]);
      if page.Err? {
        problems := problems + [TrunkUnreadable(trunk)];
        CannotFollow(pages, walked, trunk);
        BadTrunk(pages, walked, trunk);
        break;
      }
      var bad := BadLeaves(page.value.leaves, count);
      ghost var t := Trunk(trunk, page.value.leaves);
      assert bad == [] <==> TrunkInRange(t, count) by { InRangeMeans(t, count); }
      if bad != [] {
        CannotFollow(pages, walked, trunk);
        BadTrunk(pages, walked, trunk);
      }
      problems := problems + bad;
      totalLeaves := Min(U32_MAX, totalLeaves as int + |page.value.leaves|);
      PathSnoc(pages, start, walked, trunk);
      ListedSnoc(walked, t);
      DistinctSnoc(walked, t, count);
      walked := walked + [t];
      trunk := page.value.nextTrunk;
    }
    var total := Min(U32_MAX, totalLeaves as int + |seen|);
    if problems == [] { WholeChain(pages, walked); }
    if total != free { problems := problems + [CountWrong]; }
  }

  method BadLeaves(leaves: seq<U32>, count: nat) returns (problems: seq<Problem>)
    ensures problems == [] <==> forall i :: 0 <= i < |leaves| ==> 1 <= leaves[i] <= count
  {
    problems := [];
    for i := 0 to |leaves|
      invariant problems == [] <==> forall j :: 0 <= j < i ==> 1 <= leaves[j] <= count
    {
      if leaves[i] == 0 || leaves[i] > count { problems := problems + [LeafBad(leaves[i])]; }
    }
  }

  lemma PathStart(pages: Pages, start: U32)
    ensures Path(pages, start, [], start) && |Listed([])| == 0 && NoDup(TrunkPages([]))
  {
  }

  lemma NoTrunk(pages: Pages)
    requires 1 in pages && |pages[1]| >= 100 && Field(pages[1], FREELIST_TRUNK) == 0
    ensures Checks(pages) <==> Field(pages[1], FREELIST_COUNT) == 0
  {
    hide Field;
    if Field(pages[1], FREELIST_COUNT) == 0 { assert Passes(pages, []); }
    forall chain | Passes(pages, chain) ensures chain == [] { }
  }

  lemma CannotFollow(pages: Pages, walked: seq<Trunk>, at: U32)
    requires 1 in pages && |pages[1]| >= 100
    requires || at in TrunkPages(walked) || |walked| > Field(pages[1], PAGE_COUNT)
             || at !in pages || Parse(pages[at]).Err?
             || !TrunkInRange(Trunk(at, Parse(pages[at]).value.leaves), Field(pages[1], PAGE_COUNT))
    ensures !CanFollow(pages, walked, at)
  {
    hide Field, Parse, TrunkInRange;
  }

  lemma OutOfRange(pages: Pages, walked: seq<Trunk>, at: U32)
    requires 1 in pages && |pages[1]| >= 100 && at > Field(pages[1], PAGE_COUNT)
    ensures !CanFollow(pages, walked, at)
  {
  }

  lemma InRangeMeans(t: Trunk, count: nat)
    requires 1 <= t.page <= count
    ensures TrunkInRange(t, count) <==> forall i :: 0 <= i < |t.leaves| ==> 1 <= t.leaves[i] <= count
  {
  }

  /** One more distinct trunk, and still no more trunks than pages. */
  lemma DistinctSnoc(walked: seq<Trunk>, t: Trunk, count: nat)
    requires NoDup(TrunkPages(walked)) && t.page !in TrunkPages(walked) && 1 <= t.page <= count
    requires forall k :: 0 <= k < |walked| ==> 1 <= TrunkPages(walked)[k] <= count
    ensures NoDup(TrunkPages(walked + [t])) && |walked| < count
    ensures forall k :: 0 <= k <= |walked| ==> 1 <= TrunkPages(walked + [t])[k] <= count
    ensures forall n :: n in TrunkPages(walked + [t]) <==> n in TrunkPages(walked) || n == t.page
  {
    var s := TrunkPages(walked + [t]);
    assert s == TrunkPages(walked) + [t.page as nat];
    NoDupBound(s, 1, count);
  }

  lemma WholeChain(pages: Pages, walked: seq<Trunk>)
    requires 1 in pages && |pages[1]| >= 100
    requires Path(pages, Field(pages[1], FREELIST_TRUNK), walked, 0) && NoDup(TrunkPages(walked))
    requires forall k :: 0 <= k < |walked| ==> TrunkInRange(walked[k], Field(pages[1], PAGE_COUNT))
    ensures Checks(pages) <==> Field(pages[1], FREELIST_COUNT) == Min(U32_MAX, |Listed(walked)|)
  {
    hide Field, Parse, Listed, TrunkInRange;
    var start := Field(pages[1], FREELIST_TRUNK);
    PathEnds(pages, start, walked);
    if Field(pages[1], FREELIST_COUNT) == Min(U32_MAX, |Listed(walked)|) { assert Passes(pages, walked); }
    forall chain | Passes(pages, chain) ensures chain == walked {
      PathChain(pages, start, walked, 0, chain);
      assert chain[|walked|..] == [];
      assert chain[..|walked|] == chain;
    }
  }
}
