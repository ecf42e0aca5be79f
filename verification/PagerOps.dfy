/** One connection's pager: reads through its layers, edits, allocation, commit, rollback, journal-mode
    switches and reopening, against a working map of pages over a committed one. */
module PagerOps {
  import opened Bytes
  import opened Sorting
  import opened Paging
  import opened Files
  import opened Wal
  import opened WalRuns
  import opened WalOps
  import opened Checkpoint
  import opened Snapshots
  import opened Cache
  import opened PagerState
  import F = Freelist
  import T = Trunks

  datatype PagerError = PendingTransaction | LogError(e: WalError) | SwitchFailed(s: SwitchError) | Missing

  /** Cached pages are pages of the main file, and never one that is dirty or in the log's overlay. */
  ghost predicate CacheTrue(ps: nat, data: seq<Byte>, dirty: PageMap, overlay: PageMap, cached: map<nat, seq<Byte>>) {
    forall n: U32 :: n in cached ==> n !in dirty && n !in overlay && PageAt(ps, data, n) == Some(cached[n])
  }

  /** The files hold the committed pages, the overlay is the log's, and the resume hint is one of the
      log's own. */
  ghost predicate LayersOk(ps: nat, data: seq<Byte>, wal: Option<seq<Byte>>, log: LogFile, committed: PageMap,
                           walPages: PageMap,
                           resume: Option<ResumeHint>, dirty: PageMap)
  {
    && OnDisk(ps, data, wal, log, committed)
    && walPages == AfterAll(log.commits).pages
    && Fits(log.header, AllFrames(log.commits), resume)
    && PagesSized(ps, dirty)
  }

  lemma Layers(ps: nat, data: seq<Byte>, wal: Option<seq<Byte>>, log: LogFile, committed: PageMap, walPages: PageMap,
               resume: Option<ResumeHint>, dirty: PageMap, n: U32)
    requires LayersOk(ps, data, wal, log, committed, walPages, resume, dirty)
    ensures PageIn(committed + dirty, n) == if n in dirty then Some(dirty[n]) else Through(ps, data, walPages, n)
    ensures n in committed + dirty ==> |(committed + dirty)[n]| == ps
  {
    hide PageAt, AfterAll, Fits, PageCountOf, ModeOf, LogOk;
    assert Through(ps, data, AfterAll(log.commits).pages, n) == PageIn(committed, n);
  }

  lemma LayersDirtied(ps: nat, data: seq<Byte>, wal: Option<seq<Byte>>, log: LogFile, committed: PageMap,
                      walPages: PageMap,
                      resume: Option<ResumeHint>, dirty: PageMap, n: U32, page: seq<Byte>)
    requires LayersOk(ps, data, wal, log, committed, walPages, resume, dirty) && |page| == ps
    ensures LayersOk(ps, data, wal, log, committed, walPages, resume, dirty[n := page])
    ensures committed + dirty[n := page] == (committed + dirty)[n := page]
  {
    hide OnDisk, AfterAll, Fits;
  }

  lemma CacheDirtied(ps: nat, data: seq<Byte>, dirty: PageMap, overlay: PageMap, cached: map<nat, seq<Byte>>, n: U32,
                     page: seq<Byte>)
    requires CacheTrue(ps, data, dirty, overlay, cached) && n !in cached
    ensures CacheTrue(ps, data, dirty[n := page], overlay, cached)
  {
    hide PageAt;
  }

  lemma CacheHit(ps: nat, data: seq<Byte>, dirty: PageMap, overlay: PageMap, cached: map<nat, seq<Byte>>, n: U32)
    requires CacheTrue(ps, data, dirty, overlay, cached)
    ensures n in cached ==> PageAt(ps, data, n) == Some(cached[n])
  {
  }

  lemma CacheSubset(ps: nat, data: seq<Byte>, dirty: PageMap, overlay: PageMap, cached: map<nat, seq<Byte>>,
                    fewer: map<nat, seq<Byte>>)
    requires CacheTrue(ps, data, dirty, overlay, cached) && forall q :: q in fewer ==>
             q in cached && fewer[q] == cached[q]
    ensures CacheTrue(ps, data, dirty, overlay, fewer)
  {
    hide PageAt;
  }

  lemma CacheAdds(ps: nat, data: seq<Byte>, dirty: PageMap, overlay: PageMap, cached: map<nat, seq<Byte>>,
                  more: map<nat, seq<Byte>>, n: U32)
    requires CacheTrue(ps, data, dirty, overlay, cached) && n !in dirty && n !in overlay && PageAt(ps, data, n).Some?
    requires forall q :: q in more ==> if q == n then more[q] == PageAt(ps, data, n).value
             else q in cached && more[q] == cached[q]
    ensures CacheTrue(ps, data, dirty, overlay, more)
  {
    hide PageAt;
  }

  lemma CacheShrinks(ps: nat, data: seq<Byte>, dirty: PageMap, overlay: PageMap, cached: map<nat, seq<Byte>>, n: nat)
    requires CacheTrue(ps, data, dirty, overlay, cached)
    ensures CacheTrue(ps, data, dirty, overlay, cached - {n})
  {
    hide PageAt;
  }

  const CACHE_PAGES := 2000

  class Pager {
    const ps: nat
    const main: RawFile
    const wal: RawFile
    const cache: PageCache
    var walExists: bool
    var dirty: PageMap
    var walPages: PageMap
    var mode: JournalMode
    var resume: Option<ResumeHint>
    ghost var committed: PageMap
    ghost var log: LogFile

    constructor (main': RawFile, wal': RawFile, exists': bool, ps': nat, mode': JournalMode, pages: PageMap,
                 ghost log': LogFile, ghost committed': PageMap)
      ensures main == main' && wal == wal' && walExists == exists' && ps == ps' && mode == mode' && walPages == pages
      ensures log == log' && committed == committed' && dirty == map[] && resume == None
      ensures cache.Valid() && cache.Contents() == map[] && fresh(cache)
    {
      main, wal, walExists, ps, mode, walPages := main', wal', exists', ps', mode', pages;
      dirty, resume := map[], None;
      cache := new PageCache(CACHE_PAGES);
      log, committed := log', committed';
    }

    ghost function WalBytes(): (r: Option<seq<Byte>>)
      reads this, wal
    {
      if walExists then Some(wal.data) else None
    }

    /** The pages as this connection sees them. */
    ghost function Working(): (m: PageMap)
      reads this
    {
      committed + dirty
    }

    /** The layers agree with the files; the working pages may be in the middle of a change. */
    ghost predicate Layered()
      reads this, main, wal, cache
    {
      && main != wal && (mode == WalMode <==> walExists)
      && LayersOk(ps, main.data, WalBytes(), log, committed, walPages, resume, dirty)
      && cache.Valid() && CacheTrue(ps, main.data, dirty, walPages, cache.Contents())
    }

    ghost predicate Valid()
      reads this, main, wal, cache
    {
      Layered() && WholeMap(ps, Working()) && (mode == Legacy ==> ModeOf(Working()[1]) == Legacy)
    }

    /** `read_page`: the working page, whichever layer holds it. */
    method ReadPage(n: U32) returns (r: Option<seq<Byte>>)
      requires Layered()
      modifies cache
      ensures Layered() && r == PageIn(Working(), n)
    {
      hide LayersOk, PageAt, CacheTrue, BytesOf, Orders, Covers;
      Layers(ps, main.data, WalBytes(), log, committed, walPages, resume, dirty, n);
      if n in dirty { return Some(dirty[n]); }
      if n in walPages { return Some(walPages[n]); }
      CacheHit(ps, main.data, dirty, walPages, cache.Contents(), n);
      var hit := cache.Get(n);
      if hit.Some? { return hit; }
      ghost var cached := cache.Contents();
      var _ := cache.EvictOneIfFull();
      CacheSubset(ps, main.data, dirty, walPages, cached, cache.Contents());
      r := PageAt(ps, main.data, n);
      if r.None? { return; }
      cached := cache.Contents();
      cache.Insert(n, r.value);
      CacheAdds(ps, main.data, dirty, walPages, cached, cache.Contents(), n);
    }

    /** `get_page_mut`: the page becomes dirty with the contents it had. */
    method GetPageMut(n: U32) returns (r: Option<seq<Byte>>)
      requires Layered()
      modifies this`dirty, cache
      ensures Layered() && r == PageIn(old(Working()), n) && Working() == old(Working())
      ensures r.Some? ==> n in dirty && dirty[n] == r.value && n !in cache.Contents()
      ensures dirty == if n in old(dirty) || r.None? then old(dirty) else old(dirty)[n := r.value]
    {
      hide LayersOk, PageAt, CacheTrue;
      Layers(ps, main.data, WalBytes(), log, committed, walPages, resume, dirty, n);
      CacheShrinks(ps, main.data, dirty, walPages, cache.Contents(), n);
      cache.Invalidate(n);
      if n in dirty { return Some(dirty[n]); }
      r := if n in walPages then Some(walPages[n]) else PageAt(ps, main.data, n);
      if r.Some? {
        LayersDirtied(ps, main.data, WalBytes(), log, committed, walPages, resume, dirty, n, r.value);
        CacheDirtied(ps, main.data, dirty, walPages, cache.Contents(), n, r.value);
        dirty := dirty[n := r.value];
        assert Working() == old(Working());
      }
    }

    /** A page not in the cache overwritten in `dirty`. */
    method SetPage(n: U32, bytes: seq<Byte>)
      requires Layered() && |bytes| == ps && n !in cache.Contents()
      modifies this`dirty
      ensures Layered() && dirty == old(dirty)[n := bytes] && Working() == old(Working())[n := bytes]
    {
      hide LayersOk, CacheTrue;
      LayersDirtied(ps, main.data, WalBytes(), log, committed, walPages, resume, dirty, n, bytes);
      CacheDirtied(ps, main.data, dirty, walPages, cache.Contents(), n, bytes);
      dirty := dirty[n := bytes];
    }

    /** A caller's edit through `get_page_mut`; the page count and version bytes are the pager's own. */
    method EditPage(n: U32, bytes: seq<Byte>) returns (ok: bool)
      requires Valid() && |bytes| == ps
      requires n == 1 ==> PageCountOf(bytes) == PageCountOf(Working()[1]) && ModeOf(bytes) == ModeOf(Working()[1])
      modifies this`dirty, cache
      ensures Valid() && (ok <==> n in old(Working()))
      ensures Working() == if ok then old(Working())[n := bytes] else old(Working())
      ensures if ok then n in dirty else dirty == old(dirty)
    {
      hide Layered, WholeMap, PageCountOf, ModeOf;
      var page := GetPageMut(n);
      if page.None? { return false; }
      SetPage(n, bytes);
      EditWhole(ps, old(Working()), n, bytes);
      ok := true;
    }

    /** `rollback`: back to the committed pages. */
    method Rollback()
      requires Valid()
      modifies this`dirty
      ensures Valid() && dirty == map[] && Working() == committed
    {
      hide LayersOk, CacheTrue, WholeMap, ModeOf;
      Reset(ps, main.data, WalBytes(), log, committed, walPages, resume, dirty, cache.Contents());
      dirty := map[];
      assert Working() == committed;
    }

    /** `flush` at `synchronous = FULL`: the working pages become the committed ones. */
    method Flush()
      requires Valid()
      modifies this, main, wal, cache
      ensures Valid() && dirty == map[] && Working() == committed == old(Working()) && mode == old(mode)
    {
      hide Layered, WholeMap;
      if dirty == map[] {
        assert Working() == committed;
        return;
      }
      if mode == WalMode { FlushToLog(); } else { FlushToFile(); }
    }

    method FlushToLog()
      requires Valid() && mode == WalMode && dirty != map[]
      modifies this, wal, cache
      ensures Valid() && dirty == map[] && Working() == committed == old(Working()) && mode == old(mode)
    {
      hide LayersOk, CacheTrue, WholeMap, ModeOf, PageCountOf, AllFrames, LogWith, HintWith, Holds, Fits, ValidCommit;
      hide BytesOf, Orders, Covers;
      WholeHasOne(ps, Working());
      var page1 := ReadPage(1);
      var c := Commit(dirty, PageCountOf(page1.value));
      ghost var all, cached := committed + dirty, cache.Contents();
      LogCommit(ps, main.data, wal.data, log, committed, walPages, resume, dirty);
      CacheMoves(ps, main.data, dirty, walPages, cached);
      var hint := FlushWal(wal, resume, c, log.header, AllFrames(log.commits), ps);
      ghost var grown := log.(commits := log.commits + [c]);
      assert LayersOk(ps, main.data, Some(wal.data), grown, all, walPages + dirty, Some(hint.value), map[]);
      log, resume, walPages, committed := grown, Some(hint.value), walPages + dirty, all;
      dirty := map[];
      assert Working() == all;
      assert cache.Contents() == cached;
      assert LayersOk(ps, main.data, WalBytes(), log, committed, walPages, resume, dirty);
      assert CacheTrue(ps, main.data, dirty, walPages, cache.Contents());
      assert cache.Valid();
      assert WholeMap(ps, Working());
      assert Layered();
    }

    /** The page writes of `flush_locked`; the journal around them is gone again by the end. */
    method FlushToFile()
      requires Valid() && mode == Legacy
      modifies this, main
      ensures Valid() && dirty == map[] && Working() == committed == old(Working()) && mode == old(mode)
    {
      hide LayersOk, CacheTrue, WholeMap, ModeOf, CopyPages, KeysOf;
      FileCommit(ps, main.data, log, committed, walPages, resume, dirty, cache.Contents());
      CopyAscending(main, ps, dirty, KeysOf(dirty), U32_MAX);
      committed := committed + dirty;
      dirty := map[];
      assert Working() == committed;
    }

    /** `set_journal_mode`: refused while a transaction is pending; otherwise the committed pages change
        in nothing but the version bytes of page 1. */
    method SetJournalMode(m: JournalMode, salt1: U32, salt2: U32) returns (r: Result<(), PagerError>)
      requires Valid()
      modifies this, main, wal, cache
      ensures Valid() && (r.Err? <==> old(dirty) != map[])
      ensures r.Err? ==>
              r.error == PendingTransaction && committed == old(committed) && dirty == old(dirty) && mode == old(mode)
      ensures r.Ok? ==> mode == m && dirty == map[] && Working() == committed
      ensures r.Ok? ==> committed == if old(mode) == m then old(committed)
              else Switched(old(committed), if m == WalMode then 2 else 1)
    {
      hide LayersOk, CacheTrue, WholeMap, ModeOf, Switched, BytesOf, Orders, Covers;
      if dirty != map[] { return Err(PendingTransaction); }
      Reset(ps, main.data, WalBytes(), log, committed, walPages, resume, dirty, cache.Contents());
      if mode == m { return Ok(()); }
      if m == WalMode { EnterWalMode(salt1, salt2); } else { LeaveWalMode(); }
      r := Ok(());
    }

    method EnterWalMode(salt1: U32, salt2: U32)
      requires Valid() && mode == Legacy && dirty == map[] && WholeMap(ps, committed)
      modifies this, main, wal, cache
      ensures Valid() && mode == WalMode && dirty == map[] && Working() == committed == Switched(old(committed), 2)
    {
      hide LayersOk, CacheTrue, WholeMap, ModeOf, PatchVersion, PageAt, WriteAt, PageOffset, HeaderBytes, ValidHeader;
      hide BytesOf, Orders, Covers, Switched, NewHeader;
      PageSizeOk(ps, committed);
      var h := NewHeader(true, ps, salt1, salt2, 1);
      ghost var data, cached := main.data, cache.Contents();
      EntersWal(ps, data, log, committed, walPages, resume, h, cached);
      CreateLog(wal, h);
      walExists, resume, mode := true, None, WalMode;
      var page1 := PageAt(ps, main.data, 1).value;
      main.Write(PageOffset(ps, 1), PatchVersion(page1, 2));
      cache.Invalidate(1);
      log, committed := LogFile(h, []), Switched(committed, 2);
      NothingDirty(committed);
    }

    method LeaveWalMode()
      requires Valid() && mode == WalMode && dirty == map[] && WholeMap(ps, committed)
      modifies this, main, wal, cache
      ensures Valid() && mode == Legacy && dirty == map[] && Working() == committed == Switched(old(committed), 1)
    {
      hide LayersOk, CacheTrue, WholeMap, ModeOf, PatchVersion, PageAt, View, Holds, Bounded, BackfillTrue, AllFrames;
      hide Snapshot, Times, BytesOf, Orders, Covers, CommitEnded;
      ghost var data, frames, cached := main.data, AllFrames(log.commits), cache.Contents();
      LeavesWal(ps, data, wal.data, log, committed, walPages, resume);
      var marks: seq<seq<U32>> := seq(MAX_PASSES, _ => []);
      var left := LeaveWal(main, ps, wal.data, marks, 0, log.header, frames);
      LeftClean(ps, data, wal.data, log, committed, walPages, resume, main.data, cached);
      walExists, walPages, resume, mode := false, map[], None, Legacy;
      wal.data := [];
      cache.Invalidate(1);
      log, committed := log.(commits := []), Switched(committed, 1);
      NothingDirty(committed);
    }

    lemma CachedIsWorking(n: U32)
      requires Layered() && n in cache.Contents()
      ensures n in Working()
    {
      hide LayersOk, PageAt;
      Layers(ps, main.data, WalBytes(), log, committed, walPages, resume, dirty, n);
    }

    /** `get_page_mut` and an overwrite. */
    method ReplacePage(n: U32, bytes: seq<Byte>)
      requires Layered() && n in Working() && |bytes| == ps
      modifies this`dirty, cache
      ensures Layered() && Working() == old(Working())[n := bytes] && n in dirty
    {
      hide Layered;
      var _ := GetPageMut(n);
      SetPage(n, bytes);
    }

    /** A page past the end of the file, zeroed, and the page count that takes it in. */
    method Grow(n: U32)
      requires Layered() && n !in Working() && n != 1 && 1 in Working() && F.PagesOk(Working(), ps)
      modifies this`dirty, cache
      ensures Layered() && Working() == old(Working())[n := Zeros(ps)][1 := F.SetField(old(Working())[1], F.PAGE_COUNT,
              n)]
      ensures 1 in dirty
    {
      hide Layered, F.SetField;
      if n in cache.Contents() { CachedIsWorking(n); }
      SetPage(n, Zeros(ps));
      var page1 := GetPageMut(1);
      SetPage(1, F.SetField(page1.value, F.PAGE_COUNT, n));
    }

    /** Writes the freelist head and count on page 1. */
    method WriteFreelist(trunk: U32, count: U32)
      requires Layered() && 1 in Working() && F.PagesOk(Working(), ps)
      modifies this`dirty, cache
      ensures Layered() && Working() == F.SetFreelist(old(Working()), ps, trunk, count) && 1 in dirty
    {
      hide Layered, F.SetField;
      var page1 := GetPageMut(1);
      SetPage(1, F.SetField(F.SetField(page1.value, F.FREELIST_TRUNK, trunk), F.FREELIST_COUNT, count));
    }

    /** `allocate_page` does to the working pages exactly what the freelist says, whatever state the
        freelist is in. */
    method AllocatePage() returns (r: Result<U32, F.AllocError>)
      requires Layered() && F.PagesOk(Working(), ps) && NewPageUnused(Working())
      modifies this`dirty, cache
      ensures Layered()
      ensures match F.Allocate(old(Working()), ps)
              case Ok((n, pages)) => r.Ok? && r.value == n && Working() == pages && 1 in dirty
              case Err(e) => r == Err(e) && Working() == old(Working()) && dirty == old(dirty)
    {
      hide Layered, F.Field, F.SetField, F.SetFreelist, T.Write, T.Parse;
      var header := ReadPage(1);
      if header.None? { return Err(F.NoSuchPage(1)); }
      var count, trunk := F.Field(header.value, F.PAGE_COUNT), F.Field(header.value, F.FREELIST_TRUNK);
      var free := F.Field(header.value, F.FREELIST_COUNT);
      if trunk == 0 {
        var n := Min(U32_MAX, count as int + 1);
        Grow(n);
        return Ok(n);
      }
      var page := ReadPage(trunk);
      if page.None? { return Err(F.NoSuchPage(trunk)); }
      var parsed := T.ParseTrunk(page.value);
      var t, left := parsed.value, Max(0, free as int - 1);
      if t.leaves == [] {
        WriteFreelist(t.nextTrunk, left);
        r := Ok(trunk);
      } else {
        var last := |t.leaves| - 1;
        ReplacePage(trunk, T.Write(t.(leaves := t.leaves[..last]), ps));
        WriteFreelist(trunk, left);
        r := Ok(t.leaves[last]);
      }
    }

    /** On a consistent freelist `allocate_page` hands out a page that was not in use. */
    method AllocateUnused(ghost chain: seq<F.Trunk>) returns (n: U32)
      requires Valid() && F.Consistent(Working(), ps, chain) && F.CanAllocate(Working(), ps)
      modifies this`dirty, cache
      ensures Valid() && F.Allocate(old(Working()), ps) == Ok((n as nat, Working())) && 1 in dirty
      ensures F.Allocated(old(Working()), Working(), ps, chain, F.ChainAfterAllocate(chain), n)
    {
      hide Layered, WholeMap, ModeOf, F.Consistent, F.Field, F.Allocate, F.ChainAfterAllocate, F.Allocated;
      hide NewPageUnused, F.PagesOk;
      OneConsistent(Working(), ps, chain);
      AllocateWhole(ps, Working(), chain);
      ReadyToTake(Working(), ps, chain);
      var r := AllocatePage();
      n := r.value;
    }

    /** `deallocate_page`, of any page and whatever state the freelist is in. */
    method DeallocatePage(n: U32) returns (r: Result<(), F.AllocError>)
      requires Layered() && F.PagesOk(Working(), ps)
      modifies this`dirty, cache
      ensures Layered()
      ensures match F.Deallocate(old(Working()), ps, n)
              case Ok(pages) => r.Ok? && Working() == pages && 1 in dirty
              case Err(e) => r == Err(e) && Working() == old(Working()) && dirty == old(dirty)
    {
      hide Layered, F.Field, F.SetField, F.SetFreelist, T.Write, T.Parse;
      var header := ReadPage(1);
      if header.None? { return Err(F.NoSuchPage(1)); }
      var trunk, free := F.Field(header.value, F.FREELIST_TRUNK), F.Field(header.value, F.FREELIST_COUNT);
      var more := Min(U32_MAX, free as int + 1);
      r := Ok(());
      if trunk != 0 {
        var page := ReadPage(trunk);
        if page.None? { return Err(F.NoSuchPage(trunk)); }
        var parsed := T.ParseTrunk(page.value);
        if |parsed.value.leaves| < T.MaxLeaves(ps) {
          ReplacePage(trunk, T.Write(parsed.value.(leaves := parsed.value.leaves + [n]), ps));
          WriteFreelist(trunk, more);
          return;
        }
      }
      var there := ReadPage(n);
      if there.None? { return Err(F.NoSuchPage(n)); }
      ReplacePage(n, T.Write(T.TrunkPage(trunk, []), ps));
      WriteFreelist(n, more);
    }

    /** On a consistent freelist a page in use other than page 1 becomes free, and no other. */
    method DeallocateUsed(n: U32, ghost chain: seq<F.Trunk>)
      requires Valid() && F.Consistent(Working(), ps, chain) && n != 1
      requires n in F.Live(F.Field(Working()[1], F.PAGE_COUNT), chain)
      modifies this`dirty, cache
      ensures Valid() && F.Deallocate(old(Working()), ps, n) == Ok(Working()) && 1 in dirty
      ensures F.Freed(old(Working()), Working(), ps, chain, F.ChainAfterFree(chain, n, ps), n)
    {
      hide Layered, WholeMap, ModeOf, F.Consistent, F.Live, F.Field, F.Deallocate, F.ChainAfterFree, F.Freed, F.PagesOk;
      OneConsistent(Working(), ps, chain);
      DeallocateWhole(ps, Working(), chain, n);
      var _ := DeallocatePage(n);
    }
  }

  /** A consistent file has whole pages before and after an allocation, and the version bytes stay. */
  /** The number the file would grow by is not that of a page there is. */
  ghost predicate NewPageUnused(m: PageMap) {
    1 in m && |m[1]| >= 100 && F.Field(m[1], F.FREELIST_TRUNK) == 0 ==>
      Min(U32_MAX, F.Field(m[1], F.PAGE_COUNT) as int + 1) !in m
  }

  lemma OneConsistent(m: PageMap, ps: nat, chain: seq<F.Trunk>)
    requires F.Consistent(m, ps, chain)
    ensures 1 in m && |m[1]| == ps && ps >= 100 && F.PagesOk(m, ps)
  {
  }

  lemma ReadyToTake(m: PageMap, ps: nat, chain: seq<F.Trunk>)
    requires F.Consistent(m, ps, chain) && F.PagesOk(m, ps) && 1 in m && F.CanAllocate(m, ps)
    ensures NewPageUnused(m)
  {
    hide F.Field;
  }

  lemma AllocateWhole(ps: nat, m: PageMap, chain: seq<F.Trunk>)
    requires WholeMap(ps, m) && F.Consistent(m, ps, chain) && F.CanAllocate(m, ps)
    ensures F.PagesOk(m, ps) && 1 in m && F.Allocate(m, ps).Ok?
    ensures F.Allocate(m, ps).value.0 < 0x1_0000_0000
    ensures var trunk := F.Field(m[1], F.FREELIST_TRUNK);
            && (trunk == 0 ==> F.Allocate(m, ps).value.0 !in m && F.Allocate(m, ps).value.0 != 1)
            && (trunk != 0 ==> trunk in m && trunk != 1)
    ensures F.Allocated(m, F.Allocate(m, ps).value.1, ps, chain, F.ChainAfterAllocate(chain), F.Allocate(m, ps).value.0)
    ensures forall m': PageMap :: m' == F.Allocate(m, ps).value.1 ==> WholeMap(ps, m') && ModeOf(m'[1]) == ModeOf(m[1])
  {
    hide F.Allocate, F.Live, F.NoDup, F.Listed, T.Parse, F.ChainAfterAllocate;
    F.AllocateSafe(m, ps, chain);
    var m' := F.Allocate(m, ps).value.1;
    if chain != [] { F.TrunksListed(chain, 0); } else { GrowsByOne(ps, m, chain); }
    SameVersions(m[1], m'[1]);
  }

  lemma GrowsByOne(ps: nat, m: PageMap, chain: seq<F.Trunk>)
    requires WholeMap(ps, m) && F.Consistent(m, ps, chain) && F.CanAllocate(m, ps) && chain == []
    ensures F.Allocate(m, ps).Ok? && F.Allocate(m, ps).value.0 !in m && F.Allocate(m, ps).value.0 != 1
  {
  }

  lemma SameVersions(a: seq<Byte>, b: seq<Byte>)
    requires |a| >= 512 && F.SameOutside(a, b, F.PAGE_COUNT, F.FREELIST_COUNT + 4)
    ensures ModeOf(a) == ModeOf(b)
  {
  }

  lemma DeallocateWhole(ps: nat, m: PageMap, chain: seq<F.Trunk>, n: U32)
    requires WholeMap(ps, m) && F.Consistent(m, ps, chain) && n in F.Live(F.Field(m[1], F.PAGE_COUNT), chain) && n != 1
    ensures F.PagesOk(m, ps) && 1 in m && n in m && F.Deallocate(m, ps, n).Ok?
    ensures var trunk := F.Field(m[1], F.FREELIST_TRUNK); trunk != 0 ==> trunk in m && trunk != 1
    ensures F.Freed(m, F.Deallocate(m, ps, n).value, ps, chain, F.ChainAfterFree(chain, n, ps), n)
    ensures forall m': PageMap :: m' == F.Deallocate(m, ps, n).value ==>
            WholeMap(ps, m') && ModeOf(m'[1]) == ModeOf(m[1])
  {
    hide F.Deallocate, F.NoDup, F.Listed, T.Parse, F.ChainAfterFree;
    F.DeallocateSafe(m, ps, chain, n);
    var m' := F.Deallocate(m, ps, n).value;
    if chain != [] { F.TrunksListed(chain, 0); }
    SameVersions(m[1], m'[1]);
  }

  lemma PageSizeOk(ps: nat, m: PageMap)
    requires WholeMap(ps, m)
    ensures ValidPageSize(ps)
  {
  }

  lemma NothingDirty(m: PageMap)
    ensures m + map[] == m
  {
  }

  /** A fresh log with no frames. */
  method CreateLog(f: RawFile, h: Header)
    requires ValidHeader(h)
    modifies f
    ensures f.data == HeaderBytes(h)
  {
    hide ValidHeader, HeaderBytes, WriteAt;
    f.data := [];
    FirstWrite(HeaderBytes(h));
    var _ := new WalWriter.Create(f, h);
  }

  lemma FirstWrite(bytes: seq<Byte>)
    ensures WriteAt([], 0, bytes) == bytes
  {
  }

  /** The cache without page 1 stays true when only page 1 of the file is rewritten. */
  lemma CacheWithoutFirst(ps: nat, data: seq<Byte>, overlay: PageMap, cached: map<nat, seq<Byte>>, page: seq<Byte>)
    requires CacheTrue(ps, data, map[], overlay, cached) && |page| == ps
    ensures CacheTrue(ps, WriteAt(data, PageOffset(ps, 1), page), map[], overlay, cached - {1})
  {
    hide PageAt, WriteAt, PageOffset;
    WritePageReads(ps, data, 1, page);
  }

  /** What entering WAL mode finds and leaves. */
  lemma EntersWal(ps: nat, data: seq<Byte>, log: LogFile, committed: PageMap, walPages: PageMap,
                  resume: Option<ResumeHint>, h: Header,
                  cached: map<nat, seq<Byte>>)
    requires LayersOk(ps, data, None, log, committed, walPages, resume, map[]) && ValidHeader(h) && h.pageSize == ps
    requires CacheTrue(ps, data, map[], walPages, cached)
    ensures PageAt(ps, data, 1).Some? && |PageAt(ps, data, 1).value| >= 20
    ensures var data' := WriteAt(data, PageOffset(ps, 1), PatchVersion(PageAt(ps, data, 1).value, 2));
            && 1 in committed && |committed[1]| >= 32
            && LayersOk(ps, data', Some(HeaderBytes(h)), LogFile(h, []), Switched(committed, 2), walPages, None, map[])
            && CacheTrue(ps, data', map[], walPages, cached - {1})
            && WholeMap(ps, Switched(committed, 2))
  {
    hide PageAt, PageCountOf, ModeOf, WriteAt, PageOffset, HeaderBytes, ValidHeader, PatchVersion, CacheTrue, LogOk;
    EmptyOverlay();
    var page1 := PageAt(ps, data, 1).value;
    EnterWal(ps, data, log, committed, h, page1);
    SwitchedWhole(ps, committed, 2);
    CacheWithoutFirst(ps, data, walPages, cached, PatchVersion(page1, 2));
  }

  lemma LeavesWal(ps: nat, data: seq<Byte>, wal: seq<Byte>, log: LogFile, committed: PageMap, walPages: PageMap,
                  resume: Option<ResumeHint>)
    requires LayersOk(ps, data, Some(wal), log, committed, walPages, resume, map[])
    ensures var frames := AllFrames(log.commits);
            && Holds(wal, log.header, frames) && ps == log.header.pageSize && CommitEnded(frames) && Bounded(frames)
            && BackfillTrue(ps, data, frames, 0) && View(ps, data, frames, 1).Some?
  {
    hide PageAt, AfterAll, AllFrames, PageCountOf, ModeOf, LogOk, Holds, View, BackfillTrue, Bounded, CommitEnded;
    LogReady(ps, data, wal, log, committed);
  }

  /** What leaving WAL mode leaves, once the log is drained and page 1 rewritten. */
  lemma LeftClean(ps: nat, data: seq<Byte>, wal: seq<Byte>, log: LogFile, committed: PageMap, walPages: PageMap,
                  resume: Option<ResumeHint>,
                  data': seq<Byte>, cached: map<nat, seq<Byte>>)
    requires LayersOk(ps, data, Some(wal), log, committed, walPages, resume, map[]) &&
             CacheTrue(ps, data, map[], walPages, cached)
    requires forall n: U32 :: View(ps, data, AllFrames(log.commits), n).Some? ==>
               var was := View(ps, data, AllFrames(log.commits), n).value;
               PageAt(ps, data', n) == Some(if n == 1 && |was| >= 20 then PatchVersion(was, 1) else was)
    requires |data'| <= Max(|data|, Times(Snapshot(AllFrames(log.commits)).size, ps))
    ensures 1 in committed && |committed[1]| >= 32 && WholeMap(ps, Switched(committed, 1)) &&
            ModeOf(Switched(committed, 1)[1]) == Legacy
    ensures LayersOk(ps, data', None, log.(commits := []), Switched(committed, 1), map[], None, map[])
    ensures CacheTrue(ps, data', map[], map[], cached - {1})
  {
    hide PageAt, AllFrames, PageCountOf, ModeOf, LogOk, Holds, View, BackfillTrue, Bounded, CommitEnded, PatchVersion;
    hide Times, Snapshot, AfterAll, BytesOf;
    LogReady(ps, data, wal, log, committed);
    SwitchedWhole(ps, committed, 1);
    EmptyOverlay();
    forall n: U32 | n in committed
      ensures PageAt(ps, data', n) == Some(if n == 1 then PatchVersion(committed[n], 1) else committed[n])
    {
      assert View(ps, data, AllFrames(log.commits), n) == PageIn(committed, n);
    }
    LeftWal(ps, data, wal, log, committed, data');
    forall n: U32 | n in cached - {1} ensures PageAt(ps, data', n) == Some(cached[n]) {
      assert Through(ps, data, walPages, n) == PageIn(committed, n);
    }
  }

  lemma WholeHasOne(ps: nat, m: PageMap)
    requires WholeMap(ps, m)
    ensures 1 in m && |m[1]| == ps && ps >= 512
  {
  }

  /** The committed pages are whole on their own, and the cache stays true without the dirty ones. */
  lemma Reset(ps: nat, data: seq<Byte>, wal: Option<seq<Byte>>, log: LogFile, committed: PageMap, walPages: PageMap,
              resume: Option<ResumeHint>, dirty: PageMap, cached: map<nat, seq<Byte>>)
    requires LayersOk(ps, data, wal, log, committed, walPages, resume, dirty) &&
             CacheTrue(ps, data, dirty, walPages, cached)
    ensures LayersOk(ps, data, wal, log, committed, walPages, resume, map[]) &&
            CacheTrue(ps, data, map[], walPages, cached)
    ensures WholeMap(ps, committed) && committed + map[] == committed && (wal.None? ==> ModeOf(committed[1]) == Legacy)
  {
    hide Fits, PageCountOf, LogOk, PageAt;
    EmptyOverlay();
    assert Through(ps, data, AfterAll(log.commits).pages, 1) == PageIn(committed, 1);
  }

  /** What a commit through the log needs and leaves. */
  lemma LogCommit(ps: nat, data: seq<Byte>, wal: seq<Byte>, log: LogFile, committed: PageMap, walPages: PageMap,
                  resume: Option<ResumeHint>, dirty: PageMap)
    requires LayersOk(ps, data, Some(wal), log, committed, walPages, resume, dirty) &&
             WholeMap(ps, committed + dirty) && dirty != map[]
    ensures var c, frames := Commit(dirty, PageCountOf((committed + dirty)[1])), AllFrames(log.commits);
            && Holds(wal, log.header, frames) && Fits(log.header, frames, resume) && ps == log.header.pageSize &&
               ValidCommit(log.header, c)
            && LayersOk(ps, data, Some(LogWith(log.header, frames, c)), log.(commits := log.commits + [c]),
               committed + dirty,
                        walPages + dirty, Some(HintWith(log.header, frames, c)), map[])
  {
    hide PageAt, AfterAll, PageCountOf, ModeOf, AllFrames, CommitFrames, FileOf, ValidCommits, BoundedCommits, Holds;
    hide Fits;
    var c := Commit(dirty, PageCountOf((committed + dirty)[1]));
    CountsGrow(ps, committed, dirty);
    assert ValidCommit(log.header, c);
    WalCommit(ps, data, wal, log, committed, dirty, FileOf(log.header, AllFrames(log.commits) + CommitFrames(c)));
    OverlayGrows(log.commits, c);
    OwnHintFits(log.header, AllFrames(log.commits) + CommitFrames(c));
  }

  /** What a commit straight to the main file leaves. */
  lemma FileCommit(ps: nat, data: seq<Byte>, log: LogFile, committed: PageMap, walPages: PageMap,
                   resume: Option<ResumeHint>,
                   dirty: PageMap, cached: map<nat, seq<Byte>>)
    requires LayersOk(ps, data, None, log, committed, walPages, resume, dirty) && WholeMap(ps, committed + dirty)
    requires ModeOf((committed + dirty)[1]) == Legacy && CacheTrue(ps, data, dirty, walPages, cached)
    ensures var data' := CopyPages(ps, data, dirty, KeysOf(dirty), U32_MAX);
            LayersOk(ps, data', None, log, committed + dirty, walPages, resume, map[]) &&
              CacheTrue(ps, data', map[], walPages, cached)
  {
    hide PageAt, AfterAll, Fits, PageCountOf, ModeOf, AllFrames, CopyPages, KeysOf, CacheTrue;
    LegacyCommit(ps, data, log, committed, dirty);
    CacheSurvives(ps, data, dirty, walPages, cached);
  }

  lemma EditWhole(ps: nat, m: PageMap, n: U32, bytes: seq<Byte>)
    requires WholeMap(ps, m) && n in m && |bytes| == ps && (n == 1 ==> PageCountOf(bytes) == PageCountOf(m[1]))
    ensures WholeMap(ps, m[n := bytes])
  {
  }

  /** Dirty pages moving to the overlay leave the cache true. */
  lemma CacheMoves(ps: nat, data: seq<Byte>, dirty: PageMap, overlay: PageMap, cached: map<nat, seq<Byte>>)
    requires CacheTrue(ps, data, dirty, overlay, cached)
    ensures CacheTrue(ps, data, map[], overlay + dirty, cached)
  {
  }

  /** Writing the dirty pages to the file leaves the cache true. */
  lemma CacheSurvives(ps: nat, data: seq<Byte>, dirty: PageMap, overlay: PageMap, cached: map<nat, seq<Byte>>)
    requires CacheTrue(ps, data, dirty, overlay, cached) && PagesSized(ps, dirty)
    ensures CacheTrue(ps, CopyPages(ps, data, dirty, KeysOf(dirty), U32_MAX), map[], overlay, cached)
  {
    hide PageAt, CopyPages, KeysOf;
    forall n: U32 | n in cached ensures PageAt(ps, CopyPages(ps, data, dirty, KeysOf(dirty), U32_MAX), n) ==
      Some(cached[n]) {
      CopyReads(ps, data, dirty, KeysOf(dirty), U32_MAX, n);
    }
  }
}
