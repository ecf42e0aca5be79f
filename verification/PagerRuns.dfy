/** Reopening a database, and whole runs of a connection against two plain maps. */
module PagerRuns {
  import opened Bytes
  import opened Paging
  import opened Files
  import opened Wal
  import opened WalRuns
  import opened WalOps
  import opened Checkpoint
  import opened Snapshots
  import opened PagerState
  import opened PagerOps
  import F = Freelist

  // ----- reopening -----

  /** The overlay `read_wal_pages` finds. */
  function OverlayOf(wal: Option<seq<Byte>>, ps: nat): (r: Result<PageMap, WalError>) {
    if wal.None? || |wal.value| < HEADER_LEN then Ok(map[])
    else
      match ParseHeader(wal.value)
      case Err(e) => Err(e)
      case Ok(h) => if h.pageSize != ps then Err(InvalidPageSize(h.pageSize))
                    else Ok(Snapshot(ScanWal(h, wal.value).frames).pages)
  }

  method ReadWalPages(wal: Option<seq<Byte>>, ps: nat) returns (r: Result<PageMap, WalError>)
    ensures r == OverlayOf(wal, ps)
  {
    hide ParseHeader, Snapshot, ScanWal;
    if wal.None? || |wal.value| < HEADER_LEN { return Ok(map[]); }
    var parsed := ParseHeader(wal.value);
    if parsed.Err? { return Err(parsed.error); }
    if parsed.value.pageSize != ps { return Err(InvalidPageSize(parsed.value.pageSize)); }
    var pages, _ := CommittedPages(parsed.value, wal.value);
    r := Ok(pages);
  }

  lemma OverlayFound(ps: nat, wal: seq<Byte>, log: LogFile)
    requires LogOk(ps, wal, log)
    ensures OverlayOf(Some(wal), ps) == Ok(AfterAll(log.commits).pages)
  {
    hide ParseHeader, Snapshot, ScanFrom, Holds, AllFrames, AfterAll, FrameOffset, SumAfter;
    var h, frames := log.header, AllFrames(log.commits);
    LogHeader(wal, h, frames);
    HeldScan(wal, h, frames, 0);
    assert frames[..0] == [] && frames[0..] == frames;
    FirstOffset(h);
    SnapshotIsAfterAll(h, log.commits);
  }

  lemma FirstOffset(h: Header)
    ensures FrameOffset(h, 0) == HEADER_LEN && SumAfter(h, h.sum, []) == h.sum
  {
  }

  /** `open`: from files that hold a committed database, the connection sees exactly that database. */
  method Open(main: RawFile, wal: RawFile, walExists: bool, ps: nat, ghost log: LogFile, ghost committed: PageMap)
    returns (r: Result<Pager, PagerError>)
    ensures main != wal && OnDisk(ps, main.data, if walExists then Some(wal.data) else None, log, committed) ==>
              && r.Ok? && fresh(r.value) && fresh(r.value.cache) && r.value.Valid()
              && r.value.main == main && r.value.wal == wal && r.value.ps == ps && r.value.walExists == walExists
              && r.value.mode == (if walExists then WalMode else Legacy)
              && r.value.committed == committed && r.value.dirty == map[] && r.value.Working() == committed
  {
    hide PageAt, OverlayOf, AfterAll, AllFrames, PageCountOf, WholeMap, ModeOf, Through;
    ghost var disk := if walExists then Some(wal.data) else None;
    if OnDisk(ps, main.data, disk, log, committed) { Opened(ps, main.data, disk, log, committed); }
    var pages := ReadWalPages(if walExists then Some(wal.data) else None, ps);
    if pages.Err? { return Err(LogError(pages.error)); }
    var page1 := PageAt(ps, main.data, 1);
    if page1.None? || |page1.value| < 20 { return Err(Missing); }
    var p := new Pager(main, wal, walExists, ps, ModeOf(page1.value), pages.value, log, committed);
    assert p.Working() == committed;
    r := Ok(p);
  }

  lemma Opened(ps: nat, data: seq<Byte>, wal: Option<seq<Byte>>, log: LogFile, committed: PageMap)
    requires OnDisk(ps, data, wal, log, committed)
    ensures OverlayOf(wal, ps) == Ok(AfterAll(log.commits).pages)
    ensures LayersOk(ps, data, wal, log, committed, AfterAll(log.commits).pages, None, map[])
    ensures CacheTrue(ps, data, map[], AfterAll(log.commits).pages, map[])
    ensures WholeMap(ps, committed) && committed + map[] == committed && |PageAt(ps, data, 1).value| >= 20
    ensures wal.None? ==> ModeOf(committed[1]) == Legacy
  {
    hide PageAt, OverlayOf, PageCountOf, LogOk;
    EmptyOverlay();
    assert Through(ps, data, AfterAll(log.commits).pages, 1) == PageIn(committed, 1);
    if wal.Some? { OverlayFound(ps, wal.value, log); } else { NoLog(ps); }
  }

  lemma NoLog(ps: nat)
    ensures OverlayOf(None, ps) == Ok(map[])
  {
  }

  // ----- runs -----

  datatype PagerOp =
    | Reading(n: U32) | Editing(n: U32, bytes: seq<Byte>) | Taking | Freeing(n: U32)
    | Flushing | RollingBack | Switching(mode: JournalMode, salt1: U32, salt2: U32) | Reopening

  /** Two plain maps, whether there is anything to commit, and the journal mode. */
  datatype Spec = Spec(working: F.Pages, committed: F.Pages, pending: bool, mode: JournalMode)

  datatype Answer = Page(page: Option<seq<Byte>>) | Took(n: nat) | Done | Refused

  /** What the caller owes: page-sized edits that leave the page count and version bytes alone, and
      allocation and release of pages on a well-formed freelist. */
  ghost predicate Allowed(ps: nat, s: Spec, op: PagerOp) {
    && F.PagesOk(s.working, ps) && F.PagesOk(s.committed, ps) && 1 in s.working && 1 in s.committed
    && match op
       case Editing(n, bytes) =>
         |bytes| == ps && (n == 1 ==>
             PageCountOf(bytes) == PageCountOf(s.working[1]) && ModeOf(bytes) == ModeOf(s.working[1]))
       case Taking => F.CanAllocate(s.working, ps) && exists chain :: F.Consistent(s.working, ps, chain)
       case Freeing(n) => n != 1 && exists chain :: Frees(s.working, ps, n, chain)
       case _ => true
  }

  ghost predicate Frees(m: F.Pages, ps: nat, n: nat, chain: seq<F.Trunk>) {
    F.Consistent(m, ps, chain) && n in F.Live(F.Field(m[1], F.PAGE_COUNT), chain)
  }

  ghost function SpecStep(ps: nat, s: Spec, op: PagerOp): (r: (Spec, Answer))
    requires Allowed(ps, s, op)
  {
    match op
    case Reading(n) => (s, Page(if n in s.working then Some(s.working[n]) else None))
    case Editing(n, bytes) => if n in s.working then (s.(working := s.working[n := bytes], pending := true), Done)
                              else (s, Refused)
    case Taking =>
      (match F.Allocate(s.working, ps)
       case Err(_) => (s, Refused)
       case Ok((n, m)) => (s.(working := m, pending := true), Took(n)))
    case Freeing(n) =>
      (match F.Deallocate(s.working, ps, n)
       case Err(_) => (s, Refused)
       case Ok(m) => (s.(working := m, pending := true), Done))
    case Flushing => (s.(committed := s.working, pending := false), Done)
    case RollingBack => (s.(working := s.committed, pending := false), Done)
    case Switching(mode, _, _) =>
      if s.pending then (s, Refused)
      else if s.mode == mode then (s, Done)
      else
        var c := s.committed[1 := PatchVersion(s.committed[1], if mode == WalMode then 2 else 1)];
        (Spec(c, c, false, mode), Done)
    case Reopening => (s.(working := s.committed, pending := false), Done)
  }

  ghost predicate AllowedRun(ps: nat, s: Spec, ops: seq<PagerOp>)
    decreases |ops|
  {
    ops == [] || (Allowed(ps, s, ops[0]) && AllowedRun(ps, SpecStep(ps, s, ops[0]).0, ops[1..]))
  }

  ghost function SpecRun(ps: nat, s: Spec, ops: seq<PagerOp>): (r: (Spec, seq<Answer>))
    requires AllowedRun(ps, s, ops)
    decreases |ops|
  {
    if ops == [] then (s, [])
    else
      var one := SpecStep(ps, s, ops[0]);
      var rest := SpecRun(ps, one.0, ops[1..]);
      (rest.0, [one.1] + rest.1)
  }

  ghost function SpecOf(p: Pager): (s: Spec)
    reads p
  {
    Spec(p.Working(), p.committed, p.dirty != map[], p.mode)
  }

  /** One operation does to the connection what it does to the two maps, and answers the same. */
  method Perform(p: Pager, op: PagerOp) returns (q: Pager, a: Answer)
    requires p.Valid() && Allowed(p.ps, SpecOf(p), op)
    modifies p, p.main, p.wal, p.cache
    ensures q.Valid() && q.ps == p.ps && q.main == p.main && q.wal == p.wal && (q == p || (fresh(q) && fresh(q.cache)))
    ensures (SpecOf(q), a) == SpecStep(p.ps, old(SpecOf(p)), op)
  {
    hide Pager.Layered, WholeMap, ModeOf, PageCountOf, F.Consistent, F.Live, F.Allocate, F.Deallocate, F.Field;
    hide F.PagesOk, PatchVersion, F.Allocated, F.Freed, OnDisk;
    q := p;
    match op {
      case Reading(n) =>
        var page := p.ReadPage(n);
        a := Page(page);
      case Editing(n, bytes) =>
        var ok := p.EditPage(n, bytes);
        a := if ok then Done else Refused;
      case Taking =>
        ghost var chain :| F.Consistent(p.Working(), p.ps, chain);
        var n := p.AllocateUnused(chain);
        a := Took(n);
      case Freeing(n) =>
        ghost var chain :| Frees(p.Working(), p.ps, n, chain);
        p.DeallocateUsed(n, chain);
        a := Done;
      case Flushing =>
        p.Flush();
        a := Done;
      case RollingBack =>
        p.Rollback();
        a := Done;
      case Switching(mode, salt1, salt2) =>
        var r := p.SetJournalMode(mode, salt1, salt2);
        a := if r.Ok? then Done else Refused;
      case Reopening =>
        q := Reopen(p);
        a := Done;
    }
  }

  /** Closing without a commit and opening again. */
  method Reopen(p: Pager) returns (q: Pager)
    requires p.Valid()
    ensures fresh(q) && fresh(q.cache) && q.Valid() && q.ps == p.ps && q.main == p.main && q.wal == p.wal &&
            q.mode == p.mode
    ensures q.committed == p.committed && q.dirty == map[] && q.Working() == p.committed
  {
    hide WholeMap, ModeOf, PageCountOf, OnDisk, CacheTrue, Fits, AfterAll, AllFrames;
    var r := Open(p.main, p.wal, p.walExists, p.ps, p.log, p.committed);
    q := r.value;
  }

  /** A connection refines the two maps over every run of operations. */
  method RunPager(p: Pager, ops: seq<PagerOp>) returns (q: Pager, answers: seq<Answer>)
    requires p.Valid() && AllowedRun(p.ps, SpecOf(p), ops)
    modifies p, p.main, p.wal, p.cache
    ensures q.Valid() && (SpecOf(q), answers) == SpecRun(p.ps, old(SpecOf(p)), ops)
  {
    hide Pager.Valid, Allowed, SpecStep, Pager.Working;
    q, answers := p, [];
    ghost var start := SpecOf(p);
    for i := 0 to |ops|
      invariant q.Valid() && q.ps == p.ps && q.main == p.main && q.wal == p.wal &&
                (q == p || (fresh(q) && fresh(q.cache)))
      invariant AllowedRun(p.ps, SpecOf(q), ops[i..])
      invariant SpecRun(p.ps, start, ops).0 == SpecRun(p.ps, SpecOf(q), ops[i..]).0
      invariant SpecRun(p.ps, start, ops).1 == answers + SpecRun(p.ps, SpecOf(q), ops[i..]).1
    {
      assert ops[i..][0] == ops[i] && ops[i..][1..] == ops[i + 1..];
      var a;
      q, a := Perform(q, ops[i]);
      answers := answers + [a];
    }
    assert ops[|ops|..] == [] && answers + [] == answers;
  }
}
