/** The page cache: a map with access ticks and a lazily cleaned eviction heap, against an ideal list of
    pages from least to most recently used. */
module Cache {
  import opened Bytes

  // ----- the ideal -----

  function Without(order: seq<nat>, p: nat): (r: seq<nat>)
    ensures forall x :: x in r <==> x in order && x != p
    ensures |r| <= |order|
  {
    if order == [] then []
    else if order[0] == p then Without(order[1..], p)
    else [order[0]] + Without(order[1..], p)
  }

  /** `p` becomes the most recently used. */
  function Touched(order: seq<nat>, p: nat): (r: seq<nat>) { Without(order, p) + [p] }

  /** Insertion drops the least recently used page once there are more than `capacity`. */
  function Inserted(order: seq<nat>, p: nat, capacity: nat): (r: seq<nat>) {
    var o := Touched(order, p);
    if |o| > capacity then o[1..] else o
  }

  // ----- the ticks behind it -----

  datatype Entry = Entry(bytes: seq<Byte>, tick: nat)

  type Entries = map<nat, Entry>

  function TickOf(entries: Entries, p: nat): (t: nat) { if p in entries then entries[p].tick else 0 }

  ghost predicate Sorted(entries: Entries, order: seq<nat>) {
    order == [] || (Sorted(entries, order[1..]) && forall q :: q in order[1..] ==>
      TickOf(entries, order[0]) < TickOf(entries, q))
  }

  /** The ticks put exactly the cached pages in this order. */
  ghost predicate Orders(entries: Entries, order: seq<nat>) {
    Sorted(entries, order) && forall p :: p in order <==> p in entries
  }

  lemma {:induction false} SortedFrame(e: Entries, e': Entries, order: seq<nat>)
    requires Sorted(e, order) && forall q :: q in order ==> TickOf(e', q) == TickOf(e, q)
    ensures Sorted(e', order)
  {
    if order != [] {
      assert order[0] in order;
      SortedFrame(e, e', order[1..]);
    }
  }

  lemma {:induction false} SortedWithout(e: Entries, order: seq<nat>, p: nat)
    requires Sorted(e, order)
    ensures Sorted(e, Without(order, p))
  {
    if order != [] {
      SortedWithout(e, order[1..], p);
      if order[0] != p { assert Without(order, p)[1..] == Without(order[1..], p); }
    }
  }

  lemma {:induction false} SortedSnoc(e: Entries, order: seq<nat>, p: nat)
    requires Sorted(e, order) && forall q :: q in order ==> TickOf(e, q) < TickOf(e, p)
    ensures Sorted(e, order + [p])
  {
    if order == [] {
      assert (order + [p])[1..] == [];
    } else {
      assert order[0] in order;
      assert (order + [p])[1..] == order[1..] + [p];
      SortedSnoc(e, order[1..], p);
    }
  }

  lemma WithoutOrders(entries: Entries, order: seq<nat>, p: nat)
    requires Orders(entries, order)
    ensures Orders(entries - {p}, Without(order, p))
  {
    SortedWithout(entries, order, p);
    SortedFrame(entries, entries - {p}, Without(order, p));
  }

  lemma OrdersFront(entries: Entries, order: seq<nat>)
    requires Orders(entries, order) && order != []
    ensures Orders(entries - {order[0]}, order[1..]) && order[0] !in order[1..]
  {
    assert order == [order[0]] + order[1..];
    SortedFrame(entries, entries - {order[0]}, order[1..]);
  }

  lemma TouchedOrders(entries: Entries, order: seq<nat>, p: nat, bytes: seq<Byte>, tick: nat)
    requires Orders(entries, order) && forall q :: q in entries ==> entries[q].tick < tick
    ensures Orders(entries[p := Entry(bytes, tick)], Touched(order, p))
  {
    var e, w := entries[p := Entry(bytes, tick)], Without(order, p);
    SortedWithout(entries, order, p);
    SortedFrame(entries, e, w);
    SortedSnoc(e, w, p);
  }

  lemma {:induction false} OrdersSize(entries: Entries, order: seq<nat>)
    requires Orders(entries, order)
    ensures |entries| == |order|
    decreases |order|
  {
    if order == [] {
      assert entries.Keys == {};
    } else {
      OrdersFront(entries, order);
      OrdersSize(entries - {order[0]}, order[1..]);
      assert order[0] in order;
      assert entries.Keys == (entries - {order[0]}).Keys + {order[0]};
    }
  }

  lemma LeastIsFirst(entries: Entries, order: seq<nat>, p: nat)
    requires Orders(entries, order) && p in entries && forall q :: q in entries ==> entries[p].tick <= entries[q].tick
    ensures order != [] && order[0] == p
  {
    assert p in order;
    assert order == [order[0]] + order[1..];
    assert order[0] in order;
  }

  // ----- the heap -----

  datatype Candidate = Candidate(tick: nat, page: nat)

  predicate Before(a: Candidate, b: Candidate) { a.tick < b.tick || (a.tick == b.tick && a.page <= b.page) }

  /** A binary heap's pop: the least candidate, and the others. */
  method PopLeast(heap: seq<Candidate>) returns (least: Candidate, rest: seq<Candidate>)
    requires heap != []
    ensures least in heap && (forall c :: c in heap ==> Before(least, c))
    ensures |rest| < |heap| && (forall c :: c in heap <==> c in rest || c == least)
  {
    var k := 0;
    for i := 0 to |heap|
      invariant 0 <= k < |heap|
      invariant forall j :: 0 <= j < i ==> Before(heap[k], heap[j])
    {
      if !Before(heap[k], heap[i]) { k := i; }
    }
    least, rest := heap[k], heap[..k] + heap[k + 1..];
    assert heap == heap[..k] + [heap[k]] + heap[k + 1..];
  }

  /** Every entry's current tick is in the heap, whatever stale candidates are there with it. */
  ghost predicate Covers(heap: seq<Candidate>, entries: Entries, tick: nat) {
    forall p :: p in entries ==> entries[p].tick <= tick && Candidate(entries[p].tick, p) in heap
  }

  lemma CoversPush(heap: seq<Candidate>, entries: Entries, tick: nat, p: nat, bytes: seq<Byte>)
    requires Covers(heap, entries, tick)
    ensures Covers(heap + [Candidate(tick + 1, p)], entries[p := Entry(bytes, tick + 1)], tick + 1)
    ensures forall q :: q in entries ==> entries[q].tick < tick + 1
  {
    var h := heap + [Candidate(tick + 1, p)];
    assert h[|heap|] == Candidate(tick + 1, p);
  }

  lemma CoversLater(heap: seq<Candidate>, entries: Entries, tick: nat)
    requires Covers(heap, entries, tick)
    ensures Covers(heap, entries, tick + 1)
  {
  }

  lemma NothingCached(entries: Entries, order: seq<nat>, tick: nat)
    requires Orders(entries, order) && Covers([], entries, tick)
    ensures order == []
  {
    OrdersSize(entries, order);
    assert entries.Keys == {};
  }

  lemma TouchedSize(order: seq<nat>, p: nat)
    ensures |Touched(order, p)| <= |order| + 1
  {
  }

  function BytesOf(entries: Entries): (m: map<nat, seq<Byte>>) { map p | p in entries :: entries[p].bytes }

  // ----- the cache -----

  class PageCache {
    const capacity: nat
    var entries: Entries
    var heap: seq<Candidate>
    var tick: nat
    ghost var order: seq<nat>

    ghost predicate Valid()
      reads this
    {
      Orders(entries, order) && Covers(heap, entries, tick) && |order| <= capacity
    }

    ghost function Contents(): (m: map<nat, seq<Byte>>)
      reads this
    {
      BytesOf(entries)
    }

    constructor (n: nat)
      ensures Valid() && capacity == n && order == [] && Contents() == map[]
    {
      capacity, entries, heap, tick := n, map[], [], 0;
      order := [];
    }

    method Get(p: nat) returns (r: Option<seq<Byte>>)
      requires Valid()
      modifies this
      ensures Valid() && Contents() == old(Contents())
      ensures r == if p in old(Contents()) then Some(old(Contents())[p]) else None
      ensures order == if p in old(Contents()) then Touched(old(order), p) else old(order)
    {
      hide Orders, Covers, Touched;
      ghost var was := entries;
      assert Covers(heap, entries, tick + 1) by {
        CoversPush(heap, entries, tick, p, []);
        CoversLater(heap, entries, tick);
      }
      if p !in entries {
        tick := tick + 1;
        return None;
      }
      var bytes := entries[p].bytes;
      CoversPush(heap, entries, tick, p, bytes);
      TouchedOrders(entries, order, p, bytes, tick + 1);
      OrdersSize(entries, order);
      tick := tick + 1;
      entries := entries[p := Entry(bytes, tick)];
      order := Touched(order, p);
      OrdersSize(entries, order);
      heap := heap + [Candidate(tick, p)];
      assert entries.Keys == was.Keys;
      assert BytesOf(entries) == BytesOf(was);
      r := Some(bytes);
      if |heap| > Max(capacity * 4, 16) { CompactHeap(); }
    }

    method CompactHeap()
      requires Valid()
      modifies this`heap
      ensures Valid()
      ensures forall c :: c in heap <==> c.page in entries && entries[c.page].tick == c.tick
    {
      var fresh': seq<Candidate> := [];
      var left := entries.Keys;
      while left != {}
        invariant left <= entries.Keys
        invariant forall c :: c in fresh' <==> c.page in entries && c.page !in left && entries[c.page].tick == c.tick
        decreases |left|
      {
        var p :| p in left;
        fresh' := fresh' + [Candidate(entries[p].tick, p)];
        left := left - {p};
      }
      heap := fresh';
    }

    /** Evicts the least recently used page; there is one whenever the cache is not empty. */
    method EvictOne() returns (r: Option<(nat, seq<Byte>)>)
      requires Orders(entries, order) && Covers(heap, entries, tick)
      modifies this`entries, this`order, this`heap
      ensures Orders(entries, order) && Covers(heap, entries, tick)
      ensures r.None? <==> old(order) == []
      ensures r.None? ==> order == old(order) && Contents() == old(Contents())
      ensures r.Some? ==>
              r.value.0 == old(order)[0] && r.value.0 in old(Contents()) && r.value.1 == old(Contents())[r.value.0]
      ensures r.Some? ==> order == old(order)[1..] && Contents() == old(Contents()) - {r.value.0}
    {
      hide Orders;
      while heap != []
        invariant entries == old(entries) && order == old(order) && Covers(heap, entries, tick)
        decreases |heap|
      {
        var least, rest := PopLeast(heap);
        if least.page in entries && entries[least.page].tick == least.tick {
          LeastIsFirst(entries, order, least.page);
          OrdersFront(entries, order);
          assert forall p :: p in entries && p != least.page ==> Candidate(entries[p].tick, p) in rest;
          heap := rest;
          r := Some((least.page, entries[least.page].bytes));
          entries := entries - {least.page};
          order := order[1..];
          assert Contents() == old(Contents()) - {least.page};
          return;
        }
        heap := rest;
      }
      NothingCached(entries, order, tick);
      r := None;
    }

    method Insert(p: nat, bytes: seq<Byte>)
      requires Valid()
      modifies this
      ensures Valid() && order == Inserted(old(order), p, capacity)
      ensures forall q :: q in Contents() ==> if q == p then Contents()[q] == bytes
              else q in old(Contents()) && Contents()[q] == old(Contents())[q]
    {
      hide Orders, Covers, Touched, Sorted;
      CoversPush(heap, entries, tick, p, bytes);
      TouchedOrders(entries, order, p, bytes, tick + 1);
      TouchedSize(order, p);
      OrdersSize(entries, order);
      tick := tick + 1;
      entries := entries[p := Entry(bytes, tick)];
      order := Touched(order, p);
      heap := heap + [Candidate(tick, p)];
      OrdersSize(entries, order);
      if |entries| > capacity { var _ := EvictOne(); }
    }

    method EvictOneIfFull() returns (r: Option<seq<Byte>>)
      requires Valid()
      modifies this
      ensures Valid() && order == if |old(order)| < capacity || old(order) == [] then old(order) else old(order)[1..]
      ensures Contents() == if |old(order)| < capacity || old(order) == [] then old(Contents())
              else old(Contents()) - {old(order)[0]}
      ensures r.Some? <==> |old(order)| >= capacity && old(order) != []
      ensures r.Some? ==> old(order)[0] in old(Contents()) && r.value == old(Contents())[old(order)[0]]
    {
      OrdersSize(entries, order);
      if |entries| < capacity { return None; }
      var victim := EvictOne();
      r := if victim.Some? then Some(victim.value.1) else None;
    }

    method Invalidate(p: nat)
      requires Valid()
      modifies this
      ensures Valid() && order == Without(old(order), p) && Contents() == old(Contents()) - {p}
    {
      WithoutOrders(entries, order, p);
      entries := entries - {p};
      order := Without(order, p);
    }
  }

  // ----- runs -----

  datatype CacheOp = Lookup(page: nat) | Store(page: nat, bytes: seq<Byte>) | Drop(page: nat) | MakeRoom

  /** The ideal list after one operation. */
  function IdealStep(order: seq<nat>, op: CacheOp, capacity: nat): (r: seq<nat>) {
    match op
    case Lookup(p) => if p in order then Touched(order, p) else order
    case Store(p, _) => Inserted(order, p, capacity)
    case Drop(p) => Without(order, p)
    case MakeRoom => if |order| < capacity || order == [] then order else order[1..]
  }

  function IdealRun(order: seq<nat>, ops: seq<CacheOp>, capacity: nat): (r: seq<nat>) {
    if ops == [] then order else IdealStep(IdealRun(order, ops[..|ops| - 1], capacity), ops[|ops| - 1], capacity)
  }

  /** After any run the cached pages are exactly those of an ideal list of least recently used pages. */
  method RunCache(c: PageCache, ops: seq<CacheOp>)
    requires c.Valid()
    modifies c
    ensures c.Valid() && c.order == IdealRun(old(c.order), ops, c.capacity)
    ensures c.Contents().Keys == (set p | p in c.order) && |c.Contents()| <= c.capacity
  {
    hide Touched, Inserted;
    for i := 0 to |ops|
      invariant c.Valid() && c.order == IdealRun(old(c.order), ops[..i], c.capacity)
    {
      assert ops[..i + 1][..i] == ops[..i];
      match ops[i]
      case Lookup(p) => var _ := c.Get(p);
      case Store(p, bytes) => c.Insert(p, bytes);
      case Drop(p) => c.Invalidate(p);
      case MakeRoom => var _ := c.EvictOneIfFull();
    }
    assert ops[..|ops|] == ops;
    OrdersSize(c.entries, c.order);
    assert c.Contents().Keys == c.entries.Keys;
  }
}
