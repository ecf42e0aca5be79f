/** Payloads too large for their page: how much stays local, and the chain of overflow pages that
    holds the rest (section 1.7 of the SQLite Database File Format). */
module Overflow {
  import opened Bytes

  const MAX_PAYLOAD_LEN := 2_147_483_647
  const MAX_PAGES_VISITED := 1_000_000

  type Store = map<nat, seq<Byte>>

  // ----- the local size -----

  function Monus(a: nat, b: nat): (r: nat) { if a >= b then a - b else 0 }

  function MaxLocal(usable: nat, isIndex: bool): (r: nat) {
    if isIndex then Monus(Monus(usable, 12) * 64 / 255, 23) else Monus(usable, 35)
  }

  function MinLocal(usable: nat): (r: nat) { Monus(Monus(usable, 12) * 32 / 255, 23) }

  function Available(usable: nat): (r: nat)
    ensures r >= 1
  {
    Max(Monus(usable, 4), 1)
  }

  /** `local_payload_size`. */
  function LocalSize(usable: nat, len: nat, isIndex: bool): (r: nat)
    ensures r <= len
  {
    var max := MaxLocal(usable, isIndex);
    if len <= max then len
    else
      var min := MinLocal(usable);
      LocalBounds(usable, isIndex);
      var k := min + (len - min) % Available(usable);
      if k <= max then k else min
  }

  lemma LocalBounds(usable: nat, isIndex: bool)
    ensures MinLocal(usable) <= MaxLocal(usable, isIndex)
  {
    var x := Monus(usable, 12);
    assert x * 32 / 255 <= x * 64 / 255;
    assert x * 32 / 255 <= x;
  }

  /** For every usable size a header allows (a page of at least 512 bytes less at most 255 reserved):
      a payload spills exactly when it exceeds the local maximum; a spilled cell keeps between the
      minimum and the maximum, and unless it keeps the minimum its remainder fills whole pages. */
  lemma SpillBounds(usable: nat, len: nat, isIndex: bool)
    requires 257 <= usable <= 65536
    ensures var local := LocalSize(usable, len, isIndex);
            && (local < len <==> len > MaxLocal(usable, isIndex))
            && (local < len ==> MinLocal(usable) <= local <= MaxLocal(usable, isIndex) < usable)
            && (local < len && local != MinLocal(usable) ==> (len - local) % Available(usable) == 0)
  {
    LocalBounds(usable, isIndex);
    var max, min, a := MaxLocal(usable, isIndex), MinLocal(usable), Available(usable);
    if len > max && min + (len - min) % a <= max {
      RemainderExact(len - min, a);
    }
  }

  /** Keeping `m` bytes is allowed and leaves whole pages. */
  predicate Fills(usable: nat, len: nat, isIndex: bool, m: nat) {
    MinLocal(usable) <= m <= MaxLocal(usable, isIndex) && (len - m) % Available(usable) == 0
  }

  /** What a cell keeps is the one size in range that makes the remainder fill whole pages, if there is one, and
      the minimum otherwise. */
  lemma SpillShape(usable: nat, len: nat, isIndex: bool, m: nat)
    requires 257 <= usable <= 65536
    ensures var local := LocalSize(usable, len, isIndex);
            && (len <= MaxLocal(usable, isIndex) ==> local == len)
            && (len > MaxLocal(usable, isIndex) ==> MinLocal(usable) <= local <= MaxLocal(usable, isIndex) < usable)
            && (len > MaxLocal(usable, isIndex) && Fills(usable, len, isIndex, m) ==> local == m)
            && (len > MaxLocal(usable, isIndex) && !Fills(usable, len, isIndex, local) ==> local == MinLocal(usable))
  {
    hide MaxLocal, MinLocal, Available, LocalSize;
    SpillBounds(usable, len, isIndex);
    if len > MaxLocal(usable, isIndex) && Fills(usable, len, isIndex, m) { LocalSizeIs(usable, len, isIndex, m); }
  }

  /** The sizes themselves, by the inequalities they solve. */
  lemma SizesAre(usable: nat)
    requires 257 <= usable <= 65536
    ensures MaxLocal(usable, false) + 35 == usable && Available(usable) + 4 == usable
    ensures 255 * (MinLocal(usable) + 23) <= 32 * (usable - 12) < 255 * (MinLocal(usable) + 24)
    ensures 255 * (MaxLocal(usable, true) + 23) <= 64 * (usable - 12) < 255 * (MaxLocal(usable, true) + 24)
  {
    QuotientFits(32 * (usable - 12));
    QuotientFits(64 * (usable - 12));
  }

  lemma QuotientFits(x: nat)
    requires x >= 255 * 23
    ensures 255 * (Monus(x / 255, 23) + 23) <= x < 255 * (Monus(x / 255, 23) + 24)
  {
  }

  /** Whenever some allowed size makes the remainder fill whole pages, that is the size kept. */
  lemma LocalSizeIs(usable: nat, len: nat, isIndex: bool, m: nat)
    requires 257 <= usable <= 65536 && len > MaxLocal(usable, isIndex)
    requires MinLocal(usable) <= m <= MaxLocal(usable, isIndex) && (len - m) % Available(usable) == 0
    ensures LocalSize(usable, len, isIndex) == m
  {
    LocalBounds(usable, isIndex);
    SizesAre(usable);
    hide MaxLocal, MinLocal, Available;
    WholePagesPlus(len - m, m - MinLocal(usable), Available(usable));
  }

  lemma WholePagesPlus(x: nat, y: nat, a: nat)
    requires a > 0 && x % a == 0 && y < a
    ensures (x + y) % a == y
  {
    var q := x / a;
    assert x == a * q;
    var d, r := (x + y) / a, (x + y) % a;
    assert x + y == a * d + r;
    var k: int := q - d;
    assert a * k == r - y;
    assert k >= 1 ==> a * k >= a;
    assert k < 0 ==> a * k + a <= 0;
  }

  lemma RemainderExact(x: nat, a: nat)
    requires a > 0
    ensures x % a <= x && (x - x % a) % a == 0
  {
    assert x == a * (x / a) + x % a;
    MultipleMod(x / a, a);
  }

  lemma {:induction false} MultipleMod(q: nat, a: nat)
    requires a > 0
    ensures a * q % a == 0
  {
    if q > 0 {
      MultipleMod(q - 1, a);
      assert a * q == a * (q - 1) + a;
      AddWhole(a * (q - 1), a);
    }
  }

  lemma AddWhole(y: nat, a: nat)
    requires a > 0 && y % a == 0
    ensures (y + a) % a == 0
  {
    var q := y / a;
    assert y == a * q;
    assert y + a == a * (q + 1);
    ModUnique(y + a, q + 1, a);
  }

  lemma ModUnique(x: nat, q: nat, a: nat)
    requires a > 0 && x == a * q
    ensures x % a == 0
  {
    var d := x / a;
    assert x == a * d + x % a;
    var k: int := q - d;
    assert x % a == a * k;
    assert k >= 1 ==> a * k >= a;
    assert k < 0 ==> a * k + a <= 0;
  }

  // ----- the chain -----

  /** The data cut into page-sized pieces. */
  function Chunks(data: seq<Byte>, avail: nat): (r: seq<seq<Byte>>)
    requires avail >= 1
    ensures forall i :: 0 <= i < |r| ==> 1 <= |r[i]| <= avail
    ensures |r| > 0 <==> |data| > 0
    decreases |data|
  {
    if data == [] then [] else [data[..Min(|data|, avail)]] + Chunks(data[Min(|data|, avail)..], avail)
  }

  predicate Distinct(nums: seq<nat>) { forall i, j :: 0 <= i < j < |nums| ==> nums[i] != nums[j] }

  function NextOf(nums: seq<nat>, i: nat): (r: nat) { if i + 1 < |nums| then nums[i + 1] else 0 }

  /** Page `nums[i]` holds chunk `i` and the number of the page after it. */
  predicate Holds(store: Store, nums: seq<nat>, chunks: seq<seq<Byte>>, i: nat)
    requires i < |nums| && |nums| == |chunks|
  {
    && nums[i] in store && 4 + |chunks[i]| <= |store[nums[i]]|
    && ReadBe32(store[nums[i]], 0) == NextOf(nums, i)
    && store[nums[i]][4..4 + |chunks[i]|] == chunks[i]
  }

  predicate ChainOf(store: Store, nums: seq<nat>, chunks: seq<seq<Byte>>) {
    && |nums| == |chunks| && Distinct(nums) && (forall i :: 0 <= i < |nums| ==> 0 < nums[i] <= U32_MAX)
    && forall i :: 0 <= i < |nums| ==> Holds(store, nums, chunks, i)
  }

  function OverflowPage(page: seq<Byte>, next: U32, chunk: seq<Byte>): (r: seq<Byte>)
    requires 4 + |chunk| <= |page|
    ensures |r| == |page| && ReadBe32(r, 0) == next && r[4..4 + |chunk|] == chunk
  {
    var r := Be32(next) + chunk + page[4 + |chunk|..];
    assert r[0..4] == Be32(next);
    ReadBe32Of(r, 0, next);
    r
  }

  /** `write_overflow_chain`, given the page numbers the allocator returned. */
  method WriteOverflowChain(store: Store, usable: nat, data: seq<Byte>, nums: seq<nat>) returns (r: Store)
    requires |nums| == |Chunks(data, Available(usable))|
    requires Distinct(nums) && forall i :: 0 <= i < |nums| ==> 0 < nums[i] <= U32_MAX
    requires forall i :: 0 <= i < |nums| ==> nums[i] in store && 4 + Available(usable) <= |store[nums[i]]|
    ensures ChainOf(r, nums, Chunks(data, Available(usable)))
    ensures r.Keys == store.Keys && forall p :: p in store && p !in nums ==> r[p] == store[p]
  {
    hide Chunks, OverflowPage, ReadBe32;
    var chunks := Chunks(data, Available(usable));
    r := store;
    var i := 0;
    while i < |chunks|
      invariant 0 <= i <= |chunks|
      invariant r.Keys == store.Keys
      invariant forall p :: p in store && p !in nums[..i] ==> r[p] == store[p]
      invariant forall j :: 0 <= j < i ==> Holds(r, nums, chunks, j)
    {
      ghost var before := r;
      assert nums[i] !in nums[..i];
      r := r[nums[i] := OverflowPage(r[nums[i]], NextOf(nums, i), chunks[i])];
      assert nums[..i + 1] == nums[..i] + [nums[i]];
      forall j | 0 <= j < i + 1 ensures Holds(r, nums, chunks, j) {
        if j < i { assert Holds(before, nums, chunks, j) && nums[j] != nums[i]; }
      }
      i := i + 1;
    }
    assert nums[..i] == nums;
  }

  // ----- reassembly -----

  datatype OverflowError =
    | PayloadTooLarge
    | PayloadTooShort
    | ChainTruncated
    | ChainCycle(page: nat)
    | ChainTooLong
    | PageUnreadable(page: nat)

  /** The bytes gathered from `page` on; every missing, short or repeated page is an error. */
  function Gather(store: Store, page: nat, remaining: nat, avail: nat, seen: set<nat>,
                  hops: nat): (r: Result<seq<Byte>, OverflowError>)
    requires avail >= 1
    ensures r.Ok? ==> |r.value| == remaining
    decreases remaining
  {
    if remaining == 0 then Ok([])
    else if page == 0 then Err(ChainTruncated)
    else if page in seen then Err(ChainCycle(page))
    else if hops + 1 > MAX_PAGES_VISITED then Err(ChainTooLong)
    else if page !in store || |store[page]| < 4 + Min(remaining, avail) then Err(PageUnreadable(page))
    else
      var take := Min(remaining, avail);
      match Gather(store, ReadBe32(store[page], 0), remaining - take, avail, seen + {page}, hops + 1)
      case Err(e) => Err(e)
      case Ok(rest) => Ok(store[page][4..4 + take] + rest)
  }

  /** What `reassemble_payload` yields for a cell whose payload starts at the head of `tail`. */
  function Reassembled(store: Store, usable: nat, tail: seq<Byte>, len: nat,
                       isIndex: bool): (r: Result<seq<Byte>, OverflowError>)
    ensures r.Ok? ==> |r.value| == len
  {
    var local := LocalSize(usable, len, isIndex);
    if len > MAX_PAYLOAD_LEN then Err(PayloadTooLarge)
    else if local > |tail| then Err(PayloadTooShort)
    else if local == len then Ok(tail[..local])
    else if local + 4 > |tail| then Err(PayloadTooShort)
    else
      match Gather(store, ReadBe32(tail, local), len - local, Available(usable), {}, 0)
      case Err(e) => Err(e)
      case Ok(rest) => Ok(tail[..local] + rest)
  }

  lemma GatherOne(store: Store, page: nat, remaining: nat, avail: nat, seen: set<nat>, hops: nat, got: seq<Byte>)
    requires avail >= 1 && remaining > 0 && page != 0 && page !in seen && hops < MAX_PAGES_VISITED
    requires page in store && 4 + Min(remaining, avail) <= |store[page]|
    ensures var g := Gather(store, page, remaining, avail, seen, hops);
            var take := Min(remaining, avail);
            var rest := Gather(store, ReadBe32(store[page], 0), remaining - take, avail, seen + {page}, hops + 1);
            && g.Ok? == rest.Ok? && (g.Err? ==> g == rest)
            && (g.Ok? ==> got + g.value == (got + store[page][4..4 + take]) + rest.value)
  {
    hide ReadBe32;
    var take := Min(remaining, avail);
    var rest := Gather(store, ReadBe32(store[page], 0), remaining - take, avail, seen + {page}, hops + 1);
    if rest.Ok? {
      var chunk := store[page][4..4 + take];
      assert Gather(store, page, remaining, avail, seen, hops) == Ok(chunk + rest.value);
      assert got + (chunk + rest.value) == (got + chunk) + rest.value;
    }
  }

  lemma GatherStops(store: Store, page: nat, remaining: nat, avail: nat, seen: set<nat>, hops: nat)
    requires avail >= 1
    ensures var g := Gather(store, page, remaining, avail, seen, hops);
            && (remaining == 0 ==> g == Ok([]))
            && (remaining > 0 && page == 0 ==> g == Err(ChainTruncated))
            && (remaining > 0 && page != 0 && page in seen ==> g == Err(ChainCycle(page)))
            && (remaining > 0 && page != 0 && page !in seen && hops >= MAX_PAGES_VISITED ==> g == Err(ChainTooLong))
            && (remaining > 0 && page != 0 && page !in seen && hops < MAX_PAGES_VISITED ==>
                  page !in store || |store[page]| < 4 + Min(remaining, avail) ==> g == Err(PageUnreadable(page)))
  {
  }

  /** The chain walk. It ends on every page contents: each hop consumes at least a byte. */
  method GatherPages(store: Store, first: nat, len: nat, avail: nat) returns (r: Result<seq<Byte>, OverflowError>)
    requires avail >= 1
    ensures r == Gather(store, first, len, avail, {}, 0)
  {
    hide Gather, ReadBe32;
    var page: nat, remaining: nat, hops: nat := first, len, 0;
    var seen: set<nat> := {};
    var result: seq<Byte> := [];
    ghost var goal := Gather(store, first, len, avail, {}, 0);
    assert goal.Ok? ==> result + goal.value == goal.value;
    while remaining > 0
      invariant 0 <= hops
      invariant var g := Gather(store, page, remaining, avail, seen, hops);
                goal.Ok? == g.Ok? && (g.Err? ==> goal == g) && (g.Ok? ==> goal.value == result + g.value)
      decreases remaining
    {
      GatherStops(store, page, remaining, avail, seen, hops);
      if page == 0 {
        return Err(ChainTruncated);
      }
      if page in seen {
        return Err(ChainCycle(page));
      }
      if hops + 1 > MAX_PAGES_VISITED {
        return Err(ChainTooLong);
      }
      var take := Min(remaining, avail);
      if page !in store || |store[page]| < 4 + take {
        return Err(PageUnreadable(page));
      }
      GatherOne(store, page, remaining, avail, seen, hops, result);
      result := result + store[page][4..4 + take];
      page, remaining, seen, hops := ReadBe32(store[page], 0), remaining - take, seen + {page}, hops + 1;
    }
    GatherStops(store, page, 0, avail, seen, hops);
    assert result + [] == result;
    r := Ok(result);
  }

  /** `reassemble_payload`. */
  method ReassemblePayload(store: Store, usable: nat, tail: seq<Byte>, len: nat, isIndex: bool)
    returns (r: Result<seq<Byte>, OverflowError>)
    ensures r == Reassembled(store, usable, tail, len, isIndex)
  {
    hide LocalSize, ReadBe32, Available, Gather;
    if len > MAX_PAYLOAD_LEN {
      return Err(PayloadTooLarge);
    }
    var local := LocalSize(usable, len, isIndex);
    if local > |tail| {
      return Err(PayloadTooShort);
    }
    if local == len {
      return Ok(tail[..local]);
    }
    if local + 4 > |tail| {
      return Err(PayloadTooShort);
    }
    var rest := GatherPages(store, ReadBe32(tail, local), len - local, Available(usable));
    if rest.Err? {
      return Err(rest.error);
    }
    r := Ok(tail[..local] + rest.value);
  }

  function Join(chunks: seq<seq<Byte>>): (r: seq<Byte>) { if chunks == [] then [] else chunks[0] + Join(chunks[1..]) }

  lemma {:induction false} JoinChunks(data: seq<Byte>, avail: nat)
    requires avail >= 1
    ensures Join(Chunks(data, avail)) == data
    decreases |data|
  {
    if data != [] {
      var take := Min(|data|, avail);
      JoinChunks(data[take..], avail);
      assert Chunks(data, avail)[1..] == Chunks(data[take..], avail);
      assert data == data[..take] + data[take..];
    }
  }

  /** All chunks but the last are full. */
  lemma {:induction false} ChunkAt(data: seq<Byte>, avail: nat, i: nat)
    requires avail >= 1 && i < |Chunks(data, avail)|
    ensures |Chunks(data, avail)[i]| == Min(|Join(Chunks(data, avail)[i..])|, avail)
    decreases i
  {
    var take := Min(|data|, avail);
    if i == 0 {
      assert Chunks(data, avail)[0..] == Chunks(data, avail);
      JoinChunks(data, avail);
    } else {
      assert Chunks(data, avail)[1..] == Chunks(data[take..], avail);
      assert Chunks(data, avail)[i..] == Chunks(data[take..], avail)[i - 1..];
      ChunkAt(data[take..], avail, i - 1);
    }
  }

  function FirstOf(nums: seq<nat>, i: nat): (r: set<nat>)
    requires i <= |nums|
  {
    set j | 0 <= j < i :: nums[j]
  }

  lemma {:induction false} GatherChain(store: Store, nums: seq<nat>, data: seq<Byte>, avail: nat, i: nat)
    requires avail >= 1 && ChainOf(store, nums, Chunks(data, avail)) && i <= |nums|
    ensures var rest := Join(Chunks(data, avail)[i..]);
            var g := Gather(store, if i < |nums| then nums[i] else 0, |rest|, avail, FirstOf(nums, i), i);
            && (|nums| <= MAX_PAGES_VISITED ==> g == Ok(rest))
            && (i <= MAX_PAGES_VISITED < |nums| ==> g == Err(ChainTooLong))
    decreases |nums| - i
  {
    hide Chunks, ReadBe32;
    var chunks := Chunks(data, avail);
    var seen := FirstOf(nums, i);
    if i < |nums| {
      ChunkAt(data, avail, i);
      assert Holds(store, nums, chunks, i);
      assert chunks[i..] == [chunks[i]] + chunks[i + 1..];
      assert Join(chunks[i..]) == chunks[i] + Join(chunks[i + 1..]);
      assert nums[i] !in seen;
      assert seen + {nums[i]} == FirstOf(nums, i + 1);
      GatherChain(store, nums, data, avail, i + 1);
    }
  }

  /** Reading back a spilled payload: whatever pages the chain uses, reassembly returns the payload
      exactly when the chain is within the hop limit, and reports the limit otherwise. */
  lemma SpillReassembles(store: Store, usable: nat, payload: seq<Byte>, nums: seq<nat>, isIndex: bool)
    requires |payload| <= MAX_PAYLOAD_LEN
    requires var local := LocalSize(usable, |payload|, isIndex); local < |payload| ==>
               nums != [] && ChainOf(store, nums, Chunks(payload[local..], Available(usable)))
    ensures var local := LocalSize(usable, |payload|, isIndex);
            var tail := if local < |payload| then payload[..local] + Be32(nums[0]) else payload;
            Reassembled(store, usable, tail, |payload|, isIndex) ==
            if local == |payload| || |nums| <= MAX_PAGES_VISITED then Ok(payload) else Err(ChainTooLong)
  {
    hide LocalSize, Gather, Chunks;
    var local := LocalSize(usable, |payload|, isIndex);
    if local < |payload| {
      var rest, avail := payload[local..], Available(usable);
      var tail := payload[..local] + Be32(nums[0]);
      assert tail[local..local + 4] == Be32(nums[0]);
      ReadBe32Of(tail, local, nums[0]);
      GatherChain(store, nums, rest, avail, 0);
      assert Chunks(rest, avail)[0..] == Chunks(rest, avail);
      JoinChunks(rest, avail);
      assert FirstOf(nums, 0) == {};
      assert tail[..local] == payload[..local] && payload == payload[..local] + rest;
    } else {
      assert payload[..local] == payload;
    }
  }
}
