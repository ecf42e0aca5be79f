/** The index descent: `seek` is a lower bound over the in-order entries. */
module IndexSeek {
  import opened Bytes
  import opened Overflow
  import opened TablePage
  import opened IndexOrder
  import opened IndexTree
  import opened IndexScan
  import opened Values
  import Record

  datatype SeekError = Page(e: PageError) | BadRecord | RealKey

  /** The decoded key of a payload; keys with reals are not modelled. */
  function KeyOf(payload: seq<Byte>): (r: Result<Key, SeekError>) {
    match Record.DecodeRecord(payload)
    case Err(_) => Err(BadRecord)
    case Ok(vs) => if forall i :: 0 <= i < |vs| ==> !vs[i].Real? then Ok(vs) else Err(RealKey)
  }

  /** `binary_search_page`: the leftmost entry not below the target. */
  function PageSearch(pages: Pages, usable: nat, f: Frame, lo: nat, hi: nat, target: Key): (r: Result<nat, SeekError>)
    decreases hi - lo
  {
    if lo >= hi then Ok(lo)
    else
      var mid := lo + (hi - lo) / 2;
      match EntryAt(pages, usable, f.buf, f.base, f.interior, mid)
      case Err(e) => Err(Page(e))
      case Ok(payload) =>
        match KeyOf(payload)
        case Err(e) => Err(e)
        case Ok(key) =>
          if !Below(key, target) then PageSearch(pages, usable, f, lo, mid, target)
          else PageSearch(pages, usable, f, mid + 1, hi, target)
  }

  /** The descent of `seek`, from the frame just pushed. */
  function SeekDown(pages: Pages, usable: nat, c: Cursor, target: Key): (r: (Cursor, Result<(), SeekError>))
    requires c.stack != []
    decreases Budget(c)
  {
    var f := Top(c);
    match PageSearch(pages, usable, f, 0, f.num, target)
    case Err(e) => (c, Err(e))
    case Ok(i) =>
      if !f.interior then (At(c, i), Ok(()))
      else
        match ChildOf(f, i)
        case Err(e) => (At(c, 2 * i + 1), Err(Page(e)))
        case Ok(child) =>
          var p := PushPage(pages, At(c, 2 * i + 1), child, false);
          if p.1.Err? then (p.0, Err(Page(p.1.error))) else SeekDown(pages, usable, p.0, target)
  }

  function Seek(pages: Pages, usable: nat, root: nat,
                target: Key): (r: (Cursor, Result<Option<seq<Byte>>, SeekError>)) {
    var p := PushPage(pages, Cursor([], 0), root, false);
    if p.1.Err? then (p.0, Err(Page(p.1.error)))
    else
      var d := SeekDown(pages, usable, p.0, target);
      if d.1.Err? then (d.0, Err(d.1.error))
      else
        var m := Advance(pages, usable, d.0);
        (m.0, match m.1 case Err(e) => Err(Page(e)) case Ok(v) => Ok(v))
  }

  // ----- sorted entries -----

  ghost predicate Sorted(es: seq<Entry>) { forall i, j :: 0 <= i < j < |es| ==> !Below(es[j].key, es[i].key) }

  ghost predicate AllBelow(es: seq<Entry>, target: Key) { forall i :: 0 <= i < |es| ==> Below(es[i].key, target) }

  ghost predicate NoneBelow(es: seq<Entry>, target: Key) { forall i :: 0 <= i < |es| ==> !Below(es[i].key, target) }

  lemma SortedParts(a: seq<Entry>, b: seq<Entry>)
    requires Sorted(a + b)
    ensures Sorted(a) && Sorted(b)
    ensures forall i, j :: 0 <= i < |a| && 0 <= j < |b| ==> !Below(b[j].key, a[i].key)
  {
    hide Below;
    var s := a + b;
    forall i, j | 0 <= i < j < |a| ensures !Below(a[j].key, a[i].key) { assert s[i] == a[i] && s[j] == a[j]; }
    forall i, j | 0 <= i < j < |b| ensures !Below(b[j].key, b[i].key) {
      assert s[|a| + i] == b[i] && s[|a| + j] == b[j];
    }
    forall i, j | 0 <= i < |a| && 0 <= j < |b| ensures !Below(b[j].key, a[i].key) {
      assert s[i] == a[i] && s[|a| + j] == b[j];
    }
  }

  /** The first entry not below the target. */
  function LowerBound(es: seq<Entry>, target: Key): (k: nat)
    ensures k <= |es| && (forall i :: 0 <= i < k ==> Below(es[i].key, target)) &&
            (k < |es| ==> !Below(es[k].key, target))
  {
    if es == [] || !Below(es[0].key, target) then 0 else 1 + LowerBound(es[1..], target)
  }

  lemma AboveBound(es: seq<Entry>, target: Key)
    requires Sorted(es)
    ensures NoneBelow(es[LowerBound(es, target)..], target) && AllBelow(es[..LowerBound(es, target)], target)
  {
    hide Below, LowerBound;
    var k := LowerBound(es, target);
    forall i | k <= i < |es| ensures !Below(es[i].key, target) {
      if i > k { StaysAbove(es[k].key, es[i].key, target); }
    }
  }

  lemma NotBefore(es: seq<Entry>, i: nat, target: Key)
    requires Sorted(es) && LowerBound(es, target) <= i < |es|
    ensures !Below(es[i].key, target)
  {
    hide Below, LowerBound;
    AboveBound(es, target);
    var k := LowerBound(es, target);
    assert es[k..][i - k] == es[i];
  }

  lemma StaysBelow(a: Key, b: Key, target: Key)
    requires !Below(b, a) && Below(b, target)
    ensures Below(a, target)
  {
    hide CompareKeys;
    KeysOrder(a, b, target);
    KeysOrder(b, a, target);
  }

  // ----- the search of one page -----

  function PageEntries(t: Tree): (r: seq<Entry>) { if t.Leaf? then t.entries else t.seps }

  lemma PageHas(pages: Pages, usable: nat, f: Frame, t: Tree, i: nat)
    requires FrameOf(pages, usable, f, t) && i < |PageEntries(t)|
    ensures var e := EntryAt(pages, usable, f.buf, f.base, f.interior, i);
            e == Ok(PageEntries(t)[i].payload) && KeyOf(e.value) == Ok(PageEntries(t)[i].key)
  {
    hide EntryAt, Record.DecodeRecord;
    assert EntryIs(pages, usable, f.buf, f.base, f.interior, i, PageEntries(t)[i]);
  }

  lemma {:induction false} SearchFinds(pages: Pages, usable: nat, f: Frame, t: Tree, lo: nat, hi: nat, target: Key)
    requires FrameOf(pages, usable, f, t) && Sorted(PageEntries(t)) &&
             lo <= LowerBound(PageEntries(t), target) <= hi <= |PageEntries(t)|
    ensures PageSearch(pages, usable, f, lo, hi, target) == Ok(LowerBound(PageEntries(t), target))
    decreases hi - lo
  {
    hide Below, LowerBound, FrameOf, EntryAt, KeyOf, PageEntries;
    if lo < hi {
      var es, mid := PageEntries(t), lo + (hi - lo) / 2;
      var k := LowerBound(es, target);
      PageHas(pages, usable, f, t, mid);
      if Below(es[mid].key, target) {
        if mid >= k { NotBefore(es, mid, target); }
        SearchFinds(pages, usable, f, t, mid + 1, hi, target);
      } else {
        SearchFinds(pages, usable, f, t, lo, mid, target);
      }
    }
  }

  // ----- the parts of an interior page -----

  /** An interior page's own entries are among its in-order entries, in order. */
  lemma {:induction false} SepsSorted(t: Tree, n: nat)
    requires t.Node? && Shaped(t) && n <= |t.seps| && Sorted(Range(t, 0, 2 * n))
    ensures Sorted(t.seps[..n])
    ensures forall i :: 0 <= i < n ==> t.seps[i] in Range(t, 0, 2 * n)
    decreases n
  {
    hide Below, Range, Item;
    if n > 0 {
      var m := 2 * n - 1;
      RangeSplit(t, 0, m, m + 1);
      RangeOne(t, m);
      RangeSplit(t, 0, m - 1, m);
      var front, mid := Range(t, 0, m - 1), Range(t, m - 1, m);
      assert Item(t, m) == [t.seps[n - 1]] by { ItemSep(t, m); }
      SortedParts(front + mid, [t.seps[n - 1]]);
      SortedParts(front, mid);
      SepsSorted(t, n - 1);
      LastAbove(front, mid, t.seps[n - 1]);
      var s := t.seps[..n];
      assert s[..n - 1] == t.seps[..n - 1];
      forall i, j | 0 <= i < j < n ensures !Below(s[j].key, s[i].key) {
        assert s[i] == t.seps[..n - 1][i];
        if j < n - 1 { assert s[j] == t.seps[..n - 1][j]; } else { assert s[i] in front; }
      }
    }
  }

  lemma ItemSep(t: Tree, i: nat)
    requires t.Node? && Shaped(t) && i < ItemCount(t) && i % 2 == 1
    ensures Item(t, i) == [t.seps[i / 2]]
  {
  }

  lemma LastAbove(front: seq<Entry>, mid: seq<Entry>, e: Entry)
    requires forall i, j :: 0 <= i < |front + mid| && 0 <= j < 1 ==> !Below([e][j].key, (front + mid)[i].key)
    ensures forall x :: x in front ==> !Below(e.key, x.key)
  {
    hide Below;
    forall x | x in front ensures !Below(e.key, x.key) {
      var i :| 0 <= i < |front| && front[i] == x;
      assert (front + mid)[i] == x && [e][0] == e;
    }
  }

  /** Around the chosen child: everything before is below the target, everything after is not. */
  lemma NodeParts(t: Tree, target: Key)
    requires t.Node? && Shaped(t) && Sorted(Entries(t))
    ensures Sorted(t.seps)
    ensures var i, n := LowerBound(t.seps, target), ItemCount(t);
            && Entries(t) == Range(t, 0, 2 * i) + Entries(t.kids[i]) + Range(t, 2 * i + 1, n)
            && AllBelow(Range(t, 0, 2 * i), target) && NoneBelow(Range(t, 2 * i + 1, n), target) &&
               Sorted(Entries(t.kids[i]))
  {
    hide Below, Range, Item, LowerBound;
    var n := ItemCount(t);
    RangeSplit(t, 0, 2 * |t.seps|, n);
    SortedParts(Range(t, 0, 2 * |t.seps|), Range(t, 2 * |t.seps|, n));
    SepsSorted(t, |t.seps|);
    assert t.seps[..|t.seps|] == t.seps;
    var i := LowerBound(t.seps, target);
    RangeSplit(t, 0, 2 * i, n);
    RangeSplit(t, 2 * i, 2 * i + 1, n);
    RangeOne(t, 2 * i);
    ItemKid(t, 2 * i);
    var a, b, c := Range(t, 0, 2 * i), Entries(t.kids[i]), Range(t, 2 * i + 1, n);
    assert Entries(t) == a + (b + c) by { WholeRange(t); }
    SortedParts(a, b + c);
    SortedParts(b, c);
    BeforeIsBelow(t, i, target);
    AfterIsAbove(t, i, target);
  }

  lemma WholeRange(t: Tree)
    requires t.Node? && Shaped(t)
    ensures Entries(t) == Range(t, 0, ItemCount(t))
  {
  }

  lemma ItemKid(t: Tree, i: nat)
    requires t.Node? && Shaped(t) && i < ItemCount(t) && i % 2 == 0
    ensures Item(t, i) == Entries(t.kids[i / 2])
  {
  }

  lemma BeforeIsBelow(t: Tree, i: nat, target: Key)
    requires t.Node? && Shaped(t) && i <= |t.seps| && Sorted(Range(t, 0, 2 * i)) &&
             (i > 0 ==> Below(t.seps[i - 1].key, target))
    ensures AllBelow(Range(t, 0, 2 * i), target)
  {
    hide Below, Range, Item;
    if i > 0 {
      var m := 2 * i - 1;
      RangeSplit(t, 0, m, m + 1);
      RangeOne(t, m);
      ItemSep(t, m);
      var front, sep := Range(t, 0, m), t.seps[i - 1];
      SortedParts(front, [sep]);
      forall k | 0 <= k < |front + [sep]| ensures Below((front + [sep])[k].key, target) {
        if k < |front| { assert !Below([sep][0].key, front[k].key); StaysBelow(front[k].key, sep.key, target); }
      }
    } else {
      EmptyRange(t, 0);
    }
  }

  lemma EmptyRange(t: Tree, i: nat)
    requires t.Node? && Shaped(t) && i <= ItemCount(t)
    ensures Range(t, i, i) == []
  {
  }

  lemma AfterIsAbove(t: Tree, i: nat, target: Key)
    requires t.Node? && Shaped(t) && i <= |t.seps| && Sorted(Range(t, 2 * i + 1, ItemCount(t)))
    requires i < |t.seps| ==> !Below(t.seps[i].key, target)
    ensures NoneBelow(Range(t, 2 * i + 1, ItemCount(t)), target)
  {
    hide Below, Range, Item;
    var m, n := 2 * i + 1, ItemCount(t);
    if i < |t.seps| {
      RangeSplit(t, m, m + 1, n);
      RangeOne(t, m);
      ItemSep(t, m);
      var all, rest, sep := Range(t, m, n), Range(t, m + 1, n), t.seps[i];
      SortedParts([sep], rest);
      forall k | 0 <= k < |all| ensures !Below(all[k].key, target) {
        if k > 0 {
          assert all[k] == rest[k - 1] && !Below(rest[k - 1].key, [sep][0].key);
          StaysAbove(sep.key, all[k].key, target);
        }
      }
    } else {
      EmptyRange(t, n);
    }
  }

  // ----- the descent -----

  /** The pages on the way from the root to the leaf the target belongs in. */
  function Descent(t: Tree, target: Key): (n: nat)
    ensures n >= 1
  {
    match t
    case Leaf(_, _) => 1
    case Node(_, kids, seps) =>
      if Shaped(t) then 1 + Descent(kids[LowerBound(seps, target)], target) else 1
  }

  lemma DescentStep(t: Tree, target: Key)
    ensures t.Leaf? ==> Descent(t, target) == 1
    ensures t.Node? && Shaped(t) ==>
              Descent(t, target) == 1 + Descent(t.kids[LowerBound(t.seps, target)], target)
  {
    hide LowerBound;
  }

  /** One level of the descent, given what the page search found. */
  lemma SeekStep(pages: Pages, usable: nat, c: Cursor, target: Key, i: nat)
    requires c.stack != [] && PageSearch(pages, usable, Top(c), 0, Top(c).num, target) == Ok(i)
    ensures !Top(c).interior ==> SeekDown(pages, usable, c, target) == (At(c, i), Ok(()))
    ensures Top(c).interior && ChildOf(Top(c), i).Ok? ==>
              var p := PushPage(pages, At(c, 2 * i + 1), ChildOf(Top(c), i).value, false);
              SeekDown(pages, usable, c, target) ==
              (if p.1.Err? then (p.0, Err(Page(p.1.error))) else SeekDown(pages, usable, p.0, target))
  {
    hide PageSearch, ChildOf, PushPage;
  }

  lemma OutOfVisits(pages: Pages, c: Cursor, n: nat)
    requires c.visited >= MAX_PAGES_VISITED
    ensures PushPage(pages, c, n, false).1 == Err(TraversalTooLong)
  {
  }

  lemma ParkedTop(c: Cursor, step: nat, f: Frame)
    requires c.stack != [] && Parked(c.stack[..|c.stack| - 1]) && (Top(c).interior ==> step % 2 == 1)
    ensures Parked(At(c, step).stack) && Parked((At(c, step).stack + [f])[..|c.stack|])
  {
    assert (At(c, step).stack + [f])[..|c.stack|] == At(c, step).stack;
  }

  /** The descent leaves exactly the entries not below the target ahead. It visits one page per level, and
      fails exactly when that exceeds the visit limit. */
  lemma {:induction false} SeekDownFinds(pages: Pages, usable: nat, c: Cursor, trees: seq<Tree>, rest: seq<Entry>,
                                         total: nat, target: Key)
    returns (left: seq<Tree>, k: nat, spent: nat)
    requires c.stack != [] && trees != [] && Top(c).step == 0 && c.visited <= MAX_PAGES_VISITED
    requires Parked(c.stack[..|c.stack| - 1])
    requires Facing(pages, usable, c, trees, Entries(trees[|trees| - 1]) + rest, total, false)
    requires Sorted(Entries(trees[|trees| - 1])) && NoneBelow(rest, target)
    ensures var es := Entries(trees[|trees| - 1]);
            k <= |es| && AllBelow(es[..k], target) && NoneBelow(es[k..], target) && spent <= total
    ensures var es, d := Entries(trees[|trees| - 1]), SeekDown(pages, usable, c, target);
            if c.visited + Descent(trees[|trees| - 1], target) > MAX_PAGES_VISITED + 1
            then d.1 == Err(Page(TraversalTooLong))
            else d.1.Ok? && Parked(d.0.stack) && Facing(pages, usable, d.0, left, es[k..] + rest, spent, false)
    decreases trees[|trees| - 1]
  {
    hide Descent, SeekDown, Parked, Facing, StoredAt, Below, LowerBound, PageSearch, PushPage, EntryAt, KeyOf;
    hide Ahead, NodesAhead, ChildOf;
    var t, f := trees[|trees| - 1], Top(c);
    TopFrame(pages, usable, c, trees, Entries(t) + rest, total, false);
    if t.Leaf? {
      k := LowerBound(t.entries, target);
      SearchFinds(pages, usable, f, t, 0, f.num, target);
      AboveBound(t.entries, target);
      spent := LeafSeek(pages, usable, c, trees, rest, total, k);
      left := trees;
      DescentStep(t, target);
      SeekStep(pages, usable, c, target, k);
      ParkedTop(c, k, f);
    } else {
      var i := LowerBound(t.seps, target);
      NodeParts(t, target);
      SearchFinds(pages, usable, f, t, 0, f.num, target);
      var kid, before, after := t.kids[i], Range(t, 0, 2 * i), Range(t, 2 * i + 1, ItemCount(t));
      KidHas(pages, usable, f, t, i);
      DescentStep(t, target);
      SeekStep(pages, usable, c, target, i);
      if c.visited >= MAX_PAGES_VISITED {
        OutOfVisits(pages, At(c, 2 * i + 1), kid.page);
        left, k, spent := trees, LowerBound(Entries(t), target), total;
        AboveBound(Entries(t), target);
      } else {
        var sum := NodeSeek(pages, usable, c, trees, rest, total, i);
        var p := PushPage(pages, At(c, 2 * i + 1), kid.page, false);
        JoinNone(after, rest, target);
        assert Parked(p.0.stack[..|p.0.stack| - 1]) by {
          PushedOnto(pages, At(c, 2 * i + 1), kid.page);
          ParkedTop(c, 2 * i + 1, Top(p.0));
        }
        var j;
        left, j, spent := SeekDownFinds(pages, usable, p.0, trees + [kid], after + rest, sum, target);
        k := |before| + j;
        Rejoin(before, Entries(kid), after, j, target);
        assert Entries(kid)[j..] + (after + rest) == Entries(t)[k..] + rest;
      }
    }
  }

  lemma PushedOnto(pages: Pages, c: Cursor, n: nat)
    ensures var p := PushPage(pages, c, n, false); p.1.Ok? ==> p.0.stack != [] && p.0.stack == c.stack + [Top(p.0)]
  {
  }

  lemma JoinNone(a: seq<Entry>, b: seq<Entry>, target: Key)
    requires NoneBelow(a, target) && NoneBelow(b, target)
    ensures NoneBelow(a + b, target)
  {
    hide Below;
  }

  /** The bound inside the child is the bound of the whole page. */
  lemma Rejoin(before: seq<Entry>, kid: seq<Entry>, after: seq<Entry>, j: nat, target: Key)
    requires AllBelow(before, target) && j <= |kid| && AllBelow(kid[..j], target) && NoneBelow(kid[j..], target) &&
             NoneBelow(after, target)
    ensures var es, k := before + kid + after, |before| + j;
            k <= |es| && AllBelow(es[..k], target) && NoneBelow(es[k..], target) && es[k..] == kid[j..] + after
  {
    hide Below;
    var es, k := before + kid + after, |before| + j;
    assert es[..k] == before + kid[..j];
    assert es[k..] == kid[j..] + after;
  }

  lemma LeafSeek(pages: Pages, usable: nat, c: Cursor, trees: seq<Tree>, rest: seq<Entry>, total: nat, k: nat)
    returns (spent: nat)
    requires c.stack != [] && trees != [] && Top(c).step == 0 && trees[|trees| - 1].Leaf? &&
             k <= |trees[|trees| - 1].entries|
    requires Facing(pages, usable, c, trees, trees[|trees| - 1].entries + rest, total, false)
    ensures Facing(pages, usable, At(c, k), trees, trees[|trees| - 1].entries[k..] + rest, spent, false) &&
            spent <= total
  {
    hide Facing, StoredAt;
    var t := trees[|trees| - 1];
    TopFrame(pages, usable, c, trees, t.entries + rest, total, false);
    var below, unseen := FacingStep(pages, usable, c, trees, t.entries + rest, total, false, k);
    assert t.entries[0..] == t.entries;
    SameTail(t.entries, rest, below);
    spent := total;
  }

  lemma SameTail(a: seq<Entry>, b: seq<Entry>, c: seq<Entry>)
    requires a + b == a + c
    ensures b == c
  {
    assert (a + b)[|a|..] == b && (a + c)[|a|..] == c;
  }

  lemma NodeSeek(pages: Pages, usable: nat, c: Cursor, trees: seq<Tree>, rest: seq<Entry>, total: nat, i: nat)
    returns (sum: nat)
    requires c.stack != [] && trees != [] && Top(c).step == 0 && trees[|trees| - 1].Node?
    requires c.visited < MAX_PAGES_VISITED
    requires Shaped(trees[|trees| - 1]) && i < |trees[|trees| - 1].kids|
    requires Facing(pages, usable, c, trees, Entries(trees[|trees| - 1]) + rest, total, false)
    ensures var t := trees[|trees| - 1]; var p := PushPage(pages, At(c, 2 * i + 1), t.kids[i].page, false);
            && ChildOf(Top(c), i) == Ok(t.kids[i].page) && p.1.Ok? && p.0.visited == c.visited + 1 &&
               p.0.stack != [] && Top(p.0).step == 0
            && sum <= total
            && Facing(pages, usable, p.0, trees + [t.kids[i]],
               Entries(t.kids[i]) + (Range(t, 2 * i + 1, ItemCount(t)) + rest), sum, false)
  {
    hide Facing, StoredAt, PushPage, ChildOf, Range, CountRange;
    var t := trees[|trees| - 1];
    TopFrame(pages, usable, c, trees, Entries(t) + rest, total, false);
    KidHas(pages, usable, Top(c), t, i);
    var below, unseen := FacingStep(pages, usable, c, trees, Entries(t) + rest, total, false, 2 * i + 1);
    WholeRange(t);
    SameTail(Entries(t), rest, below);
    var n := ItemCount(t);
    CountSplit(t, 0, 2 * i, n);
    CountSplit(t, 2 * i, 2 * i + 1, n);
    CountOne(t, 2 * i);
    var after := c.visited + CountRange(t, 2 * i + 1, n) + unseen;
    FacingPush(pages, usable, At(c, 2 * i + 1), trees, Range(t, 2 * i + 1, n) + rest, after, false, t.kids[i]);
    sum := after + NodeCount(t.kids[i]);
  }

  /** The payload a lookup of `es[k..]` should return. */
  function FirstOf(es: seq<Entry>): (r: Option<seq<Byte>>) { if es == [] then None else Some(es[0].payload) }

  /** On any sorted stored index tree `seek` returns the first in-order entry not below the target, unless
      the way down alone is longer than the visit limit. Where the whole tree is within the limit, `next`
      then yields exactly the rest. */
  lemma SeekIsLowerBound(pages: Pages, usable: nat, t: Tree, target: Key) returns (k: nat)
    requires StoredAt(pages, usable, t) && Sorted(Entries(t))
    ensures k <= |Entries(t)| && AllBelow(Entries(t)[..k], target) && NoneBelow(Entries(t)[k..], target)
    ensures Seek(pages, usable, t.page, target).1 ==
            if Descent(t, target) <= MAX_PAGES_VISITED then Ok(FirstOf(Entries(t)[k..]))
            else Err(Page(TraversalTooLong))
    ensures NodeCount(t) <= MAX_PAGES_VISITED ==>
              var s := Seek(pages, usable, t.page, target);
              s.1.Ok? && Scans(pages, usable, (s.0, Ok(s.1.value)), Entries(t)[k..], false)
  {
    hide Facing, StoredAt, Below, PushPage, SeekDown, Scans, Advance, Descent, NodeCount;
    EmptyFacing(pages, usable, false);
    FacingPush(pages, usable, Cursor([], 0), [], [], 0, false, t);
    var p := PushPage(pages, Cursor([], 0), t.page, false);
    PushedOnto(pages, Cursor([], 0), t.page);
    var left, spent;
    assert ([] + [t])[0] == t && p.0.stack[..0] == [];
    left, k, spent := SeekDownFinds(pages, usable, p.0, [] + [t], [], NodeCount(t), target);
    DescentBounded(t, target);
    if Descent(t, target) <= MAX_PAGES_VISITED {
      var d, es := SeekDown(pages, usable, p.0, target), Entries(t)[k..];
      assert es + [] == es;
      var rest := ParkedYields(pages, usable, d.0, left, es, spent);
      if NodeCount(t) <= MAX_PAGES_VISITED {
        ScanFrom(pages, usable, d.0, left, es, spent, false);
        ScanOk(pages, usable, Advance(pages, usable, d.0), es, false);
      }
    }
  }

  lemma {:induction false} DescentBounded(t: Tree, target: Key)
    ensures Descent(t, target) <= NodeCount(t)
  {
    if t.Node? && Shaped(t) {
      var i := LowerBound(t.seps, target);
      DescentBounded(t.kids[i], target);
      CountSplit(t, 0, 2 * i, ItemCount(t));
      CountSplit(t, 2 * i, 2 * i + 1, ItemCount(t));
      CountOne(t, 2 * i);
    }
  }

  lemma ScanOk(pages: Pages, usable: nat, m: Moved, es: seq<Entry>, desc: bool)
    requires Scans(pages, usable, m, es, desc)
    ensures m.1.Ok?
  {
  }
}
