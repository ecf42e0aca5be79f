/** The index cursor's stack machine, ascending and descending, against the in-order traversal. */
module IndexScan {
  import opened Bytes
  import opened Overflow
  import opened TablePage
  import opened IndexTree

  datatype Frame = Frame(page: nat, buf: seq<Byte>, interior: bool, num: nat, base: nat, right: nat, step: nat)
  datatype Cursor = Cursor(stack: seq<Frame>, visited: nat)

  type Moved = (Cursor, Result<Option<seq<Byte>>, PageError>)

  function LastStep(interior: bool, num: nat): (n: nat) { if interior then 2 * num + 1 else num }

  function ReadFrame(pages: Pages, n: nat, desc: bool): (r: Result<Frame, PageError>) {
    if n !in pages then Err(NoSuchPage)
    else
      var buf, hs := pages[n], HeaderStart(n);
      match PageType(buf, hs)
      case Err(e) => Err(e)
      case Ok(kind) =>
        if kind != LEAF_INDEX && kind != INTERIOR_INDEX then Err(UnexpectedPageType)
        else if kind == INTERIOR_INDEX && |buf| < hs + 12 then Err(PageTooShort)
        else
          match CellCount(buf, hs)
          case Err(e) => Err(e)
          case Ok(num) =>
            var interior := kind == INTERIOR_INDEX;
            var step := if desc then LastStep(interior, num) else 0;
            Ok(Frame(n, buf, interior, num, if interior then hs + 12 else hs + 8,
                     if interior then ReadBe32(buf, hs + 8) else 0, step))
  }

  function PushPage(pages: Pages, c: Cursor, n: nat, desc: bool): (r: (Cursor, Result<(), PageError>))
    ensures r.0.visited == c.visited + 1
    ensures r.1.Ok? ==> r.0.visited <= MAX_PAGES_VISITED
  {
    var v := c.visited + 1;
    if v > MAX_PAGES_VISITED then (c.(visited := v), Err(TraversalTooLong))
    else
      match ReadFrame(pages, n, desc)
      case Err(e) => (c.(visited := v), Err(e))
      case Ok(f) => (Cursor(c.stack + [f], v), Ok(()))
  }

  function Budget(c: Cursor): (n: nat) { Max(0, MAX_PAGES_VISITED + 1 - c.visited) }

  function Top(c: Cursor): Frame
    requires c.stack != []
  {
    c.stack[|c.stack| - 1]
  }

  function Popped(c: Cursor): (r: Cursor)
    requires c.stack != []
  {
    c.(stack := c.stack[..|c.stack| - 1])
  }

  function At(c: Cursor, step: nat): (r: Cursor)
    requires c.stack != []
  {
    c.(stack := c.stack[..|c.stack| - 1] + [Top(c).(step := step)])
  }

  function Yield(pages: Pages, usable: nat, c: Cursor, f: Frame, i: nat): (r: Moved) {
    match EntryAt(pages, usable, f.buf, f.base, f.interior, i)
    case Err(e) => (c, Err(e))
    case Ok(p) => (c, Ok(Some(p)))
  }

  /** The page behind child `k` of an interior frame, the rightmost one past the cells. */
  function ChildOf(f: Frame, k: nat): (r: Result<nat, PageError>) {
    if k == f.num then Ok(f.right)
    else
      match ChildAt(f.buf, f.base, k)
      case Err(e) => Err(e)
      case Ok(n) => Ok(n)
  }

  /** `advance`. */
  function Advance(pages: Pages, usable: nat, c: Cursor): (r: Moved)
    decreases Budget(c), |c.stack|
  {
    if c.stack == [] then (c, Ok(None))
    else
      var f := Top(c);
      if !f.interior then
        if f.step >= f.num then Advance(pages, usable, Popped(c))
        else Yield(pages, usable, At(c, f.step + 1), f, f.step)
      else if f.step > 2 * f.num then Advance(pages, usable, Popped(c))
      else if f.step % 2 == 1 then Yield(pages, usable, At(c, f.step + 1), f, (f.step - 1) / 2)
      else
        match ChildOf(f, f.step / 2)
        case Err(e) => (At(c, f.step + 1), Err(e))
        case Ok(child) =>
          var p := PushPage(pages, At(c, f.step + 1), child, false);
          if p.1.Err? then (p.0, Err(p.1.error)) else Advance(pages, usable, p.0)
  }

  /** `advance_desc`. */
  function AdvanceDesc(pages: Pages, usable: nat, c: Cursor): (r: Moved)
    decreases Budget(c), |c.stack|
  {
    if c.stack == [] then (c, Ok(None))
    else
      var f := Top(c);
      if f.step == 0 then AdvanceDesc(pages, usable, Popped(c))
      else
        var a := f.step - 1;
        if !f.interior then Yield(pages, usable, At(c, a), f, a)
        else if a % 2 == 1 then Yield(pages, usable, At(c, a), f, (a - 1) / 2)
        else
          match ChildOf(f, a / 2)
          case Err(e) => (At(c, a), Err(e))
          case Ok(child) =>
            var p := PushPage(pages, At(c, a), child, true);
            if p.1.Err? then (p.0, Err(p.1.error)) else AdvanceDesc(pages, usable, p.0)
  }

  function Move(pages: Pages, usable: nat, c: Cursor, desc: bool): (r: Moved) {
    if desc then AdvanceDesc(pages, usable, c) else Advance(pages, usable, c)
  }

  /** `first` and `last`. */
  function Start(pages: Pages, usable: nat, root: nat, desc: bool): (r: Moved) {
    var p := PushPage(pages, Cursor([], 0), root, desc);
    if p.1.Err? then (p.0, Err(p.1.error)) else Move(pages, usable, p.0, desc)
  }

  // ----- what the stack stands for -----

  ghost predicate FrameOf(pages: Pages, usable: nat, f: Frame, t: Tree) {
    && StoredAt(pages, usable, t) && Shaped(t) && f.page == t.page && f.buf == pages[t.page] &&
       f.step <= LastStep(f.interior, f.num)
    && match t
       case Leaf(_, entries) => !f.interior && f.num == |entries| && f.base == HeaderStart(t.page) + 8
       case Node(_, kids, seps) =>
         f.interior && f.num == |seps| && f.base == HeaderStart(t.page) + 12 && f.right == kids[|seps|].page
  }

  ghost predicate StackOf(pages: Pages, usable: nat, stack: seq<Frame>, trees: seq<Tree>) {
    |stack| == |trees| && forall i :: 0 <= i < |stack| ==> FrameOf(pages, usable, stack[i], trees[i])
  }

  lemma FrameRead(pages: Pages, usable: nat, t: Tree, desc: bool)
    requires StoredAt(pages, usable, t)
    ensures var r := ReadFrame(pages, t.page, desc);
            r.Ok? && FrameOf(pages, usable, r.value, t) && r.value.step == if desc then
              LastStep(r.value.interior, r.value.num) else 0
  {
    hide EntryIs;
  }

  /** Entries in the order the walk meets them. */
  function Met(es: seq<Entry>, desc: bool): (r: seq<Entry>) { if desc then Reversed(es) else es }

  function Ahead(f: Frame, t: Tree, desc: bool): (r: seq<Entry>) {
    if t.Leaf? then
      if f.step > |t.entries| then [] else Met(if desc then t.entries[..f.step] else t.entries[f.step..], desc)
    else if !Shaped(t) || f.step > ItemCount(t) then []
    else Met(if desc then Range(t, 0, f.step) else Range(t, f.step, ItemCount(t)), desc)
  }

  function NodesAhead(f: Frame, t: Tree, desc: bool): (n: nat) {
    if t.Leaf? || !Shaped(t) || f.step > ItemCount(t) then 0
    else if desc then CountRange(t, 0, f.step) else CountRange(t, f.step, ItemCount(t))
  }

  function AheadAll(stack: seq<Frame>, trees: seq<Tree>, desc: bool): (r: seq<Entry>)
    requires |stack| == |trees|
  {
    if stack == [] then []
    else var n := |stack| - 1; Ahead(stack[n], trees[n], desc) + AheadAll(stack[..n], trees[..n], desc)
  }

  function Unseen(stack: seq<Frame>, trees: seq<Tree>, desc: bool): (r: nat)
    requires |stack| == |trees|
  {
    if stack == [] then 0
    else var n := |stack| - 1; NodesAhead(stack[n], trees[n], desc) + Unseen(stack[..n], trees[..n], desc)
  }

  lemma AheadSnoc(stack: seq<Frame>, trees: seq<Tree>, f: Frame, t: Tree, desc: bool)
    requires |stack| == |trees|
    ensures AheadAll(stack + [f], trees + [t], desc) == Ahead(f, t, desc) + AheadAll(stack, trees, desc)
    ensures Unseen(stack + [f], trees + [t], desc) == NodesAhead(f, t, desc) + Unseen(stack, trees, desc)
  {
    assert (stack + [f])[..|stack|] == stack && (trees + [t])[..|trees|] == trees;
  }

  lemma StackSnoc(pages: Pages, usable: nat, stack: seq<Frame>, trees: seq<Tree>, f: Frame, t: Tree)
    requires StackOf(pages, usable, stack, trees) && FrameOf(pages, usable, f, t)
    ensures StackOf(pages, usable, stack + [f], trees + [t])
  {
    hide FrameOf;
  }

  lemma StackFront(pages: Pages, usable: nat, stack: seq<Frame>, trees: seq<Tree>)
    requires StackOf(pages, usable, stack, trees) && stack != []
    ensures var n := |stack| - 1;
            && StackOf(pages, usable, stack[..n], trees[..n]) && FrameOf(pages, usable, stack[n], trees[n])
            && stack == stack[..n] + [stack[n]] && trees == trees[..n] + [trees[n]]
  {
    hide FrameOf;
  }

  lemma FreshAhead(pages: Pages, usable: nat, f: Frame, t: Tree, desc: bool)
    requires FrameOf(pages, usable, f, t) && f.step == if desc then LastStep(f.interior, f.num) else 0
    ensures Ahead(f, t, desc) == Met(Entries(t), desc) && NodesAhead(f, t, desc) + 1 == NodeCount(t)
  {
    hide StoredAt;
    if t.Leaf? { assert t.entries[0..] == t.entries && t.entries[..|t.entries|] == t.entries; }
  }

  /** The cursor has exactly `es` ahead of it, and meeting them all visits `total` pages in all. */
  ghost predicate Facing(pages: Pages, usable: nat, c: Cursor, trees: seq<Tree>, es: seq<Entry>, total: nat,
                         desc: bool) {
    && StackOf(pages, usable, c.stack, trees)
    && AheadAll(c.stack, trees, desc) == es && c.visited + Unseen(c.stack, trees, desc) == total
  }

  lemma TopFrame(pages: Pages, usable: nat, c: Cursor, trees: seq<Tree>, es: seq<Entry>, total: nat, desc: bool)
    requires Facing(pages, usable, c, trees, es, total, desc)
    ensures |trees| == |c.stack| && c.visited <= total
    ensures c.stack == [] ==> es == []
    ensures c.stack != [] ==> FrameOf(pages, usable, Top(c), trees[|trees| - 1])
  {
    hide FrameOf;
  }

  lemma FacingPop(pages: Pages, usable: nat, c: Cursor, trees: seq<Tree>, es: seq<Entry>, total: nat, desc: bool)
    requires Facing(pages, usable, c, trees, es, total, desc) && c.stack != []
    requires Ahead(Top(c), trees[|trees| - 1], desc) == [] && NodesAhead(Top(c), trees[|trees| - 1], desc) == 0
    ensures Facing(pages, usable, Popped(c), trees[..|trees| - 1], es, total, desc)
  {
    hide FrameOf;
    StackFront(pages, usable, c.stack, trees);
  }

  /** Moving the top frame to another step changes only what that frame has ahead. */
  lemma FacingStep(pages: Pages, usable: nat, c: Cursor, trees: seq<Tree>, es: seq<Entry>, total: nat, desc: bool,
                   step: nat)
    returns (below: seq<Entry>, unseen: nat)
    requires Facing(pages, usable, c, trees, es, total, desc) && c.stack != []
    requires step <= LastStep(Top(c).interior, Top(c).num)
    ensures var t, f' := trees[|trees| - 1], Top(c).(step := step);
            && es == Ahead(Top(c), t, desc) + below && total == c.visited + NodesAhead(Top(c), t, desc) + unseen
            && Facing(pages, usable, At(c, step), trees, Ahead(f', t, desc) + below,
               c.visited + NodesAhead(f', t, desc) + unseen, desc)
  {
    hide Ahead, NodesAhead, StoredAt;
    var n := |c.stack| - 1;
    var f' := Top(c).(step := step);
    StackFront(pages, usable, c.stack, trees);
    AheadSnoc(c.stack[..n], trees[..n], c.stack[n], trees[n], desc);
    AheadSnoc(c.stack[..n], trees[..n], f', trees[n], desc);
    StackSnoc(pages, usable, c.stack[..n], trees[..n], f', trees[n]);
    below, unseen := AheadAll(c.stack[..n], trees[..n], desc), Unseen(c.stack[..n], trees[..n], desc);
  }

  lemma FacingPush(pages: Pages, usable: nat, c: Cursor, trees: seq<Tree>, es: seq<Entry>, total: nat, desc: bool,
                   t: Tree)
    requires Facing(pages, usable, c, trees, es, total, desc) && StoredAt(pages, usable, t)
    requires c.visited < MAX_PAGES_VISITED
    ensures var p := PushPage(pages, c, t.page, desc);
            && p.1.Ok? && p.0.visited == c.visited + 1
            && Facing(pages, usable, p.0, trees + [t], Met(Entries(t), desc) + es, total + NodeCount(t), desc)
            && p.0.stack != [] && Top(p.0).step == (if desc then LastStep(Top(p.0).interior, Top(p.0).num) else 0)
  {
    hide FrameOf, ReadFrame, StoredAt, Met, Ahead, NodesAhead, AheadAll, Unseen, StackOf, NodeCount;
    TopFrame(pages, usable, c, trees, es, total, desc);
    FrameRead(pages, usable, t, desc);
    var f := ReadFrame(pages, t.page, desc).value;
    FreshAhead(pages, usable, f, t, desc);
    AheadSnoc(c.stack, trees, f, t, desc);
    StackSnoc(pages, usable, c.stack, trees, f, t);
  }

  // ----- one move -----

  ghost predicate Yields(pages: Pages, usable: nat, m: Moved, es: seq<Entry>, trees: seq<Tree>, total: nat,
                         desc: bool) {
    if es == [] then m.1 == Ok(None) && m.0.stack == []
    else m.1 == Ok(Some(es[0].payload)) && Facing(pages, usable, m.0, trees, es[1..], total, desc)
  }

  /** The item a frame deals with next, and its step afterwards. */
  function NextItem(f: Frame, desc: bool): (i: nat) { if desc then Max(0, f.step - 1) else f.step }

  function NextStep(f: Frame, desc: bool): (s: nat) { if desc then Max(0, f.step - 1) else f.step + 1 }

  predicate Done(f: Frame, desc: bool) { if desc then f.step == 0 else f.step >= LastStep(f.interior, f.num) }

  lemma LeafHas(pages: Pages, usable: nat, t: Tree, i: nat)
    requires StoredAt(pages, usable, t) && t.Leaf? && i < |t.entries|
    ensures EntryAt(pages, usable, pages[t.page], HeaderStart(t.page) + 8, false, i) == Ok(t.entries[i].payload)
  {
    hide EntryAt;
    assert EntryIs(pages, usable, pages[t.page], HeaderStart(t.page) + 8, false, i, t.entries[i]);
  }

  lemma SepHas(pages: Pages, usable: nat, t: Tree, i: nat)
    requires StoredAt(pages, usable, t) && t.Node? && i < |t.seps|
    ensures EntryAt(pages, usable, pages[t.page], HeaderStart(t.page) + 12, true, i) == Ok(t.seps[i].payload)
  {
    hide EntryAt;
    assert EntryIs(pages, usable, pages[t.page], HeaderStart(t.page) + 12, true, i, t.seps[i]);
  }

  lemma KidHas(pages: Pages, usable: nat, f: Frame, t: Tree, k: nat)
    requires FrameOf(pages, usable, f, t) && t.Node? && k < |t.kids|
    ensures ChildOf(f, k) == Ok(t.kids[k].page) && StoredAt(pages, usable, t.kids[k])
  {
    hide EntryIs, ChildAt;
  }

  lemma LeafSplit(es: seq<Entry>, i: nat, desc: bool)
    requires i < |es|
    ensures Met(if desc then es[..i + 1] else es[i..], desc) == [es[i]] +
            Met(if desc then es[..i] else es[i + 1..], desc)
  {
    if desc {
      assert es[..i + 1] == es[..i] + [es[i]];
      ReversedConcat(es[..i], [es[i]]);
      assert Reversed([es[i]]) == [es[i]];
    } else {
      assert es[i..] == [es[i]] + es[i + 1..];
    }
  }

  lemma NodeSplit(t: Tree, i: nat, desc: bool)
    requires t.Node? && Shaped(t) && i < ItemCount(t)
    ensures Met(if desc then Range(t, 0, i + 1) else Range(t, i, ItemCount(t)), desc) ==
            Met(Item(t, i), desc) + Met(if desc then Range(t, 0, i) else Range(t, i + 1, ItemCount(t)), desc)
    ensures (if desc then CountRange(t, 0, i + 1) else CountRange(t, i, ItemCount(t))) ==
            ItemNodes(t, i) + if desc then CountRange(t, 0, i) else CountRange(t, i + 1, ItemCount(t))
  {
    hide Item, ItemNodes, Range, CountRange;
    RangeOne(t, i);
    CountOne(t, i);
    if desc {
      RangeSplit(t, 0, i, i + 1);
      CountSplit(t, 0, i, i + 1);
      ReversedConcat(Range(t, 0, i), Item(t, i));
    } else {
      RangeSplit(t, i, i + 1, ItemCount(t));
      CountSplit(t, i, i + 1, ItemCount(t));
    }
  }

  /** What a frame has ahead is its next item, then what the next step has ahead. */
  lemma FrameSplits(pages: Pages, usable: nat, f: Frame, t: Tree, desc: bool)
    requires FrameOf(pages, usable, f, t) && !Done(f, desc)
    ensures var i, f' := NextItem(f, desc), f.(step := NextStep(f, desc));
            && f'.step <= LastStep(f.interior, f.num)
            && (t.Leaf? ==>
                i < |t.entries| && Ahead(f, t, desc) == [t.entries[i]] + Ahead(f', t, desc) &&
                NodesAhead(f, t, desc) == NodesAhead(f', t, desc))
            && (t.Node? ==> i < ItemCount(t) && Ahead(f, t, desc) == Met(Item(t, i), desc) + Ahead(f', t, desc)
                            && NodesAhead(f, t, desc) == ItemNodes(t, i) + NodesAhead(f', t, desc))
  {
    hide StoredAt, Met, Item, ItemNodes, Range, CountRange;
    var i := NextItem(f, desc);
    if t.Leaf? { LeafSplit(t.entries, i, desc); } else { NodeSplit(t, i, desc); }
  }

  lemma EntryYields(pages: Pages, usable: nat, c: Cursor, trees: seq<Tree>, es: seq<Entry>, total: nat, desc: bool)
    requires Facing(pages, usable, c, trees, es, total, desc) && c.stack != [] && !Done(Top(c), desc)
    requires Top(c).interior ==> NextItem(Top(c), desc) % 2 == 1
    ensures Yields(pages, usable, Move(pages, usable, c, desc), es, trees, total, desc)
  {
    hide Facing, StoredAt, Ahead, NodesAhead, EntryAt, PushPage;
    TopFrame(pages, usable, c, trees, es, total, desc);
    var f, t, i := Top(c), trees[|trees| - 1], NextItem(Top(c), desc);
    FrameSplits(pages, usable, f, t, desc);
    var below, unseen := FacingStep(pages, usable, c, trees, es, total, desc, NextStep(f, desc));
    var e := if t.Leaf? then t.entries[i] else t.seps[i / 2];
    if t.Leaf? { LeafHas(pages, usable, t, i); } else { SepHas(pages, usable, t, i / 2); }
    MetOne(e, desc);
    assert es == [e] + (Ahead(f.(step := NextStep(f, desc)), t, desc) + below);
  }

  lemma MetOne(e: Entry, desc: bool)
    ensures Met([e], desc) == [e]
  {
  }

  /** Every frame stands at an entry or at its end, as a descent leaves them: no move from here enters a
      page until an entry has been met. */
  ghost predicate Parked(stack: seq<Frame>) {
    forall i :: 0 <= i < |stack| ==> stack[i].interior ==> stack[i].step % 2 == 1
  }

  lemma {:induction false} ParkedYields(pages: Pages, usable: nat, c: Cursor, trees: seq<Tree>, es: seq<Entry>,
                                        total: nat)
    returns (left: seq<Tree>)
    requires Facing(pages, usable, c, trees, es, total, false) && Parked(c.stack)
    ensures Yields(pages, usable, Advance(pages, usable, c), es, left, total, false)
    decreases |c.stack|
  {
    hide Facing, StoredAt, PushPage, Yields, Ahead, NodesAhead;
    left := trees;
    TopFrame(pages, usable, c, trees, es, total, false);
    if c.stack == [] {
      NothingLeft(pages, usable, c, trees, total, false);
    } else if Done(Top(c), false) {
      var n := |trees| - 1;
      DoneAhead(pages, usable, Top(c), trees[n], false);
      FacingPop(pages, usable, c, trees, es, total, false);
      left := ParkedYields(pages, usable, Popped(c), trees[..n], es, total);
    } else {
      EntryYields(pages, usable, c, trees, es, total, false);
    }
  }

  /** A child is entered with all of its entries ahead, then the rest. */
  lemma KidEnters(pages: Pages, usable: nat, c: Cursor, trees: seq<Tree>, es: seq<Entry>, total: nat, desc: bool)
    requires Facing(pages, usable, c, trees, es, total, desc) && total <= MAX_PAGES_VISITED
    requires c.stack != [] && !Done(Top(c), desc) && Top(c).interior && NextItem(Top(c), desc) % 2 == 0
    ensures var t, f := trees[|trees| - 1], Top(c); var k := NextItem(f, desc) / 2;
            && t.Node? && k < |t.kids| && c.visited < MAX_PAGES_VISITED
            && var p := PushPage(pages, At(c, NextStep(f, desc)), t.kids[k].page, desc);
            && p.1.Ok? && p.0.visited == c.visited + 1
            && Facing(pages, usable, p.0, trees + [t.kids[k]], es, total, desc)
            && Move(pages, usable, c, desc) == Move(pages, usable, p.0, desc)
  {
    hide Facing, StoredAt, Ahead, NodesAhead, PushPage, Met, Advance, AdvanceDesc;
    TopFrame(pages, usable, c, trees, es, total, desc);
    var f, t, i := Top(c), trees[|trees| - 1], NextItem(Top(c), desc);
    FrameSplits(pages, usable, f, t, desc);
    var below, unseen := FacingStep(pages, usable, c, trees, es, total, desc, NextStep(f, desc));
    var kid, rest := t.kids[i / 2], Ahead(f.(step := NextStep(f, desc)), t, desc);
    KidHas(pages, usable, f, t, i / 2);
    assert es == Met(Entries(kid), desc) + (rest + below);
    FacingPush(pages, usable, At(c, NextStep(f, desc)), trees, rest + below, total - NodeCount(kid), desc, kid);
    KidMoves(pages, usable, c, t, desc);
  }

  lemma KidMoves(pages: Pages, usable: nat, c: Cursor, t: Tree, desc: bool)
    requires c.stack != [] && FrameOf(pages, usable, Top(c), t) && !Done(Top(c), desc) && Top(c).interior &&
             NextItem(Top(c), desc) % 2 == 0
    ensures var f := Top(c); var k := NextItem(f, desc) / 2;
            && t.Node? && k < |t.kids|
            && var p := PushPage(pages, At(c, NextStep(f, desc)), t.kids[k].page, desc);
            (p.1.Ok? ==> Move(pages, usable, c, desc) == Move(pages, usable, p.0, desc))
  {
    hide StoredAt, PushPage, ChildOf;
    KidHas(pages, usable, Top(c), t, NextItem(Top(c), desc) / 2);
  }

  /** A move returns the first entry ahead, and leaves exactly the others ahead. */
  lemma {:induction false} MoveYields(pages: Pages, usable: nat, c: Cursor, trees: seq<Tree>, es: seq<Entry>,
                                      total: nat, desc: bool)
    returns (left: seq<Tree>)
    requires Facing(pages, usable, c, trees, es, total, desc) && total <= MAX_PAGES_VISITED
    ensures Yields(pages, usable, Move(pages, usable, c, desc), es, left, total, desc)
    decreases Budget(c), |c.stack|
  {
    hide Facing, StoredAt, PushPage, Yields, Ahead, NodesAhead;
    left := trees;
    TopFrame(pages, usable, c, trees, es, total, desc);
    if c.stack == [] {
      NothingLeft(pages, usable, c, trees, total, desc);
    } else {
      var f, n := Top(c), |trees| - 1;
      if Done(f, desc) {
        DoneAhead(pages, usable, f, trees[n], desc);
        FacingPop(pages, usable, c, trees, es, total, desc);
        left := MoveYields(pages, usable, Popped(c), trees[..n], es, total, desc);
      } else if !f.interior || NextItem(f, desc) % 2 == 1 {
        EntryYields(pages, usable, c, trees, es, total, desc);
      } else {
        KidEnters(pages, usable, c, trees, es, total, desc);
        var kid := trees[n].kids[NextItem(f, desc) / 2];
        var p := PushPage(pages, At(c, NextStep(f, desc)), kid.page, desc);
        left := MoveYields(pages, usable, p.0, trees + [kid], es, total, desc);
      }
    }
  }

  lemma NothingLeft(pages: Pages, usable: nat, c: Cursor, trees: seq<Tree>, total: nat, desc: bool)
    requires c.stack == []
    ensures Yields(pages, usable, Move(pages, usable, c, desc), [], trees, total, desc)
  {
  }

  lemma DoneAhead(pages: Pages, usable: nat, f: Frame, t: Tree, desc: bool)
    requires FrameOf(pages, usable, f, t) && Done(f, desc)
    ensures Ahead(f, t, desc) == [] && NodesAhead(f, t, desc) == 0
  {
    hide StoredAt;
  }

  // ----- whole scans -----

  /** Successive moves return exactly the payloads of `es`, then nothing. */
  ghost predicate Scans(pages: Pages, usable: nat, m: Moved, es: seq<Entry>, desc: bool)
    decreases |es|
  {
    if es == [] then m.1 == Ok(None) && m.0.stack == []
    else m.1 == Ok(Some(es[0].payload)) && Scans(pages, usable, Move(pages, usable, m.0, desc), es[1..], desc)
  }

  lemma {:induction false} ScanFrom(pages: Pages, usable: nat, c: Cursor, trees: seq<Tree>, es: seq<Entry>, total: nat,
                                    desc: bool)
    requires Facing(pages, usable, c, trees, es, total, desc) && total <= MAX_PAGES_VISITED
    ensures Scans(pages, usable, Move(pages, usable, c, desc), es, desc)
    decreases |es|
  {
    hide Facing, Move;
    var left := MoveYields(pages, usable, c, trees, es, total, desc);
    if es != [] { ScanFrom(pages, usable, Move(pages, usable, c, desc).0, left, es[1..], total, desc); }
  }

  lemma EmptyFacing(pages: Pages, usable: nat, desc: bool)
    ensures Facing(pages, usable, Cursor([], 0), [], [], 0, desc)
  {
  }

  /** `first` and `next` yield the in-order entries, interior ones included; `last` and `prev` yield
      exactly their reverse. */
  lemma ScanIsTraversal(pages: Pages, usable: nat, t: Tree, desc: bool)
    requires StoredAt(pages, usable, t) && NodeCount(t) <= MAX_PAGES_VISITED
    ensures Scans(pages, usable, Start(pages, usable, t.page, desc), Met(Entries(t), desc), desc)
  {
    hide Facing, StoredAt, PushPage, Scans, Move;
    EmptyFacing(pages, usable, desc);
    FacingPush(pages, usable, Cursor([], 0), [], [], 0, desc, t);
    var p := PushPage(pages, Cursor([], 0), t.page, desc);
    assert Met(Entries(t), desc) + [] == Met(Entries(t), desc);
    ScanFrom(pages, usable, p.0, [] + [t], Met(Entries(t), desc), NodeCount(t), desc);
  }
}
