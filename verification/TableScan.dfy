/** The table cursor's stack machine, forwards and backwards, against the recursive traversal. */
module TableScan {
  import opened Bytes
  import opened Overflow
  import opened TablePage
  import opened RowTree

  datatype Frame = Frame(page: nat, buf: seq<Byte>, interior: bool, num: nat, base: nat, next: nat, right: nat,
                         rightDone: bool)

  datatype Cursor = Cursor(stack: seq<Frame>, visited: nat, reverse: bool, current: Option<Row>)

  type Moved = (Cursor, Result<Option<int>, PageError>)

  /** The frame `push_page` makes of a page. */
  function ReadFrame(pages: Pages, n: nat, reverse: bool): (r: Result<Frame, PageError>) {
    if n !in pages then Err(NoSuchPage)
    else
      var buf, hs := pages[n], HeaderStart(n);
      match PageType(buf, hs)
      case Err(e) => Err(e)
      case Ok(kind) =>
        if kind != LEAF_TABLE && kind != INTERIOR_TABLE then Err(UnexpectedPageType)
        else if kind == INTERIOR_TABLE && |buf| < hs + 12 then Err(PageTooShort)
        else
          match CellCount(buf, hs)
          case Err(e) => Err(e)
          case Ok(num) =>
            var at := if reverse then num else 0;
            if kind == LEAF_TABLE then Ok(Frame(n, buf, false, num, hs + 8, at, 0, true))
            else Ok(Frame(n, buf, true, num, hs + 12, at, ReadBe32(buf, hs + 8), false))
  }

  function PushPage(pages: Pages, c: Cursor, n: nat, reverse: bool): (r: (Cursor, Result<(), PageError>))
    ensures r.0.visited == c.visited + 1
    ensures r.1.Ok? ==> r.0.visited <= MAX_PAGES_VISITED
  {
    var v := c.visited + 1;
    if v > MAX_PAGES_VISITED then (c.(visited := v), Err(TraversalTooLong))
    else
      match ReadFrame(pages, n, reverse)
      case Err(e) => (c.(visited := v), Err(e))
      case Ok(f) => (c.(visited := v, stack := c.stack + [f]), Ok(()))
  }

  function Budget(c: Cursor): (n: nat) { Max(0, MAX_PAGES_VISITED + 1 - c.visited) }

  function Top(c: Cursor): Frame
    requires c.stack != []
  {
    c.stack[|c.stack| - 1]
  }

  function Popped(c: Cursor): (r: Cursor)
    requires c.stack != []
  {
    c.(stack := c.stack[..|c.stack| - 1])
  }

  function Replaced(c: Cursor, f: Frame): (r: Cursor)
    requires c.stack != []
  {
    c.(stack := c.stack[..|c.stack| - 1] + [f])
  }

  /** Sets the current row from leaf cell `i` of the top frame. */
  function Yield(c: Cursor, f: Frame, i: nat): (r: Moved) {
    match LeafCellAt(f.buf, f.base, i)
    case Err(e) => (c, Err(e))
    case Ok(cell) => (c.(current := Some(Row(f.page, cell))), Ok(Some(cell.rowid)))
  }

  /** `advance`. */
  function Advance(pages: Pages, c: Cursor): (r: Moved)
    decreases Budget(c), |c.stack|
  {
    if c.stack == [] then (c.(current := None), Ok(None))
    else
      var f := Top(c);
      if !f.interior then
        if f.next >= f.num then Advance(pages, Popped(c))
        else Yield(Replaced(c, f.(next := f.next + 1)), f, f.next)
      else if f.next < f.num then
        var stepped := Replaced(c, f.(next := f.next + 1));
        match ChildAt(f.buf, f.base, f.next)
        case Err(e) => (stepped, Err(e))
        case Ok(child) =>
          var p := PushPage(pages, stepped, child, false);
          if p.1.Err? then (p.0, Err(p.1.error)) else Advance(pages, p.0)
      else if !f.rightDone then
        var p := PushPage(pages, Replaced(c, f.(rightDone := true)), f.right, false);
        if p.1.Err? then (p.0, Err(p.1.error)) else Advance(pages, p.0)
      else Advance(pages, Popped(c))
  }

  /** `advance_rev`. */
  function AdvanceRev(pages: Pages, c: Cursor): (r: Moved)
    decreases Budget(c), |c.stack|
  {
    if c.stack == [] then (c.(current := None), Ok(None))
    else
      var f := Top(c);
      if !f.interior then
        if f.next == 0 then AdvanceRev(pages, Popped(c))
        else Yield(Replaced(c, f.(next := f.next - 1)), f, f.next - 1)
      else if !f.rightDone then
        var p := PushPage(pages, Replaced(c, f.(rightDone := true)), f.right, true);
        if p.1.Err? then (p.0, Err(p.1.error)) else AdvanceRev(pages, p.0)
      else if f.next > 0 then
        var stepped := Replaced(c, f.(next := f.next - 1));
        match ChildAt(f.buf, f.base, f.next - 1)
        case Err(e) => (stepped, Err(e))
        case Ok(child) =>
          var p := PushPage(pages, stepped, child, true);
          if p.1.Err? then (p.0, Err(p.1.error)) else AdvanceRev(pages, p.0)
      else AdvanceRev(pages, Popped(c))
  }

  /** `first` and `last`: the root pushed on an empty stack. */
  function Start(pages: Pages, root: nat, c: Cursor, reverse: bool): (r: Moved) {
    var p := PushPage(pages, c.(stack := [], visited := 0, reverse := reverse), root, reverse);
    if p.1.Err? then (p.0, Err(p.1.error))
    else if reverse then AdvanceRev(pages, p.0) else Advance(pages, p.0)
  }

  // ----- what the stack stands for -----

  /** The frame is at some point of walking the tree. The rightmost child comes last forwards, and
      first backwards. */
  ghost predicate FrameOf(pages: Pages, f: Frame, t: Tree, reverse: bool) {
    && StoredAt(pages, t) && f.page == t.page && f.buf == pages[t.page]
    && match t
       case Leaf(_, cells) => !f.interior && f.num == |cells| && f.base == HeaderStart(t.page) + 8 && f.next <= f.num
       case Node(_, kids, keys) =>
         && f.interior && f.num == |keys| && |kids| == |keys| + 1 && f.base == HeaderStart(t.page) + 12 &&
            f.right == kids[|keys|].page && f.next <= f.num
         && (f.rightDone != reverse ==> f.next == f.num)
  }

  ghost predicate StackOf(pages: Pages, stack: seq<Frame>, trees: seq<Tree>, reverse: bool) {
    |stack| == |trees| && forall i :: 0 <= i < |stack| ==> FrameOf(pages, stack[i], trees[i], reverse)
  }

  /** A page read back from the store makes a frame of its tree. */
  lemma FrameRead(pages: Pages, t: Tree, reverse: bool)
    requires StoredAt(pages, t)
    ensures var r := ReadFrame(pages, t.page, reverse);
            && r.Ok? && FrameOf(pages, r.value, t, reverse) && r.value.next == (if reverse then r.value.num else 0)
            && (r.value.rightDone <==> t.Leaf?)
  {
  }

  /** Rows in the order the walk meets them. */
  function Met(rows: seq<Row>, reverse: bool): (r: seq<Row>) { if reverse then Reversed(rows) else rows }

  // ----- what lies ahead -----

  /** The children not yet entered. */
  function KidsAhead(f: Frame, t: Tree, reverse: bool): (r: seq<Tree>) {
    match t
    case Leaf(_, _) => []
    case Node(_, kids, _) =>
      if reverse then if !f.rightDone then kids else if f.next <= |kids| then kids[..f.next] else []
      else if f.rightDone || f.next > |kids| then [] else kids[f.next..]
  }

  function Ahead(f: Frame, t: Tree, reverse: bool): (r: seq<Row>) {
    match t
    case Leaf(page, cells) =>
      var rows := LeafRows(page, cells);
      if f.next > |rows| then [] else Met(if reverse then rows[..f.next] else rows[f.next..], reverse)
    case Node(_, _, _) => Met(AllRows(KidsAhead(f, t, reverse)), reverse)
  }

  function AheadAll(stack: seq<Frame>, trees: seq<Tree>, reverse: bool): (r: seq<Row>)
    requires |stack| == |trees|
  {
    if stack == [] then []
    else var n := |stack| - 1; Ahead(stack[n], trees[n], reverse) + AheadAll(stack[..n], trees[..n], reverse)
  }

  function Unseen(stack: seq<Frame>, trees: seq<Tree>, reverse: bool): (r: nat)
    requires |stack| == |trees|
  {
    if stack == [] then 0
    else var n := |stack| - 1;
        NodesCount(KidsAhead(stack[n], trees[n], reverse)) + Unseen(stack[..n], trees[..n], reverse)
  }

  lemma AheadSnoc(stack: seq<Frame>, trees: seq<Tree>, f: Frame, t: Tree, reverse: bool)
    requires |stack| == |trees|
    ensures AheadAll(stack + [f], trees + [t], reverse) == Ahead(f, t, reverse) + AheadAll(stack, trees, reverse)
    ensures Unseen(stack + [f], trees + [t], reverse) == NodesCount(KidsAhead(f, t, reverse)) +
            Unseen(stack, trees, reverse)
  {
    assert (stack + [f])[..|stack|] == stack && (trees + [t])[..|trees|] == trees;
  }

  lemma StackSnoc(pages: Pages, stack: seq<Frame>, trees: seq<Tree>, f: Frame, t: Tree, reverse: bool)
    requires StackOf(pages, stack, trees, reverse) && FrameOf(pages, f, t, reverse)
    ensures StackOf(pages, stack + [f], trees + [t], reverse)
  {
    hide FrameOf;
  }

  lemma StackFront(pages: Pages, stack: seq<Frame>, trees: seq<Tree>, reverse: bool)
    requires StackOf(pages, stack, trees, reverse) && stack != []
    ensures var n := |stack| - 1;
            && StackOf(pages, stack[..n], trees[..n], reverse) && FrameOf(pages, stack[n], trees[n], reverse)
            && stack == stack[..n] + [stack[n]] && trees == trees[..n] + [trees[n]]
  {
    hide FrameOf;
  }

  /** Entering child `k`: its rows come first, then the rest of its parent's. */
  lemma EnterKid(kids: seq<Tree>, k: nat, reverse: bool)
    requires k < |kids|
    ensures var now, then' := if reverse then kids[..k + 1] else kids[k..], if reverse then kids[..k]
            else kids[k + 1..];
            && Met(AllRows(now), reverse) == Met(Rows(kids[k]), reverse) + Met(AllRows(then'), reverse)
            && NodesCount(now) == NodeCount(kids[k]) + NodesCount(then')
  {
    OneTree(kids[k]);
    OneCount(kids[k]);
    if reverse {
      assert kids[..k + 1] == kids[..k] + [kids[k]];
      AllRowsSplit(kids[..k], [kids[k]]);
      NodesCountSplit(kids[..k], [kids[k]]);
      ReversedConcat(AllRows(kids[..k]), Rows(kids[k]));
    } else {
      assert kids[k..] == [kids[k]] + kids[k + 1..];
      AllRowsSplit([kids[k]], kids[k + 1..]);
      NodesCountSplit([kids[k]], kids[k + 1..]);
    }
  }

  /** A freshly pushed frame has its whole tree ahead of it. */
  lemma FreshAhead(pages: Pages, f: Frame, t: Tree, reverse: bool)
    requires FrameOf(pages, f, t, reverse) && f.next == (if reverse then f.num else 0) && (t.Node? ==> !f.rightDone)
    ensures Ahead(f, t, reverse) == Met(Rows(t), reverse) && NodesCount(KidsAhead(f, t, reverse)) + 1 == NodeCount(t)
  {
    match t
    case Leaf(page, cells) =>
      var rows := LeafRows(page, cells);
      assert rows[0..] == rows && rows[..|rows|] == rows;
    case Node(_, kids, _) => assert kids[0..] == kids;
  }

  /** The cursor has exactly `rows` ahead of it, and meeting them all visits `total` pages in all. */
  ghost predicate Facing(pages: Pages, c: Cursor, trees: seq<Tree>, rows: seq<Row>, total: nat) {
    && StackOf(pages, c.stack, trees, c.reverse)
    && AheadAll(c.stack, trees, c.reverse) == rows && c.visited + Unseen(c.stack, trees, c.reverse) == total
  }

  lemma TopFrame(pages: Pages, c: Cursor, trees: seq<Tree>, rows: seq<Row>, total: nat)
    requires Facing(pages, c, trees, rows, total)
    ensures |trees| == |c.stack| && c.visited <= total
    ensures c.stack == [] ==> rows == []
    ensures c.stack != [] ==> FrameOf(pages, Top(c), trees[|trees| - 1], c.reverse)
  {
  }

  lemma FacingPop(pages: Pages, c: Cursor, trees: seq<Tree>, rows: seq<Row>, total: nat)
    requires Facing(pages, c, trees, rows, total) && c.stack != []
    requires Ahead(Top(c), trees[|trees| - 1], c.reverse) == [] &&
             KidsAhead(Top(c), trees[|trees| - 1], c.reverse) == []
    ensures Facing(pages, Popped(c), trees[..|trees| - 1], rows, total)
  {
    hide FrameOf;
    StackFront(pages, c.stack, trees, c.reverse);
  }

  /** Replacing the top frame by another frame of its tree changes only what that frame has ahead. */
  lemma FacingReplace(pages: Pages, c: Cursor, trees: seq<Tree>, rows: seq<Row>, total: nat, f: Frame)
    returns (below: seq<Row>, unseen: nat)
    requires Facing(pages, c, trees, rows, total) && c.stack != [] && FrameOf(pages, f, trees[|trees| - 1], c.reverse)
    ensures var t, rev := trees[|trees| - 1], c.reverse;
            && rows == Ahead(Top(c), t, rev) + below && total == c.visited + NodesCount(KidsAhead(Top(c), t, rev)) +
               unseen
            && Facing(pages, Replaced(c, f), trees, Ahead(f, t, rev) + below,
               c.visited + NodesCount(KidsAhead(f, t, rev)) + unseen)
  {
    hide FrameOf, Ahead, KidsAhead;
    var n, rev := |c.stack| - 1, c.reverse;
    StackFront(pages, c.stack, trees, rev);
    AheadSnoc(c.stack[..n], trees[..n], c.stack[n], trees[n], rev);
    AheadSnoc(c.stack[..n], trees[..n], f, trees[n], rev);
    StackSnoc(pages, c.stack[..n], trees[..n], f, trees[n], rev);
    below, unseen := AheadAll(c.stack[..n], trees[..n], rev), Unseen(c.stack[..n], trees[..n], rev);
  }

  lemma FacingPush(pages: Pages, c: Cursor, trees: seq<Tree>, rows: seq<Row>, total: nat, t: Tree)
    requires Facing(pages, c, trees, rows, total) && StoredAt(pages, t) && total + NodeCount(t) <= MAX_PAGES_VISITED
    ensures var p := PushPage(pages, c, t.page, c.reverse);
            && p.1.Ok? && p.0.reverse == c.reverse && p.0.visited == c.visited + 1
            && Facing(pages, p.0, trees + [t], Met(Rows(t), c.reverse) + rows, total + NodeCount(t))
  {
    hide FrameOf, ReadFrame, StoredAt, Met, Ahead, KidsAhead, AheadAll, Unseen, StackOf, NodeCount;
    TopFrame(pages, c, trees, rows, total);
    FrameRead(pages, t, c.reverse);
    var f := ReadFrame(pages, t.page, c.reverse).value;
    FreshAhead(pages, f, t, c.reverse);
    AheadSnoc(c.stack, trees, f, t, c.reverse);
    StackSnoc(pages, c.stack, trees, f, t, c.reverse);
  }

  lemma FacingCurrent(pages: Pages, c: Cursor, trees: seq<Tree>, rows: seq<Row>, total: nat, current: Option<Row>)
    requires Facing(pages, c, trees, rows, total)
    ensures Facing(pages, c.(current := current), trees, rows, total)
  {
  }

  // ----- one move -----

  /** `advance` or `advance_rev`, as the cursor was positioned. */
  function Move(pages: Pages, c: Cursor): (r: Moved) { if c.reverse then AdvanceRev(pages, c) else Advance(pages, c) }

  ghost predicate Yields(pages: Pages, m: Moved, rows: seq<Row>, trees: seq<Tree>, total: nat, reverse: bool) {
    && m.0.reverse == reverse
    && if rows == [] then m.1 == Ok(None) && m.0.stack == [] && m.0.current == None
       else
         && m.1 == Ok(Some(rows[0].cell.rowid)) && m.0.current == Some(rows[0])
         && Facing(pages, m.0, trees, rows[1..], total)
  }

  lemma LeafHas(pages: Pages, t: Tree, i: nat)
    requires StoredAt(pages, t) && t.Leaf? && i < |t.cells|
    ensures LeafCellAt(pages[t.page], HeaderStart(t.page) + 8, i) == Ok(t.cells[i])
  {
    assert ReadLeafCell(pages[t.page], HeaderStart(t.page), i) == Ok(t.cells[i]);
  }

  lemma NodeHas(pages: Pages, t: Tree, i: nat)
    requires StoredAt(pages, t) && t.Node? && i < |t.kids|
    ensures |t.kids| == |t.keys| + 1 && StoredAt(pages, t.kids[i])
    ensures i < |t.keys| ==> ChildAt(pages[t.page], HeaderStart(t.page) + 12, i) == Ok(t.kids[i].page)
  {
  }

  /** A leaf frame steps to its next cell. */
  function LeafStep(f: Frame, reverse: bool): (r: Frame)
  {
    f.(next := if reverse then Max(0, f.next - 1) else f.next + 1)
  }

  function LeafIndex(f: Frame, reverse: bool): (i: nat) { if reverse then Max(0, f.next - 1) else f.next }

  lemma LeafSplit(rows: seq<Row>, next: nat, reverse: bool)
    requires if reverse then 0 < next <= |rows| else next < |rows|
    ensures var i := if reverse then next - 1 else next;
            Met(if reverse then rows[..next] else rows[next..], reverse) ==
            [rows[i]] + Met(if reverse then rows[..next - 1] else rows[next + 1..], reverse)
  {
    if reverse {
      assert rows[..next] == rows[..next - 1] + [rows[next - 1]];
      ReversedConcat(rows[..next - 1], [rows[next - 1]]);
      assert Reversed([rows[next - 1]]) == [rows[next - 1]];
    } else {
      assert rows[next..] == [rows[next]] + rows[next + 1..];
    }
  }

  lemma LeafAhead(pages: Pages, f: Frame, t: Tree, rev: bool) returns (row: Row)
    requires FrameOf(pages, f, t, rev) && !f.interior && (if rev then f.next > 0 else f.next < f.num)
    ensures var f' := LeafStep(f, rev);
            && FrameOf(pages, f', t, rev) && KidsAhead(f, t, rev) == KidsAhead(f', t, rev) &&
               Ahead(f, t, rev) == [row] + Ahead(f', t, rev)
    ensures forall c :: Yield(c, f, LeafIndex(f, rev)) == (c.(current := Some(row)), Ok(Some(row.cell.rowid)))
  {
    hide StoredAt, Met;
    var i, all := LeafIndex(f, rev), LeafRows(t.page, t.cells);
    LeafHas(pages, t, i);
    LeafSplit(all, f.next, rev);
    row := all[i];
  }

  lemma LeafMove(pages: Pages, c: Cursor)
    requires c.stack != [] && !Top(c).interior && (if c.reverse then Top(c).next > 0 else Top(c).next < Top(c).num)
    ensures Move(pages, c) == Yield(Replaced(c, LeafStep(Top(c), c.reverse)), Top(c), LeafIndex(Top(c), c.reverse))
  {
    hide Yield, PushPage;
  }

  lemma LeafYields(pages: Pages, c: Cursor, trees: seq<Tree>, rows: seq<Row>, total: nat)
    requires Facing(pages, c, trees, rows, total) && c.stack != [] && !Top(c).interior
    requires if c.reverse then Top(c).next > 0 else Top(c).next < Top(c).num
    ensures Yields(pages, Move(pages, c), rows, trees, total, c.reverse)
  {
    hide Facing, StoredAt, Move, Yield, FrameOf, Ahead, LeafStep, LeafIndex, KidsAhead;
    TopFrame(pages, c, trees, rows, total);
    var f, t, rev := Top(c), trees[|trees| - 1], c.reverse;
    var f', i := LeafStep(f, rev), LeafIndex(f, rev);
    var row := LeafAhead(pages, f, t, rev);
    var below, unseen := FacingReplace(pages, c, trees, rows, total, f');
    LeafMove(pages, c);
    assert rows == [row] + (Ahead(f', t, rev) + below);
    FacingCurrent(pages, Replaced(c, f'), trees, rows[1..], total, Some(rows[0]));
  }

  /** The child an interior frame enters next, and the frame once it has. */
  function KidIndex(f: Frame, reverse: bool): (i: nat) {
    if reverse then if !f.rightDone then f.num else Max(0, f.next - 1) else f.next
  }

  function NodeStep(f: Frame, reverse: bool): (r: Frame) {
    if reverse then if !f.rightDone then f.(rightDone := true) else f.(next := Max(0, f.next - 1))
    else if f.next < f.num then f.(next := f.next + 1) else f.(rightDone := true)
  }

  predicate NodeDone(f: Frame, reverse: bool) { f.rightDone && (reverse ==> f.next == 0) }

  lemma NodeEnters(pages: Pages, c: Cursor, trees: seq<Tree>, rows: seq<Row>, total: nat)
    requires Facing(pages, c, trees, rows, total) && total <= MAX_PAGES_VISITED
    requires c.stack != [] && Top(c).interior && !NodeDone(Top(c), c.reverse)
    ensures var t, f, rev := trees[|trees| - 1], Top(c), c.reverse; var k := KidIndex(f, rev);
            && t.Node? && k < |t.kids| && c.visited < MAX_PAGES_VISITED
            && var p := PushPage(pages, Replaced(c, NodeStep(f, rev)), t.kids[k].page, rev);
            && p.1.Ok? && p.0.reverse == rev && p.0.visited == c.visited + 1
            && Facing(pages, p.0, trees + [t.kids[k]], rows, total)
            && Move(pages, c) == Move(pages, p.0)
  {
    hide Facing, StoredAt, Met, PushPage, Advance, AdvanceRev, Ahead, KidsAhead, KidIndex, NodeStep, NodeDone, FrameOf;
    TopFrame(pages, c, trees, rows, total);
    var f, t, rev := Top(c), trees[|trees| - 1], c.reverse;
    NodeSplits(pages, f, t, rev);
    var f', kid := NodeStep(f, rev), t.kids[KidIndex(f, rev)];
    var below, unseen := FacingReplace(pages, c, trees, rows, total, f');
    assert rows == Met(Rows(kid), rev) + (Ahead(f', t, rev) + below);
    FacingPush(pages, Replaced(c, f'), trees, Ahead(f', t, rev) + below, total - NodeCount(kid), kid);
    NodeMoves(pages, c, t);
  }

  /** What an interior frame has ahead is its next child, then what its next frame has ahead. */
  lemma NodeSplits(pages: Pages, f: Frame, t: Tree, reverse: bool)
    requires FrameOf(pages, f, t, reverse) && f.interior && !NodeDone(f, reverse)
    ensures var k, f' := KidIndex(f, reverse), NodeStep(f, reverse);
            && t.Node? && k < |t.kids| && StoredAt(pages, t.kids[k]) && FrameOf(pages, f', t, reverse)
            && Ahead(f, t, reverse) == Met(Rows(t.kids[k]), reverse) + Ahead(f', t, reverse)
            && NodesCount(KidsAhead(f, t, reverse)) == NodeCount(t.kids[k]) + NodesCount(KidsAhead(f', t, reverse))
  {
    hide StoredAt, Met, AllRows, NodesCount, NodeCount, KidsAhead, FrameOf, KidIndex, NodeStep;
    KidsLeft(pages, f, t, reverse);
    EnterKid(t.kids, KidIndex(f, reverse), reverse);
  }

  /** A step takes the next child off the children ahead. */
  lemma KidsLeft(pages: Pages, f: Frame, t: Tree, reverse: bool)
    requires FrameOf(pages, f, t, reverse) && f.interior && !NodeDone(f, reverse)
    ensures var k, f' := KidIndex(f, reverse), NodeStep(f, reverse);
            && t.Node? && k < |t.kids| && StoredAt(pages, t.kids[k]) && FrameOf(pages, f', t, reverse)
            && KidsAhead(f, t, reverse) == (if reverse then t.kids[..k + 1] else t.kids[k..])
            && KidsAhead(f', t, reverse) == (if reverse then t.kids[..k] else t.kids[k + 1..])
  {
    hide StoredAt;
    var k := KidIndex(f, reverse);
    NodeHas(pages, t, k);
    assert reverse && !f.rightDone ==> t.kids[..k + 1] == t.kids;
    assert k + 1 == |t.kids| ==> t.kids[k + 1..] == [];
  }

  /** What a move does at an interior frame with a child left to enter. */
  lemma NodeMoves(pages: Pages, c: Cursor, t: Tree)
    requires c.stack != [] && FrameOf(pages, Top(c), t, c.reverse) && t.Node? && !NodeDone(Top(c), c.reverse)
    ensures var f, rev := Top(c), c.reverse; var k := KidIndex(f, rev);
            && k < |t.kids|
            && var p := PushPage(pages, Replaced(c, NodeStep(f, rev)), t.kids[k].page, rev);
            (p.1.Ok? && p.0.reverse == rev ==> Move(pages, c) == Move(pages, p.0))
  {
    hide StoredAt, PushPage;
    NodeHas(pages, t, KidIndex(Top(c), c.reverse));
  }

  /** A move returns the first row ahead, and leaves exactly the others ahead. */
  lemma {:induction false} MoveYields(pages: Pages, c: Cursor, trees: seq<Tree>, rows: seq<Row>, total: nat)
    returns (left: seq<Tree>)
    requires Facing(pages, c, trees, rows, total) && total <= MAX_PAGES_VISITED
    ensures Yields(pages, Move(pages, c), rows, left, total, c.reverse)
    decreases Budget(c), |c.stack|
  {
    hide Facing, StoredAt, PushPage, Yields;
    left := trees;
    TopFrame(pages, c, trees, rows, total);
    if c.stack == [] {
      NothingLeft(pages, c, trees, total);
    } else {
      var f, n := Top(c), |trees| - 1;
      if if !f.interior then (if c.reverse then f.next == 0 else f.next >= f.num) else NodeDone(f, c.reverse) {
        FacingPop(pages, c, trees, rows, total);
        left := MoveYields(pages, Popped(c), trees[..n], rows, total);
      } else if !f.interior {
        LeafYields(pages, c, trees, rows, total);
      } else {
        NodeEnters(pages, c, trees, rows, total);
        var kid := trees[n].kids[KidIndex(f, c.reverse)];
        var p := PushPage(pages, Replaced(c, NodeStep(f, c.reverse)), kid.page, c.reverse);
        left := MoveYields(pages, p.0, trees + [kid], rows, total);
      }
    }
  }

  lemma NothingLeft(pages: Pages, c: Cursor, trees: seq<Tree>, total: nat)
    requires c.stack == []
    ensures Yields(pages, Move(pages, c), [], trees, total, c.reverse)
  {
  }

  // ----- whole scans -----

  /** Successive moves return exactly `rows`, then nothing. */
  ghost predicate Scans(pages: Pages, m: Moved, rows: seq<Row>, reverse: bool)
    decreases |rows|
  {
    && m.0.reverse == reverse
    && if rows == [] then m.1 == Ok(None) && m.0.current == None && m.0.stack == []
       else
         && m.1 == Ok(Some(rows[0].cell.rowid)) && m.0.current == Some(rows[0])
         && Scans(pages, Move(pages, m.0), rows[1..], reverse)
  }

  lemma {:induction false} ScanFrom(pages: Pages, c: Cursor, trees: seq<Tree>, rows: seq<Row>, total: nat)
    requires Facing(pages, c, trees, rows, total) && total <= MAX_PAGES_VISITED
    ensures Scans(pages, Move(pages, c), rows, c.reverse)
    decreases |rows|
  {
    hide Facing, Move;
    var left := MoveYields(pages, c, trees, rows, total);
    if rows != [] { ScanFrom(pages, Move(pages, c).0, left, rows[1..], total); }
  }

  /** On any stored tree within the visit limit, `first` and `next` yield the recursive in-order rows,
      and `last` and `prev` yield exactly their reverse. */
  lemma ScanIsTraversal(pages: Pages, t: Tree, c: Cursor, reverse: bool)
    requires StoredAt(pages, t) && NodeCount(t) <= MAX_PAGES_VISITED
    ensures Scans(pages, Start(pages, t.page, c, reverse), Met(Rows(t), reverse), reverse)
  {
    hide Facing, StoredAt, PushPage, Scans, Advance, AdvanceRev, NodeCount, Met;
    var c0 := c.(stack := [], visited := 0, reverse := reverse);
    EmptyFacing(pages, c0);
    FacingPush(pages, c0, [], [], 0, t);
    var p := PushPage(pages, c0, t.page, reverse);
    assert Met(Rows(t), reverse) + [] == Met(Rows(t), reverse);
    ScanFrom(pages, p.0, [] + [t], Met(Rows(t), reverse), NodeCount(t));
  }

  lemma EmptyFacing(pages: Pages, c: Cursor)
    requires c.stack == [] && c.visited == 0
    ensures Facing(pages, c, [], [], 0)
  {
  }
}
