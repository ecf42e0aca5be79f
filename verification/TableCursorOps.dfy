/** The table cursor as an object: each method does what the stack machine says. */
module TableCursorOps {
  import opened Bytes
  import opened Overflow
  import opened TablePage
  import opened RowTree
  import opened TableScan
  import opened TableSeek

  datatype CursorError = Page(e: PageError) | CursorNotPositioned

  class TableCursor {
    const pages: Pages
    const root: nat
    var stack: seq<Frame>
    var visited: nat
    var reverse: bool
    var current: Option<Row>

    constructor (source: Pages, rootPage: nat)
      ensures pages == source && root == rootPage && stack == [] && !reverse && current == None
    {
      pages, root, stack, visited, reverse, current := source, rootPage, [], 0, false, None;
    }

    function State(): (c: Cursor)
      reads this
    {
      Cursor(stack, visited, reverse, current)
    }

    method Push(n: nat, backwards: bool) returns (r: Result<(), PageError>)
      modifies this`stack, this`visited
      ensures (State(), r) == PushPage(pages, old(State()), n, backwards)
    {
      hide ReadFrame;
      visited := visited + 1;
      if visited > MAX_PAGES_VISITED { return Err(TraversalTooLong); }
      match ReadFrame(pages, n, backwards)
      case Err(e) => return Err(e);
      case Ok(f) => stack := stack + [f];
      r := Ok(());
    }

    method DecodeLeafCell(f: Frame, i: nat) returns (r: Result<Option<int>, PageError>)
      modifies this`current
      ensures (State(), r) == Yield(old(State()), f, i)
    {
      hide LeafCellAt;
      match LeafCellAt(f.buf, f.base, i)
      case Err(e) => return Err(e);
      case Ok(cell) =>
        current := Some(Row(f.page, cell));
        r := Ok(Some(cell.rowid));
    }

    /** `current_payload`. */
    method CurrentPayload(usable: nat) returns (r: Result<seq<Byte>, CursorError>)
      requires current.Some? ==> current.value.page in pages
      ensures current.None? ==> r == Err(CursorNotPositioned)
      ensures current.Some? ==> r == match RowPayload(pages, usable, current.value)
                                     case Ok(p) => Ok(p)
                                     case Err(e) => Err(Page(BadPayload(e)))
    {
      hide Reassembled;
      if current.None? { return Err(CursorNotPositioned); }
      var cell, page := current.value.cell, pages[current.value.page];
      if cell.len > MAX_PAYLOAD_LEN { return Err(Page(BadPayload(PayloadTooLarge))); }
      if cell.tail > |page| { return Err(Page(BadPayload(PayloadTooShort))); }
      var p := ReassemblePayload(pages, usable, page[cell.tail..], cell.len, false);
      r := if p.Ok? then Ok(p.value) else Err(Page(BadPayload(p.error)));
    }

    method AdvanceForward() returns (r: Result<Option<int>, PageError>)
      modifies this
      ensures (State(), r) == Advance(pages, old(State()))
    {
      hide PushPage, Yield, ChildAt;
      ghost var start := State();
      while true
        invariant Advance(pages, State()) == Advance(pages, start)
        decreases Budget(State()), |stack|
      {
        if stack == [] { current := None; return Ok(None); }
        var top := |stack| - 1;
        var f := stack[top];
        if !f.interior {
          if f.next >= f.num { stack := stack[..top]; continue; }
          stack := stack[..top] + [f.(next := f.next + 1)];
          r := DecodeLeafCell(f, f.next);
          return;
        }
        var child: nat;
        if f.next < f.num {
          stack := stack[..top] + [f.(next := f.next + 1)];
          match ChildAt(f.buf, f.base, f.next)
          case Err(e) => return Err(e);
          case Ok(n) => child := n;
        } else if !f.rightDone {
          stack := stack[..top] + [f.(rightDone := true)];
          child := f.right;
        } else {
          stack := stack[..top];
          continue;
        }
        var pushed := Push(child, false);
        if pushed.Err? { return Err(pushed.error); }
      }
    }

    method AdvanceBackward() returns (r: Result<Option<int>, PageError>)
      modifies this
      ensures (State(), r) == AdvanceRev(pages, old(State()))
    {
      hide PushPage, Yield, ChildAt;
      ghost var start := State();
      while true
        invariant AdvanceRev(pages, State()) == AdvanceRev(pages, start)
        decreases Budget(State()), |stack|
      {
        if stack == [] { current := None; return Ok(None); }
        var top := |stack| - 1;
        var f := stack[top];
        if !f.interior {
          if f.next == 0 { stack := stack[..top]; continue; }
          stack := stack[..top] + [f.(next := f.next - 1)];
          r := DecodeLeafCell(f, f.next - 1);
          return;
        }
        var child: nat;
        if !f.rightDone {
          stack := stack[..top] + [f.(rightDone := true)];
          child := f.right;
        } else if f.next > 0 {
          stack := stack[..top] + [f.(next := f.next - 1)];
          match ChildAt(f.buf, f.base, f.next - 1)
          case Err(e) => return Err(e);
          case Ok(n) => child := n;
        } else {
          stack := stack[..top];
          continue;
        }
        var pushed := Push(child, true);
        if pushed.Err? { return Err(pushed.error); }
      }
    }

    method First() returns (r: Result<Option<int>, PageError>)
      modifies this
      ensures (State(), r) == Start(pages, root, old(State()), false)
    {
      hide PushPage, Advance;
      stack, visited, reverse := [], 0, false;
      var pushed := Push(root, false);
      if pushed.Err? { return Err(pushed.error); }
      r := AdvanceForward();
    }

    method Next() returns (r: Result<Option<int>, PageError>)
      modifies this
      ensures (State(), r) == Advance(pages, old(State()))
    {
      r := AdvanceForward();
    }

    method Last() returns (r: Result<Option<int>, PageError>)
      modifies this
      ensures (State(), r) == Start(pages, root, old(State()), true)
    {
      hide PushPage, AdvanceRev;
      stack, visited, reverse := [], 0, true;
      var pushed := Push(root, true);
      if pushed.Err? { return Err(pushed.error); }
      r := AdvanceBackward();
    }

    /** Refused before any `last`. */
    method Prev() returns (r: Result<Option<int>, CursorError>)
      modifies this
      ensures !old(reverse) ==> r == Err(CursorNotPositioned) && State() == old(State())
      ensures old(reverse) ==> State() == AdvanceRev(pages, old(State())).0
      ensures old(reverse) ==>
                r == match AdvanceRev(pages, old(State())).1 case Ok(v) => Ok(v) case Err(e) => Err(Page(e))
    {
      if !reverse { return Err(CursorNotPositioned); }
      var moved := AdvanceBackward();
      match moved
      case Ok(v) => r := Ok(v);
      case Err(e) => r := Err(Page(e));
    }

    method SearchLeaf(buf: seq<Byte>, base: nat, num: nat, target: int) returns (r: Result<Option<LeafCell>, PageError>)
      ensures r == LeafSearch(buf, base, 0, num, target)
    {
      hide LeafCellAt;
      var lo, hi := 0, num;
      while lo < hi
        invariant 0 <= lo <= hi <= num && LeafSearch(buf, base, 0, num, target) == LeafSearch(buf, base, lo, hi, target)
        decreases hi - lo
      {
        var mid := lo + (hi - lo) / 2;
        match LeafCellAt(buf, base, mid) {
          case Err(e) => return Err(e);
          case Ok(cell) =>
            if cell.rowid == target { return Ok(Some(cell)); }
            if cell.rowid < target { lo := mid + 1; } else { hi := mid; }
        }
      }
      r := Ok(None);
    }

    method SearchInterior(buf: seq<Byte>, base: nat, num: nat, target: int, right: nat)
      returns (r: Result<nat, PageError>)
      ensures r == NodeSearch(buf, base, 0, num, target, right)
    {
      hide KeyAt, ChildAt;
      var lo, hi := 0, num;
      var next: nat := right;
      while lo < hi
        invariant 0 <= lo <= hi <= num
        invariant NodeSearch(buf, base, 0, num, target, right) == NodeSearch(buf, base, lo, hi, target, next)
        decreases hi - lo
      {
        var mid := lo + (hi - lo) / 2;
        match KeyAt(buf, base, mid) {
          case Err(e) => return Err(e);
          case Ok(key) =>
            if target <= key {
              match ChildAt(buf, base, mid)
              case Err(e) => return Err(e);
              case Ok(child) => next := child;
              hi := mid;
            } else {
              lo := mid + 1;
            }
        }
      }
      r := Ok(next);
    }

    method SeekRow(target: int) returns (r: Result<Option<int>, PageError>)
      modifies this`current
      ensures match Seek(pages, root, target, 0)
              case Err(e) => r == Err(e) && current == None
              case Ok(None) => r == Ok(None) && current == None
              case Ok(Some(row)) => r == Ok(Some(row.cell.rowid)) && current == Some(row)
    {
      hide LeafSearch, NodeSearch, PageType, CellCount, Rightmost;
      current := None;
      var n, steps := root, 0;
      while true
        invariant current == None && Seek(pages, n, target, steps) == Seek(pages, root, target, 0)
        decreases Descents(steps)
      {
        steps := steps + 1;
        if steps > MAX_PAGES_VISITED { return Err(TraversalTooLong); }
        if n !in pages { return Err(NoSuchPage); }
        var buf, hs := pages[n], HeaderStart(n);
        var kind := PageType(buf, hs);
        if kind.Err? { return Err(kind.error); }
        var num := CellCount(buf, hs);
        if num.Err? { return Err(num.error); }
        if kind.value == LEAF_TABLE {
          var found := SearchLeaf(buf, hs + 8, num.value, target);
          match found
          case Err(e) => return Err(e);
          case Ok(None) => return Ok(None);
          case Ok(Some(cell)) =>
            current := Some(Row(n, cell));
            return Ok(Some(cell.rowid));
        } else if kind.value == INTERIOR_TABLE {
          var right := Rightmost(buf, hs);
          if right.Err? { return Err(right.error); }
          var child := SearchInterior(buf, hs + 12, num.value, target, right.value);
          if child.Err? { return Err(child.error); }
          n := child.value;
        } else {
          return Err(UnexpectedPageType);
        }
      }
    }
  }

  /** On an ordered stored tree within the visit limit, a whole scan collects the rowids in ascending
      order, or exactly the reverse, and then stays at the end. */
  method ScanAll(cursor: TableCursor, ghost t: Tree, backwards: bool) returns (rows: seq<Row>)
    requires StoredAt(cursor.pages, t) && t.page == cursor.root && NodeCount(t) <= MAX_PAGES_VISITED
    modifies cursor
    ensures rows == Met(Rows(t), backwards)
  {
    hide Start, Advance, AdvanceRev, StoredAt, Met;
    rows := [];
    ghost var all := Met(Rows(t), backwards);
    ScanIsTraversal(cursor.pages, t, cursor.State(), backwards);
    var r;
    if backwards { r := cursor.Last(); } else { r := cursor.First(); }
    ghost var m: Moved := (cursor.State(), r);
    while r.Ok? && r.value.Some?
      invariant |rows| <= |all| && rows == all[..|rows|] && m == (cursor.State(), r)
      invariant Scans(cursor.pages, m, all[|rows|..], backwards)
      decreases |all| - |rows|
    {
      rows := rows + [cursor.current.value];
      m := Move(cursor.pages, cursor.State());
      assert all[|rows| - 1..][1..] == all[|rows|..];
      if backwards { r := cursor.AdvanceBackward(); } else { r := cursor.Next(); }
    }
    assert all[|rows|..] == [];
    assert rows == all;
  }
}
