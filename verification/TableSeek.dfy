/** Point lookup by binary search, and counting, against the recursive traversal. */
module TableSeek {
  import opened Bytes
  import opened Overflow
  import opened TablePage
  import opened RowTree

  // ----- the searches -----

  function LeafSearch(buf: seq<Byte>, base: nat, lo: nat, hi: nat,
                      target: int): (r: Result<Option<LeafCell>, PageError>)
    decreases hi - lo
  {
    if lo >= hi then Ok(None)
    else
      var mid := lo + (hi - lo) / 2;
      match LeafCellAt(buf, base, mid)
      case Err(e) => Err(e)
      case Ok(cell) =>
        if cell.rowid == target then Ok(Some(cell))
        else if cell.rowid < target then LeafSearch(buf, base, mid + 1, hi, target)
        else LeafSearch(buf, base, lo, mid, target)
  }

  /** The child to descend into: the first whose key is not below the target, or `next`. */
  function NodeSearch(buf: seq<Byte>, base: nat, lo: nat, hi: nat, target: int, next: nat): (r: Result<nat, PageError>)
    decreases hi - lo
  {
    if lo >= hi then Ok(next)
    else
      var mid := lo + (hi - lo) / 2;
      match KeyAt(buf, base, mid)
      case Err(e) => Err(e)
      case Ok(key) =>
        if target <= key then
          match ChildAt(buf, base, mid)
          case Err(e) => Err(e)
          case Ok(child) => NodeSearch(buf, base, lo, mid, target, child)
        else NodeSearch(buf, base, mid + 1, hi, target, next)
  }

  function Descents(visited: nat): (n: nat) { Max(0, MAX_PAGES_VISITED + 1 - visited) }

  /** `seek` from page `n` down. */
  function Seek(pages: Pages, n: nat, target: int, visited: nat): (r: Result<Option<Row>, PageError>)
    decreases Descents(visited)
  {
    var v := visited + 1;
    if v > MAX_PAGES_VISITED then Err(TraversalTooLong)
    else if n !in pages then Err(NoSuchPage)
    else
      var buf, hs := pages[n], HeaderStart(n);
      match PageType(buf, hs)
      case Err(e) => Err(e)
      case Ok(kind) =>
        match CellCount(buf, hs)
        case Err(e) => Err(e)
        case Ok(num) =>
          if kind == LEAF_TABLE then
            match LeafSearch(buf, hs + 8, 0, num, target)
            case Err(e) => Err(e)
            case Ok(None) => Ok(None)
            case Ok(Some(cell)) => Ok(Some(Row(n, cell)))
          else if kind == INTERIOR_TABLE then
            match Rightmost(buf, hs)
            case Err(e) => Err(e)
            case Ok(right) =>
              match NodeSearch(buf, hs + 12, 0, num, target, right)
              case Err(e) => Err(e)
              case Ok(child) => Seek(pages, child, target, v)
          else Err(UnexpectedPageType)
  }

  // ----- what they find -----

  ghost predicate FindsCell(r: Option<LeafCell>, cells: seq<LeafCell>, target: int) {
    match r
    case None => forall i :: 0 <= i < |cells| ==> cells[i].rowid != target
    case Some(cell) => cell in cells && cell.rowid == target
  }

  lemma {:induction false} LeafSearchFinds(buf: seq<Byte>, base: nat, cells: seq<LeafCell>, lo: nat, hi: nat,
                                           target: int)
    requires forall i :: 0 <= i < |cells| ==> LeafCellAt(buf, base, i) == Ok(cells[i])
    requires CellsAscend(cells) && lo <= hi <= |cells|
    requires forall i :: 0 <= i < lo ==> cells[i].rowid < target
    requires forall i :: hi <= i < |cells| ==> cells[i].rowid > target
    ensures LeafSearch(buf, base, lo, hi, target).Ok? && FindsCell(LeafSearch(buf, base, lo, hi, target).value, cells,
            target)
    decreases hi - lo
  {
    hide LeafCellAt, FindsCell, CellsAscend;
    if lo == hi {
      NotThere(cells, lo, target);
    } else {
      var mid := lo + (hi - lo) / 2;
      assert LeafCellAt(buf, base, mid) == Ok(cells[mid]);
      if cells[mid].rowid < target {
        forall i | 0 <= i <= mid ensures cells[i].rowid < target { Climbs(cells, i, mid); }
        LeafSearchFinds(buf, base, cells, mid + 1, hi, target);
      } else if cells[mid].rowid > target {
        forall i | mid <= i < |cells| ensures cells[i].rowid > target { Climbs(cells, mid, i); }
        LeafSearchFinds(buf, base, cells, lo, mid, target);
      } else {
        There(cells, mid, target);
      }
    }
  }

  lemma Climbs(cells: seq<LeafCell>, i: nat, j: nat)
    requires CellsAscend(cells) && i <= j < |cells|
    ensures cells[i].rowid <= cells[j].rowid
  {
  }

  lemma NotThere(cells: seq<LeafCell>, k: nat, target: int)
    requires k <= |cells| && (forall i :: 0 <= i < k ==> cells[i].rowid < target) &&
             (forall i :: k <= i < |cells| ==> cells[i].rowid > target)
    ensures FindsCell(None, cells, target)
  {
  }

  lemma There(cells: seq<LeafCell>, k: nat, target: int)
    requires k < |cells| && cells[k].rowid == target
    ensures FindsCell(Some(cells[k]), cells, target)
  {
  }

  /** The first key not below the target. */
  function KidFor(keys: seq<int>, target: int): (k: nat)
    ensures k <= |keys| && (forall i :: 0 <= i < k ==> keys[i] < target) && (k < |keys| ==> target <= keys[k])
  {
    if keys == [] || target <= keys[0] then 0 else 1 + KidFor(keys[1..], target)
  }

  lemma {:induction false} NodeSearchFinds(buf: seq<Byte>, base: nat, kids: seq<Tree>, keys: seq<int>, lo: nat, hi: nat,
                                           target: int)
    requires |kids| == |keys| + 1
    requires forall i :: 0 <= i < |keys| ==>
            KeyAt(buf, base, i) == Ok(keys[i]) && ChildAt(buf, base, i) == Ok(kids[i].page)
    requires KeysAscend(keys) && lo <= KidFor(keys, target) <= hi <= |keys|
    ensures NodeSearch(buf, base, lo, hi, target, kids[hi].page) == Ok(kids[KidFor(keys, target)].page)
    decreases hi - lo
  {
    hide KeyAt, ChildAt, KidFor;
    if lo < hi {
      var mid := lo + (hi - lo) / 2;
      assert KeyAt(buf, base, mid) == Ok(keys[mid]);
      if target <= keys[mid] {
        NodeSearchFinds(buf, base, kids, keys, lo, mid, target);
      } else {
        NodeSearchFinds(buf, base, kids, keys, mid + 1, hi, target);
      }
    }
  }

  ghost predicate FindsRow(r: Option<Row>, rows: seq<Row>, target: int) {
    match r
    case None => forall i :: 0 <= i < |rows| ==> rows[i].cell.rowid != target
    case Some(row) => row in rows && row.cell.rowid == target
  }

  lemma {:induction false} AllRowsHave(ts: seq<Tree>, k: nat)
    requires k < |ts|
    ensures forall row :: row in Rows(ts[k]) ==> row in AllRows(ts)
  {
    if k > 0 { AllRowsHave(ts[1..], k - 1); }
  }

  lemma {:induction false} AllRowsFrom(ts: seq<Tree>, row: Row) returns (k: nat)
    requires row in AllRows(ts)
    ensures k < |ts| && row in Rows(ts[k])
  {
    if row in Rows(ts[0]) { k := 0; } else { k := AllRowsFrom(ts[1..], row); k := k + 1; }
  }

  /** Only one child can hold the target. */
  lemma RightKid(t: Tree, lo: int, hi: int, target: int, row: Row)
    requires t.Node? && Ordered(t, lo, hi) && row in AllRows(t.kids) && row.cell.rowid == target
    ensures row in Rows(t.kids[KidFor(t.keys, target)])
  {
    hide KidFor;
    var k := KidFor(t.keys, target);
    var j := AllRowsFrom(t.kids, row);
    OrderedAscends(t.kids[j], Below(t.keys, j, lo), UpTo(t.keys, j, hi));
    var i :| 0 <= i < |Rows(t.kids[j])| && Rows(t.kids[j])[i] == row;
    assert Between(Below(t.keys, j, lo), target, UpTo(t.keys, j, hi));
  }

  /** The pages on the way from the root to the leaf that would hold `target`. */
  function Descent(t: Tree, target: int): (n: nat)
    ensures 1 <= n <= Height(t)
  {
    match t
    case Leaf(_, _) => 1
    case Node(_, kids, keys) =>
      if KidFor(keys, target) < |kids| then
        TallestHas(kids, KidFor(keys, target));
        1 + Descent(kids[KidFor(keys, target)], target)
      else 1
  }

  /** `seek` finds a row exactly when the traversal contains its rowid. Its budget pays for one way down
      only, so it fails on a tree of any size exactly when that way is longer than the visit limit. */
  lemma {:induction false} SeekFinds(pages: Pages, t: Tree, lo: int, hi: int, target: int, visited: nat)
    requires StoredAt(pages, t) && Ordered(t, lo, hi)
    ensures var r := Seek(pages, t.page, target, visited);
            if visited + Descent(t, target) <= MAX_PAGES_VISITED then r.Ok? && FindsRow(r.value, Rows(t), target)
            else r == Err(TraversalTooLong)
    decreases t
  {
    hide Seek, FindsRow, StoredAt, Ordered, Descent;
    match t
    case Leaf(page, cells) => LeafSeek(pages, t, lo, hi, target, visited);
    case Node(_, kids, keys) =>
      NodeSeek(pages, t, lo, hi, target, visited);
      var k := KidFor(keys, target);
      SeekFinds(pages, kids[k], Below(keys, k, lo), UpTo(keys, k, hi), target, visited + 1);
      if visited + Descent(t, target) <= MAX_PAGES_VISITED {
        KidFound(t, lo, hi, target, Seek(pages, kids[k].page, target, visited + 1).value);
      }
  }

  lemma LeafSeek(pages: Pages, t: Tree, lo: int, hi: int, target: int, visited: nat)
    requires StoredAt(pages, t) && Ordered(t, lo, hi) && t.Leaf?
    ensures Descent(t, target) == 1
    ensures var r := Seek(pages, t.page, target, visited);
            if visited + 1 <= MAX_PAGES_VISITED then r.Ok? && FindsRow(r.value, Rows(t), target)
               else r == Err(TraversalTooLong)
  {
    hide LeafSearch, PageType, CellCount, FindsRow, FindsCell, LeafCellAt;
    var buf, hs, cells := pages[t.page], HeaderStart(t.page), t.cells;
    assert forall i :: 0 <= i < |cells| ==> ReadLeafCell(buf, hs, i) == Ok(cells[i]);
    LeafSearchFinds(buf, hs + 8, cells, 0, |cells|, target);
    LeafFound(t.page, cells, LeafSearch(buf, hs + 8, 0, |cells|, target).value, target);
  }

  /** One step of the descent goes to the child a linear search would pick. */
  lemma NodeSeek(pages: Pages, t: Tree, lo: int, hi: int, target: int, visited: nat)
    requires StoredAt(pages, t) && Ordered(t, lo, hi) && t.Node?
    ensures var k := KidFor(t.keys, target);
            && k < |t.kids| == |t.keys| + 1 && StoredAt(pages, t.kids[k])
            && Ordered(t.kids[k], Below(t.keys, k, lo), UpTo(t.keys, k, hi))
            && Descent(t, target) == 1 + Descent(t.kids[k], target)
            && Seek(pages, t.page, target, visited) ==
               (if visited + 1 > MAX_PAGES_VISITED then Err(TraversalTooLong)
                 else Seek(pages, t.kids[k].page, target, visited + 1))
  {
    hide LeafSearch, NodeSearch, KidFor, PageType, CellCount, Rightmost, ChildAt, KeyAt;
    NodeSearchFinds(pages[t.page], HeaderStart(t.page) + 12, t.kids, t.keys, 0, |t.keys|, target);
  }

  lemma LeafFound(page: nat, cells: seq<LeafCell>, r: Option<LeafCell>, target: int)
    requires FindsCell(r, cells, target)
    ensures FindsRow(match r case None => None case Some(cell) => Some(Row(page, cell)), LeafRows(page, cells), target)
  {
    if r.Some? {
      var i :| 0 <= i < |cells| && cells[i] == r.value;
      assert LeafRows(page, cells)[i] == Row(page, r.value);
    }
  }

  lemma KidFound(t: Tree, lo: int, hi: int, target: int, r: Option<Row>)
    requires t.Node? && Ordered(t, lo, hi) && FindsRow(r, Rows(t.kids[KidFor(t.keys, target)]), target)
    ensures FindsRow(r, AllRows(t.kids), target)
  {
    hide KidFor;
    AllRowsHave(t.kids, KidFor(t.keys, target));
    if r.None? {
      forall i | 0 <= i < |AllRows(t.kids)| ensures AllRows(t.kids)[i].cell.rowid != target {
        var row := AllRows(t.kids)[i];
        if row.cell.rowid == target { RightKid(t, lo, hi, target, row); }
      }
    }
  }

  // ----- counting -----

  const I64_MAX := 0x7FFF_FFFF_FFFF_FFFF

  datatype Tally = Tally(visited: nat, total: nat, ok: bool)

  function CountNode(pages: Pages, n: nat, visited: nat, total: nat): (r: Tally)
    ensures r.visited >= visited
    decreases Descents(visited), 0, 0
  {
    var v := visited + 1;
    if v > MAX_PAGES_VISITED || n !in pages then Tally(v, total, false)
    else
      var buf, hs := pages[n], HeaderStart(n);
      match PageType(buf, hs)
      case Err(_) => Tally(v, total, false)
      case Ok(kind) =>
        if kind != LEAF_TABLE && kind != INTERIOR_TABLE then Tally(v, total, false)
        else
          match CellCount(buf, hs)
          case Err(_) => Tally(v, total, false)
          case Ok(num) =>
            if kind == LEAF_TABLE then Tally(v, Min(I64_MAX, total + num), true)
            else
              match InteriorCells(buf, hs, num)
              case Err(_) => Tally(v, total, false)
              case Ok(cells) =>
                match Rightmost(buf, hs)
                case Err(_) => Tally(v, total, false)
                case Ok(right) => CountNodes(pages, seq(num, i requires 0 <= i < num => cells[i].child as nat) +
                                  [right as nat], v, total)
  }

  function CountNodes(pages: Pages, ns: seq<nat>, visited: nat, total: nat): (r: Tally)
    ensures r.visited >= visited
    decreases Descents(visited), 1, |ns|
  {
    if ns == [] then Tally(visited, total, true)
    else
      var one := CountNode(pages, ns[0], visited, total);
      if !one.ok then one else CountNodes(pages, ns[1..], one.visited, one.total)
  }

  function KidPages(ts: seq<Tree>): (r: seq<nat>)
    ensures |r| == |ts| && forall i :: 0 <= i < |ts| ==> r[i] == ts[i].page
  {
    seq(|ts|, i requires 0 <= i < |ts| => ts[i].page)
  }

  lemma {:induction false} RowsBounded(pages: Pages, t: Tree)
    requires StoredAt(pages, t)
    ensures |Rows(t)| <= 65535 * NodeCount(t)
    decreases t, 1, 0
  {
    hide PageType, CellCount, InteriorCells, Rightmost, ChildAt, KeyAt, ReadLeafCell;
    match t
    case Leaf(_, cells) => assert CellCount(pages[t.page], HeaderStart(t.page)).value <= 65535;
    case Node(_, kids, _) => KidsBounded(pages, t, 0); assert kids[0..] == kids;
  }

  lemma {:induction false} KidsBounded(pages: Pages, t: Tree, i: nat)
    requires t.Node? && StoredAt(pages, t) && i <= |t.kids|
    ensures |AllRows(t.kids[i..])| <= 65535 * NodesCount(t.kids[i..])
    decreases t, 0, |t.kids| - i
  {
    hide PageType, CellCount, InteriorCells, Rightmost, ChildAt, KeyAt, ReadLeafCell;
    if i < |t.kids| {
      assert t.kids[i..][0] == t.kids[i] && t.kids[i..][1..] == t.kids[i + 1..];
      RowsBounded(pages, t.kids[i]);
      KidsBounded(pages, t, i + 1);
    }
  }

  /** The count went over a subtree of `nodes` pages and `rows` rows, or ran out of visits in it. */
  ghost predicate Counted(r: Tally, visited: nat, total: nat, nodes: nat, rows: nat) {
    if visited + nodes <= MAX_PAGES_VISITED then r == Tally(visited + nodes, Min(I64_MAX, total + rows), true)
       else !r.ok
  }

  /** `count_table_rows` counts the rows of the traversal, saturating, and fails exactly past the visit limit. */
  lemma {:induction false} CountIs(pages: Pages, t: Tree, visited: nat, total: nat)
    requires StoredAt(pages, t) && visited <= MAX_PAGES_VISITED && total <= I64_MAX
    ensures Counted(CountNode(pages, t.page, visited, total), visited, total, NodeCount(t), |Rows(t)|)
    decreases t, 1, 0
  {
    hide InteriorCells, Rightmost, PageType, CellCount, ChildAt, KeyAt, ReadLeafCell;
    if t.Node? {
      ChildrenRead(pages, t);
      assert t.kids[0..] == t.kids;
      if visited < MAX_PAGES_VISITED { CountKids(pages, t, 0, visited + 1, total); }
    }
  }

  /** A count that completes has read its root: present, within the limit, long enough, and of a known type. */
  lemma CountNeedsRoot(pages: Pages, n: nat)
    requires CountNode(pages, n, 0, 0).ok
    ensures n in pages && |pages[n]| >= HeaderStart(n) + 5
    ensures pages[n][HeaderStart(n)] in {LEAF_TABLE, INTERIOR_TABLE}
    ensures pages[n][HeaderStart(n)] == INTERIOR_TABLE ==> |pages[n]| >= HeaderStart(n) + 12
  {
    hide CountNodes, InteriorCells;
  }

  /** A page holds at most 65535 cells, so a count within the visit limit is exact: it never saturates. */
  lemma CountIsExact(pages: Pages, t: Tree)
    requires StoredAt(pages, t)
    ensures var r := CountNode(pages, t.page, 0, 0);
            if NodeCount(t) <= MAX_PAGES_VISITED then r == Tally(NodeCount(t), |Rows(t)|, true) else !r.ok
  {
    hide StoredAt, CountNode;
    RowsBounded(pages, t);
    CountIs(pages, t, 0, 0);
  }

  lemma {:induction false} CountKids(pages: Pages, t: Tree, i: nat, visited: nat, total: nat)
    requires t.Node? && StoredAt(pages, t) && i <= |t.kids| && visited <= MAX_PAGES_VISITED && total <= I64_MAX
    ensures Counted(CountNodes(pages, KidPages(t.kids[i..]), visited, total), visited, total,
                    NodesCount(t.kids[i..]), |AllRows(t.kids[i..])|)
    decreases t, 0, |t.kids| - i
  {
    hide CountNode, CountNodes, KidPages, NodesCount, AllRows;
    CountNone(pages, visited, total);
    if i < |t.kids| {
      var kid, rest := t.kids[i], t.kids[i + 1..];
      assert StoredAt(pages, kid) by { KidStored(pages, t, i); }
      hide StoredAt;
      CountIs(pages, kid, visited, total);
      CountSplit(pages, t.kids[i..], visited, total);
      assert t.kids[i..][0] == kid && t.kids[i..][1..] == rest;
      if visited + NodeCount(kid) <= MAX_PAGES_VISITED {
        CountKids(pages, t, i + 1, visited + NodeCount(kid), Min(I64_MAX, total + |Rows(kid)|));
      }
    } else {
      assert t.kids[i..] == [];
    }
  }

  lemma KidStored(pages: Pages, t: Tree, i: nat)
    requires t.Node? && StoredAt(pages, t) && i < |t.kids|
    ensures StoredAt(pages, t.kids[i])
  {
    hide PageType, CellCount, Rightmost, ChildAt, KeyAt;
  }

  lemma CountNone(pages: Pages, visited: nat, total: nat)
    ensures CountNodes(pages, KidPages([]), visited, total) == Tally(visited, total, true)
    ensures NodesCount([]) == 0 && AllRows([]) == []
  {
  }

  lemma CountSplit(pages: Pages, ts: seq<Tree>, visited: nat, total: nat)
    requires ts != []
    ensures var one := CountNode(pages, ts[0].page, visited, total);
            CountNodes(pages, KidPages(ts), visited, total) ==
            if !one.ok then one else CountNodes(pages, KidPages(ts[1..]), one.visited, one.total)
    ensures NodesCount(ts) == NodeCount(ts[0]) + NodesCount(ts[1..]) &&
            |AllRows(ts)| == |Rows(ts[0])| + |AllRows(ts[1..])|
  {
    hide CountNode;
    assert KidPages(ts)[1..] == KidPages(ts[1..]);
  }

  /** The children collected from an interior page are those of its tree. */
  lemma ChildrenRead(pages: Pages, t: Tree)
    requires t.Node? && StoredAt(pages, t)
    ensures var buf, hs, n := pages[t.page], HeaderStart(t.page), |t.keys|;
            && InteriorCells(buf, hs, n).Ok? && |InteriorCells(buf, hs, n).value| == n
            && seq(n, i requires 0 <= i < n => InteriorCells(buf, hs, n).value[i].child as nat) + [t.kids[n].page] ==
               KidPages(t.kids)
  {
    hide InteriorCells, PageType, CellCount;
    var buf, hs, n := pages[t.page], HeaderStart(t.page), |t.keys|;
    InteriorReads(buf, hs, t.kids, t.keys, n);
    var cells := InteriorCells(buf, hs, n).value;
    var got := seq(n, i requires 0 <= i < n => cells[i].child as nat) + [t.kids[n].page];
    assert forall i :: 0 <= i < n ==> got[i] == t.kids[i].page;
  }

  lemma InteriorCellReads(buf: seq<Byte>, hs: nat, i: nat, child: nat, key: int)
    requires ChildAt(buf, hs + 12, i).Ok? && ChildAt(buf, hs + 12, i).value == child &&
             KeyAt(buf, hs + 12, i) == Ok(key)
    ensures ReadInteriorCell(buf, hs, i).Ok? && ReadInteriorCell(buf, hs, i).value.child == child
  {
  }

  lemma {:induction false} InteriorReads(buf: seq<Byte>, hs: nat, kids: seq<Tree>, keys: seq<int>, n: nat)
    requires n <= |keys| < |kids|
    requires forall i :: 0 <= i < |keys| ==>
            ChildAt(buf, hs + 12, i) == Ok(kids[i].page) && KeyAt(buf, hs + 12, i) == Ok(keys[i])
    ensures InteriorCells(buf, hs, n).Ok? && forall i :: 0 <= i < n ==>
            InteriorCells(buf, hs, n).value[i].child == kids[i].page
  {
    hide ChildAt, KeyAt, ReadInteriorCell;
    if n > 0 {
      InteriorReads(buf, hs, kids, keys, n - 1);
      InteriorCellReads(buf, hs, n - 1, kids[n - 1].page, keys[n - 1]);
    }
  }
}
