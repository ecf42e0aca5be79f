/** Table b-trees, the rows they hold in order, and the pages that store them. */
module RowTree {
  import opened Bytes
  import opened TablePage
  import opened Overflow

  type Pages = map<nat, seq<Byte>>

  /** A leaf with its cells, or an interior page whose keys separate its children. */
  datatype Tree = Leaf(page: nat, cells: seq<LeafCell>) | Node(page: nat, kids: seq<Tree>, keys: seq<int>)

  /** A row where a cursor finds it: the leaf page and the cell. */
  datatype Row = Row(page: nat, cell: LeafCell)

  /** What `current_payload` reads when the cursor is at a row. */
  function RowPayload(pages: Pages, usable: nat, row: Row): (r: Result<seq<Byte>, OverflowError>) {
    if row.page !in pages then Err(PageUnreadable(row.page))
    else if row.cell.len > MAX_PAYLOAD_LEN then Err(PayloadTooLarge)
    else if row.cell.tail > |pages[row.page]| then Err(PayloadTooShort)
    else Reassembled(pages, usable, pages[row.page][row.cell.tail..], row.cell.len, false)
  }

  // ----- the rows, in order -----

  function LeafRows(page: nat, cells: seq<LeafCell>): (r: seq<Row>)
    ensures |r| == |cells| && forall i :: 0 <= i < |r| ==> r[i] == Row(page, cells[i])
  {
    seq(|cells|, i requires 0 <= i < |cells| => Row(page, cells[i]))
  }

  function Rows(t: Tree): (r: seq<Row>)
    decreases t, 0
  {
    match t
    case Leaf(page, cells) => LeafRows(page, cells)
    case Node(_, kids, _) => AllRows(kids)
  }

  function AllRows(ts: seq<Tree>): (r: seq<Row>)
    decreases ts, 1
  {
    if ts == [] then [] else Rows(ts[0]) + AllRows(ts[1..])
  }

  lemma {:induction false} AllRowsSplit(a: seq<Tree>, b: seq<Tree>)
    ensures AllRows(a + b) == AllRows(a) + AllRows(b)
  {
    if a == [] {
      assert a + b == b;
    } else {
      assert (a + b)[1..] == a[1..] + b;
      AllRowsSplit(a[1..], b);
    }
  }

  lemma OneTree(t: Tree)
    ensures AllRows([t]) == Rows(t)
  {
    assert [t][1..] == [];
  }

  function NodeCount(t: Tree): (n: nat)
    ensures n >= 1
    decreases t, 0
  {
    match t
    case Leaf(_, _) => 1
    case Node(_, kids, _) => 1 + NodesCount(kids)
  }

  function NodesCount(ts: seq<Tree>): (n: nat)
    decreases ts, 1
  {
    if ts == [] then 0 else NodeCount(ts[0]) + NodesCount(ts[1..])
  }

  function Height(t: Tree): (n: nat)
    ensures n >= 1
    decreases t, 0
  {
    match t
    case Leaf(_, _) => 1
    case Node(_, kids, _) => 1 + Tallest(kids)
  }

  function Tallest(ts: seq<Tree>): (n: nat)
    decreases ts, 1
  {
    if ts == [] then 0 else Max(Height(ts[0]), Tallest(ts[1..]))
  }

  lemma {:induction false} TallestHas(ts: seq<Tree>, k: nat)
    requires k < |ts|
    ensures Height(ts[k]) <= Tallest(ts)
  {
    if k > 0 { TallestHas(ts[1..], k - 1); }
  }

  lemma {:induction false} NodesCountSplit(a: seq<Tree>, b: seq<Tree>)
    ensures NodesCount(a + b) == NodesCount(a) + NodesCount(b)
  {
    if a == [] {
      assert a + b == b;
    } else {
      assert (a + b)[1..] == a[1..] + b;
      NodesCountSplit(a[1..], b);
    }
  }

  lemma OneCount(t: Tree)
    ensures NodesCount([t]) == NodeCount(t)
  {
    assert [t][1..] == [];
  }

  // ----- the order -----

  ghost predicate Between(lo: int, x: int, hi: int) { lo < x <= hi }

  ghost predicate CellsAscend(cells: seq<LeafCell>) {
    forall i, j :: 0 <= i < j < |cells| ==> cells[i].rowid < cells[j].rowid
  }

  ghost predicate KeysAscend(keys: seq<int>) { forall i, j :: 0 <= i < j < |keys| ==> keys[i] < keys[j] }

  function Below(keys: seq<int>, i: nat, lo: int): int
    requires i <= |keys|
  {
    if i == 0 then lo else keys[i - 1]
  }

  function UpTo(keys: seq<int>, i: nat, hi: int): int
    requires i <= |keys|
  {
    if i == |keys| then hi else keys[i]
  }

  /** Rowids ascend within `(lo, hi]`; each child lies between the keys around it. */
  ghost predicate Ordered(t: Tree, lo: int, hi: int)
    decreases t
  {
    match t
    case Leaf(_, cells) => CellsAscend(cells) && forall i :: 0 <= i < |cells| ==> Between(lo, cells[i].rowid, hi)
    case Node(_, kids, keys) =>
      && |kids| == |keys| + 1 && KeysAscend(keys) && (forall i :: 0 <= i < |keys| ==> Between(lo, keys[i], hi)) &&
         lo <= hi
      && forall i :: 0 <= i < |kids| ==> Ordered(kids[i], Below(keys, i, lo), UpTo(keys, i, hi))
  }

  ghost predicate RowsAscend(rows: seq<Row>) {
    forall i, j :: 0 <= i < j < |rows| ==> rows[i].cell.rowid < rows[j].cell.rowid
  }

  ghost predicate RowsBetween(rows: seq<Row>, lo: int, hi: int) {
    forall i :: 0 <= i < |rows| ==> Between(lo, rows[i].cell.rowid, hi)
  }

  /** The in-order traversal of an ordered tree is strictly ascending. */
  lemma {:induction false} OrderedAscends(t: Tree, lo: int, hi: int)
    requires Ordered(t, lo, hi)
    ensures RowsAscend(Rows(t)) && RowsBetween(Rows(t), lo, hi)
    decreases t, 1, 0
  {
    match t
    case Leaf(page, cells) =>
    case Node(_, kids, keys) =>
      KidsAscend(t, lo, hi, 0);
      assert kids[0..] == kids;
  }

  lemma {:induction false} KidsAscend(t: Tree, lo: int, hi: int, i: nat)
    requires t.Node? && Ordered(t, lo, hi) && i <= |t.kids|
    ensures i < |t.kids| ==>
            RowsAscend(AllRows(t.kids[i..])) && RowsBetween(AllRows(t.kids[i..]), Below(t.keys, i, lo), hi)
    decreases t, 0, |t.kids| - i
  {
    if i < |t.kids| {
      var kids, rest := t.kids, t.kids[i..];
      assert rest[0] == kids[i] && rest[1..] == kids[i + 1..];
      OrderedAscends(kids[i], Below(t.keys, i, lo), UpTo(t.keys, i, hi));
      KidsAscend(t, lo, hi, i + 1);
      JoinAscends(Rows(kids[i]), AllRows(kids[i + 1..]), Below(t.keys, i, lo), UpTo(t.keys, i, hi), hi);
    }
  }

  lemma JoinAscends(a: seq<Row>, b: seq<Row>, lo: int, mid: int, hi: int)
    requires RowsAscend(a) && RowsBetween(a, lo, mid) && lo <= mid <= hi
    requires b == [] || (RowsAscend(b) && RowsBetween(b, mid, hi))
    ensures RowsAscend(a + b) && RowsBetween(a + b, lo, hi)
  {
    var s := a + b;
    forall i | 0 <= i < |s| ensures Between(lo, s[i].cell.rowid, hi) {
      if i < |a| { assert Between(lo, a[i].cell.rowid, mid); } else { assert Between(mid, b[i - |a|].cell.rowid, hi); }
    }
    forall i, j | 0 <= i < j < |s| ensures s[i].cell.rowid < s[j].cell.rowid {
      if i < |a| <= j {
        assert Between(lo, a[i].cell.rowid, mid) && Between(mid, b[j - |a|].cell.rowid, hi);
      } else if j < |a| {
        assert a[i].cell.rowid < a[j].cell.rowid;
      } else {
        assert b[i - |a|].cell.rowid < b[j - |a|].cell.rowid;
      }
    }
  }

  // ----- the pages -----

  /** The pages store the tree. */
  ghost predicate StoredAt(pages: Pages, t: Tree)
    decreases t
  {
    && t.page in pages
    && var buf, hs := pages[t.page], HeaderStart(t.page);
    match t
    case Leaf(_, cells) =>
      && PageType(buf, hs) == Ok(LEAF_TABLE) && CellCount(buf, hs) == Ok(|cells|)
      && forall i :: 0 <= i < |cells| ==> ReadLeafCell(buf, hs, i) == Ok(cells[i])
    case Node(_, kids, keys) =>
      && PageType(buf, hs) == Ok(INTERIOR_TABLE) && CellCount(buf, hs) == Ok(|keys|) && |kids| == |keys| + 1
      && (forall i :: 0 <= i < |keys| ==>
          ChildAt(buf, hs + 12, i) == Ok(kids[i].page) && KeyAt(buf, hs + 12, i) == Ok(keys[i]))
      && Rightmost(buf, hs) == Ok(kids[|keys|].page)
      && forall i :: 0 <= i < |kids| ==> StoredAt(pages, kids[i])
  }
}
