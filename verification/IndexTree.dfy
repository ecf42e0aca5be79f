/** Index b-trees, where interior pages hold entries of their own between their children. */
module IndexTree {
  import opened Bytes
  import opened Overflow
  import opened TablePage
  import opened IndexOrder
  import opened Values
  import Record
  import Varint

  type Pages = map<nat, seq<Byte>>

  const LEAF_INDEX: Byte := 0x0a
  const INTERIOR_INDEX: Byte := 0x02

  datatype Entry = Entry(payload: seq<Byte>, key: Key)

  /** A leaf's entries, or the separating entries of an interior page and its children. */
  datatype Tree = Leaf(page: nat, entries: seq<Entry>) | Node(page: nat, kids: seq<Tree>, seps: seq<Entry>)

  // ----- the entries, in order -----

  predicate Shaped(t: Tree) { t.Node? ==> |t.kids| == |t.seps| + 1 }

  function ItemCount(t: Tree): (n: nat) { if t.Leaf? then 0 else 2 * |t.seps| + 1 }

  /** Item `2 * i` of an interior page is child `i`, item `2 * i + 1` is its own entry `i`. */
  function Item(t: Tree, i: nat): (r: seq<Entry>)
    requires t.Node? && Shaped(t) && i < ItemCount(t)
    decreases t, 0, 0
  {
    if i % 2 == 0 then Entries(t.kids[i / 2]) else [t.seps[i / 2]]
  }

  function Range(t: Tree, lo: nat, hi: nat): (r: seq<Entry>)
    requires t.Node? && Shaped(t) && lo <= hi <= ItemCount(t)
    decreases t, 1, hi - lo
  {
    if lo == hi then [] else Item(t, lo) + Range(t, lo + 1, hi)
  }

  /** The in-order traversal; nothing for a misshapen page. */
  function Entries(t: Tree): (r: seq<Entry>)
    decreases t, 2, 0
  {
    if t.Leaf? then t.entries else if Shaped(t) then Range(t, 0, ItemCount(t)) else []
  }

  lemma {:induction false} RangeSplit(t: Tree, lo: nat, mid: nat, hi: nat)
    requires t.Node? && Shaped(t) && lo <= mid <= hi <= ItemCount(t)
    ensures Range(t, lo, hi) == Range(t, lo, mid) + Range(t, mid, hi)
    decreases mid - lo
  {
    if lo < mid { RangeSplit(t, lo + 1, mid, hi); }
  }

  lemma RangeOne(t: Tree, i: nat)
    requires t.Node? && Shaped(t) && i < ItemCount(t)
    ensures Range(t, i, i + 1) == Item(t, i)
  {
    assert Range(t, i + 1, i + 1) == [];
  }

  // ----- how many pages -----

  function NodeCount(t: Tree): (n: nat)
    ensures n >= 1
    decreases t, 2, 0
  {
    if t.Leaf? || !Shaped(t) then 1 else 1 + CountRange(t, 0, ItemCount(t))
  }

  function ItemNodes(t: Tree, i: nat): (n: nat)
    requires t.Node? && Shaped(t) && i < ItemCount(t)
    decreases t, 0, 0
  {
    if i % 2 == 0 then NodeCount(t.kids[i / 2]) else 0
  }

  function CountRange(t: Tree, lo: nat, hi: nat): (n: nat)
    requires t.Node? && Shaped(t) && lo <= hi <= ItemCount(t)
    decreases t, 1, hi - lo
  {
    if lo == hi then 0 else ItemNodes(t, lo) + CountRange(t, lo + 1, hi)
  }

  lemma {:induction false} CountSplit(t: Tree, lo: nat, mid: nat, hi: nat)
    requires t.Node? && Shaped(t) && lo <= mid <= hi <= ItemCount(t)
    ensures CountRange(t, lo, hi) == CountRange(t, lo, mid) + CountRange(t, mid, hi)
    decreases mid - lo
  {
    if lo < mid { CountSplit(t, lo + 1, mid, hi); }
  }

  lemma CountOne(t: Tree, i: nat)
    requires t.Node? && Shaped(t) && i < ItemCount(t)
    ensures CountRange(t, i, i + 1) == ItemNodes(t, i)
  {
    assert CountRange(t, i + 1, i + 1) == 0;
  }

  // ----- the pages -----

  /** The payload whose length varint is at `start`, overflow pages included. */
  function PayloadAt(pages: Pages, usable: nat, buf: seq<Byte>, start: nat): (r: Result<seq<Byte>, PageError>) {
    if start > |buf| then Err(InvalidCellPointer)
    else
      match Varint.Decode(buf[start..])
      case Err(_) => Err(InvalidCellVarint)
      case Ok((len, n)) =>
        match Reassembled(pages, usable, buf[start + n..], len, true)
        case Err(e) => Err(BadPayload(e))
        case Ok(p) => Ok(p)
  }

  /** Entry `i` of a page; interior cells start with a child pointer. */
  function EntryAt(pages: Pages, usable: nat, buf: seq<Byte>, base: nat, interior: bool,
                   i: nat): (r: Result<seq<Byte>, PageError>) {
    match CellPtr(buf, base, i)
    case Err(e) => Err(e)
    case Ok(start) => PayloadAt(pages, usable, buf, start + if interior then 4 else 0)
  }

  ghost predicate EntryIs(pages: Pages, usable: nat, buf: seq<Byte>, base: nat, interior: bool, i: nat, e: Entry) {
    EntryAt(pages, usable, buf, base, interior, i) == Ok(e.payload) && Record.DecodeRecord(e.payload) == Ok(e.key)
  }

  ghost predicate StoredAt(pages: Pages, usable: nat, t: Tree)
    decreases t
  {
    && t.page in pages
    && var buf, hs := pages[t.page], HeaderStart(t.page);
    match t
    case Leaf(_, entries) =>
      && PageType(buf, hs) == Ok(LEAF_INDEX) && CellCount(buf, hs) == Ok(|entries|)
      && forall i :: 0 <= i < |entries| ==> EntryIs(pages, usable, buf, hs + 8, false, i, entries[i])
    case Node(_, kids, seps) =>
      && PageType(buf, hs) == Ok(INTERIOR_INDEX) && CellCount(buf, hs) == Ok(|seps|) && |kids| == |seps| + 1
      && (forall i :: 0 <= i < |seps| ==>
            ChildAt(buf, hs + 12, i) == Ok(kids[i].page) && EntryIs(pages, usable, buf, hs + 12, true, i, seps[i]))
      && Rightmost(buf, hs) == Ok(kids[|seps|].page)
      && forall i :: 0 <= i < |kids| ==> StoredAt(pages, usable, kids[i])
  }
}
