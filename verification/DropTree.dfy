/** Dropping a table: every page of its b-tree goes to the freelist while the tree is being walked. */
module DropTree {
  import opened Bytes
  import opened Overflow
  import opened TablePage
  import opened Freelist

  /** The pages and visit count when a walk stops, and whether it got to the end. */
  datatype Outcome = Outcome(pages: Pages, visited: nat, ok: bool)

  function Left(visited: nat): (n: nat) { Max(0, MAX_PAGES_VISITED + 1 - visited) }

  function Release(pages: Pages, size: nat, n: U32, visited: nat): (r: Outcome)
    requires PagesOk(pages, size)
    ensures PagesOk(r.pages, size) && r.visited == visited
  {
    match Deallocate(pages, size, n)
    case Err(_) => Outcome(pages, visited, false)
    case Ok(p) => DeallocateOk(pages, size, n); Outcome(p, visited, true)
  }

  /** `free_overflow_chain`. */
  function FreeChain(pages: Pages, size: nat, at: U32, visited: nat, seen: set<nat>): (r: Outcome)
    requires PagesOk(pages, size)
    ensures PagesOk(r.pages, size) && r.visited >= visited
    decreases Left(visited)
  {
    if at == 0 then Outcome(pages, visited, true)
    else
      var v := visited + 1;
      if v > MAX_PAGES_VISITED || at in seen || at !in pages then Outcome(pages, v, false)
      else
        var next := ReadBe32(pages[at], 0);
        var freed := Release(pages, size, at, v);
        if !freed.ok then freed else FreeChain(freed.pages, size, next, v, seen + {at as nat})
  }

  /** The overflow chains of cells `i` to `n` of the leaf page `buf`. */
  function FreeCells(pages: Pages, size: nat, usable: nat, buf: seq<Byte>, hs: nat, i: nat, n: nat,
                     visited: nat): (r: Outcome)
    requires PagesOk(pages, size) && i <= n
    ensures PagesOk(r.pages, size) && r.visited >= visited
    decreases n - i
  {
    if i == n then Outcome(pages, visited, true)
    else
      match ReadLeafCell(buf, hs, i)
      case Err(_) => Outcome(pages, visited, false)
      case Ok(c) =>
        match FirstOverflow(buf, c, usable)
        case Err(_) => Outcome(pages, visited, false)
        case Ok(None) => FreeCells(pages, size, usable, buf, hs, i + 1, n, visited)
        case Ok(Some(first)) =>
          var o := FreeChain(pages, size, first, visited, {});
          if !o.ok then o else FreeCells(o.pages, size, usable, buf, hs, i + 1, n, o.visited)
  }

  /** `free_btree_pages_inner` on a table b-tree. */
  function FreeNode(pages: Pages, size: nat, usable: nat, n: U32, visited: nat): (r: Outcome)
    requires PagesOk(pages, size)
    ensures PagesOk(r.pages, size) && r.visited >= visited
    decreases Left(visited), 0, 0
  {
    var v := visited + 1;
    if v > MAX_PAGES_VISITED || n !in pages then Outcome(pages, v, false)
    else
      var buf, hs := pages[n], HeaderStart(n);
      match PageType(buf, hs)
      case Err(_) => Outcome(pages, v, false)
      case Ok(kind) =>
        if kind != LEAF_TABLE && kind != INTERIOR_TABLE then Outcome(pages, v, false)
        else
          match CellCount(buf, hs)
          case Err(_) => Outcome(pages, v, false)
          case Ok(count) =>
            if kind == LEAF_TABLE then
              var o := FreeCells(pages, size, usable, buf, hs, 0, count, v);
              if o.ok then Release(o.pages, size, n, o.visited) else o
            else
              match Children(buf, hs, count)
              case Err(_) => Outcome(pages, v, false)
              case Ok(children) =>
                var o := FreeNodes(pages, size, usable, children, v);
                if o.ok then Release(o.pages, size, n, o.visited) else o
  }

  function FreeNodes(pages: Pages, size: nat, usable: nat, nodes: seq<U32>, visited: nat): (r: Outcome)
    requires PagesOk(pages, size)
    ensures PagesOk(r.pages, size) && r.visited >= visited
    decreases Left(visited), 1, |nodes|
  {
    if nodes == [] then Outcome(pages, visited, true)
    else
      var o := FreeNode(pages, size, usable, nodes[0], visited);
      if !o.ok then o else FreeNodes(o.pages, size, usable, nodes[1..], o.visited)
  }

  /** The children of an interior page, the rightmost last. */
  function Children(buf: seq<Byte>, hs: nat, count: nat): (r: Result<seq<U32>, PageError>)
    ensures r.Ok? ==> |r.value| == count + 1
  {
    match InteriorCells(buf, hs, count)
    case Err(e) => Err(e)
    case Ok(cells) =>
      match Rightmost(buf, hs)
      case Err(e) => Err(e)
      case Ok(right) => Ok(seq(count, i requires 0 <= i < count => cells[i].child) + [right])
  }

  // ----- the trees it is for -----

  /** A table b-tree by its page numbers: a leaf with the overflow chain of each cell, or an interior
      page over its children. */
  datatype Tree = Leaf(page: U32, chains: seq<seq<U32>>) | Node(page: U32, children: seq<Tree>)

  /** The overflow chain starting at `at`. */
  ghost predicate ChainAt(pages: Pages, at: U32, chain: seq<U32>)
    decreases |chain|
  {
    if chain == [] then at == 0
    else
      && at == chain[0] && at != 0 && at in pages && |pages[at]| >= 4
      && ChainAt(pages, ReadBe32(pages[at], 0), chain[1..])
  }

  ghost predicate CellAt(pages: Pages, buf: seq<Byte>, hs: nat, usable: nat, i: nat, chain: seq<U32>) {
    && ReadLeafCell(buf, hs, i).Ok?
    && FirstOverflow(buf, ReadLeafCell(buf, hs, i).value, usable).Ok?
    && match FirstOverflow(buf, ReadLeafCell(buf, hs, i).value, usable).value
       case None => chain == []
       case Some(first) => ChainAt(pages, first, chain)
  }

  /** The pages hold the tree. */
  ghost predicate TreeAt(pages: Pages, usable: nat, t: Tree)
    decreases t, 0
  {
    && t.page in pages
    && var buf, hs := pages[t.page], HeaderStart(t.page);
    match t
    case Leaf(_, chains) =>
      && PageType(buf, hs) == Ok(LEAF_TABLE) && CellCount(buf, hs) == Ok(|chains|)
      && forall i :: 0 <= i < |chains| ==> CellAt(pages, buf, hs, usable, i, chains[i])
    case Node(_, children) =>
      && PageType(buf, hs) == Ok(INTERIOR_TABLE) && CellCount(buf, hs).Ok?
      && Children(buf, hs, CellCount(buf, hs).value) == Ok(Roots(children))
      && TreesAt(pages, usable, children)
  }

  ghost predicate TreesAt(pages: Pages, usable: nat, ts: seq<Tree>)
    decreases ts, 1
  {
    forall i :: 0 <= i < |ts| ==> TreeAt(pages, usable, ts[i])
  }

  function Roots(ts: seq<Tree>): (r: seq<U32>)
    ensures |r| == |ts| && forall i :: 0 <= i < |ts| ==> r[i] == ts[i].page
  {
    seq(|ts|, i requires 0 <= i < |ts| => ts[i].page)
  }

  function Joined(chains: seq<seq<U32>>): (r: seq<U32>) { if chains == [] then [] else chains[0] + Joined(chains[1..]) }

  /** Every page of the tree, overflow pages included, in the order they are given back. */
  function TreePages(t: Tree): (r: seq<U32>)
    decreases t, 0
  {
    match t
    case Leaf(page, chains) => Joined(chains) + [page]
    case Node(page, children) => TreesPages(children) + [page]
  }

  function TreesPages(ts: seq<Tree>): (r: seq<U32>)
    decreases ts, 1
  {
    if ts == [] then [] else TreePages(ts[0]) + TreesPages(ts[1..])
  }

  // ----- frames -----

  ghost predicate SameOn(pages: Pages, pages': Pages, s: seq<U32>) {
    forall x :: x in s ==> x in pages && x in pages' && pages'[x] == pages[x]
  }

  lemma {:induction false} ChainAtFrame(pages: Pages, pages': Pages, at: U32, chain: seq<U32>)
    requires ChainAt(pages, at, chain) && SameOn(pages, pages', chain)
    ensures ChainAt(pages', at, chain)
    decreases |chain|
  {
    if chain != [] {
      assert chain[0] in chain;
      ChainAtFrame(pages, pages', ReadBe32(pages[at], 0), chain[1..]);
    }
  }

  lemma {:induction false} JoinedHas(chains: seq<seq<U32>>, i: nat)
    requires i < |chains|
    ensures forall x :: x in chains[i] ==> x in Joined(chains)
  {
    if i > 0 { JoinedHas(chains[1..], i - 1); }
  }

  lemma {:induction false} TreesHave(ts: seq<Tree>, i: nat)
    requires i < |ts|
    ensures forall x :: x in TreePages(ts[i]) ==> x in TreesPages(ts)
  {
    if i > 0 { TreesHave(ts[1..], i - 1); }
  }

  /** A tree's pages are all it depends on. */
  lemma {:induction false} TreeAtFrame(pages: Pages, pages': Pages, usable: nat, t: Tree)
    requires TreeAt(pages, usable, t) && SameOn(pages, pages', TreePages(t))
    ensures TreeAt(pages', usable, t)
    decreases t, 0
  {
    hide PageType, CellCount, Children, Roots;
    match t
    case Leaf(page, chains) =>
      assert (Joined(chains) + [page])[|Joined(chains)|] == page;
      assert page in TreePages(t);
      LeafFrame(pages, pages', usable, t);
    case Node(page, children) =>
      assert (TreesPages(children) + [page])[|TreesPages(children)|] == page;
      assert page in TreePages(t);
      TreesAtFrame(pages, pages', usable, children);
  }

  lemma LeafFrame(pages: Pages, pages': Pages, usable: nat, t: Tree)
    requires t.Leaf? && TreeAt(pages, usable, t) && SameOn(pages, pages', TreePages(t))
    ensures forall i :: 0 <= i < |t.chains| ==> CellAt(pages', pages[t.page], HeaderStart(t.page), usable, i,
            t.chains[i])
  {
    hide PageType, CellCount, ReadLeafCell, FirstOverflow;
    forall i | 0 <= i < |t.chains| ensures CellAt(pages', pages[t.page], HeaderStart(t.page), usable, i, t.chains[i]) {
      JoinedHas(t.chains, i);
      assert CellAt(pages, pages[t.page], HeaderStart(t.page), usable, i, t.chains[i]);
      var o := FirstOverflow(pages[t.page], ReadLeafCell(pages[t.page], HeaderStart(t.page), i).value, usable).value;
      if o.Some? { ChainAtFrame(pages, pages', o.value, t.chains[i]); }
    }
  }

  lemma {:induction false} TreesAtFrame(pages: Pages, pages': Pages, usable: nat, ts: seq<Tree>)
    requires TreesAt(pages, usable, ts) && SameOn(pages, pages', TreesPages(ts))
    ensures TreesAt(pages', usable, ts)
    decreases ts, 1
  {
    forall i | 0 <= i < |ts| ensures TreeAt(pages', usable, ts[i]) {
      TreesHave(ts, i);
      TreeAtFrame(pages, pages', usable, ts[i]);
    }
  }

  // ----- giving pages back -----

  ghost function LiveOf(pages: Pages, fl: seq<Trunk>): (r: set<nat>) {
    if 1 in pages && |pages[1]| >= 512 then Live(Field(pages[1], PAGE_COUNT), fl) else {}
  }

  lemma ConsistentPages(pages: Pages, size: nat, fl: seq<Trunk>)
    requires Consistent(pages, size, fl)
    ensures PagesOk(pages, size) && 1 in pages && LiveOf(pages, fl) == Live(Field(pages[1], PAGE_COUNT), fl)
  {
  }

  /** Distinct pages in use, none of them page 1. */
  ghost predicate Held(pages: Pages, size: nat, fl: seq<Trunk>, s: seq<U32>) {
    && Consistent(pages, size, fl) && NoDup(s)
    && forall x :: x in s ==> x in LiveOf(pages, fl) && x != 1
  }

  /** Exactly `gone` left the pages in use for the freelist, and the pages still in use are unchanged
      (page 1 but for its freelist fields). */
  ghost predicate GaveBack(pages: Pages, pages': Pages, size: nat, fl: seq<Trunk>, fl': seq<Trunk>, gone: seq<U32>) {
    && Consistent(pages, size, fl) && Consistent(pages', size, fl')
    && (forall n :: n in LiveOf(pages', fl') <==> n in LiveOf(pages, fl) && n !in gone)
    && (forall n :: n in LiveOf(pages', fl') && n != 1 ==> n in pages && n in pages' && pages'[n] == pages[n])
  }

  lemma GaveNothing(pages: Pages, size: nat, fl: seq<Trunk>)
    requires Consistent(pages, size, fl)
    ensures GaveBack(pages, pages, size, fl, fl, [])
  {
    hide NoDup, Listed, ChainFrom;
  }

  lemma GaveBoth(p: Pages, q: Pages, r: Pages, size: nat, f: seq<Trunk>, g: seq<Trunk>, h: seq<Trunk>, a: seq<U32>,
                 b: seq<U32>)
    requires GaveBack(p, q, size, f, g, a) && GaveBack(q, r, size, g, h, b)
    ensures GaveBack(p, r, size, f, h, a + b)
  {
    hide NoDup, Listed, ChainFrom, LiveOf;
  }

  lemma HeldSplits(pages: Pages, size: nat, fl: seq<Trunk>, a: seq<U32>, b: seq<U32>)
    requires Held(pages, size, fl, a + b)
    ensures Held(pages, size, fl, a) && Held(pages, size, fl, b) && forall x :: x in b ==> x !in a
  {
    hide Consistent, LiveOf;
    var s := a + b;
    assert forall x :: x in a || x in b ==> x in s;
    forall i, j | 0 <= i < j < |a| ensures a[i] != a[j] { assert s[i] != s[j]; }
    forall i, j | 0 <= i < j < |b| ensures b[i] != b[j] { assert s[|a| + i] != s[|a| + j]; }
    forall i, j | 0 <= i < |a| && 0 <= j < |b| ensures a[i] != b[j] { assert s[i] != s[|a| + j]; }
  }

  /** What is still held after some pages are gone, and unchanged. */
  lemma StillHeld(p: Pages, q: Pages, size: nat, f: seq<Trunk>, g: seq<Trunk>, a: seq<U32>, b: seq<U32>)
    requires Held(p, size, f, a + b) && GaveBack(p, q, size, f, g, a)
    ensures Held(q, size, g, b) && SameOn(p, q, b)
  {
    hide Consistent, LiveOf, NoDup;
    HeldSplits(p, size, f, a, b);
  }

  lemma ReleaseGives(pages: Pages, size: nat, fl: seq<Trunk>, n: U32, visited: nat) returns (fl': seq<Trunk>)
    requires Held(pages, size, fl, [n])
    ensures var o := Release(pages, size, n, visited); o.ok && GaveBack(pages, o.pages, size, fl, fl', [n])
  {
    hide Consistent, Deallocate, NoDup, LiveKept, Live;
    assert n in [n];
    ConsistentPages(pages, size, fl);
    DeallocateSafe(pages, size, fl, n);
    fl' := ChainAfterFree(fl, n, size);
    var q := Deallocate(pages, size, n).value;
    assert Freed(pages, q, size, fl, fl', n);
    ConsistentPages(q, size, fl');
    forall m | m in LiveOf(q, fl') && m != 1 ensures m in pages && m in q && q[m] == pages[m] {
      LiveInside(pages, size, fl, m);
      LiveKeptMeans(pages, q, LiveOf(q, fl'), m);
    }
  }

  lemma LiveInside(pages: Pages, size: nat, fl: seq<Trunk>, m: nat)
    requires Consistent(pages, size, fl) && m in LiveOf(pages, fl)
    ensures m in pages
  {
  }

  lemma LiveKeptMeans(pages: Pages, pages': Pages, live: set<nat>, m: nat)
    requires LiveKept(pages, pages', live) && m in live && m != 1 && m in pages
    ensures m in pages' && pages'[m] == pages[m]
  {
  }

  // ----- the walk -----

  /** How a walk over the pages `gone` comes out: complete when the visit limit allows it, and then
      they, and only they, are free. */
  ghost predicate Walked(o: Outcome, pages: Pages, size: nat, fl: seq<Trunk>, fl': seq<Trunk>, gone: seq<U32>,
                         visited: nat) {
    && (o.ok <==> visited + |gone| <= MAX_PAGES_VISITED)
    && (o.ok ==> o.visited == visited + |gone| && GaveBack(pages, o.pages, size, fl, fl', gone))
  }

  lemma {:induction false} FreeChainFrees(pages: Pages, size: nat, fl: seq<Trunk>, at: U32, chain: seq<U32>,
                                          visited: nat, seen: set<nat>)
    returns (fl': seq<Trunk>)
    requires Held(pages, size, fl, chain) && ChainAt(pages, at, chain) && visited <= MAX_PAGES_VISITED
    requires forall x :: x in chain ==> x !in seen
    ensures Walked(FreeChain(pages, size, at, visited, seen), pages, size, fl, fl', chain, visited)
    decreases |chain|
  {
    hide GaveBack, Consistent, LiveOf, NoDup, Release, ReadBe32;
    fl' := fl;
    ConsistentPages(pages, size, fl);
    if chain == [] {
      GaveNothing(pages, size, fl);
    } else if visited < MAX_PAGES_VISITED {
      var n, rest := chain[0], chain[1..];
      assert chain == [n] + rest;
      HeldSplits(pages, size, fl, [n], rest);
      var mid := ReleaseGives(pages, size, fl, n, visited + 1);
      var q := Release(pages, size, n, visited + 1).pages;
      StillHeld(pages, q, size, fl, mid, [n], rest);
      ChainAtFrame(pages, q, ReadBe32(pages[at], 0), rest);
      assert n in chain && n in [n];
      fl' := FreeChainFrees(q, size, mid, ReadBe32(pages[at], 0), rest, visited + 1, seen + {n as nat});
      if FreeChain(pages, size, at, visited, seen).ok {
        GaveBoth(pages, q, FreeChain(pages, size, at, visited, seen).pages, size, fl, mid, fl', [n], rest);
      }
    }
  }

  lemma CellsFrame(pages: Pages, q: Pages, buf: seq<Byte>, hs: nat, usable: nat, chains: seq<seq<U32>>, i: nat)
    requires i <= |chains| && forall j :: i <= j < |chains| ==> CellAt(pages, buf, hs, usable, j, chains[j])
    requires SameOn(pages, q, Joined(chains[i..]))
    ensures forall j :: i <= j < |chains| ==> CellAt(q, buf, hs, usable, j, chains[j])
  {
    hide ReadLeafCell, FirstOverflow;
    forall j | i <= j < |chains| ensures CellAt(q, buf, hs, usable, j, chains[j]) {
      JoinedHas(chains[i..], j - i);
      assert CellAt(pages, buf, hs, usable, j, chains[j]);
      var o := FirstOverflow(buf, ReadLeafCell(buf, hs, j).value, usable).value;
      if o.Some? { ChainAtFrame(pages, q, o.value, chains[j]); }
    }
  }

  lemma {:induction false} FreeCellsFrees(pages: Pages, size: nat, fl: seq<Trunk>, usable: nat, buf: seq<Byte>, hs: nat,
                                          chains: seq<seq<U32>>, i: nat, visited: nat)
    returns (fl': seq<Trunk>)
    requires i <= |chains| && Held(pages, size, fl, Joined(chains[i..])) && visited <= MAX_PAGES_VISITED
    requires forall j :: i <= j < |chains| ==> CellAt(pages, buf, hs, usable, j, chains[j])
    ensures Walked(FreeCells(pages, size, usable, buf, hs, i, |chains|, visited), pages, size, fl, fl',
            Joined(chains[i..]), visited)
    decreases |chains| - i
  {
    hide GaveBack, Consistent, LiveOf, NoDup, FreeChain, ReadLeafCell, FirstOverflow, Held;
    fl' := fl;
    HeldConsistent(pages, size, fl, Joined(chains[i..]));
    if i == |chains| {
      GaveNothing(pages, size, fl);
    } else {
      var c, rest := chains[i], Joined(chains[i + 1..]);
      assert chains[i..][1..] == chains[i + 1..];
      assert Joined(chains[i..]) == c + rest;
      HeldSplits(pages, size, fl, c, rest);
      assert CellAt(pages, buf, hs, usable, i, c);
      var first := FirstOverflow(buf, ReadLeafCell(buf, hs, i).value, usable).value;
      if first.None? {
        assert c + rest == rest;
        fl' := FreeCellsFrees(pages, size, fl, usable, buf, hs, chains, i + 1, visited);
      } else {
        var mid := FreeChainFrees(pages, size, fl, first.value, c, visited, {});
        var o := FreeChain(pages, size, first.value, visited, {});
        if o.ok {
          StillHeld(pages, o.pages, size, fl, mid, c, rest);
          CellsFrame(pages, o.pages, buf, hs, usable, chains, i + 1);
          fl' := FreeCellsFrees(o.pages, size, mid, usable, buf, hs, chains, i + 1, o.visited);
          var e := FreeCells(o.pages, size, usable, buf, hs, i + 1, |chains|, o.visited);
          if e.ok { GaveBoth(pages, o.pages, e.pages, size, fl, mid, fl', c, rest); }
        }
      }
    }
  }

  lemma HeldConsistent(pages: Pages, size: nat, fl: seq<Trunk>, s: seq<U32>)
    requires Held(pages, size, fl, s)
    ensures Consistent(pages, size, fl) && PagesOk(pages, size)
  {
  }

  /** The page itself goes last, once everything below it has gone. */
  lemma ReleaseLast(o: Outcome, pages: Pages, size: nat, fl: seq<Trunk>, mid: seq<Trunk>, below: seq<U32>, n: U32,
                    visited: nat)
    returns (fl': seq<Trunk>)
    requires Held(pages, size, fl, below + [n]) && visited < MAX_PAGES_VISITED && PagesOk(o.pages, size)
    requires Walked(o, pages, size, fl, mid, below, visited + 1)
    ensures Walked(if o.ok then Release(o.pages, size, n, o.visited) else o, pages, size, fl, fl', below + [n], visited)
  {
    hide GaveBack, Consistent, LiveOf, NoDup, Release, Held;
    fl' := mid;
    if o.ok {
      StillHeld(pages, o.pages, size, fl, mid, below, [n]);
      fl' := ReleaseGives(o.pages, size, mid, n, o.visited);
      GaveBoth(pages, o.pages, Release(o.pages, size, n, o.visited).pages, size, fl, mid, fl', below, [n]);
    }
  }

  /** `free_btree_pages` on a table b-tree gives back exactly its interior, leaf and overflow pages,
      each once, though pages already given back are being rewritten as trunks while it walks. It
      completes exactly when the tree is within the visit limit. */
  lemma {:induction false} FreeNodeFrees(pages: Pages, size: nat, fl: seq<Trunk>, usable: nat, t: Tree, visited: nat)
    returns (fl': seq<Trunk>)
    requires Held(pages, size, fl, TreePages(t)) && TreeAt(pages, usable, t) && visited <= MAX_PAGES_VISITED
    ensures Walked(FreeNode(pages, size, usable, t.page, visited), pages, size, fl, fl', TreePages(t), visited)
    decreases t, 0
  {
    hide GaveBack, Consistent, LiveOf, NoDup, FreeCells, FreeNodes, ReadLeafCell, FirstOverflow, Held, Children;
    hide PageType, CellCount, Release, Walked;
    fl' := fl;
    HeldConsistent(pages, size, fl, TreePages(t));
    if visited == MAX_PAGES_VISITED {
      WalkStops(pages, size, fl, usable, t, visited);
    } else {
      var buf, hs := pages[t.page], HeaderStart(t.page);
      match t
      case Leaf(page, chains) =>
        HeldSplits(pages, size, fl, Joined(chains), [page]);
        assert chains[0..] == chains;
        var mid := FreeCellsFrees(pages, size, fl, usable, buf, hs, chains, 0, visited + 1);
        var o := FreeCells(pages, size, usable, buf, hs, 0, |chains|, visited + 1);
        fl' := ReleaseLast(o, pages, size, fl, mid, Joined(chains), page, visited);
      case Node(page, children) =>
        HeldSplits(pages, size, fl, TreesPages(children), [page]);
        var mid := FreeNodesFree(pages, size, fl, usable, children, visited + 1);
        var o := FreeNodes(pages, size, usable, Roots(children), visited + 1);
        fl' := ReleaseLast(o, pages, size, fl, mid, TreesPages(children), page, visited);
    }
  }

  lemma WalkStops(pages: Pages, size: nat, fl: seq<Trunk>, usable: nat, t: Tree, visited: nat)
    requires PagesOk(pages, size) && visited == MAX_PAGES_VISITED
    ensures Walked(FreeNode(pages, size, usable, t.page, visited), pages, size, fl, fl, TreePages(t), visited)
  {
    hide FreeCells, FreeNodes, Children, PageType, CellCount, Release;
  }

  lemma {:induction false} FreeNodesFree(pages: Pages, size: nat, fl: seq<Trunk>, usable: nat, ts: seq<Tree>,
                                         visited: nat)
    returns (fl': seq<Trunk>)
    requires Held(pages, size, fl, TreesPages(ts)) && TreesAt(pages, usable, ts) && visited <= MAX_PAGES_VISITED
    ensures Walked(FreeNodes(pages, size, usable, Roots(ts), visited), pages, size, fl, fl', TreesPages(ts), visited)
    decreases ts, 1
  {
    hide GaveBack, Consistent, LiveOf, NoDup, FreeNode, Held, TreeAt, TreePages;
    fl' := fl;
    HeldConsistent(pages, size, fl, TreesPages(ts));
    if ts == [] {
      GaveNothing(pages, size, fl);
    } else {
      var a, b := TreePages(ts[0]), TreesPages(ts[1..]);
      HeldSplits(pages, size, fl, a, b);
      assert Roots(ts)[1..] == Roots(ts[1..]);
      var mid := FreeNodeFrees(pages, size, fl, usable, ts[0], visited);
      var o := FreeNode(pages, size, usable, ts[0].page, visited);
      if o.ok {
        StillHeld(pages, o.pages, size, fl, mid, a, b);
        TreesAtFrame(pages, o.pages, usable, ts[1..]);
        fl' := FreeNodesFree(o.pages, size, mid, usable, ts[1..], o.visited);
        var e := FreeNodes(o.pages, size, usable, Roots(ts[1..]), o.visited);
        if e.ok { GaveBoth(pages, o.pages, e.pages, size, fl, mid, fl', a, b); }
      }
    }
  }

  // ----- the loops -----

  method FreeOverflowChain(pages: Pages, size: nat, first: U32, visited: nat) returns (o: Outcome)
    requires PagesOk(pages, size)
    ensures o == FreeChain(pages, size, first, visited, {})
  {
    hide Release, PagesOk;
    var at: U32 := first;
    var seen: set<nat> := {};
    o := Outcome(pages, visited, true);
    while at != 0
      invariant PagesOk(o.pages, size) && o.ok
      invariant FreeChain(pages, size, first, visited, {}) == FreeChain(o.pages, size, at, o.visited, seen)
      decreases Left(o.visited)
    {
      var v := o.visited + 1;
      if v > MAX_PAGES_VISITED || at in seen || at !in o.pages { return Outcome(o.pages, v, false); }
      assert |o.pages[at]| >= 4 by { PageLong(o.pages, size, at); }
      var next := ReadBe32(o.pages[at], 0);
      seen := seen + {at as nat};
      o := Release(o.pages, size, at, v);
      if !o.ok { return; }
      at := next;
    }
  }

  lemma PageLong(pages: Pages, size: nat, n: nat)
    requires PagesOk(pages, size) && n in pages
    ensures |pages[n]| >= 512
  {
  }

  method FreeLeafCells(pages: Pages, size: nat, usable: nat, buf: seq<Byte>, hs: nat, n: nat, visited: nat)
    returns (o: Outcome)
    requires PagesOk(pages, size)
    ensures o == FreeCells(pages, size, usable, buf, hs, 0, n, visited)
  {
    hide FreeChain, PagesOk, ReadLeafCell, FirstOverflow;
    o := Outcome(pages, visited, true);
    for i := 0 to n
      invariant PagesOk(o.pages, size) && o.ok
      invariant FreeCells(pages, size, usable, buf, hs, 0, n, visited) ==
                FreeCells(o.pages, size, usable, buf, hs, i, n, o.visited)
    {
      var c := ReadLeafCell(buf, hs, i);
      if c.Err? { return o.(ok := false); }
      var first := FirstOverflow(buf, c.value, usable);
      if first.Err? { return o.(ok := false); }
      if first.value.Some? {
        o := FreeOverflowChain(o.pages, size, first.value.value, o.visited);
        if !o.ok { return; }
      }
    }
  }

  method FreeBtreePages(pages: Pages, size: nat, usable: nat, n: U32, visited: nat) returns (o: Outcome)
    requires PagesOk(pages, size)
    ensures o == FreeNode(pages, size, usable, n, visited)
    decreases Left(visited), 0, 0
  {
    hide FreeCells, FreeNodes, PagesOk, Children, Release, PageType, CellCount;
    var v := visited + 1;
    o := Outcome(pages, v, false);
    if v > MAX_PAGES_VISITED || n !in pages { return; }
    var buf, hs := pages[n], HeaderStart(n);
    var kind := PageType(buf, hs);
    if kind.Err? || (kind.value != LEAF_TABLE && kind.value != INTERIOR_TABLE) { return; }
    var count := CellCount(buf, hs);
    if count.Err? { return; }
    if kind.value == LEAF_TABLE {
      o := FreeLeafCells(pages, size, usable, buf, hs, count.value, v);
    } else {
      var children := Children(buf, hs, count.value);
      if children.Err? { return; }
      o := FreeChildren(pages, size, usable, children.value, v);
    }
    if o.ok { o := Release(o.pages, size, n, o.visited); }
  }

  method FreeChildren(pages: Pages, size: nat, usable: nat, nodes: seq<U32>, visited: nat) returns (o: Outcome)
    requires PagesOk(pages, size)
    ensures o == FreeNodes(pages, size, usable, nodes, visited)
    decreases Left(visited), 1, |nodes|
  {
    hide FreeNode, PagesOk;
    o := Outcome(pages, visited, true);
    assert nodes[0..] == nodes;
    for i := 0 to |nodes|
      invariant PagesOk(o.pages, size) && o.ok && o.visited >= visited
      invariant FreeNodes(pages, size, usable, nodes, visited) ==
                FreeNodes(o.pages, size, usable, nodes[i..], o.visited)
    {
      assert nodes[i..][1..] == nodes[i + 1..];
      o := FreeBtreePages(o.pages, size, usable, nodes[i], o.visited);
      if !o.ok { return; }
    }
  }
}
