/** Striping rows into leaf columns, and that reconstruction inverts it. */
module Dremel {
  import opened Bytes
  import opened SchemaTree
  import opened Nested

  // ----- rows of a repeated field -----

  /** One row of a repeated field: absent above the wrapper, empty, or its items with their levels. */
  datatype Shape = Missing(def: nat) | Empty(def: nat) | Items(items: seq<Value>, defs: seq<nat>)

  function RepsOf(s: Shape, rep: nat): (r: seq<nat>) {
    if s.Items? then seq(|s.items|, i => if i == 0 then 0 else rep) else [0]
  }

  function DefsOf(s: Shape): (r: seq<nat>) { if s.Items? then s.defs else [s.def] }

  function ItemsOf(s: Shape, blank: Value): (r: seq<Value>) { if s.Items? then s.items else [blank] }

  function Reps(ss: seq<Shape>, rep: nat): (r: seq<nat>)
  {
    if ss == [] then [] else RepsOf(ss[0], rep) + Reps(ss[1..], rep)
  }

  function Defs(ss: seq<Shape>): (r: seq<nat>) { if ss == [] then [] else DefsOf(ss[0]) + Defs(ss[1..]) }

  function AllItems(ss: seq<Shape>, blank: Value): (r: seq<Value>) {
    if ss == [] then [] else ItemsOf(ss[0], blank) + AllItems(ss[1..], blank)
  }

  ghost predicate ShapeOk(s: Shape, wrapperDef: nat, repeatedDef: nat) {
    match s
    case Missing(d) => d < wrapperDef
    case Empty(d) => wrapperDef <= d < repeatedDef
    case Items(vs, ds) => |vs| == |ds| >= 1 && wrapperDef <= repeatedDef && forall i :: 0 <= i < |ds| ==>
                          repeatedDef <= ds[i]
  }

  function RowOf(s: Shape): (v: Value) { if s.Missing? then Null else if s.Empty? then List([]) else List(s.items) }

  function RowsOf(ss: seq<Shape>): (r: seq<Value>)
    ensures |r| == |ss| && forall i :: 0 <= i < |ss| ==> r[i] == RowOf(ss[i])
  {
    seq(|ss|, i requires 0 <= i < |ss| => RowOf(ss[i]))
  }

  lemma {:induction false} SameLengths(ss: seq<Shape>, rep: nat, blank: Value, w: nat, r: nat)
    requires forall i :: 0 <= i < |ss| ==> ShapeOk(ss[i], w, r)
    ensures |Reps(ss, rep)| == |Defs(ss)| == |AllItems(ss, blank)|
  {
    if ss != [] {
      assert ShapeOk(ss[0], w, r);
      SameLengths(ss[1..], rep, blank, w, r);
    }
  }

  /** The rest of the columns starts a new row. */
  lemma StartsRow(ss: seq<Shape>, rep: nat, w: nat, r: nat)
    requires ss != [] && ShapeOk(ss[0], w, r)
    ensures Reps(ss, rep) != [] && Reps(ss, rep)[0] == 0
  {
  }

  /** The walk over repetition levels cuts the columns back into the rows they came from. */
  lemma {:induction false} Recuts(ss: seq<Shape>, reps: seq<nat>, defs: seq<nat>, items: seq<Value>, at: nat, rep: nat,
                                  blank: Value, w: nat, r: nat)
    requires (forall i :: 0 <= i < |ss| ==> ShapeOk(ss[i], w, r)) && rep > 0
    requires |reps| == |defs| == |items| && at <= |reps|
    requires reps[at..] == Reps(ss, rep) && defs[at..] == Defs(ss) && items[at..] == AllItems(ss, blank)
    ensures BuildRepeated(reps, defs, items, w, r, at, |ss|) == Some(RowsOf(ss))
    decreases |ss|
  {
    hide RowAt, RepsOf, DefsOf, ItemsOf, RowOf, ShapeOk;
    if ss == [] {
      assert RowsOf(ss) == [];
    } else {
      var s, rest := ss[0], ss[1..];
      OneRow(s, rest, reps, defs, items, at, rep, blank, w, r);
      Recuts(rest, reps, defs, items, at + |DefsOf(s)|, rep, blank, w, r);
      assert RowsOf(ss) == [RowOf(s)] + RowsOf(rest);
    }
  }

  lemma OneRow(s: Shape, rest: seq<Shape>, reps: seq<nat>, defs: seq<nat>, items: seq<Value>, at: nat, rep: nat,
               blank: Value, w: nat, r: nat)
    requires ShapeOk(s, w, r) && (forall i :: 0 <= i < |rest| ==> ShapeOk(rest[i], w, r)) && rep > 0
    requires |reps| == |defs| == |items| && at <= |reps|
    requires reps[at..] == RepsOf(s, rep) + Reps(rest, rep) && defs[at..] == DefsOf(s) + Defs(rest)
    requires items[at..] == ItemsOf(s, blank) + AllItems(rest, blank)
    ensures at < |defs| && RowAt(reps, defs, items, w, r, at) == (RowOf(s), at + |DefsOf(s)|)
    ensures var next := at + |DefsOf(s)|;
            reps[next..] == Reps(rest, rep) && defs[next..] == Defs(rest) && items[next..] == AllItems(rest, blank)
  {
    hide RowAt, RepsOf, DefsOf, ItemsOf, Reps, Defs, AllItems, RowOf;
    Cut(reps, at, RepsOf(s, rep), Reps(rest, rep));
    Cut(defs, at, DefsOf(s), Defs(rest));
    Cut(items, at, ItemsOf(s, blank), AllItems(rest, blank));
    SameLength(s, rep, blank, w, r);
    if rest != [] { assert ShapeOk(rest[0], w, r); StartsRow(rest, rep, w, r); } else { NoRows(rep); }
    RowIs(s, reps, defs, items, at, rep, blank, w, r);
  }

  lemma NoRows(rep: nat)
    ensures Reps([], rep) == []
  {
  }

  lemma SameLength(s: Shape, rep: nat, blank: Value, w: nat, r: nat)
    requires ShapeOk(s, w, r)
    ensures |RepsOf(s, rep)| == |DefsOf(s)| == |ItemsOf(s, blank)| >= 1
  {
  }

  /** The row of one shape, in columns where the next row starts after it. */
  lemma RowIs(s: Shape, reps: seq<nat>, defs: seq<nat>, items: seq<Value>, at: nat, rep: nat, blank: Value, w: nat,
              r: nat)
    requires ShapeOk(s, w, r) && rep > 0 && |reps| == |defs| == |items| && at + |DefsOf(s)| <= |defs|
    requires var e := at + |DefsOf(s)|;
             && reps[at..e] == RepsOf(s, rep) && defs[at..e] == DefsOf(s) && items[at..e] == ItemsOf(s, blank)
             && (e < |reps| ==> reps[e] == 0)
    ensures at < |defs| && RowAt(reps, defs, items, w, r, at) == (RowOf(s), at + |DefsOf(s)|)
  {
    hide RunEnd;
    var e := at + |DefsOf(s)|;
    assert defs[at] == defs[at..e][0];
    if s.Items? {
      forall k | at < k < e ensures reps[k] != 0 { assert reps[k] == reps[at..e][k - at]; }
      RunEndIs(reps, at, e);
    }
  }

  lemma Cut<T>(s: seq<T>, at: nat, a: seq<T>, b: seq<T>)
    requires at <= |s| && s[at..] == a + b
    ensures at + |a| <= |s| && s[at..at + |a|] == a && s[at + |a|..] == b &&
            (b != [] ==> at + |a| < |s| && s[at + |a|] == b[0])
  {
    var t := s[at..];
    assert s[at..at + |a|] == t[..|a|] && s[at + |a|..] == t[|a|..];
    if b != [] { assert s[at + |a|] == t[|a|]; }
  }

  // ----- supported schemas -----

  /** Said again here, so that the reader is measured against the format and not against itself. */
  predicate Repeats(n: Node) { n.repetition == Some(Repeated) }

  predicate IsMapField(n: Node) { n.isMap && |n.children| == 1 }

  predicate IsListNode(n: Node) { !IsMapField(n) && |n.children| == 1 && Repeats(n.children[0]) }

  predicate ListShape(n: Node)
    requires IsListNode(n)
  {
    var r := n.children[0];
    IsLeaf(r) || (|r.children| == 1 && IsLeaf(r.children[0]) && !Repeats(r.children[0]))
  }

  predicate MapShape(n: Node)
    requires IsMapField(n)
  {
    var kv := n.children[0];
    && Repeats(kv) && |kv.children| == 2 && kv.children[0].name != kv.children[1].name
    && IsLeaf(kv.children[0]) && IsLeaf(kv.children[1]) && !Repeats(kv.children[0]) && !Repeats(kv.children[1])
  }

  /** The first leaf is reached without passing a repeated field. */
  predicate FlatFirst(n: Node)
    decreases n
  {
    IsLeaf(n) || (!IsMapField(n) && !IsListNode(n) && FlatFirst(n.children[0]))
  }

  /** Structs whose first leaf is not repeated, lists of scalars of two or three levels, and maps of
      scalars, each repeated field under its own wrapper. */
  ghost predicate Supported(n: Node)
    decreases n, 1
  {
    && !Repeats(n)
    && if IsLeaf(n) then true
       else if IsMapField(n) then MapShape(n)
       else if IsListNode(n) then ListShape(n)
       else FlatFirst(n) && FieldsOk(n)
  }

  ghost predicate FieldsOk(n: Node)
    decreases n, 0
  {
    && (forall i :: 0 <= i < |n.children| ==> Supported(n.children[i]))
    && forall i, j :: 0 <= i < j < |n.children| ==> n.children[i].name != n.children[j].name
  }

  /** The levels the schema tree computes below its root. */
  ghost predicate Leveled(n: Node)
    decreases n, 1
  {
    (n.repetition != Some(Required) ==> n.maxDef >= 1) && FieldsLeveled(n)
  }

  ghost predicate FieldsLeveled(n: Node)
    decreases n, 0
  {
    forall i :: 0 <= i < |n.children| ==>
      && n.children[i].maxDef == n.maxDef + DefStep(n.children[i].repetition)
      && n.children[i].maxRep == n.maxRep + RepStep(n.children[i].repetition)
      && Leveled(n.children[i])
  }

  // ----- rows -----

  predicate ScalarOk(n: Node, v: Value) { v.Scalar? || (v.Null? && n.repetition != Some(Required) && !Repeats(n)) }

  predicate PairOk(kv: Node, v: Value)
    requires |kv.children| == 2
  {
    && v.Struct? && |v.fields| == 2 && v.fields[0].0 == "key" && v.fields[1].0 == "value"
    && ScalarOk(kv.children[0], v.fields[0].1) && ScalarOk(kv.children[1], v.fields[1].1)
  }

  function Element(n: Node): (e: Node)
    requires n.children != []
  {
    if IsLeaf(n.children[0]) then n.children[0] else n.children[0].children[0]
  }

  /** A value of the field's type; null only where the field is optional. */
  ghost predicate Conforms(n: Node, v: Value)
    decreases n
  {
    if IsLeaf(n) then ScalarOk(n, v)
    else if v.Null? then n.repetition != Some(Required)
    else if IsMapField(n) then v.List? && |n.children[0].children| == 2 && forall i :: 0 <= i < |v.items| ==>
                              PairOk(n.children[0], v.items[i])
    else if IsListNode(n) then v.List? && forall i :: 0 <= i < |v.items| ==> ScalarOk(Element(n), v.items[i])
    else
      && v.Struct? && |v.fields| == |n.children|
      && forall i :: 0 <= i < |n.children| ==>
          v.fields[i].0 == n.children[i].name && Conforms(n.children[i], v.fields[i].1)
  }

  /** A row of a field: its value, or gone because an ancestor is null at that level. */
  datatype Cell = Here(v: Value) | Gone(def: nat)

  ghost predicate CellOk(n: Node, c: Cell) { if c.Gone? then c.def < n.maxDef else Conforms(n, c.v) }

  ghost predicate CellsOk(n: Node, cs: seq<Cell>) { forall i :: 0 <= i < |cs| ==> CellOk(n, cs[i]) }

  function ShownCell(c: Cell): (v: Value) { if c.Gone? then Null else c.v }

  function ShownCells(cs: seq<Cell>): (r: seq<Value>)
    ensures |r| == |cs| && forall i :: 0 <= i < |cs| ==> r[i] == ShownCell(cs[i])
  {
    seq(|cs|, i requires 0 <= i < |cs| => ShownCell(cs[i]))
  }

  // ----- striping -----

  /** The definition level of an absent optional field. */
  function Absent(n: Node): (d: nat) { Max(0, n.maxDef - 1) }

  function LeafDef(n: Node, v: Value): (d: nat) { if v.Null? then Absent(n) else n.maxDef }

  function LeafValue(v: Value): (r: Option<int>) { if v.Scalar? then Some(v.x) else None }

  function LeafColumn(n: Node, cs: seq<Cell>): (e: Entries) {
    Entries(seq(|cs|, _ => 0),
            seq(|cs|, i requires 0 <= i < |cs| => if cs[i].Gone? then cs[i].def else LeafDef(n, cs[i].v)),
            seq(|cs|, i requires 0 <= i < |cs| => if cs[i].Gone? then None else LeafValue(cs[i].v)))
  }

  /** A scalar column starts every row anew, and has a value exactly where its level is full. */
  lemma LeafLevels(n: Node, cs: seq<Cell>, i: nat)
    requires CellsOk(n, cs) && IsLeaf(n) && Leveled(n) && i < |cs|
    ensures var e := LeafColumn(n, cs);
            && |e.reps| == |e.defs| == |e.values| == |cs|
            && e.reps[i] == 0 && e.defs[i] <= n.maxDef && (e.values[i].Some? <==> e.defs[i] == n.maxDef)
  {
    assert CellOk(n, cs[i]);
  }

  /** A row of a repeated field, with the levels of one of its leaves; `pick` is the leaf's part. */
  function ShapeOf(n: Node, leaf: Node, c: Cell, pick: nat): (s: Shape) {
    if c.Gone? then Missing(c.def)
    else if !c.v.List? then Missing(Absent(n))
    else if c.v.items == [] then Empty(n.maxDef)
    else Items(c.v.items, seq(|c.v.items|, i requires 0 <= i < |c.v.items| => LeafDef(leaf, Part(c.v.items[i], pick))))
  }

  function Shapes(n: Node, leaf: Node, cs: seq<Cell>, pick: nat): (r: seq<Shape>)
    ensures |r| == |cs| && forall i :: 0 <= i < |cs| ==> r[i] == ShapeOf(n, leaf, cs[i], pick)
  {
    seq(|cs|, i requires 0 <= i < |cs| => ShapeOf(n, leaf, cs[i], pick))
  }

  /** The item itself, or one field of a key-value pair. */
  function Part(v: Value, pick: nat): (r: Value) {
    if v.Struct? then if pick < |v.fields| then v.fields[pick].1 else Null else v
  }

  function PartValues(items: seq<Value>, pick: nat): (r: seq<Option<int>>)
    ensures |r| == |items| && forall i :: 0 <= i < |items| ==> r[i] == LeafValue(Part(items[i], pick))
  {
    seq(|items|, i requires 0 <= i < |items| => LeafValue(Part(items[i], pick)))
  }

  function RepeatedColumn(n: Node, leaf: Node, cs: seq<Cell>, pick: nat): (e: Entries)
    requires n.children != []
  {
    var ss := Shapes(n, leaf, cs, pick);
    Entries(Reps(ss, n.children[0].maxRep), Defs(ss), PartValues(AllItems(ss, Null), pick))
  }

  /** What a struct's rows mean to one of its fields. */
  function ChildCell(n: Node, i: nat, c: Cell): (r: Cell) {
    if c.Gone? then c
    else if c.v.Struct? && i < |c.v.fields| then Here(c.v.fields[i].1)
    else Gone(Absent(n))
  }

  function ChildCells(n: Node, i: nat, cs: seq<Cell>): (r: seq<Cell>)
    ensures |r| == |cs| && forall k :: 0 <= k < |cs| ==> r[k] == ChildCell(n, i, cs[k])
  {
    seq(|cs|, k requires 0 <= k < |cs| => ChildCell(n, i, cs[k]))
  }

  /** The leaf columns of a field's rows. */
  function Stripe(n: Node, path: Path, cs: seq<Cell>): (m: LeafData)
    decreases n, 1, 0
  {
    if IsLeaf(n) then map[path := LeafColumn(n, cs)]
    else if IsMapField(n) then
      var kv := n.children[0];
      if |kv.children| != 2 then map[]
      else map[path + [kv.name, kv.children[0].name] := RepeatedColumn(n, kv.children[0], cs, 0),
               path + [kv.name, kv.children[1].name] := RepeatedColumn(n, kv.children[1], cs, 1)]
    else if IsListNode(n) then map[path + ListPath(n) := RepeatedColumn(n, Element(n), cs, 0)]
    else StripeFrom(n, path, cs, 0)
  }

  function ListPath(n: Node): (p: Path)
    requires n.children != []
  {
    if IsLeaf(n.children[0]) then [n.children[0].name] else [n.children[0].name, Element(n).name]
  }

  /** The columns of a struct's fields, from field `i` on. */
  function StripeFrom(n: Node, path: Path, cs: seq<Cell>, i: nat): (m: LeafData)
    requires i <= |n.children|
    decreases n, 0, |n.children| - i
  {
    if i == |n.children| then map[]
    else StripeFrom(n, path, cs, i + 1) + Stripe(n.children[i], path + [n.children[i].name], ChildCells(n, i, cs))
  }

  // ----- striped columns -----

  /** The leaf data holds the columns of these rows of the field. */
  ghost predicate Striped(leaves: LeafData, n: Node, path: Path, cs: seq<Cell>)
    decreases n
  {
    if IsLeaf(n) then path in leaves && leaves[path] == LeafColumn(n, cs)
    else if IsMapField(n) then
      && |n.children[0].children| == 2
      && var kv := n.children[0];
         var kp, vp := path + [kv.name, kv.children[0].name], path + [kv.name, kv.children[1].name];
         && kp in leaves && leaves[kp] == RepeatedColumn(n, kv.children[0], cs, 0)
         && vp in leaves && leaves[vp] == RepeatedColumn(n, kv.children[1], cs, 1)
    else if IsListNode(n) then path + ListPath(n) in leaves &&
                               leaves[path + ListPath(n)] == RepeatedColumn(n, Element(n), cs, 0)
    else forall i :: 0 <= i < |n.children| ==> Striped(leaves, n.children[i], path + [n.children[i].name],
         ChildCells(n, i, cs))
  }

  ghost predicate Agrees(leaves: LeafData, part: LeafData)
  {
    forall p :: p in part ==> p in leaves && leaves[p] == part[p]
  }

  /** Every column of a field is below its path. */
  lemma {:induction false} StripeBelow(n: Node, path: Path, cs: seq<Cell>, p: Path)
    requires p in Stripe(n, path, cs)
    ensures path <= p
    decreases n, 1, 0
  {
    if !IsLeaf(n) && !IsMapField(n) && !IsListNode(n) { StripeFromBelow(n, path, cs, 0, p); }
  }

  lemma {:induction false} StripeFromBelow(n: Node, path: Path, cs: seq<Cell>, i: nat, p: Path)
    requires i <= |n.children| && p in StripeFrom(n, path, cs, i)
    ensures path <= p && |p| > |path| && exists k :: i <= k < |n.children| && p[|path|] == n.children[k].name
    decreases n, 0, |n.children| - i
  {
    if p in Stripe(n.children[i], path + [n.children[i].name], ChildCells(n, i, cs)) {
      StripeBelow(n.children[i], path + [n.children[i].name], ChildCells(n, i, cs), p);
      assert p[|path|] == (path + [n.children[i].name])[|path|];
    } else {
      StripeFromBelow(n, path, cs, i + 1, p);
    }
  }

  lemma StripeNamed(n: Node, path: Path, name: string, cs: seq<Cell>, p: Path)
    requires p in Stripe(n, path + [name], cs)
    ensures |p| > |path| && p[|path|] == name
  {
    hide Stripe;
    StripeBelow(n, path + [name], cs, p);
    assert p[|path|] == (path + [name])[|path|];
  }

  /** Striping puts each column where reconstruction looks for it. */
  lemma {:induction false} StripeIsStriped(n: Node, path: Path, cs: seq<Cell>, leaves: LeafData)
    requires Supported(n) && Agrees(leaves, Stripe(n, path, cs))
    ensures Striped(leaves, n, path, cs)
    decreases n, 1, 0
  {
    hide LeafColumn, RepeatedColumn;
    if IsLeaf(n) {
      assert path in Stripe(n, path, cs);
    } else if IsMapField(n) {
      var kv := n.children[0];
      var kp, vp := path + [kv.name, kv.children[0].name], path + [kv.name, kv.children[1].name];
      assert kp[|path| + 1] != vp[|path| + 1];
      assert kp in Stripe(n, path, cs) && vp in Stripe(n, path, cs);
    } else if IsListNode(n) {
      assert path + ListPath(n) in Stripe(n, path, cs);
    } else {
      forall i | 0 <= i < |n.children| ensures Striped(leaves, n.children[i], path + [n.children[i].name],
        ChildCells(n, i, cs)) {
        FieldAgrees(n, path, cs, leaves, 0, i);
        StripeIsStriped(n.children[i], path + [n.children[i].name], ChildCells(n, i, cs), leaves);
      }
    }
  }

  /** No field's columns hide another's. */
  lemma {:induction false} FieldAgrees(n: Node, path: Path, cs: seq<Cell>, leaves: LeafData, j: nat, i: nat)
    requires FieldsOk(n) && j <= i < |n.children|
    requires Agrees(leaves, StripeFrom(n, path, cs, j))
    ensures Agrees(leaves, Stripe(n.children[i], path + [n.children[i].name], ChildCells(n, i, cs)))
    decreases i - j
  {
    hide Stripe;
    var later, mine := StripeFrom(n, path, cs, j + 1), Stripe(n.children[j], path + [n.children[j].name],
                       ChildCells(n, j, cs));
    assert StripeFrom(n, path, cs, j) == later + mine;
    if i > j {
      forall p | p in later ensures p in leaves && leaves[p] == later[p] {
        StripeFromBelow(n, path, cs, j + 1, p);
        if p in mine { StripeNamed(n.children[j], path, n.children[j].name, ChildCells(n, j, cs), p); }
        assert p in later + mine;
      }
      FieldAgrees(n, path, cs, leaves, j + 1, i);
    } else {
      forall p | p in mine ensures p in leaves && leaves[p] == mine[p] { assert p in later + mine; }
    }
  }

  // ----- reconstruction -----

  lemma LeafRebuilds(n: Node, cs: seq<Cell>)
    requires IsLeaf(n) && CellsOk(n, cs)
    ensures ShownAll(LeafColumn(n, cs).values) == ShownCells(cs)
  {
    forall i | 0 <= i < |cs| ensures Shown(LeafColumn(n, cs).values[i]) == ShownCell(cs[i]) { assert CellOk(n, cs[i]); }
  }

  /** The rows of a list or map field are well-shaped, and show what the cells show. */
  lemma ShapesOk(n: Node, leaf: Node, cs: seq<Cell>, pick: nat)
    requires CellsOk(n, cs) && !IsLeaf(n) && Leveled(n) && Repeats(n.children[0]) && (IsMapField(n) || IsListNode(n))
    requires leaf == n.children[0] || (leaf in n.children[0].children && !Repeats(leaf))
    requires forall k, i :: 0 <= k < |cs| && cs[k].Here? && cs[k].v.List? && 0 <= i < |cs[k].v.items| ==>
             ScalarOk(leaf, Part(cs[k].v.items[i], pick))
    ensures forall k :: 0 <= k < |cs| ==> ShapeOk(Shapes(n, leaf, cs, pick)[k], n.maxDef, n.children[0].maxDef)
    ensures RowsOf(Shapes(n, leaf, cs, pick)) == ShownCells(cs)
  {
    var r := n.children[0];
    assert FieldsLeveled(n);
    assert Leveled(n.children[0]);
    assert FieldsLeveled(r);
    assert leaf in r.children ==> exists i :: 0 <= i < |r.children| && r.children[i] == leaf;
    assert leaf.maxDef >= r.maxDef && (leaf.repetition != Some(Required) && !Repeats(leaf) ==>
           leaf.maxDef >= r.maxDef + 1);
    var ss := Shapes(n, leaf, cs, pick);
    forall k | 0 <= k < |cs|
      ensures ShapeOk(ss[k], n.maxDef, r.maxDef) && RowOf(ss[k]) == ShownCell(cs[k])
    {
      assert CellOk(n, cs[k]);
    }
  }

  lemma {:induction false} ItemsBlank(ss: seq<Shape>, pick: nat, w: nat, r: nat)
    requires forall k :: 0 <= k < |ss| ==> ShapeOk(ss[k], w, r)
    requires forall k, i :: 0 <= k < |ss| && ss[k].Items? && 0 <= i < |ss[k].items| ==>
             ss[k].items[i].Null? || ss[k].items[i].Scalar?
    ensures ShownAll(PartValues(AllItems(ss, Null), pick)) == AllItems(ss, Null)
  {
    var all := AllItems(ss, Null);
    PlainItems(ss, w, r);
    forall i | 0 <= i < |all| ensures Shown(LeafValue(Part(all[i], pick))) == all[i] { assert all[i] in all; }
  }

  lemma {:induction false} PlainItems(ss: seq<Shape>, w: nat, r: nat)
    requires forall k, i :: 0 <= k < |ss| && ss[k].Items? && 0 <= i < |ss[k].items| ==>
             ss[k].items[i].Null? || ss[k].items[i].Scalar?
    ensures forall v :: v in AllItems(ss, Null) ==> v.Null? || v.Scalar?
  {
    if ss != [] {
      var rest := ss[1..];
      assert forall k :: 0 <= k < |rest| ==> rest[k] == ss[k + 1];
      PlainItems(rest, w, r);
      forall v | v in ItemsOf(ss[0], Null) ensures v.Null? || v.Scalar? {
        var i :| 0 <= i < |ItemsOf(ss[0], Null)| && ItemsOf(ss[0], Null)[i] == v;
      }
    }
  }

  lemma ListRebuilds(n: Node, path: Path, cs: seq<Cell>, leaves: LeafData)
    requires Supported(n) && Leveled(n) && CellsOk(n, cs) && !IsLeaf(n) && IsListNode(n) && Striped(leaves, n, path, cs)
    ensures BuildField(n, path, |cs|, leaves) == Ok(ShownCells(cs))
  {
    hide BuildRepeated, Reps, Defs, AllItems;
    var r, e := n.children[0], Element(n);
    var ss := Shapes(n, e, cs, 0);
    ListItems(n, cs);
    ShapesOk(n, e, cs, 0);
    ItemsBlank(ss, 0, n.maxDef, r.maxDef);
    SameLengths(ss, r.maxRep, Null, n.maxDef, r.maxDef);
    var reps, defs, items := Reps(ss, r.maxRep), Defs(ss), AllItems(ss, Null);
    assert reps[0..] == reps && defs[0..] == defs && items[0..] == items;
    assert r.maxRep >= 1;
    Recuts(ss, reps, defs, items, 0, r.maxRep, Null, n.maxDef, r.maxDef);
  }

  lemma ListItems(n: Node, cs: seq<Cell>)
    requires CellsOk(n, cs) && !IsLeaf(n) && IsListNode(n)
    ensures forall k, i :: 0 <= k < |cs| && cs[k].Here? && cs[k].v.List? && 0 <= i < |cs[k].v.items| ==>
              ScalarOk(Element(n), Part(cs[k].v.items[i], 0)) && Part(cs[k].v.items[i], 0) == cs[k].v.items[i]
  {
    forall k, i | 0 <= k < |cs| && cs[k].Here? && cs[k].v.List? && 0 <= i < |cs[k].v.items|
      ensures ScalarOk(Element(n), Part(cs[k].v.items[i], 0)) && Part(cs[k].v.items[i], 0) == cs[k].v.items[i]
    {
      assert CellOk(n, cs[k]);
    }
  }

  lemma MapItems(n: Node, cs: seq<Cell>)
    requires CellsOk(n, cs) && !IsLeaf(n) && IsMapField(n) && |n.children[0].children| == 2
    ensures forall k, i :: 0 <= k < |cs| && cs[k].Here? && cs[k].v.List? && 0 <= i < |cs[k].v.items| ==>
            PairOk(n.children[0], cs[k].v.items[i])
  {
    forall k, i | 0 <= k < |cs| && cs[k].Here? && cs[k].v.List? && 0 <= i < |cs[k].v.items|
      ensures PairOk(n.children[0], cs[k].v.items[i])
    {
      assert CellOk(n, cs[k]);
    }
  }

  const BLANK_PAIR := Struct([("key", Null), ("value", Null)])

  /** Both columns of a map list the same pairs. */
  lemma {:induction false} PairsJoin(kv: Node, ks: seq<Shape>, vs: seq<Shape>)
    requires |kv.children| == 2 && |ks| == |vs|
    requires forall k :: 0 <= k < |ks| ==> SamePairs(kv, ks[k], vs[k])
    ensures KeyValue(PartValues(AllItems(ks, Null), 0), PartValues(AllItems(vs, Null), 1)) == AllItems(ks, BLANK_PAIR)
    ensures |AllItems(ks, Null)| == |AllItems(vs, Null)| == |AllItems(ks, BLANK_PAIR)|
  {
    if ks == [] {
      assert KeyValue(PartValues([], 0), PartValues([], 1)) == [];
    } else {
      var k, v := ks[0], vs[0];
      assert SamePairs(kv, k, v);
      assert forall i :: 0 <= i < |ks| - 1 ==> SamePairs(kv, ks[1..][i], vs[1..][i]);
      PairsJoin(kv, ks[1..], vs[1..]);
      OnePair(kv, k, v);
      JoinPairs(ItemsOf(k, Null), ItemsOf(v, Null), AllItems(ks[1..], Null), AllItems(vs[1..], Null));
    }
  }

  /** The same row in both columns: both absent or empty, or the same pairs. */
  ghost predicate SamePairs(kv: Node, k: Shape, v: Shape)
    requires |kv.children| == 2
  {
    if k.Items? then v.Items? && k.items == v.items && forall i :: 0 <= i < |k.items| ==>
       PairOk(kv, k.items[i]) else !v.Items?
  }

  lemma OnePair(kv: Node, k: Shape, v: Shape)
    requires |kv.children| == 2 && SamePairs(kv, k, v)
    ensures |ItemsOf(k, Null)| == |ItemsOf(v, Null)|
    ensures KeyValue(PartValues(ItemsOf(k, Null), 0), PartValues(ItemsOf(v, Null), 1)) == ItemsOf(k, BLANK_PAIR)
  {
    var got, want := KeyValue(PartValues(ItemsOf(k, Null), 0), PartValues(ItemsOf(v, Null), 1)), ItemsOf(k, BLANK_PAIR);
    forall i | 0 <= i < |want| ensures got[i] == want[i] {
      if k.Items? {
        assert PairOk(kv, k.items[i]);
        var p := k.items[i];
        assert p.fields == [("key", p.fields[0].1), ("value", p.fields[1].1)];
      }
    }
  }

  lemma JoinPairs(a: seq<Value>, b: seq<Value>, c: seq<Value>, d: seq<Value>)
    requires |a| == |b| && |c| == |d|
    ensures KeyValue(PartValues(a + c, 0), PartValues(b + d, 1)) ==
            KeyValue(PartValues(a, 0), PartValues(b, 1)) + KeyValue(PartValues(c, 0), PartValues(d, 1))
  {
    var l, r := KeyValue(PartValues(a + c, 0), PartValues(b + d, 1)),
                KeyValue(PartValues(a, 0), PartValues(b, 1)) + KeyValue(PartValues(c, 0), PartValues(d, 1));
    forall i | 0 <= i < |l| ensures l[i] == r[i] {
    }
  }

  lemma MapRebuilds(n: Node, path: Path, cs: seq<Cell>, leaves: LeafData)
    requires Supported(n) && Leveled(n) && CellsOk(n, cs) && !IsLeaf(n) && IsMapField(n) && Striped(leaves, n, path, cs)
    ensures BuildField(n, path, |cs|, leaves) == Ok(ShownCells(cs))
  {
    hide BuildRepeated, Reps, Defs, AllItems, KeyValue, FieldsLeveled;
    var kv := n.children[0];
    var key, value := kv.children[0], kv.children[1];
    var ks, vs := Shapes(n, key, cs, 0), Shapes(n, value, cs, 1);
    MapItems(n, cs);
    ShapesOk(n, key, cs, 0);
    forall k | 0 <= k < |cs| ensures SamePairs(kv, ks[k], vs[k]) { assert CellOk(n, cs[k]); }
    PairsJoin(kv, ks, vs);
    LevelsOf(n);
    SameLengths(ks, kv.maxRep, BLANK_PAIR, n.maxDef, kv.maxDef);
    var reps, defs, items := Reps(ks, kv.maxRep), Defs(ks), AllItems(ks, BLANK_PAIR);
    assert reps[0..] == reps && defs[0..] == defs && items[0..] == items;
    Recuts(ks, reps, defs, items, 0, kv.maxRep, BLANK_PAIR, n.maxDef, kv.maxDef);
  }

  lemma LevelsOf(n: Node)
    requires Leveled(n) && n.children != [] && Repeats(n.children[0])
    ensures n.children[0].maxRep >= 1 && n.children[0].maxDef == n.maxDef + 1
  {
  }

  // ----- structs -----

  /** The first leaf's level in a row tells whether the field is there. */
  lemma {:induction false} FirstLevel(n: Node, path: Path, cs: seq<Cell>, leaves: LeafData, k: nat)
    requires Supported(n) && Leveled(n) && FlatFirst(n) && CellsOk(n, cs) && Striped(leaves, n, path, cs) && k < |cs|
    ensures var p := path + FirstLeafPath(n);
            && p in leaves && |leaves[p].defs| == |cs|
            && (cs[k].Gone? ==> leaves[p].defs[k] == cs[k].def)
            && (cs[k].Here? && cs[k].v.Null? ==> leaves[p].defs[k] == Absent(n))
            && (cs[k].Here? && !cs[k].v.Null? ==> leaves[p].defs[k] >= n.maxDef)
    decreases n
  {
    assert CellOk(n, cs[k]);
    if IsLeaf(n) {
      assert path + [] == path;
    } else {
      var c := n.children[0];
      NullsLeveled(n, cs);
      ChildOk(n, 0, cs);
      FirstLevel(c, path + [c.name], ChildCells(n, 0, cs), leaves, k);
      assert path + [c.name] + FirstLeafPath(c) == path + FirstLeafPath(n);
    }
  }

  lemma ChildOk(n: Node, i: nat, cs: seq<Cell>)
    requires FieldsOk(n) && FieldsLeveled(n) && CellsOk(n, cs) && !IsLeaf(n) && !IsMapField(n) && !IsListNode(n) &&
             i < |n.children|
    requires forall k :: 0 <= k < |cs| && cs[k].Here? && cs[k].v.Null? ==> n.maxDef >= 1
    ensures CellsOk(n.children[i], ChildCells(n, i, cs))
    ensures n.children[i].maxDef == n.maxDef + DefStep(n.children[i].repetition) && Leveled(n.children[i]) &&
            Supported(n.children[i])
  {
    forall k | 0 <= k < |cs| ensures CellOk(n.children[i], ChildCell(n, i, cs[k])) { assert CellOk(n, cs[k]); }
  }

  lemma NullsLeveled(n: Node, cs: seq<Cell>)
    requires Leveled(n) && CellsOk(n, cs) && !IsLeaf(n)
    ensures forall k :: 0 <= k < |cs| && cs[k].Here? && cs[k].v.Null? ==> n.maxDef >= 1
  {
    forall k | 0 <= k < |cs| && cs[k].Here? && cs[k].v.Null? ensures n.maxDef >= 1 { assert CellOk(n, cs[k]); }
  }

  /** Reconstruction inverts striping: every row comes back, with null, the empty list and a list of
      nulls kept apart. */
  lemma {:induction false} Reconstructs(n: Node, path: Path, cs: seq<Cell>, leaves: LeafData)
    requires Supported(n) && Leveled(n) && CellsOk(n, cs) && Striped(leaves, n, path, cs)
    ensures BuildField(n, path, |cs|, leaves) == Ok(ShownCells(cs))
    decreases n, 1, 0
  {
    if IsLeaf(n) {
      LeafRebuilds(n, cs);
    } else if IsMapField(n) {
      MapRebuilds(n, path, cs, leaves);
    } else if IsListNode(n) {
      ListRebuilds(n, path, cs, leaves);
    } else {
      NullsLeveled(n, cs);
      hide BuildField, Striped, FieldsLeveled;
      FieldsRebuild(n, path, cs, leaves, 0);
      StructRebuilds(n, path, cs, leaves);
    }
  }

  function ChildColumns(n: Node, cs: seq<Cell>, i: nat): (r: seq<seq<Value>>)
    requires i <= |n.children|
    ensures |r| == |n.children| - i && forall k :: 0 <= k < |r| ==> r[k] == ShownCells(ChildCells(n, i + k, cs))
    decreases |n.children| - i
  {
    if i == |n.children| then [] else [ShownCells(ChildCells(n, i, cs))] + ChildColumns(n, cs, i + 1)
  }

  lemma {:induction false} FieldsRebuild(n: Node, path: Path, cs: seq<Cell>, leaves: LeafData, i: nat)
    requires FieldsOk(n) && FieldsLeveled(n) && CellsOk(n, cs) && Striped(leaves, n, path, cs)
    requires !IsLeaf(n) && !IsMapField(n) && !IsListNode(n) && i <= |n.children|
    requires forall k :: 0 <= k < |cs| && cs[k].Here? && cs[k].v.Null? ==> n.maxDef >= 1
    ensures BuildFields(n.children[i..], path, |cs|, leaves) == Ok(ChildColumns(n, cs, i))
    decreases n, 0, |n.children| - i
  {
    hide BuildField, FieldsLeveled;
    if i < |n.children| {
      var c, rest := n.children[i], n.children[i..];
      assert rest[0] == c && rest[1..] == n.children[i + 1..];
      ChildOk(n, i, cs);
      Reconstructs(c, path + [c.name], ChildCells(n, i, cs), leaves);
      FieldsRebuild(n, path, cs, leaves, i + 1);
    }
  }

  lemma StructRebuilds(n: Node, path: Path, cs: seq<Cell>, leaves: LeafData)
    requires Supported(n) && Leveled(n) && CellsOk(n, cs) && Striped(leaves, n, path, cs)
    requires !IsLeaf(n) && !IsMapField(n) && !IsListNode(n)
    requires BuildFields(n.children[0..], path, |cs|, leaves) == Ok(ChildColumns(n, cs, 0))
    ensures BuildField(n, path, |cs|, leaves) == Ok(ShownCells(cs))
  {
    hide Striped, FieldsLeveled, BuildFields, FirstLeafPath;
    assert n.children[0..] == n.children;
    var p, columns := path + FirstLeafPath(n), ChildColumns(n, cs, 0);
    DriverThere(n, path, cs, leaves);
    var defs := leaves[p].defs;
    forall r | 0 <= r < |cs| ensures StructRow(n, defs[r], columns, r) == ShownCells(cs)[r] {
      FirstLevel(n, path, cs, leaves, r);
      RowRebuilds(n, cs, defs[r], r);
    }
    assert seq(|cs|, r requires 0 <= r < |cs| => StructRow(n, defs[r], columns, r)) == ShownCells(cs);
  }

  lemma {:induction false} DriverThere(n: Node, path: Path, cs: seq<Cell>, leaves: LeafData)
    requires Supported(n) && FlatFirst(n) && Striped(leaves, n, path, cs)
    ensures path + FirstLeafPath(n) in leaves && |leaves[path + FirstLeafPath(n)].defs| == |cs|
    decreases n
  {
    if IsLeaf(n) {
      assert path + [] == path;
    } else {
      var c := n.children[0];
      DriverThere(c, path + [c.name], ChildCells(n, 0, cs), leaves);
      assert path + [c.name] + FirstLeafPath(c) == path + FirstLeafPath(n);
    }
  }

  lemma RowRebuilds(n: Node, cs: seq<Cell>, def: nat, r: nat)
    requires Supported(n) && Leveled(n) && CellsOk(n, cs) && !IsLeaf(n) && !IsMapField(n) && !IsListNode(n) && r < |cs|
    requires cs[r].Gone? ==> def == cs[r].def
    requires cs[r].Here? && cs[r].v.Null? ==> def == Absent(n)
    requires cs[r].Here? && !cs[r].v.Null? ==> def >= n.maxDef
    ensures StructRow(n, def, ChildColumns(n, cs, 0), r) == ShownCell(cs[r])
  {
    assert CellOk(n, cs[r]);
    var columns := ChildColumns(n, cs, 0);
    if cs[r].Here? && cs[r].v.Struct? {
      var fields := seq(|columns|, i requires 0 <= i < |columns| => (n.children[i].name, columns[i][r]));
      forall i | 0 <= i < |columns| ensures fields[i] == cs[r].v.fields[i] {
        assert columns[i] == ShownCells(ChildCells(n, i, cs));
        assert Conforms(n.children[i], cs[r].v.fields[i].1);
      }
      assert fields == cs[r].v.fields;
    }
  }

  // ----- whole rows -----

  function AllHere(vs: seq<Value>): (cs: seq<Cell>)
    ensures |cs| == |vs| && forall i :: 0 <= i < |vs| ==> cs[i] == Here(vs[i])
  {
    seq(|vs|, i requires 0 <= i < |vs| => Here(vs[i]))
  }

  /** Striping any rows of a supported field and reconstructing returns the same rows. */
  lemma RoundTrip(n: Node, rows: seq<Value>)
    requires Supported(n) && Leveled(n) && forall i :: 0 <= i < |rows| ==> Conforms(n, rows[i])
    ensures BuildField(n, [n.name], |rows|, Stripe(n, [n.name], AllHere(rows))) == Ok(rows)
  {
    hide BuildField, Stripe, Conforms, Supported, Leveled;
    var cs := AllHere(rows);
    var leaves := Stripe(n, [n.name], cs);
    assert CellsOk(n, cs) by { forall i | 0 <= i < |cs| ensures CellOk(n, cs[i]) { assert Conforms(n, rows[i]); } }
    StripeIsStriped(n, [n.name], cs, leaves);
    Reconstructs(n, [n.name], cs, leaves);
    assert ShownCells(cs) == rows;
  }

  /** The levels of every tree `build_schema_tree` makes are the ones reconstruction relies on. */
  lemma {:induction false} AnnotatedIsLeveled(f: Field, parentDef: nat, parentRep: nat, root: bool)
    ensures FieldsLeveled(Annotate(f, parentDef, parentRep, root))
    ensures !root ==> Leveled(Annotate(f, parentDef, parentRep, root))
    decreases f
  {
    var n := Annotate(f, parentDef, parentRep, root);
    AnnotateStep(f, parentDef, parentRep, root);
    assert FieldsLeveled(n) by {
      hide Annotate, Leveled;
      forall i | 0 <= i < |n.children|
        ensures n.children[i].maxDef == n.maxDef + DefStep(n.children[i].repetition)
        ensures n.children[i].maxRep == n.maxRep + RepStep(n.children[i].repetition)
        ensures Leveled(n.children[i])
      {
        AnnotatedIsLeveled(f.children[i], n.maxDef, n.maxRep, false);
        AnnotateStep(f.children[i], n.maxDef, n.maxRep, false);
      }
    }
  }

  lemma AnnotateStep(f: Field, parentDef: nat, parentRep: nat, root: bool)
    ensures var n := Annotate(f, parentDef, parentRep, root);
            && n.maxDef == (if root then 0 else parentDef + DefStep(f.repetition))
            && n.maxRep == (if root then 0 else parentRep + RepStep(f.repetition))
            && forall i :: 0 <= i < |f.children| ==> n.children[i] == Annotate(f.children[i], n.maxDef, n.maxRep, false)
  {
  }

  /** `reconstruct_row_group` of a whole schema: striping rows with a value for every top-level field and
      reconstructing returns each field's column. */
  lemma RowGroupRoundTrip(root: Node, rows: seq<Value>)
    requires FieldsOk(root) && FieldsLeveled(root) && !IsLeaf(root) && !root.isMap
    requires forall i :: 0 <= i < |rows| ==> rows[i].Struct? && Conforms(root, rows[i])
    ensures BuildFields(root.children, [], |rows|, StripeFrom(root, [], AllHere(rows), 0)) ==
            Ok(ChildColumns(root, AllHere(rows), 0))
  {
    hide BuildFields, StripeFrom, Conforms, FieldsLeveled, Stripe;
    var cs := AllHere(rows);
    var leaves := StripeFrom(root, [], cs, 0);
    NotAList(root);
    assert CellsOk(root, cs) by {
      forall i | 0 <= i < |cs| ensures CellOk(root, cs[i]) { assert Conforms(root, rows[i]); }
    }
    forall i | 0 <= i < |root.children| ensures Striped(leaves, root.children[i], [] + [root.children[i].name],
      ChildCells(root, i, cs)) {
      FieldAgrees(root, [], cs, leaves, 0, i);
      StripeIsStriped(root.children[i], [] + [root.children[i].name], ChildCells(root, i, cs), leaves);
    }
    assert root.children[0..] == root.children;
    FieldsRebuild(root, [], cs, leaves, 0);
  }

  lemma NotAList(n: Node)
    requires FieldsOk(n) && !n.isMap
    ensures !IsMapField(n) && !IsListNode(n)
  {
    if |n.children| == 1 { assert Supported(n.children[0]); }
  }

  /** From the pre-order schema list to the rows: `build_schema_tree` gives a tree whose levels
      reconstruction can rely on, so every top-level column of striped rows comes back. */
  lemma SchemaRoundTrip(f: Field, rows: seq<Value>)
    requires var root := Annotate(f, 0, 0, true);
             && FieldsOk(root) && !IsLeaf(root) && !root.isMap
             && forall i :: 0 <= i < |rows| ==> rows[i].Struct? && Conforms(root, rows[i])
    ensures BuildNode(Flatten(f), 0, 0, 0, true).Some?
    ensures var root := BuildNode(Flatten(f), 0, 0, 0, true).value.0;
            && root == Annotate(f, 0, 0, true)
            && BuildFields(root.children, [], |rows|, StripeFrom(root, [], AllHere(rows), 0)) ==
               Ok(ChildColumns(root, AllHere(rows), 0))
  {
    hide *;
    assert Flatten(f)[0..0 + |Flatten(f)|] == Flatten(f);
    BuildsTree(f, Flatten(f), 0, 0, 0, true);
    AnnotatedIsLeveled(f, 0, 0, true);
    RowGroupRoundTrip(Annotate(f, 0, 0, true), rows);
  }

  // ----- paths as dotted strings -----

  /** The key the source files a leaf column under. */
  function Dotted(path: Path): (s: string)
    requires path != []
  {
    if |path| == 1 then path[0] else path[0] + "." + Dotted(path[1..])
  }

  predicate NoDots(path: Path) { forall i :: 0 <= i < |path| ==> '.' !in path[i] }

  function DotAt(s: string): (k: nat)
    ensures k <= |s|
  {
    if s == "" || s[0] == '.' then 0 else 1 + DotAt(s[1..])
  }

  function Parts(s: string): (path: Path)
    decreases |s|
  {
    if DotAt(s) == |s| then [s] else [s[..DotAt(s)]] + Parts(s[DotAt(s) + 1..])
  }

  lemma {:induction false} DotAfter(a: string, rest: string)
    requires '.' !in a && (rest == "" || rest[0] == '.')
    ensures DotAt(a + rest) == |a|
  {
    if a == "" {
      assert a + rest == rest;
    } else {
      assert (a + rest)[1..] == a[1..] + rest;
      DotAfter(a[1..], rest);
    }
  }

  /** Names without dots can be read back from the joined key, so keeping columns under lists of names
      is the same as keeping them under dotted strings. */
  lemma {:induction false} DottedSplits(path: Path)
    requires path != [] && NoDots(path)
    ensures Parts(Dotted(path)) == path
    decreases |path|
  {
    if |path| == 1 {
      DotAfter(path[0], "");
      assert path[0] + "" == path[0];
    } else {
      var rest := "." + Dotted(path[1..]);
      DotAfter(path[0], rest);
      assert Dotted(path) == path[0] + rest;
      assert Dotted(path)[..|path[0]|] == path[0] && Dotted(path)[|path[0]| + 1..] == Dotted(path[1..]);
      DottedSplits(path[1..]);
    }
  }

  /** With a dot inside a name two columns can share a key: a field `a.b` and field `b` of a struct `a`. */
  lemma DottedCollides()
    ensures ["a.b"] != ["a", "b"] && Dotted(["a.b"]) == Dotted(["a", "b"])
  {
    assert ["a", "b"][1..] == ["b"];
    assert "a" + "." + "b" == "a.b";
  }
}
