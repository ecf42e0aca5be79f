/** Reconstructing nested values from leaf columns, and the striping it inverts. */
module Nested {
  import opened Bytes
  import opened SchemaTree

  datatype Value = Null | Scalar(x: int) | List(items: seq<Value>) | Struct(fields: seq<(string, Value)>)

  /** One leaf column's levels and values. */
  datatype Entries = Entries(reps: seq<nat>, defs: seq<nat>, values: seq<Option<int>>)

  /** Columns by leaf path, a path being the names from a top-level field down. */
  type Path = seq<string>
  type LeafData = map<Path, Entries>

  datatype NestedError = MissingLeafData | UnsupportedListElement | UnsupportedMapShape

  type Built = Result<seq<Value>, NestedError>

  function Shown(v: Option<int>): (r: Value) { if v.None? then Null else Scalar(v.value) }

  function ShownAll(vs: seq<Option<int>>): (r: seq<Value>)
    ensures |r| == |vs| && forall i :: 0 <= i < |vs| ==> r[i] == Shown(vs[i])
  {
    seq(|vs|, i requires 0 <= i < |vs| => Shown(vs[i]))
  }

  // ----- lists and maps -----

  /** The first index past `i` that starts a new row. */
  function RunEnd(reps: seq<nat>, i: nat): (e: nat)
    requires i < |reps|
    ensures i < e <= |reps| && (forall k :: i < k < e ==> reps[k] != 0) && (e < |reps| ==> reps[e] == 0)
    decreases |reps| - i
  {
    if i + 1 >= |reps| || reps[i + 1] == 0 then i + 1 else RunEnd(reps, i + 1)
  }

  /** The row that starts at entry `i`, and where the next one starts. */
  function RowAt(reps: seq<nat>, defs: seq<nat>, items: seq<Value>, wrapperDef: nat, repeatedDef: nat,
                 i: nat): (r: (Value, nat))
    requires |reps| == |defs| == |items| && i < |defs|
    ensures i < r.1 <= |defs|
  {
    if defs[i] < wrapperDef then (Null, i + 1)
    else if defs[i] < repeatedDef then (List([]), i + 1)
    else (List(items[i..RunEnd(reps, i)]), RunEnd(reps, i))
  }

  /** `build_repeated` from entry `i` with `n` rows to go; nothing once the entries run out. */
  function BuildRepeated(reps: seq<nat>, defs: seq<nat>, items: seq<Value>, wrapperDef: nat, repeatedDef: nat, i: nat,
                         n: nat): (r: Option<seq<Value>>)
    requires |reps| == |defs| == |items|
    decreases n
  {
    if n == 0 then Some([])
    else if i >= |defs| then None
    else
      var row := RowAt(reps, defs, items, wrapperDef, repeatedDef, i);
      match BuildRepeated(reps, defs, items, wrapperDef, repeatedDef, row.1, n - 1)
      case None => None
      case Some(rest) => Some([row.0] + rest)
  }

  method BuildRepeatedLoop(reps: seq<nat>, defs: seq<nat>, items: seq<Value>, wrapperDef: nat, repeatedDef: nat, n: nat)
    returns (r: Option<seq<Value>>)
    requires |reps| == |defs| == |items|
    ensures r == BuildRepeated(reps, defs, items, wrapperDef, repeatedDef, 0, n)
  {
    hide RowAt;
    var out: seq<Value> := [];
    var i := 0;
    ghost var whole := BuildRepeated(reps, defs, items, wrapperDef, repeatedDef, 0, n);
    assert whole.Some? ==> [] + whole.value == whole.value;
    for k := 0 to n
      invariant 0 <= i <= |defs|
      invariant var rest := BuildRepeated(reps, defs, items, wrapperDef, repeatedDef, i, n - k);
                whole == if rest.None? then None else Some(out + rest.value)
    {
      if i >= |defs| { return None; }
      ghost var was, row := out, RowAt(reps, defs, items, wrapperDef, repeatedDef, i);
      var v;
      v, i := TakeRow(reps, defs, items, wrapperDef, repeatedDef, i);
      out := out + [v];
      ghost var rest := BuildRepeated(reps, defs, items, wrapperDef, repeatedDef, i, n - k - 1);
      if rest.Some? { assert out + rest.value == was + ([v] + rest.value); }
    }
    assert out + [] == out;
    r := Some(out);
  }

  method TakeRow(reps: seq<nat>, defs: seq<nat>, items: seq<Value>, wrapperDef: nat, repeatedDef: nat, i: nat)
    returns (v: Value, next: nat)
    requires |reps| == |defs| == |items| && i < |defs|
    ensures (v, next) == RowAt(reps, defs, items, wrapperDef, repeatedDef, i)
  {
    var d := defs[i];
    if d < wrapperDef { return Null, i + 1; }
    if d < repeatedDef { return List([]), i + 1; }
    var elems;
    elems, next := CollectRun(reps, items, i);
    v := List(elems);
  }

  /** The entries of one row, from its first up to the next row's. */
  method CollectRun(reps: seq<nat>, items: seq<Value>, start: nat) returns (elems: seq<Value>, end: nat)
    requires |reps| == |items| && start < |reps|
    ensures end == RunEnd(reps, start) && elems == items[start..end]
  {
    elems, end := [items[start]], start + 1;
    while end < |reps| && reps[end] != 0
      invariant start < end <= |reps| && elems == items[start..end] && forall m :: start < m < end ==> reps[m] != 0
    {
      elems := elems + [items[end]];
      end := end + 1;
    }
    RunEndIs(reps, start, end);
  }

  lemma {:induction false} RunEndIs(reps: seq<nat>, i: nat, e: nat)
    requires i < e <= |reps| && (forall k :: i < k < e ==> reps[k] != 0) && (e < |reps| ==> reps[e] == 0)
    ensures RunEnd(reps, i) == e
    decreases e - i
  {
    if i + 1 < e { RunEndIs(reps, i + 1, e); }
  }

  // ----- any field -----

  predicate IsRepeated(n: Node) { n.repetition == Some(Repeated) }

  predicate IsMapNode(n: Node) { n.isMap && |n.children| == 1 }

  function FirstLeafPath(n: Node): (p: Path)
    decreases n
  {
    if IsLeaf(n) then [] else [n.children[0].name] + FirstLeafPath(n.children[0])
  }

  function BuildList(n: Node, path: Path, rows: nat, leaves: LeafData): (r: Built)
    requires n.children != []
  {
    var repeated := n.children[0];
    var element := if IsLeaf(repeated) then repeated else repeated.children[0];
    if !IsLeaf(element) then Err(UnsupportedListElement)
    else
      var p := path + (if IsLeaf(repeated) then [repeated.name] else [repeated.name, element.name]);
      if p !in leaves then Err(MissingLeafData)
      else Rebuilt(leaves[p], ShownAll(leaves[p].values), n.maxDef, repeated.maxDef, rows)
  }

  function KeyValue(keys: seq<Option<int>>, values: seq<Option<int>>): (r: seq<Value>)
    ensures |r| == |keys|
  {
    seq(|keys|, i requires 0 <= i < |keys| =>
      Struct([("key", Shown(keys[i])), ("value", if i < |values| then Shown(values[i]) else Null)]))
  }

  function BuildMap(n: Node, path: Path, rows: nat, leaves: LeafData): (r: Built)
    requires n.children != []
  {
    var kv := n.children[0];
    if |kv.children| != 2 || !IsLeaf(kv.children[0]) || !IsLeaf(kv.children[1]) then Err(UnsupportedMapShape)
    else
      var kp, vp := path + [kv.name, kv.children[0].name], path + [kv.name, kv.children[1].name];
      if kp !in leaves || vp !in leaves then Err(MissingLeafData)
      else Rebuilt(leaves[kp], KeyValue(leaves[kp].values, leaves[vp].values), n.maxDef, kv.maxDef, rows)
  }

  /** Columns whose levels do not match their values would make the source index out of bounds. */
  function Rebuilt(e: Entries, items: seq<Value>, wrapperDef: nat, repeatedDef: nat, rows: nat): (r: Built) {
    if |e.reps| != |e.defs| || |items| != |e.defs| then Err(MissingLeafData)
    else
      match BuildRepeated(e.reps, e.defs, items, wrapperDef, repeatedDef, 0, rows)
      case None => Err(MissingLeafData)
      case Some(vs) => Ok(vs)
  }

  /** `build_field`. */
  function BuildField(n: Node, path: Path, rows: nat, leaves: LeafData): (r: Built)
    decreases n, 0
  {
    if IsLeaf(n) then if path in leaves then Ok(ShownAll(leaves[path].values)) else Err(MissingLeafData)
    else if IsRepeated(n) then BuildList(n, path, rows, leaves)
    else if IsMapNode(n) then BuildMap(n, path, rows, leaves)
    else if |n.children| == 1 && IsRepeated(n.children[0]) then BuildList(n, path, rows, leaves)
    else
      var driver := path + FirstLeafPath(n);
      if driver !in leaves then Err(MissingLeafData)
      else
        match BuildFields(n.children, path, rows, leaves)
        case Err(e) => Err(e)
        case Ok(columns) => BuildStructs(n, leaves[driver].defs, columns, rows)
  }

  function BuildFields(ns: seq<Node>, path: Path, rows: nat,
                       leaves: LeafData): (r: Result<seq<seq<Value>>, NestedError>)
    ensures r.Ok? ==> |r.value| == |ns|
    decreases ns, 1
  {
    if ns == [] then Ok([])
    else
      match BuildField(ns[0], path + [ns[0].name], rows, leaves)
      case Err(e) => Err(e)
      case Ok(column) =>
        match BuildFields(ns[1..], path, rows, leaves)
        case Err(e) => Err(e)
        case Ok(rest) => Ok([column] + rest)
  }

  /** The rows of a struct; a column shorter than the row count would be an index out of bounds. */
  function BuildStructs(n: Node, defs: seq<nat>, columns: seq<seq<Value>>, rows: nat): (r: Built)
    requires |columns| == |n.children|
  {
    if |defs| < rows || exists i :: 0 <= i < |columns| && |columns[i]| < rows then Err(MissingLeafData)
    else Ok(seq(rows, r requires 0 <= r < rows => StructRow(n, defs[r], columns, r)))
  }

  function StructRow(n: Node, def: nat, columns: seq<seq<Value>>, r: nat): (v: Value)
    requires |columns| == |n.children| && forall i :: 0 <= i < |columns| ==> r < |columns[i]|
  {
    if def < n.maxDef then Null
    else Struct(seq(|columns|, i requires 0 <= i < |columns| => (n.children[i].name, columns[i][r])))
  }
}
