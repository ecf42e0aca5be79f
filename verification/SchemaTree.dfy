/** The Parquet schema: a pre-order list of elements, the tree built from it, and the definition and
    repetition levels of the Apache Parquet nested encoding. */
module SchemaTree {
  import opened Bytes

  datatype Repetition = Required | Optional | Repeated

  /** One element of the flattened schema. */
  datatype Element = Element(name: string, repetition: Option<Repetition>, isMap: bool, children: nat)

  datatype Node = Node(name: string, repetition: Option<Repetition>, isMap: bool, maxDef: nat, maxRep: nat,
                       children: seq<Node>)

  predicate IsLeaf(n: Node) { n.children == [] }

  function DefStep(r: Option<Repetition>): (n: nat) { if r == Some(Required) then 0 else 1 }

  function RepStep(r: Option<Repetition>): (n: nat) { if r == Some(Repeated) then 1 else 0 }

  /** `build_node`; nothing if the list ends too early. */
  function BuildNode(schema: seq<Element>, idx: nat, parentDef: nat, parentRep: nat,
                     root: bool): (r: Option<(Node, nat)>)
    ensures r.Some? ==> idx < r.value.1 <= |schema|
    decreases Max(0, |schema| - idx), 0, 0
  {
    if idx >= |schema| then None
    else
      var e := schema[idx];
      var def := if root then 0 else parentDef + DefStep(e.repetition);
      var rep := if root then 0 else parentRep + RepStep(e.repetition);
      match BuildChildren(schema, idx + 1, e.children, def, rep)
      case None => None
      case Some((kids, next)) => Some((Node(e.name, e.repetition, e.isMap, def, rep, kids), next))
  }

  function BuildChildren(schema: seq<Element>, idx: nat, n: nat, def: nat, rep: nat): (r: Option<(seq<Node>, nat)>)
    requires idx <= |schema|
    ensures r.Some? ==> idx <= r.value.1 <= |schema| && |r.value.0| == n
    decreases Max(0, |schema| - idx), 1, n
  {
    if n == 0 then Some(([], idx))
    else
      match BuildNode(schema, idx, def, rep, false)
      case None => None
      case Some((kid, next)) =>
        match BuildChildren(schema, next, n - 1, def, rep)
        case None => None
        case Some((kids, end)) => Some(([kid] + kids, end))
  }

  lemma ChildrenStep(schema: seq<Element>, idx: nat, n: nat, def: nat, rep: nat)
    requires idx <= |schema|
    ensures n == 0 ==> BuildChildren(schema, idx, n, def, rep) == Some(([], idx))
    ensures n > 0 ==> BuildChildren(schema, idx, n, def, rep) ==
                      match BuildNode(schema, idx, def, rep, false)
                      case None => None
                      case Some((kid, next)) => Prefixed([kid], BuildChildren(schema, next, n - 1, def, rep))
  {
    hide BuildNode;
  }

  /** The same walk with a moving index, as the source has it. */
  method BuildChildrenLoop(schema: seq<Element>, start: nat, n: nat, def: nat, rep: nat)
    returns (r: Option<(seq<Node>, nat)>)
    requires start <= |schema|
    ensures r == BuildChildren(schema, start, n, def, rep)
  {
    hide BuildNode, BuildChildren;
    var kids: seq<Node> := [];
    var idx := start;
    ghost var whole := BuildChildren(schema, start, n, def, rep);
    assert whole.Some? ==> [] + whole.value.0 == whole.value.0;
    for k := 0 to n
      invariant start <= idx <= |schema|
      invariant BuildChildren(schema, start, n, def, rep) == Prefixed(kids, BuildChildren(schema, idx, n - k, def, rep))
    {
      ChildrenStep(schema, idx, n - k, def, rep);
      var kid := BuildNode(schema, idx, def, rep, false);
      if kid.None? { return None; }
      ghost var rest := BuildChildren(schema, kid.value.1, n - k - 1, def, rep);
      if rest.Some? { assert kids + ([kid.value.0] + rest.value.0) == (kids + [kid.value.0]) + rest.value.0; }
      kids := kids + [kid.value.0];
      idx := kid.value.1;
    }
    ChildrenStep(schema, idx, 0, def, rep);
    assert kids + [] == kids;
    r := Some((kids, idx));
  }

  function Prefixed(kids: seq<Node>, r: Option<(seq<Node>, nat)>): Option<(seq<Node>, nat)> {
    if r.None? then None else Some((kids + r.value.0, r.value.1))
  }

  // ----- the schema as a tree -----

  datatype Field = Field(name: string, repetition: Option<Repetition>, isMap: bool, children: seq<Field>)

  function Flatten(f: Field): (r: seq<Element>)
    decreases f, 0
  {
    [Element(f.name, f.repetition, f.isMap, |f.children|)] + FlattenAll(f.children)
  }

  function FlattenAll(fs: seq<Field>): (r: seq<Element>)
    decreases fs, 1
  {
    if fs == [] then [] else Flatten(fs[0]) + FlattenAll(fs[1..])
  }

  /** The tree with its levels. */
  function Annotate(f: Field, parentDef: nat, parentRep: nat, root: bool): (n: Node)
    ensures n.name == f.name && n.repetition == f.repetition && n.isMap == f.isMap && |n.children| == |f.children|
    decreases f, 0
  {
    var def := if root then 0 else parentDef + DefStep(f.repetition);
    var rep := if root then 0 else parentRep + RepStep(f.repetition);
    Node(f.name, f.repetition, f.isMap, def, rep, AnnotateAll(f.children, def, rep))
  }

  function AnnotateAll(fs: seq<Field>, def: nat, rep: nat): (ns: seq<Node>)
    ensures |ns| == |fs|
    ensures forall i :: 0 <= i < |fs| ==> ns[i] == Annotate(fs[i], def, rep, false)
    decreases fs, 1
  {
    if fs == [] then [] else [Annotate(fs[0], def, rep, false)] + AnnotateAll(fs[1..], def, rep)
  }

  /** Building from the flattened list gives the annotated tree, wherever in the list it lies. */
  lemma {:induction false} BuildsTree(f: Field, schema: seq<Element>, idx: nat, parentDef: nat, parentRep: nat,
                                      root: bool)
    requires idx + |Flatten(f)| <= |schema| && schema[idx..idx + |Flatten(f)|] == Flatten(f)
    ensures BuildNode(schema, idx, parentDef, parentRep, root) ==
            Some((Annotate(f, parentDef, parentRep, root), idx + |Flatten(f)|))
    decreases f, 0
  {
    hide BuildChildren, AnnotateAll, FlattenAll;
    var e := Flatten(f)[0];
    assert schema[idx] == schema[idx..idx + |Flatten(f)|][0] == e;
    var def := if root then 0 else parentDef + DefStep(f.repetition);
    var rep := if root then 0 else parentRep + RepStep(f.repetition);
    Tail(schema, idx, [e], FlattenAll(f.children));
    BuildsTrees(f.children, schema, idx + 1, def, rep);
  }

  lemma {:induction false} BuildsTrees(fs: seq<Field>, schema: seq<Element>, idx: nat, def: nat, rep: nat)
    requires idx + |FlattenAll(fs)| <= |schema| && schema[idx..idx + |FlattenAll(fs)|] == FlattenAll(fs)
    ensures BuildChildren(schema, idx, |fs|, def, rep) == Some((AnnotateAll(fs, def, rep), idx + |FlattenAll(fs)|))
    decreases fs, 1
  {
    if fs != [] {
      var a, b := Flatten(fs[0]), FlattenAll(fs[1..]);
      Tail(schema, idx, a, b);
      BuildsTree(fs[0], schema, idx, def, rep, false);
      BuildsTrees(fs[1..], schema, idx + |a|, def, rep);
    }
  }

  lemma Tail(s: seq<Element>, pos: nat, a: seq<Element>, b: seq<Element>)
    requires pos + |a| + |b| <= |s| && s[pos..pos + |a| + |b|] == a + b
    ensures s[pos..pos + |a|] == a && s[pos + |a|..pos + |a| + |b|] == b
  {
    var t := s[pos..pos + |a| + |b|];
    assert s[pos..pos + |a|] == t[..|a|] && s[pos + |a|..pos + |a| + |b|] == t[|a|..];
  }

  // ----- the levels count ancestors -----

  ghost predicate IsPath(f: Field, path: seq<nat>)
    decreases |path|
  {
    path == [] || (path[0] < |f.children| && IsPath(f.children[path[0]], path[1..]))
  }

  /** The nodes from the root's child down to the end of the path. */
  ghost function Along(f: Field, path: seq<nat>): (r: seq<Field>)
    requires IsPath(f, path)
    decreases |path|
  {
    if path == [] then [] else [f.children[path[0]]] + Along(f.children[path[0]], path[1..])
  }

  ghost predicate NodePath(n: Node, path: seq<nat>)
    decreases |path|
  {
    path == [] || (path[0] < |n.children| && NodePath(n.children[path[0]], path[1..]))
  }

  ghost function NodeAt(n: Node, path: seq<nat>): (r: Node)
    requires NodePath(n, path)
    decreases |path|
  {
    if path == [] then n else NodeAt(n.children[path[0]], path[1..])
  }

  function Count(fs: seq<Field>, rep: bool): (n: nat) {
    if fs == [] then 0 else (if rep then RepStep(fs[0].repetition) else DefStep(fs[0].repetition)) + Count(fs[1..], rep)
  }

  /** A node's levels are the numbers of optional-or-repeated and of repeated nodes on its path. */
  lemma {:induction false} LevelsCount(f: Field, n: Node, path: seq<nat>)
    requires IsPath(f, path) && |n.children| == |f.children|
    requires forall i :: 0 <= i < |f.children| ==> n.children[i] == Annotate(f.children[i], n.maxDef, n.maxRep, false)
    ensures NodePath(n, path)
    ensures NodeAt(n, path).maxDef == n.maxDef + Count(Along(f, path), false)
    ensures NodeAt(n, path).maxRep == n.maxRep + Count(Along(f, path), true)
    decreases |path|
  {
    if path != [] {
      var i := path[0];
      LevelsCount(f.children[i], n.children[i], path[1..]);
      var along := Along(f, path);
      assert along[1..] == Along(f.children[i], path[1..]);
    }
  }

  lemma {:induction false} CountSnoc(fs: seq<Field>, f: Field, rep: bool)
    ensures Count(fs + [f], rep) == Count(fs, rep) + if rep then RepStep(f.repetition) else DefStep(f.repetition)
  {
    if fs == [] {
      assert ([] + [f])[1..] == [];
    } else {
      assert (fs + [f])[1..] == fs[1..] + [f];
      CountSnoc(fs[1..], f, rep);
    }
  }

  /** The places on a path that are repeated, and those that are not required. */
  function RepeatedAt(fs: seq<Field>): (r: set<nat>) {
    set i: nat | i < |fs| && fs[i].repetition == Some(Repeated)
  }

  function NotRequiredAt(fs: seq<Field>): (r: set<nat>) {
    set i: nat | i < |fs| && fs[i].repetition != Some(Required)
  }

  lemma {:induction false} CountIs(fs: seq<Field>)
    ensures Count(fs, true) == |RepeatedAt(fs)| && Count(fs, false) == |NotRequiredAt(fs)|
    decreases |fs|
  {
    hide RepeatedAt, NotRequiredAt;
    if fs == [] {
      NoneAt();
    } else {
      hide Count;
      var n := |fs| - 1;
      CountIs(fs[..n]);
      assert fs == fs[..n] + [fs[n]];
      CountSnoc(fs[..n], fs[n], true);
      CountSnoc(fs[..n], fs[n], false);
      LastAt(fs);
    }
  }

  lemma NoneAt()
    ensures RepeatedAt([]) == {} && NotRequiredAt([]) == {}
  {
  }

  lemma LastAt(fs: seq<Field>)
    requires fs != []
    ensures var n := |fs| - 1;
            && |RepeatedAt(fs)| == |RepeatedAt(fs[..n])| + (if fs[n].repetition == Some(Repeated) then 1 else 0)
            && |NotRequiredAt(fs)| == |NotRequiredAt(fs[..n])| + (if fs[n].repetition == Some(Required) then 0 else 1)
  {
    var n := |fs| - 1;
    assert RepeatedAt(fs) == RepeatedAt(fs[..n]) + if fs[n].repetition == Some(Repeated) then {n} else {};
    assert NotRequiredAt(fs) == NotRequiredAt(fs[..n]) + if fs[n].repetition == Some(Required) then {} else {n};
  }

  /** `build_schema_tree` of a schema's pre-order list: the whole list is used, and every node's levels
      count its ancestors. */
  lemma SchemaLevels(f: Field, path: seq<nat>)
    requires IsPath(f, path)
    ensures BuildNode(Flatten(f), 0, 0, 0, true) == Some((Annotate(f, 0, 0, true), |Flatten(f)|))
    ensures var n := Annotate(f, 0, 0, true);
            NodePath(n, path) && NodeAt(n, path).maxDef == |NotRequiredAt(Along(f, path))| &&
              NodeAt(n, path).maxRep == |RepeatedAt(Along(f, path))|
  {
    hide Flatten, BuildNode, RepeatedAt, NotRequiredAt;
    CountIs(Along(f, path));
    assert Flatten(f)[0..0 + |Flatten(f)|] == Flatten(f);
    BuildsTree(f, Flatten(f), 0, 0, 0, true);
    LevelsCount(f, Annotate(f, 0, 0, true), path);
  }
}
