/** The order of index keys: by type, then by value, column by column. Reals are not part of it. */
module IndexOrder {
  import opened Bytes
  import opened Values

  datatype Ordering = Less | Equal | Greater

  function CompareInts(a: int, b: int): (r: Ordering) { if a < b then Less else if a == b then Equal else Greater }

  function CompareBytes(a: seq<Byte>, b: seq<Byte>): (r: Ordering) {
    if a == [] || b == [] then CompareInts(|a|, |b|)
    else if a[0] != b[0] then CompareInts(a[0], b[0])
    else CompareBytes(a[1..], b[1..])
  }

  type KeyValue = v: Value | !v.Real? witness Null
  type Key = seq<KeyValue>

  /** NULL, then numbers, then text, then blobs. */
  function Rank(v: KeyValue): (n: nat) {
    match v
    case Null => 0
    case Integer(_) => 1
    case Text(_) => 2
    case Blob(_) => 3
  }

  function CompareValues(a: KeyValue, b: KeyValue): (r: Ordering) {
    if Rank(a) != Rank(b) then CompareInts(Rank(a), Rank(b))
    else
      match a
      case Null => Equal
      case Integer(x) => CompareInts(x, b.i)
      case Text(x) => CompareBytes(x, b.text)
      case Blob(x) => CompareBytes(x, b.blob)
  }

  /** `compare_keys`. */
  function CompareKeys(a: Key, b: Key): (r: Ordering) {
    if a == [] || b == [] then CompareInts(|a|, |b|)
    else if CompareValues(a[0], b[0]) != Equal then CompareValues(a[0], b[0])
    else CompareKeys(a[1..], b[1..])
  }

  // ----- it is a total order -----

  function Flip(o: Ordering): (r: Ordering) {
    match o
    case Less => Greater
    case Equal => Equal
    case Greater => Less
  }

  /** What two comparisons in a row say about the ends. */
  ghost predicate Chains(ab: Ordering, bc: Ordering, ac: Ordering) {
    && (ab == Equal ==> ac == bc) && (bc == Equal ==> ac == ab) && (ab == bc ==> ac == ab)
  }

  lemma {:induction false} BytesOrder(a: seq<Byte>, b: seq<Byte>, c: seq<Byte>)
    ensures CompareBytes(a, b) == Flip(CompareBytes(b, a)) && (CompareBytes(a, b) == Equal <==> a == b)
    ensures Chains(CompareBytes(a, b), CompareBytes(b, c), CompareBytes(a, c))
  {
    if a != [] && b != [] && c != [] {
      BytesOrder(a[1..], b[1..], c[1..]);
      assert a == [a[0]] + a[1..] && b == [b[0]] + b[1..];
    } else if a != [] && b != [] {
      BytesOrder(a[1..], b[1..], c);
      assert a == [a[0]] + a[1..] && b == [b[0]] + b[1..];
    }
  }

  lemma ValuesOrder(a: KeyValue, b: KeyValue, c: KeyValue)
    ensures CompareValues(a, b) == Flip(CompareValues(b, a)) && (CompareValues(a, b) == Equal <==> a == b)
    ensures Chains(CompareValues(a, b), CompareValues(b, c), CompareValues(a, c))
  {
    hide CompareBytes;
    if Rank(a) == Rank(b) {
      if a.Text? { BytesOrder(a.text, b.text, if c.Text? then c.text else []); }
      if a.Blob? { BytesOrder(a.blob, b.blob, if c.Blob? then c.blob else []); }
    }
    if Rank(b) == Rank(c) && Rank(a) != Rank(b) {
      if b.Text? { BytesOrder(b.text, c.text, []); }
      if b.Blob? { BytesOrder(b.blob, c.blob, []); }
    }
  }

  /** Comparison is antisymmetric, equal only on equal keys, and transitive. */
  lemma {:induction false} KeysOrder(a: Key, b: Key, c: Key)
    ensures CompareKeys(a, b) == Flip(CompareKeys(b, a)) && (CompareKeys(a, b) == Equal <==> a == b)
    ensures Chains(CompareKeys(a, b), CompareKeys(b, c), CompareKeys(a, c))
  {
    hide CompareValues;
    if a != [] && b != [] && c != [] {
      ValuesOrder(a[0], b[0], c[0]);
      KeysOrder(a[1..], b[1..], c[1..]);
      assert a == [a[0]] + a[1..] && b == [b[0]] + b[1..];
    } else if a != [] && b != [] {
      ValuesOrder(a[0], b[0], a[0]);
      KeysOrder(a[1..], b[1..], c);
      assert a == [a[0]] + a[1..] && b == [b[0]] + b[1..];
    }
  }

  // ----- which total order it is -----

  /** Byte strings compare at the first place they differ; a proper prefix comes first. */
  ghost predicate BytesDiffer(a: seq<Byte>, b: seq<Byte>, j: nat) {
    j <= |a| && j <= |b| && a[..j] == b[..j] && (j == |a| < |b| || (j < |a| && j < |b| && a[j] < b[j]))
  }

  ghost predicate BytesBefore(a: seq<Byte>, b: seq<Byte>) { exists j: nat :: BytesDiffer(a, b, j) }

  lemma {:induction false} BytesCompare(a: seq<Byte>, b: seq<Byte>)
    ensures CompareBytes(a, b) == Less <==> BytesBefore(a, b)
  {
    if a == [] || b == [] {
      if |a| < |b| { assert BytesDiffer(a, b, 0); }
    } else if a[0] != b[0] {
      if a[0] < b[0] { assert BytesDiffer(a, b, 0); }
      assert forall j :: 0 < j <= |a| && j <= |b| ==> a[..j][0] == a[0] && b[..j][0] == b[0];
    } else {
      BytesCompare(a[1..], b[1..]);
      if BytesBefore(a[1..], b[1..]) {
        var j: nat :| BytesDiffer(a[1..], b[1..], j);
        assert a[..j + 1] == [a[0]] + a[1..][..j] && b[..j + 1] == [b[0]] + b[1..][..j];
        assert BytesDiffer(a, b, j + 1);
      }
      if BytesBefore(a, b) {
        var j: nat :| BytesDiffer(a, b, j);
        assert j > 0 && a[1..][..j - 1] == a[..j][1..] && b[1..][..j - 1] == b[..j][1..];
        assert BytesDiffer(a[1..], b[1..], j - 1);
      }
    }
  }

  /** NULL before integers before text before blobs, whatever they hold. */
  predicate ClassBefore(a: KeyValue, b: KeyValue) {
    || (a.Null? && !b.Null?)
    || (a.Integer? && (b.Text? || b.Blob?))
    || (a.Text? && b.Blob?)
  }

  ghost predicate ValueBefore(a: KeyValue, b: KeyValue) {
    || ClassBefore(a, b)
    || (a.Integer? && b.Integer? && a.i < b.i)
    || (a.Text? && b.Text? && BytesBefore(a.text, b.text))
    || (a.Blob? && b.Blob? && BytesBefore(a.blob, b.blob))
  }

  lemma ValuesCompare(a: KeyValue, b: KeyValue)
    ensures CompareValues(a, b) == Less <==> ValueBefore(a, b)
  {
    hide CompareBytes, BytesBefore;
    if a.Text? && b.Text? { BytesCompare(a.text, b.text); }
    if a.Blob? && b.Blob? { BytesCompare(a.blob, b.blob); }
  }

  /** Keys compare at the first column they differ in; a proper prefix comes first. */
  ghost predicate KeysDiffer(a: Key, b: Key, j: nat) {
    j <= |a| && j <= |b| && a[..j] == b[..j] && (j == |a| < |b| || (j < |a| && j < |b| && ValueBefore(a[j], b[j])))
  }

  ghost predicate KeyBefore(a: Key, b: Key) { exists j: nat :: KeysDiffer(a, b, j) }

  lemma {:induction false} KeysCompare(a: Key, b: Key)
    ensures Below(a, b) <==> KeyBefore(a, b)
  {
    hide CompareValues, ValueBefore;
    if a == [] || b == [] {
      if |a| < |b| { assert KeysDiffer(a, b, 0); }
    } else {
      ValuesCompare(a[0], b[0]);
      ValuesOrder(a[0], b[0], a[0]);
      if a[0] != b[0] {
        if ValueBefore(a[0], b[0]) { assert KeysDiffer(a, b, 0); }
        assert forall j :: 0 < j <= |a| && j <= |b| ==> a[..j][0] == a[0] && b[..j][0] == b[0];
      } else {
        KeysCompare(a[1..], b[1..]);
        NotBeforeItself(a[0]);
        if KeyBefore(a[1..], b[1..]) {
          var j: nat :| KeysDiffer(a[1..], b[1..], j);
          assert a[..j + 1] == [a[0]] + a[1..][..j] && b[..j + 1] == [b[0]] + b[1..][..j];
          assert KeysDiffer(a, b, j + 1);
        }
        if KeyBefore(a, b) {
          var j: nat :| KeysDiffer(a, b, j);
          assert j > 0 && a[1..][..j - 1] == a[..j][1..] && b[1..][..j - 1] == b[..j][1..];
          assert KeysDiffer(a[1..], b[1..], j - 1);
        }
      }
    }
  }

  lemma NotBeforeItself(v: KeyValue)
    ensures !ValueBefore(v, v)
  {
    ValuesCompare(v, v);
    ValuesOrder(v, v, v);
  }

  predicate Below(a: Key, b: Key) { CompareKeys(a, b) == Less }

  /** What is not below the target stays so along an ascending sequence. */
  lemma StaysAbove(a: Key, b: Key, target: Key)
    requires !Below(b, a) && !Below(a, target)
    ensures !Below(b, target)
  {
    hide CompareKeys;
    KeysOrder(a, b, target);
    KeysOrder(target, a, b);
    KeysOrder(b, target, a);
  }
}
