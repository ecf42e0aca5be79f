/** The record codec's loops. */
module RecordOps {
  import opened Bytes
  import opened Values
  import opened Varint
  import opened Record

  lemma {:induction false} TypesSnoc(vs: seq<Value>, n: nat)
    requires (forall i :: 0 <= i < |vs| ==> Encodable(vs[i])) && n < |vs|
    ensures Types(vs[..n + 1]) == Types(vs[..n]) + Encode(SerialType(vs[n]))
    ensures Bodies(vs[..n + 1]) == Bodies(vs[..n]) + Body(vs[n])
  {
    hide *;
    TypesAndBodies(vs[..n + 1]);
    TypesAndBodies(vs[..n]);
    if n == 0 {
      assert vs[..1][1..] == [] && vs[..0] == [];
      TypesAndBodies(vs[..1][1..]);
    } else {
      TypesSnoc(vs[1..], n - 1);
      assert vs[..n + 1][1..] == vs[1..][..n] && vs[..n][1..] == vs[1..][..n - 1];
    }
  }

  lemma TypesAndBodies(vs: seq<Value>)
    requires forall i :: 0 <= i < |vs| ==> Encodable(vs[i])
    ensures vs == [] ==> Types(vs) == [] && Bodies(vs) == []
    ensures vs != [] ==> Types(vs) == Encode(SerialType(vs[0])) + Types(vs[1..])
    ensures vs != [] ==> Bodies(vs) == Body(vs[0]) + Bodies(vs[1..])
  {
    hide Encode, Body, Encodable, SerialType;
  }

  /** The header length by trial: it grows until its own varint is counted. */
  method FindHeaderLen(types: nat) returns (h: nat)
    requires types + 9 < 0x1_0000_0000_0000_0000
    ensures h <= types + 9 && h == types + VarintLen(h)
    ensures HeaderStarted(types) && h == HeaderLen(types, types + 1)
  {
    hide VarintLenOf, HeaderLen;
    HeaderStarts(types);
    h := types + 1;
    while VarintLenOf(h) + types != h
      invariant types < h <= types + VarintLenOf(h) && HeaderLen(types, h) == HeaderLen(types, types + 1)
      decreases types + 9 - h
    {
      VarintSteps(h);
      HeaderStep(types, h);
      h := h + 1;
    }
    HeaderStep(types, h);
    LenOf(h);
  }

  ghost predicate HeaderStarted(types: nat) { types < types + 1 <= types + VarintLenOf(types + 1) &&
    types + 9 < 0x1_0000_0000_0000_0000 }

  lemma LenOf(h: nat)
    requires h < 0x1_0000_0000_0000_0000
    ensures VarintLenOf(h) == VarintLen(h)
  {
  }

  lemma HeaderStep(types: nat, h: nat)
    requires types < h <= types + VarintLenOf(h) && types + 9 < 0x1_0000_0000_0000_0000
    ensures VarintLenOf(h) + types == h ==> HeaderLen(types, h) == h
    ensures VarintLenOf(h) + types != h ==>
            h + 1 <= types + VarintLenOf(h + 1) && HeaderLen(types, h) == HeaderLen(types, h + 1)
  {
    VarintSteps(h);
  }

  /** `encode_record_into`. */
  method EncodeRecordInto(vs: seq<Value>) returns (out: seq<Byte>)
    requires AllEncodable(vs)
    ensures out == EncodeRecord(vs)
  {
    hide Encode, Encodable, SerialType, VarintLen, HeaderLen, Body, Types, Bodies;
    var types := 0;
    EmptyParts();
    for i := 0 to |vs|
      invariant vs[..0] == [] && types == |Types(vs[..i])|
    {
      TypesSnoc(vs, i);
      types := types + VarintLen(SerialType(vs[i]));
    }
    assert vs[..|vs|] == vs;
    var h := FindHeaderLen(types);
    out := WriteVarint(h, []);
    ghost var head := out;
    for i := 0 to |vs|
      invariant out == head + Types(vs[..i])
    {
      TypesSnoc(vs, i);
      out := WriteVarint(SerialType(vs[i]), out);
    }
    ghost var front := out;
    for i := 0 to |vs|
      invariant out == front + Bodies(vs[..i])
    {
      TypesSnoc(vs, i);
      out := out + Body(vs[i]);
    }
  }

  lemma EmptyParts()
    ensures Types([]) == [] && Bodies([]) == []
  {
  }

  /** The serial types of the header, as `decode_record` collects them. */
  method ReadTypesLoop(payload: seq<Byte>, start: nat, headerLen: nat) returns (r: Result<seq<nat>, RecordError>)
    ensures r == ReadTypes(payload, start, headerLen)
  {
    hide VarintAt;
    var types: seq<nat> := [];
    var pos: nat := start;
    PrependNone(ReadTypes(payload, start, headerLen));
    while pos < headerLen
      invariant ReadTypes(payload, start, headerLen) == Prepend(types, ReadTypes(payload, pos, headerLen))
      decreases headerLen - pos
    {
      match VarintAt(payload, pos) {
        case Err(e) => return Err(e);
        case Ok((st, len)) =>
          if pos + len > headerLen { return Err(HeaderOverrun); }
          PrependOne(types, st, ReadTypes(payload, pos + len, headerLen));
          types := types + [st];
          pos := pos + len;
      }
    }
    assert types + [] == types;
    r := Ok(types);
  }

  function Prepend<T, E>(a: seq<T>, r: Result<seq<T>, E>): Result<seq<T>, E> {
    match r
    case Err(e) => Err(e)
    case Ok(b) => Ok(a + b)
  }

  lemma PrependNone<T, E>(r: Result<seq<T>, E>)
    ensures Prepend([], r) == r
  {
    if r.Ok? { assert [] + r.value == r.value; }
  }

  lemma PrependOne<T, E>(a: seq<T>, x: T, r: Result<seq<T>, E>)
    ensures Prepend(a + [x], r) == Prepend(a, Prepend([x], r))
  {
    if r.Ok? { assert (a + [x]) + r.value == a + ([x] + r.value); }
  }

  /** `decode_record`. */
  method DecodeRecordLoop(payload: seq<Byte>) returns (r: Result<seq<Value>, RecordError>)
    ensures r == DecodeRecord(payload)
  {
    hide ReadTypes, DecodeValue, VarintAt;
    var head := VarintAt(payload, 0);
    if head.Err? { return Err(head.error); }
    var headerLen, n := head.value.0, head.value.1;
    if headerLen < n { return Err(HeaderTooShort); }
    var types := ReadTypesLoop(payload, n, headerLen);
    if types.Err? { return Err(types.error); }
    var vs: seq<Value> := [];
    var pos: nat := headerLen;
    ghost var whole := ReadBodies(types.value, payload, headerLen);
    assert types.value[0..] == types.value;
    assert whole.Ok? ==> [] + whole.value.0 == whole.value.0;
    for i := 0 to |types.value|
      invariant var rest := ReadBodies(types.value[i..], payload, pos);
                if rest.Err? then whole == Err(rest.error) else whole == Ok((vs + rest.value.0, rest.value.1))
    {
      assert types.value[i..][0] == types.value[i] && types.value[i..][1..] == types.value[i + 1..];
      ghost var was := vs;
      match DecodeValue(types.value[i], payload, pos) {
        case Err(e) => return Err(e);
        case Ok((v, len)) =>
          vs := vs + [v];
          pos := pos + len;
          ghost var rest := ReadBodies(types.value[i + 1..], payload, pos);
          if rest.Ok? { assert vs + rest.value.0 == was + ([v] + rest.value.0); }
      }
    }
    assert types.value[|types.value|..] == [] && vs + [] == vs;
    if pos != |payload| { return Err(TrailingData); }
    r := Ok(vs);
  }

  /** `parse_header_into`: serial types and body offsets in one walk. */
  method ParseHeaderInto(payload: seq<Byte>) returns (r: Result<seq<(nat, nat)>, RecordError>)
    ensures r == ParseHeader(payload)
  {
    hide VarintAt, SerialLen;
    var head := VarintAt(payload, 0);
    if head.Err? { return Err(head.error); }
    var headerLen, n := head.value.0, head.value.1;
    if headerLen < n { return Err(HeaderTooShort); }
    var entries: seq<(nat, nat)> := [];
    var pos: nat, bodyPos: nat := n, headerLen;
    PrependNone(EntriesFrom(payload, pos, headerLen, bodyPos));
    while pos < headerLen
      invariant ParseHeader(payload) == Prepend(entries, EntriesFrom(payload, pos, headerLen, bodyPos))
      decreases headerLen - pos
    {
      match VarintAt(payload, pos) {
        case Err(e) => return Err(e);
        case Ok((st, len)) =>
          if pos + len > headerLen { return Err(HeaderOverrun); }
          PrependOne(entries, (st, bodyPos), EntriesFrom(payload, pos + len, headerLen, bodyPos + SerialLen(st)));
          EntriesStep(payload, pos, headerLen, bodyPos);
          pos := pos + len;
          entries := entries + [(st, bodyPos)];
          bodyPos := bodyPos + SerialLen(st);
      }
    }
    assert entries + [] == entries;
    r := Ok(entries);
  }

  function EntriesFrom(payload: seq<Byte>, pos: nat, headerLen: nat,
                       bodyPos: nat): Result<seq<(nat, nat)>, RecordError> {
    match ReadTypes(payload, pos, headerLen)
    case Err(e) => Err(e)
    case Ok(types) => Ok(Entries(types, bodyPos))
  }

  lemma EntriesStep(payload: seq<Byte>, pos: nat, headerLen: nat, bodyPos: nat)
    requires pos < headerLen && VarintAt(payload, pos).Ok? && pos + VarintAt(payload, pos).value.1 <= headerLen
    ensures var st, len := VarintAt(payload, pos).value.0, VarintAt(payload, pos).value.1;
            EntriesFrom(payload, pos, headerLen, bodyPos) ==
            Prepend([(st, bodyPos)], EntriesFrom(payload, pos + len, headerLen, bodyPos + SerialLen(st)))
  {
    hide VarintAt, SerialLen;
    var st, len := VarintAt(payload, pos).value.0, VarintAt(payload, pos).value.1;
    var rest := ReadTypes(payload, pos + len, headerLen);
    if rest.Ok? { assert ([st] + rest.value)[1..] == rest.value; }
  }

  /** `decode_single_column`. */
  method DecodeSingleColumn(payload: seq<Byte>, idx: nat) returns (r: Result<Value, RecordError>)
    ensures r == DecodeSingle(payload, idx)
  {
    hide VarintAt, DecodeValue, SerialLen;
    var head := VarintAt(payload, 0);
    if head.Err? { return Err(head.error); }
    var headerLen, n := head.value.0, head.value.1;
    if headerLen < n { return Err(HeaderTooShort); }
    var pos: nat, bodyPos: nat, col: nat := n, headerLen, 0;
    while pos < headerLen
      invariant DecodeSingle(payload, idx) == SingleFrom(payload, pos, headerLen, bodyPos, col, idx)
      decreases headerLen - pos
    {
      match VarintAt(payload, pos) {
        case Err(e) => return Err(e);
        case Ok((st, len)) =>
          if pos + len > headerLen { return Err(HeaderOverrun); }
          if col == idx {
            match DecodeValue(st, payload, bodyPos)
            case Err(e) => return Err(e);
            case Ok((v, _)) => return Ok(v);
          }
          pos := pos + len;
          bodyPos := bodyPos + SerialLen(st);
          col := col + 1;
      }
    }
    r := Ok(Null);
  }

  /** `decode_record_only_into`. */
  method DecodeRecordOnly(payload: seq<Byte>, wanted: seq<nat>) returns (r: Result<seq<Value>, RecordError>)
    ensures r == DecodeOnly(payload, wanted)
  {
    hide DecodeSingle, ParseHeader, ColumnOf;
    if |wanted| == 1 {
      var one := DecodeSingleColumn(payload, wanted[0]);
      match one
      case Err(e) => return Err(e);
      case Ok(v) => return Ok([v]);
    }
    var entries := ParseHeaderInto(payload);
    if entries.Err? { return Err(entries.error); }
    r := DecodeColumns(payload, entries.value, wanted);
  }

  method DecodeColumns(payload: seq<Byte>, entries: seq<(nat, nat)>, wanted: seq<nat>)
    returns (r: Result<seq<Value>, RecordError>)
    ensures r == ColumnsOf(payload, entries, wanted)
  {
    hide ColumnOf;
    var vs: seq<Value> := [];
    for i := 0 to |wanted|
      invariant ColumnsOf(payload, entries, wanted[..i]) == Ok(vs)
    {
      assert wanted[..i + 1][..i] == wanted[..i];
      match ColumnOf(payload, entries, wanted[i]) {
        case Err(e) => ColumnsFail(payload, entries, wanted, i + 1); return Err(e);
        case Ok(v) => vs := vs + [v];
      }
    }
    assert wanted[..|wanted|] == wanted;
    r := Ok(vs);
  }

  /** An error among the first columns is the error of all. */
  lemma {:induction false} ColumnsFail(payload: seq<Byte>, entries: seq<(nat, nat)>, wanted: seq<nat>, n: nat)
    requires n <= |wanted| && ColumnsOf(payload, entries, wanted[..n]).Err?
    ensures ColumnsOf(payload, entries, wanted) == ColumnsOf(payload, entries, wanted[..n])
    decreases |wanted|
  {
    hide ColumnOf;
    if n < |wanted| {
      var k := |wanted| - 1;
      assert wanted[..k][..n] == wanted[..n];
      ColumnsFail(payload, entries, wanted[..k], n);
    } else {
      assert wanted[..n] == wanted;
    }
  }

  /** `decode_record_upto_into`. */
  method DecodeRecordUpto(payload: seq<Byte>, max: nat) returns (r: Result<seq<Value>, RecordError>)
    ensures r == DecodeUpto(payload, max)
  {
    hide ParseHeader;
    var entries := ParseHeaderInto(payload);
    if entries.Err? { return Err(entries.error); }
    r := DecodeColumns(payload, entries.value, UpTo(Min(max, |entries.value|)));
  }
}
