/** The record format: a header of serial types, then the column bodies. */
module Record {
  import opened Bytes
  import opened Values
  import opened Varint

  datatype RecordError = BadVarint | HeaderTooShort | HeaderOverrun | BodyEof | TrailingData

  // ----- encoding -----

  function IntegerType(i: I64): (st: nat)
    ensures st in {1, 2, 3, 4, 5, 6, 8, 9}
  {
    if i == 0 then 8
    else if i == 1 then 9
    else if -0x80 <= i < 0x80 then 1
    else if -0x8000 <= i < 0x8000 then 2
    else if -0x80_0000 <= i < 0x80_0000 then 3
    else if -0x8000_0000 <= i < 0x8000_0000 then 4
    else if -0x8000_0000_0000 <= i < 0x8000_0000_0000 then 5
    else 6
  }

  /** A value whose length a serial type can carry. */
  predicate Encodable(v: Value) {
    match v
    case Text(s) => |s| < 0x4000_0000_0000_0000
    case Blob(s) => |s| < 0x4000_0000_0000_0000
    case Real(bits) => |bits| == 8
    case _ => true
  }

  function SerialType(v: Value): (st: U64)
    requires Encodable(v)
  {
    match v
    case Null => 0
    case Integer(i) => IntegerType(i)
    case Real(_) => 7
    case Blob(s) => 12 + 2 * |s|
    case Text(s) => 13 + 2 * |s|
  }

  function IntegerWidth(st: nat): (n: nat) {
    if st <= 4 then st else if st == 5 then 6 else if st == 6 then 8 else 0
  }

  function Body(v: Value): (r: seq<Byte>)
    requires Encodable(v)
  {
    match v
    case Null => []
    case Integer(i) => IntBody(i, IntegerWidth(IntegerType(i)))
    case Real(bits) => bits
    case Blob(s) => s
    case Text(s) => s
  }

  ghost predicate AllEncodable(vs: seq<Value>) { |vs| < 0x100_0000_0000_0000 && forall i :: 0 <= i < |vs| ==>
    Encodable(vs[i]) }

  function Types(vs: seq<Value>): (r: seq<Byte>)
    requires forall i :: 0 <= i < |vs| ==> Encodable(vs[i])
    ensures |r| <= 9 * |vs|
  {
    if vs == [] then [] else Encode(SerialType(vs[0])) + Types(vs[1..])
  }

  function Bodies(vs: seq<Value>): (r: seq<Byte>)
    requires forall i :: 0 <= i < |vs| ==> Encodable(vs[i])
  {
    if vs == [] then [] else Body(vs[0]) + Bodies(vs[1..])
  }

  /** The search for a header length that counts its own varint, from `h` up. */
  function HeaderLen(types: nat, h: nat): (r: nat)
    requires types < h <= types + VarintLenOf(h) && types + 9 < 0x1_0000_0000_0000_0000
    ensures r == types + VarintLenOf(r) && r <= types + 9
    decreases types + 9 - h
  {
    if VarintLenOf(h) + types == h then h else VarintSteps(h); HeaderLen(types, h + 1)
  }

  function VarintLenOf(h: nat): (n: nat)
    ensures 1 <= n <= 9
  {
    if h < 0x1_0000_0000_0000_0000 then VarintLen(h) else 9
  }

  /** One more is at most one byte longer. */
  lemma VarintSteps(h: nat)
    ensures VarintLenOf(h) <= VarintLenOf(h + 1) <= VarintLenOf(h) + 1
  {
    PowValues();
    if h + 1 < 0x1_0000_0000_0000_0000 && h + 1 < TWO56 {
      var a, b := GroupsNeeded(h, 1), GroupsNeeded(h + 1, 1);
      if a < 8 { PowMono(1, a); }
      if b < a { PowMono(b, a - 1); }
      if b > a + 1 { PowMono(a, b - 1); PowGap(a, b - 1); }
    } else if h < TWO56 {
      PowMono(7, 8);
      if GroupsNeeded(h, 1) < 8 { PowMono(GroupsNeeded(h, 1), 7); }
    }
  }

  lemma PowGap(a: nat, b: nat)
    requires a < b
    ensures Pow128(a) + 1 < Pow128(b)
  {
    PowMono(a + 1, b);
  }

  function EncodeRecord(vs: seq<Value>): (r: seq<Byte>)
    requires AllEncodable(vs)
  {
    var types := Types(vs);
    HeaderStarts(|types|);
    Varint.Encode(HeaderLen(|types|, |types| + 1)) + types + Bodies(vs)
  }

  /** `i` is a signed number of `n` bytes. */
  predicate FitsIn(i: int, n: nat) { 0 - Pow256(n) <= 2 * i < Pow256(n) }

  /** 0 and 1 take no bytes at all; any other integer takes the narrowest width that holds it. */
  lemma IntegerTypeIs(i: I64, n: nat)
    requires n in {1, 2, 3, 4, 6, 8}
    ensures (IntegerType(i) == 8 <==> i == 0) && (IntegerType(i) == 9 <==> i == 1)
    ensures i != 0 && i != 1 ==>
              var w := IntegerWidth(IntegerType(i)); FitsIn(i, w) && (FitsIn(i, n) ==> w <= n)
  {
    hide Pow256;
    Pow256Values();
  }

  /** The header length written is the least that counts itself; 126 bytes of types, say, have two. */
  lemma {:induction false} HeaderLenLeast(types: nat, h: nat, other: nat)
    requires types < h <= types + VarintLenOf(h) && types + 9 < 0x1_0000_0000_0000_0000
    requires h <= other && other == types + VarintLenOf(other)
    ensures HeaderLen(types, h) <= other
    decreases types + 9 - h
  {
    hide VarintLenOf;
    if VarintLenOf(h) + types != h {
      VarintSteps(h);
      HeaderLenLeast(types, h + 1, other);
    }
  }

  lemma HeaderStarts(types: nat)
    ensures types < types + 1 <= types + VarintLenOf(types + 1)
  {
  }

  // ----- decoding -----

  function VarintAt(buf: seq<Byte>, pos: nat): (r: Result<(nat, nat), RecordError>)
    ensures r.Ok? ==> 1 <= r.value.1 <= 9 && pos + r.value.1 <= |buf|
  {
    if pos > |buf| then Err(BadVarint)
    else
      match Varint.Decode(buf[pos..])
      case Err(_) => Err(BadVarint)
      case Ok(v) => Ok(v)
  }

  function SerialLen(st: nat): (n: nat) {
    if st in {0, 8, 9, 10, 11} then 0
    else if st <= 4 then st
    else if st == 5 then 6
    else if st <= 7 then 8
    else if st % 2 == 0 then (st - 12) / 2
    else (st - 13) / 2
  }

  function Take(buf: seq<Byte>, pos: nat, len: nat): (r: Result<seq<Byte>, RecordError>)
    ensures r.Ok? ==> |r.value| == len
  {
    if pos + len <= |buf| then Ok(buf[pos..pos + len]) else Err(BodyEof)
  }

  /** `decode_serial_value`; text bytes are taken as valid. */
  function DecodeValue(st: nat, buf: seq<Byte>, pos: nat): (r: Result<(Value, nat), RecordError>)
    ensures r.Ok? ==> r.value.1 == SerialLen(st)
  {
    if st == 0 || st == 10 || st == 11 then Ok((Null, 0))
    else if st == 8 then Ok((Integer(0), 0))
    else if st == 9 then Ok((Integer(1), 0))
    else
      match Take(buf, pos, SerialLen(st))
      case Err(e) => Err(e)
      case Ok(s) =>
        if st <= 6 then SignedFits(s); Ok((Integer(SignedOf(s)), |s|))
        else if st == 7 then Ok((if IsNaN(s) then Null else Real(s), 8))
        else if st % 2 == 0 then Ok((Blob(s), |s|))
        else Ok((Text(s), |s|))
  }

  lemma SignedFits(s: seq<Byte>)
    requires 1 <= |s| <= 8
    ensures -0x8000_0000_0000_0000 <= SignedOf(s) < 0x8000_0000_0000_0000
  {
    FromBeBound(s);
    Pow256Values();
    PowersGrow(|s|, 8);
  }

  lemma {:induction false} PowersGrow(a: nat, b: nat)
    requires a <= b
    ensures Pow256(a) <= Pow256(b)
  {
    if a < b { PowersGrow(a, b - 1); }
  }

  /** The value lies below the power, in the half its first byte says. */
  lemma FromBeStep(s: seq<Byte>)
    requires s != []
    ensures FromBe(s) == 256 * FromBe(s[..|s| - 1]) + s[|s| - 1] && Pow256(|s|) == 256 * Pow256(|s| - 1) &&
            Pow256(0) == 1 && FromBe([]) == 0
  {
  }

  lemma {:induction false} FromBeBound(s: seq<Byte>)
    requires s != []
    ensures FromBe(s) < Pow256(|s|) && (s[0] >= 128 <==> 2 * FromBe(s) >= Pow256(|s|))
  {
    hide FromBe, Pow256;
    var n := |s| - 1;
    FromBeStep(s);
    if n == 0 {
      assert s[..0] == [];
    } else {
      FromBeBound(s[..n]);
      EvenHalf(n);
    }
  }

  lemma {:induction false} FromBeHead(s: seq<Byte>)
    requires s != []
    ensures FromBe(s) == s[0] * Pow256(|s| - 1) + FromBe(s[1..])
  {
    FromBeStep(s);
    if |s| > 1 {
      FromBeHead(s[..|s| - 1]);
      FromBeStep(s[1..]);
      assert s[1..][..|s| - 2] == s[..|s| - 1][1..];
    } else {
      assert s[1..] == [] && s[..0] == [];
    }
  }

  lemma {:induction false} FromBeZero(s: seq<Byte>)
    ensures FromBe(s) == 0 <==> forall k :: 0 <= k < |s| ==> s[k] == 0
  {
    if s != [] {
      FromBeStep(s);
      FromBeZero(s[..|s| - 1]);
      assert s == s[..|s| - 1] + [s[|s| - 1]];
    }
  }

  /** A NaN by its number: the sign apart, it lies above the pattern that stands for infinity. */
  lemma NaNIs(bits: seq<Byte>)
    requires |bits| == 8
    ensures IsNaN(bits) <==> FromBe(bits) % 0x8000_0000_0000_0000 > 0x7ff0_0000_0000_0000
  {
    hide FromBe, Pow256;
    var rest := bits[2..];
    Pow256Values();
    FromBeStep(bits);
    assert Pow256(7) == 0x100_0000_0000_0000;
    FromBeHead(bits);
    FromBeHead(bits[1..]);
    assert bits[1..][1..] == rest;
    FromBeBound(rest);
    FromBeZero(rest);
    assert (exists k :: 2 <= k < 8 && bits[k] != 0) <==> FromBe(rest) != 0 by {
      assert forall k :: 2 <= k < 8 ==> bits[k] == rest[k - 2];
      assert forall k :: 0 <= k < 6 ==> rest[k] == bits[k + 2];
    }
    NaNSplit(bits[0], bits[1], FromBe(rest));
  }

  lemma NaNSplit(a: Byte, b: Byte, m: nat)
    requires m < 0x1_0000_0000_0000
    ensures a % 128 == 127 && b >= 240 && (b % 16 != 0 || m != 0) <==>
            (a * 0x100_0000_0000_0000 + b * 0x1_0000_0000_0000 + m) % 0x8000_0000_0000_0000 > 0x7ff0_0000_0000_0000
  {
    var low := (a % 128) * 0x100_0000_0000_0000 + b * 0x1_0000_0000_0000 + m;
    var all := a * 0x100_0000_0000_0000 + b * 0x1_0000_0000_0000 + m;
    assert all == (if a < 128 then 0 else 0x8000_0000_0000_0000) + low && low < 0x8000_0000_0000_0000;
    assert all % 0x8000_0000_0000_0000 == low;
  }

  /** The serial types from `pos` up to the end of the header. */
  function ReadTypes(payload: seq<Byte>, pos: nat, headerLen: nat): (r: Result<seq<nat>, RecordError>)
    decreases headerLen - pos
  {
    if pos >= headerLen then Ok([])
    else
      match VarintAt(payload, pos)
      case Err(e) => Err(e)
      case Ok((st, len)) =>
        if pos + len > headerLen then Err(HeaderOverrun)
        else
          match ReadTypes(payload, pos + len, headerLen)
          case Err(e) => Err(e)
          case Ok(rest) => Ok([st] + rest)
  }

  function ReadBodies(types: seq<nat>, payload: seq<Byte>, pos: nat): (r: Result<(seq<Value>, nat), RecordError>)
    ensures r.Ok? ==> |r.value.0| == |types|
  {
    if types == [] then Ok(([], pos))
    else
      match DecodeValue(types[0], payload, pos)
      case Err(e) => Err(e)
      case Ok((v, len)) =>
        match ReadBodies(types[1..], payload, pos + len)
        case Err(e) => Err(e)
        case Ok((rest, end)) => Ok(([v] + rest, end))
  }

  /** The header: its length, where its types start, and the types. */
  function ReadHeader(payload: seq<Byte>): (r: Result<(nat, seq<nat>), RecordError>) {
    match VarintAt(payload, 0)
    case Err(e) => Err(e)
    case Ok((headerLen, n)) =>
      if headerLen < n then Err(HeaderTooShort)
      else
        match ReadTypes(payload, n, headerLen)
        case Err(e) => Err(e)
        case Ok(types) => Ok((headerLen, types))
  }

  function DecodeRecord(payload: seq<Byte>): (r: Result<seq<Value>, RecordError>) {
    match ReadHeader(payload)
    case Err(e) => Err(e)
    case Ok((headerLen, types)) =>
      match ReadBodies(types, payload, headerLen)
      case Err(e) => Err(e)
      case Ok((vs, end)) => if end != |payload| then Err(TrailingData) else Ok(vs)
  }

  // ----- the round trip -----

  /** What a value reads back as: a NaN reads as NULL. */
  function Settled(v: Value): (r: Value)
    requires Encodable(v)
  {
    if v.Real? && IsNaN(v.bits) then Null else v
  }

  lemma ValueRoundTrip(v: Value, before: seq<Byte>, after: seq<Byte>)
    requires Encodable(v)
    ensures DecodeValue(SerialType(v), before + Body(v) + after, |before|) == Ok((Settled(v), |Body(v)|))
    ensures |Body(v)| == SerialLen(SerialType(v))
  {
    hide BeBytes, FromBe, IsNaN, IntBody, SignedOf;
    var buf, b := before + Body(v) + after, Body(v);
    assert buf[|before|..|before| + |b|] == b;
    if v.Integer? {
      var n := IntegerWidth(IntegerType(v.i));
      Pow256Values();
      if n > 0 { IntRoundTrip(v.i, n); }
    }
  }

  function SerialTypes(vs: seq<Value>): (r: seq<nat>)
    requires forall i :: 0 <= i < |vs| ==> Encodable(vs[i])
  {
    if vs == [] then [] else [SerialType(vs[0]) as nat] + SerialTypes(vs[1..])
  }

  function SettledAll(vs: seq<Value>): (r: seq<Value>)
    requires forall i :: 0 <= i < |vs| ==> Encodable(vs[i])
    ensures |r| == |vs| && forall i :: 0 <= i < |vs| ==> r[i] == Settled(vs[i])
  {
    seq(|vs|, i requires 0 <= i < |vs| => Settled(vs[i]))
  }

  lemma SliceParts(s: seq<Byte>, pos: nat, a: seq<Byte>, b: seq<Byte>)
    requires pos + |a| + |b| <= |s| && s[pos..pos + |a| + |b|] == a + b
    ensures s[pos..] == a + s[pos + |a|..] && s[pos + |a|..pos + |a| + |b|] == b
  {
    assert forall k :: 0 <= k < |a| + |b| ==> s[pos + k] == (a + b)[k];
  }

  lemma {:induction false} TypesRead(payload: seq<Byte>, pos: nat, vs: seq<Value>)
    requires forall i :: 0 <= i < |vs| ==> Encodable(vs[i])
    requires pos + |Types(vs)| <= |payload| && payload[pos..pos + |Types(vs)|] == Types(vs)
    ensures ReadTypes(payload, pos, pos + |Types(vs)|) == Ok(SerialTypes(vs))
    decreases |vs|
  {
    hide *;
    TypesStep(vs);
    if vs == [] {
      NoTypes(payload, pos);
    } else {
      var e, rest, end := Encode(SerialType(vs[0])), vs[1..], pos + |Types(vs)|;
      SliceParts(payload, pos, e, Types(rest));
      RoundTrip(SerialType(vs[0]), payload[pos + |e|..]);
      TypesRead(payload, pos + |e|, rest);
      OneType(payload, pos, end, SerialType(vs[0]), |e|, SerialTypes(rest));
    }
  }

  lemma TypesStep(vs: seq<Value>)
    requires forall i :: 0 <= i < |vs| ==> Encodable(vs[i])
    ensures vs == [] ==> Types(vs) == [] && SerialTypes(vs) == []
    ensures vs != [] ==> Types(vs) == Encode(SerialType(vs[0])) + Types(vs[1..])
    ensures vs != [] ==> SerialTypes(vs) == [SerialType(vs[0]) as nat] + SerialTypes(vs[1..])
  {
    hide Encode, SerialType, Encodable;
  }

  lemma NoTypes(payload: seq<Byte>, pos: nat)
    ensures ReadTypes(payload, pos, pos) == Ok([])
  {
  }

  lemma OneType(payload: seq<Byte>, pos: nat, end: nat, st: nat, len: nat, rest: seq<nat>)
    requires pos < end && pos + len <= end && pos <= |payload| && Decode(payload[pos..]) == Ok((st, len))
    requires ReadTypes(payload, pos + len, end) == Ok(rest)
    ensures ReadTypes(payload, pos, end) == Ok([st] + rest)
  {
    hide Decode;
  }

  lemma BodiesStep(vs: seq<Value>)
    requires forall i :: 0 <= i < |vs| ==> Encodable(vs[i])
    ensures Bodies(vs) == if vs == [] then [] else Body(vs[0]) + Bodies(vs[1..])
  {
    hide Body, Encodable;
  }

  lemma NoBodies(payload: seq<Byte>, pos: nat)
    ensures ReadBodies([], payload, pos) == Ok(([], pos))
  {
  }

  lemma OneBody(st: nat, rest: seq<nat>, payload: seq<Byte>, pos: nat)
    requires DecodeValue(st, payload, pos).Ok?
    requires ReadBodies(rest, payload, pos + DecodeValue(st, payload, pos).value.1).Ok?
    ensures var one := DecodeValue(st, payload, pos).value; var more := ReadBodies(rest, payload, pos + one.1).value;
            ReadBodies([st] + rest, payload, pos) == Ok(([one.0] + more.0, more.1))
  {
    hide DecodeValue;
    assert ([st] + rest)[1..] == rest;
  }

  lemma {:induction false} BodiesRead(vs: seq<Value>, before: seq<Byte>)
    requires forall i :: 0 <= i < |vs| ==> Encodable(vs[i])
    ensures ReadBodies(SerialTypes(vs), before + Bodies(vs), |before|) == Ok((SettledAll(vs), |before| + |Bodies(vs)|))
  {
    hide *;
    TypesStep(vs);
    BodiesStep(vs);
    SettledStep(vs);
    if vs == [] {
      NoBodies(before + Bodies(vs), |before|);
    } else {
      var b, rest := Body(vs[0]), vs[1..];
      Regroup(before, b, Bodies(rest));
      ValueRoundTrip(vs[0], before, Bodies(rest));
      BodiesRead(rest, before + b);
      OneBody(SerialType(vs[0]), SerialTypes(rest), before + Bodies(vs), |before|);
    }
  }

  lemma Regroup(a: seq<Byte>, b: seq<Byte>, c: seq<Byte>)
    ensures a + (b + c) == a + b + c && |a + b| == |a| + |b|
  {
  }

  lemma SettledStep(vs: seq<Value>)
    requires forall i :: 0 <= i < |vs| ==> Encodable(vs[i])
    ensures SettledAll(vs) == if vs == [] then [] else [Settled(vs[0])] + SettledAll(vs[1..])
  {
    hide Encodable, Settled;
  }

  ghost predicate NoNaN(vs: seq<Value>) { forall i :: 0 <= i < |vs| ==> !(vs[i].Real? && IsNaN(vs[i].bits)) }

  lemma HeaderRead(vs: seq<Value>, h: U64, after: seq<Byte>)
    requires (forall i :: 0 <= i < |vs| ==> Encodable(vs[i])) && h == |Types(vs)| + |Encode(h)|
    ensures ReadHeader(Encode(h) + Types(vs) + after) == Ok((h as nat, SerialTypes(vs)))
  {
    hide Encode, Decode, Types, ReadTypes, Encodable, SerialTypes;
    var e, payload := Encode(h), Encode(h) + Types(vs) + after;
    RoundTrip(h, Types(vs) + after);
    assert payload == e + (Types(vs) + after) && payload[0..] == payload;
    assert payload[|e|..|e| + |Types(vs)|] == Types(vs);
    TypesRead(payload, |e|, vs);
  }

  /** Decoding an encoded record gives its values back exactly when none is a NaN, which reads as NULL. */
  lemma RecordRoundTrip(vs: seq<Value>)
    requires AllEncodable(vs)
    ensures DecodeRecord(EncodeRecord(vs)) == Ok(SettledAll(vs))
    ensures DecodeRecord(EncodeRecord(vs)) == Ok(vs) <==> NoNaN(vs)
  {
    hide Encode, Decode, Types, Bodies, ReadHeader, ReadBodies, Encodable, IsNaN, HeaderLen, SerialTypes, SettledAll;
    hide NoNaN;
    HeaderStarts(|Types(vs)|);
    var h := HeaderLen(|Types(vs)|, |Types(vs)| + 1);
    HeaderRead(vs, h, Bodies(vs));
    BodiesRead(vs, Encode(h) + Types(vs));
    SettledSame(vs);
  }

  /** A column that holds a NaN is stored as its eight bytes and read back as NULL. */
  lemma NaNReadsAsNull()
    ensures var nan := Real([0x7f, 0xf8, 0, 0, 0, 0, 0, 0]);
            && AllEncodable([nan]) && DecodeRecord(EncodeRecord([nan])) == Ok([Null])
  {
    hide *;
    QuietNaN();
    RecordRoundTrip([Real([0x7f, 0xf8, 0, 0, 0, 0, 0, 0])]);
  }

  lemma QuietNaN()
    ensures var nan := Real([0x7f, 0xf8, 0, 0, 0, 0, 0, 0]); AllEncodable([nan]) && SettledAll([nan]) == [Null]
  {
  }

  lemma SettledSame(vs: seq<Value>)
    requires forall i :: 0 <= i < |vs| ==> Encodable(vs[i])
    ensures SettledAll(vs) == vs <==> NoNaN(vs)
  {
    hide IsNaN;
    assert forall i :: 0 <= i < |vs| ==> SettledAll(vs)[i] == Settled(vs[i]);
    if NoNaN(vs) { assert SettledAll(vs) == vs; }
  }

  // ----- the lazy decoders -----

  /** Each column's serial type and the offset of its body. */
  function Entries(types: seq<nat>, pos: nat): (r: seq<(nat, nat)>)
    ensures |r| == |types|
  {
    if types == [] then [] else [(types[0], pos)] + Entries(types[1..], pos + SerialLen(types[0]))
  }

  /** `parse_header_into`. */
  function ParseHeader(payload: seq<Byte>): (r: Result<seq<(nat, nat)>, RecordError>) {
    match ReadHeader(payload)
    case Err(e) => Err(e)
    case Ok((headerLen, types)) => Ok(Entries(types, headerLen))
  }

  function ColumnOf(payload: seq<Byte>, entries: seq<(nat, nat)>, idx: nat): (r: Result<Value, RecordError>) {
    if idx >= |entries| then Ok(Null)
    else
      match DecodeValue(entries[idx].0, payload, entries[idx].1)
      case Err(e) => Err(e)
      case Ok((v, _)) => Ok(v)
  }

  function DecodeColumn(payload: seq<Byte>, idx: nat): (r: Result<Value, RecordError>) {
    match ParseHeader(payload)
    case Err(e) => Err(e)
    case Ok(entries) => ColumnOf(payload, entries, idx)
  }

  /** The columns at `wanted`, in that order, or the first error among them. */
  function ColumnsOf(payload: seq<Byte>, entries: seq<(nat, nat)>,
                     wanted: seq<nat>): (r: Result<seq<Value>, RecordError>) {
    if wanted == [] then Ok([])
    else
      match ColumnsOf(payload, entries, wanted[..|wanted| - 1])
      case Err(e) => Err(e)
      case Ok(vs) =>
        match ColumnOf(payload, entries, wanted[|wanted| - 1])
        case Err(e) => Err(e)
        case Ok(v) => Ok(vs + [v])
  }

  function UpTo(n: nat): (r: seq<nat>) { seq(n, i => i) }

  function DecodeUpto(payload: seq<Byte>, max: nat): (r: Result<seq<Value>, RecordError>) {
    match ParseHeader(payload)
    case Err(e) => Err(e)
    case Ok(entries) => ColumnsOf(payload, entries, UpTo(Min(max, |entries|)))
  }

  /** `decode_single_column` from column `col` on. */
  function SingleFrom(payload: seq<Byte>, pos: nat, headerLen: nat, bodyPos: nat, col: nat,
                      idx: nat): (r: Result<Value, RecordError>)
    decreases headerLen - pos
  {
    if pos >= headerLen then Ok(Null)
    else
      match VarintAt(payload, pos)
      case Err(e) => Err(e)
      case Ok((st, len)) =>
        if pos + len > headerLen then Err(HeaderOverrun)
        else if col == idx then
          match DecodeValue(st, payload, bodyPos)
          case Err(e) => Err(e)
          case Ok((v, _)) => Ok(v)
        else SingleFrom(payload, pos + len, headerLen, bodyPos + SerialLen(st), col + 1, idx)
  }

  function DecodeSingle(payload: seq<Byte>, idx: nat): (r: Result<Value, RecordError>) {
    match VarintAt(payload, 0)
    case Err(e) => Err(e)
    case Ok((headerLen, n)) =>
      if headerLen < n then Err(HeaderTooShort) else SingleFrom(payload, n, headerLen, headerLen, 0, idx)
  }

  function DecodeOnly(payload: seq<Byte>, wanted: seq<nat>): (r: Result<seq<Value>, RecordError>) {
    if |wanted| == 1 then
      match DecodeSingle(payload, wanted[0])
      case Err(e) => Err(e)
      case Ok(v) => Ok([v])
    else
      match ParseHeader(payload)
      case Err(e) => Err(e)
      case Ok(entries) => ColumnsOf(payload, entries, wanted)
  }

  // ----- they agree -----

  /** Column `i` of a decoded record is at the offset its entry says. */
  lemma {:induction false} EntryDecodes(types: seq<nat>, payload: seq<Byte>, pos: nat, i: nat)
    requires ReadBodies(types, payload, pos).Ok? && i < |types|
    ensures var e := Entries(types, pos)[i];
            DecodeValue(e.0, payload, e.1).Ok? && DecodeValue(e.0, payload, e.1).value.0 ==
              ReadBodies(types, payload, pos).value.0[i]
  {
    hide DecodeValue;
    if i > 0 { EntryDecodes(types[1..], payload, pos + SerialLen(types[0]), i - 1); }
  }

  function ValueAt(vs: seq<Value>, idx: nat): (v: Value) { if idx < |vs| then vs[idx] else Null }

  lemma ColumnAgrees(payload: seq<Byte>, idx: nat)
    requires DecodeRecord(payload).Ok?
    ensures ParseHeader(payload).Ok? && |ParseHeader(payload).value| == |DecodeRecord(payload).value|
    ensures ColumnOf(payload, ParseHeader(payload).value, idx) == Ok(ValueAt(DecodeRecord(payload).value, idx))
    ensures DecodeColumn(payload, idx) == Ok(ValueAt(DecodeRecord(payload).value, idx))
  {
    hide DecodeValue, ReadHeader;
    var types := ReadHeader(payload).value.1;
    if idx < |types| { EntryDecodes(types, payload, ReadHeader(payload).value.0, idx); }
  }

  lemma {:induction false} ColumnsAgree(payload: seq<Byte>, wanted: seq<nat>)
    requires DecodeRecord(payload).Ok?
    ensures ParseHeader(payload).Ok?
    ensures ColumnsOf(payload, ParseHeader(payload).value, wanted) ==
            Ok(seq(|wanted|, i requires 0 <= i < |wanted| => ValueAt(DecodeRecord(payload).value, wanted[i])))
  {
    hide DecodeRecord, ParseHeader, ColumnOf, ValueAt;
    ColumnAgrees(payload, 0);
    var vs := DecodeRecord(payload).value;
    var all := seq(|wanted|, i requires 0 <= i < |wanted| => ValueAt(vs, wanted[i]));
    if wanted == [] {
      assert all == [];
    } else {
      var n := |wanted| - 1;
      ColumnsAgree(payload, wanted[..n]);
      ColumnAgrees(payload, wanted[n]);
      assert all == seq(n, i requires 0 <= i < n => ValueAt(vs, wanted[..n][i])) + [ValueAt(vs, wanted[n])];
    }
  }

  /** The single-column walk stops early but reads the same column. */
  lemma {:induction false} SingleAgrees(payload: seq<Byte>, pos: nat, headerLen: nat, bodyPos: nat, col: nat, idx: nat)
    requires ReadTypes(payload, pos, headerLen).Ok? && col <= idx
    ensures SingleFrom(payload, pos, headerLen, bodyPos, col, idx) ==
            ColumnOf(payload, Entries(ReadTypes(payload, pos, headerLen).value, bodyPos), idx - col)
    decreases headerLen - pos
  {
    hide DecodeValue, VarintAt;
    if pos < headerLen {
      var st, len := VarintAt(payload, pos).value.0, VarintAt(payload, pos).value.1;
      if col < idx { SingleAgrees(payload, pos + len, headerLen, bodyPos + SerialLen(st), col + 1, idx); }
    }
  }

  /** Whenever the whole record decodes, every lazy decoder agrees with it at every column. */
  lemma LazyAgrees(payload: seq<Byte>, idx: nat, max: nat, wanted: seq<nat>)
    requires DecodeRecord(payload).Ok?
    ensures var vs := DecodeRecord(payload).value;
            && DecodeColumn(payload, idx) == DecodeSingle(payload, idx) == Ok(ValueAt(vs, idx))
            && DecodeUpto(payload, max) == Ok(vs[..Min(max, |vs|)])
            && DecodeOnly(payload, wanted) == Ok(seq(|wanted|, i requires 0 <= i < |wanted| => ValueAt(vs, wanted[i])))
  {
    hide ReadTypes, ReadBodies, VarintAt, DecodeValue, SingleFrom, ColumnsOf;
    var vs := DecodeRecord(payload).value;
    ColumnAgrees(payload, idx);
    SingleIsColumn(payload, idx);
    var k := Min(max, |vs|);
    ColumnsAgree(payload, UpTo(k));
    assert vs[..k] == seq(k, i requires 0 <= i < k => ValueAt(vs, UpTo(k)[i]));
    ColumnsAgree(payload, wanted);
    if |wanted| == 1 {
      SingleIsColumn(payload, wanted[0]);
      ColumnAgrees(payload, wanted[0]);
      assert [ValueAt(vs, wanted[0])] == seq(1, i requires 0 <= i < 1 => ValueAt(vs, wanted[i]));
    }
  }

  lemma SingleIsColumn(payload: seq<Byte>, idx: nat)
    requires ReadHeader(payload).Ok?
    ensures DecodeSingle(payload, idx) == DecodeColumn(payload, idx)
  {
    hide ReadTypes, VarintAt, DecodeValue, SingleFrom;
    var headerLen, n := VarintAt(payload, 0).value.0, VarintAt(payload, 0).value.1;
    SingleAgrees(payload, n, headerLen, headerLen, 0, idx);
  }
}
