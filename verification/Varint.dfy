/** SQLite variable-length integers: big-endian groups of 7 bits with a continuation flag, at most
    8 of them, then one full byte. */
module Varint {
  import opened Bytes

  type U64 = v: int | 0 <= v < 0x1_0000_0000_0000_0000

  const TWO56 := 0x100_0000_0000_0000

  datatype VarintError = UnexpectedEof(offset: nat)

  /** 128 to the power `g`. */
  function Pow128(g: nat): (r: nat)
    ensures r > 0
  {
    if g == 0 then 1 else 128 * Pow128(g - 1)
  }

  // ----- decoding -----

  /** Continues at byte `i` with the groups so far accumulated in `acc`. */
  function DecodeFrom(buf: seq<Byte>, i: nat, acc: nat): (r: Result<(nat, nat), VarintError>)
    requires i <= 8
    ensures r.Ok? ==> i < r.value.1 <= 9 && r.value.1 <= |buf|
    ensures r.Err? ==> |buf| <= 8 && r.error.offset == Max(i, |buf|)
    decreases 8 - i
  {
    if i >= |buf| then Err(UnexpectedEof(i))
    else if i == 8 then Ok((256 * acc + buf[8], 9))
    else if buf[i] < 128 then Ok((128 * acc + buf[i], i + 1))
    else DecodeFrom(buf, i + 1, 128 * acc + buf[i] % 128)
  }

  function Decode(buf: seq<Byte>): (r: Result<(nat, nat), VarintError>)
    ensures r.Ok? ==> 1 <= r.value.1 <= 9 && r.value.1 <= |buf|
  {
    DecodeFrom(buf, 0, 0)
  }

  lemma DecodeSteps(buf: seq<Byte>, i: nat, acc: nat)
    requires i <= 8
    ensures i >= |buf| ==> DecodeFrom(buf, i, acc) == Err(UnexpectedEof(i))
    ensures i < 8 && i < |buf| && buf[i] < 128 ==> DecodeFrom(buf, i, acc) == Ok((128 * acc + buf[i], i + 1))
    ensures i < 8 && i < |buf| && buf[i] >= 128 ==>
            DecodeFrom(buf, i, acc) == DecodeFrom(buf, i + 1, 128 * acc + buf[i] % 128)
    ensures i == 8 && i < |buf| ==> DecodeFrom(buf, i, acc) == Ok((256 * acc + buf[8], 9))
  {
  }

  /** `decode_varint`. */
  method DecodeVarint(buf: seq<Byte>) returns (r: Result<(nat, nat), VarintError>)
    ensures r == Decode(buf)
  {
    hide DecodeFrom;
    var acc: nat := 0;
    var i := 0;
    while i < 8
      invariant 0 <= i <= 8
      invariant DecodeFrom(buf, i, acc) == Decode(buf)
    {
      DecodeSteps(buf, i, acc);
      if i >= |buf| {
        return Err(UnexpectedEof(i));
      }
      if buf[i] < 128 {
        return Ok((128 * acc + buf[i], i + 1));
      }
      acc := 128 * acc + buf[i] % 128;
      i := i + 1;
    }
    DecodeSteps(buf, 8, acc);
    if |buf| <= 8 {
      return Err(UnexpectedEof(8));
    }
    r := Ok((256 * acc + buf[8], 9));
  }

  /** Decoding looks only at the bytes it consumes. */
  lemma {:induction false} DecodeLocal(a: seq<Byte>, b: seq<Byte>, i: nat, acc: nat)
    requires i <= 8 && DecodeFrom(a, i, acc).Ok?
    requires var n := DecodeFrom(a, i, acc).value.1; n <= |b| && a[..n] == b[..n]
    ensures DecodeFrom(b, i, acc) == DecodeFrom(a, i, acc)
    decreases 8 - i
  {
    hide DecodeFrom;
    var n := DecodeFrom(a, i, acc).value.1;
    assert a[i] == a[..n][i] == b[i];
    DecodeSteps(a, i, acc);
    DecodeSteps(b, i, acc);
    if i < 8 && a[i] >= 128 { DecodeLocal(a, b, i + 1, 128 * acc + a[i] % 128); }
  }

  lemma {:induction false} LongIsSmall(buf: seq<Byte>, i: nat, acc: nat)
    requires i <= 8 && DecodeFrom(buf, i, acc).Ok? && acc < Pow128(i)
    ensures DecodeFrom(buf, i, acc).value.1 == 9 ==> DecodeFrom(buf, i, acc).value.0 < 256 * Pow128(8)
    decreases 8 - i
  {
    hide DecodeFrom;
    DecodeSteps(buf, i, acc);
    if i < 8 && buf[i] >= 128 { LongIsSmall(buf, i + 1, 128 * acc + buf[i] % 128); }
  }

  /** A decoded value fits 64 bits. */
  lemma DecodeFits(buf: seq<Byte>)
    requires Decode(buf).Ok?
    ensures Decode(buf).value.0 < 0x1_0000_0000_0000_0000
  {
    LongIsSmall(buf, 0, 0);
    ShortIsSmall(buf, 0, 0);
    PowValues();
    if Decode(buf).value.1 <= 8 { PowMono(Decode(buf).value.1, 8); }
  }

  // ----- encoding -----

  /** The `g` low 7-bit groups of `v`, most significant first. */
  function Groups(v: nat, g: nat): (r: seq<Byte>)
    ensures |r| == g && forall i :: 0 <= i < g ==> r[i] < 128
  {
    if g == 0 then [] else Groups(v / 128, g - 1) + [v % 128]
  }

  function Flagged(s: seq<Byte>): (r: seq<Byte>)
    requires forall i :: 0 <= i < |s| ==> s[i] < 128
    ensures |r| == |s| && forall i :: 0 <= i < |s| ==> r[i] == s[i] + 128
  {
    seq(|s|, i requires 0 <= i < |s| => s[i] + 128)
  }

  /** The fewest groups that hold `v`, from `g` up. */
  function GroupsNeeded(v: nat, g: nat): (r: nat)
    requires 1 <= g <= 8
    ensures g <= r <= 8 && (r < 8 ==> v < Pow128(r)) && (r > g ==> v >= Pow128(r - 1))
    decreases 8 - g
  {
    if g < 8 && v >= Pow128(g) then GroupsNeeded(v, g + 1) else g
  }

  function VarintLen(v: U64): (n: nat)
    ensures 1 <= n <= 9
  {
    if v < TWO56 then GroupsNeeded(v, 1) else 9
  }

  function Encode(v: U64): (r: seq<Byte>)
    ensures |r| == VarintLen(v)
  {
    if v < TWO56 then
      var s := Groups(v, VarintLen(v));
      Flagged(s[..|s| - 1]) + [s[|s| - 1]]
    else Flagged(Groups(v / 256, 8)) + [v % 256]
  }

  lemma PowValues()
    ensures Pow128(8) == TWO56
  {
    assert Pow128(2) == 16384;
    assert Pow128(4) == 0x1000_0000;
    assert Pow128(6) == 0x400_0000_0000;
  }

  lemma PowStep(g: nat)
    ensures Pow128(g + 1) == 128 * Pow128(g)
  {
  }

  lemma {:induction false} PowMono(a: nat, b: nat)
    requires a <= b
    ensures Pow128(a) <= Pow128(b)
  {
    if a < b { PowMono(a, b - 1); }
  }

  /** Shifting out `k` groups leaves the higher ones. */
  function Shifted(v: nat, k: nat): (r: nat) { if k == 0 then v else Shifted(v / 128, k - 1) }

  lemma {:induction false} ShiftStep(v: nat, k: nat)
    ensures Shifted(v, k + 1) == Shifted(v, k) / 128
  {
    if k > 0 { ShiftStep(v / 128, k - 1); }
  }

  lemma {:induction false} GroupAt(v: nat, g: nat, i: nat)
    requires i < g
    ensures Groups(v, g)[i] == Shifted(v, g - 1 - i) % 128
  {
    if i < g - 1 { GroupAt(v / 128, g - 1, i); }
  }

  lemma {:induction false} ShiftSmall(v: nat, k: nat)
    requires v < Pow128(k)
    ensures Shifted(v, k) == 0
  {
    if k > 0 { ShiftSmall(v / 128, k - 1); }
  }

  lemma Regroup(s: nat)
    ensures 128 * (s / 128) + (s % 128 + 128) % 128 == s
  {
  }

  lemma DecodeFlagged(buf: seq<Byte>, i: nat, s: nat)
    requires i < 8 && i < |buf| && buf[i] == s % 128 + 128
    ensures DecodeFrom(buf, i, s / 128) == DecodeFrom(buf, i + 1, s)
  {
    hide DecodeFrom;
    DecodeSteps(buf, i, s / 128);
    Regroup(s);
  }

  /** Decoding a flagged run of groups accumulates the value they spell. */
  lemma {:induction false} DecodeGroups(buf: seq<Byte>, v: nat, g: nat, i: nat)
    requires i <= g <= 8 && g <= |buf|
    requires forall j :: i <= j < g ==> buf[j] == Groups(v, g)[j] + 128
    ensures DecodeFrom(buf, i, Shifted(v, g - i)) == DecodeFrom(buf, g, v)
    decreases g - i
  {
    assert Shifted(v, 0) == v;
    hide DecodeFrom, Groups, Shifted;
    if i < g {
      GroupAt(v, g, i);
      ShiftStep(v, g - i - 1);
      var s := Shifted(v, g - i - 1);
      DecodeFlagged(buf, i, s);
      DecodeGroups(buf, v, g, i + 1);
    }
  }

  /** Round trip over all of `u64`, whatever follows the encoding. */
  lemma RoundTrip(v: U64, rest: seq<Byte>)
    ensures Decode(Encode(v) + rest) == Ok((v, |Encode(v)|))
  {
    hide DecodeFrom, Encode;
    if v < TWO56 { RoundTripShort(v, rest); } else { RoundTripLong(v, rest); }
  }

  lemma RoundTripShort(v: U64, rest: seq<Byte>)
    requires v < TWO56
    ensures Decode(Encode(v) + rest) == Ok((v, |Encode(v)|))
  {
    hide DecodeFrom, Groups, Shifted, Pow128, VarintLen;
    var buf, g, high := Encode(v) + rest, VarintLen(v), v / 128;
    GroupCount(v);
    SplitLast(v, g);
    assert forall j :: 0 <= j < g - 1 ==> buf[j] == Groups(high, g - 1)[j] + 128;
    HighFits(v, g);
    ShiftSmall(high, g - 1);
    DecodeGroups(buf, high, g - 1, 0);
    assert buf[g - 1] == v % 128;
    DecodeSteps(buf, g - 1, high);
  }

  lemma GroupCount(v: U64)
    requires v < TWO56
    ensures VarintLen(v) <= 8 && v < Pow128(VarintLen(v))
  {
    PowValues();
  }

  lemma RoundTripLong(v: U64, rest: seq<Byte>)
    requires v >= TWO56
    ensures Decode(Encode(v) + rest) == Ok((v, |Encode(v)|))
  {
    hide DecodeFrom, Groups, Shifted, Pow128;
    var buf, high := Encode(v) + rest, v / 256;
    PowValues();
    assert forall j :: 0 <= j < 8 ==> buf[j] == Groups(high, 8)[j] + 128;
    ShiftSmall(high, 8);
    DecodeGroups(buf, high, 8, 0);
    DecodeSteps(buf, 8, high);
  }

  lemma SplitLast(v: nat, g: nat)
    requires g > 0
    ensures Groups(v, g) == Groups(v / 128, g - 1) + [v % 128]
  {
  }

  lemma HighFits(v: nat, g: nat)
    requires g > 0 && v < Pow128(g)
    ensures v / 128 < Pow128(g - 1)
  {
  }

  /** No shorter run of bytes decodes to `v`: the encoding is minimal. */
  lemma EncodingMinimal(v: U64, buf: seq<Byte>)
    requires Decode(buf).Ok? && Decode(buf).value.0 == v
    ensures |Encode(v)| <= Decode(buf).value.1
  {
    var n := Decode(buf).value.1;
    if n <= 8 {
      ShortIsSmall(buf, 0, 0);
      PowMono(n, 8);
      PowValues();
      if VarintLen(v) > n { PowMono(n, VarintLen(v) - 1); }
    }
  }

  lemma {:induction false} ShortIsSmall(buf: seq<Byte>, i: nat, acc: nat)
    requires i <= 8 && DecodeFrom(buf, i, acc).Ok? && acc < Pow128(i)
    ensures DecodeFrom(buf, i, acc).value.1 <= 8 ==> DecodeFrom(buf, i,
                                                acc).value.0 < Pow128(DecodeFrom(buf, i, acc).value.1)
    decreases 8 - i
  {
    hide DecodeFrom, Pow128;
    DecodeSteps(buf, i, acc);
    PowStep(i);
    if i < 8 && buf[i] >= 128 { ShortIsSmall(buf, i + 1, 128 * acc + buf[i] % 128); }
  }

  /** `write_varint_into`: the group count by trial, then the groups by shifting. */
  method WriteVarint(v: U64, out: seq<Byte>) returns (r: seq<Byte>)
    ensures r == out + Encode(v)
  {
    if v < TWO56 {
      var groups := 1;
      while groups < 8 && v >= Pow128(groups)
        invariant 1 <= groups <= 8
        invariant GroupsNeeded(v, groups) == GroupsNeeded(v, 1)
      {
        groups := groups + 1;
      }
      r := WriteGroups(v, groups, groups - 1, out);
      ghost var s := Groups(v, groups);
      assert Encode(v) == Flagged(s[..groups - 1]) + [s[groups - 1]];
    } else {
      r := WriteGroups(v / 256, 8, 8, out);
      assert Groups(v / 256, 8)[..8] == Groups(v / 256, 8);
      r := r + [v % 256];
    }
  }

  /** The groups of `v` from the top, the first `flagged` of them with the continuation bit. */
  method WriteGroups(v: nat, groups: nat, flagged: nat, out: seq<Byte>) returns (r: seq<Byte>)
    requires groups - 1 <= flagged <= groups && groups >= 1
    ensures r == out + Flagged(Groups(v, groups)[..flagged]) + Groups(v, groups)[flagged..]
  {
    hide Groups, Shifted;
    ghost var s := Groups(v, groups);
    ghost var all := Flagged(s[..flagged]) + s[flagged..];
    r := out;
    var i := 0;
    while i < groups
      invariant 0 <= i <= groups == |all|
      invariant r == out + all[..i]
    {
      GroupAt(v, groups, i);
      var byte := Shifted(v, groups - 1 - i) % 128;
      assert all[..i + 1] == all[..i] + [all[i]];
      r := r + [if i < flagged then byte + 128 else byte];
      i := i + 1;
    }
    assert all[..groups] == all;
  }
}
