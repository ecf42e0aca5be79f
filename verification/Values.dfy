/** Column values and their big-endian bodies (section 2.1 of the SQLite Database File Format). */
module Values {
  import opened Bytes

  type I64 = v: int | -0x8000_0000_0000_0000 <= v < 0x8000_0000_0000_0000

  /** Text holds its encoded bytes, reals their eight bytes. */
  datatype Value = Null | Integer(i: I64) | Real(bits: seq<Byte>) | Text(text: seq<Byte>) | Blob(blob: seq<Byte>)

  // ----- integers -----

  function Pow256(n: nat): (r: nat)
    ensures r > 0
  {
    if n == 0 then 1 else 256 * Pow256(n - 1)
  }

  lemma Pow256Values()
    ensures Pow256(1) == 0x100 && Pow256(2) == 0x1_0000 && Pow256(3) == 0x100_0000 && Pow256(4) == 0x1_0000_0000
    ensures Pow256(6) == 0x1_0000_0000_0000 && Pow256(8) == 0x1_0000_0000_0000_0000
  {
    assert Pow256(4) == 256 * (256 * (256 * (256 * Pow256(0))));
    assert Pow256(6) == 256 * (256 * Pow256(4));
    assert Pow256(8) == 256 * (256 * Pow256(6));
  }

  /** The low `n` bytes of `v`, most significant first. */
  function BeBytes(v: nat, n: nat): (r: seq<Byte>)
    ensures |r| == n
  {
    if n == 0 then [] else BeBytes(v / 256, n - 1) + [v % 256]
  }

  function FromBe(s: seq<Byte>): (v: nat) {
    if s == [] then 0 else 256 * FromBe(s[..|s| - 1]) + s[|s| - 1]
  }

  lemma {:induction false} BeRoundTrip(v: nat, n: nat)
    requires v < Pow256(n)
    ensures FromBe(BeBytes(v, n)) == v
  {
    if n > 0 {
      BeRoundTrip(v / 256, n - 1);
      assert BeBytes(v, n)[..n - 1] == BeBytes(v / 256, n - 1);
    }
  }

  /** Two's complement on `n` bytes. */
  function IntBody(i: int, n: nat): (r: seq<Byte>)
    ensures |r| == n
  {
    BeBytes(i % Pow256(n), n)
  }

  /** Sign-extended from the top bit of the first byte. */
  function SignedOf(s: seq<Byte>): (i: int)
    requires s != []
  {
    if s[0] >= 128 then FromBe(s) - Pow256(|s|) else FromBe(s)
  }

  lemma Split256(v: nat, n: nat)
    requires n >= 1
    ensures BeBytes(v, n) == BeBytes(v / 256, n - 1) + [v % 256] && Pow256(n) == 256 * Pow256(n - 1)
  {
  }

  lemma {:induction false} TopByte(v: nat, n: nat)
    requires n >= 1 && v < Pow256(n)
    ensures BeBytes(v, n)[0] >= 128 <==> 2 * v >= Pow256(n)
  {
    Split256(v, n);
    if n == 1 {
      assert BeBytes(v / 256, 0) == [] && Pow256(0) == 1;
    } else {
      hide BeBytes, Pow256;
      EvenHalf(n - 1);
      TopByte(v / 256, n - 1);
    }
  }

  lemma EvenHalf(n: nat)
    requires n >= 1
    ensures Pow256(n) % 2 == 0
  {
  }

  /** A signed integer that fits comes back from its body. */
  lemma IntRoundTrip(i: int, n: nat)
    requires n >= 1 && 0 <= 2 * i + Pow256(n) && 2 * i < Pow256(n)
    ensures SignedOf(IntBody(i, n)) == i
  {
    var p := Pow256(n);
    var v := i % p;
    assert v == if i < 0 then i + p else i by { ModShift(i, p); }
    BeRoundTrip(v, n);
    TopByte(v, n);
  }

  lemma ModShift(i: int, p: nat)
    requires p > 0 && 0 <= 2 * i + p && 2 * i < p
    ensures i % p == if i < 0 then i + p else i
  {
    var q, r := i / p, i % p;
    assert i == p * q + r;
    assert q >= 1 ==> p * q >= p;
    assert q <= -2 ==> p * q <= -2 * p;
    assert q == -1 ==> p * q + p == 0;
  }

  // ----- reals -----

  /** All exponent bits set and a nonzero fraction. */
  predicate IsNaN(bits: seq<Byte>) {
    |bits| == 8 && bits[0] % 128 == 127 && bits[1] >= 240 &&
      (bits[1] % 16 != 0 || exists k :: 2 <= k < 8 && bits[k] != 0)
  }
}
