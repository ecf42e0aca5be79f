/** Bytes, big-endian fields and the effect of positioned writes on a file's contents. */
module Bytes {

  type Byte = b: int | 0 <= b < 256
  type U16 = v: int | 0 <= v < 0x1_0000
  type U32 = v: int | 0 <= v < 0x1_0000_0000

  datatype Option<+T> = None | Some(value: T)
  datatype Result<+T, +E> = Ok(value: T) | Err(error: E)

  const U32_MAX: U32 := 0xFFFF_FFFF

  function Min(a: int, b: int): int { if a <= b then a else b }
  function Max(a: int, b: int): int { if a >= b then a else b }

  /** `n * k`, in a form that keeps proofs about offsets linear. */
  function Times(n: nat, k: nat): (r: nat) { if n == 0 then 0 else Times(n - 1, k) + k }

  lemma {:induction false} TimesIsProduct(n: nat, k: nat)
    ensures Times(n, k) == n * k
  {
    if n > 0 {
      TimesIsProduct(n - 1, k);
      assert n * k == (n - 1) * k + k;
    }
  }

  lemma {:induction false} TimesMono(m: nat, n: nat, k: nat)
    requires m <= n
    ensures Times(m, k) <= Times(n, k)
    ensures m < n ==> Times(m, k) + k <= Times(n, k)
  {
    if m < n { TimesMono(m, n - 1, k); }
  }

  lemma TimesDiv(n: nat, k: nat, rest: nat)
    requires rest < k
    ensures (Times(n, k) + rest) / k == n
  {
    hide Times;
    var x := Times(n, k) + rest;
    var q := x / k;
    assert x == q * k + x % k;
    TimesIsProduct(q, k);
    if q < n { TimesMono(q, n, k); }
    if n < q { TimesMono(n, q, k); }
  }

  function Zeros(n: nat): (s: seq<Byte>)
    ensures |s| == n
    ensures forall i :: 0 <= i < n ==> s[i] == 0
  {
    seq(n, _ => 0)
  }

  function Be16(v: U16): (s: seq<Byte>)
    ensures |s| == 2
  {
    [v / 0x100, v % 0x100]
  }

  function Be32(v: U32): (s: seq<Byte>)
    ensures |s| == 4
  {
    [v / 0x100_0000, v / 0x1_0000 % 0x100, v / 0x100 % 0x100, v % 0x100]
  }

  function ReadBe16(s: seq<Byte>, off: nat): (v: U16)
    requires off + 2 <= |s|
  {
    0x100 * (s[off] as int) + s[off + 1]
  }

  function ReadBe32(s: seq<Byte>, off: nat): (v: U32)
    requires off + 4 <= |s|
  {
    0x100_0000 * (s[off] as int) + 0x1_0000 * (s[off + 1] as int) + 0x100 * (s[off + 2] as int) + s[off + 3]
  }

  /** Reading a field that holds a big-endian value gives the value back. */
  lemma ReadBe32Of(s: seq<Byte>, off: nat, v: U32)
    requires off + 4 <= |s| && s[off..off + 4] == Be32(v)
    ensures ReadBe32(s, off) == v
  {
    var f := s[off..off + 4];
    assert f[0] == s[off] && f[1] == s[off + 1] && f[2] == s[off + 2] && f[3] == s[off + 3];
    assert v / 0x1_0000 == v / 0x100_0000 * 0x100 + v / 0x1_0000 % 0x100;
    assert v / 0x100 == v / 0x1_0000 * 0x100 + v / 0x100 % 0x100;
  }

  lemma Be32OfRead(s: seq<Byte>, off: nat)
    requires off + 4 <= |s|
    ensures Be32(ReadBe32(s, off)) == s[off..off + 4]
  {
    var a, b, c, d := s[off] as int, s[off + 1] as int, s[off + 2] as int, s[off + 3] as int;
    var v := ReadBe32(s, off);
    assert v == 0x100 * (0x1_0000 * a + 0x100 * b + c) + d;
    assert v / 0x100 == 0x1_0000 * a + 0x100 * b + c && v % 0x100 == d;
    assert v / 0x1_0000 == 0x100 * a + b;
    assert v / 0x100_0000 == a;
  }

  lemma ReadBe16Of(s: seq<Byte>, off: nat, v: U16)
    requires off + 2 <= |s| && s[off..off + 2] == Be16(v)
    ensures ReadBe16(s, off) == v
  {
    var f := s[off..off + 2];
    assert f[0] == s[off] && f[1] == s[off + 1];
  }

  lemma SubSlice<T>(s: seq<T>, off: nat, len: nat, a: nat, b: nat)
    requires a <= b <= len && off + len <= |s|
    ensures s[off..off + len][a..b] == s[off + a..off + b]
  {
    var x, y := s[off..off + len][a..b], s[off + a..off + b];
    assert |x| == |y|;
    forall i | 0 <= i < |y| ensures x[i] == y[i] {
    }
  }

  /** `write_at`: overwrites `[off, off + |bytes|)`, growing the file with zeros if it is too short. */
  function WriteAt(data: seq<Byte>, off: nat, bytes: seq<Byte>): (r: seq<Byte>)
    ensures |r| == Max(|data|, off + |bytes|)
    ensures forall i :: 0 <= i < |r| ==>
      r[i] == if off <= i < off + |bytes| then bytes[i - off] else if i < |data| then data[i] else 0
  {
    var grown := Resize(data, Max(|data|, off + |bytes|));
    grown[..off] + bytes + grown[off + |bytes|..]
  }

  lemma WriteAtSlices(data: seq<Byte>, off: nat, bytes: seq<Byte>, a: nat, e: nat)
    requires a <= e <= |WriteAt(data, off, bytes)|
    ensures var r := WriteAt(data, off, bytes);
            && r[off..off + |bytes|] == bytes
            && ((e <= off || off + |bytes| <= a) && e <= |data| ==> r[a..e] == data[a..e])
            && ((e <= off || off + |bytes| <= a) && |data| <= a ==> r[a..e] == Zeros(e - a))
  {
  }

  /** `truncate`: cuts the file to `len` bytes, or extends it with zeros. */
  function Resize(data: seq<Byte>, len: nat): (r: seq<Byte>)
    ensures |r| == len
    ensures forall i :: 0 <= i < len ==> r[i] == if i < |data| then data[i] else 0
  {
    if len <= |data| then data[..len] else data + Zeros(len - |data|)
  }

  function Reversed<T>(s: seq<T>): (r: seq<T>)
    ensures |r| == |s| && forall i :: 0 <= i < |s| ==> r[i] == s[|s| - 1 - i]
  {
    seq(|s|, i requires 0 <= i < |s| => s[|s| - 1 - i])
  }

  lemma ReversedConcat<T>(a: seq<T>, b: seq<T>)
    ensures Reversed(a + b) == Reversed(b) + Reversed(a)
  {
    var x, y := Reversed(a + b), Reversed(b) + Reversed(a);
    forall i | 0 <= i < |x| ensures x[i] == y[i] {
    }
  }

  // ----- writing bytes in place -----

  function Put(page: seq<Byte>, off: nat, bytes: seq<Byte>): (r: seq<Byte>)
    requires off + |bytes| <= |page|
    ensures |r| == |page|
    ensures forall i :: 0 <= i < |page| ==> r[i] == if off <= i < off + |bytes| then bytes[i - off] else page[i]
  {
    page[..off] + bytes + page[off + |bytes|..]
  }

  lemma PutReads(page: seq<Byte>, off: nat, bytes: seq<Byte>, x: nat)
    requires off + |bytes| <= |page| && x + 2 <= |page|
    ensures x + 2 <= off || off + |bytes| <= x ==> ReadBe16(Put(page, off, bytes), x) == ReadBe16(page, x)
    ensures forall v: U16 :: off == x && bytes == Be16(v) ==> ReadBe16(Put(page, off, bytes), x) == v
  {
  }

  lemma PutSlices(page: seq<Byte>, off: nat, bytes: seq<Byte>, a: nat, e: nat)
    requires off + |bytes| <= |page| && a <= e <= |page|
    ensures Put(page, off, bytes)[off..off + |bytes|] == bytes
    ensures e <= off || off + |bytes| <= a ==> Put(page, off, bytes)[a..e] == page[a..e]
  {
  }

  /** Two pages with the same tail have the same slices in it. */
  lemma SliceOfTail(p: seq<Byte>, q: seq<Byte>, x: nat, a: nat, e: nat)
    requires x <= a <= e <= |p| == |q| && p[x..] == q[x..]
    ensures p[a..e] == q[a..e]
  {
    forall i | a <= i < e ensures p[i] == q[i] { assert p[x..][i - x] == q[x..][i - x]; }
  }

  lemma Be16OfSlice(p: seq<Byte>, q: seq<Byte>, a: nat, e: nat, x: nat)
    requires a <= x && x + 2 <= e <= |p| == |q| && p[a..e] == q[a..e]
    ensures ReadBe16(p, x) == ReadBe16(q, x)
  {
    assert p[x] == p[a..e][x - a] == q[x] && p[x + 1] == p[a..e][x + 1 - a] == q[x + 1];
  }
}
