/** The log's running checksum in closed form: a sum of the words, each weighted by a Fibonacci number. */
module WalSums {
  import opened Bytes
  import opened Wal

  const WRAP := 0x1_0000_0000

  function Fib(n: nat): (r: nat) { if n < 2 then n else Fib(n - 1) + Fib(n - 2) }

  /** The number before `Fib(n)`: 1, 0, 1, 1, 2, 3, ... */
  function Before(n: nat): (r: nat) { if n == 0 then 1 else Fib(n - 1) }

  /** The whole words, eight bytes at a time; what is left over does not count. */
  function Words(native: bool, data: seq<Byte>, off: nat): (r: seq<U32>)
    decreases |data| - off
  {
    if off + 8 <= |data| then [Word(native, data, off), Word(native, data, off + 4)] + Words(native, data, off + 8)
    else []
  }

  /** Word `k` of `n` weighs `Fib(n - 1 - k + d)`. */
  function Weighted(ws: seq<U32>, d: nat): (r: nat) {
    if ws == [] then 0 else ws[0] * Fib(|ws| - 1 + d) + Weighted(ws[1..], d)
  }

  function Combined(a: int, p: int, b: int, q: int, y: int): (r: U32) { (a * p + b * q + y) % WRAP }

  /** What the checksum comes to. */
  function ClosedForm(ws: seq<U32>, init: Sum): (r: Sum) {
    var n := |ws|;
    (Combined(init.0, Before(n), init.1, Fib(n), Weighted(ws, 0)),
     Combined(init.0, Fib(n), init.1, Fib(n + 1), Weighted(ws, 1)))
  }

  // ----- arithmetic modulo 2^32 -----

  lemma {:induction false} Wraps(y: int, k: int)
    ensures (y + WRAP * k) % WRAP == y % WRAP
  {
  }

  lemma Reduce(x: int, g: int, y: int)
    ensures (x % WRAP * g + y) % WRAP == (x * g + y) % WRAP
  {
    var q, r := x / WRAP, x % WRAP;
    assert x * g == (WRAP * q + r) * g == WRAP * (q * g) + r * g;
    Wraps(r * g + y, q * g);
  }

  lemma ReduceBoth(x: int, g: int, z: int, f: int, y: int)
    ensures Combined(x % WRAP, g, z % WRAP, f, y) == Combined(x, g, z, f, y)
  {
    Reduce(x, g, z % WRAP * f + y);
    Reduce(z, f, x * g + y);
  }

  /** One step moves each part of the sum two Fibonacci places. */
  lemma Spread(a: int, b: int, w0: int, w1: int, g: int, f: int, y: int, p: int, q: int)
    requires p == g + f && q == g + f + f
    ensures var x := a + w0 + b; Combined(x, g, b + w1 + x, f, y) == Combined(a, p, b, q, w0 * p + w1 * f + y)
  {
    assert (a + w0 + b) * g == a * g + w0 * g + b * g;
    assert (b + w1 + (a + w0 + b)) * f == b * f + w1 * f + a * f + w0 * f + b * f;
    assert a * p == a * g + a * f && w0 * p == w0 * g + w0 * f && b * q == b * g + b * f + b * f;
  }

  lemma StepSum(a: int, b: int, w0: int, w1: int, g: int, f: int, y: int, p: int, q: int)
    requires p == g + f && q == g + f + f
    ensures var s1 := (a + w0 + b) % WRAP; var s2 := (b + w1 + s1) % WRAP;
            Combined(s1, g, s2, f, y) == Combined(a, p, b, q, w0 * p + w1 * f + y)
  {
    hide Combined;
    var x := a + w0 + b;
    assert (b + w1 + x % WRAP) % WRAP == (b + w1 + x) % WRAP by { Reduce(x, 1, b + w1); }
    ReduceBoth(x, g, b + w1 + x, f, y);
    Spread(a, b, w0, w1, g, f, y, p, q);
  }

  // ----- the sum -----

  lemma FibStep(n: nat)
    ensures Fib(n + 2) == Fib(n + 1) + Fib(n)
    ensures Before(n + 1) == Fib(n) && Before(n + 2) == Before(n + 1) + Before(n)
  {
  }

  lemma WeightedStep(w0: U32, w1: U32, ws: seq<U32>, d: nat, p: int, f: int)
    requires p == Fib(|ws| + 1 + d) && f == Fib(|ws| + d)
    ensures Weighted([w0, w1] + ws, d) == w0 * p + w1 * f + Weighted(ws, d)
  {
    hide Fib;
    var all := [w0, w1] + ws;
    assert all[1..] == [w1] + ws && all[1..][1..] == ws;
  }

  lemma {:induction false} FoldIsClosed(native: bool, data: seq<Byte>, off: nat, s: Sum)
    ensures ChecksumFrom(native, data, off, s) == ClosedForm(Words(native, data, off), s)
    decreases |data| - off
  {
    hide Mix, Word, ClosedForm;
    if off + 8 <= |data| {
      var rest, w0, w1 := Words(native, data, off + 8), Word(native, data, off), Word(native, data, off + 4);
      FoldIsClosed(native, data, off + 8, Mix(native, data, off, s));
      MixIs(native, data, off, s);
      StepIsClosed(w0, w1, rest, s);
    } else {
      NoWords(s);
    }
  }

  lemma NoWords(s: Sum)
    ensures ClosedForm([], s) == s
  {
    assert Fib(0) == 0 && Fib(1) == 1;
  }

  function Mixed(w0: U32, w1: U32, s: Sum): (r: Sum) {
    var s1: U32 := (s.0 + w0 + s.1) % WRAP;
    (s1, (s.1 + w1 + s1) % WRAP)
  }

  lemma MixIs(native: bool, data: seq<Byte>, off: nat, s: Sum)
    requires off + 8 <= |data|
    ensures Mix(native, data, off, s) == Mixed(Word(native, data, off), Word(native, data, off + 4), s)
  {
    hide Word;
  }

  lemma StepIsClosed(w0: U32, w1: U32, rest: seq<U32>, s: Sum)
    ensures ClosedForm(rest, Mixed(w0, w1, s)) == ClosedForm([w0, w1] + rest, s)
  {
    hide Fib, Weighted, Before, Combined;
    var n := |rest|;
    FibStep(n);
    FibStep(n + 1);
    var p, q := Before(n + 2), Fib(n + 2);
    WeightedStep(w0, w1, rest, 0, p, Fib(n));
    WeightedStep(w0, w1, rest, 1, q, Fib(n + 1));
    StepSum(s.0, s.1, w0, w1, Before(n), Fib(n), Weighted(rest, 0), p, q);
    StepSum(s.0, s.1, w0, w1, Fib(n), Fib(n + 1), Weighted(rest, 1), q, Fib(n + 3));
  }

  /** From a zero start, the first sum weighs the words with the Fibonacci numbers down to 0, the second
      down to 1, both modulo 2^32. */
  lemma ChecksumIs(native: bool, data: seq<Byte>, init: Sum)
    ensures Checksum(native, data, init) == ClosedForm(Words(native, data, 0), init)
    ensures init == (0, 0) ==>
              Checksum(native, data, init) == (Weighted(Words(native, data, 0), 0) % WRAP,
              Weighted(Words(native, data, 0), 1) % WRAP)
  {
    hide ChecksumFrom, Words, Weighted, Fib, Before;
    FoldIsClosed(native, data, 0, init);
  }

  /** The native order is the other byte order. */
  lemma NativeWord(a: Byte, b: Byte, c: Byte, d: Byte)
    ensures Word(true, [d, c, b, a], 0) == Word(false, [a, b, c, d], 0) == 256 * (256 * (256 * a + b) + c) + d
  {
  }

  /** A sum carried on over a second piece is the sum of the whole. */
  lemma {:induction false} Carried(native: bool, a: seq<Byte>, b: seq<Byte>, off: nat, s: Sum)
    requires off <= |a| && (|a| - off) % 8 == 0
    ensures ChecksumFrom(native, a + b, off, s) == ChecksumFrom(native, b, 0, ChecksumFrom(native, a, off, s))
    decreases |a| - off
  {
    hide Mix, Word;
    if off == |a| {
      Shifted(native, a, b, 0, s);
    } else {
      SameMix(native, a, b, off, s);
      Carried(native, a, b, off + 8, Mix(native, a, off, s));
    }
  }

  lemma SameMix(native: bool, a: seq<Byte>, b: seq<Byte>, off: nat, s: Sum)
    requires off + 8 <= |a|
    ensures Mix(native, a + b, off, s) == Mix(native, a, off, s)
  {
    MixIs(native, a, off, s);
    MixIs(native, a + b, off, s);
  }

  lemma ShiftedMix(native: bool, a: seq<Byte>, b: seq<Byte>, off: nat, s: Sum)
    requires off + 8 <= |b|
    ensures Mix(native, a + b, |a| + off, s) == Mix(native, b, off, s)
  {
    MixIs(native, b, off, s);
    MixIs(native, a + b, |a| + off, s);
  }

  lemma {:induction false} Shifted(native: bool, a: seq<Byte>, b: seq<Byte>, off: nat, s: Sum)
    ensures ChecksumFrom(native, a + b, |a| + off, s) == ChecksumFrom(native, b, off, s)
    decreases |b| - off
  {
    hide Mix, Word;
    if off + 8 <= |b| {
      ShiftedMix(native, a, b, off, s);
      Shifted(native, a, b, off + 8, Mix(native, b, off, s));
    }
  }

  /** A frame's sum covers its page number, its database size and its content, in that order, from the
      sum of the frame before it. */
  lemma FrameSumIs(h: Header, running: Sum, f: Frame)
    ensures FrameSum(h, running, f) ==
            ClosedForm(Words(h.native, Be32(f.page) + Be32(f.dbSize) + f.content, 0), running)
  {
    hide ChecksumFrom, Words, ClosedForm, Be32;
    Carried(h.native, FrameHead(f), f.content, 0, running);
    FoldIsClosed(h.native, FrameHead(f) + f.content, 0, running);
  }
}
