/** Bit strings, most significant bit first, and their numeric values. */
module Bits {

  function Pow2(n: nat): (r: nat)
    ensures r > 0
  {
    if n == 0 then 1 else 2 * Pow2(n - 1)
  }

  function BitValue(b: bool): nat { if b then 1 else 0 }

  /** The number a bit string denotes. */
  function Value(s: seq<bool>): nat {
    if s == [] then 0 else 2 * Value(s[..|s| - 1]) + BitValue(s[|s| - 1])
  }

  /** The `n` low-order bits of `v`. */
  function Low(v: nat, n: nat): (s: seq<bool>)
    ensures |s| == n
  {
    if n == 0 then [] else Low(v / 2, n - 1) + [v % 2 == 1]
  }

  /** The bits of a byte sequence. */
  function OfBytes(bytes: seq<nat>): (s: seq<bool>)
    ensures |s| == 8 * |bytes|
  {
    if bytes == [] then [] else Low(bytes[0], 8) + OfBytes(bytes[1..])
  }

  lemma {:induction false} Pow2Adds(a: nat, b: nat)
    ensures Pow2(a + b) == Pow2(a) * Pow2(b)
    decreases b
  {
    if b > 0 {
      Pow2Adds(a, b - 1);
    }
  }

  lemma {:induction false} ValueBelow(s: seq<bool>)
    ensures Value(s) < Pow2(|s|)
    decreases |s|
  {
    if s != [] {
      ValueBelow(s[..|s| - 1]);
    }
  }

  /** Reading back the low bits of a number that fits. */
  lemma {:induction false} ValueOfLow(v: nat, n: nat)
    requires v < Pow2(n)
    ensures Value(Low(v, n)) == v
    decreases n
  {
    if n > 0 {
      ValueOfLow(v / 2, n - 1);
      assert Low(v, n)[..n - 1] == Low(v / 2, n - 1);
    }
  }

  lemma {:induction false} LowOfValue(s: seq<bool>)
    ensures Low(Value(s), |s|) == s
    decreases |s|
  {
    if s != [] {
      LowOfValue(s[..|s| - 1]);
      assert s == s[..|s| - 1] + [s[|s| - 1]];
    }
  }

  /** Appending a bit at the end doubles. */
  lemma {:induction false} ValueAppend(s: seq<bool>, b: bool)
    ensures Value(s + [b]) == 2 * Value(s) + BitValue(b)
  {
    assert (s + [b])[..|s|] == s;
  }

  /** High bits of a wider word: shifting `v` left by `k` and filling in `b`. */
  lemma {:induction false} LowShifted(v: nat, b: nat, n: nat, k: nat)
    requires b < Pow2(k)
    ensures Low(v * Pow2(k) + b, n + k) == Low(v, n) + Low(b, k)
    decreases k
  {
    if k > 0 {
      LowShifted(v, b / 2, n, k - 1);
      HalfShifted(v, b, k);
      var u := v * Pow2(k) + b;
      assert Low(u, n + k) == Low(u / 2, n + k - 1) + [u % 2 == 1];
      assert Low(v, n) + Low(b, k) == (Low(v, n) + Low(b / 2, k - 1)) + [b % 2 == 1];
    }
  }

  lemma {:induction false} HalfShifted(v: nat, b: nat, k: nat)
    requires k > 0
    ensures (v * Pow2(k) + b) / 2 == v * Pow2(k - 1) + b / 2
    ensures (v * Pow2(k) + b) % 2 == b % 2
  {
    var t := v * Pow2(k - 1);
    assert v * Pow2(k) == 2 * t by {
      assert Pow2(k) == 2 * Pow2(k - 1);
    }
  }

  /** Truncating a word to `m` bits does not change its `n` low bits. */
  lemma {:induction false} LowOfTruncated(v: nat, n: nat, m: nat)
    requires n <= m
    ensures Low(v % Pow2(m), n) == Low(v, n)
    decreases n
  {
    if n > 0 {
      HalfTruncated(v, m);
      LowOfTruncated(v / 2, n - 1, m - 1);
    }
  }

  lemma {:induction false} HalfTruncated(v: nat, m: nat)
    requires m > 0
    ensures (v % Pow2(m)) / 2 == (v / 2) % Pow2(m - 1)
    ensures (v % Pow2(m)) % 2 == v % 2
    ensures v / Pow2(m) == (v / 2) / Pow2(m - 1)
  {
    var p := Pow2(m - 1);
    var q, r := (v / 2) / p, (v / 2) % p;
    assert v / 2 == p * q + r;
    assert v == (2 * p) * q + (2 * r + v % 2);
    Remainder(v, 2 * p, q, 2 * r + v % 2);
  }

  lemma {:induction false} ProductAtLeast(d: nat, k: nat)
    requires k > 0
    ensures d * k >= d
    decreases k
  {
    if k > 1 {
      ProductAtLeast(d, k - 1);
      assert d * k == d * (k - 1) + d;
    }
  }

  lemma {:induction false} Remainder(v: nat, d: nat, q: nat, r: nat)
    requires v == d * q + r && r < d
    ensures v % d == r && v / d == q
  {
    var q', r' := v / d, v % d;
    assert v == d * q' + r';
    if q' > q {
      assert d * q' == d * q + d * (q' - q);
      ProductAtLeast(d, q' - q);
    } else if q > q' {
      assert d * q == d * q' + d * (q - q');
      ProductAtLeast(d, q - q');
    }
  }

  /** Right shift, one place at a time. */
  function Shift(v: nat, k: nat): nat {
    if k == 0 then v else Shift(v / 2, k - 1)
  }

  lemma {:induction false} ShiftDivides(v: nat, k: nat)
    ensures Shift(v, k) == v / Pow2(k)
    decreases k
  {
    if k > 0 {
      HalfTruncated(v, k);
      ShiftDivides(v / 2, k - 1);
    }
  }

  /** The first `n` of `n + k` low bits are a shifted word; the rest, a narrower one. */
  lemma {:induction false} LowSplit(v: nat, n: nat, k: nat)
    ensures Low(v, n + k) == Low(Shift(v, k), n) + Low(v, k)
    decreases k
  {
    if k > 0 {
      LowSplit(v / 2, n, k - 1);
      var hi, lo := Low(Shift(v, k), n), Low(v / 2, k - 1);
      assert Low(v, n + k) == (hi + lo) + [v % 2 == 1] == hi + (lo + [v % 2 == 1]);
    }
  }

  /** Extracting a field by shift and mask reads the corresponding bits. */
  lemma {:induction false} ValueOfMasked(u: nat, n: nat)
    ensures Value(Low(u, n)) == u % Pow2(n)
  {
    LowOfTruncated(u, n, n);
    ValueOfLow(u % Pow2(n), n);
  }

  lemma {:induction false} OfBytesAppend(a: seq<nat>, b: seq<nat>)
    ensures OfBytes(a + b) == OfBytes(a) + OfBytes(b)
    decreases |a|
  {
    if a == [] {
      assert a + b == b;
    } else {
      OfBytesAppend(a[1..], b);
      assert (a + b)[1..] == a[1..] + b;
    }
  }

  /** Left shift, one place at a time: multiplication by a power of two. */
  function ShiftLeft(v: nat, n: nat): nat {
    if n == 0 then v else 2 * ShiftLeft(v, n - 1)
  }

  lemma {:induction false} ShiftLeftAdds(a: nat, b: nat, n: nat)
    ensures ShiftLeft(a + b, n) == ShiftLeft(a, n) + ShiftLeft(b, n)
    decreases n
  {
    if n > 0 {
      ShiftLeftAdds(a, b, n - 1);
    }
  }

  lemma {:induction false} ShiftLeftTwice(v: nat, m: nat, n: nat)
    ensures ShiftLeft(ShiftLeft(v, m), n) == ShiftLeft(v, m + n)
    decreases n
  {
    if n > 0 {
      ShiftLeftTwice(v, m, n - 1);
    }
  }

  lemma {:induction false} ShiftLeftOrder(a: nat, b: nat, n: nat)
    ensures a <= b <==> ShiftLeft(a, n) <= ShiftLeft(b, n)
    decreases n
  {
    if n > 0 {
      ShiftLeftOrder(a, b, n - 1);
    }
  }

  lemma {:induction false} ShiftLeftMultiplies(v: nat, n: nat)
    ensures ShiftLeft(v, n) == v * Pow2(n)
    decreases n
  {
    if n > 0 {
      ShiftLeftMultiplies(v, n - 1);
    }
  }
}
