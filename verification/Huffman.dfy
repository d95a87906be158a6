/** Canonical Huffman tables: construction as in annex C of ITU-T T.81, decoding as in section F.2.2.3. */
module Huffman {
  import opened Bits
  import opened BitReader

  /** A table as transmitted: how many codes of each length 1..16, and the symbols in code order. */
  datatype Spec = Spec(counts: seq<nat>, symbols: seq<nat>)

  /** The decoder's form: per length the least code, the greatest code (-1 when there is none)
      and the position of the first symbol. */
  datatype HuffTable = HuffTable(minCode: seq<int>, maxCode: seq<int>, valPtr: seq<nat>, symbols: seq<nat>, total: nat)

  ghost predicate Counts(counts: seq<nat>) {
    |counts| == 17
  }

  /** How many codes have length at most `len`. */
  ghost function CountTo(counts: seq<nat>, len: nat): nat
    requires Counts(counts) && len <= 16
  {
    if len == 0 then 0 else CountTo(counts, len - 1) + counts[len]
  }

  /** How many codes there are in all. */
  ghost function Total(counts: seq<nat>): nat
    requires Counts(counts)
  {
    CountTo(counts, |counts| - 1)
  }

  ghost predicate ValidSpec(t: Spec) {
    Counts(t.counts) && |t.symbols| == Total(t.counts) <= 256
  }

  /** The first code of length `len` in the decoder's construction. */
  ghost function FirstCode(counts: seq<nat>, len: nat): nat
    requires Counts(counts) && 1 <= len <= 16
  {
    if len == 1 then 0 else 2 * (FirstCode(counts, len - 1) + counts[len - 1])
  }

  ghost predicate RowBuilt(min: int, max: int, ptr: int, counts: seq<nat>, len: nat)
    requires Counts(counts) && 1 <= len <= 16
  {
    if counts[len] == 0 then min == 0 && max == -1 && ptr == 0
    else
      && ptr == CountTo(counts, len - 1)
      && min == FirstCode(counts, len)
      && max == FirstCode(counts, len) + counts[len] - 1
  }

  ghost predicate Built(ht: HuffTable, t: Spec) {
    && ValidSpec(t)
    && |ht.minCode| == |ht.maxCode| == |ht.valPtr| == 17
    && (forall len :: 1 <= len <= 16 ==> RowBuilt(ht.minCode[len], ht.maxCode[len], ht.valPtr[len], t.counts, len))
    && ht.symbols == t.symbols && ht.total == |t.symbols|
  }

  /** Table construction. It fails exactly when more than 256 codes are announced. */
  method BuildHuff(counts: seq<nat>, symbols: seq<nat>) returns (ok: bool, ht: HuffTable)
    requires Counts(counts)
    requires Total(counts) <= 256 ==> Total(counts) <= |symbols|
    ensures ok <==> Total(counts) <= 256
    ensures ok ==> Built(ht, Spec(counts, symbols[..Total(counts)]))
    ensures ok ==> ht.minCode[0] == ht.maxCode[0] == ht.valPtr[0] == 0
  {
    var blank := seq(17, _ => 0);
    ht := HuffTable(blank, blank, blank, [], 0);
    var total := 0;
    for i := 1 to 17
      invariant total == CountTo(counts, i - 1)
    {
      total := total + counts[i];
    }
    if total > 256 {
      return false, ht;
    }
    var code, si := 0, 0;
    var minCode: seq<int>, maxCode: seq<int>, valPtr: seq<nat> := blank, blank, blank;
    var len := 1;
    while len <= 16
      invariant 1 <= len <= 17
      invariant |minCode| == |maxCode| == |valPtr| == 17
      invariant minCode[0] == maxCode[0] == valPtr[0] == 0
      invariant si == CountTo(counts, len - 1)
      invariant len <= 16 ==> code == FirstCode(counts, len)
      invariant forall k :: 1 <= k < len ==> RowBuilt(minCode[k], maxCode[k], valPtr[k], counts, k)
    {
      var count := counts[len];
      if count == 0 {
        minCode, maxCode, valPtr := minCode[len := 0], maxCode[len := -1], valPtr[len := 0];
      } else {
        valPtr, minCode, maxCode := valPtr[len := si], minCode[len := code], maxCode[len := code + count - 1];
        si := si + count;
        code := code + count;
      }
      code := 2 * code;
      len := len + 1;
    }
    ok := true;
    ht := HuffTable(minCode, maxCode, valPtr, symbols[..total], total);
  }

  /** The one table that construction leaves for a transmitted table. */
  ghost function TableOf(t: Spec): HuffTable
    requires ValidSpec(t)
  {
    HuffTable(seq(17, len requires 0 <= len < 17 => if len == 0 then 0 else FirstOrNone(t.counts, len)),
              seq(17, len requires 0 <= len < 17 => if len == 0 then 0 else FirstOrNone(t.counts, len) + t.counts[len] - 1),
              seq(17, len requires 0 <= len < 17 => if len == 0 || t.counts[len] == 0 then 0 else CountTo(t.counts, len - 1)),
              t.symbols, |t.symbols|)
  }

  ghost function FirstOrNone(counts: seq<nat>, len: nat): nat
    requires Counts(counts) && 1 <= len <= 16
  {
    if counts[len] == 0 then 0 else FirstCode(counts, len)
  }

  lemma {:induction false} TableOfBuilt(t: Spec)
    requires ValidSpec(t)
    ensures Built(TableOf(t), t)
  {
    hide CountTo, FirstCode;
  }

  lemma {:induction false} BuiltTable(ht: HuffTable, t: Spec)
    requires Built(ht, t) && ht.minCode[0] == ht.maxCode[0] == ht.valPtr[0] == 0
    ensures ht == TableOf(t)
  {
    hide CountTo, FirstCode;
    var u := TableOf(t);
    forall len | 0 <= len < 17
      ensures ht.minCode[len] == u.minCode[len] && ht.maxCode[len] == u.maxCode[len] && ht.valPtr[len] == u.valPtr[len]
    {
      if len > 0 {
        assert RowBuilt(ht.minCode[len], ht.maxCode[len], ht.valPtr[len], t.counts, len);
      }
    }
  }

  // ---- Decoding ----

  /** A decoded symbol, or -1, and the bits left. */
  datatype Decoded = Decoded(symbol: int, rest: seq<bool>)

  lemma {:induction false} CountGrows(counts: seq<nat>, a: nat, b: nat)
    requires Counts(counts) && a <= b <= 16
    ensures CountTo(counts, a) <= CountTo(counts, b)
    decreases b
  {
    if a < b {
      CountGrows(counts, a, b - 1);
    }
  }

  /** Bit-by-bit decoding at length `len` with the `len - 1` bits read so far in `code`. For every
      valid table, Kraft or not, the code never falls below the first one of its length, so
      the symbol index stays inside the table. */
  ghost function DecodeFrom(t: Spec, s: seq<bool>, code: nat, len: nat): (d: Decoded)
    requires ValidSpec(t) && 1 <= len <= 17
    requires len <= 16 ==> 2 * code >= FirstCode(t.counts, len)
    ensures |d.rest| <= |s|
    decreases 17 - len
  {
    if len > 16 then Decoded(-1, s)
    else if s == [] then Decoded(-1, s)
    else
      var c := 2 * code + BitValue(s[0]);
      var first, count := FirstCode(t.counts, len), t.counts[len];
      if c < first + count then
        CountGrows(t.counts, len, 16);
        Decoded(t.symbols[CountTo(t.counts, len - 1) + c - first], s[1..])
      else DecodeFrom(t, s[1..], c, len + 1)
  }

  ghost function Decode(t: Spec, s: seq<bool>): Decoded
    requires ValidSpec(t)
  {
    DecodeFrom(t, s, 0, 1)
  }

  /** One turn of the decoding loop. */
  lemma {:induction false} DecodeStep(t: Spec, s: seq<bool>, code: nat, len: nat, bit: nat)
    requires ValidSpec(t) && 1 <= len <= 16 && 2 * code >= FirstCode(t.counts, len)
    requires |s| >= 1 && bit == BitValue(s[0])
    ensures var c, first := 2 * code + bit, FirstCode(t.counts, len);
            if c < first + t.counts[len] then
              && 0 <= CountTo(t.counts, len - 1) + c - first < |t.symbols|
              && DecodeFrom(t, s, code, len) == Decoded(t.symbols[CountTo(t.counts, len - 1) + c - first], s[1..])
            else
              && (len < 16 ==> 2 * c >= FirstCode(t.counts, len + 1))
              && DecodeFrom(t, s, code, len) == DecodeFrom(t, s[1..], c, len + 1)
  {
    CountGrows(t.counts, len, |t.counts| - 1);
  }

  /** The same turn in terms of the decoder's table. */
  lemma {:induction false} TableStep(ht: HuffTable, t: Spec, s: seq<bool>, code: nat, len: nat, bit: nat)
    requires Built(ht, t) && 1 <= len <= 16 && 2 * code >= FirstCode(t.counts, len)
    requires |s| >= 1 && bit == BitValue(s[0])
    ensures |ht.minCode| == |ht.maxCode| == |ht.valPtr| == 17
    ensures var c := 2 * code + bit;
            if c <= ht.maxCode[len] then
              && 0 <= ht.valPtr[len] + c - ht.minCode[len] < ht.total == |ht.symbols|
              && DecodeFrom(t, s, code, len) == Decoded(ht.symbols[ht.valPtr[len] + c - ht.minCode[len]], s[1..])
            else
              && (len < 16 ==> 2 * c >= FirstCode(t.counts, len + 1))
              && DecodeFrom(t, s, code, len) == DecodeFrom(t, s[1..], c, len + 1)
  {
    hide DecodeFrom, CountTo, FirstCode;
    DecodeStep(t, s, code, len, bit);
    assert RowBuilt(ht.minCode[len], ht.maxCode[len], ht.valPtr[len], t.counts, len);
  }

  lemma DecodeStart(ht: HuffTable, t: Spec, s: seq<bool>)
    requires Built(ht, t)
    ensures ValidSpec(t) && Counts(t.counts) && FirstCode(t.counts, 1) == 0
    ensures Decode(t, s) == DecodeFrom(t, s, 0, 1)
  {
    hide DecodeFrom;
  }

  /** The decoder's loop over code lengths refines the specification. */
  method HuffDecode(p: Reader, ht: HuffTable, ghost t: Spec) returns (symbol: int)
    requires p.Valid() && Built(ht, t)
    modifies p
    ensures p.Valid() && p.End() == old(p.End())
    ensures Decoded(symbol, p.Stream()) == Decode(t, old(p.Stream()))
  {
    hide *;
    DecodeStart(ht, t, p.Stream());
    ghost var d := Decode(t, p.Stream());
    var code: nat := 0;
    var len := 1;
    while len <= 16
      invariant 1 <= len <= 17 && p.Valid() && p.End() == old(p.End())
      invariant len <= 16 ==> 2 * code >= FirstCode(t.counts, len)
      invariant DecodeFrom(t, p.Stream(), code, len) == d
    {
      ghost var s := p.Stream();
      assert s == [] ==> d == Decoded(-1, s) by {
        EmptyStream(t, s, code, len);
      }
      var bit := p.NextBit();
      if bit < 0 {
        return -1;
      }
      TableStep(ht, t, s, code, len, bit);
      code := 2 * code + bit;
      if code <= ht.maxCode[len] {
        return ht.symbols[ht.valPtr[len] + code - ht.minCode[len]];
      }
      len := len + 1;
    }
    TooLong(t, p.Stream(), code);
    return -1;
  }

  lemma TooLong(t: Spec, s: seq<bool>, code: nat)
    requires ValidSpec(t)
    ensures DecodeFrom(t, s, code, 17) == Decoded(-1, s)
  {
  }

  lemma {:induction false} EmptyStream(t: Spec, s: seq<bool>, code: nat, len: nat)
    requires ValidSpec(t) && 1 <= len <= 16 && 2 * code >= FirstCode(t.counts, len)
    ensures s == [] ==> DecodeFrom(t, s, code, len) == Decoded(-1, s)
  {
  }

  // ---- The codes of annex C ----

  /** The length of the code of symbol `k` (Figure C.1): the least length reached by more than `k` codes. */
  ghost function SizeFrom(counts: seq<nat>, k: nat, len: nat): (r: nat)
    requires Counts(counts) && 1 <= len <= 16 && CountTo(counts, len - 1) <= k < Total(counts)
    ensures len <= r <= 16 && CountTo(counts, r - 1) <= k < CountTo(counts, r)
    decreases 16 - len
  {
    if k < CountTo(counts, len) then len else SizeFrom(counts, k, len + 1)
  }

  ghost function Size(counts: seq<nat>, k: nat): (r: nat)
    requires Counts(counts) && k < Total(counts)
    ensures 1 <= r <= 16 && CountTo(counts, r - 1) <= k < CountTo(counts, r)
  {
    SizeFrom(counts, k, 1)
  }

  lemma {:induction false} SizeGrows(counts: seq<nat>, k: nat)
    requires Counts(counts) && 0 < k < Total(counts)
    ensures Size(counts, k - 1) <= Size(counts, k)
  {
    hide Size, CountTo;
    var a, b := Size(counts, k - 1), Size(counts, k);
    if b < a {
      var before: nat := a - 1;
      CountGrows(counts, b, before);
    }
  }

  /** The code of symbol `k` (Figure C.2): one more than the previous code, shifted left by the
      growth in length. */
  ghost function HuffCode(counts: seq<nat>, k: nat): nat
    requires Counts(counts) && k < Total(counts)
  {
    if k == 0 then 0
    else
      SizeGrows(counts, k);
      ShiftLeft(HuffCode(counts, k - 1) + 1, Size(counts, k) - Size(counts, k - 1))
  }

  /** Lengths without codes only shift. */
  lemma {:induction false} FirstCodeAcrossGap(counts: seq<nat>, a: nat, b: nat)
    requires Counts(counts) && 1 <= a < b <= 16
    requires CountTo(counts, a) == CountTo(counts, b - 1)
    ensures FirstCode(counts, b) == ShiftLeft(FirstCode(counts, a) + counts[a], b - a)
    decreases b
  {
    if a + 1 < b {
      CountGrows(counts, a, b - 2);
      FirstCodeAcrossGap(counts, a, b - 1);
    }
  }

  lemma {:induction false} FirstCodeZero(counts: seq<nat>, b: nat)
    requires Counts(counts) && 1 <= b <= 16 && CountTo(counts, b - 1) == 0
    ensures FirstCode(counts, b) == 0
    decreases b
  {
    if b > 1 {
      CountGrows(counts, b - 2, b - 1);
      FirstCodeZero(counts, b - 1);
    }
  }

  /** Within one length, codes count up from the first. */
  ghost predicate Canonical(counts: seq<nat>, k: nat)
    requires Counts(counts) && k < Total(counts)
  {
    var len := Size(counts, k);
    HuffCode(counts, k) == FirstCode(counts, len) + (k - CountTo(counts, len - 1))
  }

  lemma {:induction false} NextLength(counts: seq<nat>, k: nat, a: nat, len: nat, prev: nat)
    requires Counts(counts) && 0 < k && 1 <= a < len <= 16
    requires CountTo(counts, a - 1) < k <= CountTo(counts, a) && CountTo(counts, len - 1) <= k
    requires prev == FirstCode(counts, a) + (k - 1 - CountTo(counts, a - 1))
    ensures ShiftLeft(prev + 1, len - a) == FirstCode(counts, len) + (k - CountTo(counts, len - 1))
  {
    CountGrows(counts, a, len - 1);
    FirstCodeAcrossGap(counts, a, len);
  }

  lemma {:induction false} CanonicalStep(counts: seq<nat>, k: nat)
    requires Counts(counts) && 0 < k < Total(counts) && Canonical(counts, k - 1)
    ensures Canonical(counts, k)
  {
    hide CountTo, FirstCode, Size;
    var a, len := Size(counts, k - 1), Size(counts, k);
    var prev := HuffCode(counts, k - 1);
    SizeGrows(counts, k);
    if a < len {
      NextLength(counts, k, a, len, prev);
    } else {
      assert ShiftLeft(prev + 1, 0) == prev + 1;
    }
  }

  /** The two constructions agree: the decoder's per-length form and the standard's code list. */
  lemma {:induction false} CodeIsCanonical(counts: seq<nat>, k: nat)
    requires Counts(counts) && k < Total(counts)
    ensures Canonical(counts, k)
    decreases k
  {
    if k == 0 {
      FirstCodeZero(counts, Size(counts, k));
    } else {
      CodeIsCanonical(counts, k - 1);
      CanonicalStep(counts, k);
    }
  }

  // ---- Kraft ----

  /** The share of the code space used by codes of length at most `len`, in units of 2^-16. */
  ghost function KraftSum(counts: seq<nat>, len: nat): nat
    requires Counts(counts) && len <= 16
  {
    if len == 0 then 0 else KraftSum(counts, len - 1) + ShiftLeft(counts[len], 16 - len)
  }

  ghost predicate Kraft(t: Spec) {
    ValidSpec(t) && KraftSum(t.counts, |t.counts| - 1) <= Pow2(16)
  }

  lemma {:induction false} KraftIsNextCode(counts: seq<nat>, len: nat)
    requires Counts(counts) && 1 <= len <= 16
    ensures ShiftLeft(FirstCode(counts, len) + counts[len], 16 - len) == KraftSum(counts, len)
    decreases len
  {
    ShiftLeftAdds(FirstCode(counts, len), counts[len], 16 - len);
    if len == 1 {
      ShiftLeftMultiplies(0, 16 - len);
      assert KraftSum(counts, 0) == 0;
    } else {
      KraftIsNextCode(counts, len - 1);
      var x := FirstCode(counts, len - 1) + counts[len - 1];
      ShiftLeftTwice(x, 1, 16 - len);
      assert ShiftLeft(x, 1) == 2 * x;
    }
  }

  lemma {:induction false} KraftGrows(counts: seq<nat>, a: nat)
    requires Counts(counts) && a <= 16
    ensures KraftSum(counts, a) <= KraftSum(counts, |counts| - 1)
    decreases 16 - a
  {
    if a < 16 {
      KraftGrows(counts, a + 1);
    }
  }

  /** Under Kraft every code fits in its length. */
  lemma {:induction false} CodesFit(t: Spec, len: nat)
    requires Kraft(t) && 1 <= len <= 16
    ensures FirstCode(t.counts, len) + t.counts[len] <= Pow2(len)
  {
    hide FirstCode, ShiftLeft, KraftSum, CountTo;
    var x := FirstCode(t.counts, len) + t.counts[len];
    KraftIsNextCode(t.counts, len);
    KraftGrows(t.counts, len);
    Pow2Adds(len, 16 - len);
    ShiftLeftMultiplies(Pow2(len), 16 - len);
    ShiftLeftOrder(x, Pow2(len), 16 - len);
  }

  // ---- Round trip ----

  /** The code of symbol `k` as bits. */
  ghost function CodeBits(counts: seq<nat>, k: nat): seq<bool>
    requires Counts(counts) && k < Total(counts)
  {
    Low(HuffCode(counts, k), Size(counts, k))
  }

  /** No proper prefix of a code is accepted: it lies beyond the codes of its own length. */
  lemma {:induction false} PrefixBeyond(counts: seq<nat>, a: nat, b: nat)
    requires Counts(counts) && 1 <= a < b <= 16
    ensures ShiftLeft(FirstCode(counts, a) + counts[a], b - a) <= FirstCode(counts, b)
    decreases b
  {
    if a + 1 < b {
      PrefixBeyond(counts, a, b - 1);
    }
  }

  lemma {:induction false} PrefixNotAccepted(t: Spec, k: nat, len: nat, v: nat)
    requires ValidSpec(t) && k < Total(t.counts) && 1 <= len < Size(t.counts, k)
    requires v == Shift(HuffCode(t.counts, k), Size(t.counts, k) - len)
    ensures v >= FirstCode(t.counts, len) + t.counts[len]
  {
    hide CountTo, Size, HuffCode, FirstCode, Shift, ShiftLeft, SizeFrom;
    var size := Size(t.counts, k);
    var c := HuffCode(t.counts, k);
    CodeIsCanonical(t.counts, k);
    PrefixBeyond(t.counts, len, size);
    ShiftInverts(FirstCode(t.counts, len) + t.counts[len], c, size - len);
  }

  lemma {:induction false} ShiftInverts(x: nat, c: nat, n: nat)
    requires ShiftLeft(x, n) <= c
    ensures x <= Shift(c, n)
    decreases n
  {
    if n > 0 {
      assert ShiftLeft(x, n - 1) <= c / 2;
      ShiftInverts(x, c / 2, n - 1);
    }
  }

  /** At the last bit of its code, symbol `k` is accepted. */
  lemma {:induction false} LastBitAccepted(t: Spec, k: nat, len: nat)
    requires Kraft(t) && k < Total(t.counts) && len == Size(t.counts, k)
    ensures var c, first := HuffCode(t.counts, k), FirstCode(t.counts, len);
            c < first + t.counts[len] && CountTo(t.counts, len - 1) + c - first == k
  {
    CodeIsCanonical(t.counts, k);
  }

  /** One bit of the code of symbol `k` read by the decoder, when more are to come. */
  lemma {:induction false} MiddleBit(t: Spec, k: nat, v: nat, b: bool, tail: seq<bool>, code: nat, len: nat)
    requires Kraft(t) && k < Total(t.counts) && 1 <= len < Size(t.counts, k)
    requires 2 * code >= FirstCode(t.counts, len) && v == 2 * code + BitValue(b)
    requires v == Shift(HuffCode(t.counts, k), Size(t.counts, k) - len)
    ensures 2 * v >= FirstCode(t.counts, len + 1)
    ensures DecodeFrom(t, [b] + tail, code, len) == DecodeFrom(t, tail, v, len + 1)
  {
    hide DecodeFrom, CountTo, HuffCode, Size, KraftSum;
    DecodeStep(t, [b] + tail, code, len, BitValue(b));
    PrefixNotAccepted(t, k, len, v);
    assert ([b] + tail)[1..] == tail;
  }

  lemma {:induction false} LastBit(t: Spec, k: nat, b: bool, rest: seq<bool>, code: nat, len: nat)
    requires Kraft(t) && k < Total(t.counts) && len == Size(t.counts, k)
    requires 2 * code >= FirstCode(t.counts, len) && HuffCode(t.counts, k) == 2 * code + BitValue(b)
    ensures DecodeFrom(t, [b] + rest, code, len) == Decoded(t.symbols[k], rest)
  {
    hide DecodeFrom, CountTo, FirstCode, HuffCode, Size, KraftSum;
    DecodeStep(t, [b] + rest, code, len, BitValue(b));
    LastBitAccepted(t, k, len);
    assert ([b] + rest)[1..] == rest;
  }

  /** After `done` bits of the code `c` of symbol `k`, the decoder holds its leading part; it
      accepts exactly at the last bit. */
  lemma {:induction false} DecodeTail(t: Spec, k: nat, c: nat, size: nat, done: nat, rest: seq<bool>)
    requires Kraft(t) && k < Total(t.counts) && c == HuffCode(t.counts, k) && size == Size(t.counts, k)
    requires done < size && 2 * Shift(c, size - done) >= FirstCode(t.counts, done + 1)
    ensures DecodeFrom(t, Low(c, size - done) + rest, Shift(c, size - done), done + 1) == Decoded(t.symbols[k], rest)
    decreases size - done
  {
    hide DecodeFrom, CountTo, FirstCode, HuffCode, Size, KraftSum;
    var n := size - done;
    var b, tail := Low(c, n)[0], Low(c, n - 1) + rest;
    FirstOfLow(c, n);
    assert Low(c, n) + rest == [b] + tail;
    if done + 1 < size {
      MiddleBit(t, k, Shift(c, n - 1), b, tail, Shift(c, n), done + 1);
      DecodeTail(t, k, c, size, done + 1, rest);
    } else {
      assert tail == rest;
      LastBit(t, k, b, rest, Shift(c, n), done + 1);
    }
  }

  /** The leading bit of the low `n` bits moves from the rest into the part already read. */
  lemma {:induction false} FirstOfLow(c: nat, n: nat)
    requires n > 0
    ensures 2 * Shift(c, n) + BitValue(Low(c, n)[0]) == Shift(c, n - 1)
    ensures Low(c, n)[1..] == Low(c, n - 1)
    decreases n
  {
    LowSplit(c, 1, n - 1);
    var v := Shift(c, n - 1);
    assert Low(v, 1) == [v % 2 == 1];
    ShiftLast(c, n - 1);
  }

  lemma {:induction false} ShiftLast(c: nat, n: nat)
    ensures Shift(c, n + 1) == Shift(c, n) / 2
    decreases n
  {
    if n > 0 {
      ShiftLast(c / 2, n - 1);
    }
  }

  lemma {:induction false} ShiftToZero(c: nat, n: nat)
    requires c < Pow2(n)
    ensures Shift(c, n) == 0
    decreases n
  {
    if n > 0 {
      ShiftToZero(c / 2, n - 1);
    }
  }

  /** Decoding undoes encoding: the code of symbol `k`, followed by anything, decodes to symbol
      `k` after exactly its own length. */
  lemma {:induction false} HuffmanRoundTrip(t: Spec, k: nat, rest: seq<bool>)
    requires Kraft(t) && k < Total(t.counts)
    ensures Decode(t, CodeBits(t.counts, k) + rest) == Decoded(t.symbols[k], rest)
  {
    hide DecodeFrom, CountTo, HuffCode, Size, KraftSum;
    LastBitAccepted(t, k, Size(t.counts, k));
    CodesFit(t, Size(t.counts, k));
    ShiftToZero(HuffCode(t.counts, k), Size(t.counts, k));
    DecodeTail(t, k, HuffCode(t.counts, k), Size(t.counts, k), 0, rest);
  }
}
