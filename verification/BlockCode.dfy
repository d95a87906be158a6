/** One 8x8 block in the entropy-coded stream: the encoder of section F.1.2 of ITU-T T.81 as
    specification, and the decoder that keeps the DC value and skips the AC coefficients. */
module BlockCode {
  import opened Bits
  import opened BitReader
  import opened Huffman

  // ---- Signed magnitudes ----

  /** EXTEND (section F.2.2.1): the signed value of `n` magnitude bits read as `val`. */
  function Extend(val: nat, n: nat): int {
    if n == 0 then 0
    else if val < Pow2(n - 1) then val - (Pow2(n) - 1)
    else val
  }

  function Magnitude(v: int): nat { if v < 0 then -v else v }

  /** The magnitude category of a value: the bits needed for its absolute value. */
  function BitLength(m: nat): (n: nat)
    ensures m < Pow2(n) && (n > 0 ==> Pow2(n - 1) <= m)
  {
    if m == 0 then 0 else 1 + BitLength(m / 2)
  }

  function Category(v: int): nat { BitLength(Magnitude(v)) }

  /** The additional bits of a value: itself, or for a negative value its ones' complement. */
  function MagnitudeBits(v: int): seq<bool> {
    var n := Category(v);
    Low(if v >= 0 then v else v + Pow2(n) - 1, n)
  }

  /** EXTEND undoes the additional-bits encoding. */
  lemma {:induction false} ExtendUndoes(v: int)
    ensures |MagnitudeBits(v)| == Category(v)
    ensures Extend(Value(MagnitudeBits(v)), Category(v)) == v
  {
    var n := Category(v);
    if n > 0 {
      assert Pow2(n) == 2 * Pow2(n - 1);
      ValueOfLow(if v >= 0 then v else v + Pow2(n) - 1, n);
    }
  }

  /** The value stays in category range: a larger bound on the magnitude bounds the category. */
  lemma {:induction false} BitLengthBound(m: nat, n: nat)
    requires m < Pow2(n)
    ensures BitLength(m) <= n
    decreases n
  {
    if m > 0 {
      BitLengthBound(m / 2, n - 1);
    }
  }

  // ---- Encoder ----

  /** The position of a symbol in a table: its first one, or the table's length when absent. */
  ghost function IndexOf(symbols: seq<nat>, s: nat): (i: nat)
    ensures i <= |symbols| && (s in symbols ==> i < |symbols| && symbols[i] == s)
    ensures i < |symbols| ==> s in symbols
  {
    if symbols == [] then 0
    else if symbols[0] == s then 0
    else 1 + IndexOf(symbols[1..], s)
  }

  ghost function SymbolBits(t: Spec, s: nat): seq<bool>
    requires ValidSpec(t) && s in t.symbols
  {
    CodeBits(t.counts, IndexOf(t.symbols, s))
  }

  lemma {:induction false} SymbolRoundTrip(t: Spec, s: nat, rest: seq<bool>)
    requires Kraft(t) && s in t.symbols
    ensures Decode(t, SymbolBits(t, s) + rest) == Decoded(s, rest)
  {
    HuffmanRoundTrip(t, IndexOf(t.symbols, s), rest);
  }

  /** The difference can be coded: its category has a code (section F.1.2.1). */
  ghost predicate DcFits(t: Spec, diff: int) {
    Category(diff) in t.symbols
  }

  ghost function DcBits(t: Spec, diff: int): seq<bool>
    requires ValidSpec(t) && DcFits(t, diff)
  {
    SymbolBits(t, Category(diff)) + MagnitudeBits(diff)
  }

  const EOB := 0x00
  const ZRL := 0xF0

  /** The coefficients `zz`, in zigzag order after a run of `run` zeros, can be coded: categories
      are at most 15 and every symbol the encoder needs has a code (section F.1.2.2). */
  ghost predicate AcFits(t: Spec, zz: seq<int>, run: nat) {
    if zz == [] then run == 0 || EOB in t.symbols
    else if zz[0] == 0 then AcFits(t, zz[1..], run + 1)
    else if run >= 16 then ZRL in t.symbols && AcFits(t, zz, run - 16)
    else
      var n := Category(zz[0]);
      n <= 15 && 16 * run + n in t.symbols && AcFits(t, zz[1..], 0)
  }

  /** Run-length coding of the AC coefficients (Figure F.2): ZRL for sixteen zeros, a run/size
      symbol and additional bits for each non-zero coefficient, EOB when zeros remain at the end. */
  ghost function AcBits(t: Spec, zz: seq<int>, run: nat): seq<bool>
    requires ValidSpec(t) && AcFits(t, zz, run)
    decreases |zz|, run
  {
    if zz == [] then (if run == 0 then [] else SymbolBits(t, EOB))
    else if zz[0] == 0 then AcBits(t, zz[1..], run + 1)
    else if run >= 16 then SymbolBits(t, ZRL) + AcBits(t, zz, run - 16)
    else
      SymbolBits(t, 16 * run + Category(zz[0])) + MagnitudeBits(zz[0]) + AcBits(t, zz[1..], 0)
  }

  // ---- Decoder ----

  /** Skipping AC coefficients from position `count`: the bits left afterwards. */
  ghost function SkipAc(t: Spec, s: seq<bool>, count: nat): seq<bool>
    requires ValidSpec(t)
    decreases 64 - count
  {
    if count >= 64 then s
    else
      var d := Decode(t, s);
      if d.symbol < 0 then d.rest
      else
        var run, size := d.symbol / 16, d.symbol % 16;
        if size == 0 then
          if run == 15 then SkipAc(t, d.rest, count + 16) else d.rest
        else if |d.rest| < size then d.rest
        else SkipAc(t, d.rest[size..], count + run + 1)
  }

  /** One run/size symbol with its additional bits, as the decoder skips it. */
  lemma {:induction false} SkipCoefficient(t: Spec, s: seq<bool>, count: nat, run: nat, size: nat, mag: seq<bool>, tail: seq<bool>)
    requires ValidSpec(t) && count < 64 && 1 <= size <= 15 && run <= 15 && |mag| == size
    requires Decode(t, s) == Decoded(16 * run + size, mag + tail)
    ensures SkipAc(t, s, count) == SkipAc(t, tail, count + run + 1)
  {
    hide Decode;
    assert (mag + tail)[size..] == tail;
  }

  lemma {:induction false} SkipZrl(t: Spec, s: seq<bool>, count: nat, tail: seq<bool>)
    requires ValidSpec(t) && count < 64 && Decode(t, s) == Decoded(ZRL, tail)
    ensures SkipAc(t, s, count) == SkipAc(t, tail, count + 16)
  {
    hide Decode;
  }

  lemma {:induction false} SkipEob(t: Spec, s: seq<bool>, count: nat, tail: seq<bool>)
    requires ValidSpec(t) && count < 64 && Decode(t, s) == Decoded(EOB, tail)
    ensures SkipAc(t, s, count) == tail
  {
    hide Decode;
  }

  lemma {:induction false} Regroup(a: seq<bool>, b: seq<bool>, c: seq<bool>, d: seq<bool>)
    ensures ((a + b) + c) + d == a + (b + (c + d))
  {
  }

  lemma {:induction false} ZrlSkipped(t: Spec, zz: seq<int>, run: nat, count: nat, rest: seq<bool>)
    requires Kraft(t) && AcFits(t, zz, run) && zz != [] && zz[0] != 0 && run >= 16 && count < 64
    ensures SkipAc(t, AcBits(t, zz, run) + rest, count) == SkipAc(t, AcBits(t, zz, run - 16) + rest, count + 16)
  {
    hide SkipAc, SymbolBits, Decode, Category, KraftSum, CountTo;
    var code, tail := SymbolBits(t, ZRL), AcBits(t, zz, run - 16);
    assert AcBits(t, zz, run) == code + tail;
    Reassociate(code, tail, rest);
    SymbolRoundTrip(t, ZRL, tail + rest);
    SkipZrl(t, code + (tail + rest), count, tail + rest);
  }

  lemma {:induction false} CoefficientSkipped(t: Spec, zz: seq<int>, run: nat, count: nat, rest: seq<bool>)
    requires Kraft(t) && AcFits(t, zz, run) && zz != [] && zz[0] != 0 && run < 16 && count < 64
    ensures SkipAc(t, AcBits(t, zz, run) + rest, count) == SkipAc(t, AcBits(t, zz[1..], 0) + rest, count + run + 1)
  {
    hide SkipAc, SymbolBits, Decode, MagnitudeBits, KraftSum, CountTo;
    var n := Category(zz[0]);
    assert n > 0;
    hide Category;
    var code, mag, tail := SymbolBits(t, 16 * run + n), MagnitudeBits(zz[0]), AcBits(t, zz[1..], 0);
    assert AcBits(t, zz, run) == (code + mag) + tail;
    hide AcBits, AcFits;
    Regroup(code, mag, tail, rest);
    ExtendUndoes(zz[0]);
    SymbolRoundTrip(t, 16 * run + n, mag + (tail + rest));
    SkipCoefficient(t, code + (mag + (tail + rest)), count, run, n, mag, tail + rest);
  }

  /** The decoder reads past the AC coefficients of one block and nothing more: the EOB, ZRL
      and full-block endings all leave exactly what follows the block. */
  lemma {:induction false} AcRoundTrip(t: Spec, zz: seq<int>, run: nat, count: nat, rest: seq<bool>)
    requires Kraft(t) && AcFits(t, zz, run) && count + run + |zz| == 64
    ensures SkipAc(t, AcBits(t, zz, run) + rest, count) == rest
    decreases |zz|, run
  {
    hide SymbolBits, Decode, MagnitudeBits, Category, KraftSum, CountTo;
    if zz == [] {
      if run == 0 {
        assert AcBits(t, zz, run) + rest == rest;
      } else {
        SymbolRoundTrip(t, EOB, rest);
        SkipEob(t, SymbolBits(t, EOB) + rest, count, rest);
      }
    } else if zz[0] == 0 {
      hide SkipAc;
      AcRoundTrip(t, zz[1..], run + 1, count, rest);
    } else if run >= 16 {
      hide SkipAc;
      ZrlSkipped(t, zz, run, count, rest);
      AcRoundTrip(t, zz, run - 16, count + 16, rest);
    } else {
      hide SkipAc;
      CoefficientSkipped(t, zz, run, count, rest);
      AcRoundTrip(t, zz[1..], 0, count + run + 1, rest);
    }
  }

  // ---- The whole block ----

  datatype Block = Block(dc: int, zz: seq<int>)

  /** The two tables of a component. */
  datatype Tables = Tables(dc: Spec, ac: Spec)

  ghost predicate GoodTables(h: Tables) {
    Kraft(h.dc) && Kraft(h.ac)
  }

  ghost predicate BlockFits(h: Tables, b: Block, pred: int) {
    && |b.zz| == 63
    && -32768 <= b.dc <= 32767 && -32768 <= b.dc - pred <= 32767
    && DcFits(h.dc, b.dc - pred) && AcFits(h.ac, b.zz, 0)
  }

  /** A block coded with DC prediction `pred`. */
  ghost function BlockBits(h: Tables, b: Block, pred: int): seq<bool>
    requires GoodTables(h) && BlockFits(h, b, pred)
  {
    DcBits(h.dc, b.dc - pred) + AcBits(h.ac, b.zz, 0)
  }

  /** Conversion to a 16-bit signed integer, with wrap-around. */
  function ToInt16(v: int): int {
    (v + 0x8000) % 0x1_0000 - 0x8000
  }

  /** The value modulo 2^16, between -2^15 and 2^15 - 1. */
  lemma {:induction false} Int16Wraps(v: int) returns (m: int)
    ensures v == m * 65536 + ToInt16(v) && -32768 <= ToInt16(v) <= 32767
  {
    m := (v + 0x8000) / 0x1_0000;
  }

  /** The outcome of decoding one block: the new DC value, or failure, and the bits left. */
  datatype Outcome = Failed(rest: seq<bool>) | Got(dc: int, rest: seq<bool>)

  /** The DC difference: its category, then that many additional bits. */
  ghost function DecodeDiff(t: Spec, s: seq<bool>): Outcome
    requires ValidSpec(t)
  {
    var d := Decode(t, s);
    if d.symbol < 0 || |d.rest| < d.symbol then Failed(d.rest)
    else Got(Extend(Value(d.rest[..d.symbol]), d.symbol), d.rest[d.symbol..])
  }

  ghost function DecodeBlock(h: Tables, s: seq<bool>, pred: int): Outcome
    requires ValidSpec(h.dc) && ValidSpec(h.ac)
  {
    match DecodeDiff(h.dc, s)
    case Failed(rest) => Failed(rest)
    case Got(diff, rest) => Got(ToInt16(pred + ToInt16(diff)), SkipAc(h.ac, rest, 1))
  }

  /** A block fails exactly when no DC symbol can be decoded or its bits are not all there; what is wrong
      with its AC coefficients never makes it fail. */
  lemma {:induction false} BlockFailsIff(h: Tables, s: seq<bool>, pred: int)
    requires ValidSpec(h.dc) && ValidSpec(h.ac)
    ensures var d := Decode(h.dc, s);
            DecodeBlock(h, s, pred).Failed? <==> d.symbol < 0 || |d.rest| < d.symbol
  {
    hide Decode, SkipAc, Extend, Value;
  }

  lemma {:induction false} DiffRoundTrip(t: Spec, diff: int, rest: seq<bool>)
    requires Kraft(t) && DcFits(t, diff)
    ensures DecodeDiff(t, DcBits(t, diff) + rest) == Got(diff, rest)
  {
    hide SymbolBits, Decode, MagnitudeBits, Category, Extend, Value, KraftSum, CountTo;
    var n := Category(diff);
    var code, mag := SymbolBits(t, n), MagnitudeBits(diff);
    Reassociate(code, mag, rest);
    SymbolRoundTrip(t, n, mag + rest);
    ExtendUndoes(diff);
    assert (mag + rest)[..n] == mag && (mag + rest)[n..] == rest;
  }

  /** Decoding a coded block gives back its DC value and consumes exactly its bits. */
  lemma {:induction false} BlockRoundTrip(h: Tables, b: Block, pred: int, rest: seq<bool>)
    requires GoodTables(h) && BlockFits(h, b, pred)
    ensures DecodeBlock(h, BlockBits(h, b, pred) + rest, pred) == Got(b.dc, rest)
  {
    hide DecodeDiff, DcBits, AcBits, AcFits, DcFits, SkipAc, KraftSum, CountTo;
    var dc, ac := DcBits(h.dc, b.dc - pred), AcBits(h.ac, b.zz, 0);
    Reassociate(dc, ac, rest);
    DiffRoundTrip(h.dc, b.dc - pred, ac + rest);
    AcRoundTrip(h.ac, b.zz, 0, 1, rest);
  }

  // ---- The decoder's code ----

  /** The one DC category the code cannot be asked for: it would shift a word by 32. */
  ghost predicate ShiftsDefined(t: Spec) {
    forall i :: 0 <= i < |t.symbols| ==> t.symbols[i] != 32
  }

  /** The next DC category can be served in one request, whatever has been prefetched. Baseline
      streams use at most 11. */
  ghost predicate Served(t: Spec, s: seq<bool>)
    requires ValidSpec(t)
  {
    Decode(t, s).symbol <= 25
  }

  /** Every coded block is served: its category is at most 16. */
  lemma {:induction false} CodedIsServed(h: Tables, b: Block, pred: int, rest: seq<bool>)
    requires GoodTables(h) && BlockFits(h, b, pred)
    ensures Served(h.dc, BlockBits(h, b, pred) + rest)
  {
    hide SymbolBits, Decode, MagnitudeBits, Category, AcBits, AcFits, KraftSum, CountTo;
    var diff := b.dc - pred;
    var n := Category(diff);
    var code, mag, ac := SymbolBits(h.dc, n), MagnitudeBits(diff), AcBits(h.ac, b.zz, 0);
    assert BlockBits(h, b, pred) + rest == code + (mag + (ac + rest));
    SymbolRoundTrip(h.dc, n, mag + (ac + rest));
    CategoryBound(diff);
  }

  lemma {:induction false} CategoryBound(v: int)
    requires -32768 <= v <= 32767
    ensures Category(v) <= 16
  {
    assert Pow2(8) == 256;
    Pow2Adds(8, 8);
    BitLengthBound(Magnitude(v), 16);
  }

  /** One turn of the skipping loop. */
  lemma {:induction false} SkipStep(t: Spec, s: seq<bool>, count: nat)
    requires ValidSpec(t) && count < 64
    ensures var d := Decode(t, s);
            SkipAc(t, s, count) ==
            if d.symbol < 0 then d.rest
            else if d.symbol % 16 == 0 then (if d.symbol / 16 == 15 then SkipAc(t, d.rest, count + 16) else d.rest)
            else if |d.rest| < d.symbol % 16 then d.rest
            else SkipAc(t, d.rest[d.symbol % 16..], count + d.symbol / 16 + 1)
  {
    hide Decode;
  }

  /** Skip the AC coefficients of one block: the loop from coefficient 1. */
  method SkipCoefficients(p: Reader, ht: HuffTable, ghost t: Spec)
    requires p.Valid() && Built(ht, t)
    modifies p
    ensures p.Valid() && p.End() == old(p.End())
    ensures p.Stream() == SkipAc(t, old(p.Stream()), 1)
  {
    hide *;
    BuiltIsValid(ht, t);
    ghost var rest := SkipAc(t, p.Stream(), 1);
    var count := 1;
    while count < 64
      invariant p.Valid() && p.End() == old(p.End())
      invariant SkipAc(t, p.Stream(), count) == rest
      decreases 64 - count
    {
      SkipStep(t, p.Stream(), count);
      var acSym := HuffDecode(p, ht, t);
      if acSym < 0 {
        return;
      }
      var run, size := acSym / 16, acSym % 16;
      if size == 0 {
        if run == 0 {
          return;
        }
        if run == 15 {
          count := count + 16;
          continue;
        }
        return;
      }
      count := count + run + 1;
      var mag := p.Get(size);
      if mag < 0 {
        return;
      }
    }
    SkipEnd(t, p.Stream(), count);
  }

  lemma {:induction false} SkipEnd(t: Spec, s: seq<bool>, count: nat)
    requires ValidSpec(t) && count >= 64
    ensures SkipAc(t, s, count) == s
  {
  }

  ghost function OutcomeOf(ok: bool, dc: int, rest: seq<bool>): Outcome {
    if ok then Got(dc, rest) else Failed(rest)
  }

  method DecodeDcDiff(p: Reader, ht: HuffTable, ghost t: Spec) returns (ok: bool, diff: int)
    requires p.Valid() && Built(ht, t) && ShiftsDefined(t)
    modifies p
    ensures p.Valid() && p.End() == old(p.End())
    ensures ValidSpec(t)
    ensures Served(t, old(p.Stream())) ==> OutcomeOf(ok, diff, p.Stream()) == DecodeDiff(t, old(p.Stream()))
  {
    hide CountTo;
    BuiltIsValid(ht, t);
    CategoryDefined(t, p.Stream());
    hide Decode, Reader.Stream, Reader.End, Reader.Valid, Built, ValidSpec, ShiftsDefined, Value, Extend, Reach;
    ok, diff := false, 0;
    var cat := HuffDecode(p, ht, t);
    if cat < 0 {
      return;
    }
    var bits := p.Get(cat);
    if bits < 0 && cat > 0 {
      return;
    }
    ok, diff := true, Extend(bits, cat);
  }

  /** Decode one block: the DC difference updates the prediction, then the rest is skipped. */
  method DecodeBlockDc(p: Reader, dcHt: HuffTable, acHt: HuffTable, pred: int, ghost h: Tables) returns (ok: bool, dc: int)
    requires p.Valid() && Built(dcHt, h.dc) && Built(acHt, h.ac) && ShiftsDefined(h.dc)
    modifies p
    ensures p.Valid() && p.End() == old(p.End())
    ensures ValidSpec(h.dc) && ValidSpec(h.ac)
    ensures Served(h.dc, old(p.Stream())) ==> OutcomeOf(ok, dc, p.Stream()) == DecodeBlock(h, old(p.Stream()), pred)
  {
    hide *;
    BuiltIsValid(dcHt, h.dc);
    BuiltIsValid(acHt, h.ac);
    ghost var s := p.Stream();
    BlockParts(h, s, pred);
    var diff;
    ok, diff := DecodeDcDiff(p, dcHt, h.dc);
    dc := ToInt16(pred + ToInt16(diff));
    if ok {
      SkipCoefficients(p, acHt, h.ac);
    }
  }

  lemma {:induction false} BuiltIsValid(ht: HuffTable, t: Spec)
    requires Built(ht, t)
    ensures ValidSpec(t)
  {
  }

  lemma {:induction false} BlockParts(h: Tables, s: seq<bool>, pred: int)
    requires ValidSpec(h.dc) && ValidSpec(h.ac)
    ensures forall diff, rest, dc :: OutcomeOf(false, diff, rest) == DecodeDiff(h.dc, s) ==>
              OutcomeOf(false, dc, rest) == DecodeBlock(h, s, pred)
    ensures forall diff, rest :: OutcomeOf(true, diff, rest) == DecodeDiff(h.dc, s) ==>
              OutcomeOf(true, ToInt16(pred + ToInt16(diff)), SkipAc(h.ac, rest, 1)) == DecodeBlock(h, s, pred)
  {
    hide DecodeDiff, SkipAc, ToInt16;
  }

  lemma {:induction false} CategoryDefinedFrom(t: Spec, s: seq<bool>, code: nat, len: nat)
    requires ValidSpec(t) && ShiftsDefined(t) && 1 <= len <= 17
    requires len <= 16 ==> 2 * code >= FirstCode(t.counts, len)
    ensures DecodeFrom(t, s, code, len).symbol != 32
    decreases 17 - len
  {
    if len <= 16 && s != [] {
      DecodeStep(t, s, code, len, BitValue(s[0]));
      var c := 2 * code + BitValue(s[0]);
      if c >= FirstCode(t.counts, len) + t.counts[len] {
        CategoryDefinedFrom(t, s[1..], c, len + 1);
      }
    }
  }

  lemma {:induction false} CategoryDefined(t: Spec, s: seq<bool>)
    requires ValidSpec(t) && ShiftsDefined(t)
    ensures Decode(t, s).symbol != 32
  {
    CategoryDefinedFrom(t, s, 0, 1);
  }
}
