/** The prefetching bit reader over byte-stuffed entropy-coded data. Whatever has been
    prefetched, the bits still to be delivered are the pending low bits of the buffer followed
    by the unstuffed bytes up to the next marker. */
module BitReader {
  import opened Bits

  const WORD := 0x1_0000_0000

  /** The data bytes from `pos` up to the next marker, with stuffed zeros removed
      (section F.1.2.3 of ITU-T T.81). */
  ghost function Unstuffed(data: seq<nat>, pos: nat): seq<nat>
    decreases |data| - pos
  {
    if pos >= |data| then []
    else if data[pos] != 0xFF then [data[pos]] + Unstuffed(data, pos + 1)
    else if pos + 1 < |data| && data[pos + 1] == 0 then [0xFF] + Unstuffed(data, pos + 2)
    else []
  }

  /** Where that run of data ends: at the next marker, or past the last byte. */
  ghost function RunEnd(data: seq<nat>, pos: nat): nat
    decreases |data| - pos
  {
    if pos >= |data| then pos
    else if data[pos] != 0xFF then RunEnd(data, pos + 1)
    else if pos + 1 >= |data| then |data|
    else if data[pos + 1] == 0 then RunEnd(data, pos + 2)
    else pos
  }

  ghost predicate Bytes(data: seq<nat>) {
    forall i :: 0 <= i < |data| ==> data[i] <= 255
  }

  /** The bits still to be delivered: the pending low bits of the buffer, then the bytes of the run. */
  ghost function StreamOf(buf: nat, cnt: nat, bytes: seq<nat>): seq<bool> {
    Low(buf, cnt) + OfBytes(bytes)
  }

  lemma {:induction false} WordSizes()
    ensures Pow2(8) == 256 && Pow2(32) == WORD
  {
    assert Pow2(4) == 16;
    Pow2Adds(4, 4);
    Pow2Adds(8, 8);
    Pow2Adds(16, 16);
  }

  lemma {:induction false} PushBits(buf: nat, cnt: nat, b: nat)
    requires b <= 255 && cnt <= 24
    ensures Low((buf * 256 + b) % WORD, cnt + 8) == Low(buf, cnt) + Low(b, 8)
  {
    WordSizes();
    LowShifted(buf, b, cnt, 8);
    LowOfTruncated(buf * 256 + b, cnt + 8, 32);
  }

  /** Shifting one more byte into the 32-bit buffer keeps the stream. */
  lemma {:induction false} PushByte(buf: nat, cnt: nat, b: nat, rest: seq<nat>)
    requires b <= 255 && cnt <= 24
    ensures StreamOf((buf * 256 + b) % WORD, cnt + 8, rest) == StreamOf(buf, cnt, [b] + rest)
  {
    PushBits(buf, cnt, b);
    FirstByte(b, rest);
    Reassociate(Low(buf, cnt), Low(b, 8), OfBytes(rest));
  }

  lemma {:induction false} FirstByte(b: nat, rest: seq<nat>)
    ensures OfBytes([b] + rest) == Low(b, 8) + OfBytes(rest)
  {
    assert ([b] + rest)[1..] == rest;
  }

  lemma {:induction false} Reassociate<T>(a: seq<T>, b: seq<T>, c: seq<T>)
    ensures (a + b) + c == a + (b + c)
  {
  }

  /** Taking `n` of the `cnt` pending bits by shift and mask. */
  lemma {:induction false} TakeBits(buf: nat, cnt: nat, n: nat, rest: seq<nat>)
    requires n <= cnt
    ensures n <= |StreamOf(buf, cnt, rest)|
    ensures Value(StreamOf(buf, cnt, rest)[..n]) == (buf / Pow2(cnt - n)) % Pow2(n)
    ensures StreamOf(buf, cnt, rest)[n..] == StreamOf(buf, cnt - n, rest)
  {
    var hi, lo := Low(Shift(buf, cnt - n), n), Low(buf, cnt - n);
    LowSplit(buf, n, cnt - n);
    ShiftDivides(buf, cnt - n);
    ValueOfMasked(Shift(buf, cnt - n), n);
    assert StreamOf(buf, cnt, rest) == hi + (lo + OfBytes(rest));
  }

  /** The first byte of a run. */
  lemma {:induction false} RunStep(data: seq<nat>, pos: nat, next: nat)
    requires pos < |data|
    requires next == if data[pos] == 0xFF then pos + 2 else pos + 1
    requires data[pos] == 0xFF ==> pos + 1 < |data| && data[pos + 1] == 0
    ensures Unstuffed(data, pos) == [data[pos]] + Unstuffed(data, next)
    ensures RunEnd(data, pos) == RunEnd(data, next)
  {
  }

  /** How many pending bits prefetch can reach from `cnt`: whole bytes are added while at most 24 bits
      are pending. At least 25, at most 32. */
  function Reach(cnt: nat): (r: nat)
    requires cnt <= 32
    ensures 25 <= r <= 32 && cnt <= r && (cnt > 24 ==> r == cnt)
    ensures cnt <= 24 ==> r == Reach(cnt + 8)
    decreases 32 - cnt
  {
    if cnt > 24 then cnt else Reach(cnt + 8)
  }

  class Reader {
    const data: seq<nat>
    var pos: nat
    var bitBuf: nat
    var bitCnt: nat

    constructor (bytes: seq<nat>, start: nat)
      requires start <= |bytes| && Bytes(bytes)
      ensures Valid() && data == bytes && pos == start && bitCnt == 0 && bitBuf == 0
    {
      data, pos, bitBuf, bitCnt := bytes, start, 0, 0;
    }

    ghost predicate Valid()
      reads this
    {
      pos <= |data| && Bytes(data) && bitBuf < WORD && bitCnt <= 32
    }

    /** The bits still to be delivered before the next marker. */
    ghost function Stream(): seq<bool>
      reads this
    {
      StreamOf(bitBuf, bitCnt, Unstuffed(data, pos))
    }

    ghost function End(): nat
      reads this
    {
      RunEnd(data, pos)
    }

    /** Prefetch: move whole bytes into the buffer while they fit. Delivers nothing, loses nothing. */
    method Fill() returns (gotAny: bool)
      requires Valid()
      modifies this
      ensures Valid() && Stream() == old(Stream()) && End() == old(End())
      ensures bitCnt >= old(bitCnt) && (gotAny <==> bitCnt > old(bitCnt))
      ensures Reach(bitCnt) == Reach(old(bitCnt))
      ensures bitCnt <= 24 ==> Unstuffed(data, pos) == []
    {
      hide Low, OfBytes, StreamOf;
      gotAny := false;
      ghost var s, end := Stream(), End();
      while bitCnt <= 24 && pos < |data|
        invariant Valid() && Stream() == s && End() == end
        invariant bitCnt >= old(bitCnt) && (gotAny <==> bitCnt > old(bitCnt))
        invariant Reach(bitCnt) == Reach(old(bitCnt))
        decreases |data| - pos
      {
        var b := data[pos];
        if b == 0xFF && pos + 1 >= |data| {
          pos := pos + 1;
          return;
        }
        if b == 0xFF && data[pos + 1] != 0x00 {
          // a marker: it stays unread
          return;
        }
        var next := if b == 0xFF then pos + 2 else pos + 1;
        RunStep(data, pos, next);
        PushByte(bitBuf, bitCnt, b, Unstuffed(data, next));
        pos := next;
        bitBuf := (bitBuf * 256 + b) % WORD;
        bitCnt := bitCnt + 8;
        gotAny := true;
      }
    }

    /** The next `n` bits, or -1 exactly when fewer remain before the next marker or prefetch cannot
        hold that many; up to 25 it always can. A shift by 32 is not defined in C. */
    method Get(n: nat) returns (r: int)
      requires Valid() && n != 32
      modifies this
      ensures Valid() && End() == old(End())
      ensures r == -1 <==> |old(Stream())| < n || n > Reach(old(bitCnt))
      ensures r != -1 ==> r == Value(old(Stream())[..n]) && Stream() == old(Stream())[n..]
      ensures r == -1 ==> Stream() == old(Stream())
    {
      ghost var s := Stream();
      if n == 0 {
        assert s[..0] == [] && s[0..] == s;
        return 0;
      }
      while bitCnt < n
        invariant Valid() && Stream() == s && End() == old(End())
        invariant Reach(bitCnt) == Reach(old(bitCnt))
        decreases 32 - bitCnt
      {
        var got := Fill();
        if !got {
          assert bitCnt <= 24 ==> s == StreamOf(bitBuf, bitCnt, []);
          return -1;
        }
      }
      TakeBits(bitBuf, bitCnt, n, Unstuffed(data, pos));
      bitCnt := bitCnt - n;
      r := (bitBuf / Pow2(bitCnt)) % Pow2(n);
    }

    /** A request for one bit. */
    method NextBit() returns (r: int)
      requires Valid()
      modifies this
      ensures Valid() && End() == old(End())
      ensures r == -1 <==> old(Stream()) == []
      ensures r != -1 ==> r == BitValue(old(Stream())[0]) && Stream() == old(Stream())[1..]
      ensures r == -1 ==> Stream() == []
    {
      hide Stream, End, Valid;
      ghost var s := Stream();
      r := Get(1);
      if s != [] {
        assert s[..1] == [] + [s[0]];
        ValueAppend([], s[0]);
      }
    }

    /** Byte alignment at the end of a restart interval: drop what is pending. */
    method Reset()
      requires Valid()
      modifies this
      ensures Valid() && pos == old(pos) && bitCnt == 0 && bitBuf == 0
    {
      bitCnt := 0;
      bitBuf := 0;
    }
  }

  /** When less than a byte is left of a run that ends at a marker, prefetch has reached the marker. */
  lemma {:induction false} AtMarker(data: seq<nat>, pos: nat)
    requires Unstuffed(data, pos) == [] && RunEnd(data, pos) < |data|
    ensures pos == RunEnd(data, pos)
  {
  }
}
