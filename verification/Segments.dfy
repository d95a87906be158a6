/** Entropy-coded segments as bytes: padding with one-bits, byte stuffing, and how the reader
    sees a stuffed segment that is followed by a marker. */
module Segments {
  import opened Bits
  import opened BitReader

  function Ones(n: nat): (s: seq<bool>)
    ensures |s| == n
  {
    if n == 0 then [] else [true] + Ones(n - 1)
  }

  /** How many one-bits complete the last byte (section F.1.2.3 of ITU-T T.81). */
  function PadLength(s: seq<bool>): (n: nat)
    ensures n < 8 && (|s| + n) % 8 == 0
  {
    (8 - |s| % 8) % 8
  }

  function Padding(s: seq<bool>): (r: seq<bool>)
    ensures |r| < 8 && |s + r| % 8 == 0
  {
    Ones(PadLength(s))
  }

  function ToBytes(s: seq<bool>): (bytes: seq<nat>)
    requires |s| % 8 == 0
  {
    if s == [] then [] else [Value(s[..8])] + ToBytes(s[8..])
  }

  /** A zero byte is stuffed after every 0xFF. */
  function Stuff(bytes: seq<nat>): seq<nat> {
    if bytes == [] then []
    else (if bytes[0] == 0xFF then [0xFF, 0x00] else [bytes[0]]) + Stuff(bytes[1..])
  }

  /** What ends a run of data: the end of the stream, or a marker. */
  ghost predicate Stops(tail: seq<nat>) {
    tail == [] || (|tail| >= 2 && tail[0] == 0xFF && tail[1] != 0)
  }

  lemma {:induction false} BitsOfBytes(s: seq<bool>)
    requires |s| % 8 == 0
    ensures OfBytes(ToBytes(s)) == s
    decreases |s|
  {
    if s != [] {
      var head, rest := s[..8], s[8..];
      BitsOfBytes(rest);
      LowOfValue(head);
      FirstByte(Value(head), ToBytes(rest));
      assert s == head + rest;
    }
  }

  lemma {:induction false} DropMore(data: seq<nat>, pos: nat, n: nat)
    requires pos + n <= |data|
    ensures data[pos + n..] == data[pos..][n..]
  {
  }

  /** The reader undoes stuffing: from the start of a stuffed segment it sees the original bytes,
      and the run ends where the segment does. */
  lemma {:induction false} UnstuffSegment(data: seq<nat>, pos: nat, bytes: seq<nat>, tail: seq<nat>)
    requires pos <= |data| && data[pos..] == Stuff(bytes) + tail && Stops(tail)
    ensures Unstuffed(data, pos) == bytes
    ensures RunEnd(data, pos) == pos + |Stuff(bytes)|
    decreases |bytes|
  {
    if bytes == [] {
      assert data[pos..] == tail;
      if tail != [] {
        assert data[pos] == tail[0] && data[pos + 1] == tail[1];
      }
    } else {
      var n := if bytes[0] == 0xFF then 2 else 1;
      var head := if bytes[0] == 0xFF then [0xFF, 0x00] else [bytes[0]];
      assert data[pos..] == head + (Stuff(bytes[1..]) + tail);
      assert data[pos] == bytes[0];
      assert n == 2 ==> data[pos + 1] == data[pos..][1] == 0;
      DropMore(data, pos, n);
      UnstuffSegment(data, pos + n, bytes[1..], tail);
      RunStep(data, pos, pos + n);
    }
  }

  /** A segment carrying the bits `s`. */
  ghost function SegmentBytes(s: seq<bool>): seq<nat> {
    Stuff(ToBytes(s + Padding(s)))
  }

  /** A freshly aligned reader at the start of a segment sees its bits and the padding. */
  lemma {:induction false} SegmentRead(data: seq<nat>, pos: nat, s: seq<bool>, tail: seq<nat>)
    requires pos <= |data| && data[pos..] == SegmentBytes(s) + tail && Stops(tail)
    ensures StreamOf(0, 0, Unstuffed(data, pos)) == s + Padding(s)
    ensures RunEnd(data, pos) == pos + |SegmentBytes(s)|
  {
    hide Unstuffed, RunEnd, Stuff, ToBytes, Padding, OfBytes, Stops;
    UnstuffSegment(data, pos, ToBytes(s + Padding(s)), tail);
    BitsOfBytes(s + Padding(s));
    assert Low(0, 0) + (s + Padding(s)) == s + Padding(s);
  }

  /** Once less than a byte of the run is left, prefetch has reached the end of the run. */
  lemma {:induction false} DrainedRun(data: seq<nat>, pos: nat, buf: nat, cnt: nat)
    requires |StreamOf(buf, cnt, Unstuffed(data, pos))| < 8 && RunEnd(data, pos) < |data|
    ensures pos == RunEnd(data, pos)
  {
    assert Unstuffed(data, pos) == [];
    AtMarker(data, pos);
  }
}
