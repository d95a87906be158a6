/** The marker segments in front of the scan: what the parser makes of any bytes, the segments as
    section B.2 of ITU-T T.81 lays them out, and that parsing undoes the layout. */
module JpegHeader {
  import opened Options
  import opened Bits
  import opened BitReader
  import opened Huffman
  import opened ScanCode

  /** A frame component: identifier, sampling factors, quantisation table. */
  datatype FrameComp = FrameComp(id: nat, h: nat, v: nat, qt: nat)

  /** A scan component: its place among the frame components and its tables. */
  datatype ScanComp = ScanComp(idx: nat, dc: nat, ac: nat)

  /** What the parser has read so far, tables as transmitted. */
  datatype Header = Header(
    gotSof: bool, height: nat, width: nat, nComps: nat, comps: seq<FrameComp>, maxH: nat, maxV: nat,
    dc: seq<Option<Spec>>, ac: seq<Option<Spec>>, qt: seq<nat>, restart: nat, scan: seq<ScanComp>)

  const NO_COMP := FrameComp(0, 0, 0, 0)

  const BLANK: Header :=
    Header(false, 0, 0, 0, [NO_COMP, NO_COMP, NO_COMP], 0, 0, [None, None], [None, None], [0, 0, 0, 0], 0, [])

  ghost predicate HeaderOk(h: Header) {
    && |h.comps| == MAX_COMPONENTS && h.nComps <= MAX_COMPONENTS && |h.scan| <= MAX_COMPONENTS
    && |h.dc| == |h.ac| == 2 && |h.qt| == 4
    && (forall i :: 0 <= i < 2 && h.dc[i].Some? ==> ValidSpec(h.dc[i].value))
    && (forall i :: 0 <= i < 2 && h.ac[i].Some? ==> ValidSpec(h.ac[i].value))
    && (h.gotSof ==> h.maxH >= 1 && h.maxV >= 1)
    && (forall i :: 0 <= i < |h.scan| ==> h.scan[i].idx < MAX_COMPONENTS)
  }

  /** `Stuck`: a Huffman segment that runs past the data is never left. */
  datatype Outcome = Done(h: Header, pos: nat) | Bad | Stuck

  // --- Reading bytes: past the end every byte is zero and the position stays ------------

  function ByteAt(data: seq<nat>, i: nat): nat {
    if i < |data| then data[i] else 0
  }

  function WordAt(data: seq<nat>, i: nat): nat {
    256 * ByteAt(data, i) + ByteAt(data, i + 1)
  }

  /** The position after reading `n` bytes. */
  function Past(data: seq<nat>, pos: nat, n: nat): (p: nat)
    ensures pos <= p <= pos + n
    ensures pos + n <= |data| ==> p == pos + n
    ensures pos <= |data| ==> p <= |data|
  {
    if pos + n <= |data| then pos + n else if pos < |data| then |data| else pos
  }

  // --- Parsing, one segment kind at a time ----------------------------------------------

  function FrameCompAt(data: seq<nat>, i: nat): FrameComp {
    FrameComp(ByteAt(data, i), ByteAt(data, i + 1) / 16, ByteAt(data, i + 1) % 16, ByteAt(data, i + 2))
  }

  function Max(a: nat, b: nat): nat { if a > b then a else b }

  /** The largest sampling factors among the first `n` components, at least 1. */
  function MaxH(comps: seq<FrameComp>, n: nat): (m: nat)
    requires n <= |comps|
    ensures m >= 1 && forall i :: 0 <= i < n ==> comps[i].h <= m
  {
    if n == 0 then 1 else Max(comps[n - 1].h, MaxH(comps, n - 1))
  }

  function MaxV(comps: seq<FrameComp>, n: nat): (m: nat)
    requires n <= |comps|
    ensures m >= 1 && forall i :: 0 <= i < n ==> comps[i].v <= m
  {
    if n == 0 then 1 else Max(comps[n - 1].v, MaxV(comps, n - 1))
  }

  /** `parse_sof0`, from just after the marker. */
  function ParseFrame(h: Header, data: seq<nat>, pos: nat): Outcome
    requires |h.comps| == MAX_COMPONENTS
  {
    var n := ByteAt(data, pos + 7);
    if ByteAt(data, pos + 2) != 8 || n > MAX_COMPONENTS then Bad
    else
      var comps := seq(MAX_COMPONENTS, i requires 0 <= i < MAX_COMPONENTS =>
        if i < n then FrameCompAt(data, pos + 8 + 3 * i) else h.comps[i]);
      Done(h.(gotSof := true, height := WordAt(data, pos + 3), width := WordAt(data, pos + 5),
              nComps := n, comps := comps, maxH := MaxH(comps, n), maxV := MaxV(comps, n)),
           Past(data, pos, 8 + 3 * n))
  }

  function CountsAt(data: seq<nat>, i: nat): (c: seq<nat>)
    ensures |c| == 17
  {
    [0] + BytesAt(data, i, 16)
  }

  function BytesAt(data: seq<nat>, i: nat, n: nat): (s: seq<nat>)
    ensures |s| == n
  {
    seq<nat>(n, k requires 0 <= k < n => ByteAt(data, i + k))
  }

  /** `parse_dht` inside its loop, with the segment ending at `end`. */
  ghost function ParseHuff(h: Header, data: seq<nat>, pos: nat, end: int): Outcome
    requires |h.dc| == |h.ac| == 2
    decreases if pos < |data| then |data| - pos else 0
  {
    if pos >= end then Done(h, pos)
    else if pos >= |data| then Stuck
    else
      var info, counts := data[pos], CountsAt(data, pos + 1);
      if info % 16 > 1 || Total(counts) > 256 then Bad
      else
        var t := Spec(counts, BytesAt(data, pos + 17, Total(counts)));
        ParseHuff(SetHuff(h, info / 16, info % 16, t), data, Past(data, pos, 17 + Total(counts)), end)
  }

  function SetHuff(h: Header, cls: nat, id: nat, t: Spec): Header
    requires |h.dc| == |h.ac| == 2 && id <= 1
  {
    if cls == 0 then h.(dc := h.dc[id := Some(t)]) else h.(ac := h.ac[id := Some(t)])
  }

  /** `parse_dqt` inside its loop: only the first entry of a table is kept. */
  function ParseQuant(h: Header, data: seq<nat>, pos: nat, end: int): Outcome
    requires |h.qt| == 4
    decreases end - pos
  {
    if pos >= end then Done(h, pos)
    else
      var info, at := ByteAt(data, pos), Past(data, pos, 1);
      if info % 16 >= 4 then Bad
      else if info / 16 == 0 then
        ParseQuant(h.(qt := h.qt[info % 16 := ByteAt(data, pos + 1)]), data, Past(data, at, 1) + 63, end)
      else
        ParseQuant(h.(qt := h.qt[info % 16 := WordAt(data, pos + 1)]), data, Past(data, at, 2) + 126, end)
  }

  /** The first of the `n` frame components with this identifier, or the first component. */
  function CompIndex(comps: seq<FrameComp>, n: nat, id: nat, from: nat): (i: nat)
    requires n <= |comps|
    ensures n > 0 ==> i < n
    ensures n == 0 ==> i == 0
    decreases n - from
  {
    if from >= n then 0 else if comps[from].id == id then from else CompIndex(comps, n, id, from + 1)
  }

  /** An identifier stands for the first frame component that carries it, and for the first component of
      all when none does. */
  lemma {:induction false} FirstWithId(comps: seq<FrameComp>, n: nat, id: nat, from: nat)
    requires from <= n <= |comps|
    ensures var i := CompIndex(comps, n, id, from);
            if forall k :: from <= k < n ==> comps[k].id != id then i == 0
            else from <= i < n && comps[i].id == id && forall k :: from <= k < i ==> comps[k].id != id
    decreases n - from
  {
    if from < n && comps[from].id != id {
      FirstWithId(comps, n, id, from + 1);
    }
  }

  /** The largest factors are 1 or those of some component. */
  lemma {:induction false} MaxAttained(comps: seq<FrameComp>, n: nat)
    requires n <= |comps|
    ensures MaxH(comps, n) == 1 || exists i :: 0 <= i < n && comps[i].h == MaxH(comps, n)
    ensures MaxV(comps, n) == 1 || exists i :: 0 <= i < n && comps[i].v == MaxV(comps, n)
  {
    if n > 0 {
      MaxAttained(comps, n - 1);
      assert comps[n - 1].h == MaxH(comps, n) || MaxH(comps, n - 1) == MaxH(comps, n);
      assert comps[n - 1].v == MaxV(comps, n) || MaxV(comps, n - 1) == MaxV(comps, n);
    }
  }

  function ScanCompAt(h: Header, data: seq<nat>, i: nat): ScanComp
    requires h.nComps <= |h.comps|
  {
    ScanComp(CompIndex(h.comps, h.nComps, ByteAt(data, i), 0), ByteAt(data, i + 1) / 16, ByteAt(data, i + 1) % 16)
  }

  /** `parse_sos`. */
  function ParseScan(h: Header, data: seq<nat>, pos: nat): Outcome
    requires h.nComps <= |h.comps|
  {
    var n := ByteAt(data, pos + 2);
    if n > MAX_COMPONENTS then Bad
    else
      Done(h.(scan := seq(n, i requires 0 <= i < n => ScanCompAt(h, data, pos + 3 + 2 * i))), Past(data, pos, 6 + 2 * n))
  }

  /** The marker after an 0xFF and fill bytes, and the position after it. */
  function MarkerAt(data: seq<nat>, pos: nat): (r: (nat, nat))
    requires pos < |data|
    ensures pos < r.1 <= |data|
    decreases |data| - pos
  {
    if data[pos] == 0xFF && pos + 1 < |data| then MarkerAt(data, pos + 1) else (data[pos], pos + 1)
  }

  /** The position after a segment that is not looked into. */
  function SkipSegment(data: seq<nat>, pos: nat): (p: nat)
    ensures p >= pos
  {
    var len := WordAt(data, pos);
    Past(data, pos, 2) + if len >= 2 then len - 2 else 0
  }

  /** The segment of a marker other than SOS. */
  ghost function ParseSegment(h: Header, data: seq<nat>, marker: nat, pos: nat): (r: Outcome)
    requires HeaderOk(h)
  {
    if marker == 0xC0 then ParseFrame(h, data, pos)
    else if marker == 0xC4 then ParseHuff(h, data, Past(data, pos, 2), Past(data, pos, 2) + WordAt(data, pos) - 2)
    else if marker == 0xDB then ParseQuant(h, data, Past(data, pos, 2), Past(data, pos, 2) + WordAt(data, pos) - 2)
    else if marker == 0xDD then Done(h.(restart := WordAt(data, pos + 2)), Past(data, pos, 4))
    else if marker == 0xD9 then Bad
    else if marker >= 0xE0 then Done(h, SkipSegment(data, pos))
    else Done(h, pos)
  }

  lemma {:induction false} ParseHuffOk(h: Header, data: seq<nat>, pos: nat, end: int)
    requires HeaderOk(h)
    ensures var r := ParseHuff(h, data, pos, end); r.Done? ==> HeaderOk(r.h) && r.pos >= pos
    decreases if pos < |data| then |data| - pos else 0
  {
    if pos < end && pos < |data| {
      var info, counts := data[pos], CountsAt(data, pos + 1);
      if info % 16 <= 1 && Total(counts) <= 256 {
        var t := Spec(counts, BytesAt(data, pos + 17, Total(counts)));
        SetHuffOk(h, info / 16, info % 16, t);
        ParseHuffOk(SetHuff(h, info / 16, info % 16, t), data, Past(data, pos, 17 + Total(counts)), end);
      }
    }
  }

  lemma SetHuffOk(h: Header, cls: nat, id: nat, t: Spec)
    requires HeaderOk(h) && id <= 1 && ValidSpec(t)
    ensures HeaderOk(SetHuff(h, cls, id, t))
  {
  }

  lemma {:induction false} ParseQuantOk(h: Header, data: seq<nat>, pos: nat, end: int)
    requires HeaderOk(h)
    ensures var r := ParseQuant(h, data, pos, end); r.Bad? || (r.Done? && HeaderOk(r.h) && r.pos >= pos)
    decreases end - pos
  {
    if pos < end && ByteAt(data, pos) % 16 < 4 {
      var info, at := ByteAt(data, pos), Past(data, pos, 1);
      if info / 16 == 0 {
        ParseQuantOk(h.(qt := h.qt[info % 16 := ByteAt(data, pos + 1)]), data, Past(data, at, 1) + 63, end);
      } else {
        ParseQuantOk(h.(qt := h.qt[info % 16 := WordAt(data, pos + 1)]), data, Past(data, at, 2) + 126, end);
      }
    }
  }

  lemma {:induction false} ParseSegmentOk(h: Header, data: seq<nat>, marker: nat, pos: nat)
    requires HeaderOk(h)
    ensures var r := ParseSegment(h, data, marker, pos); r.Done? ==> HeaderOk(r.h) && r.pos >= pos
  {
    hide ParseHuff, ParseQuant, MaxH, MaxV;
    ParseHuffOk(h, data, Past(data, pos, 2), Past(data, pos, 2) + WordAt(data, pos) - 2);
    ParseQuantOk(h, data, Past(data, pos, 2), Past(data, pos, 2) + WordAt(data, pos) - 2);
  }

  /** The marker loop: up to and including the scan header. */
  ghost function ParseMarkers(h: Header, data: seq<nat>, pos: nat): (r: Outcome)
    requires HeaderOk(h)
    decreases if pos < |data| then |data| - pos else 0
  {
    if pos + 1 >= |data| then Bad
    else if data[pos] != 0xFF then ParseMarkers(h, data, pos + 1)
    else
      var (marker, at) := MarkerAt(data, pos + 1);
      if marker == 0xDA then ParseScan(h, data, at)
      else
        ParseSegmentOk(h, data, marker, at);
        match ParseSegment(h, data, marker, at)
        case Done(h', pos') => ParseMarkers(h', data, pos')
        case Bad => Bad
        case Stuck => Stuck
  }

  lemma {:induction false} ParseMarkersOk(h: Header, data: seq<nat>, pos: nat)
    requires HeaderOk(h)
    ensures var r := ParseMarkers(h, data, pos); r.Done? ==> HeaderOk(r.h) && r.pos <= |data|
    decreases if pos < |data| then |data| - pos else 0
  {
    hide ParseSegment, HeaderOk, ParseScan;
    if pos + 1 < |data| {
      if data[pos] != 0xFF {
        ParseMarkersOk(h, data, pos + 1);
      } else {
        var (marker, at) := MarkerAt(data, pos + 1);
        if marker == 0xDA {
          ParseScanOk(h, data, at);
        } else {
          ParseSegmentOk(h, data, marker, at);
          var r := ParseSegment(h, data, marker, at);
          if r.Done? {
            ParseMarkersOk(r.h, data, r.pos);
          }
        }
      }
    }
  }

  lemma {:induction false} ParseScanOk(h: Header, data: seq<nat>, pos: nat)
    requires HeaderOk(h) && pos <= |data|
    ensures var r := ParseScan(h, data, pos); r.Done? ==> HeaderOk(r.h) && r.pos <= |data|
  {
  }

  /** The whole header: it must start with SOI, and frame, scan and DC table 0 must have been given. */
  ghost function ParseHeader(data: seq<nat>): Outcome {
    if |data| < 4 || data[0] != 0xFF || data[1] != 0xD8 then Bad
    else
      ParseMarkersOk(BLANK, data, 2);
      match ParseMarkers(BLANK, data, 2)
      case Done(h, pos) => if h.gotSof && |h.scan| >= 1 && h.dc[0].Some? then Done(h, pos) else Bad
      case Bad => Bad
      case Stuck => Stuck
  }

  /** What the parser needs of a head: the two bytes of SOI first, and after the marker loop a frame, at
      least one scan component and DC table 0; then it is what the loop has read. */
  lemma {:induction false} HeaderNeeds(data: seq<nat>)
    ensures |data| < 4 || data[0] != 0xFF || data[1] != 0xD8 ==> ParseHeader(data).Bad?
    ensures ParseHeader(data).Done? ==>
              var h := ParseHeader(data).h;
              h.gotSof && |h.scan| >= 1 && |h.dc| == 2 && h.dc[0].Some?
    ensures |data| >= 4 && data[0] == 0xFF && data[1] == 0xD8 ==>
              var r := ParseMarkers(BLANK, data, 2);
              && (r.Done? && r.h.gotSof && |r.h.scan| >= 1 && |r.h.dc| == 2 && r.h.dc[0].Some? ==> ParseHeader(data) == r)
              && (r.Bad? ==> ParseHeader(data).Bad?)
              && (r.Stuck? ==> ParseHeader(data).Stuck?)
  {
    hide ParseMarkers;
    ParseMarkersOk(BLANK, data, 2);
  }

  /** The markers that carry nothing for this decoder: EOI before the scan is refused, one from E0 on is
      stepped over with its segment, one that announces less than two bytes only with its length, and any
      other is passed alone. A restart interval is the word after its length. */
  lemma {:induction false} OtherMarkers(h: Header, data: seq<nat>, marker: nat, pos: nat)
    requires HeaderOk(h) && pos + 4 <= |data|
    ensures var r, len := ParseSegment(h, data, marker, pos), 256 * data[pos] + data[pos + 1];
            && (marker == 0xD9 ==> r.Bad?)
            && (marker >= 0xE0 ==> r == Done(h, if len >= 2 then pos + len else pos + 2))
            && (marker == 0xDD ==> r == Done(h.(restart := 256 * data[pos + 2] + data[pos + 3]), pos + 4))
            && (marker < 0xE0 && marker !in {0xC0, 0xC4, 0xD9, 0xDB, 0xDD} ==> r == Done(h, pos))
  {
    hide ParseFrame, ParseHuff, ParseQuant;
  }

  // --- What bytes can hold ----------------------------------------------------------------

  /** The ranges of a header read from bytes: 16-bit sizes, 4-bit sampling factors, none above the
      largest, and scan components that exist. */
  ghost predicate Bounded(h: Header) {
    && HeaderOk(h) && h.width < 0x1_0000 && h.height < 0x1_0000 && h.maxH < 16 && h.maxV < 16
    && (forall i :: 0 <= i < MAX_COMPONENTS ==> h.comps[i].h < 16 && h.comps[i].v < 16)
    && (forall i :: 0 <= i < h.nComps ==> h.comps[i].h <= h.maxH && h.comps[i].v <= h.maxV)
    && (forall i :: 0 <= i < |h.scan| && h.nComps > 0 ==> h.scan[i].idx < h.nComps)
  }

  ghost predicate SameFrame(a: Header, b: Header) {
    && a.gotSof == b.gotSof && a.width == b.width && a.height == b.height && a.nComps == b.nComps
    && a.comps == b.comps && a.maxH == b.maxH && a.maxV == b.maxV && a.scan == b.scan
  }

  lemma {:induction false} MaxBelow(comps: seq<FrameComp>, n: nat, bound: nat)
    requires n <= |comps| && bound > 1 && forall i :: 0 <= i < n ==> comps[i].h < bound && comps[i].v < bound
    ensures MaxH(comps, n) < bound && MaxV(comps, n) < bound
  {
    if n > 0 {
      MaxBelow(comps, n - 1, bound);
    }
  }

  lemma {:induction false} HuffKeepsFrame(h: Header, data: seq<nat>, pos: nat, end: int)
    requires |h.dc| == |h.ac| == 2
    ensures var r := ParseHuff(h, data, pos, end); r.Done? ==> SameFrame(h, r.h)
    decreases if pos < |data| then |data| - pos else 0
  {
    hide Total, CountsAt, BytesAt;
    if pos < end && pos < |data| {
      var info, counts := data[pos], CountsAt(data, pos + 1);
      if info % 16 <= 1 && Total(counts) <= 256 {
        var t := Spec(counts, BytesAt(data, pos + 17, Total(counts)));
        HuffKeepsFrame(SetHuff(h, info / 16, info % 16, t), data, Past(data, pos, 17 + Total(counts)), end);
      }
    }
  }

  lemma {:induction false} QuantKeepsFrame(h: Header, data: seq<nat>, pos: nat, end: int)
    requires |h.qt| == 4
    ensures var r := ParseQuant(h, data, pos, end); r.Done? ==> SameFrame(h, r.h)
    decreases end - pos
  {
    if pos < end && ByteAt(data, pos) % 16 < 4 {
      var info, at := ByteAt(data, pos), Past(data, pos, 1);
      if info / 16 == 0 {
        QuantKeepsFrame(h.(qt := h.qt[info % 16 := ByteAt(data, pos + 1)]), data, Past(data, at, 1) + 63, end);
      } else {
        QuantKeepsFrame(h.(qt := h.qt[info % 16 := WordAt(data, pos + 1)]), data, Past(data, at, 2) + 126, end);
      }
    }
  }

  lemma {:induction false} FrameBounded(h: Header, data: seq<nat>, pos: nat)
    requires Bounded(h) && h.scan == [] && Bytes(data)
    ensures var r := ParseFrame(h, data, pos); r.Done? ==> Bounded(r.h) && r.h.scan == []
  {
    hide MaxH, MaxV;
    var r := ParseFrame(h, data, pos);
    if r.Done? {
      forall i | 0 <= i < MAX_COMPONENTS ensures r.h.comps[i].h < 16 && r.h.comps[i].v < 16 {
      }
      MaxBelow(r.h.comps, r.h.nComps, 16);
    }
  }

  lemma {:induction false} SegmentBounded(h: Header, data: seq<nat>, marker: nat, pos: nat)
    requires Bounded(h) && h.scan == [] && Bytes(data)
    ensures var r := ParseSegment(h, data, marker, pos); r.Done? ==> Bounded(r.h) && r.h.scan == []
  {
    hide ParseHuff, ParseQuant, ParseFrame, WordAt, Bytes;
    ParseSegmentOk(h, data, marker, pos);
    HuffKeepsFrame(h, data, Past(data, pos, 2), Past(data, pos, 2) + WordAt(data, pos) - 2);
    QuantKeepsFrame(h, data, Past(data, pos, 2), Past(data, pos, 2) + WordAt(data, pos) - 2);
    FrameBounded(h, data, pos);
  }

  lemma {:induction false} MarkersBounded(h: Header, data: seq<nat>, pos: nat)
    requires Bounded(h) && h.scan == [] && Bytes(data)
    ensures var r := ParseMarkers(h, data, pos); r.Done? ==> Bounded(r.h)
    decreases if pos < |data| then |data| - pos else 0
  {
    hide ParseSegment, Bounded, ParseScan, WordAt, HeaderOk, Bytes;
    BoundedOk(h);
    if pos + 1 < |data| {
      if data[pos] != 0xFF {
        MarkersBounded(h, data, pos + 1);
      } else {
        var (marker, at) := MarkerAt(data, pos + 1);
        ScanBounded(h, data, at);
        SegmentBounded(h, data, marker, at);
        ParseSegmentOk(h, data, marker, at);
        var r := ParseSegment(h, data, marker, at);
        if r.Done? {
          MarkersBounded(r.h, data, r.pos);
        }
      }
    }
  }

  lemma BoundedOk(h: Header)
    requires Bounded(h)
    ensures HeaderOk(h)
  {
  }

  lemma ScanBounded(h: Header, data: seq<nat>, pos: nat)
    requires Bounded(h)
    ensures h.nComps <= |h.comps|
    ensures var r := ParseScan(h, data, pos); r.Done? ==> Bounded(r.h)
  {
  }

  /** Every header read from bytes is in these ranges. */
  lemma {:induction false} ParsedBounded(data: seq<nat>)
    requires Bytes(data)
    ensures var r := ParseHeader(data); r.Done? ==> Bounded(r.h)
  {
    hide ParseMarkers, Bytes;
    assert Bounded(BLANK);
    MarkersBounded(BLANK, data, 2);
  }

  // --- When the parser comes back ---------------------------------------------------------

  /** Past the end of the data a turn of the Huffman loop reads an empty table for DC slot 0, which is
      accepted, and does not move: once there, the loop is never left. */
  lemma {:induction false} TurnPastEnd(data: seq<nat>, pos: nat)
    requires pos >= |data|
    ensures ByteAt(data, pos) == 0 && Total(CountsAt(data, pos + 1)) == 0 && Past(data, pos, 17) == pos
  {
    var counts := CountsAt(data, pos + 1);
    forall k | 0 <= k < 17 ensures counts[k] == 0 {
      if k > 0 {
        assert counts[k] == ByteAt(data, pos + 1 + (k - 1));
      }
    }
    NoCodes(counts, |counts| - 1);
  }

  lemma {:induction false} NoCodes(counts: seq<nat>, len: nat)
    requires Counts(counts) && len <= 16 && forall k :: 0 <= k < 17 ==> counts[k] == 0
    ensures CountTo(counts, len) == 0
  {
    if len > 0 {
      NoCodes(counts, len - 1);
    }
  }

  /** A Huffman segment inside the data is always left. */
  lemma {:induction false} InsideIsLeft(h: Header, data: seq<nat>, pos: nat, end: int)
    requires |h.dc| == |h.ac| == 2 && end <= |data|
    ensures !ParseHuff(h, data, pos, end).Stuck?
    decreases if pos < |data| then |data| - pos else 0
  {
    hide Total, CountsAt, BytesAt;
    if pos < end {
      var info, counts := data[pos], CountsAt(data, pos + 1);
      if info % 16 <= 1 && Total(counts) <= 256 {
        var t := Spec(counts, BytesAt(data, pos + 17, Total(counts)));
        InsideIsLeft(SetHuff(h, info / 16, info % 16, t), data, Past(data, pos, 17 + Total(counts)), end);
      }
    }
  }

  /** One that reaches past the data is never parsed: it is refused if a table before the end of the
      data is, and otherwise never left. */
  lemma {:induction false} OutsideIsStuck(h: Header, data: seq<nat>, pos: nat, end: int)
    requires |h.dc| == |h.ac| == 2 && pos <= |data| < end
    ensures !ParseHuff(h, data, pos, end).Done?
    ensures ParseHuff(h, data, pos, end).Stuck? <==> ParseHuff(h, data, pos, |data|).Done?
    decreases |data| - pos
  {
    hide Total, CountsAt, BytesAt;
    if pos < |data| {
      var info, counts := data[pos], CountsAt(data, pos + 1);
      if info % 16 <= 1 && Total(counts) <= 256 {
        var t := Spec(counts, BytesAt(data, pos + 17, Total(counts)));
        OutsideIsStuck(SetHuff(h, info / 16, info % 16, t), data, Past(data, pos, 17 + Total(counts)), end);
      }
    }
  }

  /** Where a Huffman segment ends, by its own length field. */
  function HuffEnd(data: seq<nat>, pos: nat): int {
    Past(data, pos, 2) + WordAt(data, pos) - 2
  }

  /** Exactly when parsing a Huffman segment does not come back: it announces more bytes than there
      are, and the tables that are there are in order. */
  lemma {:induction false} StuckIff(h: Header, data: seq<nat>, pos: nat)
    requires HeaderOk(h) && pos <= |data|
    ensures ParseSegment(h, data, 0xC4, pos).Stuck? <==>
              HuffEnd(data, pos) > |data| && ParseHuff(h, data, Past(data, pos, 2), |data|).Done?
  {
    hide ParseHuff, WordAt;
    if HuffEnd(data, pos) <= |data| {
      InsideIsLeft(h, data, Past(data, pos, 2), HuffEnd(data, pos));
    } else {
      OutsideIsStuck(h, data, Past(data, pos, 2), HuffEnd(data, pos));
    }
  }

  /** A length field of 3 with nothing behind it is never left; one of 64 with a bad table
      identifier behind it is refused. */
  lemma {:induction false} StuckExample()
    ensures HeaderOk(BLANK) && ParseSegment(BLANK, [0x00, 0x03], 0xC4, 0).Stuck?
    ensures ParseSegment(BLANK, [0x00, 0x40, 0x02], 0xC4, 0).Bad?
  {
    BlankOk();
    hide HeaderOk;
    assert WordAt([0x00, 0x03], 0) == 3 && Past([0x00, 0x03], 0, 2) == 2;
    assert WordAt([0x00, 0x40, 0x02], 0) == 64 && Past([0x00, 0x40, 0x02], 0, 2) == 2;
  }

  /** Every pair of bytes that could open a Huffman segment announces one inside the data. */
  ghost predicate HuffSegmentsInside(data: seq<nat>) {
    forall i: nat :: i + 1 < |data| && data[i] == 0xFF && data[i + 1] == 0xC4 ==> i + 2 + WordAt(data, i + 2) <= |data|
  }

  lemma {:induction false} MarkerPair(data: seq<nat>, pos: nat)
    requires 1 <= pos < |data| && data[pos - 1] == 0xFF
    ensures var (marker, at) := MarkerAt(data, pos);
            at >= 2 && data[at - 2] == 0xFF && data[at - 1] == marker
    decreases |data| - pos
  {
    if data[pos] == 0xFF && pos + 1 < |data| {
      MarkerPair(data, pos + 1);
    }
  }

  lemma {:induction false} SegmentLeft(h: Header, data: seq<nat>, marker: nat, pos: nat)
    requires HeaderOk(h) && pos <= |data| && (marker == 0xC4 ==> HuffEnd(data, pos) <= |data|)
    ensures !ParseSegment(h, data, marker, pos).Stuck?
  {
    hide ParseHuff, WordAt, ParseQuant, ParseFrame;
    if marker == 0xC4 {
      InsideIsLeft(h, data, Past(data, pos, 2), HuffEnd(data, pos));
    } else if marker == 0xDB {
      ParseQuantOk(h, data, Past(data, pos, 2), HuffEnd(data, pos));
    } else if marker == 0xC0 {
      FrameLeft(h, data, pos);
    }
  }

  lemma FrameLeft(h: Header, data: seq<nat>, pos: nat)
    requires HeaderOk(h)
    ensures !ParseFrame(h, data, pos).Stuck?
  {
  }

  /** With all Huffman segments inside the data the marker loop comes back. */
  lemma {:induction false} MarkersLeft(h: Header, data: seq<nat>, pos: nat)
    requires HeaderOk(h) && HuffSegmentsInside(data)
    ensures !ParseMarkers(h, data, pos).Stuck?
    decreases if pos < |data| then |data| - pos else 0
  {
    hide ParseSegment, HeaderOk, ParseScan, WordAt;
    if pos + 1 < |data| {
      if data[pos] != 0xFF {
        MarkersLeft(h, data, pos + 1);
      } else {
        var (marker, at) := MarkerAt(data, pos + 1);
        MarkerPair(data, pos + 1);
        ScanLeft(h, data, at);
        SegmentLeft(h, data, marker, at);
        ParseSegmentOk(h, data, marker, at);
        var r := ParseSegment(h, data, marker, at);
        if r.Done? {
          MarkersLeft(r.h, data, r.pos);
        }
      }
    }
  }

  lemma ScanLeft(h: Header, data: seq<nat>, pos: nat)
    requires HeaderOk(h)
    ensures !ParseScan(h, data, pos).Stuck?
  {
  }

  /** Parsing a head comes back whenever no Huffman segment announces bytes beyond the data. */
  lemma {:induction false} HeaderLeft(data: seq<nat>)
    requires HuffSegmentsInside(data)
    ensures !ParseHeader(data).Stuck?
  {
    hide ParseMarkers;
    BlankOk();
    MarkersLeft(BLANK, data, 2);
  }

  // --- The segments as transmitted ------------------------------------------------------

  function Word(n: nat): seq<nat> { [n / 256, n % 256] }

  datatype QuantTable = QuantTable(id: nat, wide: bool, entries: seq<nat>)

  function Words(entries: seq<nat>): (s: seq<nat>)
    ensures |s| == 2 * |entries|
  {
    if entries == [] then [] else Word(entries[0]) + Words(entries[1..])
  }

  function QuantBytes(t: QuantTable): seq<nat> {
    if t.wide then [16 + t.id] + Words(t.entries) else [t.id] + t.entries
  }

  predicate QuantOk(t: QuantTable) {
    t.id < 4 && |t.entries| == 64 && forall i :: 0 <= i < 64 ==> t.entries[i] < if t.wide then 0x1_0000 else 256
  }

  datatype HuffDef = HuffDef(cls: nat, id: nat, spec: Spec)

  ghost predicate HuffOk(d: HuffDef) {
    && d.cls <= 1 && d.id <= 1 && ValidSpec(d.spec) && d.spec.counts[0] == 0
  }

  function HuffBytes(d: HuffDef): seq<nat>
    requires |d.spec.counts| == 17
  {
    [16 * d.cls + d.id] + (d.spec.counts[1..] + d.spec.symbols)
  }

  function FrameCompBytes(c: FrameComp): seq<nat> { [c.id, 16 * c.h + c.v, c.qt] }

  function FrameCompsBytes(comps: seq<FrameComp>): (s: seq<nat>)
    ensures |s| == 3 * |comps|
  {
    if comps == [] then [] else FrameCompBytes(comps[0]) + FrameCompsBytes(comps[1..])
  }

  datatype Segment =
    | Frame(height: nat, width: nat, comps: seq<FrameComp>)
    | Huff(defs: seq<HuffDef>)
    | Quant(tables: seq<QuantTable>)
    | RestartEvery(n: nat)
    | Skipped(marker: nat, payload: seq<nat>)

  ghost predicate SegmentOk(s: Segment) {
    && 2 + |Payload(s)| < 0x1_0000
    && match s
       case Frame(height, width, comps) =>
         && height < 0x1_0000 && width < 0x1_0000 && |comps| <= MAX_COMPONENTS
         && forall i :: 0 <= i < |comps| ==> comps[i].v < 16
       case Huff(defs) => forall i :: 0 <= i < |defs| ==> HuffOk(defs[i])
       case Quant(tables) => forall i :: 0 <= i < |tables| ==> QuantOk(tables[i])
       case RestartEvery(n) => n < 0x1_0000
       case Skipped(marker, _) => 0xE0 <= marker < 0xFF
  }

  function MarkerOf(s: Segment): nat {
    match s
    case Frame(_, _, _) => 0xC0
    case Huff(_) => 0xC4
    case Quant(_) => 0xDB
    case RestartEvery(_) => 0xDD
    case Skipped(marker, _) => marker
  }

  ghost function HuffsBytes(defs: seq<HuffDef>): seq<nat> {
    if defs == [] then []
    else (if |defs[0].spec.counts| == 17 then HuffBytes(defs[0]) else []) + HuffsBytes(defs[1..])
  }

  function QuantsBytes(tables: seq<QuantTable>): seq<nat> {
    if tables == [] then [] else QuantBytes(tables[0]) + QuantsBytes(tables[1..])
  }

  ghost function Payload(s: Segment): seq<nat> {
    match s
    case Frame(height, width, comps) => [8] + Word(height) + Word(width) + [|comps|] + FrameCompsBytes(comps)
    case Huff(defs) => HuffsBytes(defs)
    case Quant(tables) => QuantsBytes(tables)
    case RestartEvery(n) => Word(n)
    case Skipped(_, payload) => payload
  }

  ghost function SetHuffs(h: Header, defs: seq<HuffDef>): (r: Header)
    requires |h.dc| == |h.ac| == 2 && forall i :: 0 <= i < |defs| ==> HuffOk(defs[i])
    decreases |defs|
  {
    if defs == [] then h
    else
      assert HuffOk(defs[0]);
      SetHuffs(SetHuff(h, defs[0].cls, defs[0].id, defs[0].spec), defs[1..])
  }

  function SetQuants(h: Header, tables: seq<QuantTable>): Header
    requires |h.qt| == 4 && forall i :: 0 <= i < |tables| ==> QuantOk(tables[i])
    decreases |tables|
  {
    if tables == [] then h
    else
      assert QuantOk(tables[0]);
      SetQuants(h.(qt := h.qt[tables[0].id := tables[0].entries[0]]), tables[1..])
  }

  /** What a segment says: a later table or frame replaces an earlier one. */
  ghost function Apply(h: Header, s: Segment): Header
    requires HeaderOk(h) && SegmentOk(s)
  {
    match s
    case Frame(height, width, comps) =>
      var all := comps + h.comps[|comps|..];
      h.(gotSof := true, height := height, width := width, nComps := |comps|, comps := all,
         maxH := MaxH(all, |comps|), maxV := MaxV(all, |comps|))
    case Huff(defs) => SetHuffs(h, defs)
    case Quant(tables) => SetQuants(h, tables)
    case RestartEvery(n) => h.(restart := n)
    case Skipped(_, _) => h
  }

  // --- Bytes in place -------------------------------------------------------------------

  ghost predicate Lies(data: seq<nat>, pos: nat, s: seq<nat>) {
    pos + |s| <= |data| && data[pos..pos + |s|] == s
  }

  lemma {:induction false} LiesByte(data: seq<nat>, pos: nat, s: seq<nat>, k: nat)
    requires Lies(data, pos, s) && k < |s|
    ensures ByteAt(data, pos + k) == s[k]
  {
    assert data[pos..pos + |s|][k] == data[pos + k];
  }

  lemma {:induction false} LiesSplit(data: seq<nat>, pos: nat, a: seq<nat>, b: seq<nat>)
    requires Lies(data, pos, a + b)
    ensures Lies(data, pos, a) && Lies(data, pos + |a|, b)
  {
    var s := a + b;
    assert data[pos..pos + |a|] == data[pos..pos + |s|][..|a|] == s[..|a|];
    assert data[pos + |a|..pos + |a| + |b|] == data[pos..pos + |s|][|a|..] == s[|a|..];
  }

  lemma {:induction false} LiesWord(data: seq<nat>, pos: nat, n: nat)
    requires Lies(data, pos, Word(n))
    ensures WordAt(data, pos) == n && pos + 2 <= |data|
  {
    LiesByte(data, pos, Word(n), 0);
    LiesByte(data, pos, Word(n), 1);
  }

  // --- Parsing undoes the layout --------------------------------------------------------

  lemma {:induction false} FrameCompParsed(data: seq<nat>, pos: nat, comps: seq<FrameComp>, i: nat)
    requires Lies(data, pos, FrameCompsBytes(comps)) && i < |comps| && comps[i].v < 16
    ensures FrameCompAt(data, pos + 3 * i) == comps[i]
    decreases i
  {
    hide Lies;
    var c := comps[0];
    LiesSplit(data, pos, FrameCompBytes(c), FrameCompsBytes(comps[1..]));
    if i == 0 {
      LiesByte(data, pos, FrameCompBytes(c), 0);
      LiesByte(data, pos, FrameCompBytes(c), 1);
      LiesByte(data, pos, FrameCompBytes(c), 2);
    } else {
      FrameCompParsed(data, pos + 3, comps[1..], i - 1);
    }
  }

  /** The first `n` components are those of the frame header at `p`, the others are unchanged. */
  ghost predicate CompsRead(data: seq<nat>, p: nat, before: seq<FrameComp>, comps: seq<FrameComp>, n: nat) {
    && |before| == |comps| == MAX_COMPONENTS
    && (forall k :: 0 <= k < n && k < MAX_COMPONENTS ==> comps[k] == FrameCompAt(data, p + (8 + 3 * k)))
    && (forall k :: n <= k < MAX_COMPONENTS ==> comps[k] == before[k])
  }

  lemma {:induction false} MaxLocal(a: seq<FrameComp>, b: seq<FrameComp>, n: nat)
    requires n <= |a| == |b| && forall i :: 0 <= i < n ==> a[i] == b[i]
    ensures MaxH(a, n) == MaxH(b, n) && MaxV(a, n) == MaxV(b, n)
  {
    if n > 0 {
      MaxLocal(a, b, n - 1);
    }
  }

  lemma CompsStart(data: seq<nat>, p: nat, comps: seq<FrameComp>)
    requires |comps| == MAX_COMPONENTS
    ensures CompsRead(data, p, comps, comps, 0) && MaxH(comps, 0) == MaxV(comps, 0) == 1
  {
  }

  /** One more component of a frame header. */
  lemma {:induction false} CompsStep(data: seq<nat>, p: nat, before: seq<FrameComp>, comps: seq<FrameComp>, i: nat, c: FrameComp)
    requires i < MAX_COMPONENTS && CompsRead(data, p, before, comps, i) && c == FrameCompAt(data, p + (8 + 3 * i))
    ensures CompsRead(data, p, before, comps[i := c], i + 1)
    ensures MaxH(comps[i := c], i + 1) == Max(c.h, MaxH(comps, i))
    ensures MaxV(comps[i := c], i + 1) == Max(c.v, MaxV(comps, i))
  {
    hide FrameCompAt;
    MaxLocal(comps, comps[i := c], i);
  }

  lemma {:induction false} FrameGood(h: Header, data: seq<nat>, p: nat, comps: seq<FrameComp>)
    requires |h.comps| == MAX_COMPONENTS && ByteAt(data, p + 2) == 8 && ByteAt(data, p + 7) <= MAX_COMPONENTS
    requires CompsRead(data, p, h.comps, comps, ByteAt(data, p + 7))
    ensures var n := ByteAt(data, p + 7);
            ParseFrame(h, data, p) ==
            Done(h.(gotSof := true, height := WordAt(data, p + 3), width := WordAt(data, p + 5),
                    nComps := n, comps := comps, maxH := MaxH(comps, n), maxV := MaxV(comps, n)),
                 Past(data, p, 8 + 3 * n))
  {
    hide MaxH, MaxV, ByteAt, WordAt, Past, FrameCompAt;
    var n := ByteAt(data, p + 7);
    var all := seq(MAX_COMPONENTS, i requires 0 <= i < MAX_COMPONENTS =>
      if i < n then FrameCompAt(data, p + 8 + 3 * i) else h.comps[i]);
    forall i | 0 <= i < MAX_COMPONENTS ensures all[i] == comps[i] {
    }
    assert all == comps;
  }

  lemma {:induction false} FrameParsed(h: Header, data: seq<nat>, pos: nat, s: Segment)
    requires HeaderOk(h) && SegmentOk(s) && s.Frame?
    requires Lies(data, pos, Word(2 + |Payload(s)|) + Payload(s))
    ensures ParseFrame(h, data, pos) == Done(Apply(h, s), pos + 2 + |Payload(s)|)
  {
    hide Lies, MaxH, MaxV, FrameCompsBytes, FrameCompAt, HeaderOk, ParseFrame, ByteAt, WordAt, CompsRead;
    var n := |s.comps|;
    var fixed := [8] + Word(s.height) + Word(s.width) + [n];
    assert Payload(s) == fixed + FrameCompsBytes(s.comps);
    LiesSplit(data, pos, Word(2 + |Payload(s)|), Payload(s));
    LiesEnd(data, pos + 2, Payload(s));
    LiesSplit(data, pos + 2, fixed, FrameCompsBytes(s.comps));
    FixedPart(data, pos + 2, s.height, s.width, n);
    FrameSizes(h);
    CompsParsed(data, pos, h.comps, s.comps);
    FrameGood(h, data, pos, s.comps + h.comps[n..]);
  }

  lemma {:induction false} CompsParsed(data: seq<nat>, pos: nat, before: seq<FrameComp>, comps: seq<FrameComp>)
    requires |comps| <= MAX_COMPONENTS == |before| && forall i :: 0 <= i < |comps| ==> comps[i].v < 16
    requires Lies(data, pos + 8, FrameCompsBytes(comps))
    ensures CompsRead(data, pos, before, comps + before[|comps|..], |comps|)
  {
    hide Lies, FrameCompsBytes, FrameCompAt;
    var all := comps + before[|comps|..];
    forall k | 0 <= k < |comps| ensures all[k] == FrameCompAt(data, pos + (8 + 3 * k)) {
      FrameCompParsed(data, pos + 8, comps, k);
    }
  }

  lemma FrameSizes(h: Header)
    requires HeaderOk(h)
    ensures |h.comps| == MAX_COMPONENTS
  {
  }

  lemma LiesEnd(data: seq<nat>, pos: nat, s: seq<nat>)
    requires Lies(data, pos, s)
    ensures pos + |s| <= |data|
  {
  }

  lemma {:induction false} FixedPart(data: seq<nat>, pos: nat, height: nat, width: nat, n: nat)
    requires Lies(data, pos, [8] + Word(height) + Word(width) + [n])
    ensures ByteAt(data, pos) == 8 && WordAt(data, pos + 1) == height && WordAt(data, pos + 3) == width
    ensures ByteAt(data, pos + 5) == n
  {
    hide Lies;
    LiesSplit(data, pos, [8] + Word(height) + Word(width), [n]);
    LiesSplit(data, pos, [8] + Word(height), Word(width));
    LiesSplit(data, pos, [8], Word(height));
    LiesByte(data, pos, [8], 0);
    LiesWord(data, pos + 1, height);
    LiesWord(data, pos + 3, width);
    LiesByte(data, pos + 5, [n], 0);
  }

  lemma {:induction false} CountsParsed(data: seq<nat>, pos: nat, d: HuffDef)
    requires HuffOk(d) && Lies(data, pos, HuffBytes(d))
    ensures ByteAt(data, pos) == 16 * d.cls + d.id && pos + 17 + |d.spec.symbols| <= |data|
    ensures CountsAt(data, pos + 1) == d.spec.counts
    ensures BytesAt(data, pos + 17, |d.spec.symbols|) == d.spec.symbols
  {
    hide CountTo;
    var t := d.spec;
    var bits := t.counts[1..];
    LiesSplit(data, pos, [16 * d.cls + d.id], bits + t.symbols);
    LiesByte(data, pos, [16 * d.cls + d.id], 0);
    LiesSplit(data, pos + 1, bits, t.symbols);
    BytesParsed(data, pos + 1, bits);
    BytesParsed(data, pos + 17, t.symbols);
  }

  lemma {:induction false} BytesParsed(data: seq<nat>, pos: nat, s: seq<nat>)
    requires Lies(data, pos, s)
    ensures BytesAt(data, pos, |s|) == s
  {
    hide Lies;
    forall k | 0 <= k < |s| ensures BytesAt(data, pos, |s|)[k] == s[k] {
      LiesByte(data, pos, s, k);
    }
  }

  lemma {:induction false} HuffsParsed(h: Header, data: seq<nat>, pos: nat, defs: seq<HuffDef>)
    requires HeaderOk(h) && forall i :: 0 <= i < |defs| ==> HuffOk(defs[i])
    requires Lies(data, pos, HuffsBytes(defs))
    ensures ParseHuff(h, data, pos, pos + |HuffsBytes(defs)|) == Done(SetHuffs(h, defs), pos + |HuffsBytes(defs)|)
    decreases |defs|
  {
    hide Lies, CountTo, CountsAt, BytesAt, HuffBytes;
    if defs != [] {
      var d := defs[0];
      assert HuffOk(d);
      var n := 17 + |d.spec.symbols|;
      assert |HuffBytes(d)| == n by {
        HuffLength(d);
      }
      LiesSplit(data, pos, HuffBytes(d), HuffsBytes(defs[1..]));
      CountsParsed(data, pos, d);
      SetHuffOk(h, d.cls, d.id, d.spec);
      HuffsParsed(SetHuff(h, d.cls, d.id, d.spec), data, pos + n, defs[1..]);
    }
  }

  lemma HuffLength(d: HuffDef)
    requires HuffOk(d)
    ensures |HuffBytes(d)| == 17 + |d.spec.symbols|
  {
  }

  lemma {:induction false} QuantsParsed(h: Header, data: seq<nat>, pos: nat, tables: seq<QuantTable>)
    requires |h.qt| == 4 && forall i :: 0 <= i < |tables| ==> QuantOk(tables[i])
    requires Lies(data, pos, QuantsBytes(tables))
    ensures ParseQuant(h, data, pos, pos + |QuantsBytes(tables)|) == Done(SetQuants(h, tables), pos + |QuantsBytes(tables)|)
    decreases |tables|
  {
    hide Lies, QuantBytes;
    if tables != [] {
      var t := tables[0];
      QuantParsed(data, pos, t, QuantsBytes(tables[1..]));
      QuantsParsed(h.(qt := h.qt[t.id := t.entries[0]]), data, pos + |QuantBytes(t)|, tables[1..]);
    }
  }

  lemma {:induction false} QuantParsed(data: seq<nat>, pos: nat, t: QuantTable, rest: seq<nat>)
    requires QuantOk(t) && Lies(data, pos, QuantBytes(t) + rest)
    ensures Lies(data, pos + |QuantBytes(t)|, rest)
    ensures |QuantBytes(t)| == if t.wide then 129 else 65
    ensures pos + |QuantBytes(t)| <= |data|
    ensures ByteAt(data, pos) == (if t.wide then 16 else 0) + t.id
    ensures t.entries[0] == if t.wide then WordAt(data, pos + 1) else ByteAt(data, pos + 1)
  {
    hide Lies;
    var q := QuantBytes(t);
    LiesSplit(data, pos, q, rest);
    LiesEnd(data, pos, q);
    LiesByte(data, pos, q, 0);
    LiesByte(data, pos, q, 1);
    LiesByte(data, pos, q, 2);
  }

  lemma {:induction false} SegmentParsed(h: Header, data: seq<nat>, pos: nat, s: Segment)
    requires HeaderOk(h) && SegmentOk(s)
    requires Lies(data, pos, Word(2 + |Payload(s)|) + Payload(s))
    ensures ParseSegment(h, data, MarkerOf(s), pos) == Done(Apply(h, s), pos + 2 + |Payload(s)|)
  {
    hide Lies, ParseFrame, ParseHuff, ParseQuant, HuffsBytes, QuantsBytes, MaxH, MaxV, HuffOk, QuantOk;
    var n := 2 + |Payload(s)|;
    LiesSplit(data, pos, Word(n), Payload(s));
    LiesWord(data, pos, n);
    LiesEnd(data, pos + 2, Payload(s));
    match s
    case Frame(_, _, _) => FrameParsed(h, data, pos, s);
    case Huff(defs) => HuffsParsed(h, data, pos + 2, defs);
    case Quant(tables) => QuantsParsed(h, data, pos + 2, tables);
    case RestartEvery(k) => LiesWord(data, pos + 2, k);
    case Skipped(_, _) =>
  }

  // --- Whole headers --------------------------------------------------------------------

  function Fills(n: nat): (s: seq<nat>)
    ensures |s| == n
  {
    if n == 0 then [] else [0xFF] + Fills(n - 1)
  }

  /** A marker, with any number of fill bytes before it. */
  function MarkerBytes(fill: nat, marker: nat): (s: seq<nat>)
    ensures |s| == fill + 2
  {
    [0xFF] + (Fills(fill) + [marker])
  }

  datatype Coded = Coded(fill: nat, segment: Segment)

  ghost function SegmentCode(c: Coded): seq<nat> {
    MarkerBytes(c.fill, MarkerOf(c.segment)) + (Word(2 + |Payload(c.segment)|) + Payload(c.segment))
  }

  ghost function SegmentsCode(cs: seq<Coded>): seq<nat> {
    if cs == [] then [] else SegmentCode(cs[0]) + SegmentsCode(cs[1..])
  }

  /** A scan component as transmitted: component identifier and tables. */
  datatype ScanRef = ScanRef(id: nat, dc: nat, ac: nat)

  function RefsBytes(refs: seq<ScanRef>): (s: seq<nat>)
    ensures |s| == 2 * |refs|
  {
    if refs == [] then [] else [refs[0].id, 16 * refs[0].dc + refs[0].ac] + RefsBytes(refs[1..])
  }

  /** The scan header of section B.2.3, with the spectral selection of a sequential scan. */
  function ScanHead(fill: nat, refs: seq<ScanRef>): seq<nat> {
    MarkerBytes(fill, 0xDA) + ScanBody(refs)
  }

  function ScanBody(refs: seq<ScanRef>): (s: seq<nat>)
    ensures |s| == 6 + 2 * |refs|
  {
    Word(6 + 2 * |refs|) + [|refs|] + RefsBytes(refs) + [0, 63, 0]
  }

  ghost function ApplyAll(h: Header, cs: seq<Coded>): Header
    requires HeaderOk(h) && forall i :: 0 <= i < |cs| ==> SegmentOk(cs[i].segment)
    decreases |cs|
  {
    if cs == [] then h
    else
      assert SegmentOk(cs[0].segment);
      ApplyOk(h, cs[0].segment);
      ApplyAll(Apply(h, cs[0].segment), cs[1..])
  }

  lemma HuffFields(d: HuffDef)
    requires HuffOk(d)
    ensures d.cls <= 1 && d.id <= 1 && ValidSpec(d.spec)
  {
  }

  lemma {:induction false} SetHuffsOk(h: Header, defs: seq<HuffDef>)
    requires HeaderOk(h) && forall i :: 0 <= i < |defs| ==> HuffOk(defs[i])
    ensures HeaderOk(SetHuffs(h, defs))
    decreases |defs|
  {
    hide SetHuff, HuffOk, ValidSpec;
    if defs != [] {
      assert HuffOk(defs[0]);
      HuffFields(defs[0]);
      SetHuffOk(h, defs[0].cls, defs[0].id, defs[0].spec);
      SetHuffsOk(SetHuff(h, defs[0].cls, defs[0].id, defs[0].spec), defs[1..]);
    }
  }

  lemma {:induction false} SetQuantsOk(h: Header, tables: seq<QuantTable>)
    requires HeaderOk(h) && forall i :: 0 <= i < |tables| ==> QuantOk(tables[i])
    ensures HeaderOk(SetQuants(h, tables))
    decreases |tables|
  {
    if tables != [] {
      assert QuantOk(tables[0]);
      SetQuantsOk(h.(qt := h.qt[tables[0].id := tables[0].entries[0]]), tables[1..]);
    }
  }

  lemma {:induction false} ApplyOk(h: Header, s: Segment)
    requires HeaderOk(h) && SegmentOk(s)
    ensures HeaderOk(Apply(h, s))
  {
    hide SetHuffs, SetQuants, MaxH, MaxV;
    match s
    case Frame(_, _, _) =>
    case Huff(defs) => SetHuffsOk(h, defs);
    case Quant(tables) => SetQuantsOk(h, tables);
    case RestartEvery(_) =>
    case Skipped(_, _) =>
  }

  lemma {:induction false} FillsSkipped(data: seq<nat>, pos: nat, fill: nat, marker: nat)
    requires Lies(data, pos, Fills(fill) + [marker]) && marker != 0xFF
    ensures MarkerAt(data, pos) == (marker, pos + fill + 1)
    decreases fill
  {
    hide Lies;
    var s := Fills(fill) + [marker];
    LiesByte(data, pos, s, 0);
    LiesEnd(data, pos, s);
    if fill > 0 {
      assert s == [0xFF] + (Fills(fill - 1) + [marker]);
      LiesSplit(data, pos, [0xFF], Fills(fill - 1) + [marker]);
      FillsSkipped(data, pos + 1, fill - 1, marker);
    }
  }

  lemma {:induction false} MarkerFound(data: seq<nat>, pos: nat, fill: nat, marker: nat, rest: seq<nat>)
    requires Lies(data, pos, MarkerBytes(fill, marker) + rest) && marker != 0xFF
    ensures pos + 1 < |data| && data[pos] == 0xFF && MarkerAt(data, pos + 1) == (marker, pos + fill + 2)
    ensures Lies(data, pos + fill + 2, rest)
  {
    hide Lies, MarkerAt;
    LiesSplit(data, pos, MarkerBytes(fill, marker), rest);
    LiesEnd(data, pos, MarkerBytes(fill, marker));
    LiesByte(data, pos, MarkerBytes(fill, marker), 0);
    LiesSplit(data, pos, [0xFF], Fills(fill) + [marker]);
    FillsSkipped(data, pos + 1, fill, marker);
  }

  /** One transmitted segment: the marker loop goes on behind it with what it says applied. */
  lemma {:induction false} CodedParsed(h: Header, data: seq<nat>, pos: nat, c: Coded, rest: seq<nat>)
    requires HeaderOk(h) && SegmentOk(c.segment) && HeaderOk(Apply(h, c.segment))
    requires Lies(data, pos, SegmentCode(c) + rest)
    ensures ParseMarkers(h, data, pos) == ParseMarkers(Apply(h, c.segment), data, pos + |SegmentCode(c)|)
    ensures Lies(data, pos + |SegmentCode(c)|, rest)
  {
    hide Lies, MarkerAt, Apply, Payload, HeaderOk, ParseSegment, SegmentOk, Word;
    var body := Word(2 + |Payload(c.segment)|) + Payload(c.segment);
    MarkerKnown(c.segment);
    assert SegmentCode(c) + rest == MarkerBytes(c.fill, MarkerOf(c.segment)) + (body + rest);
    MarkerFound(data, pos, c.fill, MarkerOf(c.segment), body + rest);
    LiesSplit(data, pos + c.fill + 2, body, rest);
    SegmentParsed(h, data, pos + c.fill + 2, c.segment);
    assert |Word(2 + |Payload(c.segment)|)| == 2 by {
      WordLength(2 + |Payload(c.segment)|);
    }
  }

  lemma WordLength(n: nat)
    ensures |Word(n)| == 2
  {
  }

  lemma MarkerKnown(s: Segment)
    requires SegmentOk(s)
    ensures MarkerOf(s) != 0xFF && MarkerOf(s) != 0xDA
  {
  }

  lemma {:induction false} SegmentsParsed(h: Header, data: seq<nat>, pos: nat, cs: seq<Coded>, rest: seq<nat>)
    requires HeaderOk(h) && forall i :: 0 <= i < |cs| ==> SegmentOk(cs[i].segment)
    requires Lies(data, pos, SegmentsCode(cs) + rest)
    ensures HeaderOk(ApplyAll(h, cs))
    ensures ParseMarkers(h, data, pos) == ParseMarkers(ApplyAll(h, cs), data, pos + |SegmentsCode(cs)|)
    ensures Lies(data, pos + |SegmentsCode(cs)|, rest)
    decreases |cs|
  {
    hide Lies, Apply, HeaderOk, SegmentOk, SegmentCode, ParseMarkers;
    if cs == [] {
      assert SegmentsCode(cs) + rest == rest;
    } else {
      var c := cs[0];
      assert SegmentOk(c.segment);
      ApplyOk(h, c.segment);
      assert SegmentsCode(cs) + rest == SegmentCode(c) + (SegmentsCode(cs[1..]) + rest);
      CodedParsed(h, data, pos, c, SegmentsCode(cs[1..]) + rest);
      SegmentsParsed(Apply(h, c.segment), data, pos + |SegmentCode(c)|, cs[1..], rest);
    }
  }

  predicate RefOk(r: ScanRef) { r.dc <= 1 && r.ac <= 1 }

  /** The scan components the references stand for. */
  function Resolved(h: Header, refs: seq<ScanRef>): seq<ScanComp>
    requires h.nComps <= |h.comps|
  {
    seq(|refs|, i requires 0 <= i < |refs| =>
      ScanComp(CompIndex(h.comps, h.nComps, refs[i].id, 0), refs[i].dc, refs[i].ac))
  }

  lemma {:induction false} RefParsed(h: Header, data: seq<nat>, pos: nat, refs: seq<ScanRef>, i: nat)
    requires h.nComps <= |h.comps| && i < |refs| && RefOk(refs[i])
    requires Lies(data, pos, RefsBytes(refs))
    ensures ScanCompAt(h, data, pos + 2 * i) == Resolved(h, refs)[i]
    decreases i
  {
    hide Lies, CompIndex;
    var head := [refs[0].id, 16 * refs[0].dc + refs[0].ac];
    LiesSplit(data, pos, head, RefsBytes(refs[1..]));
    if i == 0 {
      LiesByte(data, pos, head, 0);
      LiesByte(data, pos, head, 1);
    } else {
      RefParsed(h, data, pos + 2, refs[1..], i - 1);
    }
  }

  lemma {:induction false} ScanParsed(h: Header, data: seq<nat>, pos: nat, fill: nat, refs: seq<ScanRef>, rest: seq<nat>)
    requires HeaderOk(h) && |refs| <= MAX_COMPONENTS && forall i :: 0 <= i < |refs| ==> RefOk(refs[i])
    requires Lies(data, pos, ScanHead(fill, refs) + rest)
    ensures ParseMarkers(h, data, pos) == Done(h.(scan := Resolved(h, refs)), pos + |ScanHead(fill, refs)|)
    ensures Lies(data, pos + |ScanHead(fill, refs)|, rest)
  {
    hide Lies, MarkerAt, HeaderOk, RefOk, ParseSegment, Resolved, ParseScan, ScanBody;
    ScanSizes(h);
    Reassociate(MarkerBytes(fill, 0xDA), ScanBody(refs), rest);
    MarkerFound(data, pos, fill, 0xDA, ScanBody(refs) + rest);
    LiesSplit(data, pos + fill + 2, ScanBody(refs), rest);
    ScanBodyParsed(h, data, pos + fill + 2, refs);
  }

  lemma {:induction false} ScanBodyParsed(h: Header, data: seq<nat>, pos: nat, refs: seq<ScanRef>)
    requires h.nComps <= |h.comps| && |refs| <= MAX_COMPONENTS && forall i :: 0 <= i < |refs| ==> RefOk(refs[i])
    requires Lies(data, pos, ScanBody(refs))
    ensures ParseScan(h, data, pos) == Done(h.(scan := Resolved(h, refs)), pos + |ScanBody(refs)|)
  {
    hide Lies, RefOk, RefsBytes, Resolved, ScanCompAt, ByteAt;
    var n := |refs|;
    var fixed := Word(6 + 2 * n) + [n];
    LiesEnd(data, pos, ScanBody(refs));
    LiesSplit(data, pos, fixed + RefsBytes(refs), [0, 63, 0]);
    LiesSplit(data, pos, fixed, RefsBytes(refs));
    LiesByte(data, pos, fixed, 2);
    var scan := seq(n, i requires 0 <= i < n => ScanCompAt(h, data, pos + 3 + 2 * i));
    ResolvedLength(h, refs);
    forall i | 0 <= i < n ensures scan[i] == Resolved(h, refs)[i] {
      RefParsed(h, data, pos + 3, refs, i);
    }
    assert scan == Resolved(h, refs);
  }

  lemma ResolvedLength(h: Header, refs: seq<ScanRef>)
    requires h.nComps <= |h.comps|
    ensures |Resolved(h, refs)| == |refs|
  {
  }

  lemma ScanSizes(h: Header)
    requires HeaderOk(h)
    ensures h.nComps <= |h.comps|
  {
  }

  /** A file up to its entropy-coded data: the segments in any order, then the scan header. */
  datatype FileHead = FileHead(segments: seq<Coded>, fill: nat, refs: seq<ScanRef>)

  ghost predicate FileHeadOk(f: FileHead) {
    && (forall i :: 0 <= i < |f.segments| ==> SegmentOk(f.segments[i].segment))
    && 1 <= |f.refs| <= MAX_COMPONENTS && (forall i :: 0 <= i < |f.refs| ==> RefOk(f.refs[i]))
    && HeaderOf(f).gotSof && HeaderOf(f).dc[0].Some?
  }

  ghost function HeadBytes(f: FileHead): seq<nat> {
    [0xFF, 0xD8] + (SegmentsCode(f.segments) + ScanHead(f.fill, f.refs))
  }

  lemma {:induction false} ApplyAllOk(h: Header, cs: seq<Coded>)
    requires HeaderOk(h) && forall i :: 0 <= i < |cs| ==> SegmentOk(cs[i].segment)
    ensures HeaderOk(ApplyAll(h, cs))
    decreases |cs|
  {
    hide HeaderOk, SegmentOk, Apply;
    if cs != [] {
      assert SegmentOk(cs[0].segment);
      ApplyOk(h, cs[0].segment);
      ApplyAllOk(Apply(h, cs[0].segment), cs[1..]);
    }
  }

  /** What the head of a file says: the segments one after another, then the scan components. */
  ghost function HeaderOf(f: FileHead): (h: Header)
    requires forall i :: 0 <= i < |f.segments| ==> SegmentOk(f.segments[i].segment)
    ensures |h.dc| == 2
  {
    ApplyAllOk(BLANK, f.segments);
    var h := ApplyAll(BLANK, f.segments);
    h.(scan := Resolved(h, f.refs))
  }

  /** Parsing a well-formed head recovers what it says and stops at the entropy-coded data. */
  lemma {:induction false} HeadParsed(f: FileHead, data: seq<nat>, rest: seq<nat>)
    requires FileHeadOk(f) && data == HeadBytes(f) + rest
    ensures ParseHeader(data) == Done(HeaderOf(f), |HeadBytes(f)|)
  {
    hide Lies, ApplyAll, SegmentsCode, ScanHead, ParseMarkers, SegmentOk, RefOk, HeaderOk, Resolved;
    assert data[0] == 0xFF && data[1] == 0xD8;
    var coded := SegmentsCode(f.segments) + (ScanHead(f.fill, f.refs) + rest);
    assert data == [0xFF, 0xD8] + coded;
    LiesAll(data, [0xFF, 0xD8], coded);
    BlankOk();
    SegmentsParsed(BLANK, data, 2, f.segments, ScanHead(f.fill, f.refs) + rest);
    var h := ApplyAll(BLANK, f.segments);
    ScanParsed(h, data, 2 + |SegmentsCode(f.segments)|, f.fill, f.refs, rest);
    ScanSizes(h);
    ResolvedLength(h, f.refs);
    ScanLength(f.fill, f.refs);
  }

  lemma LiesAll(data: seq<nat>, a: seq<nat>, b: seq<nat>)
    requires data == a + b
    ensures Lies(data, |a|, b)
  {
  }

  lemma ScanLength(fill: nat, refs: seq<ScanRef>)
    ensures |ScanHead(fill, refs)| >= 2
  {
  }

  lemma BlankOk()
    ensures HeaderOk(BLANK)
  {
  }
}
