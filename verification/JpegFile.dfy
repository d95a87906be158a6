/** From a whole JPEG file to the grid of luma DC values. */
module JpegFile {
  import opened Options
  import opened BitReader
  import opened Connectivity
  import opened Huffman
  import opened BlockCode
  import opened Segments
  import opened ScanCode
  import opened LumaGrid
  import opened ScanDecoder
  import opened JpegHeader

  /** How many MCUs of `size` samples cover `n` samples. */
  function Cover(n: nat, size: nat): (m: nat)
    requires size > 0
    ensures m * size >= n && (m > 0 ==> (m - 1) * size < n)
  {
    (n + size - 1) / size
  }

  /** Every table the scan asks for has been transmitted. */
  ghost predicate ScanReady(h: Header) {
    && HeaderOk(h) && h.gotSof && |h.scan| >= 1
    && h.comps[h.scan[0].idx].qt < 4
    && forall i :: 0 <= i < |h.scan| ==> TablesReady(h, h.scan[i])
  }

  ghost predicate TablesReady(h: Header, s: ScanComp)
    requires HeaderOk(h)
  {
    && s.dc <= 1 && s.ac <= 1 && h.dc[s.dc].Some? && h.ac[s.ac].Some?
    && ShiftsDefined(h.dc[s.dc].value)
  }

  ghost function ComponentOf(h: Header, s: ScanComp): Component
    requires HeaderOk(h) && TablesReady(h, s) && s.idx < MAX_COMPONENTS
  {
    var dc, ac := h.dc[s.dc].value, h.ac[s.ac].value;
    Component(s.idx, h.comps[s.idx].h, h.comps[s.idx].v, Tables(dc, ac), TableOf(dc), TableOf(ac))
  }

  /** The scan a header announces: its size in MCUs covers the frame (section A.2.4 of ITU-T T.81). */
  ghost function ScanOf(h: Header): (sc: Scan)
    requires ScanReady(h)
    ensures |sc.comps| == |h.scan|
  {
    Scan(seq(|h.scan|, i requires 0 <= i < |h.scan| => ComponentOf(h, h.scan[i])),
         Cover(h.width, 8 * h.maxH), Cover(h.height, 8 * h.maxV), h.restart, h.qt[h.comps[h.scan[0].idx].qt])
  }

  lemma {:induction false} ScanOfValid(h: Header)
    requires ScanReady(h)
    ensures |ScanOf(h).comps| >= 1 && ValidScan(ScanOf(h))
  {
    hide TableOf, Built, ShiftsDefined, ValidSpec;
    var sc := ScanOf(h);
    forall i | 0 <= i < |sc.comps| ensures ValidComponent(sc.comps[i]) {
      var s := h.scan[i];
      assert TablesReady(h, s);
      TableOfBuilt(h.dc[s.dc].value);
      TableOfBuilt(h.ac[s.ac].value);
    }
  }

  /** Of a file with at least one frame component the grid's width and height fit the 16-bit result
      fields: luma has at most the largest sampling factors, and these are below 16. */
  lemma {:induction false} GridFits(data: seq<nat>)
    requires Bytes(data) && ParseHeader(data).Done?
    requires var h := ParseHeader(data).h; ScanReady(h) && h.nComps >= 1
    ensures var sc := ScanOf(ParseHeader(data).h); GridWidth(sc) < 0x1_0000 && GridHeight(sc) < 0x1_0000
  {
    hide ParseHeader;
    var h := ParseHeader(data).h;
    ParsedBounded(data);
    var c := h.comps[h.scan[0].idx];
    CoverFits(h.width, h.maxH, c.h);
    CoverFits(h.height, h.maxV, c.v);
  }

  lemma {:induction false} CoverFits(n: nat, m: nat, k: nat)
    requires n < 0x1_0000 && k <= m && 1 <= m < 16
    ensures Cover(n, 8 * m) * k < 0x1_0000
  {
    var q := Cover(n, 8 * m);
    if q > 0 {
      assert (q - 1) * (8 * m) == 8 * ((q - 1) * m);
      if k < m {
        ProductGrows(q - 1, k, m);
      }
      assert q * k == (q - 1) * k + k;
      assert k * (q - 1) == (q - 1) * k && m * (q - 1) == (q - 1) * m;
    }
  }

  /** A picture covered by whole MCUs has a side of exactly a quotient; any other has more. */
  lemma {:induction false} CoverExceeds(n: nat, m: nat)
    requires m >= 1
    ensures var g := Cover(n, 8 * m) * m;
            if n % (8 * m) == 0 then g == n / 8 else g > n / 8
  {
    var q, g := Cover(n, 8 * m), Cover(n, 8 * m) * m;
    assert q * (8 * m) == 8 * g;
    if n % (8 * m) == 0 {
      var k := n / (8 * m);
      assert n == k * (8 * m);
      if q > k {
        assert (q - 1) * (8 * m) < k * (8 * m);
        if k < q - 1 {
          ProductGrows(8 * m, k, q - 1);
        }
      } else if q < k {
        ProductGrows(8 * m, q, k);
      }
    } else if 8 * g == n {
      MultipleLeavesNothing(q, 8 * m);
    }
  }

  lemma {:induction false} MultipleLeavesNothing(q: nat, m: nat)
    requires m > 0
    ensures (q * m) % m == 0
  {
    Coordinates(m, 0, q);
  }

  lemma {:induction false} ProductExceeds(a: nat, b: nat, c: nat, d: nat)
    requires a >= c && b >= d && a > 0 && b > 0 && (a > c || b > d)
    ensures a * b > c * d
  {
    if a > c {
      ProductGrows(b, c, a);
    }
    if b > d {
      ProductGrows(c, d, b);
      assert c * b == b * c && c * d == d * c;
    }
    if a == c {
      assert a * b == c * b;
    }
  }

  /** Exactly when a buffer of width/8 by height/8 bytes is large enough for the grid: there is no
      grid, or the picture consists of whole MCUs. */
  lemma {:induction false} DocumentedBuffer(h: Header)
    requires ScanReady(h)
    requires var c := h.comps[h.scan[0].idx]; c.h == h.maxH && c.v == h.maxV
    ensures GridSize(ScanOf(h)) <= (h.height / 8) * (h.width / 8) <==>
              GridSize(ScanOf(h)) == 0 || (h.width % (8 * h.maxH) == 0 && h.height % (8 * h.maxV) == 0)
  {
    CoverExceeds(h.width, h.maxH);
    CoverExceeds(h.height, h.maxV);
    var gw, gh := GridWidth(ScanOf(h)), GridHeight(ScanOf(h));
    if gh * gw > 0 && !(h.width % (8 * h.maxH) == 0 && h.height % (8 * h.maxV) == 0) {
      ProductExceeds(gh, gw, h.height / 8, h.width / 8);
    }
  }

  /** A 12x8 picture with sampling factors of one: two cells, and a documented buffer of one byte. */
  lemma {:induction false} DocumentedBufferTooSmall() returns (h: Header)
    ensures ScanReady(h) && h.width == 12 && h.height == 8
    ensures GridSize(ScanOf(h)) == 2 > (h.height / 8) * (h.width / 8)
  {
    var t := Spec(seq(17, _ => 0), []);
    NoCodes(t.counts, |t.counts| - 1);
    h := Header(true, 8, 12, 1, [FrameComp(1, 1, 1, 0), NO_COMP, NO_COMP], 1, 1, [Some(t), None], [Some(t), None],
                [1, 0, 0, 0], 0, [ScanComp(0, 0, 0)]);
    assert TablesReady(h, h.scan[0]);
  }

  /** The data is this file: its head, the coded picture, and then nothing or a marker. */
  ghost predicate IsFile(data: seq<nat>, f: FileHead, img: Image, tail: seq<nat>) {
    && FileHeadOk(f) && ScanReady(HeaderOf(f)) && Stops(tail)
    && var sc := ScanOf(HeaderOf(f));
       Indexed(sc) && ScanFits(sc, img, McusOfRows(sc, sc.rows), START)
       && data == HeadBytes(f) + (ScanBytes(sc, img, McusOfRows(sc, sc.rows), START, 0) + tail)
  }

  /** Parsing the head of a file leaves the decoder in front of the coded picture. */
  lemma {:induction false} FileParsed(data: seq<nat>, f: FileHead, img: Image, tail: seq<nat>)
    requires IsFile(data, f, img, tail)
    ensures var h := HeaderOf(f);
            ParseHeader(data) == Done(h, |HeadBytes(f)|) && CodedAt(ScanOf(h), img, data, |HeadBytes(f)|, tail)
  {
    hide SegmentOk, RefOk, HeaderOf, HeadBytes, ScanOf, ScanReady, ScanBytes, ScanFits, ParseHeader, Indexed;
    var sc := ScanOf(HeaderOf(f));
    HeadParsed(f, data, ScanBytes(sc, img, McusOfRows(sc, sc.rows), START, 0) + tail);
  }

  /** `g` samples are the blocks of whole MCUs, `k` blocks each, just enough to cover `n` samples. */
  ghost predicate Covers(g: nat, k: nat, n: nat, maxK: nat) {
    exists m: nat :: CoveredBy(m, n, 8 * maxK) && g == m * k
  }

  ghost predicate CoveredBy(m: nat, n: nat, size: nat) {
    m * size >= n && forall less: nat :: less < m ==> less * size < n
  }

  /** The whole result, told from the header and the picture: the grid is as wide and as high as the
      luma blocks of the MCUs that cover the frame, and each cell is the shade of the luma block at
      its place under the quantiser transmitted for luma. */
  ghost predicate LumaOf(h: Header, img: Image, dcW: nat, dcH: nat, out: seq<nat>)
    requires ScanReady(h)
  {
    var luma := h.comps[h.scan[0].idx];
    && Covers(dcW, luma.h, h.width, h.maxH) && Covers(dcH, luma.v, h.height, h.maxV)
    && dcH * dcW <= |out|
    && forall gy: nat, gx: nat :: gy < dcH && gx < dcW ==> ShadeAt(out, gy * dcW + gx, img(0, gy, gx).dc, h.qt[luma.qt])
  }

  ghost predicate ShadeAt(out: seq<nat>, i: nat, dc: int, q: nat) {
    i < |out| && Shade(out[i], dc, q)
  }

  lemma {:induction false} CoverIsLeast(n: nat, size: nat)
    requires size > 0
    ensures CoveredBy(Cover(n, size), n, size)
  {
    var m := Cover(n, size);
    forall less: nat | less < m ensures less * size < n {
      if less < m - 1 {
        ProductGrows(size, less, m - 1);
      }
    }
  }

  lemma {:induction false} GridIsLuma(h: Header, img: Image, out: seq<nat>)
    requires ScanReady(h) && GridOf(ScanOf(h), img, out) && GridSize(ScanOf(h)) <= |out|
    ensures LumaOf(h, img, GridWidth(ScanOf(h)), GridHeight(ScanOf(h)), out)
  {
    hide Shade, Cover;
    var sc := ScanOf(h);
    CoverIsLeast(h.width, 8 * h.maxH);
    CoverIsLeast(h.height, 8 * h.maxV);
    forall gy: nat, gx: nat | gy < GridHeight(sc) && gx < GridWidth(sc)
      ensures ShadeAt(out, gy * GridWidth(sc) + gx, img(0, gy, gx).dc, h.qt[h.comps[h.scan[0].idx].qt])
    {
      assert CellValue(sc, img, out, gy, gx);
    }
  }

  datatype Code = EspOk | EspFail | EspInvalidArg

  class Parser {
    const data: seq<nat>
    var pos: nat
    var gotSof: bool
    var height: nat
    var width: nat
    var nComps: nat
    var comps: seq<FrameComp>
    var maxH: nat
    var maxV: nat
    var mcuCols: nat
    var mcuRows: nat
    var dcHt: seq<HuffTable>
    var acHt: seq<HuffTable>
    var dcValid: seq<bool>
    var acValid: seq<bool>
    var qtDc: seq<nat>
    var restart: nat
    var scan: seq<ScanComp>
    /** The tables as transmitted, beside the built ones. */
    var dc: seq<Option<Spec>>
    var ac: seq<Option<Spec>>

    /** What has been read so far. */
    ghost function Read(): Header
      reads this
    {
      Header(gotSof, height, width, nComps, comps, maxH, maxV, dc, ac, qtDc, restart, scan)
    }

    /** The built tables are those of the transmitted ones. */
    static ghost predicate Tabled(specs: seq<Option<Spec>>, hts: seq<HuffTable>, valid: seq<bool>) {
      && |specs| == |hts| == |valid| == 2
      && forall i :: 0 <= i < 2 ==>
           valid[i] == specs[i].Some? && (valid[i] ==> ValidSpec(specs[i].value) && hts[i] == TableOf(specs[i].value))
    }

    ghost predicate Valid()
      reads this
    {
      && HeaderOk(Read())
      && Tabled(dc, dcHt, dcValid) && Tabled(ac, acHt, acValid)
      && (gotSof ==> mcuCols == Cover(width, 8 * maxH) && mcuRows == Cover(height, 8 * maxV))
    }

    constructor (bytes: seq<nat>)
      ensures Valid() && Read() == BLANK && data == bytes && pos == 0
    {
      data, pos, gotSof, height, width, nComps, maxH, maxV := bytes, 0, false, 0, 0, 0, 0, 0;
      comps, scan, qtDc, restart := BLANK.comps, [], BLANK.qt, 0;
      mcuCols, mcuRows := 0, 0;
      var none := HuffTable([], [], [], [], 0);
      dcHt, acHt, dcValid, acValid := [none, none], [none, none], [false, false], [false, false];
      dc, ac := [None, None], [None, None];
    }

    /** A byte, told as the one `n` places after `p`. */
    method Rd8(ghost p: nat, ghost n: nat) returns (b: nat)
      requires pos == Past(data, p, n)
      modifies `pos
      ensures b == ByteAt(data, p + n) && pos == Past(data, p, n + 1)
    {
      if pos >= |data| {
        return 0;
      }
      b := data[pos];
      pos := pos + 1;
    }

    method Rd16(ghost p: nat, ghost n: nat) returns (w: nat)
      requires pos == Past(data, p, n)
      modifies `pos
      ensures w == WordAt(data, p + n) && pos == Past(data, p, n + 2)
    {
      hide Past, ByteAt;
      var hi := Rd8(p, n);
      var lo := Rd8(p, n + 1);
      w := 256 * hi + lo;
    }

    method ReadBytes(ghost p: nat, ghost n: nat, count: nat) returns (s: seq<nat>)
      requires pos == Past(data, p, n)
      modifies `pos
      ensures s == BytesAt(data, p + n, count) && pos == Past(data, p, n + count)
    {
      hide Past, ByteAt;
      s := [];
      for i := 0 to count
        invariant |s| == i && pos == Past(data, p, n + i)
        invariant forall k :: 0 <= k < i ==> s[k] == ByteAt(data, p + n + k)
      {
        var b := Rd8(p, n + i);
        s := s + [b];
      }
    }

    method ReadComp(ghost p: nat, ghost n: nat) returns (c: FrameComp)
      requires pos == Past(data, p, n)
      modifies `pos
      ensures c == FrameCompAt(data, p + n) && pos == Past(data, p, n + 3)
    {
      hide Past, ByteAt;
      var id := Rd8(p, n);
      var samp := Rd8(p, n + 1);
      var qt := Rd8(p, n + 2);
      c := FrameComp(id, samp / 16, samp % 16, qt);
    }

    /** The components of a frame header, and their largest sampling factors. */
    method ParseComps(ghost p: nat)
      requires |comps| == MAX_COMPONENTS && nComps <= MAX_COMPONENTS && pos == Past(data, p, 8)
      modifies `pos, `comps, `maxH, `maxV
      ensures pos == Past(data, p, 8 + 3 * nComps)
      ensures CompsRead(data, p, old(comps), comps, nComps)
      ensures maxH == MaxH(comps, nComps) && maxV == MaxV(comps, nComps)
    {
      hide Past, FrameCompAt, CompsRead, MaxH, MaxV;
      CompsStart(data, p, comps);
      maxH, maxV := 1, 1;
      var i := 0;
      while i < nComps
        invariant i <= nComps && pos == Past(data, p, 8 + 3 * i) && |comps| == MAX_COMPONENTS
        invariant CompsRead(data, p, old(comps), comps, i)
        invariant maxH == MaxH(comps, i) && maxV == MaxV(comps, i)
      {
        var c := ReadComp(p, 8 + 3 * i);
        CompsStep(data, p, old(comps), comps, i, c);
        comps := comps[i := c];
        if c.h > maxH {
          maxH := c.h;
        }
        if c.v > maxV {
          maxV := c.v;
        }
        i := i + 1;
      }
    }

    /** A frame header; false for another precision or too many components. */
    method ReadFrame(ghost p: nat) returns (ok: bool)
      requires pos == p && |comps| == MAX_COMPONENTS
      modifies `pos, `height, `width, `nComps, `comps, `maxH, `maxV
      ensures ok <==> ByteAt(data, p + 2) == 8 && ByteAt(data, p + 7) <= 3
      ensures ok ==> height == WordAt(data, p + 3) && width == WordAt(data, p + 5) && nComps == ByteAt(data, p + 7)
      ensures ok ==> CompsRead(data, p, old(comps), comps, nComps) && pos == Past(data, p, 8 + 3 * nComps)
      ensures ok ==> maxH == MaxH(comps, nComps) && maxV == MaxV(comps, nComps)
    {
      hide Past, ByteAt, WordAt, FrameCompAt;
      PastNone(data, p);
      var segLen := Rd16(p, 0);
      var precision := Rd8(p, 2);
      if precision != 8 {
        return false;
      }
      height := Rd16(p, 3);
      width := Rd16(p, 5);
      nComps := Rd8(p, 7);
      if nComps > MAX_COMPONENTS {
        return false;
      }
      ParseComps(p);
      ok := true;
    }

    /** The size of the frame in MCUs. */
    method CountMcus()
      requires HeaderOk(Read()) && gotSof && Tabled(dc, dcHt, dcValid) && Tabled(ac, acHt, acValid)
      modifies `mcuCols, `mcuRows
      ensures Valid()
    {
      hide Tabled, Cover;
      mcuCols := Cover(width, 8 * maxH);
      mcuRows := Cover(height, 8 * maxV);
    }

    method ParseSof0() returns (ok: bool)
      requires Valid()
      modifies this
      ensures ok <==> ParseFrame(old(Read()), data, old(pos)).Done?
      ensures ok ==> Valid() && Done(Read(), pos) == ParseFrame(old(Read()), data, old(pos))
    {
      hide MaxH, MaxV, Past, ByteAt, WordAt, ParseFrame, Tabled, HeaderOk, CompsRead;
      ghost var h0, p := Read(), pos;
      FrameSizes(h0);
      FrameOk(h0, data, p);
      FrameBad(h0, data, p);
      ok := ReadFrame(p);
      if ok {
        FrameGood(h0, data, p, comps);
        gotSof := true;
        assert Done(Read(), pos) == ParseFrame(h0, data, p);
        CountMcus();
      }
    }

    method ParseDht() returns (ok: bool)
      requires Valid()
      requires !ParseSegment(Read(), data, 0xC4, pos).Stuck?
      modifies this
      ensures ok <==> ParseSegment(old(Read()), data, 0xC4, old(pos)).Done?
      ensures ok ==> Valid() && Done(Read(), pos) == ParseSegment(old(Read()), data, 0xC4, old(pos))
    {
      hide ParseHuff, Tabled, Past, WordAt, ValidSpec;
      ghost var h0, p := Read(), pos;
      PastNone(data, p);
      var segLen := Rd16(p, 0);
      var end := pos + segLen - 2;
      while pos < end
        invariant Valid()
        invariant ParseHuff(Read(), data, pos, end) == ParseSegment(h0, data, 0xC4, p)
        decreases end - pos
      {
        ok := ReadHuff(end);
        if !ok {
          return;
        }
      }
      HuffEnds(Read(), data, pos, end);
      ok := true;
    }

    /** One table of a Huffman segment. */
    method ReadHuff(ghost end: int) returns (ok: bool)
      requires Valid() && pos < end && !ParseHuff(Read(), data, pos, end).Stuck?
      modifies this
      ensures !ok ==> ParseHuff(old(Read()), data, old(pos), end).Bad?
      ensures ok ==> Valid() && pos > old(pos)
      ensures ok ==> ParseHuff(Read(), data, pos, end) == ParseHuff(old(Read()), data, old(pos), end)
    {
      hide Total, ParseHuff, Past, ByteAt, CountsAt, BytesAt, ValidSpec, Built, TableOf, SetHuff, Tabled;
      ghost var h0, p := Read(), pos;
      HuffStep(h0, data, p, end);
      PastNone(data, p);
      var info := Rd8(p, 0);
      var cls, id := info / 16, info % 16;
      if id > 1 {
        return false;
      }
      var counts, total := ReadCounts(p);
      var symbols := ReadBytes(p, 17, if total < 256 then total else 256);
      var ht;
      ok, ht := BuildHuff(counts, symbols);
      if ok {
        PastMoves(data, p, 17 + total);
        assert symbols[..total] == symbols;
        Store(cls, id, ht, Spec(counts, symbols));
      }
    }

    /** Keep a built table. */
    method Store(cls: nat, id: nat, ht: HuffTable, t: Spec)
      requires Valid() && id <= 1 && Built(ht, t) && ht.minCode[0] == ht.maxCode[0] == ht.valPtr[0] == 0
      modifies `dcHt, `acHt, `dcValid, `acValid, `dc, `ac
      ensures Valid() && Read() == SetHuff(old(Read()), cls, id, t)
    {
      hide Total, TableOf, CountTo;
      BuiltTable(ht, t);
      if cls == 0 {
        dcHt, dcValid, dc := dcHt[id := ht], dcValid[id := true], dc[id := Some(t)];
      } else {
        acHt, acValid, ac := acHt[id := ht], acValid[id := true], ac[id := Some(t)];
      }
    }

    method ReadCounts(ghost p: nat) returns (counts: seq<nat>, total: nat)
      requires pos == Past(data, p, 1)
      modifies `pos
      ensures counts == CountsAt(data, p + 1) && total == Total(counts) && pos == Past(data, p, 17)
    {
      hide Past, BytesAt;
      counts := ReadBytes(p, 1, 16);
      counts := [0] + counts;
      total := 0;
      for i := 1 to 17
        invariant total == CountTo(counts, i - 1)
      {
        total := total + counts[i];
      }
    }

    method ParseDqt() returns (ok: bool)
      requires Valid()
      modifies this
      ensures ok <==> ParseSegment(old(Read()), data, 0xDB, old(pos)).Done?
      ensures ok ==> Valid() && Done(Read(), pos) == ParseSegment(old(Read()), data, 0xDB, old(pos))
    {
      hide ParseQuant, ParseHuff, Tabled, Past, WordAt;
      ghost var h0, p := Read(), pos;
      PastNone(data, p);
      ParseQuantOk(h0, data, Past(data, p, 2), Past(data, p, 2) + WordAt(data, p) - 2);
      var segLen := Rd16(p, 0);
      var end := pos + segLen - 2;
      while pos < end
        invariant Valid()
        invariant ParseQuant(Read(), data, pos, end) == ParseSegment(h0, data, 0xDB, p)
        decreases end - pos
      {
        ok := ReadQuant(end);
        if !ok {
          return;
        }
      }
      QuantEnds(Read(), data, pos, end);
      ok := true;
    }

    /** One table of a quantisation segment: its first entry is kept, the others are skipped. */
    method ReadQuant(ghost end: int) returns (ok: bool)
      requires Valid() && pos < end
      modifies `pos, `qtDc
      ensures !ok ==> ParseQuant(old(Read()), data, old(pos), end).Bad?
      ensures ok ==> Valid() && pos > old(pos)
      ensures ok ==> ParseQuant(Read(), data, pos, end) == ParseQuant(old(Read()), data, old(pos), end)
    {
      hide ParseQuant, Past, ByteAt, WordAt, Tabled;
      ghost var h0, p := Read(), pos;
      QuantStep(h0, data, p, end);
      PastNone(data, p);
      var info := Rd8(p, 0);
      var precision, id := info / 16, info % 16;
      if id >= 4 {
        return false;
      }
      if precision == 0 {
        var q := Rd8(p, 1);
        qtDc := qtDc[id := q];
        pos := pos + 63;
      } else {
        var q := Rd16(p, 1);
        qtDc := qtDc[id := q];
        pos := pos + 63 * 2;
      }
      ok := true;
    }

    method FindComp(id: nat) returns (c: nat)
      requires nComps <= |comps|
      ensures c == CompIndex(comps, nComps, id, 0)
    {
      c := 0;
      while c < nComps
        invariant c <= nComps
        invariant CompIndex(comps, nComps, id, c) == CompIndex(comps, nComps, id, 0)
      {
        if comps[c].id == id {
          return;
        }
        c := c + 1;
      }
      c := 0;
    }

    method ParseSos() returns (ok: bool)
      requires Valid()
      modifies `pos, `scan
      ensures ok <==> ParseScan(old(Read()), data, old(pos)).Done?
      ensures ok ==> Valid() && Done(Read(), pos) == ParseScan(old(Read()), data, old(pos))
    {
      hide Past, ByteAt, WordAt, Tabled, ScanCompAt;
      ghost var h0, p := Read(), pos;
      PastNone(data, p);
      var segLen := Rd16(p, 0);
      var n := Rd8(p, 2);
      if n > MAX_COMPONENTS {
        return false;
      }
      ReadScanComps(p, n);
      var ss := Rd8(p, 3 + 2 * n);
      var se := Rd8(p, 4 + 2 * n);
      var a := Rd8(p, 5 + 2 * n);
      assert scan == seq(n, i requires 0 <= i < n => ScanCompAt(h0, data, p + 3 + 2 * i));
      ok := true;
    }

    method ReadScanComps(ghost p: nat, n: nat)
      requires nComps <= |comps| && pos == Past(data, p, 3)
      modifies `pos, `scan
      ensures pos == Past(data, p, 3 + 2 * n) && |scan| == n
      ensures forall i :: 0 <= i < n ==> scan[i] == ScanCompAt(old(Read()), data, p + 3 + 2 * i)
      ensures forall i :: 0 <= i < n ==> scan[i].idx == 0 || scan[i].idx < nComps
    {
      hide Past, ByteAt, CompIndex;
      ghost var h0 := Read();
      scan := [];
      for i := 0 to n
        invariant pos == Past(data, p, 3 + 2 * i) && |scan| == i
        invariant forall k :: 0 <= k < i ==> scan[k] == ScanCompAt(h0, data, p + 3 + 2 * k)
        invariant forall k :: 0 <= k < i ==> scan[k].idx == 0 || scan[k].idx < nComps
      {
        var id := Rd8(p, 3 + 2 * i);
        var tbl := Rd8(p, 4 + 2 * i);
        var c := FindComp(id);
        scan := scan + [ScanComp(c, tbl / 16, tbl % 16)];
      }
    }

    method ParseDri()
      requires Valid()
      modifies `pos, `restart
      ensures Valid() && Done(Read(), pos) == ParseSegment(old(Read()), data, 0xDD, old(pos))
    {
      hide Past, WordAt, Tabled;
      ghost var p := pos;
      PastNone(data, p);
      var segLen := Rd16(p, 0);
      restart := Rd16(p, 2);
    }

    /** The byte after an 0xFF and any fill bytes. */
    method ReadMarker() returns (marker: nat)
      requires pos < |data|
      modifies `pos
      ensures (marker, pos) == MarkerAt(data, old(pos))
    {
      marker := data[pos];
      pos := pos + 1;
      while marker == 0xFF && pos < |data|
        invariant pos <= |data|
        invariant MarkerAt(data, old(pos)) ==
                    if marker == 0xFF && pos < |data| then MarkerAt(data, pos) else (marker, pos)
        decreases |data| - pos
      {
        marker := data[pos];
        pos := pos + 1;
      }
    }

    /** The segment of any marker but SOS. */
    method ParseOther(marker: nat) returns (ok: bool)
      requires Valid() && !ParseSegment(Read(), data, marker, pos).Stuck?
      modifies this
      ensures ok <==> ParseSegment(old(Read()), data, marker, old(pos)).Done?
      ensures ok ==> Valid() && Done(Read(), pos) == ParseSegment(old(Read()), data, marker, old(pos))
    {
      hide Valid, ParseFrame, ParseHuff, ParseQuant, Past, WordAt, HeaderOk;
      ok := true;
      if marker == 0xC0 {
        ok := ParseSof0();
      } else if marker == 0xC4 {
        ok := ParseDht();
      } else if marker == 0xDB {
        ok := ParseDqt();
      } else if marker == 0xDD {
        ParseDri();
      } else if marker == 0xD9 {
        ok := false;
      } else if marker >= 0xE0 {
        SkipOver();
      }
    }

    method SkipOver()
      requires Valid()
      modifies `pos
      ensures Valid() && pos == SkipSegment(data, old(pos)) && Read() == old(Read())
    {
      hide Past, WordAt, Tabled;
      ghost var p := pos;
      PastNone(data, p);
      var len := Rd16(p, 0);
      if len >= 2 {
        pos := pos + len - 2;
      }
    }

    /** The marker loop, up to and including the scan header. */
    method ParseToScan() returns (gotSos: bool)
      requires Valid() && !ParseMarkers(Read(), data, pos).Stuck?
      modifies this
      ensures gotSos <==> ParseMarkers(old(Read()), data, old(pos)).Done?
      ensures gotSos ==> Valid() && Done(Read(), pos) == ParseMarkers(old(Read()), data, old(pos))
    {
      hide ParseSegment, ParseScan, HeaderOk, Tabled;
      ghost var all := ParseMarkers(Read(), data, pos);
      gotSos := false;
      while pos + 1 < |data|
        invariant Valid() && ParseMarkers(Read(), data, pos) == all
        decreases |data| - pos
      {
        MarkerStep(Read(), data, pos);
        var b := data[pos];
        pos := pos + 1;
        if b == 0xFF {
          var marker := ReadMarker();
          if marker == 0xDA {
            gotSos := ParseSos();
            return;
          }
          var ok := ParseOther(marker);
          if !ok {
            return;
          }
        }
      }
    }

    /** SOI, the marker loop, and the checks that a frame, a scan and DC table 0 were given. */
    method ParseFileHeader() returns (ok: bool)
      requires Valid() && Read() == BLANK && pos == 0 && |data| >= 4 && !ParseHeader(data).Stuck?
      modifies this
      ensures ok <==> ParseHeader(data).Done?
      ensures ok ==> Valid() && Done(Read(), pos) == ParseHeader(data)
    {
      hide ParseMarkers, Tabled;
      if data[0] != 0xFF || data[1] != 0xD8 {
        return false;
      }
      pos := 2;
      ok := ParseToScan();
      if ok {
        TabledAt(dc, dcHt, dcValid, 0);
        ok := gotSof && |scan| >= 1 && dcValid[0];
      }
    }

    lemma TabledAt(specs: seq<Option<Spec>>, hts: seq<HuffTable>, valid: seq<bool>, i: nat)
      requires Tabled(specs, hts, valid) && i < 2
      ensures |specs| == |hts| == |valid| == 2 && valid[i] == specs[i].Some?
      ensures valid[i] ==> ValidSpec(specs[i].value) && hts[i] == TableOf(specs[i].value)
    {
    }

    /** The scan as the decoder walks it. */
    method MakeScan() returns (sc: Scan)
      requires Valid() && ScanReady(Read())
      ensures sc == ScanOf(Read())
    {
      hide Tabled, TableOf, Cover, ShiftsDefined;
      ghost var h := Read();
      var list: seq<Component> := [];
      for i := 0 to |scan|
        invariant |list| == i
        invariant forall k :: 0 <= k < i ==> TablesReady(h, h.scan[k]) && list[k] == ComponentOf(h, h.scan[k])
      {
        var s := scan[i];
        assert TablesReady(h, h.scan[i]);
        TabledAt(dc, dcHt, dcValid, s.dc);
        TabledAt(ac, acHt, acValid, s.ac);
        var tables := Tables(dc[s.dc].value, ac[s.ac].value);
        list := list + [Component(s.idx, comps[s.idx].h, comps[s.idx].v, tables, dcHt[s.dc], acHt[s.ac])];
      }
      sc := Scan(list, mcuCols, mcuRows, restart, qtDc[comps[scan[0].idx].qt]);
    }
  }

  /** Extract the grid: its size, and its cells into `out`. On any data decoding goes as far as `stop`: the cells
      before it hold the shades of what was decoded, `tried` says from which bits, the others keep their
      values. `f`, `img` and `tail` say what file the data is, if it is one. */
  method ExtractDcLuma(jpeg: seq<nat>, out: array<nat>, ghost f: FileHead, ghost img: Image, ghost tail: seq<nat>)
    returns (code: Code, dcW: nat, dcH: nat, ghost stop: Place, ghost tried: map<Place, Attempt>)
    requires Bytes(jpeg) && !ParseHeader(jpeg).Stuck?
    requires var r := ParseHeader(jpeg); r.Done? ==> ScanReady(r.h) && GridSize(ScanOf(r.h)) <= out.Length
    modifies out
    ensures |jpeg| < 4 ==> code == EspInvalidArg
    ensures |jpeg| >= 4 ==> code == if ParseHeader(jpeg).Done? then EspOk else EspFail
    ensures code != EspOk ==> out[..] == old(out[..])
    ensures code == EspOk ==>
              var sc := ScanOf(ParseHeader(jpeg).h);
              dcW == GridWidth(sc) && dcH == GridHeight(sc) && KeptFrom(sc, old(out[..]), out[..], stop)
              && WalkedTo(sc, tried, out[..], stop, stop == Place(sc.rows, 0, 0, 0, 0))
    ensures IsFile(jpeg, f, img, tail) ==> code == EspOk && LumaOf(HeaderOf(f), img, dcW, dcH, out[..])
  {
    hide LumaOf, KeptFrom, WalkedTo, IsFile, ScanReady, ParseHeader, GridSize, ScanOf, GridOf, CodedAt, HeaderOf, GridWidth, GridHeight;
    code, dcW, dcH, stop, tried := EspFail, 0, 0, START, map[];
    if IsFile(jpeg, f, img, tail) {
      FileParsed(jpeg, f, img, tail);
      HeaderInside(jpeg);
    }
    if |jpeg| < 4 {
      return EspInvalidArg, 0, 0, START, map[];
    }
    var p := new Parser(jpeg);
    var ok := p.ParseFileHeader();
    if !ok {
      return;
    }
    var sc := p.MakeScan();
    ScanOfValid(p.Read());
    dcW, dcH := GridWidth(sc), GridHeight(sc);
    HeaderInside(jpeg);
    var d := new Decoder(jpeg, p.pos);
    stop := d.DecodeScan(sc, out, img, tail);
    tried := d.tried;
    code := EspOk;
    if IsFile(jpeg, f, img, tail) {
      GridIsLuma(ParseHeader(jpeg).h, img, out[..]);
    }
  }

  lemma HeaderInside(data: seq<nat>)
    requires ParseHeader(data).Done?
    ensures |data| >= 4 && ParseHeader(data).pos <= |data|
  {
    hide ParseMarkers;
    BlankOk();
    ParseMarkersOk(BLANK, data, 2);
  }

  lemma FrameOk(h: Header, data: seq<nat>, p: nat)
    requires HeaderOk(h)
    ensures var r := ParseFrame(h, data, p); r.Done? ==> HeaderOk(r.h)
  {
    hide ParseFrame, ParseHuff, ParseQuant, HeaderOk;
    ParseSegmentOk(h, data, 0xC0, p);
  }

  lemma FrameBad(h: Header, data: seq<nat>, p: nat)
    requires |h.comps| == MAX_COMPONENTS
    ensures ByteAt(data, p + 2) != 8 || ByteAt(data, p + 7) > MAX_COMPONENTS ==> ParseFrame(h, data, p).Bad?
  {
  }

  lemma PastNone(data: seq<nat>, p: nat)
    ensures Past(data, p, 0) == p
  {
  }

  lemma PastMoves(data: seq<nat>, p: nat, n: nat)
    requires p < |data| && n > 0
    ensures Past(data, p, n) > p
  {
  }

  lemma HuffEnds(h: Header, data: seq<nat>, pos: nat, end: int)
    requires |h.dc| == |h.ac| == 2 && pos >= end
    ensures ParseHuff(h, data, pos, end) == Done(h, pos)
  {
  }

  /** One turn of the loop over a Huffman segment. */
  lemma HuffStep(h: Header, data: seq<nat>, p: nat, end: int)
    requires |h.dc| == |h.ac| == 2 && p < end && !ParseHuff(h, data, p, end).Stuck?
    ensures p < |data|
    ensures var info, counts := ByteAt(data, p), CountsAt(data, p + 1);
            if info % 16 > 1 || Total(counts) > 256 then ParseHuff(h, data, p, end).Bad?
            else ParseHuff(h, data, p, end) ==
                 ParseHuff(SetHuff(h, info / 16, info % 16, Spec(counts, BytesAt(data, p + 17, Total(counts)))),
                           data, Past(data, p, 17 + Total(counts)), end)
  {
    hide Total;
  }

  lemma QuantEnds(h: Header, data: seq<nat>, pos: nat, end: int)
    requires |h.qt| == 4 && pos >= end
    ensures ParseQuant(h, data, pos, end) == Done(h, pos)
  {
  }

  /** One turn of the loop over a quantisation segment. */
  lemma QuantStep(h: Header, data: seq<nat>, p: nat, end: int)
    requires |h.qt| == 4 && p < end
    ensures var info := ByteAt(data, p);
            if info % 16 >= 4 then ParseQuant(h, data, p, end).Bad?
            else if info / 16 == 0 then
              && Past(data, p, 2) >= p
              && ParseQuant(h, data, p, end) ==
                 ParseQuant(h.(qt := h.qt[info % 16 := ByteAt(data, p + 1)]), data, Past(data, p, 2) + 63, end)
            else
              && Past(data, p, 3) >= p
              && ParseQuant(h, data, p, end) ==
                 ParseQuant(h.(qt := h.qt[info % 16 := WordAt(data, p + 1)]), data, Past(data, p, 3) + 126, end)
  {
  }

  /** One turn of the marker loop. */
  lemma MarkerStep(h: Header, data: seq<nat>, pos: nat)
    requires HeaderOk(h) && pos + 1 < |data|
    ensures data[pos] != 0xFF ==> ParseMarkers(h, data, pos) == ParseMarkers(h, data, pos + 1)
    ensures var (marker, at) := MarkerAt(data, pos + 1);
            var r := ParseSegment(h, data, marker, at);
            && (r.Done? ==> HeaderOk(r.h) && r.pos >= at)
            && (data[pos] == 0xFF && marker == 0xDA ==> ParseMarkers(h, data, pos) == ParseScan(h, data, at))
            && (data[pos] == 0xFF && marker != 0xDA ==>
                  ParseMarkers(h, data, pos) == if r.Done? then ParseMarkers(r.h, data, r.pos) else r)
  {
    hide ParseSegment, ParseScan, HeaderOk, MarkerAt;
    ParseSegmentOk(h, data, MarkerAt(data, pos + 1).0, MarkerAt(data, pos + 1).1);
  }
}
