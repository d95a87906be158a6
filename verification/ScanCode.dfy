/** A whole scan: the interleaved order of section A.2.3 of ITU-T T.81 and the restart intervals
    of section E.2.4, as an encoder. */
module ScanCode {
  import opened Bits
  import opened BitReader
  import opened Huffman
  import opened BlockCode
  import opened Segments

  const MAX_COMPONENTS := 3

  /** A component of the scan: where its DC prediction is kept, its sampling factors, its tables
      as transmitted and as built. */
  datatype Component = Component(idx: nat, h: nat, v: nat, tables: Tables, dcHt: HuffTable, acHt: HuffTable)

  /** The scan: its components, luma first, the size in MCUs, the restart interval (0 for none)
      and the luma DC quantiser. */
  datatype Scan = Scan(comps: seq<Component>, cols: nat, rows: nat, restart: nat, q: nat)

  ghost predicate ValidComponent(c: Component) {
    && c.idx < MAX_COMPONENTS
    && Built(c.dcHt, c.tables.dc) && Built(c.acHt, c.tables.ac) && ShiftsDefined(c.tables.dc)
  }

  ghost predicate ValidScan(sc: Scan) {
    |sc.comps| >= 1 && forall i :: 0 <= i < |sc.comps| ==> ValidComponent(sc.comps[i])
  }

  ghost predicate Indexed(sc: Scan) {
    forall i :: 0 <= i < |sc.comps| ==> sc.comps[i].idx < MAX_COMPONENTS
  }

  /** The blocks of the picture: component, block row, block column. */
  type Image = (nat, nat, nat) -> Block

  /** A place in the scan: MCU row and column, component, and block row and column inside the MCU. */
  datatype Place = Place(r: nat, col: nat, c: nat, bv: nat, bh: nat)

  function NextMcu(sc: Scan, p: Place): Place {
    if p.col + 1 < sc.cols then Place(p.r, p.col + 1, 0, 0, 0) else Place(p.r + 1, 0, 0, 0, 0)
  }

  /** The block of the picture at a place. */
  ghost function BlockAt(sc: Scan, img: Image, p: Place): Block
    requires p.c < |sc.comps|
  {
    img(p.c, p.r * sc.comps[p.c].v + p.bv, p.col * sc.comps[p.c].h + p.bh)
  }

  /** The place is past the last component, past the last block row, past the last block of its row. */
  predicate McuDone(sc: Scan, p: Place) { p.c >= |sc.comps| }
  predicate RowsDone(sc: Scan, p: Place) requires !McuDone(sc, p) { p.bv >= sc.comps[p.c].v }
  predicate RowDone(sc: Scan, p: Place) requires !McuDone(sc, p) { p.bh >= sc.comps[p.c].h }

  ghost predicate Preds(preds: seq<int>) { |preds| == MAX_COMPONENTS }

  /** The blocks from `p` on, of `left` more MCUs, can be coded with predictions `preds`. */
  ghost predicate Fits(sc: Scan, img: Image, left: nat, p: Place, preds: seq<int>)
    requires Indexed(sc) && Preds(preds)
    decreases left, |sc.comps| - p.c, (if McuDone(sc, p) then 0 else sc.comps[p.c].v - p.bv),
              (if McuDone(sc, p) then 0 else sc.comps[p.c].h - p.bh)
  {
    if left == 0 then true
    else if McuDone(sc, p) then Fits(sc, img, left - 1, NextMcu(sc, p), preds)
    else if RowsDone(sc, p) then Fits(sc, img, left, p.(c := p.c + 1, bv := 0, bh := 0), preds)
    else if RowDone(sc, p) then Fits(sc, img, left, p.(bv := p.bv + 1, bh := 0), preds)
    else
      var comp, b := sc.comps[p.c], BlockAt(sc, img, p);
      && GoodTables(comp.tables) && BlockFits(comp.tables, b, preds[comp.idx])
      && Fits(sc, img, left, p.(bh := p.bh + 1), preds[comp.idx := b.dc])
  }

  /** The bits of the blocks from `p` on, of `left` more MCUs, in interleaved order. */
  ghost function McuBits(sc: Scan, img: Image, left: nat, p: Place, preds: seq<int>): seq<bool>
    requires Indexed(sc) && Preds(preds) && Fits(sc, img, left, p, preds)
    decreases left, |sc.comps| - p.c, (if McuDone(sc, p) then 0 else sc.comps[p.c].v - p.bv),
              (if McuDone(sc, p) then 0 else sc.comps[p.c].h - p.bh)
  {
    if left == 0 then []
    else if McuDone(sc, p) then McuBits(sc, img, left - 1, NextMcu(sc, p), preds)
    else if RowsDone(sc, p) then McuBits(sc, img, left, p.(c := p.c + 1, bv := 0, bh := 0), preds)
    else if RowDone(sc, p) then McuBits(sc, img, left, p.(bv := p.bv + 1, bh := 0), preds)
    else
      var comp, b := sc.comps[p.c], BlockAt(sc, img, p);
      BlockBits(comp.tables, b, preds[comp.idx]) + McuBits(sc, img, left, p.(bh := p.bh + 1), preds[comp.idx := b.dc])
  }

  /** The MCUs of the next restart interval, when `rem` are left in the scan. */
  function IntervalLength(sc: Scan, rem: nat): (n: nat)
    ensures n <= rem && (rem > 0 ==> n > 0)
  {
    if sc.restart == 0 || sc.restart >= rem then rem else sc.restart
  }

  /** The place `n` MCUs further on. */
  function Advance(sc: Scan, p: Place, n: nat): Place
    decreases n
  {
    if n == 0 then p else Advance(sc, NextMcu(sc, p), n - 1)
  }

  const ZERO_PREDS: seq<int> := [0, 0, 0]

  ghost predicate ScanFits(sc: Scan, img: Image, rem: nat, p: Place)
    requires Indexed(sc)
    decreases rem
  {
    if rem == 0 then true
    else
      var n := IntervalLength(sc, rem);
      Fits(sc, img, n, p, ZERO_PREDS) && ScanFits(sc, img, rem - n, Advance(sc, p, n))
  }

  /** The marker RSTm with m counting modulo 8. */
  function RestartMarker(k: nat): seq<nat> { [0xFF, 0xD0 + k % 8] }

  /** The entropy-coded bytes of the remaining `rem` MCUs: one padded, stuffed segment per restart
      interval, with a restart marker between intervals. */
  ghost function ScanBytes(sc: Scan, img: Image, rem: nat, p: Place, k: nat): seq<nat>
    requires Indexed(sc) && ScanFits(sc, img, rem, p)
    decreases rem
  {
    if rem == 0 then []
    else
      var n := IntervalLength(sc, rem);
      SegmentBytes(McuBits(sc, img, n, p, ZERO_PREDS)) +
      if n == rem then [] else RestartMarker(k) + ScanBytes(sc, img, rem - n, Advance(sc, p, n), k + 1)
  }

  /** What follows a restart interval: nothing after the last, else the marker and the next interval. */
  ghost function AfterInterval(sc: Scan, img: Image, rem: nat, p: Place, k: nat): seq<nat>
    requires Indexed(sc) && ScanFits(sc, img, rem, p)
  {
    if rem == 0 then [] else RestartMarker(k) + ScanBytes(sc, img, rem, p, k + 1)
  }

  const START := Place(0, 0, 0, 0, 0)

  /** The MCUs of `n` rows of the picture. */
  function McusOfRows(sc: Scan, n: nat): (m: nat)
    ensures m == n * sc.cols
  {
    if n == 0 then 0 else McusOfRows(sc, n - 1) + sc.cols
  }

  /** The data from `pos` on is this scan of this picture, followed by a marker or nothing. */
  ghost predicate CodedAt(sc: Scan, img: Image, data: seq<nat>, pos: nat, tail: seq<nat>) {
    && Indexed(sc) && ScanFits(sc, img, McusOfRows(sc, sc.rows), START) && pos <= |data|
    && data[pos..] == ScanBytes(sc, img, McusOfRows(sc, sc.rows), START, 0) + tail && Stops(tail)
  }
}
