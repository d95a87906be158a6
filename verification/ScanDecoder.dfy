/** The decoder's walk over the entropy-coded data: MCU by MCU, component by component, with
    resynchronisation at restart markers. */
module ScanDecoder {
  import opened Options
  import opened Bits
  import opened BitReader
  import opened Huffman
  import opened BlockCode
  import opened Segments
  import opened ScanCode
  import opened LumaGrid

  /** The reader is where the encoder was at place `p`: `stream` codes the blocks from there to the
      end of the interval, `left` MCUs on, and then the padding. */
  ghost predicate OnTrack(sc: Scan, img: Image, left: nat, p: Place, preds: seq<int>, pad: seq<bool>, stream: seq<bool>) {
    && Indexed(sc) && Preds(preds) && Fits(sc, img, left, p, preds)
    && stream == McuBits(sc, img, left, p, preds) + pad
  }

  /** The next block: it decodes to the DC value of its place, and leaves the reader on track. */
  lemma {:induction false} TrackBlock(sc: Scan, img: Image, left: nat, p: Place, preds: seq<int>, pad: seq<bool>, stream: seq<bool>)
    requires ValidScan(sc) && OnTrack(sc, img, left, p, preds, pad, stream)
    requires left > 0 && !McuDone(sc, p) && !RowsDone(sc, p) && !RowDone(sc, p)
    ensures Served(sc.comps[p.c].tables.dc, stream)
    ensures var comp, dc := sc.comps[p.c], BlockAt(sc, img, p).dc;
            match DecodeBlock(comp.tables, stream, preds[comp.idx])
            case Failed(_) => false
            case Got(v, rest) => v == dc && OnTrack(sc, img, left, p.(bh := p.bh + 1), preds[comp.idx := dc], pad, rest)
  {
    hide DecodeBlock, BlockBits, BlockFits, Kraft, Built, ShiftsDefined, Served;
    var comp, b := sc.comps[p.c], BlockAt(sc, img, p);
    var code := BlockBits(comp.tables, b, preds[comp.idx]);
    var tail := McuBits(sc, img, left, p.(bh := p.bh + 1), preds[comp.idx := b.dc]);
    Reassociate(code, tail, pad);
    CodedIsServed(comp.tables, b, preds[comp.idx], tail + pad);
    BlockRoundTrip(comp.tables, b, preds[comp.idx], tail + pad);
  }

  lemma {:induction false} TrackRow(sc: Scan, img: Image, left: nat, p: Place, preds: seq<int>, pad: seq<bool>, stream: seq<bool>)
    requires OnTrack(sc, img, left, p, preds, pad, stream)
    requires left > 0 && !McuDone(sc, p) && !RowsDone(sc, p) && RowDone(sc, p)
    ensures OnTrack(sc, img, left, p.(bv := p.bv + 1, bh := 0), preds, pad, stream)
  {
  }

  lemma {:induction false} TrackRows(sc: Scan, img: Image, left: nat, p: Place, preds: seq<int>, pad: seq<bool>, stream: seq<bool>)
    requires OnTrack(sc, img, left, p, preds, pad, stream)
    requires left > 0 && !McuDone(sc, p) && RowsDone(sc, p)
    ensures OnTrack(sc, img, left, p.(c := p.c + 1, bv := 0, bh := 0), preds, pad, stream)
  {
  }

  lemma {:induction false} TrackMcu(sc: Scan, img: Image, left: nat, p: Place, preds: seq<int>, pad: seq<bool>, stream: seq<bool>)
    requires OnTrack(sc, img, left, p, preds, pad, stream)
    requires left > 0 && McuDone(sc, p)
    ensures OnTrack(sc, img, left - 1, NextMcu(sc, p), preds, pad, stream)
  {
  }

  // ---- Passing to the next row, component, MCU passes no cell ----

  /** The luma places before `next` are before `p`. */
  ghost predicate NoneBetween(sc: Scan, p: Place, next: Place) {
    forall q :: LumaPlace(sc, q) && Before(q, next) ==> Before(q, p)
  }

  lemma RowEnds(sc: Scan, p: Place)
    requires |sc.comps| >= 1 && !McuDone(sc, p) && RowDone(sc, p)
    ensures NoneBetween(sc, p, p.(bv := p.bv + 1, bh := 0))
  {
  }

  lemma RowsEnd(sc: Scan, p: Place)
    requires |sc.comps| >= 1 && !McuDone(sc, p) && (RowsDone(sc, p) || p.c > 0)
    ensures NoneBetween(sc, p, p.(c := p.c + 1, bv := 0, bh := 0))
  {
  }

  lemma McuEnds(sc: Scan, p: Place)
    requires |sc.comps| >= 1 && McuDone(sc, p)
    ensures NoneBetween(sc, p, NextMcu(sc, p))
  {
  }

  /** A block of another component changes no luma cell. */
  lemma OtherBlock(sc: Scan, p: Place)
    requires |sc.comps| >= 1 && p.c > 0
    ensures NoneBetween(sc, p, p.(bh := p.bh + 1))
  {
  }

  lemma {:induction false} FilledTo(sc: Scan, img: Image, out: seq<nat>, p: Place, next: Place)
    requires |sc.comps| >= 1 && Filled(sc, img, out, p) && NoneBetween(sc, p, next)
    ensures Filled(sc, img, out, next)
  {
    hide CellDone, Before, LumaPlace;
  }

  // ---- What is known on any data ----

  /** What was made of a block: the bits that were left and the prediction when it was tried, and the DC value
      if there was one. */
  datatype Attempt = Attempt(stream: seq<bool>, pred: int, dc: Option<int>)

  /** The bit-string decoder says the same, wherever it says anything. */
  ghost predicate Honest(sc: Scan, p: Place, a: Attempt) {
    p.c < |sc.comps| && ValidSpec(sc.comps[p.c].tables.dc) && ValidSpec(sc.comps[p.c].tables.ac) ==>
      Served(sc.comps[p.c].tables.dc, a.stream) ==>
        match DecodeBlock(sc.comps[p.c].tables, a.stream, a.pred)
        case Failed(_) => a.dc.None?
        case Got(v, _) => a.dc == Some(v)
  }

  /** The cell of `p` holds the shade of the DC value that was decoded there. */
  ghost predicate CellDecoded(sc: Scan, tried: map<Place, Attempt>, out: seq<nat>, p: Place)
    requires |sc.comps| >= 1
  {
    && p in tried && tried[p].dc.Some?
    && Cell(sc, p) < |out| && Shade(out[Cell(sc, p)], tried[p].dc.value, sc.q)
  }

  /** All blocks before `p` have been tried and their luma cells hold what was decoded. */
  ghost predicate Reached(sc: Scan, tried: map<Place, Attempt>, out: seq<nat>, p: Place)
    requires |sc.comps| >= 1
  {
    && (forall q :: LumaPlace(sc, q) && Before(q, p) ==> CellDecoded(sc, tried, out, q))
    && (forall q :: q in tried ==> Honest(sc, q, tried[q]))
  }

  ghost predicate NoneFailed(tried: map<Place, Attempt>) {
    forall q :: q in tried ==> tried[q].dc.Some?
  }

  /** The walk is at `p`, or has ended at the block at `p`, the only one that could not be decoded. */
  ghost predicate WalkedTo(sc: Scan, tried: map<Place, Attempt>, out: seq<nat>, p: Place, ok: bool)
    requires |sc.comps| >= 1
  {
    && Reached(sc, tried, out, p)
    && (ok ==> NoneFailed(tried))
    && (!ok ==> p in tried && tried[p].dc.None? && NoneFailed(tried - {p}))
  }

  lemma {:induction false} WalkedOn(sc: Scan, tried: map<Place, Attempt>, out: seq<nat>, p: Place, next: Place)
    requires |sc.comps| >= 1 && WalkedTo(sc, tried, out, p, true) && NoneBetween(sc, p, next)
    ensures WalkedTo(sc, tried, out, next, true)
  {
    hide CellDecoded, Before, LumaPlace, Honest;
  }

  lemma WalkedNoneFailed(sc: Scan, tried: map<Place, Attempt>, out: seq<nat>, p: Place)
    requires |sc.comps| >= 1 && WalkedTo(sc, tried, out, p, true)
    ensures NoneFailed(tried)
  {
  }

  lemma WalkStarts(sc: Scan, out: seq<nat>)
    requires |sc.comps| >= 1
    ensures WalkedTo(sc, map[], out, START, true)
  {
  }

  lemma NothingToWalk(sc: Scan, out: seq<nat>)
    requires |sc.comps| >= 1 && sc.cols == 0
    ensures WalkedTo(sc, map[], out, Place(sc.rows, 0, 0, 0, 0), true)
  {
  }

  lemma {:induction false} WalkFails(sc: Scan, tried: map<Place, Attempt>, out: seq<nat>, p: Place, a: Attempt)
    requires |sc.comps| >= 1 && WalkedTo(sc, tried, out, p, true) && Honest(sc, p, a) && a.dc.None?
    ensures WalkedTo(sc, tried[p := a], out, p, false)
  {
    hide Honest, LumaPlace, Cell, Shade;
    NotBeforeItself(p);
    forall q | LumaPlace(sc, q) && Before(q, p) ensures CellDecoded(sc, tried[p := a], out, q) {
      assert CellDecoded(sc, tried, out, q);
    }
  }

  lemma NotBeforeItself(p: Place)
    ensures !Before(p, p)
  {
  }

  /** A block of another component. */
  lemma {:induction false} WalkPasses(sc: Scan, tried: map<Place, Attempt>, out: seq<nat>, p: Place, a: Attempt)
    requires |sc.comps| >= 1 && WalkedTo(sc, tried, out, p, true) && Honest(sc, p, a) && a.dc.Some? && p.c > 0
    ensures WalkedTo(sc, tried[p := a], out, p.(bh := p.bh + 1), true)
  {
    hide Honest, Cell, Shade;
    OtherBlock(sc, p);
    forall q | LumaPlace(sc, q) && Before(q, p.(bh := p.bh + 1)) ensures CellDecoded(sc, tried[p := a], out, q) {
      assert CellDecoded(sc, tried, out, q);
    }
  }

  /** A luma block: its cell is written. */
  lemma {:induction false} WalkWrites(sc: Scan, tried: map<Place, Attempt>, out: seq<nat>, p: Place, a: Attempt, out': seq<nat>)
    requires LumaPlace(sc, p) && WalkedTo(sc, tried, out, p, true) && Honest(sc, p, a) && a.dc.Some?
    requires Cell(sc, p) < |out| && out' == out[Cell(sc, p) := Luma(a.dc.value, sc.q)]
    ensures WalkedTo(sc, tried[p := a], out', p.(bh := p.bh + 1), true)
  {
    hide Honest, Shade, Luma;
    forall q | LumaPlace(sc, q) && Before(q, p.(bh := p.bh + 1)) ensures CellDecoded(sc, tried[p := a], out', q) {
      hide Cell;
      if q != p {
        CellsDistinct(sc, p, q);
        assert CellDecoded(sc, tried, out, q);
      }
    }
  }

  /** Everything known at place `p` when the data is a coded picture: the reader is on track and the
      grid is filled so far. */
  ghost predicate Agrees(sc: Scan, img: Image, left: nat, p: Place, preds: seq<int>, pad: seq<bool>, stream: seq<bool>, out: seq<nat>)
    requires |sc.comps| >= 1
  {
    left > 0 && OnTrack(sc, img, left, p, preds, pad, stream) && Filled(sc, img, out, p)
  }

  /** Every cell that belongs to a block from `stop` on in scan order, and everything outside the grid,
      keeps its value. */
  ghost predicate KeptFrom(sc: Scan, before: seq<nat>, after: seq<nat>, stop: Place)
    requires |sc.comps| >= 1
  {
    && |before| == |after|
    && (forall i :: GridSize(sc) <= i < |before| ==> after[i] == before[i])
    && (forall p :: LumaPlace(sc, p) && !Before(p, stop) ==> CellKept(sc, before, after, p))
  }

  ghost predicate CellKept(sc: Scan, before: seq<nat>, after: seq<nat>, p: Place)
    requires |sc.comps| >= 1
  {
    Cell(sc, p) < |before| == |after| ==> after[Cell(sc, p)] == before[Cell(sc, p)]
  }

  lemma KeptNothing(sc: Scan, out: seq<nat>, stop: Place)
    requires |sc.comps| >= 1
    ensures KeptFrom(sc, out, out, stop)
  {
  }

  lemma BeforeLater(p: Place, stop: Place, later: Place)
    requires !Before(later, stop) && Before(p, stop)
    ensures Before(p, later)
  {
  }

  /** What is kept from some place on is kept from every later place on, through further changes. */
  lemma {:induction false} KeptThrough(sc: Scan, a: seq<nat>, b: seq<nat>, c: seq<nat>, stop: Place, later: Place)
    requires |sc.comps| >= 1 && KeptFrom(sc, a, b, stop) && KeptFrom(sc, b, c, later) && !Before(later, stop)
    ensures KeptFrom(sc, a, c, later)
  {
    hide LumaPlace, Cell, GridSize;
    forall p | LumaPlace(sc, p) && !Before(p, later)
      ensures CellKept(sc, a, c, p)
    {
      if Before(p, stop) {
        BeforeLater(p, stop, later);
      }
      hide Before;
      assert CellKept(sc, a, b, p) && CellKept(sc, b, c, p);
    }
  }

  lemma KeptLater(sc: Scan, a: seq<nat>, b: seq<nat>, stop: Place, later: Place)
    requires |sc.comps| >= 1 && KeptFrom(sc, a, b, stop) && !Before(later, stop)
    ensures KeptFrom(sc, a, b, later)
  {
    hide KeptFrom;
    KeptNothing(sc, b, later);
    KeptThrough(sc, a, b, b, stop, later);
  }

  lemma {:induction false} WriteKeeps(sc: Scan, out: seq<nat>, p: Place, v: nat)
    requires LumaPlace(sc, p) && GridSize(sc) <= |out| && Cell(sc, p) < GridSize(sc)
    ensures KeptFrom(sc, out, out[Cell(sc, p) := v], p.(bh := p.bh + 1))
  {
    forall p' | LumaPlace(sc, p') && !Before(p', p.(bh := p.bh + 1))
      ensures CellKept(sc, out, out[Cell(sc, p) := v], p')
    {
      hide Cell, GridSize;
      CellsDistinct(sc, p, p');
    }
  }

  class Decoder {
    const reader: Reader
    const dcPred: array<int>
    ghost var tried: map<Place, Attempt>

    constructor (data: seq<nat>, pos: nat)
      requires pos <= |data| && Bytes(data)
      ensures Valid() && fresh(reader) && fresh(dcPred)
      ensures reader.data == data && reader.pos == pos && reader.bitBuf == 0 && reader.bitCnt == 0
      ensures dcPred[..] == ZERO_PREDS && tried == map[]
    {
      reader := new Reader(data, pos);
      dcPred := new int[MAX_COMPONENTS](_ => 0);
      tried := map[];
    }

    ghost predicate Valid()
      reads this, reader
    {
      reader.Valid() && dcPred.Length == MAX_COMPONENTS
    }

    /** Decode the block at `p` into the prediction of its component. Nothing is tried after a failure. */
    method DecodeAt(sc: Scan, p: Place, ghost good: bool, ghost img: Image, ghost left: nat, ghost pad: seq<bool>)
      returns (ok: bool, dc: int)
      requires Valid() && ValidScan(sc) && !McuDone(sc, p) && !RowsDone(sc, p) && !RowDone(sc, p)
      requires good ==> left > 0 && OnTrack(sc, img, left, p, dcPred[..], pad, reader.Stream())
      requires NoneFailed(tried)
      modifies reader, dcPred, this`tried
      ensures Valid() && reader.End() == old(reader.End())
      ensures p in tried && tried == old(tried)[p := tried[p]] && Honest(sc, p, tried[p])
      ensures tried[p].dc == if ok then Some(dc) else None
      ensures tried[p].stream == old(reader.Stream()) && tried[p].pred == old(dcPred[sc.comps[p.c].idx])
      ensures good ==> ok && dc == BlockAt(sc, img, p).dc
      ensures good ==> OnTrack(sc, img, left, p.(bh := p.bh + 1), dcPred[..], pad, reader.Stream())
    {
      hide OnTrack, DecodeBlock, Built, ShiftsDefined, Served, Reader.Stream, Reader.End, BlockAt, NoneFailed;
      ghost var preds, s := dcPred[..], reader.Stream();
      var comp := sc.comps[p.c];
      assert ValidComponent(comp);
      ok, dc := DecodeBlockDc(reader, comp.dcHt, comp.acHt, dcPred[comp.idx], comp.tables);
      tried := tried[p := Attempt(s, dcPred[comp.idx], if ok then Some(dc) else None)];
      if good {
        TrackBlock(sc, img, left, p, preds, pad, s);
      }
      if ok {
        dcPred[comp.idx] := dc;
        assert dcPred[..] == preds[comp.idx := dc];
      }
    }

    /** Store the value of a luma block in its cell. */
    method StoreLuma(sc: Scan, p: Place, dc: int, out: array<nat>, ghost good: bool, ghost img: Image, ghost before: map<Place, Attempt>)
      requires LumaPlace(sc, p) && GridSize(sc) <= out.Length
      requires good ==> dc == BlockAt(sc, img, p).dc && Filled(sc, img, out[..], p)
      requires WalkedTo(sc, before, out[..], p, true)
      requires p in tried && tried == before[p := tried[p]] && Honest(sc, p, tried[p]) && tried[p].dc == Some(dc)
      modifies out
      ensures WalkedTo(sc, tried, out[..], p.(bh := p.bh + 1), true)
      ensures good ==> Filled(sc, img, out[..], p.(bh := p.bh + 1))
      ensures KeptFrom(sc, old(out[..]), out[..], p.(bh := p.bh + 1))
    {
      hide Luma, Filled, BlockAt, KeptFrom, WalkedTo, Honest;
      ghost var cells := out[..];
      var gx := p.col * sc.comps[0].h + p.bh;
      var gy := p.r * sc.comps[0].v + p.bv;
      CoordinatesInGrid(sc, p);
      CellInGrid(sc, p);
      if gx < GridWidth(sc) && gy < GridHeight(sc) {
        assert gy * GridWidth(sc) + gx == Cell(sc, p);
        out[gy * GridWidth(sc) + gx] := Luma(dc, sc.q);
        assert out[..] == cells[Cell(sc, p) := Luma(dc, sc.q)];
        WriteKeeps(sc, cells, p, Luma(dc, sc.q));
        WalkWrites(sc, before, cells, p, tried[p], out[..]);
        if good {
          FillCell(sc, img, cells, p, out[..]);
        }
      }
    }

    /** One block row of one component inside an MCU. */
    method DecodeBlockRow(sc: Scan, p0: Place, out: array<nat>, ghost good: bool, ghost img: Image, ghost left: nat, ghost pad: seq<bool>)
      returns (ok: bool, ghost stop: Place)
      requires Valid() && ValidScan(sc) && !McuDone(sc, p0) && !RowsDone(sc, p0) && p0.bh == 0
      requires p0.r < sc.rows && p0.col < sc.cols && GridSize(sc) <= out.Length && dcPred as object != out
      requires good ==> Agrees(sc, img, left, p0, dcPred[..], pad, reader.Stream(), out[..])
      requires WalkedTo(sc, tried, out[..], p0, true)
      modifies reader, dcPred, out, this`tried
      ensures WalkedTo(sc, tried, out[..], if ok then p0.(bv := p0.bv + 1) else stop, ok)
      ensures ok || stop.r == p0.r
      ensures Valid() && reader.End() == old(reader.End())
      ensures good ==> ok && Agrees(sc, img, left, p0.(bv := p0.bv + 1), dcPred[..], pad, reader.Stream(), out[..])
      ensures !Before(stop, p0) && !Before(p0.(bv := p0.bv + 1), stop) && KeptFrom(sc, old(out[..]), out[..], stop)
    {
      hide OnTrack, Filled, Reader.Stream, Reader.End, BlockAt, ValidScan, KeptFrom, WalkedTo, Honest;
      var p := p0;
      KeptNothing(sc, out[..], p);
      while p.bh < sc.comps[p0.c].h
        invariant p == p0.(bh := p.bh) && Valid() && reader.End() == old(reader.End())
        invariant p.bh <= sc.comps[p0.c].h
        invariant good ==> Agrees(sc, img, left, p, dcPred[..], pad, reader.Stream(), out[..])
        invariant KeptFrom(sc, old(out[..]), out[..], p) && WalkedTo(sc, tried, out[..], p, true)
      {
        var dc;
        ghost var sofar := tried;
        WalkedNoneFailed(sc, tried, out[..], p);
        ok, dc := DecodeAt(sc, p, good, img, left, pad);
        stop := p;
        if !ok {
          WalkFails(sc, sofar, out[..], p, tried[p]);
          return;
        }
        ghost var before := out[..];
        KeptNothing(sc, before, p.(bh := p.bh + 1));
        if p.c == 0 {
          StoreLuma(sc, p, dc, out, good, img, sofar);
        } else {
          WalkPasses(sc, sofar, out[..], p, tried[p]);
          OtherBlock(sc, p);
          if good {
            FilledTo(sc, img, out[..], p, p.(bh := p.bh + 1));
          }
        }
        KeptThrough(sc, old(out[..]), before, out[..], p, p.(bh := p.bh + 1));
        p := p.(bh := p.bh + 1);
      }
      ok, stop := true, p;
      RowEnds(sc, p);
      WalkedOn(sc, tried, out[..], p, p0.(bv := p0.bv + 1));
      if good {
        TrackRow(sc, img, left, p, dcPred[..], pad, reader.Stream());
        FilledTo(sc, img, out[..], p, p0.(bv := p0.bv + 1));
      }
    }

    /** All blocks of one component inside an MCU. */
    method DecodeComponent(sc: Scan, p0: Place, out: array<nat>, ghost good: bool, ghost img: Image, ghost left: nat, ghost pad: seq<bool>)
      returns (ok: bool, ghost stop: Place)
      requires Valid() && ValidScan(sc) && !McuDone(sc, p0) && p0.bv == 0 && p0.bh == 0
      requires p0.r < sc.rows && p0.col < sc.cols && GridSize(sc) <= out.Length && dcPred as object != out
      requires good ==> Agrees(sc, img, left, p0, dcPred[..], pad, reader.Stream(), out[..])
      requires WalkedTo(sc, tried, out[..], p0, true)
      modifies reader, dcPred, out, this`tried
      ensures WalkedTo(sc, tried, out[..], if ok then p0.(c := p0.c + 1) else stop, ok)
      ensures ok || stop.r == p0.r
      ensures Valid() && reader.End() == old(reader.End())
      ensures good ==> ok && Agrees(sc, img, left, p0.(c := p0.c + 1), dcPred[..], pad, reader.Stream(), out[..])
      ensures !Before(stop, p0) && !Before(p0.(c := p0.c + 1), stop) && KeptFrom(sc, old(out[..]), out[..], stop)
    {
      hide OnTrack, Filled, Reader.Stream, Reader.End, ValidScan, KeptFrom, WalkedTo;
      var p := p0;
      KeptNothing(sc, out[..], p);
      while p.bv < sc.comps[p0.c].v
        invariant p == p0.(bv := p.bv) && Valid() && reader.End() == old(reader.End())
        invariant p.bv <= sc.comps[p0.c].v
        invariant good ==> Agrees(sc, img, left, p, dcPred[..], pad, reader.Stream(), out[..])
        invariant KeptFrom(sc, old(out[..]), out[..], p) && WalkedTo(sc, tried, out[..], p, true)
      {
        ghost var before := out[..];
        ok, stop := DecodeBlockRow(sc, p, out, good, img, left, pad);
        KeptThrough(sc, old(out[..]), before, out[..], p, stop);
        if !ok {
          return;
        }
        KeptLater(sc, old(out[..]), out[..], stop, p.(bv := p.bv + 1));
        p := p.(bv := p.bv + 1);
      }
      ok, stop := true, p;
      RowsEnd(sc, p);
      WalkedOn(sc, tried, out[..], p, p0.(c := p0.c + 1));
      if good {
        TrackRows(sc, img, left, p, dcPred[..], pad, reader.Stream());
        FilledTo(sc, img, out[..], p, p0.(c := p0.c + 1));
      }
    }

    /** One MCU: every component in scan order. */
    method DecodeMcu(sc: Scan, p0: Place, out: array<nat>, ghost good: bool, ghost img: Image, ghost left: nat, ghost pad: seq<bool>)
      returns (ok: bool, ghost stop: Place)
      requires left > 0 && Valid() && ValidScan(sc) && p0 == Place(p0.r, p0.col, 0, 0, 0)
      requires p0.r < sc.rows && p0.col < sc.cols && GridSize(sc) <= out.Length && dcPred as object != out
      requires good ==> Agrees(sc, img, left, p0, dcPred[..], pad, reader.Stream(), out[..])
      requires WalkedTo(sc, tried, out[..], p0, true)
      modifies reader, dcPred, out, this`tried
      ensures WalkedTo(sc, tried, out[..], if ok then NextMcu(sc, p0) else stop, ok)
      ensures ok || stop.r == p0.r
      ensures Valid() && reader.End() == old(reader.End())
      ensures good ==> ok && OnTrack(sc, img, left - 1, NextMcu(sc, p0), dcPred[..], pad, reader.Stream())
      ensures good ==> Filled(sc, img, out[..], NextMcu(sc, p0))
      ensures !Before(stop, p0) && !Before(NextMcu(sc, p0), stop) && KeptFrom(sc, old(out[..]), out[..], stop)
    {
      hide OnTrack, Filled, Reader.Stream, Reader.End, ValidComponent, KeptFrom, WalkedTo;
      var p := p0;
      KeptNothing(sc, out[..], p);
      while p.c < |sc.comps|
        invariant p == p0.(c := p.c) && Valid() && reader.End() == old(reader.End())
        invariant p.c <= |sc.comps|
        invariant good ==> Agrees(sc, img, left, p, dcPred[..], pad, reader.Stream(), out[..])
        invariant KeptFrom(sc, old(out[..]), out[..], p) && WalkedTo(sc, tried, out[..], p, true)
      {
        ghost var before := out[..];
        ok, stop := DecodeComponent(sc, p, out, good, img, left, pad);
        KeptThrough(sc, old(out[..]), before, out[..], p, stop);
        if !ok {
          return;
        }
        KeptLater(sc, old(out[..]), out[..], stop, p.(c := p.c + 1));
        p := p.(c := p.c + 1);
      }
      ok, stop := true, p;
      McuEnds(sc, p);
      WalkedOn(sc, tried, out[..], p, NextMcu(sc, p0));
      if good {
        TrackMcu(sc, img, left, p, dcPred[..], pad, reader.Stream());
        FilledTo(sc, img, out[..], p, NextMcu(sc, p0));
      }
    }

    /** The end of a restart interval: align to a byte, step over a restart marker if there is one
        right here, and clear the predictions. */
    method Restart()
      requires Valid()
      modifies reader, dcPred
      ensures Valid() && reader.bitBuf == 0 && reader.bitCnt == 0 && dcPred[..] == ZERO_PREDS
      ensures reader.pos == old(reader.pos) + if RestartMarkerAt(reader.data, old(reader.pos)) then 2 else 0
      ensures var at, data := old(reader.pos), reader.data;
              reader.pos == at + 2 <==> at + 1 < |data| && data[at] == 0xFF && 0xD0 <= data[at + 1] <= 0xD7
    {
      reader.Reset();
      if reader.pos + 1 < |reader.data| && reader.data[reader.pos] == 0xFF {
        var rstm := reader.data[reader.pos + 1];
        if 0xD0 <= rstm <= 0xD7 {
          reader.pos := reader.pos + 2;
        }
      }
      for i := 0 to MAX_COMPONENTS
        invariant Valid() && reader.bitBuf == 0 && reader.bitCnt == 0
        invariant reader.pos == old(reader.pos) + if RestartMarkerAt(reader.data, old(reader.pos)) then 2 else 0
        invariant forall j :: 0 <= j < i ==> dcPred[j] == 0
      {
        dcPred[i] := 0;
      }
      assert dcPred[..] == ZERO_PREDS;
    }

    /** At the head of the MCU at `p` of a coded picture: in step with the encoder, and the grid filled so far. */
    ghost predicate Synced(sc: Scan, img: Image, tail: seq<nat>, g: Interval, p: Place, mcuCount: nat, out: array<nat>)
      requires |sc.comps| >= 1
      reads this, reader, dcPred, out
    {
      && AtMcu(sc, img, reader.data, tail, g, p, mcuCount, dcPred[..], reader.Stream(), reader.End())
      && Filled(sc, img, out[..], p) && Stops(tail)
    }

    /** One MCU of the scan and, after the last of an interval, the restart. */
    method ScanMcu(sc: Scan, p: Place, mcuCount: nat, out: array<nat>,
                   ghost good: bool, ghost img: Image, ghost g: Interval, ghost tail: seq<nat>)
      returns (ok: bool, mcuCount': nat, ghost g': Interval, ghost stop: Place)
      requires Valid() && |sc.comps| >= 1 && ValidScan(sc) && p == Place(p.r, p.col, 0, 0, 0) && g.rem > 0
      requires p.r < sc.rows && p.col < sc.cols && GridSize(sc) <= out.Length && dcPred as object != out
      requires good ==> Synced(sc, img, tail, g, p, mcuCount, out)
      requires WalkedTo(sc, tried, out[..], p, true)
      modifies reader, dcPred, out, this`tried
      ensures WalkedTo(sc, tried, out[..], if ok then NextMcu(sc, p) else stop, ok)
      ensures ok || stop.r == p.r
      ensures Valid() && g'.rem == g.rem - 1
      ensures good ==> ok && Synced(sc, img, tail, g', NextMcu(sc, p), mcuCount', out)
      ensures !Before(stop, p) && !Before(NextMcu(sc, p), stop) && KeptFrom(sc, old(out[..]), out[..], stop)
    {
      hide OnTrack, Filled, Reader.Stream, Reader.End, ValidScan, AtMcu, McuBits, GridSize, KeptFrom, WalkedTo, Before, NextMcu, RestartMarkerAt;
      ghost var left := if good then g.left else 1;
      if good {
        AtMcuTrack(sc, img, reader.data, tail, g, p, mcuCount, dcPred[..], reader.Stream(), reader.End());
      }
      ghost var preds0, s0, end := dcPred[..], reader.Stream(), reader.End();
      ok, stop := DecodeMcu(sc, p, out, good, img, left, g.pad);
      mcuCount' := mcuCount + 1;
      g' := g.(rem := g.rem - 1, left := if g.left > 0 then g.left - 1 else 0);
      if !ok {
        return;
      }
      ghost var preds, s := dcPred[..], reader.Stream();
      if sc.restart > 0 && mcuCount' >= sc.restart {
        mcuCount' := 0;
        if good && g'.rem > 0 {
          StreamHere();
          IntervalDrained(sc, img, reader.data, tail, g, p, mcuCount, preds0, s0, end, preds, s, reader.pos, reader.bitBuf, reader.bitCnt);
        }
        ghost var pos := reader.pos;
        Restart();
        if good {
          if g'.rem > 0 {
            g' := StartInterval(sc, img, reader.data, pos + 2, g'.rem, NextMcu(sc, p), g.k + 1, tail);
            StreamHere();
          } else {
            NothingLeft(sc, img, reader.data, tail, g', NextMcu(sc, p), mcuCount', dcPred[..], reader.Stream(), reader.End());
          }
        }
      } else if good {
        WithinInterval(sc, img, reader.data, tail, g, p, mcuCount, preds0, s0, end, preds, s);
      }
    }

    /** One row of MCUs. */
    method ScanRow(sc: Scan, r: nat, mcuCount0: nat, out: array<nat>,
                   ghost good: bool, ghost img: Image, ghost g0: Interval, ghost tail: seq<nat>)
      returns (ok: bool, mcuCount: nat, ghost g: Interval, ghost stop: Place)
      requires Valid() && |sc.comps| >= 1 && ValidScan(sc) && r < sc.rows && g0.rem >= sc.cols > 0
      requires GridSize(sc) <= out.Length && dcPred as object != out
      requires good ==> Synced(sc, img, tail, g0, Place(r, 0, 0, 0, 0), mcuCount0, out)
      requires WalkedTo(sc, tried, out[..], Place(r, 0, 0, 0, 0), true)
      modifies reader, dcPred, out, this`tried
      ensures WalkedTo(sc, tried, out[..], if ok then Place(r + 1, 0, 0, 0, 0) else stop, ok)
      ensures ok || stop.r == r
      ensures Valid() && !Before(stop, Place(r, 0, 0, 0, 0)) && !Before(Place(r + 1, 0, 0, 0, 0), stop)
      ensures KeptFrom(sc, old(out[..]), out[..], stop)
      ensures good ==> ok
      ensures ok ==> g.rem == g0.rem - sc.cols
      ensures good ==> Synced(sc, img, tail, g, Place(r + 1, 0, 0, 0, 0), mcuCount, out)
    {
      hide ValidScan, Synced, KeptFrom, WalkedTo;
      mcuCount, g := mcuCount0, g0;
      var p := Place(r, 0, 0, 0, 0);
      KeptNothing(sc, out[..], p);
      var col := 0;
      while col < sc.cols
        invariant col <= sc.cols && Valid() && KeptFrom(sc, old(out[..]), out[..], p)
        invariant WalkedTo(sc, tried, out[..], p, true)
        invariant p == if col < sc.cols then Place(r, col, 0, 0, 0) else Place(r + 1, 0, 0, 0, 0)
        invariant g.rem == g0.rem - col
        invariant good ==> Synced(sc, img, tail, g, p, mcuCount, out)
      {
        ghost var before := out[..];
        ok, mcuCount, g, stop := ScanMcu(sc, p, mcuCount, out, good, img, g, tail);
        KeptThrough(sc, old(out[..]), before, out[..], p, stop);
        if !ok {
          return;
        }
        KeptLater(sc, old(out[..]), out[..], stop, NextMcu(sc, p));
        p := NextMcu(sc, p);
        col := col + 1;
      }
      ok, stop := true, p;
    }

    /** The walk over the whole scan, to its end or to the first block that cannot be decoded. Whatever the
        data, the cells before that block hold the shades of what was decoded there, the others keep their
        values, and nothing outside the grid is written; when the data is a coded picture, every cell
        receives the value of its own luma block. */
    method DecodeScan(sc: Scan, out: array<nat>, ghost img: Image, ghost tail: seq<nat>) returns (ghost stop: Place)
      requires Valid() && |sc.comps| >= 1 && ValidScan(sc) && reader.bitBuf == 0 && reader.bitCnt == 0 && dcPred[..] == ZERO_PREDS
      requires GridSize(sc) <= out.Length && dcPred as object != out
      requires tried == map[]
      modifies reader, dcPred, out, this`tried
      ensures WalkedTo(sc, tried, out[..], stop, stop == Place(sc.rows, 0, 0, 0, 0))
      ensures old(CodedAt(sc, img, reader.data, reader.pos, tail)) ==> GridOf(sc, img, out[..])
      ensures !Before(Place(sc.rows, 0, 0, 0, 0), stop) && KeptFrom(sc, old(out[..]), out[..], stop)
    {
      hide ValidScan, Synced, CodedAt, GridOf, GridSize, KeptFrom, WalkedTo;
      ghost var good := CodedAt(sc, img, reader.data, reader.pos, tail);
      ghost var g := Interval(McusOfRows(sc, sc.rows), 0, 0, []);
      if good {
        g := SyncedAtStart(sc, img, tail, out);
      }
      stop := Place(sc.rows, 0, 0, 0, 0);
      KeptNothing(sc, out[..], START);
      WalkStarts(sc, out[..]);
      if sc.cols == 0 {
        // the loops below have nothing to do
        NoCells(sc, img, out[..]);
        NothingToWalk(sc, out[..]);
        KeptLater(sc, out[..], out[..], START, stop);
        return;
      }
      var mcuCount := 0;
      var r := 0;
      while r < sc.rows
        invariant r <= sc.rows && Valid() && KeptFrom(sc, old(out[..]), out[..], Place(r, 0, 0, 0, 0))
        invariant WalkedTo(sc, tried, out[..], Place(r, 0, 0, 0, 0), true)
        invariant g.rem == McusOfRows(sc, sc.rows - r)
        invariant good ==> Synced(sc, img, tail, g, Place(r, 0, 0, 0, 0), mcuCount, out)
      {
        var ok;
        ghost var before := out[..];
        ok, mcuCount, g, stop := ScanRow(sc, r, mcuCount, out, good, img, g, tail);
        KeptThrough(sc, old(out[..]), before, out[..], Place(r, 0, 0, 0, 0), stop);
        if !ok {
          return;
        }
        KeptLater(sc, old(out[..]), out[..], stop, Place(r + 1, 0, 0, 0, 0));
        r := r + 1;
      }
      stop := Place(sc.rows, 0, 0, 0, 0);
      if good {
        SyncedAtEnd(sc, img, tail, g, mcuCount, out);
      }
    }

    lemma {:induction false} SyncedAtStart(sc: Scan, img: Image, tail: seq<nat>, out: array<nat>) returns (g: Interval)
      requires Valid() && |sc.comps| >= 1 && reader.bitBuf == 0 && reader.bitCnt == 0 && dcPred[..] == ZERO_PREDS
      requires CodedAt(sc, img, reader.data, reader.pos, tail)
      ensures g.rem == McusOfRows(sc, sc.rows) && Synced(sc, img, tail, g, START, 0, out)
    {
      hide CodedAt, AtMcu, Filled, Reader.Stream, Reader.End;
      g := ScanStart(sc, img, reader.data, reader.pos, tail);
      StreamHere();
      NothingFilled(sc, img, out[..]);
    }

    lemma {:induction false} SyncedAtEnd(sc: Scan, img: Image, tail: seq<nat>, g: Interval, mcuCount: nat, out: array<nat>)
      requires |sc.comps| >= 1 && Synced(sc, img, tail, g, Place(sc.rows, 0, 0, 0, 0), mcuCount, out)
      ensures GridOf(sc, img, out[..])
    {
      hide AtMcu, Filled;
      FilledGrid(sc, img, out[..]);
    }

    lemma {:induction false} StreamHere()
      ensures reader.Stream() == StreamOf(reader.bitBuf, reader.bitCnt, Unstuffed(reader.data, reader.pos))
      ensures reader.End() == RunEnd(reader.data, reader.pos)
    {
    }
  }

  lemma {:induction false} ScanStart(sc: Scan, img: Image, data: seq<nat>, pos: nat, tail: seq<nat>) returns (g: Interval)
    requires CodedAt(sc, img, data, pos, tail)
    ensures Stops(tail) && g.rem == McusOfRows(sc, sc.rows)
    ensures AtMcu(sc, img, data, tail, g, START, 0, ZERO_PREDS, StreamOf(0, 0, Unstuffed(data, pos)), RunEnd(data, pos))
  {
    hide ScanFits, ScanBytes, AtMcu, Unstuffed, RunEnd, StreamOf;
    if McusOfRows(sc, sc.rows) > 0 {
      g := StartInterval(sc, img, data, pos, McusOfRows(sc, sc.rows), START, 0, tail);
    } else {
      g := Interval(0, 0, 0, []);
      NothingLeft(sc, img, data, tail, g, START, 0, ZERO_PREDS, StreamOf(0, 0, Unstuffed(data, pos)), RunEnd(data, pos));
    }
  }

  lemma {:induction false} NothingFilled(sc: Scan, img: Image, out: seq<nat>)
    requires |sc.comps| >= 1
    ensures Filled(sc, img, out, START)
  {
  }

  lemma {:induction false} NoCells(sc: Scan, img: Image, out: seq<nat>)
    requires |sc.comps| >= 1 && sc.cols == 0
    ensures GridOf(sc, img, out)
  {
    assert GridWidth(sc) == 0;
  }

  // ---- Restart intervals ----

  predicate RestartMarkerAt(data: seq<nat>, pos: nat) {
    pos + 1 < |data| && data[pos] == 0xFF && 0xD0 <= data[pos + 1] <= 0xD7
  }

  /** The bookkeeping at the head of an MCU: MCUs left in the scan and in this interval, the number
      of the restart marker that ends it, and its padding. */
  datatype Interval = Interval(rem: nat, left: nat, k: nat, pad: seq<bool>)

  /** What holds at the head of an MCU of a coded picture: the reader is on track in an interval of
      `left` more MCUs, the run it reads ends where the interval does, what follows there is the rest
      of the scan, and the MCU counter will reach the restart interval exactly then. */
  ghost predicate AtMcu(sc: Scan, img: Image, data: seq<nat>, tail: seq<nat>, g: Interval, p: Place, mcuCount: nat,
                        preds: seq<int>, stream: seq<bool>, end: nat)
  {
    g.rem > 0 ==>
      && 1 <= g.left <= g.rem && |g.pad| < 8
      && OnTrack(sc, img, g.left, p, preds, g.pad, stream)
      && ScanFits(sc, img, g.rem - g.left, Advance(sc, p, g.left))
      && end <= |data| && data[end..] == AfterInterval(sc, img, g.rem - g.left, Advance(sc, p, g.left), g.k) + tail
      && (if sc.restart == 0 then g.left == g.rem
          else mcuCount + g.left <= sc.restart && (g.left < g.rem ==> mcuCount + g.left == sc.restart))
  }

  lemma {:induction false} AtMcuTrack(sc: Scan, img: Image, data: seq<nat>, tail: seq<nat>, g: Interval, p: Place, mcuCount: nat,
                                      preds: seq<int>, stream: seq<bool>, end: nat)
    requires g.rem > 0 && AtMcu(sc, img, data, tail, g, p, mcuCount, preds, stream, end)
    ensures g.left > 0 && OnTrack(sc, img, g.left, p, preds, g.pad, stream)
  {
    hide OnTrack, AfterInterval;
  }

  lemma {:induction false} NothingLeft(sc: Scan, img: Image, data: seq<nat>, tail: seq<nat>, g: Interval, p: Place, mcuCount: nat,
                                       preds: seq<int>, stream: seq<bool>, end: nat)
    requires g.rem == 0
    ensures AtMcu(sc, img, data, tail, g, p, mcuCount, preds, stream, end)
  {
  }

  /** Inside an interval the next MCU head has one MCU less to go. */
  lemma {:induction false} WithinInterval(sc: Scan, img: Image, data: seq<nat>, tail: seq<nat>, g: Interval, p: Place, mcuCount: nat,
                                          preds0: seq<int>, s0: seq<bool>, end: nat, preds: seq<int>, s: seq<bool>)
    requires g.rem > 0 && AtMcu(sc, img, data, tail, g, p, mcuCount, preds0, s0, end) && g.left > 0
    requires OnTrack(sc, img, g.left - 1, NextMcu(sc, p), preds, g.pad, s)
    requires !(sc.restart > 0 && mcuCount + 1 >= sc.restart)
    ensures AtMcu(sc, img, data, tail, g.(rem := g.rem - 1, left := g.left - 1), NextMcu(sc, p), mcuCount + 1, preds, s, end)
  {
    hide OnTrack, AfterInterval, ScanFits, NextMcu;
    assert Advance(sc, p, g.left) == Advance(sc, NextMcu(sc, p), g.left - 1);
  }

  /** When the counter says the interval is over and MCUs remain, prefetch stands exactly at the
      restart marker, and the next interval follows it. */
  lemma {:induction false} IntervalDrained(sc: Scan, img: Image, data: seq<nat>, tail: seq<nat>, g: Interval, p: Place, mcuCount: nat,
                                           preds0: seq<int>, s0: seq<bool>, end: nat, preds: seq<int>, s: seq<bool>,
                                           pos: nat, buf: nat, cnt: nat)
    requires g.rem > 1 && AtMcu(sc, img, data, tail, g, p, mcuCount, preds0, s0, end) && g.left > 0
    requires OnTrack(sc, img, g.left - 1, NextMcu(sc, p), preds, g.pad, s)
    requires sc.restart > 0 && mcuCount + 1 >= sc.restart
    requires pos <= |data| && s == StreamOf(buf, cnt, Unstuffed(data, pos)) && end == RunEnd(data, pos)
    ensures RestartMarkerAt(data, pos)
    ensures Indexed(sc) && ScanFits(sc, img, g.rem - 1, NextMcu(sc, p))
    ensures data[pos + 2..] == ScanBytes(sc, img, g.rem - 1, NextMcu(sc, p), g.k + 1) + tail
  {
    hide *;
    IntervalOver(sc, img, data, tail, g, p, mcuCount, preds0, s0, end);
    PaddingLeft(sc, img, NextMcu(sc, p), preds, g.pad, s);
    MarkerThen(data, end, g.k, ScanBytes(sc, img, g.rem - 1, NextMcu(sc, p), g.k + 1) + tail);
    DrainedRun(data, pos, buf, cnt);
  }

  /** In the last MCU of an interval that is not the last, a marker and the next interval follow. */
  lemma {:induction false} IntervalOver(sc: Scan, img: Image, data: seq<nat>, tail: seq<nat>, g: Interval, p: Place, mcuCount: nat,
                                        preds: seq<int>, s: seq<bool>, end: nat)
    requires g.rem > 1 && AtMcu(sc, img, data, tail, g, p, mcuCount, preds, s, end)
    requires sc.restart > 0 && mcuCount + 1 >= sc.restart
    ensures g.left == 1 && |g.pad| < 8 && end <= |data|
    ensures Indexed(sc) && ScanFits(sc, img, g.rem - 1, NextMcu(sc, p))
    ensures data[end..] == RestartMarker(g.k) + (ScanBytes(sc, img, g.rem - 1, NextMcu(sc, p), g.k + 1) + tail)
  {
    hide ScanFits, ScanBytes, NextMcu, RestartMarker, Fits, McuBits;
    assert Advance(sc, p, g.left) == NextMcu(sc, p) by {
      AdvanceOne(sc, p);
    }
    Reassociate(RestartMarker(g.k), ScanBytes(sc, img, g.rem - 1, NextMcu(sc, p), g.k + 1), tail);
  }

  lemma AdvanceOne(sc: Scan, p: Place)
    ensures Advance(sc, p, 1) == NextMcu(sc, p)
  {
    assert Advance(sc, NextMcu(sc, p), 0) == NextMcu(sc, p);
  }

  /** After the last MCU of an interval only its padding is left. */
  lemma PaddingLeft(sc: Scan, img: Image, p: Place, preds: seq<int>, pad: seq<bool>, s: seq<bool>)
    requires OnTrack(sc, img, 0, p, preds, pad, s)
    ensures s == pad
  {
    assert [] + pad == pad;
  }

  lemma {:induction false} MarkerThen(data: seq<nat>, pos: nat, k: nat, rest: seq<nat>)
    requires pos <= |data| && data[pos..] == RestartMarker(k) + rest
    ensures RestartMarkerAt(data, pos) && pos < |data| && data[pos + 2..] == rest
  {
    assert data[pos] == data[pos..][0] && data[pos + 1] == data[pos..][1];
    DropMore(data, pos, 2);
    assert data[pos..][2..] == rest;
  }

  /** A fresh reader at the start of an interval is at the head of its first MCU. */
  lemma {:induction false} StartInterval(sc: Scan, img: Image, data: seq<nat>, pos: nat, rem: nat, p: Place, k: nat, tail: seq<nat>)
    returns (g: Interval)
    requires rem > 0 && Indexed(sc) && ScanFits(sc, img, rem, p) && pos <= |data|
    requires data[pos..] == ScanBytes(sc, img, rem, p, k) + tail && Stops(tail)
    ensures g.rem == rem
    ensures AtMcu(sc, img, data, tail, g, p, 0, ZERO_PREDS, StreamOf(0, 0, Unstuffed(data, pos)), RunEnd(data, pos))
  {
    hide Unstuffed, RunEnd, StreamOf, McuBits, SegmentBytes, Fits, Advance, Padding, AfterInterval, ScanBytes, Stops, ScanFits;
    var n := IntervalLength(sc, rem);
    ScanUnfolds(sc, img, rem, p, k);
    var bits := McuBits(sc, img, n, p, ZERO_PREDS);
    var after := AfterInterval(sc, img, rem - n, Advance(sc, p, n), k);
    g := Interval(rem, n, k, Padding(bits));
    Reassociate(SegmentBytes(bits), after, tail);
    AfterStops(sc, img, rem - n, Advance(sc, p, n), k, tail);
    SegmentRead(data, pos, bits, after + tail);
    AfterSegment(data, pos, SegmentBytes(bits), after + tail);
  }

  lemma AfterSegment(data: seq<nat>, pos: nat, a: seq<nat>, b: seq<nat>)
    requires pos <= |data| && data[pos..] == a + b
    ensures pos + |a| <= |data| && data[pos + |a|..] == b
  {
    DropMore(data, pos, |a|);
  }

  /** The bytes of a scan: the segment of its first interval, then the rest. */
  lemma ScanUnfolds(sc: Scan, img: Image, rem: nat, p: Place, k: nat)
    requires rem > 0 && Indexed(sc) && ScanFits(sc, img, rem, p)
    ensures var n := IntervalLength(sc, rem);
            && Fits(sc, img, n, p, ZERO_PREDS)
            && ScanFits(sc, img, rem - n, Advance(sc, p, n))
            && ScanBytes(sc, img, rem, p, k) ==
               SegmentBytes(McuBits(sc, img, n, p, ZERO_PREDS)) + AfterInterval(sc, img, rem - n, Advance(sc, p, n), k)
  {
    hide Fits, McuBits, Advance, SegmentBytes;
  }

  lemma AfterStops(sc: Scan, img: Image, rem: nat, p: Place, k: nat, tail: seq<nat>)
    requires Indexed(sc) && ScanFits(sc, img, rem, p) && Stops(tail)
    ensures Stops(AfterInterval(sc, img, rem, p, k) + tail)
  {
    hide ScanBytes, ScanFits;
    if rem == 0 {
      assert AfterInterval(sc, img, rem, p, k) + tail == tail;
    }
  }
}
