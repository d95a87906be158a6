/** The grid of luma DC values: which cell a block of the scan writes, and what it writes. */
module LumaGrid {
  import opened Connectivity
  import opened BlockCode
  import opened ScanCode

  /** C division truncates toward zero. */
  function TruncDiv(a: int, b: nat): int
    requires b > 0
  {
    if a >= 0 then a / b else -((-a) / b)
  }

  /** What byte a DC value stands for. With a quantiser of 0 counting as 1, a dequantised value of 0 is
      the middle grey 128, eight units are one shade, fractions are dropped toward the middle, and
      what lies beyond the byte is cut to its ends. */
  ghost predicate Shade(v: nat, dc: int, q: nat) {
    var t := dc * if q == 0 then 1 else q;
    var k := v - 128;
    && (t <= -1032 ==> v == 0)
    && (t >= 1024 ==> v == 255)
    && (-1032 < t < 1024 ==> 8 * Magnitude(k) <= Magnitude(t) < 8 * Magnitude(k) + 8)
    && (0 < t ==> 0 <= k) && (t < 0 ==> k <= 0)
  }

  /** Only one byte is right. */
  lemma {:induction false} ShadeUnique(v: nat, v': nat, dc: int, q: nat)
    requires Shade(v, dc, q) && Shade(v', dc, q)
    ensures v == v' <= 255
  {
    var t := dc * if q == 0 then 1 else q;
    if t == 0 {
      assert Magnitude(v - 128) == 0 && Magnitude(v' - 128) == 0;
    }
  }

  /** A dequantised DC value as a byte. */
  function Luma(dc: int, q: nat): (v: nat)
    ensures v <= 255 && Shade(v, dc, q)
  {
    var t := TruncDiv(dc * (if q == 0 then 1 else q), 8) + 128;
    if t < 0 then 0 else if t > 255 then 255 else t
  }

  function GridWidth(sc: Scan): nat
    requires |sc.comps| >= 1
  {
    sc.cols * sc.comps[0].h
  }

  function GridHeight(sc: Scan): nat
    requires |sc.comps| >= 1
  {
    sc.rows * sc.comps[0].v
  }

  function GridSize(sc: Scan): nat
    requires |sc.comps| >= 1
  {
    GridHeight(sc) * GridWidth(sc)
  }

  /** The luma places inside the picture. */
  ghost predicate LumaPlace(sc: Scan, p: Place) {
    |sc.comps| >= 1 && p.c == 0 && p.r < sc.rows && p.col < sc.cols && p.bv < sc.comps[0].v && p.bh < sc.comps[0].h
  }

  function BlockRow(sc: Scan, p: Place): nat
    requires |sc.comps| >= 1
  {
    p.r * sc.comps[0].v + p.bv
  }

  function BlockColumn(sc: Scan, p: Place): nat
    requires |sc.comps| >= 1
  {
    p.col * sc.comps[0].h + p.bh
  }

  /** The cell of the grid that belongs to a luma place. */
  function Cell(sc: Scan, p: Place): nat
    requires |sc.comps| >= 1
  {
    BlockRow(sc, p) * GridWidth(sc) + BlockColumn(sc, p)
  }

  lemma {:induction false} ProductStep(a: nat, b: nat, n: nat)
    requires a < b
    ensures a * n + n <= b * n
  {
    ProductGrows(n, a, b);
  }

  /** Luma places have coordinates inside the grid. */
  lemma {:induction false} CoordinatesInGrid(sc: Scan, p: Place)
    requires LumaPlace(sc, p)
    ensures BlockRow(sc, p) < GridHeight(sc) && BlockColumn(sc, p) < GridWidth(sc)
  {
    ProductStep(p.r, sc.rows, sc.comps[0].v);
    ProductStep(p.col, sc.cols, sc.comps[0].h);
  }

  lemma {:induction false} CellInGrid(sc: Scan, p: Place)
    requires LumaPlace(sc, p)
    ensures Cell(sc, p) < GridSize(sc)
  {
    CoordinatesInGrid(sc, p);
    ProductStep(BlockRow(sc, p), GridHeight(sc), GridWidth(sc));
  }

  /** No two luma places share a cell: every cell is written at most once. */
  lemma {:induction false} CellsDistinct(sc: Scan, p: Place, p': Place)
    requires LumaPlace(sc, p) && LumaPlace(sc, p') && p != p'
    ensures Cell(sc, p) != Cell(sc, p')
  {
    var w := GridWidth(sc);
    CoordinatesInGrid(sc, p);
    CoordinatesInGrid(sc, p');
    Coordinates(w, BlockColumn(sc, p), BlockRow(sc, p));
    Coordinates(w, BlockColumn(sc, p'), BlockRow(sc, p'));
    if Cell(sc, p) == Cell(sc, p') {
      Coordinates(sc.comps[0].h, p.bh, p.col);
      Coordinates(sc.comps[0].h, p'.bh, p'.col);
      Coordinates(sc.comps[0].v, p.bv, p.r);
      Coordinates(sc.comps[0].v, p'.bv, p'.r);
    }
  }

  /** Every cell belongs to a luma place, the one holding the block at its coordinates. */
  lemma {:induction false} CellHasPlace(sc: Scan, gy: nat, gx: nat) returns (p: Place)
    requires |sc.comps| >= 1 && gy < GridHeight(sc) && gx < GridWidth(sc)
    ensures LumaPlace(sc, p) && BlockRow(sc, p) == gy && BlockColumn(sc, p) == gx
  {
    var h, v := sc.comps[0].h, sc.comps[0].v;
    NonZeroFactor(sc.rows, v, gy);
    NonZeroFactor(sc.cols, h, gx);
    p := Place(gy / v, gx / h, 0, gy % v, gx % h);
    QuotientBelow(gy, v, sc.rows);
    QuotientBelow(gx, h, sc.cols);
  }

  lemma {:induction false} NonZeroFactor(a: nat, b: nat, g: nat)
    requires g < a * b
    ensures b > 0
  {
  }

  lemma {:induction false} QuotientBelow(g: nat, d: nat, n: nat)
    requires d > 0 && g < n * d
    ensures g / d < n && g == (g / d) * d + g % d
  {
    var q := g / d;
    assert g == q * d + g % d;
    if n <= q {
      if n < q {
        ProductStep(n, q, d);
      }
    }
  }

  /** Scan order. */
  ghost predicate Before(p: Place, q: Place) {
    || p.r < q.r
    || (p.r == q.r && (p.col < q.col || (p.col == q.col && (p.c < q.c || (p.c == q.c && (p.bv < q.bv || (p.bv == q.bv && p.bh < q.bh)))))))
  }

  ghost predicate CellDone(sc: Scan, img: Image, out: seq<nat>, p: Place)
    requires |sc.comps| >= 1
  {
    Cell(sc, p) < |out| && Shade(out[Cell(sc, p)], img(0, BlockRow(sc, p), BlockColumn(sc, p)).dc, sc.q)
  }

  /** The luma cells before `upto` in scan order hold the values of their own blocks. */
  ghost predicate Filled(sc: Scan, img: Image, out: seq<nat>, upto: Place)
    requires |sc.comps| >= 1
  {
    forall p :: LumaPlace(sc, p) && Before(p, upto) ==> CellDone(sc, img, out, p)
  }

  /** Writing the cell of `p` advances the filled part past `p`. */
  lemma {:induction false} FillCell(sc: Scan, img: Image, out: seq<nat>, p: Place, out': seq<nat>)
    requires LumaPlace(sc, p) && Filled(sc, img, out, p) && Cell(sc, p) < |out|
    requires out' == out[Cell(sc, p) := Luma(BlockAt(sc, img, p).dc, sc.q)]
    ensures Filled(sc, img, out', p.(bh := p.bh + 1))
  {
    forall p' | LumaPlace(sc, p') && Before(p', p.(bh := p.bh + 1))
      ensures CellDone(sc, img, out', p')
    {
      hide Cell, BlockRow, BlockColumn, Luma, Shade;
      if p' != p {
        CellsDistinct(sc, p, p');
        assert CellDone(sc, img, out, p');
      } else {
        OwnBlock(sc, img, p);
      }
    }
  }

  lemma {:induction false} OwnBlock(sc: Scan, img: Image, p: Place)
    requires LumaPlace(sc, p)
    ensures BlockAt(sc, img, p) == img(0, BlockRow(sc, p), BlockColumn(sc, p))
  {
  }

  /** Cell (gx, gy) of the grid holds the value of the luma block in row `gy`, column `gx`. */
  ghost predicate CellValue(sc: Scan, img: Image, out: seq<nat>, gy: nat, gx: nat)
    requires |sc.comps| >= 1
  {
    var i := gy * GridWidth(sc) + gx;
    i < |out| && Shade(out[i], img(0, gy, gx).dc, sc.q)
  }

  ghost predicate GridOf(sc: Scan, img: Image, out: seq<nat>)
    requires |sc.comps| >= 1
  {
    forall gy: nat, gx: nat :: gy < GridHeight(sc) && gx < GridWidth(sc) ==> CellValue(sc, img, out, gy, gx)
  }

  lemma {:induction false} FilledGrid(sc: Scan, img: Image, out: seq<nat>)
    requires |sc.comps| >= 1 && Filled(sc, img, out, Place(sc.rows, 0, 0, 0, 0))
    ensures GridOf(sc, img, out)
  {
    hide Shade;
    forall gy: nat, gx: nat | gy < GridHeight(sc) && gx < GridWidth(sc)
      ensures CellValue(sc, img, out, gy, gx)
    {
      var p := CellHasPlace(sc, gy, gx);
      assert CellDone(sc, img, out, p);
    }
  }
}
