/** 4-connectivity of pixels in a raster of width `w`, stated by paths.

    A raster is a sequence in row-major order; pixel `p` lies in column `p % w` of row `p / w`.
    A pixel belongs to the region when its entry is not zero. */
module Connectivity {

  function Abs(a: int): nat { if a < 0 then -a else a }

  function Column(w: nat, p: nat): nat
    requires w > 0
  {
    p % w
  }

  function Row(w: nat, p: nat): nat
    requires w > 0
  {
    p / w
  }

  /** City-block distance of two pixels. */
  function Distance(w: nat, p: nat, q: nat): nat
    requires w > 0
  {
    Abs(Column(w, p) - Column(w, q)) + Abs(Row(w, p) - Row(w, q))
  }

  /** The four neighbours of a pixel are those at distance one. */
  ghost predicate Adjacent(w: nat, p: nat, q: nat)
    requires w > 0
  {
    Distance(w, p, q) == 1
  }

  ghost predicate InRegion(l: seq<nat>, p: nat) {
    p < |l| && l[p] != 0
  }

  /** A walk inside the region from neighbour to neighbour. */
  ghost predicate IsPath(w: nat, l: seq<nat>, path: seq<nat>)
    requires w > 0
  {
    && |path| > 0
    && (forall i :: 0 <= i < |path| ==> InRegion(l, path[i]))
    && (forall i :: 0 <= i < |path| - 1 ==> Adjacent(w, path[i], path[i + 1]))
  }

  ghost predicate PathBetween(w: nat, l: seq<nat>, path: seq<nat>, a: nat, b: nat)
    requires w > 0
  {
    IsPath(w, l, path) && path[0] == a && path[|path| - 1] == b
  }

  /** Two pixels are connected when some path inside the region joins them. */
  ghost predicate Connected(w: nat, l: seq<nat>, a: nat, b: nat)
    requires w > 0
  {
    exists path :: PathBetween(w, l, path, a, b)
  }

  lemma {:induction false} ConnectedReflexive(w: nat, l: seq<nat>, a: nat)
    requires w > 0 && InRegion(l, a)
    ensures Connected(w, l, a, a)
  {
    assert PathBetween(w, l, [a], a, a);
  }

  lemma {:induction false} AdjacentConnected(w: nat, l: seq<nat>, a: nat, b: nat)
    requires w > 0 && InRegion(l, a) && InRegion(l, b) && Adjacent(w, a, b)
    ensures Connected(w, l, a, b) && Connected(w, l, b, a)
  {
    assert PathBetween(w, l, [a, b], a, b);
    assert PathBetween(w, l, [b, a], b, a);
  }

  lemma {:induction false} ConnectedTransitive(w: nat, l: seq<nat>, a: nat, b: nat, c: nat)
    requires w > 0 && Connected(w, l, a, b) && Connected(w, l, b, c)
    ensures Connected(w, l, a, c)
  {
    var p :| PathBetween(w, l, p, a, b);
    var q :| PathBetween(w, l, q, b, c);
    var r := p + q[1..];
    forall i | 0 <= i < |r| - 1
      ensures Adjacent(w, r[i], r[i + 1])
    {
      if i >= |p| - 1 {
        assert r[i] == q[i - |p| + 1] && r[i + 1] == q[i - |p| + 2];
      }
    }
    assert PathBetween(w, l, r, a, c);
  }

  lemma {:induction false} ConnectedSymmetric(w: nat, l: seq<nat>, a: nat, b: nat)
    requires w > 0 && Connected(w, l, a, b)
    ensures Connected(w, l, b, a)
  {
    var p :| PathBetween(w, l, p, a, b);
    var r := seq(|p|, i requires 0 <= i < |p| => p[|p| - 1 - i]);
    forall i | 0 <= i < |r| - 1
      ensures Adjacent(w, r[i], r[i + 1])
    {
      assert Adjacent(w, p[|p| - 2 - i], p[|p| - 2 - i + 1]);
    }
    assert PathBetween(w, l, r, b, a);
  }

  /** A larger region keeps every connection. */
  lemma {:induction false} ConnectedMonotone(w: nat, l: seq<nat>, m: seq<nat>, a: nat, b: nat)
    requires w > 0 && Connected(w, l, a, b)
    requires forall p :: InRegion(l, p) ==> InRegion(m, p)
    ensures Connected(w, m, a, b)
  {
    var p :| PathBetween(w, l, p, a, b);
    assert PathBetween(w, m, p, a, b);
  }

  /** A colouring that agrees across neighbours is constant along connections. */
  lemma {:induction false} ColourAlongPath(w: nat, l: seq<nat>, colour: nat -> nat, path: seq<nat>)
    requires w > 0 && IsPath(w, l, path)
    requires forall a: nat, b: nat :: InRegion(l, a) && InRegion(l, b) && Adjacent(w, a, b) ==> colour(a) == colour(b)
    ensures colour(path[0]) == colour(path[|path| - 1])
    decreases |path|
  {
    if |path| > 1 {
      var init := path[..|path| - 1];
      ColourAlongPath(w, l, colour, init);
      assert Adjacent(w, path[|path| - 2], path[|path| - 2 + 1]);
    }
  }

  // ---- Row-major arithmetic ----

  lemma {:induction false} ProductGrows(w: nat, y: nat, y': nat)
    requires y < y'
    ensures y * w + w <= y' * w
    decreases y' - y
  {
    if y + 1 < y' {
      ProductGrows(w, y, y' - 1);
    }
    assert y' * w == (y' - 1) * w + w;
  }

  lemma {:induction false} RowMajorOrder(w: nat, x: nat, y: nat, x': nat, y': nat)
    requires x < w && x' < w && y < y'
    ensures y * w + x < y' * w + x'
  {
    ProductGrows(w, y, y');
  }

  lemma {:induction false} Coordinates(w: nat, x: nat, y: nat)
    requires x < w
    ensures (y * w + x) % w == x && (y * w + x) / w == y
  {
    var p := y * w + x;
    var x', y' := p % w, p / w;
    assert p == y' * w + x';
    if y < y' {
      RowMajorOrder(w, x, y, x', y');
    } else if y' < y {
      RowMajorOrder(w, x', y', x, y);
    }
  }

  /** The pixel to the right and the pixel below. */
  lemma {:induction false} StepCoordinates(w: nat, p: nat)
    requires w > 0
    ensures (p + w) % w == p % w && (p + w) / w == p / w + 1
    ensures (p + 1) % w != 0 ==> (p + 1) % w == p % w + 1 && (p + 1) / w == p / w
    ensures (p + 1) % w == 0 ==> (p + 1) / w == p / w + 1 && p % w == w - 1
  {
    var x, y := p % w, p / w;
    assert p == y * w + x;
    assert (y + 1) * w == y * w + w;
    Coordinates(w, x, y + 1);
    if x + 1 < w {
      Coordinates(w, x + 1, y);
    } else {
      Coordinates(w, 0, y + 1);
    }
  }

  /** Neighbours in row-major terms: the next pixel of the same row, or the one a row below. */
  lemma {:induction false} AdjacentFlat(w: nat, p: nat, q: nat)
    requires w > 0 && p <= q
    ensures Adjacent(w, p, q) <==> (q == p + 1 && q % w != 0) || q == p + w
  {
    StepCoordinates(w, p);
    if Adjacent(w, p, q) {
      AdjacentIsStep(w, p, q);
    }
  }

  lemma {:induction false} AdjacentIsStep(w: nat, p: nat, q: nat)
    requires w > 0 && p <= q && Adjacent(w, p, q)
    ensures (q == p + 1 && q % w != 0) || q == p + w
  {
    var x, y, x', y' := p % w, p / w, q % w, q / w;
    assert p == y * w + x && q == y' * w + x';
    if y < y' {
      assert (y + 1) * w == y * w + w;
    }
  }
}
