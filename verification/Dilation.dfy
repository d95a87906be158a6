/** The 3x3 cross dilation of the motion mask, and what it does to connectivity. */
module Dilation {
  import opened Connectivity
  import opened Labelling
  import opened TopBlobs
  import opened Components
  import opened BlobFinder

  /** Pixel `q` is `p` itself or one of its four neighbours. */
  ghost predicate InCross(w: nat, p: nat, q: nat)
    requires w > 0
  {
    q == p || Adjacent(w, p, q)
  }

  /** `v` is the maximum of the mask over the cross around `p`, cut off at the border. */
  ghost predicate IsCrossMax(w: nat, mask: seq<nat>, p: nat, v: nat)
    requires w > 0
  {
    && (forall q: nat :: q < |mask| && InCross(w, p, q) ==> mask[q] <= v)
    && (exists q: nat :: q < |mask| && InCross(w, p, q) && mask[q] == v)
  }

  ghost predicate Dilated(w: nat, mask: seq<nat>, d: seq<nat>)
    requires w > 0
  {
    |d| == |mask| && forall p :: 0 <= p < |mask| ==> IsCrossMax(w, mask, p, d[p])
  }

  lemma {:induction false} RowBelow(w: nat, h: nat, x: nat, y: nat)
    requires x < w && y < h
    ensures y * w + x + w < w * h <==> y + 1 < h
  {
    assert (y + 1) * w == y * w + w;
    if y + 1 < h {
      RowMajorOrder(w, x, y + 1, 0, h);
    }
  }

  lemma {:induction false} NeighbourAfter(w: nat, h: nat, x: nat, y: nat, p: nat, q: nat)
    requires x < w && y < h && p == y * w + x && p < q < w * h
    ensures Adjacent(w, p, q) <==> (x + 1 < w && q == p + 1) || (y + 1 < h && q == p + w)
  {
    Coordinates(w, x, y);
    RowBelow(w, h, x, y);
    StepCoordinates(w, p);
    AdjacentFlat(w, p, q);
    hide Adjacent;
  }

  lemma {:induction false} NeighbourBefore(w: nat, x: nat, y: nat, p: nat, q: nat)
    requires x < w && p == y * w + x && q < p
    ensures Adjacent(w, p, q) <==> (x > 0 && q + 1 == p) || (y > 0 && q + w == p)
  {
    Coordinates(w, x, y);
    if y > 0 {
      ProductGrows(w, 0, y);
    }
    AdjacentFlat(w, q, p);
    AdjacentSymmetric(w, p, q);
    hide Adjacent;
  }

  /** The cross around a pixel in row-major terms. */
  lemma {:induction false} CrossFlat(w: nat, h: nat, x: nat, y: nat, q: nat)
    requires x < w && y < h && q < w * h
    ensures InCross(w, y * w + x, q) <==>
            var p := y * w + x;
            q == p || (x > 0 && q + 1 == p) || (x + 1 < w && q == p + 1) || (y > 0 && q + w == p) || (y + 1 < h && q == p + w)
  {
    var p := y * w + x;
    hide Adjacent;
    if q > p {
      NeighbourAfter(w, h, x, y, p, q);
    } else if q < p {
      NeighbourBefore(w, x, y, p, q);
    }
  }

  lemma {:induction false} AdjacentSymmetric(w: nat, p: nat, q: nat)
    requires w > 0
    ensures Adjacent(w, p, q) <==> Adjacent(w, q, p)
  {
  }

  /** The larger of `v` and entry `i`, when there is such an entry. */
  function Larger(mask: seq<nat>, v: nat, present: bool, i: int): (r: nat)
    requires present ==> 0 <= i < |mask|
    ensures r >= v && (present ==> r >= mask[i]) && (r == v || (present && r == mask[i]))
  {
    if present && mask[i] > v then mask[i] else v
  }

  ghost predicate PixelInside(w: nat, h: nat, x: nat, y: nat, n: nat) {
    && x < w && y < h && n == w * h && y * w + x < n
    && (x + 1 < w ==> y * w + x + 1 < n) && (y > 0 ==> y * w >= w) && (y + 1 < h ==> y * w + x + w < n)
  }

  lemma {:induction false} PixelIndices(w: nat, h: nat, x: nat, y: nat)
    requires x < w && y < h
    ensures PixelInside(w, h, x, y, w * h)
  {
    RowMajorOrder(w, x, y, 0, h);
    if x + 1 < w {
      RowMajorOrder(w, x + 1, y, 0, h);
    }
    if y + 1 < h {
      RowMajorOrder(w, x, y + 1, 0, h);
      assert (y + 1) * w == y * w + w;
    }
    if y > 0 {
      ProductGrows(w, 0, y);
    }
  }

  /** The running maximum over a pixel and its existing neighbours, in the order of the code. */
  function RunningMax(mask: seq<nat>, w: nat, h: nat, x: nat, y: nat, p: nat): nat
    requires p == y * w + x && PixelInside(w, h, x, y, |mask|)
  {
    var v1 := Larger(mask, mask[p], x > 0, p - 1);
    var v2 := Larger(mask, v1, x + 1 < w, p + 1);
    var v3 := Larger(mask, v2, y > 0, p - w);
    Larger(mask, v3, y + 1 < h, p + w)
  }

  lemma {:induction false} RunningMaxIsCrossMax(mask: seq<nat>, w: nat, h: nat, x: nat, y: nat, p: nat)
    requires p == y * w + x && PixelInside(w, h, x, y, |mask|)
    ensures IsCrossMax(w, mask, p, RunningMax(mask, w, h, x, y, p))
  {
    hide Distance, Larger;
    var v := RunningMax(mask, w, h, x, y, p);
    forall q: nat | q < |mask| && InCross(w, p, q)
      ensures mask[q] <= v
    {
      CrossFlat(w, h, x, y, q);
    }
    var q := if v == mask[p] then p else if x > 0 && v == mask[p - 1] then p - 1
             else if x + 1 < w && v == mask[p + 1] then p + 1 else if y > 0 && v == mask[p - w] then p - w else p + w;
    CrossFlat(w, h, x, y, q);
    assert InCross(w, p, q) && mask[q] == v;
  }

  /** One output pixel. */
  method CrossMaxAt(input: array<nat>, w: nat, h: nat, x: nat, y: nat, row: nat) returns (v: nat)
    requires row == y * w && PixelInside(w, h, x, y, input.Length)
    ensures IsCrossMax(w, input[..], row + x, v)
  {
    v := input[row + x];
    if x > 0 && input[row + x - 1] > v {
      v := input[row + x - 1];
    }
    if x + 1 < w && input[row + x + 1] > v {
      v := input[row + x + 1];
    }
    if y > 0 && input[row - w + x] > v {
      v := input[row - w + x];
    }
    if y + 1 < h && input[row + w + x] > v {
      v := input[row + w + x];
    }
    assert v == RunningMax(input[..], w, h, x, y, row + x);
    RunningMaxIsCrossMax(input[..], w, h, x, y, row + x);
  }

  /** Cross dilation of a whole raster. */
  method DilateCrossMax(input: array<nat>, out: array<nat>, w: nat, h: nat)
    requires w > 0 && input != out && input.Length == out.Length == w * h
    modifies out
    ensures Dilated(w, input[..], out[..])
  {
    var y, row := 0, 0;
    while y < h
      invariant y <= h && row == y * w && row <= w * h
      invariant forall p :: 0 <= p < row ==> IsCrossMax(w, input[..], p, out[p])
    {
      ProductGrows(w, y, h);
      var x := 0;
      while x < w
        invariant x <= w
        invariant forall p :: 0 <= p < row + x ==> IsCrossMax(w, input[..], p, out[p])
      {
        hide IsCrossMax, PixelInside;
        PixelIndices(w, h, x, y);
        assert row + x < out.Length by {
          RowMajorOrder(w, x, y, 0, h);
        }
        var v := CrossMaxAt(input, w, h, x, y, row);
        out[row + x] := v;
        x := x + 1;
      }
      assert (y + 1) * w == row + w;
      y, row := y + 1, row + w;
    }
    assert row == w * h;
  }

  // ---- Dilation and labelling together ----

  /** A pixel next to a motion pixel, or one itself, is in the dilated region. */
  lemma {:induction false} CrossIsDilated(w: nat, mask: seq<nat>, d: seq<nat>, p: nat, q: nat)
    requires w > 0 && Dilated(w, mask, d) && p < |mask| && q < |mask|
    requires mask[p] != 0 && InCross(w, q, p)
    ensures InRegion(d, q)
  {
    assert IsCrossMax(w, mask, q, d[q]);
  }

  lemma {:induction false} PixelAt(w: nat, h: nat, x: nat, y: nat) returns (p: nat)
    requires x < w && y < h
    ensures p < w * h && Column(w, p) == x && Row(w, p) == y
  {
    p := y * w + x;
    Coordinates(w, x, y);
    RowMajorOrder(w, x, y, 0, h);
  }

  /** One step from `p` toward `q`. */
  lemma {:induction false} StepToward(w: nat, h: nat, p: nat, q: nat) returns (a: nat)
    requires w > 0 && p < w * h && q < w * h && Distance(w, p, q) > 0
    ensures a < w * h && Adjacent(w, p, a) && Distance(w, a, q) == Distance(w, p, q) - 1
  {
    InsideRows(w, h, p);
    InsideRows(w, h, q);
    assert Column(w, p) < w && Column(w, q) < w;
    hide Column, Row;
    var x, y, x', y' := Column(w, p), Row(w, p), Column(w, q), Row(w, q);
    var ax := if x < x' then x + 1 else if x > x' then x - 1 else x;
    var ay := if x != x' then y else if y < y' then y + 1 else y - 1;
    a := PixelAt(w, h, ax, ay);
  }

  lemma {:induction false} InsideRows(w: nat, h: nat, p: nat)
    requires w > 0 && p < w * h
    ensures Row(w, p) < h
  {
    var y := p / w;
    assert p == y * w + p % w;
    if y > h {
      ProductGrows(w, h, y);
    }
  }

  /** Dilation bridges gaps: two motion pixels at city-block distance at most three lie in one
      component of the labelled dilated mask. */
  lemma {:induction false} NearPixelsJoined(w: nat, h: nat, mask: seq<nat>, d: seq<nat>, l: seq<nat>, p: nat, q: nat)
    requires w > 0 && |mask| == w * h && Dilated(w, mask, d) && SameSupport(d, l)
    requires p < |mask| && q < |mask| && mask[p] != 0 && mask[q] != 0 && Distance(w, p, q) <= 3
    ensures Connected(w, l, p, q)
  {
    hide Distance, IsCrossMax, Column, Row;
    CrossIsDilated(w, mask, d, p, p);
    CrossIsDilated(w, mask, d, q, q);
    var a, b := p, q;
    if Distance(w, p, q) > 0 {
      a := StepToward(w, h, p, q);
      CrossIsDilatedNeighbour(w, mask, d, p, a);
      AdjacentConnected(w, l, p, a);
    } else {
      ConnectedReflexive(w, l, p);
    }
    if Distance(w, a, q) > 0 {
      b := StepToward(w, h, a, q);
      DistanceSymmetric(w, b, q);
      if Distance(w, b, q) == 1 {
        CrossIsDilatedNeighbour(w, mask, d, q, b);
        AdjacentConnected(w, l, b, q);
      } else {
        SameCoordinates(w, b, q);
        ConnectedReflexive(w, l, q);
      }
      AdjacentConnected(w, l, a, b);
    } else {
      SameCoordinates(w, a, q);
      ConnectedReflexive(w, l, q);
      b := q;
    }
    ConnectedTransitive(w, l, p, a, b);
    ConnectedTransitive(w, l, p, b, q);
  }

  lemma {:induction false} DistanceSymmetric(w: nat, p: nat, q: nat)
    requires w > 0
    ensures Distance(w, p, q) == Distance(w, q, p)
  {
  }

  lemma {:induction false} SameCoordinates(w: nat, p: nat, q: nat)
    requires w > 0 && Distance(w, p, q) == 0
    ensures p == q
  {
    assert p == (p / w) * w + p % w && q == (q / w) * w + q % w;
  }

  lemma {:induction false} CrossIsDilatedNeighbour(w: nat, mask: seq<nat>, d: seq<nat>, p: nat, q: nat)
    requires w > 0 && Dilated(w, mask, d) && p < |mask| && q < |mask|
    requires mask[p] != 0 && Adjacent(w, p, q)
    ensures InRegion(d, q)
  {
    AdjacentSymmetric(w, p, q);
    CrossIsDilated(w, mask, d, p, q);
  }

  /** Dilation invents nothing: every component of the labelled dilated mask contains a motion pixel. */
  lemma {:induction false} ComponentsHaveMotion(w: nat, mask: seq<nat>, d: seq<nat>, l: seq<nat>, a: nat) returns (o: nat)
    requires w > 0 && Dilated(w, mask, d) && SameSupport(d, l) && InRegion(l, a)
    ensures o < |mask| && mask[o] != 0 && Connected(w, l, a, o)
  {
    assert IsCrossMax(w, mask, a, d[a]);
    o :| o < |mask| && InCross(w, a, o) && mask[o] == d[a];
    CrossIsDilated(w, mask, d, o, o);
    if o == a {
      ConnectedReflexive(w, l, a);
    } else {
      AdjacentConnected(w, l, a, o);
    }
  }

  /** Dilation followed by a run of the blob finder that did not fill its label table: near motion
      pixels share a reported component, and every component contains motion. */
  lemma {:induction false} MotionComponents(w: nat, h: nat, mask: seq<nat>, d: seq<nat>, l: seq<nat>, p: seq<nat>,
                                            minArea: nat, g: Listing, out: BlobResult)
    requires w > 0 && |mask| == w * h && Dilated(w, mask, d) && Reports(w, d, l, p, minArea, g, out)
    requires |p| < MAX_PROVISIONAL_LABELS
    ensures forall a: nat, b: nat :: a < |mask| && b < |mask| && mask[a] != 0 && mask[b] != 0 && Distance(w, a, b) <= 3 ==>
              exists c :: c in g.comps && a in c && b in c
    ensures forall c :: c in g.comps ==> exists o: nat :: o in c && o < |mask| && mask[o] != 0
  {
    NothingDropped(w, d, l, MAX_PROVISIONAL_LABELS);
    hide Reports, Labelling.Labelled, KeptExactly, Dilated, Distance, Connected;
    assert SameSupport(d, l);
    forall a: nat, b: nat | a < |mask| && b < |mask| && mask[a] != 0 && mask[b] != 0 && Distance(w, a, b) <= 3
      ensures exists c :: c in g.comps && a in c && b in c
    {
      NearPixelsJoined(w, h, mask, d, l, a, b);
      CrossIsDilated(w, mask, d, a, a);
      ConnectedReflexive(w, l, a);
      ComponentListed(w, d, l, p, minArea, g, out, a);
      assert a in ComponentOf(w, l, a) && b in ComponentOf(w, l, a);
    }
    forall c | c in g.comps
      ensures exists o: nat :: o in c && o < |mask| && mask[o] != 0
    {
      var a := ComponentMember(w, d, l, p, minArea, g, out, c);
      var o := ComponentsHaveMotion(w, mask, d, l, a);
      assert o in ComponentOf(w, l, a);
    }
  }

  lemma {:induction false} ComponentListed(w: nat, d: seq<nat>, l: seq<nat>, p: seq<nat>, minArea: nat, g: Listing, out: BlobResult, a: nat)
    requires w > 0 && Reports(w, d, l, p, minArea, g, out) && InRegion(l, a)
    ensures ComponentOf(w, l, a) in g.comps
  {
    assert IsComponent(w, l, ComponentOf(w, l, a));
  }

  lemma {:induction false} ComponentMember(w: nat, d: seq<nat>, l: seq<nat>, p: seq<nat>, minArea: nat, g: Listing, out: BlobResult, c: set<nat>)
    returns (a: nat)
    requires w > 0 && Reports(w, d, l, p, minArea, g, out) && c in g.comps
    ensures InRegion(l, a) && c == ComponentOf(w, l, a)
  {
    assert IsComponent(w, l, c);
    a :| InRegion(l, a) && c == ComponentOf(w, l, a);
  }
}
