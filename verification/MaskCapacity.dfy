/** On the full 80x60 motion mask the label table cannot fill up: a dilated mask has too few pixels
    that open a label. */
module MaskCapacity {
  import opened Connectivity
  import opened Labelling
  import opened Components
  import opened BlobFinder
  import opened Dilation

  const W := 80
  const H := 60

  /** A pixel that opens a label: no labelled pixel to the left of it or above it. */
  ghost predicate Corner(w: nat, d: seq<nat>, p: nat)
    requires w > 0
  {
    InRegion(d, p) && !HasEarlier(w, d, p)
  }

  ghost function Corners(w: nat, d: seq<nat>, n: nat): set<nat>
    requires w > 0
  {
    set p: nat | p < n && Corner(w, d, p)
  }

  lemma {:induction false} EarlierInPrefix(w: nat, d: seq<nat>, k: nat)
    requires w > 0 && k <= |d|
    ensures HasEarlier(w, d[..k], k) <==> HasEarlier(w, d, k)
  {
    if HasEarlier(w, d, k) {
      var a: nat :| InRegion(d, a) && Earlier(w, k, a);
      assert InRegion(d[..k], a);
    }
    if HasEarlier(w, d[..k], k) {
      var a: nat :| InRegion(d[..k], a) && Earlier(w, k, a);
      assert InRegion(d, a);
    }
  }

  /** As many labels are opened as there are corners. */
  lemma {:induction false} OpenedCountsCorners(w: nat, d: seq<nat>, n: nat)
    requires w > 0 && n <= |d|
    ensures Opened(w, d[..n]) == |Corners(w, d, n)|
    decreases n
  {
    hide HasEarlier;
    if n == 0 {
      assert Corners(w, d, n) == {};
    } else {
      var k := n - 1;
      OpenedCountsCorners(w, d, k);
      EarlierInPrefix(w, d, k);
      assert d[..n][..k] == d[..k];
      assert Corners(w, d, n) == Corners(w, d, k) + (if Corner(w, d, k) then {k} else {});
      assert k !in Corners(w, d, k);
    }
  }

  // ---- Corners keep apart ----

  lemma {:induction false} CornersApartInRow(w: nat, d: seq<nat>, p: nat)
    requires w > 0 && Corner(w, d, p) && (p + 1) % w != 0
    ensures !Corner(w, d, p + 1)
  {
    assert Earlier(w, p + 1, p);
  }

  lemma {:induction false} CornersApartInColumn(w: nat, d: seq<nat>, p: nat)
    requires w > 0 && Corner(w, d, p)
    ensures !Corner(w, d, p + w)
  {
    assert Earlier(w, p + w, p);
  }

  /** The motion pixel that made a corner also fills the pixel to the right of it or the one below. */
  lemma {:induction false} CornerSpreads(w: nat, mask: seq<nat>, d: seq<nat>, p: nat)
    requires w > 0 && Dilated(w, mask, d) && Corner(w, d, p) && (p + 1) % w != 0 && p + 1 < |d|
    ensures InRegion(d, p + 1) || InRegion(d, p + w)
  {
    hide Adjacent;
    var q := Source(w, mask, d, p);
    NotEarlier(w, d, p, q);
    CrossIsDilated(w, mask, d, q, q);
    if q == p {
      AdjacentFlat(w, p, p + 1);
      AdjacentSymmetric(w, p, p + 1);
      CrossIsDilated(w, mask, d, p, p + 1);
    } else {
      AdjacentFlat(w, p, q);
    }
  }

  /** A motion pixel in the cross of a dilated pixel. */
  lemma {:induction false} Source(w: nat, mask: seq<nat>, d: seq<nat>, p: nat) returns (q: nat)
    requires w > 0 && Dilated(w, mask, d) && InRegion(d, p)
    ensures q < |mask| && InCross(w, p, q) && mask[q] != 0
  {
    assert IsCrossMax(w, mask, p, d[p]);
    q :| q < |mask| && InCross(w, p, q) && mask[q] == d[p];
  }

  /** Nothing before a corner is a labelled neighbour of it. */
  lemma {:induction false} NotEarlier(w: nat, d: seq<nat>, p: nat, q: nat)
    requires w > 0 && Corner(w, d, p) && InCross(w, p, q)
    ensures q >= p || !InRegion(d, q)
  {
    AdjacentSymmetric(w, p, q);
    if q < p {
      AdjacentFlat(w, q, p);
      assert Earlier(w, p, q);
    }
  }

  /** In a dilated mask a corner and the pixel diagonally below it are not both corners. */
  lemma {:induction false} CornersApartDiagonally(w: nat, mask: seq<nat>, d: seq<nat>, p: nat)
    requires w > 0 && Dilated(w, mask, d) && Corner(w, d, p) && (p + 1) % w != 0
    ensures !Corner(w, d, p + w + 1)
  {
    if p + w + 1 < |d| {
      hide Dilated;
      CornerSpreads(w, mask, d, p);
      StepCoordinates(w, p + 1);
      assert Earlier(w, p + w + 1, p + 1) && Earlier(w, p + w + 1, p + w);
    }
  }

  // ---- Counting by windows of two columns and three rows ----

  function Window(p: nat): nat {
    (p / W / 3) * 40 + p % W / 2
  }

  ghost function InWindow(s: set<nat>, c: nat): set<nat> {
    set p | p in s && Window(p) == c
  }

  ghost predicate ApartIn(s: set<nat>, a: nat, b: nat) { !(a in s && b in s) }

  lemma {:induction false} RowHoldsOne(s: set<nat>, a: nat) returns (r: set<nat>)
    requires ApartIn(s, a, a + 1)
    ensures |r| <= 1 && forall p :: p in s && (p == a || p == a + 1) ==> p in r
  {
    r := if a in s then {a} else {a + 1};
  }

  lemma {:induction false} InTwo(s: set<nat>, x: set<nat>, y: set<nat>)
    requires |x| <= 1 && |y| <= 1 && forall p :: p in s ==> p in x || p in y
    ensures |s| <= 2
  {
    Subset(y - x, y);
    Subset(s, x + (y - x));
  }

  lemma Subset(a: set<nat>, b: set<nat>)
    requires a <= b
    ensures |a| <= |b|
  {
    assert b == a + (b - a);
  }

  /** Six pixels in three rows `a`, `b`, `c`, of which neighbours and one diagonal exclude each other,
      hold at most two. */
  lemma {:induction false} AtMostTwo(s: set<nat>, a: nat, b: nat, c: nat)
    requires forall p :: p in s ==> p in {a, a + 1, b, b + 1, c, c + 1}
    requires ApartIn(s, a, a + 1) && ApartIn(s, b, b + 1) && ApartIn(s, c, c + 1)
    requires ApartIn(s, a, b) && ApartIn(s, a + 1, b + 1) && ApartIn(s, a, b + 1)
    requires ApartIn(s, b, c) && ApartIn(s, b + 1, c + 1) && ApartIn(s, b, c + 1)
    ensures |s| <= 2
  {
    var top := RowHoldsOne(s, a);
    var mid := RowHoldsOne(s, b);
    var low := RowHoldsOne(s, c);
    if b !in s && b + 1 !in s {
      InTwo(s, top, low);
    } else if a !in s && a + 1 !in s {
      InTwo(s, mid, low);
    } else {
      assert a + 1 in s && b in s;
      InTwo(s, top, mid);
    }
  }

  lemma {:induction false} WindowPixels(p: nat, c: nat)
    requires Window(p) == c && p < W * H
    ensures c < 800
    ensures var a := 3 * (c / 40) * W + 2 * (c % 40);
            p in {a, a + 1, a + W, a + W + 1, a + 2 * W, a + 2 * W + 1}
  {
    var y, x := p / W, p % W;
    assert p == y * W + x && x < W && y < H;
    assert c / 40 == y / 3 && c % 40 == x / 2;
  }

  lemma {:induction false} WindowHoldsTwo(mask: seq<nat>, d: seq<nat>, c: nat)
    requires Dilated(W, mask, d) && |d| == W * H && c < 800
    ensures |InWindow(Corners(W, d, |d|), c)| <= 2
  {
    hide Corner, Dilated, Window;
    var s := InWindow(Corners(W, d, |d|), c);
    var a := 3 * (c / 40) * W + 2 * (c % 40);
    forall p | p in s ensures p in {a, a + 1, a + W, a + W + 1, a + 2 * W, a + 2 * W + 1} {
      WindowPixels(p, c);
    }
    EvenColumn(c);
    CornersApart(mask, d, s, a);
    CornersApart(mask, d, s, a + W);
    CornersApart(mask, d, s, a + 2 * W);
    AtMostTwo(s, a, a + W, a + 2 * W);
  }

  lemma {:induction false} CornersApart(mask: seq<nat>, d: seq<nat>, s: set<nat>, b: nat)
    requires Dilated(W, mask, d) && (b + 1) % W != 0 && forall p :: p in s ==> Corner(W, d, p)
    ensures ApartIn(s, b, b + 1) && ApartIn(s, b, b + W) && ApartIn(s, b + 1, b + 1 + W) && ApartIn(s, b, b + W + 1)
  {
    hide Corner, Dilated;
    if b in s {
      CornersApartInRow(W, d, b);
      CornersApartInColumn(W, d, b);
      CornersApartDiagonally(W, mask, d, b);
    }
    if b + 1 in s {
      CornersApartInColumn(W, d, b + 1);
    }
  }

  lemma {:induction false} EvenColumn(c: nat)
    ensures var a := 3 * (c / 40) * W + 2 * (c % 40);
            (a + 1) % W != 0 && (a + W + 1) % W != 0 && (a + 2 * W + 1) % W != 0
  {
    var a := 3 * (c / 40) * W + 2 * (c % 40);
    assert a % W == 2 * (c % 40);
  }

  lemma {:induction false} WindowsBound(s: set<nat>, n: nat)
    requires forall p :: p in s ==> Window(p) < n
    requires forall c: nat :: c < n ==> |InWindow(s, c)| <= 2
    ensures |s| <= 2 * n
    decreases n
  {
    hide Window;
    if n == 0 {
      assert s == {};
    } else {
      var last := InWindow(s, n - 1);
      var rest := s - last;
      forall c: nat | c < n - 1 ensures |InWindow(rest, c)| <= 2 {
        assert InWindow(rest, c) == InWindow(s, c);
      }
      WindowsBound(rest, n - 1);
      assert s == rest + last;
    }
  }

  /** A dilated 80x60 mask opens at most 1600 labels. */
  lemma {:induction false} DilatedOpensFew(mask: seq<nat>, d: seq<nat>)
    requires Dilated(W, mask, d) && |mask| == W * H
    ensures Opened(W, d) <= 1600
  {
    hide Dilated, Corner, Window;
    DilatedLength(mask, d);
    var s := Corners(W, d, |d|);
    forall p | p in s ensures Window(p) < 800 {
      WindowPixels(p, Window(p));
    }
    forall c: nat | c < 800 ensures |InWindow(s, c)| <= 2 {
      WindowHoldsTwo(mask, d, c);
    }
    WindowsBound(s, 800);
    OpenedCountsCorners(W, d, |d|);
    assert d[..|d|] == d;
  }

  lemma DilatedLength(mask: seq<nat>, d: seq<nat>)
    requires Dilated(W, mask, d)
    ensures |d| == |mask|
  {
  }

  /** While a mask opens few labels, labelling drops nothing of it. */
  lemma {:induction false} KeepsAll(w: nat, d: seq<nat>, l: seq<nat>, n: nat, capacity: nat)
    requires w > 0 && n <= |l| == |d| && KeptExactly(w, d, l, capacity) && 1 + Opened(w, d) < capacity
    ensures SameSupport(l[..n], d[..n]) && Opened(w, l[..n]) == Opened(w, d[..n])
    decreases n
  {
    hide HasEarlier;
    if n > 0 {
      var k := n - 1;
      KeepsAll(w, d, l, k, capacity);
      OpenedGrows(w, d, k);
      SupportDecidesEarlier(w, l[..k], d[..k], k);
      EarlierInPrefix(w, d, k);
      assert l[..n][..k] == l[..k] && d[..n][..k] == d[..k];
      SupportGrows(l[..n], d[..n]);
    }
  }

  /** So the table never fills on the motion mask. */
  lemma {:induction false} TableNeverFull(mask: seq<nat>, d: seq<nat>, l: seq<nat>)
    requires Dilated(W, mask, d) && |mask| == |l| == W * H && KeptExactly(W, d, l, MAX_PROVISIONAL_LABELS)
    ensures SameSupport(l, d) && 1 + Opened(W, l) < MAX_PROVISIONAL_LABELS
  {
    hide Dilated, KeptExactly, SameSupport;
    DilatedLength(mask, d);
    DilatedOpensFew(mask, d);
    KeepsAll(W, d, l, |l|, MAX_PROVISIONAL_LABELS);
    assert l[..|l|] == l && d[..|l|] == d;
  }

  /** On the 80x60 mask, for every mask: motion pixels at distance at most 3 share a component, every
      component contains one, and no pixel is dropped. */
  lemma {:induction false} MaskComponents(mask: seq<nat>, d: seq<nat>, l: seq<nat>, p: seq<nat>,
                                          minArea: nat, g: Listing, out: BlobResult)
    requires |mask| == W * H && Dilated(W, mask, d) && Reports(W, d, l, p, minArea, g, out)
    ensures |p| < MAX_PROVISIONAL_LABELS && SameSupport(l, d)
    ensures forall a: nat, b: nat :: a < |mask| && b < |mask| && mask[a] != 0 && mask[b] != 0 && Distance(W, a, b) <= 3 ==>
              exists c :: c in g.comps && a in c && b in c
    ensures forall c :: c in g.comps ==> exists o: nat :: o in c && o < |mask| && mask[o] != 0
  {
    hide Dilated, Labelled, KeptExactly, SameSupport, Opened, Enumerates, Elects, DescribesEach;
    DilatedLength(mask, d);
    TableNeverFull(mask, d, l);
    hide Reports;
    MotionComponents(W, H, mask, d, l, p, minArea, g, out);
  }
}
