/** Two-pass connected-component labelling, statistics, and selection of the largest blobs. */
module BlobFinder {
  import opened UnionFind
  import opened Connectivity
  import opened Labelling
  import opened BlobStats
  import opened TopBlobs
  import opened Components

  const MAX_PROVISIONAL_LABELS := 2048

  datatype BlobResult = BlobResult(blobs: seq<Blob>, totalFgPixels: nat, totalComponents: nat)

  /** The label of the pixel to the left, and of the one above, as the first pass reads them. */
  function LeftOf(w: nat, l: seq<nat>): nat
    requires w > 0
  {
    if |l| % w != 0 then l[|l| - 1] else 0
  }

  function UpOf(w: nat, l: seq<nat>): nat
    requires w > 0
  {
    if |l| >= w then l[|l| - w] else 0
  }

  lemma {:induction false} EarlierByLabels(w: nat, l: seq<nat>)
    requires w > 0
    ensures HasEarlier(w, l, |l|) <==> LeftOf(w, l) != 0 || UpOf(w, l) != 0
    ensures LeftOf(w, l) != 0 ==> InRegion(l, |l| - 1) && Earlier(w, |l|, |l| - 1)
    ensures UpOf(w, l) != 0 ==> InRegion(l, |l| - w) && Earlier(w, |l|, |l| - w)
  {
    if LeftOf(w, l) != 0 {
      assert InRegion(l, |l| - 1) && Earlier(w, |l|, |l| - 1);
    }
    if UpOf(w, l) != 0 {
      assert InRegion(l, |l| - w) && Earlier(w, |l|, |l| - w);
    }
  }

  /** The earlier neighbours of the next pixel are the pixels its left and upper labels come from. */
  lemma {:induction false} EarlierPixels(w: nat, l: seq<nat>, p: seq<nat>)
    requires w > 0 && Labelled(w, l, p)
    ensures Forest(p)
    ensures LeftOf(w, l) != 0 ==> |l| >= 1 && l[|l| - 1] == LeftOf(w, l) < |p|
    ensures UpOf(w, l) != 0 ==> |l| >= w && l[|l| - w] == UpOf(w, l) < |p|
    ensures forall a: nat :: InRegion(l, a) && Earlier(w, |l|, a) ==>
              (LeftOf(w, l) != 0 && a == |l| - 1) || (UpOf(w, l) != 0 && a == |l| - w)
  {
    hide Sound, Complete, AllUsed;
  }

  lemma {:induction false} OpenedStep(w: nat, l: seq<nat>, x: nat)
    requires w > 0
    ensures Opened(w, l + [x]) == Opened(w, l) + if x != 0 && !HasEarlier(w, l, |l|) then 1 else 0
  {
    assert (l + [x])[..|l|] == l;
  }

  lemma {:induction false} KeptStep(w: nat, mask: seq<nat>, l: seq<nat>, x: nat, capacity: nat)
    requires w > 0 && |l| < |mask| && KeptExactly(w, mask, l, capacity)
    requires x != 0 <==> mask[|l|] != 0 && (HasEarlier(w, l, |l|) || 1 + Opened(w, l) < capacity)
    ensures KeptExactly(w, mask, l + [x], capacity)
  {
    var m := l + [x];
    forall k | 0 <= k < |m|
      ensures m[k] != 0 <==> mask[k] != 0 && (HasEarlier(w, m[..k], k) || 1 + Opened(w, m[..k]) < capacity)
    {
      assert m[..k] == l[..k];
      assert l[..|l|] == l;
    }
  }

  /** How many pixels of the mask are not zero. */
  ghost function Foreground(mask: seq<nat>): nat {
    if mask == [] then 0 else Foreground(mask[..|mask| - 1]) + if mask[|mask| - 1] != 0 then 1 else 0
  }

  class Finder {
    const forest: LabelForest
    const stats: array<LabelStats>

    constructor ()
      ensures fresh(forest) && fresh(forest.parent) && fresh(stats)
      ensures forest.parent.Length == stats.Length == MAX_PROVISIONAL_LABELS
    {
      forest := new LabelForest(MAX_PROVISIONAL_LABELS);
      stats := new LabelStats[MAX_PROVISIONAL_LABELS](_ => EMPTY_STATS);
    }

    /** The label of one foreground pixel: open one, join two, or take the only one there is. */
    method PlacePixel(left: nat, up: nat, x: nat, y: nat, next: nat, ghost w: nat, ghost l: seq<nat>)
      returns (lbl: nat, next': nat)
      requires forest.parent.Length == stats.Length == MAX_PROVISIONAL_LABELS
      requires w > 0 && 1 <= next <= MAX_PROVISIONAL_LABELS && next == 1 + Opened(w, l)
      requires Labelled(w, l, forest.Used(next)) && left == LeftOf(w, l) && up == UpOf(w, l)
      modifies forest.parent, stats
      ensures next <= next' <= MAX_PROVISIONAL_LABELS && next' == 1 + Opened(w, l + [lbl])
      ensures Labelled(w, l + [lbl], forest.Used(next'))
      ensures lbl != 0 <==> HasEarlier(w, l, |l|) || next < MAX_PROVISIONAL_LABELS
    {
      hide Labelled, Opened, HasEarlier, Earlier, LeftOf, UpOf, Forest, Joined, Root, InRegion;
      ghost var p := forest.Used(next);
      EarlierByLabels(w, l);
      EarlierPixels(w, l, p);
      next' := next;
      if left == 0 && up == 0 {
        if next >= MAX_PROVISIONAL_LABELS {
          lbl := 0;
          StepBackground(w, l, p);
          OpenedStep(w, l, lbl);
          return;
        }
        lbl := next;
        next' := next + 1;
        forest.parent[lbl] := lbl;
        stats[lbl] := LabelStats(x, y, x, y, 0, 0);
        StepFresh(w, l, p);
        assert forest.Used(next') == p + [|p|];
      } else if left != 0 && up != 0 && left != up {
        forest.Union(left, up, next);
        lbl := if left < up then left else up;
        StepJoin(w, l, p, forest.Used(next), |l| - 1, |l| - w, lbl);
      } else {
        lbl := if left != 0 then left else up;
        ghost var u := if left != 0 then |l| - 1 else |l| - w;
        ghost var v := if up != 0 then |l| - w else |l| - 1;
        StepJoin(w, l, p, p, u, v, lbl);
      }
      OpenedStep(w, l, lbl);
    }

    /** One pixel of the first pass: column `x` of the row starting at index `row`. */
    method ScanPixel(mask: seq<nat>, w: nat, x: nat, y: nat, row: nat, labels: array<nat>, next: nat, fg: nat)
      returns (next': nat, fg': nat)
      requires forest.parent.Length == stats.Length == MAX_PROVISIONAL_LABELS && next <= MAX_PROVISIONAL_LABELS
      requires x < w && row == y * w && row + x < |mask| <= labels.Length && labels != forest.parent
      requires Scanned(w, mask, labels[..row + x], forest.Used(next), fg)
      modifies forest.parent, stats, labels
      ensures next <= next' <= MAX_PROVISIONAL_LABELS
      ensures Scanned(w, mask, labels[..row + x + 1], forest.Used(next'), fg')
    {
      hide Scanned, Labelled, KeptExactly, HasEarlier, Opened, Foreground;
      ghost var l := labels[..row + x];
      ghost var p := forest.Used(next);
      ScannedParts(w, mask, l, p, fg);
      Coordinates(w, x, y);
      UpIndex(w, x, y, row);
      var lbl;
      if mask[row + x] == 0 {
        StepBackground(w, l, p);
        OpenedStep(w, l, 0);
        lbl, next', fg' := 0, next, fg;
      } else {
        fg' := fg + 1;
        var left := if x > 0 then labels[row + x - 1] else 0;
        var up := if y > 0 then labels[row - w + x] else 0;
        lbl, next' := PlacePixel(left, up, x, y, next, w, l);
      }
      ScanStep(w, mask, l, p, fg, lbl, forest.Used(next'));
      labels[row + x] := lbl;
      assert labels[..row + x + 1] == l + [lbl];
    }

    /** One row of the first pass. */
    method ScanRow(mask: seq<nat>, w: nat, y: nat, row: nat, labels: array<nat>, next0: nat, fg0: nat)
      returns (next: nat, fg: nat)
      requires forest.parent.Length == stats.Length == MAX_PROVISIONAL_LABELS && next0 <= MAX_PROVISIONAL_LABELS
      requires row == y * w && row + w <= |mask| <= labels.Length && labels != forest.parent
      requires Scanned(w, mask, labels[..row], forest.Used(next0), fg0)
      modifies forest.parent, stats, labels
      ensures next <= MAX_PROVISIONAL_LABELS
      ensures Scanned(w, mask, labels[..row + w], forest.Used(next), fg)
    {
      hide Scanned;
      next, fg := next0, fg0;
      var x := 0;
      while x < w
        invariant x <= w && next <= MAX_PROVISIONAL_LABELS
        invariant Scanned(w, mask, labels[..row + x], forest.Used(next), fg)
      {
        next, fg := ScanPixel(mask, w, x, y, row, labels, next, fg);
        x := x + 1;
      }
    }

    /** First pass: assign labels in raster order, joining classes where labels meet. */
    method AssignLabels(mask: seq<nat>, w: nat, h: nat, labels: array<nat>) returns (next: nat, fg: nat)
      requires forest.parent.Length == stats.Length == MAX_PROVISIONAL_LABELS
      requires w > 0 && |mask| == w * h <= labels.Length && labels != forest.parent
      modifies forest.parent, stats, labels
      ensures next <= MAX_PROVISIONAL_LABELS
      ensures Scanned(w, mask, labels[..|mask|], forest.Used(next), fg)
    {
      hide Scanned;
      forall i | 0 <= i < |mask| {
        labels[i] := 0;
      }
      next, fg := 1, 0;
      forest.parent[0] := 0;
      assert labels[..0] == [] && forest.Used(1) == [0];
      ScannedStart(w, mask);
      var y, row := 0, 0;
      while y < h
        invariant y <= h && row == y * w && row <= |mask| && next <= MAX_PROVISIONAL_LABELS
        invariant Scanned(w, mask, labels[..row], forest.Used(next), fg)
      {
        NextRow(w, h, y);
        next, fg := ScanRow(mask, w, y, row, labels, next, fg);
        y, row := y + 1, row + w;
      }
    }

    /** Second pass, one pixel: add it to the record of its root. */
    method AbsorbPixel(mask: seq<nat>, w: nat, x: nat, y: nat, row: nat, labels: array<nat>,
                       ghost l: seq<nat>, ghost f: seq<nat>)
      requires |f| <= forest.parent.Length == stats.Length && f == forest.parent[..|f|]
      requires x < w <= 0xFFFF && y <= 0xFFFF && row == y * w && row + x < |mask| == |l| <= labels.Length
      requires l == labels[..|l|] && (forall k :: 0 <= k < |f| ==> f[k] < |f|)
      requires Tallied(w, mask, l, row + x, f, stats[..|f|])
      modifies stats
      ensures Tallied(w, mask, l, row + x + 1, f, stats[..|f|])
    {
      ghost var st := stats[..|f|];
      Coordinates(w, x, y);
      assert labels[row + x] == l[row + x] < |f|;
      var lbl := labels[row + x];
      if lbl == 0 {
        TallyStep(w, mask, l, row + x, f, st, st);
        return;
      }
      var root := forest.parent[lbl];
      assert root == f[lbl] < |f|;
      stats[root] := Absorb(stats[root], x, y, mask[row + x]);
      assert stats[..|f|] == st[root := Absorb(st[root], x, y, mask[row + x])];
      TallyStep(w, mask, l, row + x, f, st, stats[..|f|]);
    }

    /** Clear the records of the roots. */
    method ResetRecords(next: nat)
      requires 1 <= next <= forest.parent.Length == stats.Length
      modifies stats
      ensures forall r :: 1 <= r < next && forest.parent[r] == r ==> stats[r] == EMPTY_STATS
    {
      var k := 1;
      while k < next
        invariant 1 <= k <= next
        invariant forall r :: 1 <= r < k && forest.parent[r] == r ==> stats[r] == EMPTY_STATS
      {
        if forest.parent[k] == k {
          stats[k] := EMPTY_STATS;
        }
        k := k + 1;
      }
    }

    /** Second pass: clear the records of the roots, then walk the pixels. */
    method AccumulateStats(mask: seq<nat>, w: nat, h: nat, labels: array<nat>, next: nat, ghost l: seq<nat>, ghost f: seq<nat>)
      requires 1 <= next == |f| <= forest.parent.Length == stats.Length && f == forest.parent[..|f|]
      requires 0 < w <= 0xFFFF && h <= 0xFFFF && |mask| == w * h == |l| <= labels.Length && l == labels[..|l|]
      requires (forall k :: 0 <= k < |f| ==> f[k] < |f|) && LabelsIn(l, |f|)
      modifies stats
      ensures Tallied(w, mask, l, |l|, f, stats[..|f|])
    {
      ResetRecords(next);
      NothingTallied(w, mask, l, f, stats[..|f|]);
      var y, row := 0, 0;
      while y < h
        invariant y <= h && row == y * w && row <= |mask|
        invariant Tallied(w, mask, l, row, f, stats[..|f|])
      {
        ProductGrows(w, y, h);
        var x := 0;
        while x < w
          invariant x <= w
          invariant Tallied(w, mask, l, row + x, f, stats[..|f|])
        {
          AbsorbPixel(mask, w, x, y, row, labels, l, f);
          x := x + 1;
        }
        assert (y + 1) * w == row + w;
        y, row := y + 1, row + w;
      }
      assert row == w * h;
    }

    /** One label of the collecting loop. */
    method CollectLabel(k: nat, minArea: nat, collected: array<Blob>, n: nat, components: nat,
                        ghost mask: seq<nat>, ghost w: nat, ghost l: seq<nat>, ghost p: seq<nat>, ghost f: seq<nat>,
                        ghost g: Listing)
      returns (n': nat, components': nat, ghost g': Listing)
      requires 1 <= k < |f| <= forest.parent.Length == stats.Length && f == forest.parent[..|f|]
      requires collected.Length == BLOB_MAX_COUNT && n <= BLOB_MAX_COUNT
      requires w > 0 && |l| == |mask| && Labelled(w, l, p) && FlatFormOf(p, f)
      requires Tallied(w, mask, l, |l|, f, stats[..|f|])
      requires Lists(w, mask, l, f, k, minArea, g) && components == |g.comps|
      requires LargestOf(g.offered, collected[..n], g.rest)
      modifies collected
      ensures n' <= BLOB_MAX_COUNT && Lists(w, mask, l, f, k + 1, minArea, g') && components' == |g'.comps|
      ensures LargestOf(g'.offered, collected[..n'], g'.rest)
    {
      n', components', g' := n, components, g;
      assert f[k] == forest.parent[k];
      if forest.parent[k] != k {
        ListSkip(l, f, k, g.comps);
        return;
      }
      RootIsComponent(w, l, p, f, k);
      assert stats[..|f|][k] == stats[k];
      RecordDescribes(w, mask, l, f, stats[..|f|], k);
      ListRoot(w, mask, l, f, k, minArea, g, BlobFrom(stats[k]));
      if stats[k].area == 0 {
        assert false;
      }
      components' := components + 1;
      g' := g.(comps := g.comps + [Members(l, f, k)]);
      if stats[k].area < minArea {
        return;
      }
      var b := BlobFrom(stats[k]);
      ghost var rest;
      n', rest := Offer(collected, n, b, g.offered, g.rest);
      g' := Listing(g'.comps, g.elig + [Members(l, f, k)], g.offered + [b], rest);
    }

    /** Visit the roots in label order; count the components and offer those of at least `minArea`. */
    method Collect(next: nat, minArea: nat, collected: array<Blob>,
                   ghost mask: seq<nat>, ghost w: nat, ghost l: seq<nat>, ghost p: seq<nat>)
      returns (n: nat, components: nat, ghost g: Listing)
      requires 1 <= next <= forest.parent.Length == stats.Length && collected.Length == BLOB_MAX_COUNT
      requires w > 0 && |l| == |mask| && Labelled(w, l, p) && FlatFormOf(p, forest.parent[..next])
      requires Tallied(w, mask, l, |l|, forest.parent[..next], stats[..next])
      modifies collected
      ensures Enumerates(w, l, g.comps) && components == |g.comps| && Elects(g.comps, minArea, g.elig)
      ensures DescribesEach(w, mask, g.elig, g.offered)
      ensures n <= BLOB_MAX_COUNT && LargestOf(g.offered, collected[..n], g.rest)
    {
      ghost var f := forest.parent[..next];
      n, components, g := 0, 0, Listing([], [], [], []);
      var k := 1;
      while k < next
        invariant 1 <= k <= next && n <= BLOB_MAX_COUNT
        invariant Lists(w, mask, l, f, k, minArea, g) && components == |g.comps|
        invariant LargestOf(g.offered, collected[..n], g.rest)
      {
        n, components, g := CollectLabel(k, minArea, collected, n, components, mask, w, l, p, f, g);
        k := k + 1;
      }
      ListingEnumerates(w, l, p, f, g.comps);
    }

    /** Label the mask and report its largest components. `labels` is the caller's scratch buffer;
        the ghost results name the components behind the report. */
    method Run(mask: seq<nat>, w: nat, h: nat, minArea: nat, labels: array<nat>)
      returns (out: BlobResult, ghost p: seq<nat>, ghost g: Listing)
      requires forest.parent.Length == stats.Length == MAX_PROVISIONAL_LABELS
      requires w <= 0xFFFF && h <= 0xFFFF && |mask| == w * h <= labels.Length && labels != forest.parent
      modifies forest.parent, stats, labels
      ensures w == 0 ==> out == BlobResult([], 0, 0)
      ensures w > 0 ==> Reports(w, mask, labels[..|mask|], p, minArea, g, out)
      ensures w > 0 ==> FlatFormOf(p, forest.parent[..|p|])
    {
      if w == 0 {
        return BlobResult([], 0, 0), [], Listing([], [], [], []);
      }
      var next, fg := AssignLabels(mask, w, h, labels);
      ghost var l := labels[..|mask|];
      p := forest.Used(next);
      assert mask[..|l|] == mask;
      if next <= 1 {
        out, g := BlobResult([], fg, 0), Listing([], [], [], []);
        NoComponents(w, l, p);
        return;
      }
      forest.Flatten(next);
      ghost var f := forest.Used(next);
      AccumulateStats(mask, w, h, labels, next, l, f);
      var collected := new Blob[BLOB_MAX_COUNT](_ => Blob(0, 0, 0, 0, 0, 0, 0.0));
      var n, components;
      n, components, g := Collect(next, minArea, collected, mask, w, l, p);
      ghost var kept := collected[..n];
      SortByArea(collected, n);
      SameOffer(g.offered, kept, collected[..n], g.rest);
      out := BlobResult(collected[..n], fg, components);
    }
  }

  /** What one run promises: the labels `l` with forest `p` name the connected components of the
      labelled pixels; the counters are exact; and the blobs are the largest eligible components. */
  ghost predicate Reports(w: nat, mask: seq<nat>, l: seq<nat>, p: seq<nat>, minArea: nat, g: Listing, out: BlobResult)
    requires w > 0
  {
    && |l| == |mask| && Labelled(w, l, p) && KeptExactly(w, mask, l, MAX_PROVISIONAL_LABELS)
    && |p| == 1 + Opened(w, l) <= MAX_PROVISIONAL_LABELS
    && out.totalFgPixels == Foreground(mask)
    && Enumerates(w, l, g.comps) && out.totalComponents == |g.comps|
    && Elects(g.comps, minArea, g.elig) && DescribesEach(w, mask, g.elig, g.offered)
    && LargestOf(g.offered, out.blobs, g.rest) && DescendingTo(out.blobs, |out.blobs|)
  }

  lemma {:induction false} NoComponents(w: nat, l: seq<nat>, p: seq<nat>)
    requires w > 0 && Labelled(w, l, p) && |p| == 1
    ensures Enumerates(w, l, []) && FlatFormOf(p, p)
  {
    assert forall a: nat :: !InRegion(l, a);
  }

  lemma {:induction false} SameOffer(offered: seq<Blob>, kept: seq<Blob>, sorted: seq<Blob>, rest: seq<Blob>)
    requires LargestOf(offered, kept, rest) && multiset(sorted) == multiset(kept)
    ensures LargestOf(offered, sorted, rest)
  {
    assert |sorted| == |multiset(sorted)| == |kept|;
    forall r, b | r in rest && b in sorted
      ensures r.area <= b.area
    {
      assert b in multiset(sorted);
      assert b in kept;
    }
  }

  /** What the collecting loop has seen: all components, the eligible ones with their blobs, and
      the blobs already left out. */
  datatype Listing = Listing(comps: seq<set<nat>>, elig: seq<set<nat>>, offered: seq<Blob>, rest: seq<Blob>)

  ghost predicate Lists(w: nat, mask: seq<nat>, l: seq<nat>, f: seq<nat>, k: nat, minArea: nat, g: Listing)
    requires w > 0 && k <= |f| && forall q :: 0 <= q < |l| ==> l[q] < |f|
  {
    && ListsRoots(l, f, k, g.comps)
    && Elects(g.comps, minArea, g.elig)
    && DescribesEach(w, mask, g.elig, g.offered)
  }

  lemma {:induction false} ListRoot(w: nat, mask: seq<nat>, l: seq<nat>, f: seq<nat>, k: nat, minArea: nat, g: Listing, b: Blob)
    requires w > 0 && 1 <= k < |f| && (forall q :: 0 <= q < |l| ==> l[q] < |f|)
    requires Lists(w, mask, l, f, k, minArea, g)
    requires f[k] == k && Describes(w, mask, Members(l, f, k), b)
    ensures var c := Members(l, f, k);
            && ListsRoots(l, f, k + 1, g.comps + [c])
            && Elects(g.comps + [c], minArea, if |c| >= minArea then g.elig + [c] else g.elig)
            && DescribesEach(w, mask, if |c| >= minArea then g.elig + [c] else g.elig,
                             if |c| >= minArea then g.offered + [b] else g.offered)
  {
    ListAdd(l, f, k, g.comps);
    ElectsAppend(g.comps, minArea, g.elig, Members(l, f, k));
  }

  function BlobFrom(s: LabelStats): Blob
    requires s.minX <= s.maxX && s.minY <= s.maxY
  {
    Blob(s.minX, s.minY, s.maxX - s.minX + 1, s.maxY - s.minY + 1, s.area, s.intensity,
         Score(s.intensity, s.area))
  }

  lemma {:induction false} BlobFromStats(w: nat, mask: seq<nat>, pixels: set<nat>, s: LabelStats)
    requires w > 0 && pixels != {} && StatsOf(w, mask, pixels, s)
    ensures s.area > 0 && s.minX <= s.maxX && s.minY <= s.maxY
    ensures Describes(w, mask, pixels, BlobFrom(s))
  {
    hide Score, Scored;
    var q :| q in pixels;
    assert |pixels| > 0 by {
      assert pixels == {q} + (pixels - {q});
    }
    assert s.minX <= Column(w, q) <= s.maxX && s.minY <= Row(w, q) <= s.maxY;
    ScoreIsMean(BlobFrom(s));
  }

  /** The record of a root, turned into a blob, describes the pixels of the root. */
  lemma {:induction false} RecordDescribes(w: nat, mask: seq<nat>, l: seq<nat>, f: seq<nat>, st: seq<LabelStats>, r: nat)
    requires Tallied(w, mask, l, |l|, f, st) && |l| == |mask| && 1 <= r < |f| && f[r] == r
    requires Members(l, f, r) != {}
    ensures st[r].area == |Members(l, f, r)| > 0
    ensures st[r].minX <= st[r].maxX && st[r].minY <= st[r].maxY
    ensures Describes(w, mask, Members(l, f, r), BlobFrom(st[r]))
  {
    assert mask[..|l|] == mask && l[..|l|] == l;
    BlobFromStats(w, mask, Members(l, f, r), st[r]);
  }

  lemma {:induction false} NothingTallied(w: nat, mask: seq<nat>, l: seq<nat>, f: seq<nat>, st: seq<LabelStats>)
    requires w > 0 && |st| == |f| && LabelsIn(l, |f|)
    requires forall r :: 1 <= r < |f| && f[r] == r ==> st[r] == EMPTY_STATS
    ensures Tallied(w, mask, l, 0, f, st)
  {
    forall r | 1 <= r < |f| && f[r] == r
      ensures StatsOf(w, mask[..0], Members(l[..0], f, r), st[r])
    {
      assert Members(l[..0], f, r) == {};
    }
  }

  /** The records `st` of the roots describe the first `n` pixels. */
  ghost predicate Tallied(w: nat, mask: seq<nat>, l: seq<nat>, n: nat, f: seq<nat>, st: seq<LabelStats>) {
    && w > 0 && n <= |mask| && n <= |l| && |st| == |f|
    && (forall q :: 0 <= q < |l| ==> l[q] < |f|)
    && (forall r :: 1 <= r < |f| && f[r] == r ==> StatsOf(w, mask[..n], Members(l[..n], f, r), st[r]))
  }

  lemma {:induction false} TallyStep(w: nat, mask: seq<nat>, l: seq<nat>, n: nat, f: seq<nat>,
                                     st: seq<LabelStats>, su: seq<LabelStats>)
    requires Tallied(w, mask, l, n, f, st) && n < |mask| && n < |l| && |su| == |st|
    requires w <= 0xFFFF && n / w <= 0xFFFF
    requires forall r :: 0 <= r < |f| ==>
      su[r] == if l[n] != 0 && f[l[n]] == r then Absorb(st[r], Column(w, n), Row(w, n), mask[n]) else st[r]
    ensures Tallied(w, mask, l, n + 1, f, su)
  {
    assert mask[..n + 1] == mask[..n] + [mask[n]];
    assert l[..n + 1] == l[..n] + [l[n]];
    forall r | 1 <= r < |f| && f[r] == r
      ensures StatsOf(w, mask[..n + 1], Members(l[..n + 1], f, r), su[r])
    {
      MembersStep(l[..n], f, r, l[n]);
      if l[n] != 0 && f[l[n]] == r {
        AbsorbAddsPixel(w, mask[..n], Members(l[..n], f, r), st[r], mask[n]);
      } else {
        OthersUnchanged(w, mask[..n], Members(l[..n], f, r), st[r], mask[n]);
      }
    }
  }

  /** The state of the first pass after the pixels of `l`: labels, label table `p`, foreground count. */
  ghost predicate Scanned(w: nat, mask: seq<nat>, l: seq<nat>, p: seq<nat>, fg: nat) {
    && w > 0 && |l| <= |mask|
    && Labelled(w, l, p)
    && KeptExactly(w, mask, l, MAX_PROVISIONAL_LABELS)
    && |p| == 1 + Opened(w, l) <= MAX_PROVISIONAL_LABELS
    && fg == Foreground(mask[..|l|])
  }

  lemma {:induction false} ScannedParts(w: nat, mask: seq<nat>, l: seq<nat>, p: seq<nat>, fg: nat)
    requires Scanned(w, mask, l, p, fg)
    ensures w > 0 && Labelled(w, l, p) && |p| == 1 + Opened(w, l) <= MAX_PROVISIONAL_LABELS
  {
  }

  lemma {:induction false} ScannedStart(w: nat, mask: seq<nat>)
    requires w > 0
    ensures Scanned(w, mask, [], [0], 0)
  {
    assert mask[..0] == [];
  }

  lemma {:induction false} ScanStep(w: nat, mask: seq<nat>, l: seq<nat>, p: seq<nat>, fg: nat, x: nat, q: seq<nat>)
    requires Scanned(w, mask, l, p, fg) && |l| < |mask|
    requires Labelled(w, l + [x], q) && |q| == 1 + Opened(w, l + [x]) <= MAX_PROVISIONAL_LABELS
    requires x != 0 <==> mask[|l|] != 0 && (HasEarlier(w, l, |l|) || |p| < MAX_PROVISIONAL_LABELS)
    ensures Scanned(w, mask, l + [x], q, if mask[|l|] != 0 then fg + 1 else fg)
  {
    hide Labelled, KeptExactly, Opened, HasEarlier, Foreground;
    KeptStep(w, mask, l, x, MAX_PROVISIONAL_LABELS);
    ForegroundStep(mask, |l|);
  }

  lemma {:induction false} ForegroundStep(mask: seq<nat>, k: nat)
    requires k < |mask|
    ensures Foreground(mask[..k + 1]) == Foreground(mask[..k]) + if mask[k] != 0 then 1 else 0
  {
    assert mask[..k + 1][..k] == mask[..k];
  }

  lemma {:induction false} NextRow(w: nat, h: nat, y: nat)
    requires y < h
    ensures (y + 1) * w == y * w + w <= w * h
  {
    ProductGrows(w, y, h);
  }

  /** A pixel has one above it exactly when it is not in the first row. */
  lemma {:induction false} UpIndex(w: nat, x: nat, y: nat, row: nat)
    requires x < w && row == y * w
    ensures y > 0 <==> row + x >= w
    ensures y > 0 ==> row >= w
  {
    if y > 0 {
      ProductGrows(w, 0, y);
    }
  }

  // ---- Consequences of a report ----

  /** The foreground pixels that found the label table full. */
  ghost function Dropped(mask: seq<nat>, l: seq<nat>): set<nat>
    requires |l| == |mask|
  {
    set q | 0 <= q < |mask| && mask[q] != 0 && l[q] == 0
  }

  lemma {:induction false} RegionStep(mask: seq<nat>, l: seq<nat>, v: nat, x: nat)
    requires |l| == |mask|
    ensures Region(l + [x]) == if x != 0 then Region(l) + {|l|} else Region(l)
    ensures Dropped(mask + [v], l + [x]) == if v != 0 && x == 0 then Dropped(mask, l) + {|l|} else Dropped(mask, l)
  {
    assert forall q :: 0 <= q < |l| ==> (l + [x])[q] == l[q] && (mask + [v])[q] == mask[q];
  }

  lemma {:induction false} ForegroundSplits(mask: seq<nat>, l: seq<nat>)
    requires |l| == |mask| && forall k :: 0 <= k < |l| && l[k] != 0 ==> mask[k] != 0
    ensures Foreground(mask) == |Region(l)| + |Dropped(mask, l)|
    decreases |l|
  {
    if |l| == 0 {
      assert Region(l) == {} && Dropped(mask, l) == {};
    } else {
      var n := |l| - 1;
      var l', mask' := l[..n], mask[..n];
      ForegroundSplits(mask', l');
      RegionStep(mask', l', mask[n], l[n]);
      assert l == l' + [l[n]] && mask == mask' + [mask[n]];
      assert n !in Region(l') && n !in Dropped(mask', l');
      hide Region, Dropped;
    }
  }

  /** Conservation: the areas of all components and the dropped pixels make up the foreground count. */
  lemma {:induction false} AreasPlusDropped(w: nat, mask: seq<nat>, l: seq<nat>, p: seq<nat>, minArea: nat, g: Listing, out: BlobResult)
    requires w > 0 && Reports(w, mask, l, p, minArea, g, out)
    ensures TotalSize(g.comps) + |Dropped(mask, l)| == out.totalFgPixels
  {
    AreasAddUp(w, l, g.comps);
    ForegroundSplits(mask, l);
  }

  /** Nothing is dropped unless all 2047 usable labels have been opened. */
  lemma {:induction false} DropsOnlyWhenFull(w: nat, mask: seq<nat>, l: seq<nat>, p: seq<nat>, minArea: nat, g: Listing, out: BlobResult)
    requires w > 0 && Reports(w, mask, l, p, minArea, g, out)
    ensures Dropped(mask, l) != {} ==> |p| == 2048
  {
    if |p| < MAX_PROVISIONAL_LABELS {
      NothingDropped(w, mask, l, MAX_PROVISIONAL_LABELS);
    }
  }

  /** An eligible component that is not reported is no larger than any reported blob, and is left
      out only when eight are reported. */
  lemma {:induction false} UnreportedAreSmaller(w: nat, mask: seq<nat>, l: seq<nat>, p: seq<nat>, minArea: nat, g: Listing, out: BlobResult, i: nat)
    requires w > 0 && Reports(w, mask, l, p, minArea, g, out)
    requires i < |g.elig| && g.offered[i] !in out.blobs
    ensures |out.blobs| == 8
    ensures forall b :: b in out.blobs ==> |g.elig[i]| <= b.area
  {
    assert g.offered[i] in multiset(g.offered);
    assert g.offered[i] in g.rest;
  }

  lemma OfferedOne(offered: seq<Blob>, kept: seq<Blob>, rest: seq<Blob>, b: Blob)
    requires LargestOf(offered, kept, rest) && b in kept
    ensures b in offered
  {
    assert b in multiset(kept);
    assert b in multiset(offered);
  }

  /** Every reported blob describes a component of at least `minArea` pixels. */
  lemma {:induction false} ReportedAreComponents(w: nat, mask: seq<nat>, l: seq<nat>, p: seq<nat>, minArea: nat, g: Listing, out: BlobResult, b: Blob)
    requires w > 0 && Reports(w, mask, l, p, minArea, g, out) && b in out.blobs
    ensures exists c :: IsComponent(w, l, c) && Describes(w, mask, c, b) && |c| >= minArea
  {
    hide Labelled, KeptExactly, Opened, Foreground, IsComponent, Describes, DescendingTo;
    OfferedOne(g.offered, out.blobs, g.rest, b);
    var i :| 0 <= i < |g.offered| && g.offered[i] == b;
    assert g.elig[i] in g.elig;
  }

  lemma {:induction false} SumBounded(mask: seq<nat>, pixels: set<nat>)
    requires forall q :: 0 <= q < |mask| ==> mask[q] <= 255
    requires forall q :: q in pixels ==> q < |mask|
    ensures SumOver(mask, pixels) <= 255 * |pixels| <= 255 * |mask|
    decreases |mask|
  {
    if mask == [] {
      assert pixels == {};
    } else {
      var n := |mask| - 1;
      var init := pixels - {n};
      SumBounded(mask[..n], init);
      if n in pixels {
        assert pixels == init + {n};
        SumIgnoresLater(mask[..n], init, {n});
      } else {
        assert init == pixels;
      }
    }
  }

  /** On rasters of the documented size no counter leaves its C type, and scores lie in the unit interval. */
  lemma {:induction false} BlobRanges(w: nat, h: nat, mask: seq<nat>, c: set<nat>, b: Blob)
    requires 0 < w <= 320 && h <= 240 && |mask| == h * w
    requires forall q :: 0 <= q < |mask| ==> mask[q] <= 255
    requires (forall q :: q in c ==> q < |mask|) && Describes(w, mask, c, b)
    ensures b.intensitySum < 0x1_0000_0000 && b.area <= 320 * 240
    ensures 0.0 <= b.score <= 1.0
    ensures b.w >= 1 && b.h >= 1 && b.x + b.w <= w && b.y + b.h <= h
  {
    SumBounded(mask, c);
    AreaBound(w, h);
    ScoreInUnit(b);
    var q :| q in c && Column(w, q) == b.x + b.w - 1;
    var r :| r in c && Row(w, r) == b.y + b.h - 1;
    RowBound(w, h, r);
  }

  lemma {:induction false} AreaBound(w: nat, h: nat)
    requires w <= 320 && h <= 240
    ensures h * w <= 320 * 240
  {
    if h < 240 {
      ProductGrows(w, h, 240);
    }
  }

  lemma {:induction false} RowBound(w: nat, h: nat, q: nat)
    requires w > 0 && q < h * w
    ensures Row(w, q) < h
  {
    var y, x := q / w, q % w;
    assert q == y * w + x;
    if y > h {
      ProductGrows(w, h, y);
    }
  }

  lemma {:induction false} ScoreInUnit(b: Blob)
    requires b.intensitySum <= 255 * b.area && Scored(b)
    ensures 0.0 <= b.score <= 1.0
  {
    if b.area > 0 {
      var d, i := b.area as real * 255.0, b.intensitySum as real;
      assert b.score * d == i;
      assert d > 0.0 && 0.0 <= i <= d;
      hide Scored;
      OutsideUnit(b.score, d);
    }
  }

  lemma OutsideUnit(s: real, d: real)
    requires d > 0.0
    ensures s < 0.0 ==> s * d < 0.0
    ensures s > 1.0 ==> s * d > d
  {
    if s > 1.0 {
      assert (s - 1.0) * d > 0.0;
    }
  }
}
