/** Merging of blobs whose bounding boxes are close: an in-place closure whose result is the
    finest grouping with no two groups close, whatever the order of the blobs. */
module BlobMerge {
  import opened TopBlobs
  import opened BlobStats

  /** A bounding box with inclusive corners. */
  datatype Box = Box(x1: int, y1: int, x2: int, y2: int)

  function BoxOf(b: Blob): Box {
    Box(b.x, b.y, b.x + b.w - 1, b.y + b.h - 1)
  }

  predicate Proper(a: Box) { a.x1 <= a.x2 && a.y1 <= a.y2 }

  /** The distance of two intervals, 0 when they meet. */
  function Gap(a1: int, a2: int, b1: int, b2: int): int {
    if a1 > b2 then a1 - b2 else if b1 > a2 then b1 - a2 else 0
  }

  /** Within the margin on both axes. */
  predicate Close(a: Box, b: Box, margin: nat) {
    Gap(a.x1, a.x2, b.x1, b.x2) <= margin && Gap(a.y1, a.y2, b.y1, b.y2) <= margin
  }

  /** Some column of one box is within the margin of some column of the other, and some row of some row. */
  lemma {:induction false} CloseIff(a: Box, b: Box, margin: nat)
    requires Proper(a) && Proper(b)
    ensures Close(a, b, margin) <==>
              && (exists p, q :: a.x1 <= p <= a.x2 && b.x1 <= q <= b.x2 && Near(p, q, margin))
              && (exists p, q :: a.y1 <= p <= a.y2 && b.y1 <= q <= b.y2 && Near(p, q, margin))
  {
    GapIff(a.x1, a.x2, b.x1, b.x2, margin);
    GapIff(a.y1, a.y2, b.y1, b.y2, margin);
  }

  ghost predicate Near(p: int, q: int, margin: nat) { p <= q + margin && q <= p + margin }

  lemma {:induction false} GapIff(a1: int, a2: int, b1: int, b2: int, margin: nat)
    requires a1 <= a2 && b1 <= b2
    ensures Gap(a1, a2, b1, b2) <= margin <==> exists p, q :: a1 <= p <= a2 && b1 <= q <= b2 && Near(p, q, margin)
  {
    if Gap(a1, a2, b1, b2) <= margin {
      var p, q := if a1 > b2 then a1 else if b1 > a2 then a2 else if a1 > b1 then a1 else b1,
                  if a1 > b2 then b2 else if b1 > a2 then b1 else if a1 > b1 then a1 else b1;
      assert Near(p, q, margin);
    }
  }

  /** A pixel is in the box of a blob exactly when it is in the blob's rectangle. */
  lemma {:induction false} BoxHoldsPixels(b: Blob, px: int, py: int)
    ensures Inside(Box(px, py, px, py), BoxOf(b)) <==> b.x <= px < b.x + b.w && b.y <= py < b.y + b.h
  {
  }

  /** Two blobs are close exactly when a column of one is at most the margin away from a column of the
      other, and a row from a row. */
  lemma {:induction false} BlobsCloseIff(a: Blob, b: Blob, margin: nat)
    requires a.w >= 1 && a.h >= 1 && b.w >= 1 && b.h >= 1
    ensures Close(BoxOf(a), BoxOf(b), margin) <==>
              && (exists p, q :: a.x <= p < a.x + a.w && b.x <= q < b.x + b.w && Near(p, q, margin))
              && (exists p, q :: a.y <= p < a.y + a.h && b.y <= q < b.y + b.h && Near(p, q, margin))
  {
    hide Close, Near;
    CloseIff(BoxOf(a), BoxOf(b), margin);
  }

  predicate Inside(a: Box, b: Box) {
    b.x1 <= a.x1 && a.x2 <= b.x2 && b.y1 <= a.y1 && a.y2 <= b.y2
  }

  function Join(a: Box, b: Box): Box {
    Box(if a.x1 < b.x1 then a.x1 else b.x1, if a.y1 < b.y1 then a.y1 else b.y1,
        if a.x2 > b.x2 then a.x2 else b.x2, if a.y2 > b.y2 then a.y2 else b.y2)
  }

  /** Larger boxes are closer: the reason why merging never has to be undone. */
  lemma {:induction false} CloseMonotone(a: Box, b: Box, a': Box, b': Box, margin: nat)
    requires Proper(a) && Proper(b) && Close(a, b, margin) && Inside(a, a') && Inside(b, b')
    ensures Close(a', b', margin)
  {
  }

  // ---- Groups of input blobs ----

  ghost predicate Indices(g: set<nat>, n: nat) {
    g != {} && forall i :: i in g ==> i < n
  }

  /** `p` is the bounding box of the boxes in the group. */
  ghost predicate IsHull(input: seq<Blob>, g: set<nat>, p: Box)
    requires Indices(g, |input|)
  {
    && (forall i :: i in g ==> Inside(BoxOf(input[i]), p))
    && (exists i :: i in g && BoxOf(input[i]).x1 == p.x1)
    && (exists i :: i in g && BoxOf(input[i]).y1 == p.y1)
    && (exists i :: i in g && BoxOf(input[i]).x2 == p.x2)
    && (exists i :: i in g && BoxOf(input[i]).y2 == p.y2)
  }

  ghost predicate IsPartition(n: nat, groups: seq<set<nat>>) {
    && (forall k :: 0 <= k < |groups| ==> Indices(groups[k], n))
    && (forall j, k :: 0 <= j < k < |groups| ==> groups[j] !! groups[k])
    && (forall i: nat :: i < n ==> InSome(groups, i))
  }

  ghost predicate InSome(groups: seq<set<nat>>, i: nat) {
    exists k :: 0 <= k < |groups| && i in groups[k]
  }

  /** No two groups have bounding boxes within the margin. */
  ghost predicate Separated(input: seq<Blob>, groups: seq<set<nat>>, margin: nat)
    requires IsPartition(|input|, groups)
  {
    forall j, k, p, q ::
      (0 <= j < |groups| && 0 <= k < |groups| && j != k && IsHull(input, groups[j], p) && IsHull(input, groups[k], q))
      ==> !Close(p, q, margin)
  }

  ghost predicate WithinSome(g: set<nat>, groups: seq<set<nat>>) {
    exists k :: 0 <= k < |groups| && g <= groups[k]
  }

  ghost predicate Refines(groups: seq<set<nat>>, other: seq<set<nat>>) {
    forall k :: 0 <= k < |groups| ==> WithinSome(groups[k], other)
  }

  ghost predicate SeparatedPartition(input: seq<Blob>, groups: seq<set<nat>>, margin: nat) {
    IsPartition(|input|, groups) && Separated(input, groups, margin)
  }

  /** Every group lies inside a group of every separated partition: the grouping is forced. */
  ghost predicate Forced(input: seq<Blob>, groups: seq<set<nat>>, margin: nat) {
    forall other :: SeparatedPartition(input, other, margin) ==> Refines(groups, other)
  }

  /** The finest partition with no two groups close. */
  ghost predicate FinestSeparated(input: seq<Blob>, groups: seq<set<nat>>, margin: nat) {
    IsPartition(|input|, groups) && Separated(input, groups, margin) && Forced(input, groups, margin)
  }

  function Areas(input: seq<Blob>): seq<nat> { seq(|input|, i requires 0 <= i < |input| => input[i].area) }

  function Intensities(input: seq<Blob>): seq<nat> { seq(|input|, i requires 0 <= i < |input| => input[i].intensitySum) }

  /** `b` is the union of the blobs of a group: tight box, sums, and the score of the sums. */
  ghost predicate Merges(input: seq<Blob>, g: set<nat>, b: Blob) {
    && Indices(g, |input|)
    && b.w >= 1 && b.h >= 1 && IsHull(input, g, BoxOf(b))
    && b.area == SumOver(Areas(input), g)
    && b.intensitySum == SumOver(Intensities(input), g)
    && Scored(b)
  }

  /** A merged blob is the least rectangle around the blobs of its group, and its score is their mean. */
  lemma {:induction false} MergedRectangle(input: seq<Blob>, g: set<nat>, b: Blob)
    requires Merges(input, g, b)
    ensures forall i :: i in g ==> i < |input|
    ensures forall i :: i in g ==>
              && b.x <= input[i].x && input[i].x + input[i].w <= b.x + b.w
              && b.y <= input[i].y && input[i].y + input[i].h <= b.y + b.h
    ensures exists i :: i in g && input[i].x == b.x
    ensures exists i :: i in g && input[i].y == b.y
    ensures exists i :: i in g && input[i].x + input[i].w == b.x + b.w
    ensures exists i :: i in g && input[i].y + input[i].h == b.y + b.h
    ensures b.area > 0 ==> b.score * (b.area as real * 255.0) == b.intensitySum as real
  {
    hide SumOver;
    assert forall i :: i in g ==> Inside(BoxOf(input[i]), BoxOf(b));
    var i0 :| i0 in g && BoxOf(input[i0]).x1 == BoxOf(b).x1;
    var i1 :| i1 in g && BoxOf(input[i1]).y1 == BoxOf(b).y1;
    var i2 :| i2 in g && BoxOf(input[i2]).x2 == BoxOf(b).x2;
    var i3 :| i3 in g && BoxOf(input[i3]).y2 == BoxOf(b).y2;
    assert input[i0].x == b.x && input[i1].y == b.y;
    assert input[i2].x + input[i2].w == b.x + b.w && input[i3].y + input[i3].h == b.y + b.h;
  }

  /** Every group has a bounding box. */
  lemma {:induction false} HullExists(input: seq<Blob>, g: set<nat>) returns (p: Box)
    requires Indices(g, |input|)
    ensures IsHull(input, g, p)
    decreases |g|
  {
    var i :| i in g;
    if g == {i} {
      p := BoxOf(input[i]);
    } else {
      var rest := g - {i};
      assert g == {i} + rest;
      var q := HullExists(input, rest);
      p := Join(BoxOf(input[i]), q);
      HullUnion(input, {i}, rest, BoxOf(input[i]), q);
    }
  }

  lemma {:induction false} HullUnion(input: seq<Blob>, g: set<nat>, h: set<nat>, p: Box, q: Box)
    requires Indices(g, |input|) && Indices(h, |input|) && IsHull(input, g, p) && IsHull(input, h, q)
    ensures Indices(g + h, |input|) && IsHull(input, g + h, Join(p, q))
  {
    hide BoxOf;
    var r := Join(p, q);
    var a :| a in (if p.x1 < q.x1 then g else h) && BoxOf(input[a]).x1 == r.x1;
    var b :| b in (if p.y1 < q.y1 then g else h) && BoxOf(input[b]).y1 == r.y1;
    var c :| c in (if p.x2 > q.x2 then g else h) && BoxOf(input[c]).x2 == r.x2;
    var d :| d in (if p.y2 > q.y2 then g else h) && BoxOf(input[d]).y2 == r.y2;
    assert a in g + h && b in g + h && c in g + h && d in g + h;
  }

  /** The box of a group lies inside the box of a larger group. */
  lemma {:induction false} HullInside(input: seq<Blob>, g: set<nat>, h: set<nat>, p: Box, q: Box)
    requires Indices(g, |input|) && Indices(h, |input|) && g <= h && IsHull(input, g, p) && IsHull(input, h, q)
    ensures Inside(p, q)
  {
    hide BoxOf;
    var a :| a in g && BoxOf(input[a]).x1 == p.x1;
    var b :| b in g && BoxOf(input[b]).y1 == p.y1;
    var c :| c in g && BoxOf(input[c]).x2 == p.x2;
    var d :| d in g && BoxOf(input[d]).y2 == p.y2;
    assert a in h && b in h && c in h && d in h;
  }

  /** Close groups stay together in every separated partition. */
  lemma {:induction false} CloseForced(input: seq<Blob>, g: set<nat>, h: set<nat>, p: Box, q: Box, margin: nat, other: seq<set<nat>>)
    requires Indices(g, |input|) && Indices(h, |input|) && IsHull(input, g, p) && IsHull(input, h, q)
    requires Proper(p) && Proper(q) && Close(p, q, margin)
    requires IsPartition(|input|, other) && Separated(input, other, margin)
    requires WithinSome(g, other) && WithinSome(h, other)
    ensures WithinSome(g + h, other)
  {
    var j :| 0 <= j < |other| && g <= other[j];
    var k :| 0 <= k < |other| && h <= other[k];
    if j != k {
      var p' := HullExists(input, other[j]);
      var q' := HullExists(input, other[k]);
      HullInside(input, g, other[j], p, p');
      HullInside(input, h, other[k], q, q');
      CloseMonotone(p, q, p', q', margin);
      assert false;
    } else {
      assert g + h <= other[j];
    }
  }

  // ---- One merge ----

  /** Joining entry `j` into entry `i` and moving the last entry into the gap. */
  ghost function Absorbed<T>(s: seq<T>, i: nat, j: nat, merged: T): (r: seq<T>)
    requires i < j < |s|
    ensures |r| == |s| - 1
    ensures forall k :: 0 <= k < |r| ==> r[k] == if k == i then merged else if k == j then s[|s| - 1] else s[k]
  {
    s[i := merged][j := s[|s| - 1]][..|s| - 1]
  }

  lemma {:induction false} PartitionMerged(n: nat, groups: seq<set<nat>>, i: nat, j: nat)
    requires IsPartition(n, groups) && i < j < |groups|
    ensures IsPartition(n, Absorbed(groups, i, j, groups[i] + groups[j]))
  {
    var r := Absorbed(groups, i, j, groups[i] + groups[j]);
    var last := |groups| - 1;
    forall x: nat | x < n
      ensures InSome(r, x)
    {
      assert InSome(groups, x);
      var k :| 0 <= k < |groups| && x in groups[k];
      assert x in r[if k == j then i else if k == last then j else k];
    }
  }

  lemma {:induction false} ForcedMerged(input: seq<Blob>, groups: seq<set<nat>>, margin: nat, i: nat, j: nat, p: Box, q: Box)
    requires Forced(input, groups, margin) && IsPartition(|input|, groups) && i < j < |groups|
    requires IsHull(input, groups[i], p) && IsHull(input, groups[j], q) && Proper(p) && Proper(q) && Close(p, q, margin)
    ensures Forced(input, Absorbed(groups, i, j, groups[i] + groups[j]), margin)
  {
    hide IsHull, Close, WithinSome;
    var r := Absorbed(groups, i, j, groups[i] + groups[j]);
    forall other | SeparatedPartition(input, other, margin)
      ensures Refines(r, other)
    {
      hide IsPartition, Separated;
      assert Refines(groups, other);
      assert WithinSome(groups[i], other) && WithinSome(groups[j], other);
      CloseForced(input, groups[i], groups[j], p, q, margin, other);
    }
  }

  lemma {:induction false} SumDisjoint(v: seq<nat>, g: set<nat>, h: set<nat>)
    requires g !! h
    ensures SumOver(v, g + h) == SumOver(v, g) + SumOver(v, h)
    decreases |v|
  {
    if v != [] {
      SumDisjoint(v[..|v| - 1], g, h);
    }
  }

  /** The blob the code builds when it joins two. */
  function Joined(a: Blob, b: Blob): Blob
    requires a.w >= 1 && a.h >= 1 && b.w >= 1 && b.h >= 1
  {
    var u := Join(BoxOf(a), BoxOf(b));
    Blob(u.x1, u.y1, u.x2 - u.x1 + 1, u.y2 - u.y1 + 1, a.area + b.area, a.intensitySum + b.intensitySum,
         Score(a.intensitySum + b.intensitySum, a.area + b.area))
  }

  lemma {:induction false} JoinedMerges(input: seq<Blob>, g: set<nat>, h: set<nat>, a: Blob, b: Blob)
    requires Merges(input, g, a) && Merges(input, h, b) && g !! h
    ensures Merges(input, g + h, Joined(a, b))
  {
    ScoreIsMean(Joined(a, b));
    hide IsHull, SumOver, Score, Scored;
    HullUnion(input, g, h, BoxOf(a), BoxOf(b));
    SumDisjoint(Areas(input), g, h);
    SumDisjoint(Intensities(input), g, h);
    assert BoxOf(Joined(a, b)) == Join(BoxOf(a), BoxOf(b));
  }

  /** The state of the closure: a partition into groups that are forced together, each blob the union of its group. */
  ghost predicate Grouped(input: seq<Blob>, blobs: seq<Blob>, groups: seq<set<nat>>, margin: nat) {
    && |blobs| == |groups|
    && IsPartition(|input|, groups) && Forced(input, groups, margin)
    && (forall k :: 0 <= k < |blobs| ==> Merges(input, groups[k], blobs[k]))
  }

  lemma {:induction false} GroupFacts(input: seq<Blob>, blobs: seq<Blob>, groups: seq<set<nat>>, margin: nat, k: nat)
    requires Grouped(input, blobs, groups, margin) && k < |blobs|
    ensures |groups| == |blobs| && Merges(input, groups[k], blobs[k])
    ensures Indices(groups[k], |input|) && IsHull(input, groups[k], BoxOf(blobs[k])) && Proper(BoxOf(blobs[k]))
    ensures blobs[k].w >= 1 && blobs[k].h >= 1
  {
    hide IsHull, Forced, IsPartition;
    assert Merges(input, groups[k], blobs[k]);
  }

  lemma {:induction false} GroupsApart(n: nat, groups: seq<set<nat>>, i: nat, j: nat)
    requires IsPartition(n, groups) && i < j < |groups|
    ensures groups[i] !! groups[j]
  {
  }

  lemma {:induction false} MergeStep(input: seq<Blob>, blobs: seq<Blob>, groups: seq<set<nat>>, margin: nat, i: nat, j: nat)
    requires Grouped(input, blobs, groups, margin) && i < j < |blobs| == |groups|
    requires blobs[i].w >= 1 && blobs[i].h >= 1 && blobs[j].w >= 1 && blobs[j].h >= 1
    requires Close(BoxOf(blobs[i]), BoxOf(blobs[j]), margin)
    ensures Grouped(input, Absorbed(blobs, i, j, Joined(blobs[i], blobs[j])), Absorbed(groups, i, j, groups[i] + groups[j]), margin)
  {
    hide IsHull, IsPartition, Forced, Merges, Close, BoxOf, Joined;
    GroupFacts(input, blobs, groups, margin, i);
    GroupFacts(input, blobs, groups, margin, j);
    GroupsApart(|input|, groups, i, j);
    PartitionMerged(|input|, groups, i, j);
    JoinedMerges(input, groups[i], groups[j], blobs[i], blobs[j]);
    ForcedMerged(input, groups, margin, i, j, BoxOf(blobs[i]), BoxOf(blobs[j]));
  }

  ghost function Singletons(n: nat): (r: seq<set<nat>>)
    ensures |r| == n
  {
    seq(n, i => {i})
  }

  ghost predicate ProperBlobs(input: seq<Blob>) {
    forall i :: 0 <= i < |input| ==> input[i].w >= 1 && input[i].h >= 1 && Scored(input[i])
  }

  lemma {:induction false} SumSingleton(v: seq<nat>, i: nat)
    ensures SumOver(v, {i}) == if i < |v| then v[i] else 0
    decreases |v|
  {
    if v != [] {
      SumSingleton(v[..|v| - 1], i);
    }
  }

  /** At the start every blob is its own group. */
  lemma {:induction false} SingletonMerges(input: seq<Blob>, k: nat)
    requires ProperBlobs(input) && k < |input|
    ensures Merges(input, {k}, input[k])
  {
    hide Scored;
    SumSingleton(Areas(input), k);
    SumSingleton(Intensities(input), k);
  }

  lemma {:induction false} SingletonWithin(input: seq<Blob>, other: seq<set<nat>>, margin: nat, k: nat)
    requires SeparatedPartition(input, other, margin) && k < |input|
    ensures WithinSome({k}, other)
  {
    assert InSome(other, k);
    var m :| 0 <= m < |other| && k in other[m];
    assert {k} <= other[m];
  }

  lemma {:induction false} StartGrouped(input: seq<Blob>, margin: nat)
    requires ProperBlobs(input)
    ensures Grouped(input, input, Singletons(|input|), margin)
  {
    hide Merges, SeparatedPartition, ProperBlobs;
    var groups := Singletons(|input|);
    forall i: nat | i < |input|
      ensures InSome(groups, i)
    {
      assert i in groups[i];
    }
    forall k | 0 <= k < |input|
      ensures Merges(input, groups[k], input[k])
    {
      SingletonMerges(input, k);
    }
    forall other, k | SeparatedPartition(input, other, margin) && 0 <= k < |groups|
      ensures WithinSome(groups[k], other)
    {
      SingletonWithin(input, other, margin, k);
    }
  }

  lemma {:induction false} HullUnique(input: seq<Blob>, g: set<nat>, p: Box, q: Box)
    requires Indices(g, |input|) && IsHull(input, g, p) && IsHull(input, g, q)
    ensures p == q
  {
    HullInside(input, g, g, p, q);
    HullInside(input, g, g, q, p);
  }

  ghost predicate NoneClose(blobs: seq<Blob>, margin: nat) {
    forall j, k :: 0 <= j < k < |blobs| ==> !Close(BoxOf(blobs[j]), BoxOf(blobs[k]), margin)
  }

  lemma {:induction false} CloseSymmetric(a: Box, b: Box, margin: nat)
    requires Proper(a) && Proper(b)
    ensures Close(a, b, margin) <==> Close(b, a, margin)
  {
  }

  /** When no two blobs are close any more, the groups are the finest separated partition. */
  lemma {:induction false} DoneIsFinest(input: seq<Blob>, blobs: seq<Blob>, groups: seq<set<nat>>, margin: nat)
    requires Grouped(input, blobs, groups, margin) && NoneClose(blobs, margin)
    ensures FinestSeparated(input, groups, margin)
  {
    forall j, k, p, q | 0 <= j < |groups| && 0 <= k < |groups| && j != k
                        && IsHull(input, groups[j], p) && IsHull(input, groups[k], q)
      ensures !Close(p, q, margin)
    {
      hide IsHull, Close, BoxOf, Merges;
      GroupFacts(input, blobs, groups, margin, j);
      GroupFacts(input, blobs, groups, margin, k);
      HullUnique(input, groups[j], p, BoxOf(blobs[j]));
      HullUnique(input, groups[k], q, BoxOf(blobs[k]));
      CloseSymmetric(p, q, margin);
    }
  }

  // ---- The code ----

  /** Join blob `j` into blob `i` and move the last blob into its place. */
  method JoinInto(blobs: array<Blob>, count: nat, i: nat, j: nat)
    requires i < j < count <= blobs.Length
    requires blobs[i].w >= 1 && blobs[i].h >= 1 && blobs[j].w >= 1 && blobs[j].h >= 1
    modifies blobs
    ensures blobs[..count - 1] == Absorbed(old(blobs[..count]), i, j, Joined(old(blobs[i]), old(blobs[j])))
  {
    var a, b := blobs[i], blobs[j];
    var ux1 := if a.x < b.x then a.x else b.x;
    var uy1 := if a.y < b.y then a.y else b.y;
    var ax2, ay2, bx2, by2 := a.x + a.w - 1, a.y + a.h - 1, b.x + b.w - 1, b.y + b.h - 1;
    var ux2 := if ax2 > bx2 then ax2 else bx2;
    var uy2 := if ay2 > by2 then ay2 else by2;
    var area, intensity := a.area + b.area, a.intensitySum + b.intensitySum;
    blobs[i] := Blob(ux1, uy1, ux2 - ux1 + 1, uy2 - uy1 + 1, area, intensity, Score(intensity, area));
    blobs[j] := blobs[count - 1];
  }

  /** The pairs a pass has found not to be close: all with a first member before `i`, and `i` with those before `j`. */
  ghost predicate CheckedPairs(blobs: seq<Blob>, margin: nat, i: nat, j: nat) {
    forall a, b :: 0 <= a < b < |blobs| && (a < i || (a == i && b < j)) ==> !Close(BoxOf(blobs[a]), BoxOf(blobs[b]), margin)
  }

  /** One pass over all pairs. Without a merge it has seen every pair; with one, the count has dropped. */
  method MergePass(blobs: array<Blob>, count0: nat, margin: nat, ghost input: seq<Blob>, ghost groups0: seq<set<nat>>)
    returns (count: nat, mergedAny: bool, ghost groups: seq<set<nat>>)
    requires count0 <= blobs.Length && Grouped(input, blobs[..count0], groups0, margin)
    modifies blobs
    ensures count <= count0 && Grouped(input, blobs[..count], groups, margin)
    ensures if mergedAny then count < count0 else NoneClose(blobs[..count], margin)
  {
    hide Grouped, Close, BoxOf;
    count, mergedAny, groups := count0, false, groups0;
    var i := 0;
    while i + 1 < count
      invariant count <= count0 && Grouped(input, blobs[..count], groups, margin)
      invariant if mergedAny then count < count0 else CheckedPairs(blobs[..count], margin, i, i + 1)
    {
      count, mergedAny, groups := MergeWith(blobs, count, i, mergedAny, margin, input, groups);
      i := i + 1;
    }
  }

  /** The inner loop: compare blob `i` with all later ones, checking a moved blob again. */
  method MergeWith(blobs: array<Blob>, count0: nat, i: nat, merged0: bool, margin: nat, ghost input: seq<Blob>, ghost groups0: seq<set<nat>>)
    returns (count: nat, mergedAny: bool, ghost groups: seq<set<nat>>)
    requires i + 1 < count0 <= blobs.Length && Grouped(input, blobs[..count0], groups0, margin)
    requires !merged0 ==> CheckedPairs(blobs[..count0], margin, i, i + 1)
    modifies blobs
    ensures i < count <= count0 && Grouped(input, blobs[..count], groups, margin)
    ensures if mergedAny then merged0 || count < count0 else !merged0 && count == count0 && CheckedPairs(blobs[..count], margin, i + 1, i + 2)
  {
    hide Grouped;
    count, mergedAny, groups := count0, merged0, groups0;
    var j := i + 1;
    while j < count
      invariant i < j <= count <= count0 && Grouped(input, blobs[..count], groups, margin)
      invariant if mergedAny then merged0 || count < count0 else !merged0 && count == count0 && CheckedPairs(blobs[..count], margin, i, j)
      decreases count - j
    {
      var a, b := BoxOf(blobs[i]), BoxOf(blobs[j]);
      if Gap(a.x1, a.x2, b.x1, b.x2) <= margin && Gap(a.y1, a.y2, b.y1, b.y2) <= margin {
        assert blobs[..count][i] == blobs[i] && blobs[..count][j] == blobs[j];
        GroupFacts(input, blobs[..count], groups, margin, i);
        GroupFacts(input, blobs[..count], groups, margin, j);
        MergeStep(input, blobs[..count], groups, margin, i, j);
        groups := Absorbed(groups, i, j, groups[i] + groups[j]);
        JoinInto(blobs, count, i, j);
        count := count - 1;
        mergedAny := true;
      } else {
        j := j + 1;
      }
    }
  }

  /** Merge until a pass finds no two blobs close. */
  method MergeCloseBlobs(blobs: array<Blob>, count0: nat, margin: nat) returns (count: nat, ghost groups: seq<set<nat>>)
    requires count0 <= blobs.Length && ProperBlobs(blobs[..count0])
    modifies blobs
    ensures count <= count0 && |groups| == count
    ensures FinestSeparated(old(blobs[..count0]), groups, margin)
    ensures forall k :: 0 <= k < count ==> Merges(old(blobs[..count0]), groups[k], blobs[k])
  {
    ghost var input := blobs[..count0];
    count, groups := count0, Singletons(count0);
    StartGrouped(input, margin);
    var mergedAny := true;
    while mergedAny
      invariant count <= count0 && Grouped(input, blobs[..count], groups, margin)
      invariant !mergedAny ==> NoneClose(blobs[..count], margin)
      decreases count, mergedAny
    {
      count, mergedAny, groups := MergePass(blobs, count, margin, input, groups);
    }
    DoneIsFinest(input, blobs[..count], groups, margin);
    assert forall k :: 0 <= k < count ==> Merges(input, groups[k], blobs[..count][k]);
  }
}
