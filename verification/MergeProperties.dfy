/** What the finest separated grouping gives: it is unique, it does not depend on the order of the
    blobs, and nothing is lost in it. */
module MergeProperties {
  import opened TopBlobs
  import opened BlobStats
  import opened BlobMerge

  lemma {:induction false} NestedIsSame(n: nat, groups: seq<set<nat>>, k: nat, m: nat)
    requires IsPartition(n, groups) && k < |groups| && m < |groups| && groups[k] <= groups[m]
    ensures k == m
  {
    assert Indices(groups[k], n);
    var i :| i in groups[k];
    assert i in groups[m];
  }

  lemma {:induction false} ForcedInto(input: seq<Blob>, a: seq<set<nat>>, b: seq<set<nat>>, margin: nat, k: nat) returns (m: nat)
    requires FinestSeparated(input, a, margin) && FinestSeparated(input, b, margin) && k < |a|
    ensures m < |b| && a[k] <= b[m]
  {
    hide IsPartition, Separated;
    assert SeparatedPartition(input, b, margin);
    assert Refines(a, b);
    hide Forced, SeparatedPartition;
    assert WithinSome(a[k], b);
    m :| m < |b| && a[k] <= b[m];
  }

  /** A group of one finest grouping is a group of any other. */
  lemma {:induction false} FinestUnique(input: seq<Blob>, a: seq<set<nat>>, b: seq<set<nat>>, margin: nat, k: nat)
    requires FinestSeparated(input, a, margin) && FinestSeparated(input, b, margin) && k < |a|
    ensures a[k] in b
  {
    hide IsPartition, Separated, Forced;
    var m := ForcedInto(input, a, b, margin, k);
    var k' := ForcedInto(input, b, a, margin, m);
    NestedIsSame(|input|, a, k, k');
    assert a[k] == b[m];
  }

  // ---- Order independence ----

  /** `s` and `t` are inverse permutations of the first `n` numbers. */
  ghost predicate Inverse(s: seq<nat>, t: seq<nat>, n: nat) {
    && |s| == |t| == n
    && (forall i :: 0 <= i < n ==> s[i] < n && t[s[i]] == i)
    && (forall i :: 0 <= i < n ==> t[i] < n && s[t[i]] == i)
  }

  /** `input'` lists the blobs of `input` in the order `s`. */
  ghost predicate Reordered(input: seq<Blob>, input': seq<Blob>, s: seq<nat>) {
    |input| == |input'| == |s| && forall i :: 0 <= i < |s| ==> s[i] < |input| && input'[i] == input[s[i]]
  }

  ghost function Image(s: seq<nat>, g: set<nat>): set<nat>
    requires Indices(g, |s|)
  {
    set i | i in g :: s[i]
  }

  ghost function ImageAll(s: seq<nat>, groups: seq<set<nat>>): (r: seq<set<nat>>)
    requires forall k :: 0 <= k < |groups| ==> Indices(groups[k], |s|)
    ensures |r| == |groups| && forall k :: 0 <= k < |groups| ==> r[k] == Image(s, groups[k])
  {
    seq(|groups|, k requires 0 <= k < |groups| => Image(s, groups[k]))
  }

  lemma {:induction false} ImageIndices(s: seq<nat>, t: seq<nat>, n: nat, g: set<nat>)
    requires Inverse(s, t, n) && Indices(g, n)
    ensures Indices(Image(s, g), n)
  {
    var i :| i in g;
    assert s[i] in Image(s, g);
  }

  /** A group and its image have the same bounding boxes. */
  lemma {:induction false} HullOfImage(input: seq<Blob>, input': seq<Blob>, s: seq<nat>, t: seq<nat>, g: set<nat>, p: Box)
    requires Reordered(input, input', s) && Inverse(s, t, |s|) && Indices(g, |s|)
    ensures Indices(Image(s, g), |input|)
    ensures IsHull(input', g, p) <==> IsHull(input, Image(s, g), p)
  {
    ImageIndices(s, t, |s|, g);
    hide BoxOf, Inside;
    var h := Image(s, g);
    assert forall i :: i in g ==> s[i] in h && input[s[i]] == input'[i];
    assert forall i :: i in h ==> t[i] in g && input'[t[i]] == input[i];
  }

  lemma {:induction false} PartitionOfImage(s: seq<nat>, t: seq<nat>, n: nat, groups: seq<set<nat>>)
    requires Inverse(s, t, n) && IsPartition(n, groups)
    ensures IsPartition(n, ImageAll(s, groups))
  {
    var r := ImageAll(s, groups);
    forall k | 0 <= k < |r|
      ensures Indices(r[k], n)
    {
      ImageIndices(s, t, n, groups[k]);
    }
    forall i: nat | i < n
      ensures InSome(r, i)
    {
      assert InSome(groups, t[i]);
      var k :| 0 <= k < |groups| && t[i] in groups[k];
      assert i in r[k];
    }
    forall j, k | 0 <= j < k < |r|
      ensures r[j] !! r[k]
    {
      assert groups[j] !! groups[k];
      forall x | x in r[j]
        ensures x !in r[k]
      {
        assert t[x] in groups[j];
      }
    }
  }

  lemma {:induction false} SeparatedImage(input: seq<Blob>, input': seq<Blob>, s: seq<nat>, t: seq<nat>, groups: seq<set<nat>>, margin: nat)
    requires Reordered(input, input', s) && Inverse(s, t, |s|)
    requires IsPartition(|input'|, groups) && Separated(input', groups, margin)
    ensures IsPartition(|input|, ImageAll(s, groups)) && Separated(input, ImageAll(s, groups), margin)
  {
    PartitionOfImage(s, t, |s|, groups);
    var r := ImageAll(s, groups);
    forall j, k, p, q | 0 <= j < |r| && 0 <= k < |r| && j != k && IsHull(input, r[j], p) && IsHull(input, r[k], q)
      ensures !Close(p, q, margin)
    {
      hide IsHull, Close, Image;
      HullOfImage(input, input', s, t, groups[j], p);
      HullOfImage(input, input', s, t, groups[k], q);
    }
  }

  lemma {:induction false} ReorderedBack(input: seq<Blob>, input': seq<Blob>, s: seq<nat>, t: seq<nat>)
    requires Reordered(input, input', s) && Inverse(s, t, |s|)
    ensures Reordered(input', input, t) && Inverse(t, s, |t|)
  {
  }

  lemma {:induction false} WithinImage(s: seq<nat>, t: seq<nat>, n: nat, g: set<nat>, other: seq<set<nat>>)
    requires Inverse(s, t, n) && Indices(g, n) && (forall k :: 0 <= k < |other| ==> Indices(other[k], n))
    requires WithinSome(g, ImageAll(t, other))
    ensures WithinSome(Image(s, g), other)
  {
    var m :| 0 <= m < |other| && g <= Image(t, other[m]);
    forall x | x in Image(s, g)
      ensures x in other[m]
    {
      assert t[x] in g;
      assert t[x] in Image(t, other[m]);
    }
    assert Image(s, g) <= other[m];
  }

  /** Carried over to the original order, a finest grouping of the reordered blobs is a finest
      grouping of the blobs. */
  lemma {:induction false} FinestOfImage(input: seq<Blob>, input': seq<Blob>, s: seq<nat>, t: seq<nat>, groups: seq<set<nat>>, margin: nat)
    requires Reordered(input, input', s) && Inverse(s, t, |s|) && FinestSeparated(input', groups, margin)
    ensures (forall k :: 0 <= k < |groups| ==> Indices(groups[k], |s|))
    ensures FinestSeparated(input, ImageAll(s, groups), margin)
  {
    SeparatedImage(input, input', s, t, groups, margin);
    ReorderedBack(input, input', s, t);
    var r := ImageAll(s, groups);
    forall other, k | SeparatedPartition(input, other, margin) && 0 <= k < |r|
      ensures WithinSome(r[k], other)
    {
      hide Image;
      SeparatedImage(input', input, t, s, other, margin);
      assert SeparatedPartition(input', ImageAll(t, other), margin);
      assert WithinSome(groups[k], ImageAll(t, other));
      WithinImage(s, t, |s|, groups[k], other);
    }
  }

  // ---- The merged blobs ----

  lemma {:induction false} ImageWithout(s: seq<nat>, t: seq<nat>, n: nat, g: set<nat>, x: nat)
    requires Inverse(s, t, n) && (forall i :: i in g ==> i < n) && x in g
    ensures var h := set i | i in g :: s[i];
            var h' := set i | i in g - {x} :: s[i];
            h == {s[x]} + h' && {s[x]} !! h'
  {
    var h := set i | i in g :: s[i];
    var h' := set i | i in g - {x} :: s[i];
    forall y | y in h ensures y in {s[x]} + h' {
      var i :| i in g && s[i] == y;
      if i != x {
        assert i in g - {x};
      }
    }
    forall i | i in g - {x} ensures s[i] != s[x] {
      assert t[s[i]] == i && t[s[x]] == x;
    }
  }

  /** A sum over a group is the sum of the original values over its image. */
  lemma {:induction false} SumOfImage(v: seq<nat>, v': seq<nat>, s: seq<nat>, t: seq<nat>, g: set<nat>)
    requires |v| == |v'| && Inverse(s, t, |v|) && (forall i :: i in g ==> i < |v|)
    requires forall i :: 0 <= i < |v| ==> v'[i] == v[s[i]]
    ensures SumOver(v', g) == SumOver(v, set i | i in g :: s[i])
    decreases |g|
  {
    hide SumOver;
    var h := set i | i in g :: s[i];
    if g == {} {
      EmptySum(v);
      EmptySum(v');
      assert h == {};
    } else {
      var x :| x in g;
      var rest := g - {x};
      SumOfImage(v, v', s, t, rest);
      ImageWithout(s, t, |v|, g, x);
      assert g == {x} + rest;
      SumDisjoint(v', {x}, rest);
      SumDisjoint(v, {s[x]}, set i | i in rest :: s[i]);
      SumSingleton(v', x);
      SumSingleton(v, s[x]);
    }
  }

  /** A blob that merges a group of the reordered blobs merges the same blobs of the original. */
  lemma {:induction false} MergesOfImage(input: seq<Blob>, input': seq<Blob>, s: seq<nat>, t: seq<nat>, g: set<nat>, b: Blob)
    requires Reordered(input, input', s) && Inverse(s, t, |s|) && Indices(g, |s|) && Merges(input', g, b)
    ensures Merges(input, Image(s, g), b)
  {
    hide IsHull, SumOver;
    HullOfImage(input, input', s, t, g, BoxOf(b));
    SumOfImage(Areas(input), Areas(input'), s, t, g);
    SumOfImage(Intensities(input), Intensities(input'), s, t, g);
  }

  /** A group is merged into one blob only. */
  lemma {:induction false} MergesUnique(input: seq<Blob>, g: set<nat>, b: Blob, c: Blob)
    requires Merges(input, g, b) && Merges(input, g, c)
    ensures b == c
  {
    hide IsHull, SumOver;
    HullUnique(input, g, BoxOf(b), BoxOf(c));
    ScoredUnique(b, c);
    hide Scored;
  }

  /** The result does not depend on the order in which the blobs are listed: after renaming, the
      groups are the same sets, both ways, and equal groups are merged into equal blobs. */
  lemma {:induction false} OrderIndependent(input: seq<Blob>, input': seq<Blob>, s: seq<nat>, t: seq<nat>,
                                            groups: seq<set<nat>>, groups': seq<set<nat>>,
                                            blobs: seq<Blob>, blobs': seq<Blob>, margin: nat)
    requires Reordered(input, input', s) && Inverse(s, t, |s|)
    requires FinestSeparated(input, groups, margin) && FinestSeparated(input', groups', margin)
    requires |blobs| == |groups| && forall k :: 0 <= k < |blobs| ==> Merges(input, groups[k], blobs[k])
    requires |blobs'| == |groups'| && forall k :: 0 <= k < |blobs'| ==> Merges(input', groups'[k], blobs'[k])
    ensures (forall k :: 0 <= k < |groups'| ==> Indices(groups'[k], |s|) && Image(s, groups'[k]) in groups)
    ensures forall g :: g in groups ==> g in ImageAll(s, groups')
    ensures forall k, m :: 0 <= k < |groups| && 0 <= m < |groups'| && groups[k] == Image(s, groups'[m]) ==> blobs[k] == blobs'[m]
  {
    hide FinestSeparated, Image, Inverse, Reordered, Indices, Merges;
    FinestOfImage(input, input', s, t, groups', margin);
    var r := ImageAll(s, groups');
    forall k | 0 <= k < |groups'|
      ensures Indices(groups'[k], |s|) && Image(s, groups'[k]) in groups
    {
      FinestUnique(input, r, groups, margin, k);
    }
    forall g | g in groups
      ensures g in r
    {
      var k :| 0 <= k < |groups| && groups[k] == g;
      FinestUnique(input, groups, r, margin, k);
    }
    forall k, m | 0 <= k < |groups| && 0 <= m < |groups'| && groups[k] == Image(s, groups'[m])
      ensures blobs[k] == blobs'[m]
    {
      MergesOfImage(input, input', s, t, groups'[m], blobs'[m]);
      MergesUnique(input, groups[k], blobs[k], blobs'[m]);
    }
  }

  // ---- Conservation ----

  ghost function Total(v: seq<nat>): nat {
    if v == [] then 0 else Total(v[..|v| - 1]) + v[|v| - 1]
  }

  ghost function UnionTo(groups: seq<set<nat>>, n: nat): set<nat>
    requires n <= |groups|
  {
    if n == 0 then {} else UnionTo(groups, n - 1) + groups[n - 1]
  }

  lemma {:induction false} InUnionTo(groups: seq<set<nat>>, n: nat, i: nat)
    requires n <= |groups|
    ensures i in UnionTo(groups, n) <==> exists k :: 0 <= k < n && i in groups[k]
    decreases n
  {
    if n > 0 {
      InUnionTo(groups, n - 1, i);
    }
  }

  lemma {:induction false} UnionApart(groups: seq<set<nat>>, n: nat)
    requires n < |groups| && (forall j, k :: 0 <= j < k < |groups| ==> groups[j] !! groups[k])
    ensures UnionTo(groups, n) !! groups[n]
  {
    forall i: nat
      ensures i in UnionTo(groups, n) ==> i !in groups[n]
    {
      InUnionTo(groups, n, i);
    }
  }

  lemma {:induction false} SumOverAll(v: seq<nat>, g: set<nat>)
    requires forall i: nat :: i < |v| ==> i in g
    ensures SumOver(v, g) == Total(v)
    decreases |v|
  {
    if v != [] {
      SumOverAll(v[..|v| - 1], g);
    }
  }

  /** Summing group by group is summing over the union. */
  lemma {:induction false} GroupSums(v: seq<nat>, groups: seq<set<nat>>, sums: seq<nat>, n: nat)
    requires n <= |groups| == |sums| && (forall j, k :: 0 <= j < k < |groups| ==> groups[j] !! groups[k])
    requires forall k :: 0 <= k < |groups| ==> sums[k] == SumOver(v, groups[k])
    ensures Total(sums[..n]) == SumOver(v, UnionTo(groups, n))
    decreases n
  {
    hide SumOver;
    if n == 0 {
      EmptySum(v);
    } else {
      GroupSums(v, groups, sums, n - 1);
      UnionApart(groups, n - 1);
      SumDisjoint(v, UnionTo(groups, n - 1), groups[n - 1]);
      assert sums[..n][..n - 1] == sums[..n - 1];
    }
  }

  lemma {:induction false} EmptySum(v: seq<nat>)
    ensures SumOver(v, {}) == 0
    decreases |v|
  {
    if v != [] {
      EmptySum(v[..|v| - 1]);
    }
  }

  lemma {:induction false} PartitionSums(v: seq<nat>, groups: seq<set<nat>>, sums: seq<nat>)
    requires IsPartition(|v|, groups) && |sums| == |groups|
    requires forall k :: 0 <= k < |groups| ==> sums[k] == SumOver(v, groups[k])
    ensures Total(sums) == Total(v)
  {
    GroupSums(v, groups, sums, |groups|);
    assert sums[..|groups|] == sums;
    forall i: nat | i < |v|
      ensures i in UnionTo(groups, |groups|)
    {
      assert InSome(groups, i);
      InUnionTo(groups, |groups|, i);
    }
    SumOverAll(v, UnionTo(groups, |groups|));
  }

  /** Merging conserves total area and total intensity. */
  lemma {:induction false} MergeConserves(input: seq<Blob>, groups: seq<set<nat>>, blobs: seq<Blob>, margin: nat)
    requires FinestSeparated(input, groups, margin) && |blobs| == |groups|
    requires forall k :: 0 <= k < |blobs| ==> Merges(input, groups[k], blobs[k])
    ensures Total(Areas(blobs)) == Total(Areas(input))
    ensures Total(Intensities(blobs)) == Total(Intensities(input))
  {
    hide Separated, Forced, IsHull;
    PartitionSums(Areas(input), groups, Areas(blobs));
    PartitionSums(Intensities(input), groups, Intensities(blobs));
  }
}
