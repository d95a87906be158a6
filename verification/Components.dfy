/** The connected components of a labelled raster, and the listing of their blobs by root label. */
module Components {
  import opened UnionFind
  import opened Connectivity
  import opened Labelling
  import opened BlobStats
  import opened TopBlobs

  ghost function Region(l: seq<nat>): set<nat> {
    set p | 0 <= p < |l| && l[p] != 0
  }

  /** The pixels connected to `a`. */
  ghost function ComponentOf(w: nat, l: seq<nat>, a: nat): set<nat>
    requires w > 0
  {
    set b: nat | b < |l| && Connected(w, l, a, b)
  }

  ghost predicate IsComponent(w: nat, l: seq<nat>, c: set<nat>)
    requires w > 0
  {
    exists a: nat :: InRegion(l, a) && c == ComponentOf(w, l, a)
  }

  ghost predicate Distinct<T>(s: seq<T>) {
    forall i, j :: 0 <= i < j < |s| ==> s[i] != s[j]
  }

  /** `comps` lists every connected component of the region exactly once. */
  ghost predicate Enumerates(w: nat, l: seq<nat>, comps: seq<set<nat>>)
    requires w > 0
  {
    && Distinct(comps)
    && (forall c :: c in comps <==> IsComponent(w, l, c))
  }

  /** `elig` lists the components of at least `minArea` pixels, each once. */
  ghost predicate Elects(comps: seq<set<nat>>, minArea: nat, elig: seq<set<nat>>) {
    Distinct(elig) && forall c :: c in elig <==> c in comps && |c| >= minArea
  }

  /** `b` describes the set of pixels: exact count and sum, tight bounding box, normalised score. */
  ghost predicate Describes(w: nat, mask: seq<nat>, pixels: set<nat>, b: Blob)
    requires w > 0
  {
    && pixels != {}
    && b.area == |pixels|
    && b.intensitySum == SumOver(mask, pixels)
    && b.w >= 1 && b.h >= 1
    && TightBox(w, pixels, b.x, b.y, b.x + b.w - 1, b.y + b.h - 1)
    && Scored(b)
  }

  // ---- Roots name components ----

  /** The flattened form of the forest `p`. */
  ghost predicate FlatFormOf(p: seq<nat>, f: seq<nat>)
    requires Forest(p)
  {
    |f| == |p| && forall k :: 0 <= k < |p| ==> f[k] == Root(p, k)
  }

  /** The pixels of one root are the component of any of them. */
  lemma {:induction false} MembersAreComponent(w: nat, l: seq<nat>, p: seq<nat>, f: seq<nat>, a: nat)
    requires w > 0 && Labelled(w, l, p) && FlatFormOf(p, f) && InRegion(l, a)
    ensures Members(l, f, f[l[a]]) == ComponentOf(w, l, a)
  {
    forall b: nat | b < |l|
      ensures b in Members(l, f, f[l[a]]) <==> b in ComponentOf(w, l, a)
    {
      if InRegion(l, b) {
        SameRootIffConnected(w, l, p, a, b);
      }
    }
  }

  /** Every root has a pixel, because every label was given to one. */
  lemma {:induction false} RootIsComponent(w: nat, l: seq<nat>, p: seq<nat>, f: seq<nat>, r: nat)
    requires w > 0 && Labelled(w, l, p) && FlatFormOf(p, f) && 1 <= r < |f| && f[r] == r
    ensures Members(l, f, r) != {} && IsComponent(w, l, Members(l, f, r))
  {
    assert r in l;
    var a :| 0 <= a < |l| && l[a] == r;
    assert a in Members(l, f, r);
    MembersAreComponent(w, l, p, f, a);
    assert InRegion(l, a);
  }

  /** `comps` lists, each once, the pixel sets of the roots below `n`. */
  ghost predicate ListsRoots(l: seq<nat>, f: seq<nat>, n: nat, comps: seq<set<nat>>)
    requires n <= |f| && forall q :: 0 <= q < |l| ==> l[q] < |f|
  {
    && Distinct(comps)
    && (forall c :: c in comps ==> exists r :: 1 <= r < n && f[r] == r && c == Members(l, f, r))
    && (forall r :: 1 <= r < n && f[r] == r ==> Members(l, f, r) in comps)
  }

  ghost predicate DescribesEach(w: nat, mask: seq<nat>, elig: seq<set<nat>>, offered: seq<Blob>)
    requires w > 0
  {
    |offered| == |elig| && forall i :: 0 <= i < |elig| ==> Describes(w, mask, elig[i], offered[i])
  }

  lemma {:induction false} ListSkip(l: seq<nat>, f: seq<nat>, n: nat, comps: seq<set<nat>>)
    requires n < |f| && (forall q :: 0 <= q < |l| ==> l[q] < |f|)
    requires ListsRoots(l, f, n, comps) && f[n] != n
    ensures ListsRoots(l, f, n + 1, comps)
  {
    forall c | c in comps
      ensures exists r :: 1 <= r < n + 1 && f[r] == r && c == Members(l, f, r)
    {
      var r :| 1 <= r < n && f[r] == r && c == Members(l, f, r);
    }
  }

  lemma {:induction false} NewRootIsNew(l: seq<nat>, f: seq<nat>, n: nat, comps: seq<set<nat>>)
    requires n < |f| && forall q :: 0 <= q < |l| ==> l[q] < |f|
    requires forall c :: c in comps ==> exists r :: 1 <= r < n && f[r] == r && c == Members(l, f, r)
    requires Members(l, f, n) != {}
    ensures Members(l, f, n) !in comps
  {
    var c := Members(l, f, n);
    var a :| a in c;
    forall r | 1 <= r < n
      ensures Members(l, f, r) != c
    {
      assert a !in Members(l, f, r);
    }
  }

  lemma {:induction false} AppendDistinct<T>(s: seq<T>, x: T)
    requires Distinct(s) && x !in s
    ensures Distinct(s + [x])
  {
  }

  lemma {:induction false} ElectsAppend(comps: seq<set<nat>>, minArea: nat, elig: seq<set<nat>>, c: set<nat>)
    requires Elects(comps, minArea, elig) && c !in comps
    ensures Elects(comps + [c], minArea, if |c| >= minArea then elig + [c] else elig)
  {
    if |c| >= minArea {
      AppendDistinct(elig, c);
    }
  }

  lemma {:induction false} ListAdd(l: seq<nat>, f: seq<nat>, n: nat, comps: seq<set<nat>>)
    requires 1 <= n < |f| && (forall q :: 0 <= q < |l| ==> l[q] < |f|)
    requires ListsRoots(l, f, n, comps) && f[n] == n && Members(l, f, n) != {}
    ensures Members(l, f, n) !in comps
    ensures ListsRoots(l, f, n + 1, comps + [Members(l, f, n)])
  {
    var c := Members(l, f, n);
    NewRootIsNew(l, f, n, comps);
    AppendDistinct(comps, c);
    forall d | d in comps + [c]
      ensures exists r :: 1 <= r < n + 1 && f[r] == r && d == Members(l, f, r)
    {
      if d in comps {
        var r :| 1 <= r < n && f[r] == r && d == Members(l, f, r);
      }
    }
  }

  /** When all labels have been visited, the list is the list of components. */
  lemma {:induction false} ListingEnumerates(w: nat, l: seq<nat>, p: seq<nat>, f: seq<nat>, comps: seq<set<nat>>)
    requires w > 0 && Labelled(w, l, p) && FlatFormOf(p, f) && ListsRoots(l, f, |f|, comps)
    ensures Enumerates(w, l, comps)
  {
    forall c
      ensures c in comps <==> IsComponent(w, l, c)
    {
      if c in comps {
        var r :| 1 <= r < |f| && f[r] == r && c == Members(l, f, r);
        RootIsComponent(w, l, p, f, r);
      }
      if IsComponent(w, l, c) {
        var a: nat :| InRegion(l, a) && c == ComponentOf(w, l, a);
        MembersAreComponent(w, l, p, f, a);
        var r := f[l[a]];
        assert p[r] == r && Root(p, r) == r;
        assert Root(p, l[a]) >= 1;
        assert f[r] == r;
      }
    }
  }

  // ---- Conservation ----

  ghost function TotalSize(comps: seq<set<nat>>): nat {
    if comps == [] then 0 else |comps[|comps| - 1]| + TotalSize(comps[..|comps| - 1])
  }

  ghost function UnionOf(comps: seq<set<nat>>): set<nat> {
    if comps == [] then {} else comps[|comps| - 1] + UnionOf(comps[..|comps| - 1])
  }

  lemma {:induction false} InUnion(comps: seq<set<nat>>, q: nat)
    ensures q in UnionOf(comps) <==> exists i :: 0 <= i < |comps| && q in comps[i]
    decreases |comps|
  {
    if comps != [] {
      var init := comps[..|comps| - 1];
      InUnion(init, q);
      assert forall i :: 0 <= i < |init| ==> init[i] == comps[i];
    }
  }

  lemma {:induction false} DisjointSizes(comps: seq<set<nat>>)
    requires forall i, j :: 0 <= i < j < |comps| ==> comps[i] !! comps[j]
    ensures |UnionOf(comps)| == TotalSize(comps)
    decreases |comps|
  {
    if comps != [] {
      var init, last := comps[..|comps| - 1], comps[|comps| - 1];
      DisjointSizes(init);
      forall q | q in UnionOf(init)
        ensures q !in last
      {
        InUnion(init, q);
        var i :| 0 <= i < |init| && q in init[i];
        assert comps[i] !! comps[|comps| - 1];
      }
      assert last !! UnionOf(init);
    }
  }

  lemma {:induction false} SharedPixelSameComponent(w: nat, l: seq<nat>, a: nat, b: nat, q: nat)
    requires w > 0 && q in ComponentOf(w, l, a) && q in ComponentOf(w, l, b)
    ensures ComponentOf(w, l, a) == ComponentOf(w, l, b)
  {
    ConnectedSymmetric(w, l, a, q);
    ConnectedSymmetric(w, l, b, q);
    ConnectedTransitive(w, l, a, q, b);
    ConnectedTransitive(w, l, b, q, a);
    forall c: nat | c < |l|
      ensures c in ComponentOf(w, l, a) <==> c in ComponentOf(w, l, b)
    {
      if Connected(w, l, a, c) {
        ConnectedTransitive(w, l, b, a, c);
      }
      if Connected(w, l, b, c) {
        ConnectedTransitive(w, l, a, b, c);
      }
    }
  }

  /** The areas of the components add up to the labelled pixels: nothing lost, nothing counted twice. */
  lemma {:induction false} AreasAddUp(w: nat, l: seq<nat>, comps: seq<set<nat>>)
    requires w > 0 && Enumerates(w, l, comps)
    ensures TotalSize(comps) == |Region(l)|
  {
    forall i, j | 0 <= i < j < |comps|
      ensures comps[i] !! comps[j]
    {
      assert comps[i] in comps && comps[j] in comps;
      var a: nat :| InRegion(l, a) && comps[i] == ComponentOf(w, l, a);
      var b: nat :| InRegion(l, b) && comps[j] == ComponentOf(w, l, b);
      if q :| q in comps[i] && q in comps[j] {
        SharedPixelSameComponent(w, l, a, b, q);
      }
    }
    DisjointSizes(comps);
    forall q: nat
      ensures q in UnionOf(comps) <==> q in Region(l)
    {
      InUnion(comps, q);
      CoveredByComponents(w, l, comps, q);
    }
    assert UnionOf(comps) == Region(l);
  }

  lemma {:induction false} CoveredByComponents(w: nat, l: seq<nat>, comps: seq<set<nat>>, q: nat)
    requires w > 0 && Enumerates(w, l, comps)
    ensures q in Region(l) <==> exists i :: 0 <= i < |comps| && q in comps[i]
  {
    if q in Region(l) {
      assert InRegion(l, q);
      ConnectedReflexive(w, l, q);
      assert IsComponent(w, l, ComponentOf(w, l, q));
      var i :| 0 <= i < |comps| && comps[i] == ComponentOf(w, l, q);
      assert q in comps[i];
    }
    if i :| 0 <= i < |comps| && q in comps[i] {
      assert comps[i] in comps;
      var a: nat :| InRegion(l, a) && comps[i] == ComponentOf(w, l, a);
      var path :| PathBetween(w, l, path, a, q);
      assert InRegion(l, path[|path| - 1]);
    }
  }
}
