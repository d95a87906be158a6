/** The invariant of the first labelling pass, and why each pixel keeps it. `l` holds the labels
    of the pixels scanned so far in row-major order, `p` the forest over the labels in use. */
module Labelling {
  import opened UnionFind
  import opened Connectivity

  ghost predicate LabelsIn(l: seq<nat>, n: nat) {
    forall a :: 0 <= a < |l| ==> l[a] < n
  }

  /** Pixels with the same representative are connected. */
  ghost predicate Sound(w: nat, l: seq<nat>, p: seq<nat>)
    requires w > 0 && Forest(p) && LabelsIn(l, |p|)
  {
    forall a: nat, b: nat :: InRegion(l, a) && InRegion(l, b) && Root(p, l[a]) == Root(p, l[b]) ==> Connected(w, l, a, b)
  }

  /** Neighbouring pixels have the same representative. */
  ghost predicate Complete(w: nat, l: seq<nat>, p: seq<nat>)
    requires w > 0 && Forest(p) && LabelsIn(l, |p|)
  {
    forall a: nat, b: nat :: InRegion(l, a) && InRegion(l, b) && Adjacent(w, a, b) ==> Root(p, l[a]) == Root(p, l[b])
  }

  /** Every label in use is the label of some pixel. */
  ghost predicate AllUsed(l: seq<nat>, n: nat) {
    forall k :: 1 <= k < n ==> k in l
  }

  /** The background label shares its class with no other. */
  ghost predicate ZeroAlone(p: seq<nat>)
    requires Forest(p)
  {
    |p| > 0 && forall b :: 1 <= b < |p| ==> Root(p, b) >= 1
  }

  ghost predicate Labelled(w: nat, l: seq<nat>, p: seq<nat>)
    requires w > 0
  {
    Forest(p) && ZeroAlone(p) && LabelsIn(l, |p|) && Sound(w, l, p) && Complete(w, l, p) && AllUsed(l, |p|)
  }

  /** What a finished labelling means: representatives name exactly the connected components. */
  lemma {:induction false} SameRootIffConnected(w: nat, l: seq<nat>, p: seq<nat>, a: nat, b: nat)
    requires w > 0 && Labelled(w, l, p) && InRegion(l, a) && InRegion(l, b)
    ensures Root(p, l[a]) == Root(p, l[b]) <==> Connected(w, l, a, b)
  {
    if Connected(w, l, a, b) {
      var path :| PathBetween(w, l, path, a, b);
      ColourAlongPath(w, l, (q: nat) => if InRegion(l, q) then Root(p, l[q]) else 0, path);
    }
  }

  // ---- One pixel at a time ----

  /** The neighbours of pixel `k` scanned before it: left in the same row, and above. */
  ghost predicate Earlier(w: nat, k: nat, a: nat)
    requires w > 0
  {
    (a + 1 == k && k % w != 0) || a + w == k
  }

  ghost predicate HasEarlier(w: nat, l: seq<nat>, k: nat)
    requires w > 0
  {
    exists a: nat :: InRegion(l, a) && Earlier(w, k, a)
  }

  /** How many labels the pixels of `l` opened. */
  ghost function Opened(w: nat, l: seq<nat>): nat
    requires w > 0
  {
    if l == [] then 0
    else
      var k := |l| - 1;
      Opened(w, l[..k]) + if l[k] != 0 && !HasEarlier(w, l[..k], k) then 1 else 0
  }

  /** Which mask pixels are labelled: all of them, except those that would open a label when
      the table of `capacity` labels (label 0 included) is full. */
  ghost predicate KeptExactly(w: nat, mask: seq<nat>, l: seq<nat>, capacity: nat)
    requires w > 0 && |l| <= |mask|
  {
    forall k :: 0 <= k < |l| ==>
      (l[k] != 0 <==> mask[k] != 0 && (HasEarlier(w, l[..k], k) || 1 + Opened(w, l[..k]) < capacity))
  }

  lemma {:induction false} OpenedGrows(w: nat, l: seq<nat>, k: nat)
    requires w > 0 && k <= |l|
    ensures Opened(w, l[..k]) <= Opened(w, l)
    decreases |l|
  {
    if k < |l| {
      OpenedGrows(w, l[..|l| - 1], k);
      assert l[..|l| - 1][..k] == l[..k];
    } else {
      assert l[..k] == l;
    }
  }

  /** While the table is not full, the labelled pixels are exactly the mask. */
  lemma {:induction false} NothingDropped(w: nat, mask: seq<nat>, l: seq<nat>, capacity: nat)
    requires w > 0 && |l| <= |mask| && KeptExactly(w, mask, l, capacity)
    requires 1 + Opened(w, l) < capacity
    ensures forall k :: 0 <= k < |l| ==> (l[k] != 0 <==> mask[k] != 0)
  {
    forall k | 0 <= k < |l|
      ensures l[k] != 0 <==> mask[k] != 0
    {
      OpenedGrows(w, l, k);
    }
  }

  ghost predicate SameSupport(l: seq<nat>, m: seq<nat>) {
    |l| == |m| && forall k :: 0 <= k < |l| ==> (l[k] != 0 <==> m[k] != 0)
  }

  lemma {:induction false} SupportDecidesEarlier(w: nat, l: seq<nat>, m: seq<nat>, k: nat)
    requires w > 0 && SameSupport(l, m)
    ensures HasEarlier(w, l, k) <==> HasEarlier(w, m, k)
  {
    assert forall a: nat :: InRegion(l, a) <==> InRegion(m, a);
  }

  lemma {:induction false} KeptPrefix(w: nat, mask: seq<nat>, l: seq<nat>, n: nat, capacity: nat)
    requires w > 0 && n <= |l| <= |mask| && KeptExactly(w, mask, l, capacity)
    ensures KeptExactly(w, mask, l[..n], capacity)
  {
    forall k | 0 <= k < n
      ensures l[..n][..k] == l[..k]
    {
    }
  }

  lemma {:induction false} SupportGrows(l: seq<nat>, m: seq<nat>)
    requires |l| == |m| > 0 && SameSupport(l[..|l| - 1], m[..|l| - 1])
    requires l[|l| - 1] != 0 <==> m[|l| - 1] != 0
    ensures SameSupport(l, m)
  {
    var n := |l| - 1;
    forall k | 0 <= k < n
      ensures l[k] != 0 <==> m[k] != 0
    {
      assert l[k] == l[..n][k] && m[k] == m[..n][k];
    }
  }

  /** The rule determines the labelled set: two rasters that obey it agree on every pixel. */
  lemma {:induction false} LabelledSetDetermined(w: nat, mask: seq<nat>, l: seq<nat>, m: seq<nat>, capacity: nat)
    requires w > 0 && |l| == |m| <= |mask|
    requires KeptExactly(w, mask, l, capacity) && KeptExactly(w, mask, m, capacity)
    ensures SameSupport(l, m) && Opened(w, l) == Opened(w, m)
    decreases |l|
  {
    if l != [] {
      var n := |l| - 1;
      var l', m' := l[..n], m[..n];
      KeptPrefix(w, mask, l, n, capacity);
      KeptPrefix(w, mask, m, n, capacity);
      LabelledSetDetermined(w, mask, l', m', capacity);
      SupportDecidesEarlier(w, l', m', n);
      SupportGrows(l, m);
    }
  }

  /** A pixel outside the region changes nothing. */
  lemma {:induction false} StepBackground(w: nat, l: seq<nat>, p: seq<nat>)
    requires w > 0 && Labelled(w, l, p)
    ensures Labelled(w, l + [0], p)
  {
    var m := l + [0];
    forall a: nat, b: nat | InRegion(m, a) && InRegion(m, b) && Root(p, m[a]) == Root(p, m[b])
      ensures Connected(w, m, a, b)
    {
      assert InRegion(l, a) && InRegion(l, b);
      ConnectedMonotone(w, l, m, a, b);
    }
    assert Complete(w, m, p) by {
      forall a: nat, b: nat | InRegion(m, a) && InRegion(m, b) && Adjacent(w, a, b)
        ensures Root(p, m[a]) == Root(p, m[b])
      {
        assert InRegion(l, a) && InRegion(l, b);
      }
    }
    UsedGrows(l, 0, |p|);
  }

  lemma {:induction false} UsedGrows(l: seq<nat>, x: nat, n: nat)
    requires AllUsed(l, n)
    ensures AllUsed(l + [x], n)
  {
    forall k | 1 <= k < n
      ensures k in l + [x]
    {
      assert k in l;
    }
  }

  /** A pixel with no labelled neighbour before it opens a new label. */
  lemma {:induction false} StepFresh(w: nat, l: seq<nat>, p: seq<nat>)
    requires w > 0 && Labelled(w, l, p) && !HasEarlier(w, l, |l|)
    ensures Labelled(w, l + [|p|], p + [|p|])
  {
    var k, m, q := |l|, l + [|p|], p + [|p|];
    forall b | 0 <= b < |q|
      ensures Forest(q) && Root(q, b) == if b == |p| then b else Root(p, b)
    {
      AppendKeepsRoot(p, b);
    }
    forall a: nat, b: nat | InRegion(m, a) && InRegion(m, b) && Root(q, m[a]) == Root(q, m[b])
      ensures Connected(w, m, a, b)
    {
      if a == k || b == k {
        assert a == b;
        ConnectedReflexive(w, m, a);
      } else {
        assert InRegion(l, a) && InRegion(l, b);
        ConnectedMonotone(w, l, m, a, b);
      }
    }
    assert Complete(w, m, q) by {
      forall a: nat, b: nat | InRegion(m, a) && InRegion(m, b) && Adjacent(w, a, b)
        ensures Root(q, m[a]) == Root(q, m[b])
      {
        FreshHasNoNeighbour(w, l, m, a, b);
        assert InRegion(l, a) && InRegion(l, b);
      }
    }
    UsedGrows(l, |p|, |p|);
  }

  lemma {:induction false} FreshHasNoNeighbour(w: nat, l: seq<nat>, m: seq<nat>, a: nat, b: nat)
    requires w > 0 && !HasEarlier(w, l, |l|) && |m| == |l| + 1 && m[..|l|] == l
    requires InRegion(m, a) && InRegion(m, b) && Adjacent(w, a, b)
    ensures a < |l| && b < |l|
  {
    var k := |l|;
    if a == k {
      AdjacentFlat(w, b, a);
      assert b < k ==> InRegion(l, b);
    } else if b == k {
      AdjacentFlat(w, a, b);
      assert InRegion(l, a);
    }
  }

  /** A pixel with labelled neighbours before it: `u` and `v` are all of them (the same pixel
      twice when there is one), their classes have been joined, and the pixel takes one of their labels. */
  lemma {:induction false} StepJoin(w: nat, l: seq<nat>, p: seq<nat>, q: seq<nat>, u: nat, v: nat, x: nat)
    requires w > 0 && Labelled(w, l, p) && Forest(q)
    requires InRegion(l, u) && InRegion(l, v) && Earlier(w, |l|, u) && Earlier(w, |l|, v)
    requires forall a: nat :: InRegion(l, a) && Earlier(w, |l|, a) ==> a == u || a == v
    requires Joined(p, q, Root(p, l[u]), Root(p, l[v]))
    requires x == l[u] || x == l[v]
    ensures Labelled(w, l + [x], q)
  {
    var m := l + [x];
    JoinIsSound(w, l, p, q, u, v, x);
    JoinIsComplete(w, l, p, q, u, v, x);
    UsedGrows(l, x, |p|);
  }

  lemma {:induction false} JoinIsComplete(w: nat, l: seq<nat>, p: seq<nat>, q: seq<nat>, u: nat, v: nat, x: nat)
    requires w > 0 && Labelled(w, l, p) && Forest(q)
    requires InRegion(l, u) && InRegion(l, v) && Earlier(w, |l|, u) && Earlier(w, |l|, v)
    requires forall a: nat :: InRegion(l, a) && Earlier(w, |l|, a) ==> a == u || a == v
    requires Joined(p, q, Root(p, l[u]), Root(p, l[v]))
    requires x == l[u] || x == l[v]
    ensures Complete(w, l + [x], q)
  {
    var k, m := |l|, l + [x];
    forall a: nat, b: nat | InRegion(m, a) && InRegion(m, b) && Adjacent(w, a, b)
      ensures Root(q, m[a]) == Root(q, m[b])
    {
      if a < k && b < k {
        assert InRegion(l, a) && InRegion(l, b);
      } else if a < k {
        AdjacentFlat(w, a, b);
        assert InRegion(l, a);
      } else if b < k {
        AdjacentFlat(w, b, a);
        assert InRegion(l, b);
      }
    }
  }

  /** The new pixel connects its earlier neighbours. */
  lemma {:induction false} NewPixelLinks(w: nat, l: seq<nat>, x: nat, u: nat)
    requires w > 0 && x != 0 && InRegion(l, u) && Earlier(w, |l|, u)
    ensures Connected(w, l + [x], u, |l|) && Connected(w, l + [x], |l|, u)
  {
    AdjacentFlat(w, u, |l|);
    AdjacentConnected(w, l + [x], u, |l|);
  }

  lemma {:induction false} JoinIsSound(w: nat, l: seq<nat>, p: seq<nat>, q: seq<nat>, u: nat, v: nat, x: nat)
    requires w > 0 && Labelled(w, l, p) && Forest(q)
    requires InRegion(l, u) && InRegion(l, v) && Earlier(w, |l|, u) && Earlier(w, |l|, v)
    requires Joined(p, q, Root(p, l[u]), Root(p, l[v]))
    requires x == l[u] || x == l[v]
    ensures LabelsIn(l + [x], |q|) && Sound(w, l + [x], q)
  {
    var m := l + [x];
    forall a: nat, b: nat | InRegion(m, a) && InRegion(m, b) && Root(q, m[a]) == Root(q, m[b])
      ensures Connected(w, m, a, b)
    {
      if a < |l| && b < |l| && Root(p, l[a]) == Root(p, l[b]) {
        assert InRegion(l, a) && InRegion(l, b);
        ConnectedMonotone(w, l, m, a, b);
      } else {
        // the two classes met at the new pixel
        ReachesNew(w, l, p, u, v, x, a);
        ReachesNew(w, l, p, u, v, x, b);
        ConnectedSymmetric(w, m, b, |l|);
        ConnectedTransitive(w, m, a, |l|, b);
      }
    }
  }

  lemma {:induction false} ReachesNew(w: nat, l: seq<nat>, p: seq<nat>, u: nat, v: nat, x: nat, a: nat)
    requires w > 0 && Labelled(w, l, p)
    requires InRegion(l, u) && InRegion(l, v) && Earlier(w, |l|, u) && Earlier(w, |l|, v)
    requires x == l[u] || x == l[v]
    requires InRegion(l + [x], a)
    requires a < |l| ==> Root(p, l[a]) == Root(p, l[u]) || Root(p, l[a]) == Root(p, l[v])
    ensures Connected(w, l + [x], a, |l|)
  {
    var m := l + [x];
    if a == |l| {
      ConnectedReflexive(w, m, a);
    } else {
      assert InRegion(l, a);
      var n := if Root(p, l[a]) == Root(p, l[u]) then u else v;
      NewPixelLinks(w, l, x, n);
      ConnectedMonotone(w, l, m, a, n);
      ConnectedTransitive(w, m, a, n, |l|);
    }
  }
}
