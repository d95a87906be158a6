/** Per-label statistics: the accumulator of the second pass, and what it accumulates. */
module BlobStats {
  import opened Connectivity

  datatype LabelStats = LabelStats(minX: nat, minY: nat, maxX: nat, maxY: nat, area: nat, intensity: nat)

  const EMPTY_STATS := LabelStats(0xFFFF, 0xFFFF, 0, 0, 0, 0)

  /** Adding the pixel in column `x`, row `y` with mask value `v`. */
  function Absorb(s: LabelStats, x: nat, y: nat, v: nat): LabelStats {
    LabelStats(
      if x < s.minX then x else s.minX,
      if y < s.minY then y else s.minY,
      if x > s.maxX then x else s.maxX,
      if y > s.maxY then y else s.maxY,
      s.area + 1,
      s.intensity + v)
  }

  /** The pixels whose label has root `r` in the flattened table `f`. */
  ghost function Members(l: seq<nat>, f: seq<nat>, r: nat): set<nat>
    requires forall p :: 0 <= p < |l| ==> l[p] < |f|
  {
    set p | 0 <= p < |l| && l[p] != 0 && f[l[p]] == r
  }

  /** The sum of the mask over a set of pixels. */
  ghost function SumOver(mask: seq<nat>, pixels: set<nat>): nat {
    if mask == [] then 0
    else SumOver(mask[..|mask| - 1], pixels) + if |mask| - 1 in pixels then mask[|mask| - 1] else 0
  }

  ghost predicate TightBox(w: nat, pixels: set<nat>, minX: nat, minY: nat, maxX: nat, maxY: nat)
    requires w > 0
  {
    && (forall p :: p in pixels ==> minX <= Column(w, p) <= maxX && minY <= Row(w, p) <= maxY)
    && (exists p :: p in pixels && Column(w, p) == minX)
    && (exists p :: p in pixels && Column(w, p) == maxX)
    && (exists p :: p in pixels && Row(w, p) == minY)
    && (exists p :: p in pixels && Row(w, p) == maxY)
  }

  /** The statistics of a set of pixels, stated without reference to any order of accumulation. */
  ghost predicate StatsOf(w: nat, mask: seq<nat>, pixels: set<nat>, s: LabelStats)
    requires w > 0
  {
    && s.area == |pixels|
    && s.intensity == SumOver(mask, pixels)
    && if pixels == {} then s == EMPTY_STATS else TightBox(w, pixels, s.minX, s.minY, s.maxX, s.maxY)
  }

  lemma {:induction false} SumIgnoresLater(mask: seq<nat>, pixels: set<nat>, more: set<nat>)
    requires forall p :: p in more ==> p >= |mask|
    ensures SumOver(mask, pixels + more) == SumOver(mask, pixels)
    decreases |mask|
  {
    if mask != [] {
      SumIgnoresLater(mask[..|mask| - 1], pixels, more);
    }
  }

  /** One accumulator step adds exactly one pixel. */
  lemma {:induction false} AbsorbAddsPixel(w: nat, mask: seq<nat>, pixels: set<nat>, s: LabelStats, v: nat)
    requires 0 < w <= 0xFFFF && |mask| / w <= 0xFFFF && StatsOf(w, mask, pixels, s)
    requires forall p :: p in pixels ==> p < |mask|
    ensures StatsOf(w, mask + [v], pixels + {|mask|}, Absorb(s, Column(w, |mask|), Row(w, |mask|), v))
  {
    var k := |mask|;
    var t := Absorb(s, Column(w, k), Row(w, k), v);
    var more := pixels + {k};
    assert (mask + [v])[..k] == mask;
    SumIgnoresLater(mask, pixels, {k});
    BoxGrows(w, k, pixels, s, v);
  }

  lemma {:induction false} BoxGrows(w: nat, k: nat, pixels: set<nat>, s: LabelStats, v: nat)
    requires 0 < w <= 0xFFFF && k / w <= 0xFFFF
    requires if pixels == {} then s == EMPTY_STATS else TightBox(w, pixels, s.minX, s.minY, s.maxX, s.maxY)
    ensures var t := Absorb(s, Column(w, k), Row(w, k), v);
            TightBox(w, pixels + {k}, t.minX, t.minY, t.maxX, t.maxY)
  {
    var x, y := Column(w, k), Row(w, k);
    var t := Absorb(s, x, y, v);
    var more := pixels + {k};
    assert k in more;
    if pixels != {} {
      var a :| a in pixels && Column(w, a) == s.minX;
      var b :| b in pixels && Column(w, b) == s.maxX;
      var c :| c in pixels && Row(w, c) == s.minY;
      var d :| d in pixels && Row(w, d) == s.maxY;
      assert a in more && b in more && c in more && d in more;
    }
  }

  /** A pixel of another class, or of none, changes no statistics. */
  lemma {:induction false} OthersUnchanged(w: nat, mask: seq<nat>, pixels: set<nat>, s: LabelStats, v: nat)
    requires w > 0 && StatsOf(w, mask, pixels, s)
    requires forall p :: p in pixels ==> p < |mask|
    ensures StatsOf(w, mask + [v], pixels, s)
  {
    assert (mask + [v])[..|mask|] == mask;
  }

  lemma {:induction false} MembersStep(l: seq<nat>, f: seq<nat>, r: nat, x: nat)
    requires x < |f| && forall p :: 0 <= p < |l| ==> l[p] < |f|
    ensures Members(l + [x], f, r) == Members(l, f, r) + (if x != 0 && f[x] == r then {|l|} else {})
  {
    var m := l + [x];
    forall p
      ensures p in Members(m, f, r) <==> p in Members(l, f, r) || (p == |l| && x != 0 && f[x] == r)
    {
    }
  }
}
