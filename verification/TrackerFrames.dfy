/** What one frame does to each track, told from the blobs and the slots they went to. */
module TrackerFrames {
  import opened TopBlobs
  import opened Tracker

  lemma {:induction false} PlacesShape(t: Table, b: Blob, t': Table, slot: int)
    requires Shape(t) && Places(t, b, t', slot)
    ensures Shape(t') && -1 <= slot < MAX_TRACKS
    ensures t' == t || (slot >= 0 && t'.tracks == t.tracks[slot := t'.tracks[slot]])
    ensures slot >= 0 && t.tracks[slot].active ==> t'.tracks[slot] == Matched(t.tracks[slot], b) && Available(t.tracks[slot]) && t'.nextId == t.nextId
    ensures slot >= 0 && !t.tracks[slot].active ==> t'.tracks[slot] == Spawned(b, t.nextId) && t'.nextId == IdAfter(t.nextId)
    ensures slot < 0 ==> t' == t
  {
    hide MatchesAt, NoMatch, Matched, Spawned;
    if slot >= 0 && MatchesAt(t.tracks, b, slot) {
      MatchIsAvailable(t.tracks, b, slot);
    }
  }

  lemma {:induction false} MatchIsAvailable(tracks: seq<Track>, b: Blob, s: nat)
    requires MatchesAt(tracks, b, s)
    ensures s < |tracks| && Available(tracks[s])
  {
    hide DistanceSq;
  }

  // ---- Where a blob goes ----

  /** Four times the squared distance between the centre of a track and the centre of a blob's box. */
  ghost function Apart4(t: Track, b: Blob): real {
    var dx, dy := 2.0 * t.cx - (2 * b.x + b.w) as real, 2.0 * t.cy - (2 * b.y + b.h) as real;
    dx * dx + dy * dy
  }

  lemma {:induction false} DistanceIsQuarter(t: Track, b: Blob)
    ensures Apart4(t, b) == 4.0 * DistanceSq(t, b)
  {
    assert (2 * b.x + b.w) as real == 2.0 * CenterX(b);
    assert (2 * b.y + b.h) as real == 2.0 * CenterY(b);
    var dx, dy := t.cx - CenterX(b), t.cy - CenterY(b);
    assert 2.0 * t.cx - 2.0 * CenterX(b) == 2.0 * dx && 2.0 * t.cy - 2.0 * CenterY(b) == 2.0 * dy;
    assert (2.0 * dx) * (2.0 * dx) == 4.0 * (dx * dx) && (2.0 * dy) * (2.0 * dy) == 4.0 * (dy * dy);
  }

  /** A blob goes to a track at most 12 mask pixels away that no other blob of the frame has taken, to the
      nearest one and of equally near ones the first; without such a track to the first free slot; and
      nowhere exactly when there is none of either. */
  lemma {:induction false} PlacedNearest(t: Table, b: Blob, t': Table, slot: int)
    requires Shape(t) && Places(t, b, t', slot)
    ensures -1 <= slot < 6
    ensures slot >= 0 && t.tracks[slot].active ==>
              && !t.tracks[slot].matched && Apart4(t.tracks[slot], b) <= 4.0 * 144.0
              && (forall k :: 0 <= k < 6 && t.tracks[k].active && !t.tracks[k].matched ==> Apart4(t.tracks[k], b) >= Apart4(t.tracks[slot], b))
              && (forall k :: 0 <= k < slot && t.tracks[k].active && !t.tracks[k].matched ==> Apart4(t.tracks[k], b) > Apart4(t.tracks[slot], b))
    ensures slot < 0 || !t.tracks[slot].active ==>
              forall k :: 0 <= k < 6 && t.tracks[k].active && !t.tracks[k].matched ==> Apart4(t.tracks[k], b) > 4.0 * 144.0
    ensures slot >= 0 && !t.tracks[slot].active ==> forall k :: 0 <= k < slot ==> t.tracks[k].active
    ensures slot < 0 ==> forall k :: 0 <= k < 6 ==> t.tracks[k].active
  {
    hide DistanceSq, Apart4, Matched, Spawned;
    forall k | 0 <= k < 6 ensures Apart4(t.tracks[k], b) == 4.0 * DistanceSq(t.tracks[k], b) {
      DistanceIsQuarter(t.tracks[k], b);
    }
    PlacesShape(t, b, t', slot);
  }

  // ---- One-to-one matching ----

  /** After `k` blobs the flagged tracks are exactly the slots used, each once. */
  ghost predicate UsedOnce(t: Table, slots: seq<int>, k: nat)
    requires k <= |slots|
  {
    && (forall s :: 0 <= s < |t.tracks| ==> (t.tracks[s].matched <==> s in slots[..k]))
    && (forall s :: 0 <= s < |t.tracks| && t.tracks[s].matched ==> t.tracks[s].active)
    && (forall i, j :: 0 <= i < j < k && slots[i] >= 0 ==> slots[i] != slots[j])
  }

  lemma {:induction false} UsedOnceStep(t: Table, b: Blob, t': Table, slots: seq<int>, k: nat)
    requires Shape(t) && k < |slots| && UsedOnce(t, slots, k) && Places(t, b, t', slots[k])
    ensures Shape(t') && UsedOnce(t', slots, k + 1)
    ensures slots[k] !in slots[..k] || slots[k] < 0
  {
    hide Places;
    PlacesShape(t, b, t', slots[k]);
    assert slots[..k + 1] == slots[..k] + [slots[k]];
    if slots[k] >= 0 {
      assert !t.tracks[slots[k]].matched;
      assert slots[k] !in slots[..k];
      forall i | 0 <= i < k
        ensures slots[i] != slots[k]
      {
        assert slots[i] in slots[..k];
      }
    }
  }

  lemma {:induction false} AllUsedOnce(placed: seq<Table>, blobs: seq<Blob>, slots: seq<int>, k: nat)
    requires PlacesAll(placed, blobs, slots) && Shape(placed[0]) && k <= |blobs|
    requires forall s :: 0 <= s < MAX_TRACKS ==> !placed[0].tracks[s].matched
    ensures Shape(placed[k]) && UsedOnce(placed[k], slots, k)
    decreases k
  {
    hide Places;
    if k > 0 {
      AllUsedOnce(placed, blobs, slots, k - 1);
      assert Places(placed[k - 1], blobs[k - 1], placed[k - 1 + 1], slots[k - 1]);
      UsedOnceStep(placed[k - 1], blobs[k - 1], placed[k], slots, k - 1);
    }
  }

  /** Matching is one-to-one in every frame: no two blobs go to the same track, and the tracks flagged
      as matched are exactly those some blob went to. */
  lemma {:induction false} MatchingOneToOne(t: Table, blobs: seq<Blob>, t': Table, slots: seq<int>)
    requires Shape(t) && FrameStep(t, blobs, t', slots)
    ensures |slots| == |blobs| && Shape(t')
    ensures forall i, j :: 0 <= i < j < |slots| && slots[i] >= 0 ==> slots[i] != slots[j]
    ensures forall s :: 0 <= s < MAX_TRACKS ==> (t'.tracks[s].matched <==> s in slots)
    ensures forall i :: 0 <= i < |slots| ==> slots[i] < MAX_TRACKS
  {
    var placed: seq<Table> :| PlacesAll(placed, blobs, slots) && placed[0] == Reset(t) && t' == Finished(placed[|blobs|]);
    hide Places;
    AllUsedOnce(placed, blobs, slots, |blobs|);
    assert slots[..|blobs|] == slots;
    forall s | 0 <= s < MAX_TRACKS
      ensures t'.tracks[s].matched <==> placed[|blobs|].tracks[s].matched
    {
      assert t'.tracks[s] == Escalated(Aged(placed[|blobs|].tracks[s]));
    }
    forall i | 0 <= i < |slots| ensures slots[i] < MAX_TRACKS {
      AllUsedOnce(placed, blobs, slots, i);
      assert Places(placed[i], blobs[i], placed[i + 1], slots[i]);
      PlacesShape(placed[i], blobs[i], placed[i + 1], slots[i]);
    }
  }

  // ---- The effect on each slot ----

  /** The track in a slot after a blob went there. */
  ghost predicate Took(before: Track, b: Blob, now: Track) {
    if before.active then now == Matched(Unflagged(before), b) else now == Spawned(b, now.id)
  }

  /** After `k` blobs the slots that got a blob hold what it made of them, the others what they held. */
  ghost predicate Touched(start: seq<Track>, now: seq<Track>, blobs: seq<Blob>, slots: seq<int>, k: nat)
    requires |start| == |now| == MAX_TRACKS && k <= |blobs| == |slots|
  {
    && (forall s :: 0 <= s < MAX_TRACKS && s !in slots[..k] ==> now[s] == Unflagged(start[s]))
    && (forall i :: 0 <= i < k && slots[i] >= 0 ==> slots[i] < MAX_TRACKS && Took(start[slots[i]], blobs[i], now[slots[i]]))
  }

  lemma {:induction false} TouchedStep(start: seq<Track>, t: Table, blobs: seq<Blob>, t': Table, slots: seq<int>, k: nat)
    requires |start| == MAX_TRACKS && Shape(t) && k < |blobs| == |slots|
    requires Touched(start, t.tracks, blobs, slots, k) && Places(t, blobs[k], t', slots[k])
    requires slots[k] < 0 || slots[k] !in slots[..k]
    ensures Shape(t') && Touched(start, t'.tracks, blobs, slots, k + 1)
  {
    hide Places, Matched, Spawned;
    PlacesShape(t, blobs[k], t', slots[k]);
    SpawnedId(blobs[k], t.nextId);
    assert slots[..k + 1] == slots[..k] + [slots[k]];
    forall i | 0 <= i < k && slots[i] >= 0
      ensures slots[i] < MAX_TRACKS && Took(start[slots[i]], blobs[i], t'.tracks[slots[i]])
    {
      assert slots[i] in slots[..k];
    }
  }

  lemma SpawnedId(b: Blob, id: nat)
    ensures Spawned(b, id).id == id
  {
  }

  lemma {:induction false} AllTouched(placed: seq<Table>, blobs: seq<Blob>, slots: seq<int>, t: Table, k: nat)
    requires PlacesAll(placed, blobs, slots) && Shape(t) && placed[0] == Reset(t) && k <= |blobs|
    ensures Shape(placed[k]) && Touched(t.tracks, placed[k].tracks, blobs, slots, k)
    decreases k
  {
    hide Places, Touched;
    if k == 0 {
      NothingTouched(t, blobs, slots);
    } else {
      AllTouched(placed, blobs, slots, t, k - 1);
      AllUsedOnce(placed, blobs, slots, k - 1);
      assert Places(placed[k - 1], blobs[k - 1], placed[k - 1 + 1], slots[k - 1]);
      UsedOnceStep(placed[k - 1], blobs[k - 1], placed[k], slots, k - 1);
      TouchedStep(t.tracks, placed[k - 1], blobs, placed[k], slots, k - 1);
    }
  }

  lemma NothingTouched(t: Table, blobs: seq<Blob>, slots: seq<int>)
    requires Shape(t) && |blobs| == |slots|
    ensures Touched(t.tracks, Reset(t).tracks, blobs, slots, 0)
  {
  }

  /** A slot no blob went to: its track ages. */
  ghost predicate LeftAlone(before: Track, now: Track) {
    now == Escalated(Aged(Unflagged(before)))
  }

  /** A slot a blob went to: its track takes the blob, or is started by it, and may escalate. */
  ghost predicate Given(before: Track, b: Blob, now: Track) {
    exists took :: Took(before, b, took) && now == Escalated(Aged(took))
  }

  /** One frame, slot by slot. */
  lemma {:induction false} FrameEffect(t: Table, blobs: seq<Blob>, t': Table, slots: seq<int>)
    requires Shape(t) && FrameStep(t, blobs, t', slots)
    ensures |slots| == |blobs| && Shape(t')
    ensures forall s :: 0 <= s < MAX_TRACKS && s !in slots ==> LeftAlone(t.tracks[s], t'.tracks[s])
    ensures forall i :: 0 <= i < |slots| && slots[i] >= 0 ==>
              slots[i] < MAX_TRACKS && Given(t.tracks[slots[i]], blobs[i], t'.tracks[slots[i]])
  {
    var placed: seq<Table> :| PlacesAll(placed, blobs, slots) && placed[0] == Reset(t) && t' == Finished(placed[|blobs|]);
    hide PlacesAll, Took, Aged, Escalated;
    AllTouched(placed, blobs, slots, t, |blobs|);
    assert slots[..|blobs|] == slots;
    FinishedShape(placed[|blobs|]);
    forall s | 0 <= s < MAX_TRACKS ensures t'.tracks[s] == Escalated(Aged(placed[|blobs|].tracks[s])) {
    }
  }

  lemma FinishedShape(t: Table)
    requires Shape(t)
    ensures Shape(Finished(t))
  {
  }

  // ---- The fields of a track after a frame ----

  /** A matched track moves 45% of the way from its old centre, size and score to the blob's. */
  ghost predicate Smoothed(before: Track, b: Blob, now: Track) {
    && 40.0 * (now.cx - before.cx) == 9.0 * ((2 * b.x + b.w) as real - 2.0 * before.cx)
    && 40.0 * (now.cy - before.cy) == 9.0 * ((2 * b.y + b.h) as real - 2.0 * before.cy)
    && 20.0 * (now.w - before.w) == 9.0 * (b.w as real - before.w)
    && 20.0 * (now.h - before.h) == 9.0 * (b.h as real - before.h)
    && 20.0 * (now.score - before.score) == 9.0 * (b.score - before.score)
  }

  /** A new track has the blob's centre, size and score. */
  ghost predicate Fresh(b: Blob, now: Track) {
    && 2.0 * now.cx == (2 * b.x + b.w) as real && 2.0 * now.cy == (2 * b.y + b.h) as real
    && now.w == b.w as real && now.h == b.h as real && now.score == b.score
  }

  lemma {:induction false} CentreDoubled(b: Blob)
    ensures 2.0 * CenterX(b) == (2 * b.x + b.w) as real && 2.0 * CenterY(b) == (2 * b.y + b.h) as real
  {
  }

  lemma {:induction false} GivenFields(before: Track, b: Blob, now: Track)
    requires Given(before, b, now)
    ensures now.active && now.matched && now.misses == 0
    ensures before.active ==> now.id == before.id && Smoothed(before, b, now)
    ensures !before.active ==> Fresh(b, now)
  {
    CentreDoubled(b);
    hide CenterX, CenterY;
  }

  lemma {:induction false} LeftFields(before: Track, now: Track)
    requires LeftAlone(before, now)
    ensures !now.matched && (now.active ==> before.active)
    ensures now.id == before.id && now.cx == before.cx && now.cy == before.cy
    ensures now.w == before.w && now.h == before.h && now.score == before.score
  {
  }

  /** In every frame each track moves towards the blob that went to its slot by 45% of the difference,
      a new one starts where its blob is, and any other stays where it is. */
  lemma {:induction false} FrameSmooths(t: Table, blobs: seq<Blob>, t': Table, slots: seq<int>)
    requires Shape(t) && FrameStep(t, blobs, t', slots)
    ensures |slots| == |blobs| && Shape(t')
    ensures forall i :: 0 <= i < |slots| && slots[i] >= 0 ==>
              && slots[i] < MAX_TRACKS && t'.tracks[slots[i]].active
              && (t.tracks[slots[i]].active ==>
                    Smoothed(t.tracks[slots[i]], blobs[i], t'.tracks[slots[i]]) && t'.tracks[slots[i]].id == t.tracks[slots[i]].id)
              && (!t.tracks[slots[i]].active ==> Fresh(blobs[i], t'.tracks[slots[i]]))
    ensures forall s :: 0 <= s < MAX_TRACKS && s !in slots ==>
              var old_, now := t.tracks[s], t'.tracks[s];
              && now.id == old_.id && now.cx == old_.cx && now.cy == old_.cy && now.w == old_.w && now.h == old_.h
              && now.score == old_.score && (now.active ==> old_.active)
  {
    FrameEffect(t, blobs, t', slots);
    hide FrameStep, Given, LeftAlone, Smoothed, Fresh;
    forall i | 0 <= i < |slots| && slots[i] >= 0
      ensures t'.tracks[slots[i]].active
      ensures t.tracks[slots[i]].active ==>
                Smoothed(t.tracks[slots[i]], blobs[i], t'.tracks[slots[i]]) && t'.tracks[slots[i]].id == t.tracks[slots[i]].id
      ensures !t.tracks[slots[i]].active ==> Fresh(blobs[i], t'.tracks[slots[i]])
    {
      GivenFields(t.tracks[slots[i]], blobs[i], t'.tracks[slots[i]]);
    }
    forall s | 0 <= s < MAX_TRACKS && s !in slots
      ensures var old_, now := t.tracks[s], t'.tracks[s];
              && now.id == old_.id && now.cx == old_.cx && now.cy == old_.cy && now.w == old_.w && now.h == old_.h
              && now.score == old_.score && (now.active ==> old_.active)
    {
      LeftFields(t.tracks[s], t'.tracks[s]);
    }
  }

  // ---- The published form ----

  /** `r` is `v` rounded to a whole number. */
  ghost predicate Rounds(r: int, v: real) { v - 0.5 <= r as real <= v + 0.5 }

  lemma {:induction false} TruncRounds(v: real)
    requires v >= 0.0
    ensures Rounds(Trunc(v + 0.5), v)
  {
  }

  /** A published box stands for its track: it carries the track's identifier, score, age and hits; in
      each direction its size is the smoothed size to the nearest mask pixel unless the edge of the
      frame cuts it; and a box the edge does not cut is centred on the smoothed centre, to within the
      rounding of centre, half size and size. */
  lemma {:induction false} PublishedStandsFor(t: Track)
    requires 0.0 <= t.cx <= 80.0 && 0.0 <= t.cy <= 60.0 && 1.0 <= t.w <= 80.0 && 1.0 <= t.h <= 60.0
    ensures var o := PublishTrack(t);
            && o.id == t.id && o.score == t.score && o.age == t.age && o.hits == t.hits
            && (Abs(o.w as real - 8.0 * t.w) <= 4.0 || o.x + o.w == 640)
            && (Abs(o.h as real - 8.0 * t.h) <= 4.0 || o.y + o.h == 480)
            && ((0.0 <= t.cx - t.w * 0.5 && t.cx + t.w * 0.5 <= 79.0) || (o.x > 0 && o.x + o.w < 640) ==>
                  Abs((2 * o.x + o.w) as real - 16.0 * t.cx) <= 20.0 && Abs(o.w as real - 8.0 * t.w) <= 4.0)
            && ((0.0 <= t.cy - t.h * 0.5 && t.cy + t.h * 0.5 <= 59.0) || (o.y > 0 && o.y + o.h < 480) ==>
                  Abs((2 * o.y + o.h) as real - 16.0 * t.cy) <= 20.0 && Abs(o.h as real - 8.0 * t.h) <= 4.0)
  {
    SideStandsFor(t.cx, t.w, MASK_W);
    SideStandsFor(t.cy, t.h, MASK_H);
    hide Trunc, Clamp, Extent;
  }

  function Abs(v: real): real { if v < 0.0 then -v else v }

  /** One side of the box, in mask pixels. */
  lemma {:induction false} SideStandsFor(c: real, size: real, limit: int)
    requires limit > 0 && 0.0 <= c <= limit as real && 1.0 <= size <= limit as real
    ensures var x := Clamp(Trunc(c + 0.5) - Trunc(size * 0.5 + 0.5), limit);
            var w := Extent(x, Trunc(size + 0.5), limit);
            && (Abs(8.0 * w as real - 8.0 * size) <= 4.0 || x + w == limit)
            && ((0.0 <= c - size * 0.5 && c + size * 0.5 <= (limit - 1) as real) || (x > 0 && x + w < limit) ==>
                  Abs(8.0 * (2 * x + w) as real - 16.0 * c) <= 20.0 && Abs(8.0 * w as real - 8.0 * size) <= 4.0)
  {
    TruncRounds(c);
    TruncRounds(size * 0.5);
    TruncRounds(size);
    hide Trunc;
  }
}
