/** The tracker over every run of frames: what each track remembers is exactly what happened to it. */
module TrackerRuns {
  import opened TopBlobs
  import opened Tracker
  import opened TrackerFrames

  // ---- Runs ----

  ghost function StartTable(): Table { Table(seq(MAX_TRACKS, _ => BLANK_TRACK), 1) }

  /** The program's runs: from the empty table, one frame after another. */
  ghost predicate IsRun(ts: seq<Table>, frames: seq<seq<Blob>>, slots: seq<seq<int>>) {
    && |ts| == |frames| + 1 && |slots| == |frames| && ts[0] == StartTable()
    && forall i :: 0 <= i < |frames| ==> StepAt(ts, frames, slots, i)
  }

  ghost predicate StepAt(ts: seq<Table>, frames: seq<seq<Blob>>, slots: seq<seq<int>>, i: nat)
    requires i < |frames| && |ts| == |frames| + 1 && |slots| == |frames|
  {
    FrameStep(ts[i], frames[i], ts[i + 1], slots[i])
  }

  ghost predicate Shaped(ts: seq<Table>) {
    forall k {:trigger ts[k]} :: 0 <= k < |ts| ==> Shape(ts[k])
  }

  lemma {:induction false} RunShape(ts: seq<Table>, frames: seq<seq<Blob>>, slots: seq<seq<int>>, i: nat)
    requires IsRun(ts, frames, slots) && i < |ts|
    ensures Shape(ts[i])
    decreases i
  {
    hide FrameStep;
    if i > 0 {
      RunShape(ts, frames, slots, i - 1);
      assert StepAt(ts, frames, slots, i - 1);
      MatchingOneToOne(ts[i - 1], frames[i - 1], ts[i], slots[i - 1]);
    }
  }

  // ---- What happened to a track ----

  /** One frame of a track: whether a blob went to its slot, and its score afterwards. */
  datatype Note = Note(matched: bool, score: real)

  /** The frames of the track in slot `s` since it was started there, the last one being frame `i - 1`. */
  ghost function Notes(ts: seq<Table>, slots: seq<seq<int>>, i: nat, s: nat): seq<Note>
    requires i < |ts| == |slots| + 1 && s < MAX_TRACKS && Shaped(ts)
  {
    if i == 0 then []
    else (if ts[i - 1].tracks[s].active then Notes(ts, slots, i - 1, s) else [])
         + [Note(s in slots[i - 1], ts[i].tracks[s].score)]
  }

  /** Matched with a score of at least two percent. */
  ghost predicate Strong(n: Note) { n.matched && n.score >= 0.02 }

  ghost function Hits(notes: seq<Note>): set<nat> {
    set i: nat | i < |notes| && notes[i].matched
  }

  /** The last `m` frames were misses, and the one before was a match. */
  ghost predicate Missed(notes: seq<Note>, m: nat) {
    && m < |notes| && notes[|notes| - m - 1].matched
    && forall i :: |notes| - m <= i < |notes| ==> !notes[i].matched
  }

  /** The last `r` frames were strong matches, and no more than these. */
  ghost predicate Streak(notes: seq<Note>, r: nat) {
    && r <= |notes| && (r < |notes| ==> !Strong(notes[|notes| - r - 1]))
    && forall i :: |notes| - r <= i < |notes| ==> Strong(notes[i])
  }

  /** Frames `e - 3`, `e - 2` and `e - 1` were strong matches. */
  ghost predicate ThreeTo(notes: seq<Note>, e: nat)
    requires e <= |notes|
  {
    e >= 3 && Strong(notes[e - 3]) && Strong(notes[e - 2]) && Strong(notes[e - 1])
  }

  ghost predicate Sustained(notes: seq<Note>) {
    exists e: nat :: e <= |notes| && ThreeTo(notes, e)
  }

  /** The counters of a track say exactly what happened to it since it was started. */
  ghost predicate Tells(t: Track, notes: seq<Note>) {
    && notes != [] && t.matched == notes[|notes| - 1].matched && t.score == notes[|notes| - 1].score
    && t.age == |notes| && t.hits == |Hits(notes)| && Missed(notes, t.misses)
    && Streak(notes, t.alertFrames) && (t.wasAlert <==> Sustained(notes))
  }

  lemma {:induction false} HitsGrow(notes: seq<Note>, n: Note)
    ensures |Hits(notes + [n])| == |Hits(notes)| + if n.matched then 1 else 0
  {
    if n.matched {
      assert Hits(notes + [n]) == Hits(notes) + {|notes|};
    } else {
      assert Hits(notes + [n]) == Hits(notes);
    }
  }

  lemma {:induction false} MissedGrows(notes: seq<Note>, n: Note, m: nat)
    requires notes == [] || Missed(notes, m)
    requires notes == [] ==> n.matched
    ensures Missed(notes + [n], if n.matched then 0 else m + 1)
  {
  }

  lemma {:induction false} StreakGrows(notes: seq<Note>, n: Note, r: nat)
    requires Streak(notes, r)
    ensures Streak(notes + [n], if Strong(n) then r + 1 else 0)
  {
    hide Strong;
  }

  /** A streak of three is a sustained run that ends now. */
  lemma {:induction false} SustainedGrows(notes: seq<Note>, n: Note, r: nat)
    requires Streak(notes + [n], r)
    ensures Sustained(notes + [n]) <==> Sustained(notes) || r >= 3
  {
    hide Strong;
    var after := notes + [n];
    if Sustained(notes) {
      var e: nat :| e <= |notes| && ThreeTo(notes, e);
      assert ThreeTo(after, e);
    }
    if r >= 3 {
      assert ThreeTo(after, |after|);
    }
    if Sustained(after) && r < 3 {
      var e: nat :| e <= |after| && ThreeTo(after, e);
      assert e < |after|;
      assert ThreeTo(notes, e);
    }
  }

  lemma {:induction false} NotSustained()
    ensures !Sustained([]) && Streak([], 0)
  {
  }

  /** The counters after one more frame. */
  ghost predicate Counts(before: Track, now: Track, notes: seq<Note>, n: Note) {
    && now.matched == n.matched && now.score == n.score
    && (n.matched ==> notes == [] || now.hits == before.hits + 1)
    && (!n.matched ==> now.hits == before.hits)
    && (notes == [] ==> now.hits == 1 && now.age == 1)
    && (notes != [] ==> now.age == before.age + 1)
    && now.misses == (if n.matched then 0 else before.misses + 1)
    && now.alertFrames == (if Strong(n) then (if notes == [] then 0 else before.alertFrames) + 1 else 0)
    && (now.wasAlert <==> (notes != [] && before.wasAlert) || now.alertFrames >= 3)
  }

  lemma {:induction false} TellsMore(before: Track, now: Track, notes: seq<Note>, n: Note)
    requires notes == [] || Tells(before, notes)
    requires notes == [] ==> n.matched
    requires Counts(before, now, notes, n)
    ensures Tells(now, notes + [n])
  {
    hide Strong, Streak, Missed, Sustained, Hits;
    NoHits();
    NotSustained();
    HitsGrow(notes, n);
    MissedGrows(notes, n, before.misses);
    StreakGrows(notes, n, if notes == [] then 0 else before.alertFrames);
    SustainedGrows(notes, n, now.alertFrames);
  }

  lemma NoHits()
    ensures |Hits([])| == 0
  {
  }

  lemma {:induction false} GivenCounts(before: Track, b: Blob, now: Track, notes: seq<Note>)
    requires Given(before, b, now) && (before.active <==> notes != [])
    ensures Counts(before, now, notes, Note(true, now.score)) && now.active
  {
    hide CenterX, CenterY, Blend;
  }

  lemma {:induction false} LeftCounts(before: Track, now: Track, notes: seq<Note>)
    requires LeftAlone(before, now) && before.active && notes != []
    ensures Counts(before, now, notes, Note(false, now.score)) && (now.active <==> now.misses <= 20)
  {
  }

  lemma {:induction false} LeftFree(before: Track, now: Track)
    requires LeftAlone(before, now) && !before.active
    ensures !now.active
  {
  }

  /** In every run, after every frame: a track that is in use, or was until this frame, counts exactly what
      happened to it since it was started. Its age is the number of frames, its hits the matched ones, its
      misses those since the last match; the alert frames are the strong matches that lead up to now; the
      alert is remembered if and only if there were three strong matches in a row. It is in use until it
      has missed more than 20 frames in a row, and a free slot comes into use exactly when a blob goes
      there. */
  lemma {:induction false} TrackTells(ts: seq<Table>, frames: seq<seq<Blob>>, slots: seq<seq<int>>, i: nat, s: nat)
    requires IsRun(ts, frames, slots) && i < |ts| && s < MAX_TRACKS
    ensures Shaped(ts)
    ensures var t := ts[i].tracks[s];
            && (t.active || (i > 0 && ts[i - 1].tracks[s].active) ==> Tells(t, Notes(ts, slots, i, s)))
            && (i > 0 && ts[i - 1].tracks[s].active ==> (t.active <==> t.misses <= 20))
            && (i > 0 && !ts[i - 1].tracks[s].active ==> (t.active <==> s in slots[i - 1]))
            && (i == 0 ==> !t.active)
    decreases i
  {
    hide FrameStep, Tells, Shape;
    forall k | 0 <= k < |ts| ensures Shape(ts[k]) {
      RunShape(ts, frames, slots, k);
    }
    if i > 0 {
      TrackTells(ts, frames, slots, i - 1, s);
      assert StepAt(ts, frames, slots, i - 1);
      FrameEffect(ts[i - 1], frames[i - 1], ts[i], slots[i - 1]);
      hide IsRun;
      ShapeLength(ts[i - 1]);
      ShapeLength(ts[i]);
      var before, now := ts[i - 1].tracks[s], ts[i].tracks[s];
      var notes := if before.active then Notes(ts, slots, i - 1, s) else [];
      TellsNonEmpty(before, notes);
      if s in slots[i - 1] {
        var b :| 0 <= b < |slots[i - 1]| && slots[i - 1][b] == s;
        GivenCounts(before, frames[i - 1][b], now, notes);
        GivenMisses(before, frames[i - 1][b], now);
        TellsMore(before, now, notes, Note(true, now.score));
      } else if before.active {
        LeftCounts(before, now, notes);
        TellsMore(before, now, notes, Note(false, now.score));
      } else {
        LeftFree(before, now);
      }
    }
  }

  lemma ShapeLength(t: Table)
    requires Shape(t)
    ensures |t.tracks| == MAX_TRACKS
  {
  }

  lemma TellsNonEmpty(t: Track, notes: seq<Note>)
    ensures Tells(t, notes) ==> notes != []
  {
  }

  lemma GivenMisses(before: Track, b: Blob, now: Track)
    requires Given(before, b, now)
    ensures now.misses == 0
  {
    GivenFields(before, b, now);
  }

  /** The published mode of every track of every run: POSSIBLE exactly when no blob went to it in the last
      frame, ALERT exactly when one did and at some time since the track was started there were three
      strong matches in a row, and TRACKING otherwise. */
  lemma {:induction false} ModeTells(ts: seq<Table>, frames: seq<seq<Blob>>, slots: seq<seq<int>>, i: nat, s: nat)
    requires IsRun(ts, frames, slots) && 0 < i < |ts| && s < MAX_TRACKS
    ensures Shaped(ts)
    ensures var t, mode := ts[i].tracks[s], PublishTrack(ts[i].tracks[s]).mode;
            t.active ==>
              && (mode.Possible? <==> s !in slots[i - 1])
              && (mode.Alert? <==> s in slots[i - 1] && Sustained(Notes(ts, slots, i, s)))
  {
    TrackTells(ts, frames, slots, i, s);
    hide IsRun, FrameStep, Sustained, Streak, Hits;
    if ts[i].tracks[s].active {
      TellsMode(ts[i].tracks[s], Notes(ts, slots, i, s));
      hide Tells, Missed;
    }
  }

  lemma {:induction false} TellsMode(t: Track, notes: seq<Note>)
    requires Tells(t, notes)
    ensures var mode := PublishTrack(t).mode;
            && (mode.Possible? <==> !t.matched)
            && (mode.Alert? <==> t.matched && Sustained(notes))
            && t.matched == notes[|notes| - 1].matched
  {
    hide Trunc, Clamp, Extent, Strong, Hits;
    if t.alertFrames >= 3 {
      assert ThreeTo(notes, |notes|);
    }
  }

  // ---- Identifiers ----

  /** How many of the first `k` blobs of a frame started a track. */
  ghost function Started(t: Table, slots: seq<int>, k: nat): nat
    requires Shape(t) && k <= |slots| && forall i :: 0 <= i < |slots| ==> slots[i] < MAX_TRACKS
  {
    if k == 0 then 0
    else Started(t, slots, k - 1) + if slots[k - 1] >= 0 && !t.tracks[slots[k - 1]].active then 1 else 0
  }

  /** Identifiers of active tracks are distinct until the counter has gone round. */
  ghost predicate IdsOk(t: Table, issued: nat) {
    issued <= 0xFFFF ==>
      && (issued < 0xFFFF ==> t.nextId == issued + 1)
      && (forall k :: 0 <= k < |t.tracks| && t.tracks[k].active ==> 1 <= t.tracks[k].id <= issued)
      && (forall j, k :: 0 <= j < k < |t.tracks| && t.tracks[j].active && t.tracks[k].active ==> t.tracks[j].id != t.tracks[k].id)
  }

  lemma {:induction false} PlaceIds(t: Table, issued: nat, b: Blob, t': Table, slot: int)
    requires Shape(t) && IdsOk(t, issued) && Places(t, b, t', slot)
    ensures Shape(t') && slot < MAX_TRACKS
    ensures IdsOk(t', issued + if slot >= 0 && !t.tracks[slot].active then 1 else 0)
  {
    hide Places;
    PlacesShape(t, b, t', slot);
  }

  lemma {:induction false} AllPlacedIds(placed: seq<Table>, blobs: seq<Blob>, slots: seq<int>, t: Table, issued: nat, k: nat)
    requires PlacesAll(placed, blobs, slots) && Shape(t) && placed[0] == Reset(t) && IdsOk(t, issued) && k <= |blobs|
    requires forall i :: 0 <= i < |slots| ==> slots[i] < MAX_TRACKS
    ensures Shape(placed[k]) && IdsOk(placed[k], issued + Started(t, slots, k))
    decreases k
  {
    hide Places, IdsOk, Shape;
    if k == 0 {
      ResetIds(t, issued);
    } else {
      AllPlacedIds(placed, blobs, slots, t, issued, k - 1);
      assert Places(placed[k - 1], blobs[k - 1], placed[k - 1 + 1], slots[k - 1]);
      PlaceIds(placed[k - 1], issued + Started(t, slots, k - 1), blobs[k - 1], placed[k], slots[k - 1]);
      SameUse(placed, blobs, slots, t, k - 1);
    }
  }

  lemma {:induction false} ResetIds(t: Table, issued: nat)
    requires Shape(t) && IdsOk(t, issued)
    ensures Shape(Reset(t)) && IdsOk(Reset(t), issued)
  {
  }

  /** A slot about to get its blob is in use exactly when it was at the start of the frame. */
  lemma {:induction false} SameUse(placed: seq<Table>, blobs: seq<Blob>, slots: seq<int>, t: Table, k: nat)
    requires PlacesAll(placed, blobs, slots) && Shape(t) && placed[0] == Reset(t) && k < |blobs|
    ensures Shape(placed[k]) && slots[k] < MAX_TRACKS
    ensures slots[k] >= 0 ==> placed[k].tracks[slots[k]].active == t.tracks[slots[k]].active
  {
    hide Places;
    AllTouched(placed, blobs, slots, t, k);
    AllUsedOnce(placed, blobs, slots, k);
    assert Places(placed[k], blobs[k], placed[k + 1], slots[k]);
    UsedOnceStep(placed[k], blobs[k], placed[k + 1], slots, k);
    PlacesShape(placed[k], blobs[k], placed[k + 1], slots[k]);
    hide UsedOnce, PlacesAll, Took;
  }

  lemma {:induction false} FrameIds(t: Table, issued: nat, blobs: seq<Blob>, t': Table, slots: seq<int>)
    requires Shape(t) && IdsOk(t, issued) && FrameStep(t, blobs, t', slots)
    ensures forall i :: 0 <= i < |slots| ==> slots[i] < MAX_TRACKS
    ensures Shape(t') && IdsOk(t', issued + Started(t, slots, |slots|))
  {
    MatchingOneToOne(t, blobs, t', slots);
    var placed: seq<Table> :| PlacesAll(placed, blobs, slots) && placed[0] == Reset(t) && t' == Finished(placed[|blobs|]);
    AllPlacedIds(placed, blobs, slots, t, issued, |blobs|);
    FinishIds(placed[|blobs|], issued + Started(t, slots, |slots|));
  }

  lemma {:induction false} FinishIds(t: Table, issued: nat)
    requires Shape(t) && IdsOk(t, issued)
    ensures Shape(Finished(t)) && IdsOk(Finished(t), issued)
  {
    var t' := Finished(t);
    forall k | 0 <= k < MAX_TRACKS
      ensures t'.tracks[k].id == t.tracks[k].id && (t'.tracks[k].active ==> t.tracks[k].active)
    {
      assert t'.tracks[k] == Escalated(Aged(t.tracks[k]));
    }
  }

  /** How many tracks were started before frame `i`. */
  ghost function Issued(ts: seq<Table>, slots: seq<seq<int>>, i: nat): nat
    requires i < |ts| == |slots| + 1 && Shaped(ts)
    requires forall f, k :: 0 <= f < |slots| && 0 <= k < |slots[f]| ==> slots[f][k] < MAX_TRACKS
  {
    if i == 0 then 0 else Issued(ts, slots, i - 1) + Started(ts[i - 1], slots[i - 1], |slots[i - 1]|)
  }

  /** In every run the identifiers of the tracks in use are distinct, as long as at most 65535 tracks have
      been started: the tracks are numbered in the order in which they were started. */
  lemma {:induction false} IdsDistinct(ts: seq<Table>, frames: seq<seq<Blob>>, slots: seq<seq<int>>, i: nat)
    requires IsRun(ts, frames, slots) && i < |ts|
    ensures Shaped(ts)
    ensures forall f, k :: 0 <= f < |slots| && 0 <= k < |slots[f]| ==> slots[f][k] < MAX_TRACKS
    ensures IdsOk(ts[i], Issued(ts, slots, i))
    decreases i
  {
    hide FrameStep, IdsOk, Shape;
    forall k | 0 <= k < |ts| ensures Shape(ts[k]) {
      RunShape(ts, frames, slots, k);
    }
    forall f, k | 0 <= f < |slots| && 0 <= k < |slots[f]| ensures slots[f][k] < MAX_TRACKS {
      assert StepAt(ts, frames, slots, f);
      MatchingOneToOne(ts[f], frames[f], ts[f + 1], slots[f]);
    }
    if i == 0 {
      StartIds();
    } else {
      IdsDistinct(ts, frames, slots, i - 1);
      assert StepAt(ts, frames, slots, i - 1);
      FrameIds(ts[i - 1], Issued(ts, slots, i - 1), frames[i - 1], ts[i], slots[i - 1]);
    }
  }

  lemma StartIds()
    ensures IdsOk(StartTable(), 0)
  {
  }

  // ---- Ranges ----

  ghost predicate InMask(t: Track) {
    t.active ==>
      && 0.0 <= t.cx <= MASK_W as real && 0.0 <= t.cy <= MASK_H as real
      && 1.0 <= t.w <= MASK_W as real && 1.0 <= t.h <= MASK_H as real
      && 0.0 <= t.score <= 1.0
  }

  ghost predicate BlobInMask(b: Blob) {
    b.w >= 1 && b.h >= 1 && b.x + b.w <= MASK_W && b.y + b.h <= MASK_H && 0.0 <= b.score <= 1.0
  }

  ghost predicate AllInMask(t: Table) {
    forall k :: 0 <= k < |t.tracks| ==> InMask(t.tracks[k])
  }

  lemma {:induction false} BlobCentre(b: Blob)
    requires BlobInMask(b)
    ensures 0.0 <= CenterX(b) <= MASK_W as real && 0.0 <= CenterY(b) <= MASK_H as real
    ensures 1.0 <= b.w as real <= MASK_W as real && 1.0 <= b.h as real <= MASK_H as real
  {
    assert (b.x + b.w) as real == b.x as real + b.w as real;
    assert (b.y + b.h) as real == b.y as real + b.h as real;
  }

  /** Smoothing is a convex combination: it stays between its arguments. */
  lemma {:induction false} BlendBetween(a: real, b: real, lo: real, hi: real)
    requires lo <= a <= hi && lo <= b <= hi
    ensures lo <= Blend(a, b) <= hi
  {
  }

  lemma {:induction false} MatchedInMask(t: Track, b: Blob)
    requires t.active && InMask(t) && BlobInMask(b)
    ensures InMask(Matched(t, b))
  {
    BlobCentre(b);
    hide CenterX, CenterY, Blend;
    BlendBetween(CenterX(b), t.cx, 0.0, MASK_W as real);
    BlendBetween(CenterY(b), t.cy, 0.0, MASK_H as real);
    BlendBetween(b.w as real, t.w, 1.0, MASK_W as real);
    BlendBetween(b.h as real, t.h, 1.0, MASK_H as real);
    BlendBetween(b.score, t.score, 0.0, 1.0);
  }

  lemma {:induction false} PlaceInMask(t: Table, b: Blob, t': Table, slot: int)
    requires Shape(t) && AllInMask(t) && BlobInMask(b) && Places(t, b, t', slot)
    ensures Shape(t') && AllInMask(t')
  {
    hide Places, InMask, Matched;
    PlacesShape(t, b, t', slot);
    if slot >= 0 && t.tracks[slot].active {
      MatchedInMask(t.tracks[slot], b);
    } else if slot >= 0 {
      SpawnedInMask(b, t.nextId);
    }
  }

  lemma {:induction false} SpawnedInMask(b: Blob, id: nat)
    requires BlobInMask(b)
    ensures InMask(Spawned(b, id))
  {
    BlobCentre(b);
    hide CenterX, CenterY;
  }

  lemma {:induction false} AllPlacedInMask(placed: seq<Table>, blobs: seq<Blob>, slots: seq<int>, k: nat)
    requires PlacesAll(placed, blobs, slots) && Shape(placed[0]) && AllInMask(placed[0]) && k <= |blobs|
    requires forall b :: b in blobs ==> BlobInMask(b)
    ensures Shape(placed[k]) && AllInMask(placed[k])
    decreases k
  {
    hide Places, AllInMask;
    if k > 0 {
      AllPlacedInMask(placed, blobs, slots, k - 1);
      assert Places(placed[k - 1], blobs[k - 1], placed[k - 1 + 1], slots[k - 1]);
      PlaceInMask(placed[k - 1], blobs[k - 1], placed[k], slots[k - 1]);
    }
  }

  /** A frame of blobs inside the mask keeps all tracks inside it. */
  lemma {:induction false} FrameInMask(t: Table, blobs: seq<Blob>, t': Table, slots: seq<int>)
    requires Shape(t) && AllInMask(t) && FrameStep(t, blobs, t', slots)
    requires forall b :: b in blobs ==> BlobInMask(b)
    ensures Shape(t') && AllInMask(t')
  {
    var placed: seq<Table> :| PlacesAll(placed, blobs, slots) && placed[0] == Reset(t) && t' == Finished(placed[|blobs|]);
    hide PlacesAll;
    assert AllInMask(Reset(t)) by {
      forall k | 0 <= k < MAX_TRACKS
        ensures InMask(Reset(t).tracks[k])
      {
        assert InMask(t.tracks[k]);
      }
    }
    AllPlacedInMask(placed, blobs, slots, |blobs|);
    forall k | 0 <= k < MAX_TRACKS
      ensures InMask(t'.tracks[k])
    {
      assert t'.tracks[k] == Escalated(Aged(placed[|blobs|].tracks[k]));
      assert InMask(placed[|blobs|].tracks[k]);
    }
  }

  /** A published box is not empty and lies inside the 640x480 frame. */
  lemma {:induction false} PublishedBoxInside(t: Track)
    requires t.active && InMask(t)
    ensures var o := PublishTrack(t);
            && 0 <= o.x && 0 <= o.y && o.w >= 8 && o.h >= 8
            && o.x + o.w <= 640 && o.y + o.h <= 480
            && 0.0 <= o.score <= 1.0
  {
  }

  /** In every run of frames with blobs inside the mask, every track stays inside the mask and every
      published box inside the frame. */
  lemma {:induction false} TrackerInMask(ts: seq<Table>, frames: seq<seq<Blob>>, slots: seq<seq<int>>, i: nat)
    requires IsRun(ts, frames, slots) && i < |ts|
    requires forall k, b :: 0 <= k < |frames| && b in frames[k] ==> BlobInMask(b)
    ensures Shape(ts[i]) && AllInMask(ts[i])
    decreases i
  {
    if i > 0 {
      hide AllInMask, FrameStep, BlobInMask;
      TrackerInMask(ts, frames, slots, i - 1);
      assert StepAt(ts, frames, slots, i - 1);
      FrameInMask(ts[i - 1], frames[i - 1], ts[i], slots[i - 1]);
    }
  }
}
