/** The persistent tracker: one frame as a step on the track table, and the invariants of every run.
    Floating-point numbers are reals. */
module Tracker {
  import opened TopBlobs

  const MAX_TRACKS := 6
  const MASK_W := 80
  const MASK_H := 60
  const CONFIRM_HITS := 2
  const ALERT_SUSTAIN := 3
  const POSSIBLE_HOLD := 20
  const ALERT_SCORE := 0.02
  const ALPHA := 0.45
  const MATCH_D2 := 144.0
  const FAR := 1000000000.0

  datatype Track = Track(active: bool, id: nat, cx: real, cy: real, w: real, h: real, score: real,
                         hits: nat, misses: nat, age: nat, alertFrames: nat, wasAlert: bool, matched: bool)

  const BLANK_TRACK := Track(false, 0, 0.0, 0.0, 0.0, 0.0, 0.0, 0, 0, 0, 0, false, false)

  /** The track table and the next identifier, a 16-bit counter that skips 0. */
  datatype Table = Table(tracks: seq<Track>, nextId: nat)

  ghost predicate Shape(t: Table) { |t.tracks| == MAX_TRACKS && 1 <= t.nextId < 0x1_0000 }

  function CenterX(b: Blob): real { b.x as real + b.w as real * 0.5 }

  function CenterY(b: Blob): real { b.y as real + b.h as real * 0.5 }

  function DistanceSq(t: Track, b: Blob): real {
    var dx, dy := t.cx - CenterX(b), t.cy - CenterY(b);
    dx * dx + dy * dy
  }

  /** A track that can still be matched in this frame. */
  predicate Available(t: Track) { t.active && !t.matched }

  /** `best` is the first nearest available track closer than FAR, or -1. */
  ghost predicate IsBest(tracks: seq<Track>, b: Blob, n: nat, best: int, d2: real)
    requires n <= |tracks|
  {
    if best < 0 then
      best == -1 && d2 == FAR && forall t :: 0 <= t < n && Available(tracks[t]) ==> DistanceSq(tracks[t], b) >= FAR
    else
      && best < n && Available(tracks[best]) && d2 == DistanceSq(tracks[best], b) < FAR
      && (forall t :: 0 <= t < n && Available(tracks[t]) ==> DistanceSq(tracks[t], b) >= d2)
      && (forall t :: 0 <= t < best && Available(tracks[t]) ==> DistanceSq(tracks[t], b) > d2)
  }

  /** The first free slot from `i` on, or the table size. */
  function FreeSlot(tracks: seq<Track>, i: nat): (s: nat)
    requires i <= |tracks|
    ensures i <= s <= |tracks| && (s < |tracks| ==> !tracks[s].active)
    ensures forall k :: i <= k < s ==> tracks[k].active
    decreases |tracks| - i
  {
    if i == |tracks| || !tracks[i].active then i else FreeSlot(tracks, i + 1)
  }

  function Blend(new_: real, previous: real): real { ALPHA * new_ + (1.0 - ALPHA) * previous }

  /** A track after matching a blob. */
  function Matched(t: Track, b: Blob): Track {
    t.(cx := Blend(CenterX(b), t.cx), cy := Blend(CenterY(b), t.cy),
       w := Blend(b.w as real, t.w), h := Blend(b.h as real, t.h), score := Blend(b.score, t.score),
       hits := t.hits + 1, misses := 0, age := t.age + 1, matched := true)
  }

  /** A track started by a blob. */
  function Spawned(b: Blob, id: nat): Track {
    Track(true, id, CenterX(b), CenterY(b), b.w as real, b.h as real, b.score, 1, 0, 1, 0, false, true)
  }

  /** The identifier after `id`: 16 bits, never 0. */
  function IdAfter(id: nat): (r: nat)
    ensures 1 <= r < 0x1_0000
  {
    if (id + 1) % 0x1_0000 == 0 then 1 else (id + 1) % 0x1_0000
  }

  /** An active track that was not matched: one more miss, retired after the hold. */
  function Aged(t: Track): Track {
    if !Available(t) then t
    else t.(misses := t.misses + 1, age := t.age + 1, alertFrames := 0, active := t.misses + 1 <= POSSIBLE_HOLD)
  }

  /** Alert escalation of a matched track. */
  function Escalated(t: Track): Track {
    if !t.active || !t.matched then t
    else
      var frames := if t.score >= ALERT_SCORE then t.alertFrames + 1 else 0;
      t.(alertFrames := frames, wasAlert := t.wasAlert || frames >= ALERT_SUSTAIN)
  }

  function MapTracks(f: Track -> Track, tracks: seq<Track>): (r: seq<Track>)
    ensures |r| == |tracks| && forall k :: 0 <= k < |r| ==> r[k] == f(tracks[k])
  {
    seq(|tracks|, k requires 0 <= k < |tracks| => f(tracks[k]))
  }

  // ---- Publishing ----

  datatype TrackMode = Tracking | Alert | Possible

  datatype TrackOut = TrackOut(id: nat, x: int, y: int, w: int, h: int, score: real, age: nat, hits: nat, mode: TrackMode)

  /** Conversion to an integer truncates toward zero. */
  function Trunc(v: real): int { if v >= 0.0 then v.Floor else -((-v).Floor) }

  function Clamp(v: int, hi: int): int { if v < 0 then 0 else if v >= hi then hi - 1 else v }

  function Extent(start: int, size: int, limit: int): int {
    var s := if start + size > limit then limit - start else size;
    if s < 1 then 1 else s
  }

  predicate Visible(t: Track) { t.active && t.hits >= CONFIRM_HITS }

  /** The published form of a track: its smoothed box cut to the mask and scaled by 8. */
  function PublishTrack(t: Track): TrackOut {
    var x := Clamp(Trunc(t.cx + 0.5) - Trunc(t.w * 0.5 + 0.5), MASK_W);
    var y := Clamp(Trunc(t.cy + 0.5) - Trunc(t.h * 0.5 + 0.5), MASK_H);
    TrackOut(t.id, x * 8, y * 8, Extent(x, Trunc(t.w + 0.5), MASK_W) * 8, Extent(y, Trunc(t.h + 0.5), MASK_H) * 8,
             t.score, t.age, t.hits,
             if t.misses > 0 then Possible else if t.alertFrames >= ALERT_SUSTAIN || t.wasAlert then Alert else Tracking)
  }

  /** The visible tracks, and only they, are published, in table order: track `k`, if it is active and
      was matched at least twice, stands at `at[k]`. */
  ghost predicate Published(tracks: seq<Track>, n: nat, out: seq<TrackOut>, at: seq<nat>)
    requires n <= |tracks|
  {
    && |at| == n + 1 && at[0] == 0 && at[n] == |out|
    && forall k :: 0 <= k < n ==> PublishedAt(tracks[k], out, at[k], at[k + 1])
  }

  ghost predicate PublishedAt(t: Track, out: seq<TrackOut>, from: nat, to: nat) {
    if t.active && t.hits >= 2 then to == from + 1 <= |out| && out[from] == PublishTrack(t) else to == from <= |out|
  }

  lemma {:induction false} PublishedNext(tracks: seq<Track>, n: nat, out: seq<TrackOut>, at: seq<nat>, more: seq<TrackOut>)
    requires n < |tracks| && Published(tracks, n, out, at)
    requires more == if Visible(tracks[n]) then [PublishTrack(tracks[n])] else []
    ensures Published(tracks, n + 1, out + more, at + [|out + more|])
  {
    hide PublishTrack;
    forall k | 0 <= k < n + 1 ensures PublishedAt(tracks[k], out + more, (at + [|out + more|])[k], (at + [|out + more|])[k + 1]) {
      if k < n {
        assert PublishedAt(tracks[k], out, at[k], at[k + 1]);
      }
    }
  }

  // ---- The program's form ----

  class TrackerState {
    const tracks: array<Track>
    var nextId: nat

    ghost predicate Valid()
      reads this
    {
      tracks.Length == MAX_TRACKS && 1 <= nextId < 0x1_0000
    }

    ghost function Abs(): (t: Table)
      requires Valid()
      reads this, tracks
      ensures Shape(t)
    {
      Table(tracks[..], nextId)
    }

    constructor ()
      ensures Valid() && fresh(tracks) && Abs() == Table(seq(MAX_TRACKS, _ => BLANK_TRACK), 1)
    {
      tracks := new Track[MAX_TRACKS](_ => BLANK_TRACK);
      nextId := 1;
    }

    method AllocTrackId() returns (id: nat)
      requires Valid()
      modifies this`nextId
      ensures Valid() && id == old(nextId) != 0 && nextId == IdAfter(old(nextId))
      ensures nextId == if old(nextId) == 65535 then 1 else old(nextId) + 1
    {
      id := nextId;
      nextId := (nextId + 1) % 0x1_0000;
      if nextId == 0 {
        nextId := 1;
      }
    }

    method ResetMatchFlags()
      requires Valid()
      modifies tracks
      ensures Valid() && tracks[..] == MapTracks(Unflagged, old(tracks[..]))
    {
      for t := 0 to MAX_TRACKS
        invariant forall k :: 0 <= k < t ==> tracks[k] == Unflagged(old(tracks[k]))
        invariant forall k :: t <= k < MAX_TRACKS ==> tracks[k] == old(tracks[k])
      {
        tracks[t] := tracks[t].(matched := false);
      }
    }

    /** The nearest available track, the first one among equals. */
    method FindBest(b: Blob) returns (best: int, bestD2: real)
      requires Valid()
      ensures IsBest(tracks[..], b, MAX_TRACKS, best, bestD2)
    {
      best, bestD2 := -1, FAR;
      for t := 0 to MAX_TRACKS
        invariant IsBest(tracks[..], b, t, best, bestD2)
      {
        hide DistanceSq;
        if tracks[t].active && !tracks[t].matched {
          var d2 := DistanceSq(tracks[t], b);
          if d2 < bestD2 {
            bestD2 := d2;
            best := t;
          }
        }
      }
    }

    /** Match one blob, or start a track for it, or drop it when the table is full. Returns the slot. */
    method PlaceBlob(b: Blob) returns (slot: int)
      requires Valid()
      modifies this`nextId, tracks
      ensures Valid() && Places(old(Abs()), b, Abs(), slot)
    {
      hide IsBest, DistanceSq, Matched, Spawned, IdAfter;
      ghost var before := tracks[..];
      var best, d2 := FindBest(b);
      BestInRange(tracks[..], b, best, d2);
      if best >= 0 && d2 <= MATCH_D2 {
        tracks[best] := Matched(tracks[best], b);
        assert tracks[..] == before[best := Matched(before[best], b)];
        BestIsMatch(before, b, best, d2);
        return best;
      }
      BestIsNoMatch(before, b, best, d2);
      var free := 0;
      while free < MAX_TRACKS && tracks[free].active
        invariant free <= MAX_TRACKS && FreeSlot(tracks[..], 0) == FreeSlot(tracks[..], free)
      {
        free := free + 1;
      }
      assert free == FreeSlot(before, 0);
      if free == MAX_TRACKS {
        return -1;
      }
      var id := AllocTrackId();
      tracks[free] := Spawned(b, id);
      assert tracks[..] == before[free := Spawned(b, id)];
      return free;
    }

    /** Advance the tracks that were not matched. */
    method AgeUnmatched()
      requires Valid()
      modifies tracks
      ensures Valid() && tracks[..] == MapTracks(Aged, old(tracks[..]))
    {
      for t := 0 to MAX_TRACKS
        invariant forall k :: 0 <= k < t ==> tracks[k] == Aged(old(tracks[k]))
        invariant forall k :: t <= k < MAX_TRACKS ==> tracks[k] == old(tracks[k])
      {
        if tracks[t].active && !tracks[t].matched {
          var tr := tracks[t];
          tracks[t] := tr.(misses := tr.misses + 1, age := tr.age + 1, alertFrames := 0);
          if tr.misses + 1 > POSSIBLE_HOLD {
            tracks[t] := tracks[t].(active := false);
          }
        }
      }
    }

    method EscalateMatched()
      requires Valid()
      modifies tracks
      ensures Valid() && tracks[..] == MapTracks(Escalated, old(tracks[..]))
    {
      for t := 0 to MAX_TRACKS
        invariant forall k :: 0 <= k < t ==> tracks[k] == Escalated(old(tracks[k]))
        invariant forall k :: t <= k < MAX_TRACKS ==> tracks[k] == old(tracks[k])
      {
        if tracks[t].active && tracks[t].matched {
          var frames := if tracks[t].score >= ALERT_SCORE then tracks[t].alertFrames + 1 else 0;
          tracks[t] := tracks[t].(alertFrames := frames);
          if frames >= ALERT_SUSTAIN {
            tracks[t] := tracks[t].(wasAlert := true);
          }
        }
      }
    }

    /** `tracker_update`: place every blob, age the rest, escalate. The slots say where each blob went. */
    method Update(blobs: seq<Blob>) returns (slots: seq<int>)
      requires Valid()
      modifies this`nextId, tracks
      ensures Valid() && Updated(old(Abs()), blobs, Abs(), slots)
    {
      hide Places;
      slots := [];
      ghost var placed := [Abs()];
      for i := 0 to |blobs|
        invariant Valid() && |placed| == i + 1 && |slots| == i
        invariant placed[0] == old(Abs()) && placed[i] == Abs()
        invariant forall k :: 0 <= k < i ==> Places(placed[k], blobs[k], placed[k + 1], slots[k])
      {
        var slot := PlaceBlob(blobs[i]);
        slots := slots + [slot];
        placed := placed + [Abs()];
      }
      assert PlacesAll(placed, blobs, slots);
      AgeUnmatched();
      EscalateMatched();
    }

    /** The loop of the motion task for frames without blobs. */
    method AgeAll()
      requires Valid()
      modifies tracks
      ensures Valid() && nextId == old(nextId) && tracks[..] == MapTracks(AgedAlways, old(tracks[..]))
    {
      for t := 0 to MAX_TRACKS
        invariant forall k :: 0 <= k < t ==> tracks[k] == AgedAlways(old(tracks[k]))
        invariant forall k :: t <= k < MAX_TRACKS ==> tracks[k] == old(tracks[k])
      {
        if tracks[t].active {
          var tr := tracks[t];
          tracks[t] := tr.(misses := tr.misses + 1, age := tr.age + 1, alertFrames := 0);
          if tr.misses + 1 > POSSIBLE_HOLD {
            tracks[t] := tracks[t].(active := false);
          }
        }
      }
    }

    /** `tracker_publish`: the visible tracks and the largest score among them. */
    method Publish() returns (out: seq<TrackOut>, globalScore: real, ghost at: seq<nat>)
      requires Valid()
      ensures Published(tracks[..], 6, out, at) && |out| <= MAX_TRACKS
      ensures globalScore >= 0.0 && (forall o :: o in out ==> o.score <= globalScore)
      ensures globalScore == 0.0 || exists o :: o in out && o.score == globalScore
    {
      hide PublishTrack, Published;
      out, globalScore, at := [], 0.0, [0];
      NothingPublished(tracks[..]);
      for t := 0 to MAX_TRACKS
        invariant Published(tracks[..], t, out, at) && |out| <= t
        invariant globalScore >= 0.0 && (forall o :: o in out ==> o.score <= globalScore)
        invariant globalScore == 0.0 || exists o :: o in out && o.score == globalScore
      {
        ghost var before := out;
        PublishedNext(tracks[..], t, out, at, if Visible(tracks[t]) then [PublishTrack(tracks[t])] else []);
        if tracks[t].active && tracks[t].hits >= CONFIRM_HITS {
          PublishedScore(tracks[t]);
          out := out + [PublishTrack(tracks[t])];
          assert PublishTrack(tracks[t]) in out && forall o :: o in before ==> o in out;
          if tracks[t].score > globalScore {
            globalScore := tracks[t].score;
          }
        } else {
          assert before + [] == out;
        }
        at := at + [|out|];
      }
    }

    /** One frame of the motion task: reset the flags, then update or age. */
    method Frame(blobs: seq<Blob>) returns (slots: seq<int>)
      requires Valid()
      modifies this`nextId, tracks
      ensures Valid() && FrameStep(old(Abs()), blobs, Abs(), slots)
    {
      hide Updated;
      ghost var start := Abs();
      ResetMatchFlags();
      assert Abs() == Reset(start);
      slots := [];
      if |blobs| > 0 {
        slots := Update(blobs);
      } else {
        AgeAll();
        NoBlobLoopIsUpdate(Reset(start), Abs());
      }
    }
  }

  lemma NothingPublished(tracks: seq<Track>)
    ensures Published(tracks, 0, [], [0])
  {
  }

  lemma {:induction false} PublishedScore(t: Track)
    ensures PublishTrack(t).score == t.score
  {
  }

  function Unflagged(t: Track): Track { t.(matched := false) }

  /** The no-blob loop does not look at the match flag. */
  function AgedAlways(t: Track): Track {
    if !t.active then t
    else t.(misses := t.misses + 1, age := t.age + 1, alertFrames := 0, active := t.misses + 1 <= POSSIBLE_HOLD)
  }

  /** The slot chosen by matching: the nearest available track within the match distance. */
  ghost predicate MatchesAt(tracks: seq<Track>, b: Blob, s: nat) {
    && s < |tracks| && Available(tracks[s]) && DistanceSq(tracks[s], b) <= MATCH_D2
    && (forall t :: 0 <= t < |tracks| && Available(tracks[t]) ==> DistanceSq(tracks[t], b) >= DistanceSq(tracks[s], b))
    && (forall t :: 0 <= t < s && Available(tracks[t]) ==> DistanceSq(tracks[t], b) > DistanceSq(tracks[s], b))
  }

  ghost predicate NoMatch(tracks: seq<Track>, b: Blob) {
    forall t :: 0 <= t < |tracks| && Available(tracks[t]) ==> DistanceSq(tracks[t], b) > MATCH_D2
  }

  /** Where a blob goes: to the nearest track in reach, else to a new track, else nowhere. */
  ghost predicate Places(t: Table, b: Blob, t': Table, slot: int) {
    || (slot >= 0 && MatchesAt(t.tracks, b, slot) && t' == t.(tracks := t.tracks[slot := Matched(t.tracks[slot], b)]))
    || (slot >= 0 && NoMatch(t.tracks, b) && slot == FreeSlot(t.tracks, 0) < |t.tracks|
        && t' == Table(t.tracks[slot := Spawned(b, t.nextId)], IdAfter(t.nextId)))
    || (slot == -1 && NoMatch(t.tracks, b) && FreeSlot(t.tracks, 0) == |t.tracks| && t' == t)
  }

  lemma {:induction false} BestInRange(tracks: seq<Track>, b: Blob, best: int, d2: real)
    requires |tracks| == MAX_TRACKS && IsBest(tracks, b, MAX_TRACKS, best, d2)
    ensures -1 <= best < MAX_TRACKS
  {
  }

  lemma {:induction false} BestIsMatch(tracks: seq<Track>, b: Blob, best: int, d2: real)
    requires |tracks| == MAX_TRACKS && IsBest(tracks, b, MAX_TRACKS, best, d2) && best >= 0 && d2 <= MATCH_D2
    ensures MatchesAt(tracks, b, best)
  {
    hide DistanceSq;
  }

  lemma {:induction false} BestIsNoMatch(tracks: seq<Track>, b: Blob, best: int, d2: real)
    requires |tracks| == MAX_TRACKS && IsBest(tracks, b, MAX_TRACKS, best, d2) && !(best >= 0 && d2 <= MATCH_D2)
    ensures NoMatch(tracks, b)
  {
    hide DistanceSq;
  }

  ghost predicate PlacesAll(placed: seq<Table>, blobs: seq<Blob>, slots: seq<int>) {
    && |placed| == |blobs| + 1 && |slots| == |blobs|
    && forall k :: 0 <= k < |blobs| ==> Places(placed[k], blobs[k], placed[k + 1], slots[k])
  }

  /** The tables between: all blobs placed one after the other, then ageing and escalation. */
  ghost predicate Updated(t: Table, blobs: seq<Blob>, t': Table, slots: seq<int>) {
    exists placed :: PlacesAll(placed, blobs, slots) && placed[0] == t && t' == Finished(placed[|blobs|])
  }

  function Finished(t: Table): Table {
    t.(tracks := MapTracks(Escalated, MapTracks(Aged, t.tracks)))
  }

  function Reset(t: Table): Table { t.(tracks := MapTracks(Unflagged, t.tracks)) }

  /** One frame: flags reset, then `tracker_update`, whether or not there are blobs. */
  ghost predicate FrameStep(t: Table, blobs: seq<Blob>, t': Table, slots: seq<int>) {
    Updated(Reset(t), blobs, t', slots)
  }

  /** The inline loop for frames without blobs does what the update does on an empty list. */
  lemma {:induction false} NoBlobLoopIsUpdate(t: Table, t': Table)
    requires forall k :: 0 <= k < |t.tracks| ==> !t.tracks[k].matched
    requires t' == t.(tracks := MapTracks(AgedAlways, t.tracks))
    ensures Updated(t, [], t', [])
  {
    assert PlacesAll([t], [], []);
    forall k | 0 <= k < |t.tracks|
      ensures AgedAlways(t.tracks[k]) == Escalated(Aged(t.tracks[k]))
    {
    }
    assert t'.tracks == Finished(t).tracks;
  }
}
