/** What the tasks get from the pool: the frame the producer wrote, under the number it was published
    with, and a place among the subscribers for as long as they want it. */
module PoolDelivery {
  import opened Options
  import opened PoolOps
  import opened PoolProtocol
  import opened PoolSafety

  // ---- Frames ----

  /** The slot holds this picture: its bytes, length and size. */
  ghost predicate SamePicture(held: Frame, written: Frame) {
    held.buf == written.buf && held.len == written.len && held.width == written.width && held.height == written.height
  }

  /** Step `j` writes the frame that step `i` publishes: the producer owns its slot all the while and
      writes no other frame into it. */
  ghost predicate WrittenFor(ws: seq<World>, steps: seq<Action>, j: nat, i: nat) {
    && |ws| == |steps| + 1 && j < i < |steps|
    && steps[j].WriteFrame? && steps[i].PublishSlot?
    && (forall k :: j <= k <= i ==> ws[k].prod.Filling?)
    && (forall k :: j < k < i ==> !steps[k].WriteFrame?)
  }

  lemma {:induction false} WriteSets(w: World, f: Frame)
    requires Shape(w) && Enabled(w, WriteFrame(f))
    ensures var w' := Apply(w, WriteFrame(f));
            Shape(w') && w'.prod == w.prod && SamePicture(w'.pool.frames[w.prod.slot], f)
  {
  }

  /** While the producer goes on filling, no step but its own write changes a frame. */
  lemma {:induction false} FillingStays(w: World, a: Action)
    requires Shape(w) && Enabled(w, a) && w.prod.Filling? && Apply(w, a).prod.Filling? && !a.WriteFrame?
    ensures Shape(Apply(w, a)) && Apply(w, a).prod == w.prod && Apply(w, a).pool.frames == w.pool.frames
  {
  }

  /** From the write to the publish the producer's slot holds what was written. */
  lemma {:induction false} WrittenStays(ws: seq<World>, steps: seq<Action>, j: nat, i: nat, k: nat)
    requires IsRun(ws, steps) && WrittenFor(ws, steps, j, i) && j < k <= i
    ensures Shape(ws[k]) && ws[k].prod.Filling? && SamePicture(ws[k].pool.frames[ws[k].prod.slot], steps[j].frame)
    decreases k
  {
    hide Apply, Enabled, Shape, Initial, SamePicture;
    assert Follows(ws[k - 1], steps[k - 1], ws[k - 1 + 1]);
    if k == j + 1 {
      WriteSets(ws[j], steps[j].frame);
    } else {
      WrittenStays(ws, steps, j, i, k - 1);
      FillingStays(ws[k - 1], steps[k - 1]);
    }
  }

  lemma {:induction false} PublishKeepsPicture(w: World, a: Action)
    requires Shape(w) && Enabled(w, a) && a.PublishSlot?
    ensures var w' := Apply(w, a);
            && w.prod.Filling? && Shape(w') && w'.pool.latest == Some(w.prod.slot)
            && SamePicture(w'.pool.frames[w.prod.slot], w.pool.frames[w.prod.slot])
            && w'.pool.frames[w.prod.slot].seqNo == w.pool.nextSeq + 1 == w'.pool.nextSeq
            && w'.pool.frames[w.prod.slot].ts == a.ts
  {
  }

  /** What is published is what was written: the latest slot after the publish holds the bytes, the
      length and the size given to the write, with the next number and the time of the publish. */
  lemma {:induction false} WrittenIsPublished(ws: seq<World>, steps: seq<Action>, j: nat, i: nat)
    requires IsRun(ws, steps) && WrittenFor(ws, steps, j, i)
    ensures Shape(ws[i + 1]) && ws[i + 1].pool.latest.Some?
    ensures var held, written := ws[i + 1].pool.frames[ws[i + 1].pool.latest.value], steps[j].frame;
            && held.buf == written.buf && held.len == written.len
            && held.width == written.width && held.height == written.height
            && held.seqNo == ws[i].pool.nextSeq + 1 && held.ts == steps[i].ts
  {
    WrittenStays(ws, steps, j, i, i);
    assert Follows(ws[i], steps[i], ws[i + 1]);
    hide Apply, Enabled, Initial, IsRun, Shape;
    PublishKeepsPicture(ws[i], steps[i]);
  }

  /** The frame numbered `n` is `f` wherever it lies, but in a slot the producer has taken again. */
  ghost predicate NumberIs(w: World, n: nat, f: Frame) {
    && n <= w.pool.nextSeq
    && forall s :: 0 <= s < |w.pool.frames| && w.pool.frames[s].seqNo == n && w.prod != Filling(s) ==> w.pool.frames[s] == f
  }

  /** A step changes at most the producer's slot, and only by writing or publishing it. */
  lemma {:induction false} FramesStep(w: World, a: Action)
    requires Shape(w) && Enabled(w, a)
    ensures Shape(Apply(w, a))
    ensures var w' := Apply(w, a);
            if a.WriteFrame? || a.PublishSlot? then
              && w.prod.Filling?
              && (forall s :: 0 <= s < SLOT_COUNT && s != w.prod.slot ==> w'.pool.frames[s] == w.pool.frames[s])
              && (if a.WriteFrame? then w'.prod == w.prod else w'.pool.frames[w.prod.slot].seqNo == w.pool.nextSeq + 1)
            else w'.pool.frames == w.pool.frames && (w.prod.Filling? ==> w'.prod == w.prod)
  {
    ShapeKept(w, a);
  }

  lemma {:induction false} NumberIsKept(w: World, a: Action, n: nat, f: Frame)
    requires Shape(w) && Enabled(w, a) && NumberIs(w, n, f)
    ensures NumberIs(Apply(w, a), n, f)
  {
    FramesStep(w, a);
    SeqStep(w, a);
    hide Apply, Enabled;
  }

  /** After its publish the frame with the new number is the latest one and no other. */
  lemma {:induction false} NumberIsGiven(w: World, a: Action)
    requires Inv(w) && Enabled(w, a) && a.PublishSlot?
    ensures var p := Apply(w, a).pool;
            && Shape(Apply(w, a)) && p.latest.Some?
            && NumberIs(Apply(w, a), w.pool.nextSeq + 1, p.frames[p.latest.value])
  {
    hide RefsExact, FillingAlone, NoLostWakeup, CountersAgree, SubsDistinct;
  }

  lemma {:induction false} LatestInside(w: World)
    requires Shape(w) && w.pool.latest.Some?
    ensures w.pool.latest.value < |w.pool.frames|
  {
  }

  lemma {:induction false} NumberStays(ws: seq<World>, steps: seq<Action>, i: nat, m: nat)
    requires IsRun(ws, steps) && i < m < |ws| && steps[i].PublishSlot?
    ensures var p := ws[i + 1].pool;
            && Shape(ws[i + 1]) && p.latest.Some?
            && NumberIs(ws[m], ws[i].pool.nextSeq + 1, p.frames[p.latest.value])
    decreases m
  {
    hide Apply, Enabled, Shape, NumberIs, Inv, Initial;
    assert Follows(ws[m - 1], steps[m - 1], ws[m - 1 + 1]);
    if m == i + 1 {
      InvAlways(ws, steps, i);
      NumberIsGiven(ws[i], steps[i]);
    } else {
      NumberStays(ws, steps, i, m - 1);
      LatestInside(ws[i + 1]);
      NumberIsKept(ws[m - 1], steps[m - 1], ws[i].pool.nextSeq + 1, ws[i + 1].pool.frames[ws[i + 1].pool.latest.value]);
    }
  }

  lemma {:induction false} HeldNotFilling(w: World, t: Task, s: nat)
    requires Inv(w) && t in w.cons && w.cons[t] == Holding(s)
    ensures s < SLOT_COUNT && w.prod != Filling(s) && |w.pool.frames| == SLOT_COUNT
  {
    hide RefsExact, Numbered, NoLostWakeup, CountersAgree, SubsDistinct;
    assert t in Holders(w.cons, s);
  }

  /** Whoever holds the frame with number `n`, however long ago it took it, holds the bytes, the length
      and the size the producer wrote for `n`. */
  lemma {:induction false} HeldIsWritten(ws: seq<World>, steps: seq<Action>, j: nat, i: nat, m: nat, t: Task, s: nat)
    requires IsRun(ws, steps) && WrittenFor(ws, steps, j, i) && i < m < |ws|
    requires t in ws[m].cons && ws[m].cons[t] == Holding(s)
    ensures s < |ws[m].pool.frames|
    ensures var held, written := ws[m].pool.frames[s], steps[j].frame;
            held.seqNo == ws[i].pool.nextSeq + 1 ==>
              && held.buf == written.buf && held.len == written.len
              && held.width == written.width && held.height == written.height && held.ts == steps[i].ts
  {
    WrittenIsPublished(ws, steps, j, i);
    NumberStays(ws, steps, i, m);
    InvAlways(ws, steps, m);
    HeldNotFilling(ws[m], t, s);
  }

  // ---- Every number held has been published ----

  /** Numbers start at 1: slot 0 before the first publish is never handed out. */
  ghost predicate HeldNumbered(w: World)
    requires Shape(w)
  {
    && (w.pool.latest.Some? ==> w.pool.nextSeq > 0)
    && forall t :: t in w.cons && w.cons[t].Holding? ==> 0 < w.pool.frames[w.cons[t].slot].seqNo <= w.pool.nextSeq
  }

  lemma {:induction false} LatestCounted(w: World, a: Action)
    requires Shape(w) && Enabled(w, a) && (w.pool.latest.Some? ==> w.pool.nextSeq > 0)
    ensures Apply(w, a).pool.latest.Some? ==> Apply(w, a).pool.nextSeq > 0
  {
  }

  /** A holder held the same slot before, or has just taken the latest one. */
  lemma {:induction false} HolderBefore(w: World, a: Action, t: Task)
    requires Shape(w) && Enabled(w, a) && t in Apply(w, a).cons && Apply(w, a).cons[t].Holding?
    ensures var w' := Apply(w, a);
            && t in w.cons
            && (w.cons[t] == w'.cons[t] || (w.pool.latest == Some(w'.cons[t].slot) && w'.pool.frames == w.pool.frames))
  {
  }

  lemma {:induction false} HeldNumberedKept(w: World, a: Action)
    requires Inv(w) && Enabled(w, a) && HeldNumbered(w)
    ensures Shape(Apply(w, a)) && HeldNumbered(Apply(w, a))
  {
    hide RefsExact, FillingAlone, NoLostWakeup, CountersAgree, SubsDistinct, FreeFrom, Unsubscribe, Apply, Enabled;
    ShapeKept(w, a);
    SeqStep(w, a);
    LatestCounted(w, a);
    var w' := Apply(w, a);
    forall t | t in w'.cons && w'.cons[t].Holding?
      ensures 0 < w'.pool.frames[w'.cons[t].slot].seqNo <= w'.pool.nextSeq
    {
      HolderBefore(w, a, t);
      var s := w'.cons[t].slot;
      if w.cons[t] == Holding(s) {
        HeldFrameKept(w, a, t, s);
      }
    }
  }

  lemma {:induction false} HeldNumberedAlways(ws: seq<World>, steps: seq<Action>, m: nat)
    requires IsRun(ws, steps) && m < |ws|
    ensures Shape(ws[m]) && HeldNumbered(ws[m])
    decreases m
  {
    hide Apply, Enabled, HeldNumbered, Inv;
    InvAlways(ws, steps, m);
    if m == 0 {
      NoneHeld(ws[0]);
    } else {
      HeldNumberedAlways(ws, steps, m - 1);
      InvAlways(ws, steps, m - 1);
      assert Follows(ws[m - 1], steps[m - 1], ws[m - 1 + 1]);
      HeldNumberedKept(ws[m - 1], steps[m - 1]);
    }
  }

  lemma {:induction false} NoneHeld(w: World)
    requires Initial(w)
    ensures Shape(w) && HeldNumbered(w)
  {
  }

  lemma {:induction false} NumberPublished(ws: seq<World>, steps: seq<Action>, m: nat, n: nat) returns (i: nat)
    requires IsRun(ws, steps) && m < |ws| && 0 < n <= ws[m].pool.nextSeq
    ensures i < m && steps[i].PublishSlot? && ws[i].pool.nextSeq + 1 == n
    decreases m
  {
    hide Apply, Enabled, Shape;
    if m > 0 {
      assert Follows(ws[m - 1], steps[m - 1], ws[m - 1 + 1]);
      SeqStep(ws[m - 1], steps[m - 1]);
      if n <= ws[m - 1].pool.nextSeq {
        i := NumberPublished(ws, steps, m - 1, n);
      } else {
        i := m - 1;
      }
    }
  }

  /** Every frame a consumer holds was published, in one earlier step that gave it its number. */
  lemma {:induction false} HeldWasPublished(ws: seq<World>, steps: seq<Action>, m: nat, t: Task) returns (i: nat)
    requires IsRun(ws, steps) && m < |ws| && t in ws[m].cons && ws[m].cons[t].Holding?
    ensures Shape(ws[m]) && i < m && steps[i].PublishSlot?
    ensures ws[m].pool.frames[ws[m].cons[t].slot].seqNo == ws[i].pool.nextSeq + 1
  {
    HeldNumberedAlways(ws, steps, m);
    hide IsRun;
    i := NumberPublished(ws, steps, m, ws[m].pool.frames[ws[m].cons[t].slot].seqNo);
  }

  /** `wait_newer` takes the latest frame exactly when there is one with a larger number; a reference
      is counted, and otherwise nothing changes in the pool. */
  lemma {:induction false} CheckTakesIff(w: World, t: Task)
    requires Shape(w) && Enabled(w, CheckBy(t))
    ensures var w', l := Apply(w, CheckBy(t)), w.pool.latest;
            if l.Some? && w.pool.frames[l.value].seqNo > w.cons[t].lastSeq
            then w'.cons[t] == Holding(l.value) && w'.pool.refs == w.pool.refs[l.value := w.pool.refs[l.value] + 1]
            else w'.cons[t] == Checked(w.cons[t].lastSeq) && w'.pool == w.pool
  {
  }

  /** `get_latest` takes the latest frame whenever one has been published. */
  lemma {:induction false} GetTakesIff(w: World, t: Task)
    requires Shape(w) && Enabled(w, GetLatestBy(t))
    ensures var w', l := Apply(w, GetLatestBy(t)), w.pool.latest;
            if l.Some?
            then w'.cons[t] == Holding(l.value) && w'.pool.refs == w.pool.refs[l.value := w.pool.refs[l.value] + 1]
            else w'.cons[t] == w.cons[t] && w'.pool == w.pool
  {
  }

  // ---- Subscribers ----

  /** Subscribing succeeds exactly for a subscriber or while there is room; a task told that it is
      subscribed is on the list, and nobody else's place changes. */
  lemma {:induction false} SubscribeAdds(p: Pool, t: Task)
    ensures var (p', ok) := Subscribe(p, t);
            && (ok <==> t in p.subs || |p.subs| < 6)
            && (ok <==> t in p'.subs)
            && (forall u :: u != t ==> (u in p'.subs <==> u in p.subs))
            && p' == p.(subs := p'.subs)
  {
  }

  lemma {:induction false} SubscribedStep(w: World, a: Action, t: Task)
    requires Inv(w) && Enabled(w, a) && t in w.pool.subs && a != UnsubscribeBy(t)
    ensures t in Apply(w, a).pool.subs
  {
    hide Unsubscribe, FreeFrom, RefsExact, Numbered, NoLostWakeup, CountersAgree;
    if a.UnsubscribeBy? {
      UnsubscribeRemoves(w.pool, a.t);
    }
  }

  /** A task that was told it is subscribed stays on the publisher's list until it unsubscribes, whatever
      the others do. */
  lemma {:induction false} StaysSubscribed(ws: seq<World>, steps: seq<Action>, i: nat, m: nat, t: Task)
    requires IsRun(ws, steps) && i < m < |ws| && steps[i] == SubscribeBy(t) && Subscribe(ws[i].pool, t).1
    requires forall k :: i < k < m ==> steps[k] != UnsubscribeBy(t)
    ensures t in ws[m].pool.subs
    decreases m
  {
    hide Enabled, Inv, Subscribe, Shape, Initial;
    assert Follows(ws[m - 1], steps[m - 1], ws[m - 1 + 1]);
    if m == i + 1 {
      SubscribeAdds(ws[i].pool, t);
    } else {
      hide Apply;
      StaysSubscribed(ws, steps, i, m - 1, t);
      InvAlways(ws, steps, m - 1);
      SubscribedStep(ws[m - 1], steps[m - 1], t);
    }
  }

  // ---- Notifications ----

  /** The publisher notifies `t` in this step. */
  ghost predicate Notifies(w: World, a: Action, t: Task) {
    a.NotifyNext? && w.prod.Notifying? && w.prod.notify != [] && w.prod.notify[0] == t
  }

  lemma {:induction false} NotesStep(w: World, a: Action, t: Task)
    requires Shape(w) && Enabled(w, a) && t in w.notes
    ensures t in Apply(w, a).notes
    ensures Apply(w, a).notes[t] == if a == Wake(t) then 0 else w.notes[t] + if Notifies(w, a, t) then 1 else 0
  {
    hide Unsubscribe, FreeFrom;
  }

  /** Waking up takes all pending notifications: until the publisher notifies the task again it has none. */
  lemma {:induction false} WokenOnce(ws: seq<World>, steps: seq<Action>, i: nat, m: nat, t: Task)
    requires IsRun(ws, steps) && i < m < |ws| && steps[i] == Wake(t)
    requires forall k :: i < k < m ==> !Notifies(ws[k], steps[k], t)
    ensures t in ws[m].notes && ws[m].notes[t] == 0
    decreases m
  {
    hide Apply, Initial, Notifies;
    assert Follows(ws[m - 1], steps[m - 1], ws[m - 1 + 1]);
    if m > i + 1 {
      WokenOnce(ws, steps, i, m - 1, t);
    }
    NotesStep(ws[m - 1], steps[m - 1], t);
  }
}
