/** What the pool protocol guarantees in every interleaving. */
module PoolSafety {
  import opened Options
  import opened PoolOps
  import opened PoolProtocol

  // ---- Reference counts ----

  /** In every world of every run each count is exactly the latest reference, the producer's, the
      pending drop's and the consumers', and so never negative. */
  lemma {:induction false} RefcountsExact(ws: seq<World>, steps: seq<Action>, i: nat, s: nat)
    requires IsRun(ws, steps) && i < |ws| && s < SLOT_COUNT
    ensures Shape(ws[i]) && ws[i].pool.refs[s] == Recount(ws[i], s) >= 0
  {
    hide IsRun;
    InvAlways(ws, steps, i);
    hide Numbered, NoLostWakeup, CountersAgree, SubsDistinct, FillingAlone;
  }

  /** A slot handed to the producer is not the latest, is held by nobody and is about to be dropped by nobody. */
  lemma {:induction false} AcquiredSlotUnused(w: World)
    requires Inv(w) && w.prod.Idle?
    ensures var slot := Acquire(w.pool).1;
            slot.Some? ==> w.pool.latest != slot && Holders(w.cons, slot.value) == {} && w.pool.refs[slot.value] == 0
  {
    hide Numbered, NoLostWakeup, CountersAgree, SubsDistinct;
    var s := FreeFrom(w.pool.refs, 0);
    if s < SLOT_COUNT {
      assert w.pool.refs[s] == Recount(w, s);
      HoldersEmpty(w.cons, s);
    }
  }

  /** Exactly when acquire fails: every slot is the latest or held by a consumer. */
  lemma {:induction false} AcquireFailsIff(w: World)
    requires Inv(w) && w.prod.Idle?
    ensures Acquire(w.pool).1.None? <==>
            forall s :: 0 <= s < SLOT_COUNT ==> w.pool.latest == Some(s) || Holders(w.cons, s) != {}
  {
    hide Holders, Numbered, NoLostWakeup, CountersAgree, SubsDistinct;
    forall s | 0 <= s < SLOT_COUNT
      ensures w.pool.refs[s] == 0 <==> w.pool.latest != Some(s) && Holders(w.cons, s) == {}
    {
      assert w.pool.refs[s] == Recount(w, s);
      HoldersEmpty(w.cons, s);
    }
  }

  ghost function AllHolders(cons: map<Task, Consumer>): set<Task> {
    set t | t in cons && cons[t].Holding?
  }

  /** Acquire fails only while at least three consumer references are outstanding. */
  lemma {:induction false} StarvedMeansThreeHolds(w: World)
    requires Inv(w) && w.prod.Idle? && Acquire(w.pool).1.None?
    ensures |AllHolders(w.cons)| >= 3
  {
    AcquireFailsIff(w);
    hide Inv;
    var l := if w.pool.latest.Some? then w.pool.latest.value else 4;
    var a := if l == 0 then 1 else 0;
    var b := if l <= 1 then 2 else 1;
    var c := if l <= 2 then 3 else 2;
    var ta :| ta in Holders(w.cons, a);
    var tb :| tb in Holders(w.cons, b);
    var tc :| tc in Holders(w.cons, c);
    assert {ta, tb, tc} <= AllHolders(w.cons);
    SubsetSize({ta, tb, tc}, AllHolders(w.cons));
  }

  lemma {:induction false} SubsetSize(a: set<Task>, b: set<Task>)
    requires a <= b
    ensures |a| <= |b|
  {
    assert b == a + (b - a);
  }

  /** With no consumer holding and the producer between frames, only the latest slot is referenced, once. */
  lemma {:induction false} QuiescentRefs(w: World, s: nat)
    requires Inv(w) && w.prod.Idle? && s < SLOT_COUNT
    requires forall t :: t in w.cons ==> !w.cons[t].Holding?
    ensures w.pool.refs[s] == if w.pool.latest == Some(s) then 1 else 0
  {
    hide Numbered, NoLostWakeup, CountersAgree, SubsDistinct;
    assert w.pool.refs[s] == Recount(w, s);
    assert Holders(w.cons, s) == {};
  }

  // ---- Three holds can starve the producer ----

  ghost function Last(ws: seq<World>): World
    requires |ws| > 0
  {
    ws[|ws| - 1]
  }

  lemma {:induction false} ExtendRun(ws: seq<World>, steps: seq<Action>, a: Action)
    requires IsRun(ws, steps) && Shape(Last(ws)) && Enabled(Last(ws), a)
    ensures IsRun(ws + [Apply(Last(ws), a)], steps + [a])
  {
    hide Apply, Enabled, Shape, Initial;
    var ws', steps' := ws + [Apply(Last(ws), a)], steps + [a];
    forall i | 0 <= i < |steps'|
      ensures Follows(ws'[i], steps'[i], ws'[i + 1])
    {
      if i < |steps| {
        assert Follows(ws[i], steps[i], ws[i + 1]);
      }
    }
  }

  lemma {:induction false} RunEndsInv(ws: seq<World>, steps: seq<Action>)
    requires IsRun(ws, steps)
    ensures Inv(Last(ws))
  {
    InvAlways(ws, steps, |ws| - 1);
  }

  /** The world after one frame published into a free slot, with no subscribers to notify. */
  ghost predicate FramePublished(w: World, w': World) {
    && w'.prod.Idle? && w'.cons == w.cons && w'.pool.subs == w.pool.subs
    && w'.pool.latest.Some? && w'.pool.latest != w.pool.latest
    && w'.pool.latest.value < SLOT_COUNT && Holders(w.cons, w'.pool.latest.value) == {}
  }

  lemma {:induction false} PublishOne(w: World) returns (path: seq<Action>, w1: World, w2: World, w3: World, w4: World, w5: World)
    requires Inv(w) && w.prod.Idle? && w.pool.subs == [] && Acquire(w.pool).1.Some?
    ensures path == [AcquireSlot, PublishSlot(0), DropOld, NotifyNext, RecordPublish]
    ensures Follows(w, path[0], w1) && Follows(w1, path[1], w2) && Follows(w2, path[2], w3)
            && Follows(w3, path[3], w4) && Follows(w4, path[4], w5)
    ensures FramePublished(w, w5)
  {
    AcquiredSlotUnused(w);
    hide Holders, AllHolders, RefsExact, Numbered, NoLostWakeup, CountersAgree, SubsDistinct, FillingAlone;
    path := [AcquireSlot, PublishSlot(0), DropOld, NotifyNext, RecordPublish];
    w1 := Apply(w, AcquireSlot);
    w2 := Apply(w1, PublishSlot(0));
    w3 := Apply(w2, DropOld);
    w4 := Apply(w3, NotifyNext);
    w5 := Apply(w4, RecordPublish);
  }

  lemma {:induction false} RunPublish(ws: seq<World>, steps: seq<Action>) returns (ws': seq<World>, steps': seq<Action>)
    requires IsRun(ws, steps) && Last(ws).prod.Idle? && Last(ws).pool.subs == []
    requires exists s :: 0 <= s < SLOT_COUNT && Last(ws).pool.latest != Some(s) && Holders(Last(ws).cons, s) == {}
    ensures IsRun(ws', steps') && FramePublished(Last(ws), Last(ws'))
  {
    RunEndsInv(ws, steps);
    AcquireFailsIff(Last(ws));
    var path, w1, w2, w3, w4, w5 := PublishOne(Last(ws));
    hide Inv, Apply, Enabled, IsRun, FramePublished, Holders;
    ExtendRun(ws, steps, path[0]);
    ExtendRun(ws + [w1], steps + [path[0]], path[1]);
    ExtendRun(ws + [w1] + [w2], steps + [path[0]] + [path[1]], path[2]);
    ExtendRun(ws + [w1] + [w2] + [w3], steps + [path[0]] + [path[1]] + [path[2]], path[3]);
    ExtendRun(ws + [w1] + [w2] + [w3] + [w4], steps + [path[0]] + [path[1]] + [path[2]] + [path[3]], path[4]);
    ws' := ws + [w1] + [w2] + [w3] + [w4] + [w5];
    steps' := steps + [path[0]] + [path[1]] + [path[2]] + [path[3]] + [path[4]];
  }

  lemma {:induction false} RunGet(ws: seq<World>, steps: seq<Action>, t: Task) returns (ws': seq<World>, steps': seq<Action>)
    requires IsRun(ws, steps) && Last(ws).prod.Idle? && Last(ws).pool.latest.Some?
    requires t in Last(ws).cons && Last(ws).cons[t].Ready?
    ensures IsRun(ws', steps') && Last(ws').prod.Idle? && Last(ws').pool.subs == Last(ws).pool.subs
    ensures Last(ws').pool.latest == Last(ws).pool.latest
    ensures Last(ws').cons == Last(ws).cons[t := Holding(Last(ws).pool.latest.value)]
  {
    RunEndsInv(ws, steps);
    hide RefsExact, Numbered, NoLostWakeup, CountersAgree, SubsDistinct, FillingAlone, IsRun;
    ExtendRun(ws, steps, GetLatestBy(t));
    ws', steps' := ws + [Apply(Last(ws), GetLatestBy(t))], steps + [GetLatestBy(t)];
  }

  lemma {:induction false} NotHeld(cons: map<Task, Consumer>, s: nat)
    requires forall t :: t in cons ==> cons[t] != Holding(s)
    ensures Holders(cons, s) == {}
  {
  }

  /** Some slot is none of three. */
  lemma {:induction false} FourthSlot(a: nat, b: nat, c: nat) returns (d: nat)
    ensures d < SLOT_COUNT && d != a && d != b && d != c
  {
    d := if a != 0 && b != 0 && c != 0 then 0
         else if a != 1 && b != 1 && c != 1 then 1
         else if a != 2 && b != 2 && c != 2 then 2 else 3;
  }

  /** Consumer `t` comes to hold a newly published frame. The others hold `a` and `b` at most. */
  lemma {:induction false} RunPublishAndGet(ws: seq<World>, steps: seq<Action>, t: Task, a: nat, b: nat)
    returns (ws': seq<World>, steps': seq<Action>, s: nat)
    requires IsRun(ws, steps) && Last(ws).prod.Idle? && Last(ws).pool.subs == []
    requires t in Last(ws).cons && Last(ws).cons[t].Ready?
    requires forall u :: u in Last(ws).cons && Last(ws).cons[u].Holding? ==> Last(ws).cons[u].slot == a || Last(ws).cons[u].slot == b
    ensures IsRun(ws', steps') && Last(ws').prod.Idle? && Last(ws').pool.subs == []
    ensures s < SLOT_COUNT && Holders(Last(ws).cons, s) == {} && Last(ws').pool.latest == Some(s)
    ensures Last(ws').cons == Last(ws).cons[t := Holding(s)]
    ensures forall u :: u in Last(ws).cons ==> Last(ws).cons[u] != Holding(s)
  {
    hide Apply, Follows, Initial;
    var l := if Last(ws).pool.latest.Some? then Last(ws).pool.latest.value else 4;
    var d := FourthSlot(a, b, l);
    NotHeld(Last(ws).cons, d);
    ws', steps' := RunPublish(ws, steps);
    s := Last(ws').pool.latest.value;
    ws', steps' := RunGet(ws', steps', t);
    assert forall u :: u in Last(ws).cons && Last(ws).cons[u] == Holding(s) ==> u in Holders(Last(ws).cons, s);
  }

  /** Three consumer holds are enough to starve the producer, contrary to the note in frame_pool.h
      lines 42-45: three consumers each take a different frame, a fourth frame is published, and
      the next acquire fails. */
  lemma {:induction false} ThreeHoldsCanStarve() returns (ws: seq<World>, steps: seq<Action>)
    ensures IsRun(ws, steps) && Inv(Last(ws)) && Last(ws).prod.Idle?
    ensures |AllHolders(Last(ws).cons)| == 3 && Acquire(Last(ws).pool).1.None?
  {
    var ready: map<Task, Consumer> := map[0 := Ready, 1 := Ready, 2 := Ready];
    ws, steps := [World(Empty(), Idle, ready, map[0 := 0, 1 := 0, 2 := 0], Stats(0, 0, 0, 0))], [];
    assert IsRun(ws, steps);
    hide Follows, Initial, Inv, Apply, AllHolders, Holders;
    var a, b, c;
    ws, steps, a := RunPublishAndGet(ws, steps, 0, 4, 4);
    assert Last(ws).cons[0] == Holding(a);
    ws, steps, b := RunPublishAndGet(ws, steps, 1, a, a);
    assert Last(ws).cons[0] == Holding(a) && Last(ws).cons[1] == Holding(b);
    ws, steps, c := RunPublishAndGet(ws, steps, 2, a, b);
    var cons := Last(ws).cons;
    assert cons == map[0 := Holding(a), 1 := Holding(b), 2 := Holding(c)];
    var d := FourthSlot(a, b, c);
    NotHeld(cons, d);
    ws, steps := RunPublish(ws, steps);
    RunEndsInv(ws, steps);
    Starved(Last(ws), a, b, c);
  }

  lemma {:induction false} Starved(w: World, a: nat, b: nat, c: nat)
    requires Inv(w) && w.prod.Idle? && w.cons == map[0 := Holding(a), 1 := Holding(b), 2 := Holding(c)]
    requires a < SLOT_COUNT && b < SLOT_COUNT && c < SLOT_COUNT && a != b && b != c && a != c
    requires w.pool.latest.Some? && w.pool.latest.value < SLOT_COUNT && Holders(w.cons, w.pool.latest.value) == {}
    ensures |AllHolders(w.cons)| == 3 && Acquire(w.pool).1.None?
  {
    AcquireFailsIff(w);
    hide Inv, Acquire;
    assert AllHolders(w.cons) == {0, 1, 2};
    assert 0 in Holders(w.cons, a) && 1 in Holders(w.cons, b) && 2 in Holders(w.cons, c);
    forall s | 0 <= s < SLOT_COUNT
      ensures w.pool.latest == Some(s) || Holders(w.cons, s) != {}
    {
      assert s == a || s == b || s == c || s == w.pool.latest.value;
    }
  }

  // ---- Frames ----

  /** No step changes a frame while a consumer holds it. */
  lemma {:induction false} HeldFrameKept(w: World, a: Action, t: Task, s: nat)
    requires Inv(w) && Enabled(w, a) && s < SLOT_COUNT
    requires t in w.cons && w.cons[t] == Holding(s)
    ensures Apply(w, a).pool.frames[s] == w.pool.frames[s]
  {
    hide RefsExact, Numbered, NoLostWakeup, CountersAgree, SubsDistinct;
    if w.prod.Filling? {
      assert t in Holders(w.cons, s);
    }
  }

  /** From a consumer's get to its release the frame it holds stays the same, buffer, length and
      number, whatever the producer and the others do meanwhile. */
  lemma {:induction false} HeldFrameStable(ws: seq<World>, steps: seq<Action>, i: nat, j: nat, t: Task, s: nat)
    requires IsRun(ws, steps) && i <= j < |ws| && s < SLOT_COUNT
    requires forall k :: i <= k <= j ==> t in ws[k].cons && ws[k].cons[t] == Holding(s)
    ensures |ws[i].pool.frames| == |ws[j].pool.frames| == SLOT_COUNT
    ensures ws[j].pool.frames[s] == ws[i].pool.frames[s]
    decreases j
  {
    hide Apply, Enabled;
    InvAlways(ws, steps, j);
    if i < j {
      HeldFrameStable(ws, steps, i, j - 1, t, s);
      InvAlways(ws, steps, j - 1);
      assert Follows(ws[j - 1], steps[j - 1], ws[j - 1 + 1]);
      HeldFrameKept(ws[j - 1], steps[j - 1], t, s);
    }
  }

  /** The producer is between the critical section of publish and its next loop head. */
  ghost predicate Publishing(prod: Producer) {
    prod.Dropping? || prod.Notifying? || prod.Recording?
  }

  /** Meanwhile no step changes any frame, nor which slot is the latest. */
  lemma {:induction false} PublishingKeepsFrames(w: World, a: Action)
    requires Shape(w) && Enabled(w, a) && Publishing(w.prod)
    ensures var w' := Apply(w, a);
            && w'.pool.frames == w.pool.frames && w'.pool.latest == w.pool.latest && w'.pool.nextSeq == w.pool.nextSeq
            && (Publishing(w'.prod) ==> w'.prod.slot == w.prod.slot)
  {
  }

  /** Until the producer has finished recording a publish, it may read the slot again without a
      reference: the slot is still the latest, with the number and the time stamp it was given. */
  lemma {:induction false} PublishedSlotIntact(ws: seq<World>, steps: seq<Action>, i: nat, j: nat)
    requires IsRun(ws, steps) && i < j < |ws| && steps[i].PublishSlot?
    requires forall k :: i < k <= j ==> Publishing(ws[k].prod)
    ensures Shape(ws[j]) && ws[i].prod.Filling? && Publishing(ws[j].prod) && ws[j].prod.slot == ws[i].prod.slot
    ensures ws[j].pool.latest == Some(ws[i].prod.slot)
    ensures var f := ws[j].pool.frames[ws[i].prod.slot];
            f.seqNo == ws[i].pool.nextSeq + 1 && f.ts == steps[i].ts
    decreases j
  {
    hide Enabled, Inv, Initial;
    assert Follows(ws[j - 1], steps[j - 1], ws[j - 1 + 1]);
    hide IsRun;
    if j == i + 1 {
      PublishSets(ws[i], steps[i]);
    } else {
      PublishedSlotIntact(ws, steps, i, j - 1);
      PublishingKeepsFrames(ws[j - 1], steps[j - 1]);
      ShapeKept(ws[j - 1], steps[j - 1]);
    }
  }

  lemma {:induction false} PublishSets(w: World, a: Action)
    requires Shape(w) && Enabled(w, a) && a.PublishSlot?
    ensures w.prod.Filling? && Shape(Apply(w, a))
    ensures var w' := Apply(w, a);
            && w'.prod.Dropping? && w'.prod.slot == w.prod.slot && w'.pool.latest == Some(w.prod.slot)
            && w'.pool.frames[w.prod.slot].seqNo == w.pool.nextSeq + 1 && w'.pool.frames[w.prod.slot].ts == a.ts
  {
  }

  /** A published number is above every number in the pool. */
  lemma {:induction false} PublishExceedsAll(w: World, ts: int, s: nat)
    requires Inv(w) && w.prod.Filling? && s < SLOT_COUNT
    ensures var w' := Apply(w, PublishSlot(ts));
            w'.pool.frames[w.prod.slot].seqNo > w.pool.frames[s].seqNo
  {
    hide RefsExact, NoLostWakeup, CountersAgree, SubsDistinct;
  }

  lemma {:induction false} SeqMonotone(ws: seq<World>, steps: seq<Action>, i: nat, j: nat)
    requires IsRun(ws, steps) && i <= j < |ws|
    ensures ws[i].pool.nextSeq <= ws[j].pool.nextSeq
    decreases j
  {
    hide Enabled;
    if i < j {
      SeqMonotone(ws, steps, i, j - 1);
      assert Follows(ws[j - 1], steps[j - 1], ws[j - 1 + 1]);
      SeqStep(ws[j - 1], steps[j - 1]);
    }
  }

  lemma {:induction false} SeqStep(w: World, a: Action)
    requires Shape(w) && Enabled(w, a)
    ensures Apply(w, a).pool.nextSeq == if a.PublishSlot? then w.pool.nextSeq + 1 else w.pool.nextSeq
  {
  }

  /** Published sequence numbers strictly increase along every run. */
  lemma {:induction false} PublishedStrictlyIncrease(ws: seq<World>, steps: seq<Action>, i: nat, j: nat)
    requires IsRun(ws, steps) && i < j < |steps| && steps[i].PublishSlot? && steps[j].PublishSlot?
    ensures Shape(ws[i + 1]) && Shape(ws[j + 1]) && ws[i + 1].pool.latest.Some? && ws[j + 1].pool.latest.Some?
    ensures ws[i + 1].pool.frames[ws[i + 1].pool.latest.value].seqNo < ws[j + 1].pool.frames[ws[j + 1].pool.latest.value].seqNo
  {
    hide Inv, Enabled;
    SeqMonotone(ws, steps, i + 1, j);
    assert Follows(ws[i], steps[i], ws[i + 1]) && Follows(ws[j], steps[j], ws[j + 1]);
    SeqStep(ws[j], steps[j]);
    hide IsRun;
    PublishNumbers(ws[i], steps[i]);
    PublishNumbers(ws[j], steps[j]);
  }

  lemma {:induction false} PublishNumbers(w: World, a: Action)
    requires Shape(w) && Enabled(w, a) && a.PublishSlot?
    ensures var p := Apply(w, a).pool;
            Shape(Apply(w, a)) && p.latest.Some? && p.frames[p.latest.value].seqNo == p.nextSeq
  {
  }

  /** `wait_newer` hands out only the latest frame, and only when it is newer than asked. */
  lemma {:induction false} WaitReturnsNewer(w: World, t: Task)
    requires Inv(w) && Enabled(w, CheckBy(t))
    ensures var w' := Apply(w, CheckBy(t));
            w'.cons[t].Holding? ==> Some(w'.cons[t].slot) == w.pool.latest
                                    && w'.pool.frames[w'.cons[t].slot].seqNo > w.cons[t].lastSeq
  {
    hide RefsExact, NoLostWakeup, CountersAgree, SubsDistinct;
  }

  // ---- Wake-ups ----

  /** In every run, a blocked subscriber with a newer frame to see has a notification, or is still
      on the publisher's list. */
  lemma {:induction false} WakeupAlwaysPending(ws: seq<World>, steps: seq<Action>, i: nat, t: Task)
    requires IsRun(ws, steps) && i < |ws| && Blocked(ws[i], t) && ws[i].pool.nextSeq > ws[i].cons[t].lastSeq
    ensures Shape(ws[i]) && (ws[i].notes[t] > 0 || t in ToNotify(ws[i].prod))
  {
    hide IsRun, RefsExact, CountersAgree, SubsDistinct, FillingAlone, Numbered;
    InvAlways(ws, steps, i);
  }

  /** In every run, whatever other tasks did while the publisher went through its list: from the
      moment it is through until it publishes again, every blocked subscriber with a newer frame to
      see has a notification. */
  lemma {:induction false} DeliveryWakes(ws: seq<World>, steps: seq<Action>, i: nat, t: Task)
    requires IsRun(ws, steps) && i < |ws| && !ws[i].prod.Dropping? && !ws[i].prod.Notifying?
    requires Blocked(ws[i], t) && ws[i].pool.nextSeq > ws[i].cons[t].lastSeq
    ensures Shape(ws[i]) && ws[i].notes[t] > 0
  {
    hide IsRun, Blocked;
    WakeupAlwaysPending(ws, steps, i, t);
  }

  // ---- Counters ----

  /** At every head of the producer's loop the frame counter, the publish counter and the sequence
      number agree, and the drops are the null fetches, the bad lengths and the failed acquires. */
  lemma {:induction false} LoopHeadCounters(ws: seq<World>, steps: seq<Action>, i: nat)
    requires IsRun(ws, steps) && i < |ws| && ws[i].prod.Idle?
    ensures ws[i].stats.frameCount == ws[i].pool.publishCount == ws[i].pool.nextSeq
    ensures ws[i].stats.dropCount == ws[i].stats.nullFetches + ws[i].stats.badLengths + ws[i].pool.acquireFails
  {
    hide IsRun, RefsExact, NoLostWakeup, SubsDistinct, FillingAlone;
    InvAlways(ws, steps, i);
  }
}
