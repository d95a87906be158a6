/** The producer and any number of consumer tasks over the shared pool, interleaved at the
    granularity of critical sections, atomic accesses and notifications. */
module PoolProtocol {
  import opened Options
  import opened PoolOps

  /** Where the producer is in its loop. `Filling`: it owns a slot and copies a frame into it.
      `Failed`: acquire found no slot, the drop is not yet recorded. After the critical section of
      publish it still has to drop the old latest, notify the copied subscribers one by one, and
      record the statistics, reading the published slot again without holding a reference. */
  datatype Producer =
    | Idle
    | Failed
    | Filling(slot: nat)
    | Dropping(prev: Option<nat>, notify: seq<Task>, slot: nat)
    | Notifying(notify: seq<Task>, slot: nat)
    | Recording(slot: nat)

  /** Where a consumer is. In `wait_newer` it checks under the mutex, then either gives up or
      waits for a notification and checks again. */
  datatype Consumer =
    | Ready
    | Checking(lastSeq: nat)
    | Checked(lastSeq: nat)
    | Waiting(lastSeq: nat)
    | Holding(slot: nat)

  /** Producer-side counters, with the two causes of drops that the pool itself does not count. */
  datatype Stats = Stats(frameCount: nat, dropCount: nat, nullFetches: nat, badLengths: nat)

  datatype World = World(pool: Pool, prod: Producer, cons: map<Task, Consumer>, notes: map<Task, nat>, stats: Stats)

  datatype Action =
    | NullFetch
    | BadLength
    | AcquireSlot
    | RecordFailure
    | WriteFrame(frame: Frame)
    | PublishSlot(ts: int)
    | DropOld
    | NotifyNext
    | RecordPublish
    | GetLatestBy(t: Task)
    | StartWait(t: Task, lastSeq: nat)
    | CheckBy(t: Task)
    | GiveUp(t: Task)
    | Sleep(t: Task)
    | Wake(t: Task)
    | ReleaseBy(t: Task)
    | SubscribeBy(t: Task)
    | UnsubscribeBy(t: Task)

  /** Slots and tasks are in range. */
  ghost predicate Shape(w: World) {
    && WellFormed(w.pool)
    && w.notes.Keys == w.cons.Keys
    && (w.prod.Filling? || w.prod.Dropping? || w.prod.Notifying? || w.prod.Recording? ==> w.prod.slot < SLOT_COUNT)
    && (w.prod.Dropping? && w.prod.prev.Some? ==> w.prod.prev.value < SLOT_COUNT)
    && (forall t :: t in w.cons && w.cons[t].Holding? ==> w.cons[t].slot < SLOT_COUNT)
  }

  ghost predicate Enabled(w: World, a: Action) {
    match a
    case NullFetch => w.prod.Idle?
    case BadLength => w.prod.Idle?
    case AcquireSlot => w.prod.Idle?
    case RecordFailure => w.prod.Failed?
    case WriteFrame(_) => w.prod.Filling?
    case PublishSlot(_) => w.prod.Filling?
    case DropOld => w.prod.Dropping?
    case NotifyNext => w.prod.Notifying?
    case RecordPublish => w.prod.Recording?
    case GetLatestBy(t) => t in w.cons && w.cons[t].Ready?
    case StartWait(t, _) => t in w.cons && w.cons[t].Ready?
    case CheckBy(t) => t in w.cons && w.cons[t].Checking?
    case GiveUp(t) => t in w.cons && w.cons[t].Checked?
    case Sleep(t) => t in w.cons && w.cons[t].Checked?
    case Wake(t) => t in w.cons && w.cons[t].Waiting?
    case ReleaseBy(t) => t in w.cons && w.cons[t].Holding?
    case SubscribeBy(t) => t in w.cons && w.cons[t].Ready?
    case UnsubscribeBy(t) => t in w.cons && w.cons[t].Ready?
  }

  /** The effect of one atomic step. A notification raises the count of a known task; waking up, by
      notification or timeout, clears it. */
  ghost function Apply(w: World, a: Action): World
    requires Shape(w) && Enabled(w, a)
  {
    match a
    case NullFetch =>
      w.(stats := w.stats.(dropCount := w.stats.dropCount + 1, nullFetches := w.stats.nullFetches + 1))
    case BadLength =>
      w.(stats := w.stats.(dropCount := w.stats.dropCount + 1, badLengths := w.stats.badLengths + 1))
    case AcquireSlot =>
      var (pool, slot) := Acquire(w.pool);
      w.(pool := pool, prod := if slot.Some? then Filling(slot.value) else Failed)
    case RecordFailure =>
      w.(stats := w.stats.(dropCount := w.stats.dropCount + 1), prod := Idle)
    case WriteFrame(f) =>
      w.(pool := Write(w.pool, w.prod.slot, f))
    case PublishSlot(ts) =>
      w.(pool := Publish(w.pool, w.prod.slot, ts), prod := Dropping(w.pool.latest, w.pool.subs, w.prod.slot))
    case DropOld =>
      w.(pool := if w.prod.prev.Some? then AddRef(w.pool, w.prod.prev.value, -1) else w.pool,
         prod := Notifying(w.prod.notify, w.prod.slot))
    case NotifyNext =>
      if w.prod.notify == [] then w.(prod := Recording(w.prod.slot))
      else
        var t := w.prod.notify[0];
        w.(notes := if t in w.notes then w.notes[t := w.notes[t] + 1] else w.notes,
           prod := Notifying(w.prod.notify[1..], w.prod.slot))
    case RecordPublish =>
      w.(stats := w.stats.(frameCount := w.stats.frameCount + 1), prod := Idle)
    case GetLatestBy(t) =>
      var (pool, slot) := GetLatest(w.pool);
      w.(pool := pool, cons := if slot.Some? then w.cons[t := Holding(slot.value)] else w.cons)
    case StartWait(t, lastSeq) => w.(cons := w.cons[t := Checking(lastSeq)])
    case CheckBy(t) =>
      var lastSeq := w.cons[t].lastSeq;
      var (pool, slot) := TakeNewer(w.pool, lastSeq);
      w.(pool := pool, cons := w.cons[t := if slot.Some? then Holding(slot.value) else Checked(lastSeq)])
    case GiveUp(t) => w.(cons := w.cons[t := Ready])
    case Sleep(t) => w.(cons := w.cons[t := Waiting(w.cons[t].lastSeq)])
    case Wake(t) => w.(cons := w.cons[t := Checking(w.cons[t].lastSeq)], notes := w.notes[t := 0])
    case ReleaseBy(t) =>
      w.(pool := AddRef(w.pool, w.cons[t].slot, -1), cons := w.cons[t := Ready])
    case SubscribeBy(t) => w.(pool := Subscribe(w.pool, t).0)
    case UnsubscribeBy(t) => w.(pool := Unsubscribe(w.pool, t))
  }

  // ---- What every step keeps ----

  /** The consumers holding slot `s`. */
  ghost function Holders(cons: map<Task, Consumer>, s: nat): set<Task> {
    set t | t in cons && cons[t] == Holding(s)
  }

  function One(b: bool): int { if b then 1 else 0 }

  ghost predicate Owns(prod: Producer, s: nat) { prod == Filling(s) }

  ghost predicate DropPending(prod: Producer, s: nat) { prod.Dropping? && prod.prev == Some(s) }

  /** The reference count of a slot, recounted from who refers to it. */
  ghost function Recount(w: World, s: nat): int {
    One(w.pool.latest == Some(s)) + One(Owns(w.prod, s)) + One(DropPending(w.prod, s)) + |Holders(w.cons, s)|
  }

  ghost predicate RefsExact(w: World)
    requires Shape(w)
  {
    forall s :: 0 <= s < SLOT_COUNT ==> w.pool.refs[s] == Recount(w, s)
  }

  /** The slot being filled belongs to the producer alone. */
  ghost predicate FillingAlone(w: World) {
    w.prod.Filling? ==> w.pool.latest != Some(w.prod.slot) && Holders(w.cons, w.prod.slot) == {}
  }

  ghost predicate PublishedIsLatest(w: World) {
    w.prod.Dropping? || w.prod.Notifying? || w.prod.Recording? ==> w.pool.latest == Some(w.prod.slot)
  }

  /** The latest slot carries the current sequence number, which counts the publishes. */
  ghost predicate Numbered(w: World)
    requires Shape(w)
  {
    && w.pool.nextSeq == w.pool.publishCount
    && (w.pool.latest.None? ==> w.pool.nextSeq == 0)
    && (w.pool.latest.Some? ==> w.pool.frames[w.pool.latest.value].seqNo == w.pool.nextSeq)
    && (forall s :: 0 <= s < SLOT_COUNT ==> w.pool.frames[s].seqNo <= w.pool.nextSeq)
  }

  /** The tasks the publisher has yet to notify. */
  ghost function ToNotify(prod: Producer): seq<Task> {
    if prod.Dropping? || prod.Notifying? then prod.notify else []
  }

  /** A subscriber that found nothing newer and is about to sleep, or sleeps. */
  ghost predicate Blocked(w: World, t: Task) {
    t in w.pool.subs && t in w.cons && (w.cons[t].Checked? || w.cons[t].Waiting?)
  }

  ghost predicate NoLostWakeup(w: World)
    requires Shape(w)
  {
    forall t :: Blocked(w, t) && w.pool.nextSeq > w.cons[t].lastSeq ==> w.notes[t] > 0 || t in ToNotify(w.prod)
  }

  /** The producer's counters agree with the pool's, with what is still to be recorded. */
  ghost predicate CountersAgree(w: World) {
    && w.stats.frameCount + One(w.prod.Dropping? || w.prod.Notifying? || w.prod.Recording?) == w.pool.publishCount
    && w.stats.dropCount + One(w.prod.Failed?) == w.stats.nullFetches + w.stats.badLengths + w.pool.acquireFails
  }

  ghost predicate SubsDistinct(w: World) {
    forall i, j :: 0 <= i < j < |w.pool.subs| ==> w.pool.subs[i] != w.pool.subs[j]
  }

  ghost predicate Inv(w: World) {
    && Shape(w)
    && RefsExact(w)
    && FillingAlone(w)
    && PublishedIsLatest(w)
    && Numbered(w)
    && NoLostWakeup(w)
    && CountersAgree(w)
    && SubsDistinct(w)
  }

  // ---- Holder counting ----

  lemma {:induction false} HolderGained(cons: map<Task, Consumer>, t: Task, s: nat, k: nat)
    requires t in cons && !cons[t].Holding?
    ensures |Holders(cons[t := Holding(s)], k)| == |Holders(cons, k)| + One(k == s)
  {
    var after := cons[t := Holding(s)];
    if k == s {
      assert Holders(after, k) == Holders(cons, k) + {t};
    } else {
      assert Holders(after, k) == Holders(cons, k);
    }
  }

  lemma {:induction false} HolderLost(cons: map<Task, Consumer>, t: Task, c: Consumer, k: nat)
    requires t in cons && !c.Holding?
    ensures |Holders(cons[t := c], k)| == |Holders(cons, k)| - One(cons[t] == Holding(k))
  {
    var after := cons[t := c];
    if cons[t] == Holding(k) {
      assert Holders(cons, k) == Holders(after, k) + {t};
    } else {
      assert Holders(after, k) == Holders(cons, k);
    }
  }

  lemma {:induction false} HoldersEmpty(cons: map<Task, Consumer>, s: nat)
    ensures |Holders(cons, s)| == 0 <==> Holders(cons, s) == {}
  {
  }

  // ---- Each step keeps each part ----

  lemma {:induction false} ShapeKept(w: World, a: Action)
    requires Shape(w) && Enabled(w, a)
    ensures Shape(Apply(w, a))
  {
  }

  lemma {:induction false} RefsKept(w: World, a: Action)
    requires Shape(w) && RefsExact(w) && FillingAlone(w) && Enabled(w, a) && Shape(Apply(w, a))
    ensures RefsExact(Apply(w, a))
  {
    hide Holders;
    var w' := Apply(w, a);
    forall s | 0 <= s < SLOT_COUNT
      ensures w'.pool.refs[s] == Recount(w', s)
    {
      assert w.pool.refs[s] == Recount(w, s);
      match a {
        case GetLatestBy(t) =>
          if w.pool.latest.Some? {
            HolderGained(w.cons, t, w.pool.latest.value, s);
          }
        case StartWait(t, lastSeq) => HolderLost(w.cons, t, Checking(lastSeq), s);
        case CheckBy(t) =>
          if TakeNewer(w.pool, w.cons[t].lastSeq).1.Some? {
            HolderGained(w.cons, t, w.pool.latest.value, s);
          } else {
            HolderLost(w.cons, t, Checked(w.cons[t].lastSeq), s);
          }
        case GiveUp(t) => HolderLost(w.cons, t, Ready, s);
        case Sleep(t) => HolderLost(w.cons, t, Waiting(w.cons[t].lastSeq), s);
        case Wake(t) => HolderLost(w.cons, t, Checking(w.cons[t].lastSeq), s);
        case ReleaseBy(t) => HolderLost(w.cons, t, Ready, s);
        case _ =>
      }
    }
  }

  lemma {:induction false} FillingKept(w: World, a: Action)
    requires Shape(w) && RefsExact(w) && FillingAlone(w) && Enabled(w, a)
    ensures FillingAlone(Apply(w, a))
  {
    hide Holders;
    match a {
      case AcquireSlot =>
        var s := FreeFrom(w.pool.refs, 0);
        if s < SLOT_COUNT {
          assert w.pool.refs[s] == Recount(w, s);
          HoldersEmpty(w.cons, s);
        }
      case GetLatestBy(t) => HoldersElsewhere(w, t, Apply(w, a).cons[t]);
      case StartWait(t, _) => HoldersElsewhere(w, t, Apply(w, a).cons[t]);
      case CheckBy(t) => HoldersElsewhere(w, t, Apply(w, a).cons[t]);
      case GiveUp(t) => HoldersElsewhere(w, t, Apply(w, a).cons[t]);
      case Sleep(t) => HoldersElsewhere(w, t, Apply(w, a).cons[t]);
      case Wake(t) => HoldersElsewhere(w, t, Apply(w, a).cons[t]);
      case ReleaseBy(t) => HoldersElsewhere(w, t, Apply(w, a).cons[t]);
      case _ =>
    }
  }

  /** A consumer that does not come to hold the slot being filled leaves it without holders. */
  lemma {:induction false} HoldersElsewhere(w: World, t: Task, c: Consumer)
    requires t in w.cons
    ensures w.prod.Filling? && Holders(w.cons, w.prod.slot) == {} && c != Holding(w.prod.slot)
            ==> Holders(w.cons[t := c], w.prod.slot) == {}
  {
    if w.prod.Filling? && c != Holding(w.prod.slot) {
      assert Holders(w.cons[t := c], w.prod.slot) <= Holders(w.cons, w.prod.slot);
    }
  }

  lemma {:induction false} LatestKept(w: World, a: Action)
    requires Shape(w) && PublishedIsLatest(w) && Enabled(w, a)
    ensures PublishedIsLatest(Apply(w, a))
  {
  }

  lemma {:induction false} NumbersKept(w: World, a: Action)
    requires Shape(w) && FillingAlone(w) && Numbered(w) && Enabled(w, a) && Shape(Apply(w, a))
    ensures Numbered(Apply(w, a))
  {
    hide Holders;
  }

  lemma {:induction false} CountersKept(w: World, a: Action)
    requires Shape(w) && CountersAgree(w) && Enabled(w, a)
    ensures CountersAgree(Apply(w, a))
  {
  }

  lemma {:induction false} UnsubscribeRemoves(p: Pool, t: Task)
    requires forall i, j :: 0 <= i < j < |p.subs| ==> p.subs[i] != p.subs[j]
    ensures var subs := Unsubscribe(p, t).subs;
            && (forall i, j :: 0 <= i < j < |subs| ==> subs[i] != subs[j])
            && (forall u :: u in subs <==> u in p.subs && u != t)
  {
    var k := IndexFrom(p.subs, t, 0);
    var subs := Unsubscribe(p, t).subs;
    if k < |p.subs| {
      var n := |p.subs| - 1;
      assert forall i :: 0 <= i < n ==> subs[i] == if i == k then p.subs[n] else p.subs[i];
      forall u | u in p.subs && u != t
        ensures u in subs
      {
        var i :| 0 <= i < |p.subs| && p.subs[i] == u;
        assert subs[if i == n then k else i] == u;
      }
    }
  }

  lemma {:induction false} SubsKept(w: World, a: Action)
    requires Shape(w) && SubsDistinct(w) && Enabled(w, a)
    ensures SubsDistinct(Apply(w, a))
  {
    hide Unsubscribe;
    if a.UnsubscribeBy? {
      UnsubscribeRemoves(w.pool, a.t);
      UnsubscribeFrame(w.pool, a.t);
    }
  }

  lemma {:induction false} UnsubscribeFrame(p: Pool, t: Task)
    ensures Unsubscribe(p, t) == p.(subs := Unsubscribe(p, t).subs)
  {
  }

  lemma {:induction false} NotifyWakes(w: World, t: Task)
    requires Shape(w) && NoLostWakeup(w) && w.prod.Notifying? && Blocked(w, t) && w.pool.nextSeq > w.cons[t].lastSeq
    ensures var w' := Apply(w, NotifyNext); w'.notes[t] > 0 || t in ToNotify(w'.prod)
  {
    if w.prod.notify != [] {
      assert w.prod.notify == [w.prod.notify[0]] + w.prod.notify[1..];
    }
  }

  /** Except at a publish and at its own check, a blocked task was blocked before the step, with the
      same frames to see, and no step but its own wake-up lowers its notification count. */
  lemma {:induction false} BlockedBefore(w: World, a: Action, t: Task)
    requires Shape(w) && SubsDistinct(w) && Enabled(w, a) && Blocked(Apply(w, a), t)
    requires !a.PublishSlot? && a != CheckBy(t)
    ensures Blocked(w, t) && w.cons[t].lastSeq == Apply(w, a).cons[t].lastSeq
    ensures Apply(w, a).pool.nextSeq == w.pool.nextSeq
    ensures Apply(w, a).notes[t] >= w.notes[t]
    ensures a.NotifyNext? || ToNotify(Apply(w, a).prod) == ToNotify(w.prod)
  {
    hide Unsubscribe, FreeFrom, Holders;
    if a.UnsubscribeBy? {
      UnsubscribeRemoves(w.pool, a.t);
      UnsubscribeFrame(w.pool, a.t);
    }
  }

  /** No step loses a wake-up. */
  lemma {:induction false} WakeupsKept(w: World, a: Action)
    requires Shape(w) && Numbered(w) && SubsDistinct(w) && NoLostWakeup(w) && Enabled(w, a) && Shape(Apply(w, a))
    ensures NoLostWakeup(Apply(w, a))
  {
    var w' := Apply(w, a);
    forall t | Blocked(w', t) && w'.pool.nextSeq > w'.cons[t].lastSeq
      ensures w'.notes[t] > 0 || t in ToNotify(w'.prod)
    {
      if a != CheckBy(t) && !a.PublishSlot? {
        BlockedBefore(w, a, t);
        if a.NotifyNext? {
          NotifyWakes(w, t);
        }
        hide Apply;
      }
    }
  }

  /** Every step of every task keeps the invariant. */
  lemma {:induction false} InvKept(w: World, a: Action)
    requires Inv(w) && Enabled(w, a)
    ensures Inv(Apply(w, a))
  {
    hide Apply, Enabled, RefsExact, FillingAlone, Numbered, NoLostWakeup, CountersAgree, SubsDistinct, Shape, PublishedIsLatest;
    ShapeKept(w, a);
    RefsKept(w, a);
    FillingKept(w, a);
    LatestKept(w, a);
    NumbersKept(w, a);
    WakeupsKept(w, a);
    CountersKept(w, a);
    SubsKept(w, a);
  }

  // ---- Runs ----

  /** The start: an empty pool, an idle producer, every task ready. */
  ghost predicate Initial(w: World) {
    && w.pool == Empty() && w.prod.Idle? && w.notes.Keys == w.cons.Keys
    && (forall t :: t in w.cons ==> w.cons[t].Ready?)
    && w.stats == Stats(0, 0, 0, 0)
  }

  /** `ws` is a run: it starts initially and each world follows from the one before by a step. */
  ghost predicate IsRun(ws: seq<World>, steps: seq<Action>) {
    && |ws| == |steps| + 1
    && Initial(ws[0])
    && forall i :: 0 <= i < |steps| ==> Follows(ws[i], steps[i], ws[i + 1])
  }

  ghost predicate Follows(w: World, a: Action, w': World) {
    Shape(w) && Enabled(w, a) && w' == Apply(w, a)
  }

  lemma {:induction false} InitialInv(w: World)
    requires Initial(w)
    ensures Inv(w)
  {
    forall s | 0 <= s < SLOT_COUNT
      ensures Holders(w.cons, s) == {}
    {
    }
  }

  /** The invariant holds in every world of every run, for every interleaving. */
  lemma {:induction false} InvAlways(ws: seq<World>, steps: seq<Action>, i: nat)
    requires IsRun(ws, steps) && i < |ws|
    ensures Inv(ws[i])
    decreases i
  {
    hide Inv, Apply, Enabled;
    if i == 0 {
      InitialInv(ws[0]);
    } else {
      InvAlways(ws, steps, i - 1);
      assert Follows(ws[i - 1], steps[i - 1], ws[i - 1 + 1]);
      InvKept(ws[i - 1], steps[i - 1]);
    }
  }
}
