/** The shared state of the camera frame pool and its critical sections, each as one step. */
module PoolOps {
  import opened Options

  type Task = nat

  const SLOT_COUNT := 4
  const MAX_SUBSCRIBERS := 6

  /** The contents of a slot. */
  datatype Frame = Frame(buf: seq<nat>, len: nat, width: nat, height: nat, seqNo: nat, ts: int)

  /** The pool as a value: slot contents and reference counts, the latest slot, the sequence
      counter, the subscribers, and the statistics. */
  datatype Pool = Pool(frames: seq<Frame>, refs: seq<int>, latest: Option<nat>, nextSeq: nat,
                       subs: seq<Task>, publishCount: nat, acquireFails: nat)

  const BLANK := Frame([], 0, 0, 0, 0, 0)

  /** The pool after initialisation. */
  function Empty(): Pool {
    Pool(seq(SLOT_COUNT, _ => BLANK), seq(SLOT_COUNT, _ => 0), None, 0, [], 0, 0)
  }

  predicate WellFormed(p: Pool) {
    && |p.frames| == |p.refs| == SLOT_COUNT
    && (p.latest.Some? ==> p.latest.value < SLOT_COUNT)
    && |p.subs| <= MAX_SUBSCRIBERS
  }

  /** The first free slot from `i` on, or the number of slots. */
  function FreeFrom(refs: seq<int>, i: nat): (s: nat)
    requires i <= |refs|
    ensures i <= s <= |refs|
    ensures s < |refs| ==> refs[s] == 0
    ensures forall k :: i <= k < s ==> refs[k] != 0
    decreases |refs| - i
  {
    if i == |refs| || refs[i] == 0 then i else FreeFrom(refs, i + 1)
  }

  /** `frame_pool_acquire_writable`: take the first free slot, or count a failure. */
  function Acquire(p: Pool): (Pool, Option<nat>)
    requires WellFormed(p)
  {
    var s := FreeFrom(p.refs, 0);
    if s < SLOT_COUNT then (p.(refs := p.refs[s := 1]), Some(s))
    else (p.(acquireFails := p.acquireFails + 1), None)
  }

  /** The producer's copy into a slot: everything but the number and the time stamp. */
  function Write(p: Pool, slot: nat, f: Frame): Pool
    requires WellFormed(p) && slot < SLOT_COUNT
  {
    var kept := p.frames[slot];
    p.(frames := p.frames[slot := f.(seqNo := kept.seqNo, ts := kept.ts)])
  }

  /** The critical section of `frame_pool_publish`: number the frame and make it the latest. The
      latest reference is the one taken by acquire. */
  function Publish(p: Pool, slot: nat, ts: int): Pool
    requires WellFormed(p) && slot < SLOT_COUNT
  {
    p.(frames := p.frames[slot := p.frames[slot].(seqNo := p.nextSeq + 1, ts := ts)],
       nextSeq := p.nextSeq + 1, latest := Some(slot), publishCount := p.publishCount + 1)
  }

  /** An atomic change of one reference count. */
  function AddRef(p: Pool, slot: nat, d: int): Pool
    requires WellFormed(p) && slot < SLOT_COUNT
  {
    p.(refs := p.refs[slot := p.refs[slot] + d])
  }

  /** `frame_pool_get_latest`. */
  function GetLatest(p: Pool): (Pool, Option<nat>)
    requires WellFormed(p)
  {
    if p.latest.Some? then (AddRef(p, p.latest.value, 1), p.latest) else (p, None)
  }

  /** The critical section of `frame_pool_wait_newer`. */
  function TakeNewer(p: Pool, lastSeq: nat): (Pool, Option<nat>)
    requires WellFormed(p)
  {
    if p.latest.Some? && p.frames[p.latest.value].seqNo > lastSeq then (AddRef(p, p.latest.value, 1), p.latest)
    else (p, None)
  }

  /** `frame_pool_subscribe`: nothing to do for a subscriber, refused when the table is full. */
  function Subscribe(p: Pool, t: Task): (Pool, bool) {
    if t in p.subs then (p, true)
    else if |p.subs| >= MAX_SUBSCRIBERS then (p, false)
    else (p.(subs := p.subs + [t]), true)
  }

  function IndexFrom(subs: seq<Task>, t: Task, i: nat): (k: nat)
    requires i <= |subs|
    ensures i <= k <= |subs|
    ensures k < |subs| ==> subs[k] == t
    ensures forall j :: i <= j < k ==> subs[j] != t
    decreases |subs| - i
  {
    if i == |subs| || subs[i] == t then i else IndexFrom(subs, t, i + 1)
  }

  /** `frame_pool_unsubscribe`: the last entry moves into the freed place. */
  function Unsubscribe(p: Pool, t: Task): Pool {
    var k := IndexFrom(p.subs, t, 0);
    if k < |p.subs| then p.(subs := p.subs[k := p.subs[|p.subs| - 1]][..|p.subs| - 1]) else p
  }
}
