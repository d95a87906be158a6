/** The frame pool as the program keeps it: arrays and counters updated in place. Each method is
    one critical section or one atomic access, and refines the step of the same name. */
module FramePool {
  import opened Options
  import opened PoolOps

  class FramePool {
    const frames: array<Frame>
    const refs: array<int>
    const subs: array<Task>
    var latest: Option<nat>
    var nextSeq: nat
    var subCount: nat
    var publishCount: nat
    var acquireFails: nat

    ghost predicate Valid()
      reads this
    {
      && frames.Length == refs.Length == SLOT_COUNT && subs.Length == MAX_SUBSCRIBERS
      && subCount <= MAX_SUBSCRIBERS && (latest.Some? ==> latest.value < SLOT_COUNT)
    }

    /** The pool as a value. */
    ghost function Abs(): (p: Pool)
      requires Valid()
      reads this, frames, refs, subs
      ensures WellFormed(p)
    {
      Pool(frames[..], refs[..], latest, nextSeq, subs[..subCount], publishCount, acquireFails)
    }

    constructor ()
      ensures Valid() && fresh(frames) && fresh(refs) && fresh(subs)
      ensures Abs() == Empty()
    {
      frames := new Frame[SLOT_COUNT](_ => BLANK);
      refs := new int[SLOT_COUNT](_ => 0);
      subs := new Task[MAX_SUBSCRIBERS](_ => 0);
      latest, nextSeq, subCount, publishCount, acquireFails := None, 0, 0, 0, 0;
    }

    method AcquireWritable() returns (slot: Option<nat>)
      requires Valid()
      modifies this, refs
      ensures Valid() && (Abs(), slot) == Acquire(old(Abs()))
    {
      for i := 0 to SLOT_COUNT
        invariant Valid() && Abs() == old(Abs())
        invariant FreeFrom(refs[..], 0) == FreeFrom(refs[..], i)
      {
        if refs[i] == 0 {
          refs[i] := 1;
          return Some(i);
        }
      }
      acquireFails := acquireFails + 1;
      return None;
    }

    /** Returns the previous latest slot and a copy of the subscribers, for the steps that follow
        outside the mutex. */
    method PublishSection(slot: nat, now: int) returns (oldLatest: Option<nat>, subsCopy: seq<Task>)
      requires Valid() && slot < SLOT_COUNT
      modifies this, frames
      ensures Valid() && Abs() == Publish(old(Abs()), slot, now)
      ensures oldLatest == old(latest) && subsCopy == old(Abs()).subs
    {
      nextSeq := nextSeq + 1;
      frames[slot] := frames[slot].(seqNo := nextSeq, ts := now);
      oldLatest := latest;
      latest := Some(slot);
      publishCount := publishCount + 1;
      subsCopy := subs[..subCount];
      assert frames[..] == old(frames[..])[slot := frames[slot]];
    }

    /** The producer's copy into the slot it has acquired. */
    method CopyIn(slot: nat, buf: seq<nat>, len: nat, width: nat, height: nat)
      requires Valid() && slot < SLOT_COUNT
      modifies frames
      ensures Valid() && Abs() == Write(old(Abs()), slot, Frame(buf, len, width, height, 0, 0))
      ensures frames[slot] == Frame(buf, len, width, height, old(frames[slot].seqNo), old(frames[slot].ts))
      ensures forall s :: 0 <= s < SLOT_COUNT && s != slot ==> frames[s] == old(frames[s])
    {
      frames[slot] := frames[slot].(buf := buf, len := len, width := width, height := height);
      assert frames[..] == old(frames[..])[slot := frames[slot]];
    }

    /** An atomic decrement: dropping the old latest, or a consumer's release. */
    method Release(slot: nat)
      requires Valid() && slot < SLOT_COUNT
      modifies refs
      ensures Valid() && Abs() == AddRef(old(Abs()), slot, -1)
    {
      refs[slot] := refs[slot] - 1;
      assert refs[..] == old(refs[..])[slot := refs[slot]];
    }

    method GetLatestSlot() returns (slot: Option<nat>)
      requires Valid()
      modifies refs
      ensures Valid() && (Abs(), slot) == GetLatest(old(Abs()))
    {
      slot := latest;
      if slot.Some? {
        refs[slot.value] := refs[slot.value] + 1;
        assert refs[..] == old(refs[..])[slot.value := refs[slot.value]];
      }
    }

    method CheckNewer(lastSeq: nat) returns (slot: Option<nat>)
      requires Valid()
      modifies refs
      ensures Valid() && (Abs(), slot) == TakeNewer(old(Abs()), lastSeq)
    {
      slot := None;
      if latest.Some? && frames[latest.value].seqNo > lastSeq {
        slot := latest;
        refs[slot.value] := refs[slot.value] + 1;
        assert refs[..] == old(refs[..])[slot.value := refs[slot.value]];
      }
    }

    method SubscribeTask(t: Task) returns (ok: bool)
      requires Valid()
      modifies this, subs
      ensures Valid() && (Abs(), ok) == Subscribe(old(Abs()), t)
    {
      for i := 0 to subCount
        invariant Valid() && Abs() == old(Abs()) && subCount == old(subCount)
        invariant t !in subs[..i]
      {
        if subs[i] == t {
          assert t in subs[..subCount];
          return true;
        }
      }
      if subCount >= MAX_SUBSCRIBERS {
        return false;
      }
      subs[subCount] := t;
      subCount := subCount + 1;
      assert subs[..subCount] == old(subs[..subCount]) + [t];
      return true;
    }

    method UnsubscribeTask(t: Task)
      requires Valid()
      modifies this, subs
      ensures Valid() && Abs() == Unsubscribe(old(Abs()), t)
    {
      ghost var s := subs[..subCount];
      var i := 0;
      while i < subCount
        invariant i <= subCount && Valid() && Abs() == old(Abs()) && s == subs[..subCount]
        invariant IndexFrom(s, t, 0) == IndexFrom(s, t, i)
      {
        if subs[i] == t {
          subs[i] := subs[subCount - 1];
          subCount := subCount - 1;
          assert subs[..subCount] == s[i := s[|s| - 1]][..|s| - 1];
          return;
        }
        i := i + 1;
      }
    }
  }
}
