/** The producer's statistics: counters and the 64-entry ring of publish times. */
module PipelineStats {

  const FPS_RING_SIZE := 64
  const WINDOW_US := 1000000
  const UINT32 := 0x1_0000_0000

  /** How many times lie at or after `start`. */
  function CountFrom(times: seq<int>, start: int): (n: nat)
    ensures n <= |times|
  {
    if times == [] then 0
    else CountFrom(times[..|times| - 1], start) + if times[|times| - 1] >= start then 1 else 0
  }

  /** The places that hold such a time. */
  ghost function Since(times: seq<int>, start: int): set<nat> {
    set i: nat | i < |times| && times[i] >= start
  }

  lemma {:induction false} CountIsSize(times: seq<int>, start: int)
    ensures CountFrom(times, start) == |Since(times, start)|
    decreases |times|
  {
    if times != [] {
      var n := |times| - 1;
      var before := Since(times[..n], start);
      CountIsSize(times[..n], start);
      if times[n] >= start {
        assert Since(times, start) == before + {n};
      } else {
        assert Since(times, start) == before;
      }
    } else {
      assert Since(times, start) == {};
    }
  }

  ghost predicate Nondecreasing(times: seq<int>) {
    forall i, j :: 0 <= i < j < |times| ==> times[i] <= times[j]
  }

  /** The ring after all of `history` has been recorded: each of the last 64 times in its place,
      zeros where nothing has been recorded yet. */
  ghost predicate Holds(ring: seq<int>, history: seq<int>) {
    && |ring| == FPS_RING_SIZE
    && (forall j :: 0 <= j < |history| && |history| - FPS_RING_SIZE <= j ==> ring[j % FPS_RING_SIZE] == history[j])
    && (forall k :: |history| <= k < FPS_RING_SIZE ==> ring[k] == 0)
  }

  lemma {:induction false} HoldsAppend(ring: seq<int>, history: seq<int>, ts: int)
    requires Holds(ring, history)
    ensures Holds(ring[|history| % FPS_RING_SIZE := ts], history + [ts])
  {
    var n := |history|;
    var r, h := ring[n % FPS_RING_SIZE := ts], history + [ts];
    forall j | 0 <= j < |h| && |h| - FPS_RING_SIZE <= j
      ensures r[j % FPS_RING_SIZE] == h[j]
    {
      if j < n {
        assert 0 < n - j < FPS_RING_SIZE;
        DifferentPlaces(j, n);
      }
    }
  }

  /** Fewer than 64 apart, two publishes do not share a place in the ring. */
  lemma {:induction false} DifferentPlaces(j: nat, n: nat)
    requires 0 < n - j < FPS_RING_SIZE
    ensures j % FPS_RING_SIZE != n % FPS_RING_SIZE
  {
  }

  lemma {:induction false} CountConcat(a: seq<int>, b: seq<int>, start: int)
    ensures CountFrom(a + b, start) == CountFrom(a, start) + CountFrom(b, start)
    decreases |b|
  {
    if b == [] {
      assert a + b == a;
    } else {
      CountConcat(a, b[..|b| - 1], start);
      assert (a + b)[..|a + b| - 1] == a + b[..|b| - 1];
    }
  }

  lemma {:induction false} CountNone(times: seq<int>, start: int)
    requires forall i :: 0 <= i < |times| ==> times[i] < start
    ensures CountFrom(times, start) == 0
    decreases |times|
  {
    if times != [] {
      CountNone(times[..|times| - 1], start);
    }
  }

  lemma {:induction false} CountAll(times: seq<int>, start: int)
    requires forall i :: 0 <= i < |times| ==> times[i] >= start
    ensures CountFrom(times, start) == |times|
    decreases |times|
  {
    if times != [] {
      CountAll(times[..|times| - 1], start);
    }
  }

  /** Once full, the ring read from its oldest place is the last 64 times. */
  lemma {:induction false} RingIsTail(ring: seq<int>, history: seq<int>)
    requires Holds(ring, history) && |history| >= FPS_RING_SIZE
    ensures var h := |history| % FPS_RING_SIZE;
            ring[h..] + ring[..h] == history[|history| - FPS_RING_SIZE..]
  {
    var n := |history|;
    var h := n % FPS_RING_SIZE;
    var turned, tail := ring[h..] + ring[..h], history[n - FPS_RING_SIZE..];
    forall i | 0 <= i < FPS_RING_SIZE
      ensures turned[i] == tail[i]
    {
      var j := n - FPS_RING_SIZE + i;
      PlaceInRing(n, i);
      assert ring[j % FPS_RING_SIZE] == history[j];
    }
  }

  lemma {:induction false} PlaceInRing(n: nat, i: nat)
    requires n >= FPS_RING_SIZE && i < FPS_RING_SIZE
    ensures var h := n % FPS_RING_SIZE;
            (n - FPS_RING_SIZE + i) % FPS_RING_SIZE == if h + i < FPS_RING_SIZE then h + i else h + i - FPS_RING_SIZE
  {
  }

  lemma {:induction false} CountTail(history: seq<int>, start: int)
    requires Nondecreasing(history) && |history| >= FPS_RING_SIZE
    ensures var total := CountFrom(history, start);
            CountFrom(history[|history| - FPS_RING_SIZE..], start) == if total < FPS_RING_SIZE then total else FPS_RING_SIZE
  {
    var n := |history| - FPS_RING_SIZE;
    var before, tail := history[..n], history[n..];
    assert history == before + tail;
    CountConcat(before, tail, start);
    if history[n] >= start {
      CountAll(tail, start);
    } else {
      CountNone(before, start);
    }
  }

  /** How many of the publishes from `start` on a ring of 64 can show. */
  function Shown(history: seq<int>, start: int): nat {
    var total := CountFrom(history, start);
    if total < FPS_RING_SIZE then total else FPS_RING_SIZE
  }

  ghost predicate SinceBoot(history: seq<int>) {
    forall i :: 0 <= i < |history| ==> history[i] >= 0
  }

  lemma {:induction false} FullRingCounts(ring: seq<int>, history: seq<int>, start: int)
    requires Holds(ring, history) && Nondecreasing(history) && |history| >= FPS_RING_SIZE
    ensures CountFrom(ring, start) == Shown(history, start)
  {
    var h := |history| % FPS_RING_SIZE;
    RingIsTail(ring, history);
    CountTail(history, start);
    hide CountFrom, Holds, Nondecreasing;
    assert ring == ring[..h] + ring[h..];
    CountConcat(ring[..h], ring[h..], start);
    CountConcat(ring[h..], ring[..h], start);
  }

  /** While fewer than 64 publishes have been recorded, the unused places hold time zero and are
      counted exactly when the window reaches back to it. */
  lemma {:induction false} PartRingCounts(ring: seq<int>, history: seq<int>, start: int)
    requires Holds(ring, history) && |history| < FPS_RING_SIZE
    ensures CountFrom(ring, start) == CountFrom(history, start) + if start > 0 then 0 else FPS_RING_SIZE - |history|
  {
    var n := |history|;
    assert ring == history + ring[n..];
    CountConcat(history, ring[n..], start);
    if start > 0 {
      CountNone(ring[n..], start);
    } else {
      CountAll(ring[n..], start);
    }
  }

  /** The ring agrees with the full history exactly when the window starts after time zero or the
      ring has been filled. */
  lemma {:induction false} RingCountsWindow(ring: seq<int>, history: seq<int>, start: int)
    requires Holds(ring, history) && Nondecreasing(history)
    ensures CountFrom(ring, start) == Shown(history, start) <==> start > 0 || |history| >= FPS_RING_SIZE
  {
    hide CountFrom, Holds;
    if |history| >= FPS_RING_SIZE {
      FullRingCounts(ring, history, start);
    } else {
      PartRingCounts(ring, history, start);
    }
  }

  /** In the first second, before 64 publishes, the rate shown is 64 whatever has been published. */
  lemma {:induction false} EarlyWindowOvercounts(ring: seq<int>, history: seq<int>, start: int)
    requires Holds(ring, history) && SinceBoot(history) && start <= 0 && |history| < FPS_RING_SIZE
    ensures CountFrom(ring, start) == FPS_RING_SIZE > |history| == CountFrom(history, start)
  {
    hide CountFrom, Holds;
    CountAll(history, start);
    PartRingCounts(ring, history, start);
  }

  class Stats {
    const ring: array<int>
    var head: nat
    var frameCount: nat
    var dropCount: nat
    var consecFail: nat
    ghost var history: seq<int>

    ghost predicate Valid()
      reads this, ring
    {
      && ring.Length == FPS_RING_SIZE && Holds(ring[..], history)
      && head == |history| % UINT32 && frameCount == |history|
    }

    constructor ()
      ensures Valid() && fresh(ring) && history == [] && dropCount == 0 && consecFail == 0
    {
      ring := new int[FPS_RING_SIZE](_ => 0);
      head, frameCount, dropCount, consecFail, history := 0, 0, 0, 0, [];
    }

    method RecordPublish(ts: int)
      requires Valid()
      modifies this, ring
      ensures Valid() && history == old(history) + [ts]
      ensures consecFail == 0 && dropCount == old(dropCount)
    {
      consecFail := 0;
      frameCount := frameCount + 1;
      WrappedHead(|history|);
      HoldsAppend(ring[..], history, ts);
      ghost var before := ring[..];
      ring[head % FPS_RING_SIZE] := ts;
      assert ring[..] == before[|history| % FPS_RING_SIZE := ts];
      head := (head + 1) % UINT32;
      history := history + [ts];
    }

    method RecordFail() returns (c: nat)
      requires Valid()
      modifies this`dropCount, this`consecFail
      ensures Valid() && dropCount == old(dropCount) + 1 && c == consecFail == old(consecFail) + 1
    {
      dropCount := dropCount + 1;
      consecFail := consecFail + 1;
      c := consecFail;
    }

    method RecordDropNoSlot()
      requires Valid()
      modifies this`dropCount
      ensures Valid() && dropCount == old(dropCount) + 1
    {
      dropCount := dropCount + 1;
    }

    /** The frame rate: the number of places of the ring with a time in the last second. These are the
        publishes of the last second, up to 64, exactly from one second after boot or from the 64th publish
        on; before that, 64. */
    method GetFps(now: int) returns (fps: nat)
      requires Valid()
      ensures fps == |Since(ring[..], now - 1000000)|
      ensures Nondecreasing(history) ==>
                (fps == Shown(history, now - WINDOW_US) <==> now > 1000000 || |history| >= 64)
      ensures SinceBoot(history) && now <= 1000000 && |history| < 64 ==> fps == 64
    {
      var start := now - WINDOW_US;
      fps := 0;
      for i := 0 to FPS_RING_SIZE
        invariant fps == CountFrom(ring[..i], start)
      {
        assert ring[..i + 1][..i] == ring[..i];
        if ring[i] >= start {
          fps := fps + 1;
        }
      }
      assert ring[..FPS_RING_SIZE] == ring[..];
      CountIsSize(ring[..], start);
      if Nondecreasing(history) {
        RingCountsWindow(ring[..], history, start);
      }
      if SinceBoot(history) && start <= 0 && |history| < FPS_RING_SIZE {
        EarlyWindowOvercounts(ring[..], history, start);
      }
    }
  }

  /** The 32-bit head may wrap: the ring size divides 2^32. */
  lemma {:induction false} WrappedHead(n: nat)
    ensures (n % UINT32) % FPS_RING_SIZE == n % FPS_RING_SIZE
    ensures (n % UINT32 + 1) % UINT32 == (n + 1) % UINT32
  {
    SamePlace(0x400_0000 * (n / UINT32), n % UINT32);
    NextHead(n);
  }

  lemma {:induction false} SamePlace(q: nat, r: nat)
    ensures (FPS_RING_SIZE * q + r) % FPS_RING_SIZE == r % FPS_RING_SIZE
  {
  }

  lemma {:induction false} NextHead(n: nat)
    ensures (n % UINT32 + 1) % UINT32 == (n + 1) % UINT32
  {
  }
}
