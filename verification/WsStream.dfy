/** A stream client as a consumer of the frame pool: the sender task's use of pool references on
    every way out of its loop, and the table of client slots. */
module WsStream {
  import opened Options
  import opened PoolOps

  const WS_NO_FRAME_EXIT_MS := 8000
  const WS_STREAM_MAX_CLIENTS := 2

  // --- The sender task ----------------------------------------------------------------

  /** What one turn of the loop meets: no frame in time and how long ago the last one was, or a
      frame and the outcomes of the sends (a text frame of length 0 is not sent). */
  datatype Turn =
    | NoFrame(idleMs: int)
    | Newer(slot: nat, seqNo: nat, sendOk: bool, motionLen: nat, motionOk: bool, faceLen: nat, faceOk: bool)

  /** What the sender does to the pool and to its client slot. */
  datatype Act =
    | Subscribe
    | Take(slot: nat, seqNo: nat)
    | Send(slot: nat)
    | Release(slot: nat)
    | Unsubscribe
    | FreeClient

  /** A consumer as the pool sees it. */
  datatype View = View(subscribed: bool, held: Option<nat>, lastSeq: nat, freed: bool)

  const START := View(false, None, 0, false)

  /** The acts open to a consumer: it takes a frame only while it holds none and only a newer one,
      sends and releases only what it holds, and unsubscribes and frees its slot holding nothing. */
  predicate Allowed(v: View, a: Act) {
    && !v.freed
    && match a
       case Subscribe => !v.subscribed && v.held.None?
       case Take(_, seqNo) => v.subscribed && v.held.None? && seqNo > v.lastSeq
       case Send(slot) => v.held == Some(slot)
       case Release(slot) => v.held == Some(slot)
       case Unsubscribe => v.subscribed && v.held.None?
       case FreeClient => !v.subscribed && v.held.None?
  }

  function After(v: View, a: Act): View {
    match a
    case Subscribe => v.(subscribed := true)
    case Take(slot, seqNo) => v.(held := Some(slot), lastSeq := seqNo)
    case Send(_) => v
    case Release(_) => v.(held := None)
    case Unsubscribe => v.(subscribed := false)
    case FreeClient => v.(freed := true)
  }

  /** Where a history of allowed acts leads, if all its acts were allowed. */
  function Follow(acts: seq<Act>): Option<View> {
    if acts == [] then Some(START)
    else
      match Follow(acts[..|acts| - 1])
      case None => None
      case Some(v) => if Allowed(v, acts[|acts| - 1]) then Some(After(v, acts[|acts| - 1])) else None
  }

  lemma {:induction false} FollowAct(acts: seq<Act>, a: Act)
    requires Follow(acts).Some? && Allowed(Follow(acts).value, a)
    ensures Follow(acts + [a]) == Some(After(Follow(acts).value, a))
  {
    assert (acts + [a])[..|acts|] == acts;
  }

  /** The pool hands out only frames newer than the last one taken. */
  predicate Rising(turns: seq<Turn>, last: nat)
    decreases |turns|
  {
    if turns == [] then true
    else if turns[0].NoFrame? then Rising(turns[1..], last)
    else turns[0].seqNo > last && Rising(turns[1..], turns[0].seqNo)
  }

  /** How many times a slot is taken, and released, in a history. */
  function Takes(acts: seq<Act>, slot: nat): nat {
    if acts == [] then 0
    else
      var a := acts[|acts| - 1];
      Takes(acts[..|acts| - 1], slot) + if a.Take? && a.slot == slot then 1 else 0
  }

  function Releases(acts: seq<Act>, slot: nat): nat {
    if acts == [] then 0
    else Releases(acts[..|acts| - 1], slot) + if acts[|acts| - 1] == Release(slot) then 1 else 0
  }

  /** Along any allowed history a consumer's references to a slot are at most one, and are all given
      back whenever it holds nothing: its share of every reference count is exact. */
  lemma {:induction false} ReferencesBalanced(acts: seq<Act>, slot: nat)
    requires Follow(acts).Some?
    ensures Takes(acts, slot) == Releases(acts, slot) + if Follow(acts).value.held == Some(slot) then 1 else 0
    decreases |acts|
  {
    if acts != [] {
      ReferencesBalanced(acts[..|acts| - 1], slot);
    }
  }

  /** Frames are taken in strictly rising order. */
  lemma {:induction false} TakenInOrder(acts: seq<Act>, i: nat, j: nat)
    requires Follow(acts).Some? && i < j < |acts| && acts[i].Take? && acts[j].Take?
    ensures acts[i].seqNo < acts[j].seqNo
    decreases |acts|
  {
    var n := |acts| - 1;
    if j < n {
      TakenInOrder(acts[..n], i, j);
    } else {
      LastSeqCovers(acts[..n], i);
    }
  }

  lemma {:induction false} LastSeqCovers(acts: seq<Act>, i: nat)
    requires Follow(acts).Some? && i < |acts| && acts[i].Take?
    ensures acts[i].seqNo <= Follow(acts).value.lastSeq
    decreases |acts|
  {
    var n := |acts| - 1;
    if i < n {
      LastSeqCovers(acts[..n], i);
    }
  }

  /** The session goes on after a turn: a frame came in at most 8 seconds after the last, and every send
      that was made succeeded. */
  ghost predicate GoesOn(turn: Turn, haveJson: bool) {
    match turn
    case NoFrame(idleMs) => idleMs <= 8000
    case Newer(_, _, sendOk, motionLen, motionOk, faceLen, faceOk) =>
      sendOk && (haveJson ==> (motionLen == 0 || motionOk) && (faceLen == 0 || faceOk))
  }

  /** The acts of turn `k` stand in `acts` from `at[k]` up to `at[k + 1]`: nothing for a turn without a
      frame, else the taking of that frame, its sending and its release. */
  ghost predicate Played(turns: seq<Turn>, acts: seq<Act>, at: seq<nat>, k: nat)
    requires k < |turns| && |at| > k + 1
  {
    && at[k + 1] == at[k] + (if turns[k].Newer? then 3 else 0)
    && at[k + 1] <= |acts|
    && (turns[k].Newer? ==>
          && acts[at[k]] == Take(turns[k].slot, turns[k].seqNo)
          && acts[at[k] + 1] == Send(turns[k].slot)
          && acts[at[k] + 2] == Release(turns[k].slot))
  }

  /** The whole session of `n` turns: it subscribes, plays the turns one after the other, and when it is
      over unsubscribes and frees its client slot. Nothing else happens. */
  ghost predicate Session(turns: seq<Turn>, n: nat, acts: seq<Act>, at: seq<nat>, over: bool) {
    && n <= |turns| && |at| == n + 1 && at[0] == 1
    && |acts| == at[n] + (if over then 2 else 0)
    && acts != [] && acts[0] == Subscribe
    && (forall k :: 0 <= k < n ==> Played(turns, acts, at, k))
    && (over ==> acts[at[n]] == Unsubscribe && acts[at[n] + 1] == FreeClient)
  }

  /** The turns after which a picture had been delivered. */
  ghost function Delivered(turns: seq<Turn>, n: nat): set<nat>
    requires n <= |turns|
  {
    set k: nat | k < n && turns[k].Newer? && turns[k].sendOk
  }

  lemma {:induction false} DeliveredNext(turns: seq<Turn>, n: nat)
    requires n < |turns|
    ensures |Delivered(turns, n + 1)| == |Delivered(turns, n)| + if turns[n].Newer? && turns[n].sendOk then 1 else 0
  {
    if turns[n].Newer? && turns[n].sendOk {
      assert Delivered(turns, n + 1) == Delivered(turns, n) + {n};
    } else {
      assert Delivered(turns, n + 1) == Delivered(turns, n);
    }
  }

  /** Acts added at the end leave the turns played so far where they are. */
  lemma {:induction false} PlayedStays(turns: seq<Turn>, acts: seq<Act>, at: seq<nat>, more: seq<Act>, next: nat)
    requires 1 <= |at| <= |turns| + 1 && forall k :: 0 <= k < |at| - 1 ==> Played(turns, acts, at, k)
    ensures forall k :: 0 <= k < |at| - 1 ==> Played(turns, acts + more, at + [next], k)
  {
    forall k | 0 <= k < |at| - 1 ensures Played(turns, acts + more, at + [next], k) {
      assert Played(turns, acts, at, k);
    }
  }

  /** The loop over the turns met so far. `exited` tells whether the sender has come to its end, in
      which case it holds nothing, is unsubscribed and has freed its client slot. `n` is the number of
      turns handled and `at` where the acts of each begin. */
  method SenderTask(turns: seq<Turn>, haveJson: bool)
    returns (acts: seq<Act>, framesSent: nat, exited: bool, ghost n: nat, ghost at: seq<nat>)
    requires Rising(turns, 0)
    ensures Follow(acts).Some? && Follow(acts).value.held == None
    ensures exited ==> !Follow(acts).value.subscribed && Follow(acts).value.freed
    ensures !exited ==> Follow(acts).value.subscribed && !Follow(acts).value.freed
    ensures forall slot :: Takes(acts, slot) == Releases(acts, slot)
    ensures if exited then 0 < n <= |turns| && !GoesOn(turns[n - 1], haveJson) else n == |turns|
    ensures forall k :: 0 <= k < (if exited then n - 1 else n) ==> GoesOn(turns[k], haveJson)
    ensures Session(turns, n, acts, at, exited)
    ensures framesSent == |Delivered(turns, n)|
  {
    hide Takes, Releases, Played, Delivered;
    acts := [Subscribe];
    FollowAct([], Subscribe);
    assert [] + [Subscribe] == acts;
    var last := 0;
    framesSent := 0;
    exited := false;
    var i := 0;
    at := [1];
    NoneDelivered(turns);
    while i < |turns| && !exited
      invariant i <= |turns|
      invariant Follow(acts) == Some(View(true, None, last, false))
      invariant !exited ==> Rising(turns[i..], last)
      invariant exited ==> i > 0 && !GoesOn(turns[i - 1], haveJson)
      invariant forall k :: 0 <= k < i && (exited ==> k < i - 1) ==> GoesOn(turns[k], haveJson)
      invariant |at| == i + 1 && at[0] == 1 && at[i] == |acts| && acts[0] == Subscribe
      invariant forall k :: 0 <= k < i ==> Played(turns, acts, at, k)
      invariant framesSent == |Delivered(turns, i)|
      decreases |turns| - i + if exited then 0 else 1
    {
      var turn := turns[i];
      assert turns[i..][1..] == turns[i + 1..];
      DeliveredNext(turns, i);
      ghost var played := acts;
      match turn {
        case NoFrame(idleMs) =>
          if idleMs > WS_NO_FRAME_EXIT_MS {
            exited := true;
          }
          PlayedStays(turns, played, at, [], |acts|);
          assert played + [] == acts;
        case Newer(slot, seqNo, sendOk, motionLen, motionOk, faceLen, faceOk) =>
          acts := OneFrame(acts, slot, seqNo);
          PlayedStays(turns, played, at, [Take(slot, seqNo), Send(slot), Release(slot)], |acts|);
          last := seqNo;
          if !sendOk {
            exited := true;
          } else {
            framesSent := framesSent + 1;
            if haveJson {
              if motionLen > 0 && !motionOk {
                exited := true;
              } else if faceLen > 0 && !faceOk {
                exited := true;
              }
            }
          }
      }
      at := at + [|acts|];
      PlayedNow(turns, played, acts, at, i);
      i := i + 1;
    }
    n := i;
    if exited {
      PlayedStays(turns, acts, at, [Unsubscribe, FreeClient], 0);
      ghost var played := acts;
      FollowAct(acts, Unsubscribe);
      acts := acts + [Unsubscribe];
      FollowAct(acts, FreeClient);
      acts := acts + [FreeClient];
      assert acts == played + [Unsubscribe, FreeClient];
      PlayedShorter(turns, acts, at, 0);
    }
    forall slot ensures Takes(acts, slot) == Releases(acts, slot) {
      ReferencesBalanced(acts, slot);
    }
  }

  lemma NoneDelivered(turns: seq<Turn>)
    ensures |Delivered(turns, 0)| == 0
  {
  }

  lemma PlayedNow(turns: seq<Turn>, before: seq<Act>, acts: seq<Act>, at: seq<nat>, i: nat)
    requires i < |turns| && |at| == i + 2 && at[i] == |before| && at[i + 1] == |acts|
    requires acts == before + if turns[i].Newer? then [Take(turns[i].slot, turns[i].seqNo), Send(turns[i].slot), Release(turns[i].slot)] else []
    ensures Played(turns, acts, at, i)
  {
  }

  lemma PlayedShorter(turns: seq<Turn>, acts: seq<Act>, at: seq<nat>, next: nat)
    requires 1 <= |at| <= |turns| + 1 && forall k :: 0 <= k < |at| - 1 ==> Played(turns, acts, at + [next], k)
    ensures forall k :: 0 <= k < |at| - 1 ==> Played(turns, acts, at, k)
  {
    forall k | 0 <= k < |at| - 1 ensures Played(turns, acts, at, k) {
      assert Played(turns, acts, at + [next], k);
    }
  }

  /** Take a frame, send it, give it back, whether or not the send succeeded. */
  method OneFrame(before: seq<Act>, slot: nat, seqNo: nat) returns (acts: seq<Act>)
    requires Follow(before).Some? && Allowed(Follow(before).value, Take(slot, seqNo))
    ensures Follow(acts) == Some(Follow(before).value.(lastSeq := seqNo))
    ensures acts == before + [Take(slot, seqNo), Send(slot), Release(slot)]
  {
    FollowAct(before, Take(slot, seqNo));
    acts := before + [Take(slot, seqNo)];
    FollowAct(acts, Send(slot));
    acts := acts + [Send(slot)];
    FollowAct(acts, Release(slot));
    acts := acts + [Release(slot)];
  }

  // --- The client table ---------------------------------------------------------------

  datatype Client = Client(inUse: bool, fd: int)

  function InUse(clients: seq<Client>): (n: nat)
    ensures n <= |clients|
    ensures n == |clients| <==> forall i :: 0 <= i < |clients| ==> clients[i].inUse
  {
    if clients == [] then 0
    else InUse(clients[..|clients| - 1]) + if clients[|clients| - 1].inUse then 1 else 0
  }

  lemma {:induction false} InUseUpdate(clients: seq<Client>, i: nat, c: Client)
    requires i < |clients|
    ensures InUse(clients[i := c]) == InUse(clients) - (if clients[i].inUse then 1 else 0) + if c.inUse then 1 else 0
    decreases |clients|
  {
    var n := |clients| - 1;
    if i < n {
      InUseUpdate(clients[..n], i, c);
      assert clients[i := c][..n] == clients[..n][i := c];
    } else {
      assert clients[i := c][..n] == clients[..n];
    }
  }

  class Clients {
    const slots: array<Client>
    var count: nat

    ghost predicate Valid()
      reads this, slots
    {
      slots.Length == WS_STREAM_MAX_CLIENTS && count == InUse(slots[..])
    }

    constructor ()
      ensures Valid() && fresh(slots) && count == 0
    {
      slots := new Client[WS_STREAM_MAX_CLIENTS](_ => Client(false, 0));
      count := 0;
      new;
      assert slots[..] == [Client(false, 0), Client(false, 0)];
    }

    /** The first free slot, or -1 exactly when all are taken. */
    method AcquireSlot(fd: int) returns (idx: int)
      requires Valid()
      modifies this, slots
      ensures Valid() && -1 <= idx < slots.Length
      ensures idx == -1 <==> old(count) == 2
      ensures idx == -1 ==> slots[..] == old(slots[..]) && count == old(count)
      ensures idx >= 0 ==> !old(slots[..])[idx].inUse && count == old(count) + 1
      ensures idx >= 0 ==> slots[..] == old(slots[..])[idx := Client(true, fd)]
    {
      idx := -1;
      for i := 0 to slots.Length
        invariant Valid() && slots[..] == old(slots[..]) && count == old(count)
        invariant forall k :: 0 <= k < i ==> slots[k].inUse
      {
        if !slots[i].inUse {
          InUseUpdate(slots[..], i, Client(true, fd));
          slots[i] := Client(true, fd);
          count := count + 1;
          assert slots[..] == old(slots[..])[i := Client(true, fd)];
          assert !old(slots[..])[i].inUse;
          return i;
        }
      }
    }

    /** Freeing a slot twice, or one that does not exist, changes nothing. */
    method ReleaseSlot(idx: int)
      requires Valid()
      modifies this, slots
      ensures Valid()
      ensures 0 <= idx < slots.Length && old(slots[..])[idx].inUse ==>
                slots[..] == old(slots[..])[idx := Client(false, -1)] && count == old(count) - 1
      ensures !(0 <= idx < slots.Length && old(slots[..])[idx].inUse) ==>
                slots[..] == old(slots[..]) && count == old(count)
    {
      if idx < 0 || idx >= slots.Length {
        return;
      }
      if slots[idx].inUse {
        InUseUpdate(slots[..], idx, Client(false, -1));
        slots[idx] := Client(false, -1);
        count := count - 1;
        assert slots[..] == old(slots[..])[idx := Client(false, -1)];
      }
    }
  }
}
