/** The sender of a stream client as one of the consumers of the pool protocol: what it does to the
    pool in any run of the protocol is a history the sender's rules allow, and the order of the
    frames it takes comes from the pool. */
module StreamConsumer {
  import opened Options
  import opened PoolOps
  import opened PoolProtocol
  import WsStream

  /** What a step of the protocol is to client `t`. Waiting, checking in vain and the steps of others
      are nothing. */
  ghost function ActOf(w: World, a: Action, t: Task): seq<WsStream.Act>
    requires Shape(w) && Enabled(w, a)
  {
    match a
    case SubscribeBy(u) => if u == t then [WsStream.Subscribe] else []
    case UnsubscribeBy(u) => if u == t then [WsStream.Unsubscribe] else []
    case ReleaseBy(u) => if u == t then [WsStream.Release(w.cons[t].slot)] else []
    case CheckBy(u) =>
      var taken := TakeNewer(w.pool, w.cons[u].lastSeq).1;
      if u == t && taken.Some? then [WsStream.Take(taken.value, w.pool.frames[taken.value].seqNo)] else []
    case _ => []
  }

  /** The sender's own rules for its steps: it subscribes first, only ever waits, and waits for a
      frame newer than the last it took. */
  ghost predicate OwnRule(a: Action, t: Task, v: WsStream.View) {
    match a
    case SubscribeBy(u) => u == t ==> !v.subscribed
    case UnsubscribeBy(u) => u == t ==> v.subscribed
    case StartWait(u, lastSeq) => u == t ==> v.subscribed && lastSeq == v.lastSeq
    case GetLatestBy(u) => u != t
    case _ => true
  }

  /** The consumer's state in the protocol is the one its history leads to. */
  ghost predicate Agrees(c: Consumer, v: WsStream.View) {
    && !v.freed
    && match c
       case Ready => v.held.None?
       case Holding(s) => v.held == Some(s) && v.subscribed
       case Checking(lastSeq) => v.held.None? && v.subscribed && lastSeq == v.lastSeq
       case Checked(lastSeq) => v.held.None? && v.subscribed && lastSeq == v.lastSeq
       case Waiting(lastSeq) => v.held.None? && v.subscribed && lastSeq == v.lastSeq
  }

  /** One step of the protocol is at most one act, an allowed one. */
  lemma {:induction false} StepAllowed(w: World, a: Action, t: Task, v: WsStream.View)
    requires Shape(w) && Enabled(w, a) && t in w.cons
    requires Agrees(w.cons[t], v) && OwnRule(a, t, v)
    ensures t in Apply(w, a).cons
    ensures ActOf(w, a, t) == [] ==> Agrees(Apply(w, a).cons[t], v)
    ensures ActOf(w, a, t) != [] ==>
              var act := ActOf(w, a, t)[0];
              && ActOf(w, a, t) == [act]
              && WsStream.Allowed(v, act) && Agrees(Apply(w, a).cons[t], WsStream.After(v, act))
  {
  }

  /** What client `t` has done in the first `n` steps of a run. */
  ghost function ActsOf(ws: seq<World>, steps: seq<Action>, t: Task, n: nat): seq<WsStream.Act>
    requires IsRun(ws, steps) && n <= |steps|
  {
    if n == 0 then []
    else
      assert Follows(ws[n - 1], steps[n - 1], ws[n - 1 + 1]);
      ActsOf(ws, steps, t, n - 1) + ActOf(ws[n - 1], steps[n - 1], t)
  }

  /** Client `t` keeps its own rules throughout a run. */
  ghost predicate KeepsRules(ws: seq<World>, steps: seq<Action>, t: Task)
    requires IsRun(ws, steps)
  {
    forall i :: 0 <= i < |steps| ==> RuleAt(ws, steps, t, i)
  }

  ghost predicate RuleAt(ws: seq<World>, steps: seq<Action>, t: Task, i: nat)
    requires IsRun(ws, steps) && i < |steps|
  {
    match WsStream.Follow(ActsOf(ws, steps, t, i))
    case None => true
    case Some(v) => OwnRule(steps[i], t, v)
  }

  /** In every run of the pool, with any other consumers, what a sender does is an allowed history: it
      takes only newer frames, one at a time, and gives back only what it holds. */
  lemma {:induction false} HistoryAllowed(ws: seq<World>, steps: seq<Action>, t: Task, n: nat)
    requires IsRun(ws, steps) && n <= |steps| && t in ws[0].cons && KeepsRules(ws, steps, t)
    ensures t in ws[n].cons
    ensures var v := WsStream.Follow(ActsOf(ws, steps, t, n));
            v.Some? && Agrees(ws[n].cons[t], v.value)
    decreases n
  {
    hide Apply, Enabled, Shape, ActOf, OwnRule, WsStream.Allowed, WsStream.After;
    if n > 0 {
      HistoryAllowed(ws, steps, t, n - 1);
      hide Agrees;
      assert Follows(ws[n - 1], steps[n - 1], ws[n - 1 + 1]);
      var acts := ActsOf(ws, steps, t, n - 1);
      var v := WsStream.Follow(acts).value;
      assert RuleAt(ws, steps, t, n - 1);
      StepAllowed(ws[n - 1], steps[n - 1], t, v);
      var more := ActOf(ws[n - 1], steps[n - 1], t);
      if more == [] {
        assert acts + more == acts;
      } else {
        WsStream.FollowAct(acts, more[0]);
      }
    }
  }

  /** The numbers of the frames taken. */
  function Taken(acts: seq<WsStream.Act>): seq<nat> {
    if acts == [] then []
    else
      var a := acts[|acts| - 1];
      Taken(acts[..|acts| - 1]) + if a.Take? then [a.seqNo] else []
  }

  lemma {:induction false} TakenRises(acts: seq<WsStream.Act>)
    requires WsStream.Follow(acts).Some?
    ensures forall i, j :: 0 <= i < j < |Taken(acts)| ==> Taken(acts)[i] < Taken(acts)[j]
    ensures forall i :: 0 <= i < |Taken(acts)| ==> 0 < Taken(acts)[i] <= WsStream.Follow(acts).value.lastSeq
    decreases |acts|
  {
    if acts != [] {
      TakenRises(acts[..|acts| - 1]);
    }
  }

  /** In every run of the pool the frames a sender takes have strictly rising numbers, above zero. */
  lemma {:induction false} PoolOrdersFrames(ws: seq<World>, steps: seq<Action>, t: Task)
    requires IsRun(ws, steps) && t in ws[0].cons && KeepsRules(ws, steps, t)
    ensures var taken := Taken(ActsOf(ws, steps, t, |steps|));
            && (forall i, j :: 0 <= i < j < |taken| ==> taken[i] < taken[j])
            && (forall i :: 0 <= i < |taken| ==> taken[i] > 0)
  {
    hide IsRun, KeepsRules, Taken;
    HistoryAllowed(ws, steps, t, |steps|);
    TakenRises(ActsOf(ws, steps, t, |steps|));
  }

  /** The numbers of the frames the sender's turns meet. */
  function Met(turns: seq<WsStream.Turn>): seq<nat> {
    if turns == [] then []
    else (if turns[0].Newer? then [turns[0].seqNo] else []) + Met(turns[1..])
  }

  lemma {:induction false} MetRises(turns: seq<WsStream.Turn>, last: nat)
    requires forall i, j :: 0 <= i < j < |Met(turns)| ==> Met(turns)[i] < Met(turns)[j]
    requires forall i :: 0 <= i < |Met(turns)| ==> Met(turns)[i] > last
    ensures WsStream.Rising(turns, last)
    decreases |turns|
  {
    if turns != [] {
      var m, rest := Met(turns), Met(turns[1..]);
      if turns[0].Newer? {
        assert m == [turns[0].seqNo] + rest && m[0] > last;
        forall i | 0 <= i < |rest| ensures rest[i] == m[i + 1] > turns[0].seqNo {
          assert m[0] < m[i + 1];
        }
        MetRises(turns[1..], turns[0].seqNo);
      } else {
        assert m == rest;
        MetRises(turns[1..], last);
      }
    }
  }

  /** What the sender's loop asks of the frames it is handed holds of the frames of every allowed
      history, and so of those taken in any run of the pool. */
  lemma {:induction false} TurnsRise(acts: seq<WsStream.Act>, turns: seq<WsStream.Turn>)
    requires WsStream.Follow(acts).Some? && Met(turns) == Taken(acts)
    ensures WsStream.Rising(turns, 0)
  {
    hide Taken, Met, WsStream.Rising;
    TakenRises(acts);
    MetRises(turns, 0);
  }
}
