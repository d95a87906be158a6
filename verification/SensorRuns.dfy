/** Whole runs of polls: what is sent and what the record shows, told from the answers alone. */
module SensorRuns {
  import opened JsonText
  import opened TelemetryReport
  import opened SensorRegistry

  /** A snapshot answered to a poll, cut into chunks on the way, and its score as two decimals. */
  datatype Answer = Answer(t: Telemetry, chunks: seq<string>, score: string)

  datatype Event = Failed(now: int) | Answered(answer: Answer, now: int)

  predicate AnswerOk(a: Answer) {
    && QuoteFree(a.t) && InRange(a.t) && |Body(a.t)| < JSON_BUF_SIZE
    && Concat(a.chunks) == Sent(a.t)
  }

  ghost predicate EventsOk(events: seq<Event>) {
    forall i :: 0 <= i < |events| && events[i].Answered? ==> AnswerOk(events[i].answer)
  }

  function Step(s: Sensor, e: Event): (Sensor, seq<Alert>) {
    match e
    case Failed(now) => Polled(s, false, "", now, "")
    case Answered(a, now) => Polled(s, true, Collected(a.chunks), now, a.score)
  }

  /** A record all of whose bytes are zero. */
  function Boot(): Sensor {
    Sensor(false, 0, 0, 0, 0, Reading(0, 0, 0, false, false, "", 0, 0, 0, 0, 0), false, false)
  }

  function Run(events: seq<Event>): (Sensor, seq<Alert>) {
    if events == [] then (Boot(), [])
    else
      var (s, sent) := Run(events[..|events| - 1]);
      var (s', more) := Step(s, events[|events| - 1]);
      (s', sent + more)
  }

  /** The answers of a run, in order. */
  function Answers(events: seq<Event>): seq<Answer> {
    if events == [] then []
    else
      var e := events[|events| - 1];
      Answers(events[..|events| - 1]) + if e.Answered? then [e.answer] else []
  }

  // ---- What the answers call for ----

  /** The alarm is on in answer `n` and was off, or unknown, in the answer before. */
  ghost predicate AlarmRises(answers: seq<Answer>, n: nat)
    requires n < |answers|
  {
    answers[n].t.alarmActive && (n == 0 || !answers[n - 1].t.alarmActive)
  }

  ghost predicate MotionRises(answers: seq<Answer>, n: nat)
    requires n < |answers|
  {
    answers[n].t.motionDetected && (n == 0 || !answers[n - 1].t.motionDetected)
  }

  /** The alerts of answer `n` stand in `sent` from `at[n]` up to `at[n + 1]`: one with its reason, or a
      stock text, if the alarm rises there, then one with its score and rate if motion does, and none
      otherwise. */
  ghost predicate AlertsOf(answers: seq<Answer>, sent: seq<Alert>, at: seq<nat>, n: nat)
    requires n < |answers| && |at| > n + 1
  {
    var t := answers[n].t;
    && at[n + 1] == at[n] + (if AlarmRises(answers, n) then 1 else 0) + (if MotionRises(answers, n) then 1 else 0)
    && at[n + 1] <= |sent|
    && (AlarmRises(answers, n) ==>
          sent[at[n]] == AlarmAlert(if t.alarmLastReason == "" then "Alarm triggered" else t.alarmLastReason))
    && (MotionRises(answers, n) ==> sent[at[n + 1] - 1] == MotionAlert(answers[n].score, t.motionFps))
  }

  /** The alerts are those of the answers, one answer after the other, and no more. */
  ghost predicate OnEdges(answers: seq<Answer>, sent: seq<Alert>, at: seq<nat>) {
    && |at| == |answers| + 1 && at[0] == 0 && at[|answers|] == |sent|
    && forall n :: 0 <= n < |answers| ==> AlertsOf(answers, sent, at, n)
  }

  /** The record shows the answer: every field of the snapshot; but while motion has just begun, the
      reason shown is the motion, cut to the 63 characters that fit. */
  ghost predicate Shows(r: Reading, a: Answer, motionRose: bool) {
    && r.uptimeS == a.t.uptimeS && r.camFps == a.t.camFps && r.motionFps == a.t.motionFps
    && r.motionDetected == a.t.motionDetected && r.alarmActive == a.t.alarmActive
    && r.heapFree == a.t.heapFree && r.psramFree == a.t.psramFree && r.rssi == a.t.wifiRssiDbm
    && r.cpu0Pct == a.t.core0Pct && r.cpu1Pct == a.t.core1Pct
    && var m := "Motion (" + a.score + ")";
       if motionRose then r.alarmReason <= m && |r.alarmReason| == (if |m| < 64 then |m| else 63)
       else r.alarmReason == a.t.alarmLastReason
  }

  lemma BodyNotEmpty(t: Telemetry)
    ensures Body(t) != ""
  {
    hide Lines, LinesText;
  }

  /** One more answered poll, after which the record follows that answer. */
  lemma {:induction false} AnsweredStep(s: Sensor, a: Answer, now: int)
    requires AnswerOk(a)
    ensures Step(s, Answered(a, now)) == Heard(s, a, now)
  {
    hide Parsed, Collected, Body, QuoteFree, InRange, Concat, ShownReason, AlarmEdge, MotionEdge;
    RoundTrip(a.t, a.chunks);
    BodyNotEmpty(a.t);
  }

  /** The record and the alerts when the snapshot has come through unharmed. */
  ghost function Heard(s: Sensor, a: Answer, now: int): (Sensor, seq<Alert>) {
    var r := Original(a.t);
    (Sensor(true, now, now, s.pollOk + 1, s.pollFail, r.(alarmReason := ShownReason(s.prevMotion, r, a.score)),
            a.t.alarmActive, a.t.motionDetected),
     AlarmEdge(s.prevAlarm, r) + MotionEdge(s.prevMotion, r, a.score))
  }

  lemma {:induction false} HeardAlerts(s: Sensor, a: Answer, now: int)
    ensures var sent := Heard(s, a, now).1;
            var alarm, motion := a.t.alarmActive && !s.prevAlarm, a.t.motionDetected && !s.prevMotion;
            && |sent| == (if alarm then 1 else 0) + (if motion then 1 else 0)
            && (alarm ==> sent[0] == AlarmAlert(if a.t.alarmLastReason == "" then "Alarm triggered" else a.t.alarmLastReason))
            && (motion ==> sent[|sent| - 1] == MotionAlert(a.score, a.t.motionFps))
  {
  }

  lemma {:induction false} HeardShows(s: Sensor, a: Answer, now: int)
    ensures Shows(Heard(s, a, now).0.reading, a, a.t.motionDetected && !s.prevMotion)
  {
  }

  // ---- Where a run stands ----

  /** The flags remembered and the reading are those of the last answer. */
  ghost predicate Remembers(s: Sensor, answers: seq<Answer>) {
    if answers == [] then !s.prevAlarm && !s.prevMotion
    else
      var n := |answers| - 1;
      && s.prevAlarm == answers[n].t.alarmActive && s.prevMotion == answers[n].t.motionDetected
      && Shows(s.reading, answers[n], MotionRises(answers, n))
  }

  lemma {:induction false} RemembersAnswer(s: Sensor, answers: seq<Answer>, a: Answer, now: int)
    requires Remembers(s, answers)
    ensures Remembers(Heard(s, a, now).0, answers + [a])
  {
    hide Shows, Original, ShownReason, AlarmEdge, MotionEdge;
    HeardShows(s, a, now);
  }

  /** One more answer: its alerts stand at the end. */
  lemma {:induction false} EdgesGrow(s: Sensor, answers: seq<Answer>, sent: seq<Alert>, at: seq<nat>, a: Answer, now: int)
    requires Remembers(s, answers) && OnEdges(answers, sent, at)
    ensures var all := sent + Heard(s, a, now).1;
            OnEdges(answers + [a], all, at + [|all|])
  {
    hide Heard, Shows;
    HeardAlerts(s, a, now);
    var more, answers' := Heard(s, a, now).1, answers + [a];
    var all := sent + more;
    var at' := at + [|all|];
    forall n | 0 <= n < |answers'| ensures AlertsOf(answers', all, at', n) {
      if n < |answers| {
        assert AlertsOf(answers, sent, at, n);
        AlertsStay(answers, sent, at, n, a, more, |all|);
      } else {
        LastAlerts(s, answers, sent, at, a, now);
      }
    }
  }

  lemma {:induction false} AlertsStay(answers: seq<Answer>, sent: seq<Alert>, at: seq<nat>, n: nat, a: Answer, more: seq<Alert>, next: nat)
    requires n < |answers| && |at| == |answers| + 1 && AlertsOf(answers, sent, at, n)
    ensures AlertsOf(answers + [a], sent + more, at + [next], n)
  {
  }

  lemma {:induction false} LastAlerts(s: Sensor, answers: seq<Answer>, sent: seq<Alert>, at: seq<nat>, a: Answer, now: int)
    requires Remembers(s, answers) && |at| == |answers| + 1 && at[|answers|] == |sent|
    ensures var all := sent + Heard(s, a, now).1;
            AlertsOf(answers + [a], all, at + [|all|], |answers|)
  {
    hide Heard, Shows;
    HeardAlerts(s, a, now);
  }

  /** Over any run of failed and successful polls the alerts sent are, in order, one for each answer in
      which the alarm or motion is on and was off in the answer before it, failed polls counting for
      nothing; and the record shows the last answer. */
  lemma {:induction false} AlertsAreEdges(events: seq<Event>) returns (at: seq<nat>)
    requires EventsOk(events)
    ensures OnEdges(Answers(events), Run(events).1, at)
    ensures Remembers(Run(events).0, Answers(events))
    ensures Run(events).0.online == (events != [] && events[|events| - 1].Answered?)
    ensures Run(events).0.pollOk == |Answers(events)| && Run(events).0.pollOk + Run(events).0.pollFail == |events|
    decreases |events|
  {
    hide OnEdges, Remembers, AnswerOk, Step;
    if events == [] {
      at := [0];
      NothingSent();
    } else {
      var n := |events| - 1;
      at := AlertsAreEdges(events[..n]);
      var (s, sent) := Run(events[..n]);
      var e, answers := events[n], Answers(events[..n]);
      match e
      case Failed(now) =>
        FailedStep(s, now);
        assert answers + [] == answers && sent + [] == sent;
      case Answered(a, now) =>
        AnsweredStep(s, a, now);
        RemembersAnswer(s, answers, a, now);
        EdgesGrow(s, answers, sent, at, a, now);
        at := at + [|sent + Heard(s, a, now).1|];
    }
  }

  lemma NothingSent()
    ensures OnEdges([], [], [0]) && Remembers(Boot(), [])
  {
  }

  /** A failed poll leaves everything the alerts depend on as it was. */
  lemma FailedStep(s: Sensor, now: int)
    ensures var (s', more) := Step(s, Failed(now));
            && more == [] && s'.reading == s.reading && s'.prevAlarm == s.prevAlarm && s'.prevMotion == s.prevMotion
            && !s'.online && s'.pollOk == s.pollOk && s'.pollFail == s.pollFail + 1
            && forall answers :: Remembers(s, answers) ==> Remembers(s', answers)
  {
    hide Shows;
  }

  /** An answer whose predecessor had the flag on adds no alert of that kind. */
  lemma {:induction false} LevelAddsNothing(events: seq<Event>, at: seq<nat>, n: nat, k: nat)
    requires n + 1 < |Answers(events)| && OnEdges(Answers(events), Run(events).1, at)
    requires at[n + 1] <= k < at[n + 2] && k < |Run(events).1|
    ensures Answers(events)[n].t.alarmActive ==> !Run(events).1[k].AlarmAlert?
    ensures Answers(events)[n].t.motionDetected ==> !Run(events).1[k].MotionAlert?
  {
    hide Answers, Run;
    assert AlertsOf(Answers(events), Run(events).1, at, n + 1);
  }

  /** The times kept: of the last poll, and of the last answered one, 0 before there is one. */
  lemma {:induction false} TimesKept(events: seq<Event>, k: nat)
    requires EventsOk(events) && k <= |events|
    requires forall i :: k <= i < |events| ==> events[i].Failed?
    requires k > 0 ==> events[k - 1].Answered?
    ensures Run(events).0.lastPollUs == if events == [] then 0 else events[|events| - 1].now
    ensures Run(events).0.lastSuccessUs == if k == 0 then 0 else events[k - 1].now
    decreases |events|
  {
    hide AnswerOk, Step;
    if events != [] {
      var n := |events| - 1;
      var s := Run(events[..n]).0;
      if k <= n {
        TimesKept(events[..n], k);
        FailedTimes(s, events[n].now);
      } else {
        AnsweredStep(s, events[n].answer, events[n].now);
      }
    }
  }

  lemma FailedTimes(s: Sensor, now: int)
    ensures Step(s, Failed(now)).0.lastPollUs == now && Step(s, Failed(now)).0.lastSuccessUs == s.lastSuccessUs
  {
  }
}
