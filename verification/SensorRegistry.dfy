/** The poller: it collects the response, pulls fields out of the JSON by searching for their keys,
    and relays alarm and motion edges. */
module SensorRegistry {
  import opened Options
  import opened JsonText
  import opened TelemetryReport

  const HTTP_BUF_SIZE := 2560
  const SENSOR_REASON_MAX := 64
  const INT_LIMIT := 0x8000_0000

  // --- Collecting the response ----------------------------------------------------

  function Concat(chunks: seq<string>): string {
    if chunks == [] then "" else Concat(chunks[..|chunks| - 1]) + chunks[|chunks| - 1]
  }

  /** What the buffer holds after these chunks: a chunk that would fill it is dropped whole. */
  function Collected(chunks: seq<string>): (s: string)
    ensures |s| < HTTP_BUF_SIZE
  {
    if chunks == [] then "" else Accept(Collected(chunks[..|chunks| - 1]), chunks[|chunks| - 1])
  }

  function Accept(held: string, chunk: string): string {
    if |held| + |chunk| < HTTP_BUF_SIZE then held + chunk else held
  }

  /** A response is reassembled, however it was cut, exactly when it fits the buffer. */
  lemma {:induction false} CollectedWhole(chunks: seq<string>)
    ensures Collected(chunks) == Concat(chunks) <==> |Concat(chunks)| < HTTP_BUF_SIZE
    decreases |chunks|
  {
    if chunks != [] {
      CollectedWhole(chunks[..|chunks| - 1]);
    }
  }

  class HttpBuffer {
    const data: array<char>
    var len: nat

    ghost predicate Valid()
      reads this
    {
      data.Length == HTTP_BUF_SIZE && len < HTTP_BUF_SIZE
    }

    ghost function Held(): string
      requires Valid()
      reads this, data
    {
      data[..len]
    }

    constructor ()
      ensures Valid() && Held() == "" && fresh(data)
    {
      data := new char[HTTP_BUF_SIZE](_ => '\0');
      len := 0;
    }

    method Reset()
      requires Valid()
      modifies this`len
      ensures Valid() && Held() == ""
    {
      len := 0;
    }

    method Text() returns (text: string)
      requires Valid()
      ensures text == Held()
    {
      text := data[..len];
    }

    method OnData(chunk: string)
      requires Valid()
      modifies this`len, data
      ensures Valid() && Held() == Accept(old(Held()), chunk)
      ensures |old(Held())| + |chunk| < 2560 ==> Held() == old(Held()) + chunk
      ensures |old(Held())| + |chunk| >= 2560 ==> Held() == old(Held())
    {
      if len + |chunk| < HTTP_BUF_SIZE {
        forall i | 0 <= i < |chunk| {
          data[len + i] := chunk[i];
        }
        len := len + |chunk|;
        assert data[..len] == old(data[..len]) + chunk;
      }
    }
  }

  // --- The extractors -------------------------------------------------------------

  /** The number a run of digits continues, as the C library reads it. */
  function DigitsOf(s: string, acc: nat): nat
    decreases |s|
  {
    if s == "" || !IsDigit(s[0]) then acc else DigitsOf(s[1..], acc * 10 + DigitValue(s[0]))
  }

  /** The C library's atoi on text that does not begin with white space; `INT_LIMIT` is its domain. */
  function Atoi(s: string): int {
    if s != "" && s[0] == '-' then 0 - DigitsOf(s[1..], 0)
    else if s != "" && s[0] == '+' then DigitsOf(s[1..], 0)
    else DigitsOf(s, 0)
  }

  function SkipSpaces(s: string): string {
    if s != "" && s[0] == ' ' then SkipSpaces(s[1..]) else s
  }

  /** Exactly the leading spaces are skipped. */
  lemma {:induction false} SkipsToText(s: string) returns (k: nat)
    ensures k <= |s| && SkipSpaces(s) == s[k..]
    ensures (forall i :: 0 <= i < k ==> s[i] == ' ') && (k < |s| ==> s[k] != ' ')
    decreases |s|
  {
    if s != "" && s[0] == ' ' {
      k := SkipsToText(s[1..]);
      k := k + 1;
      assert s[k..] == s[1..][k - 1..];
      forall i | 0 <= i < k ensures s[i] == ' ' {
        if i > 0 {
          assert s[i] == s[1..][i - 1];
        }
      }
    } else {
      k := 0;
      assert s[0..] == s;
    }
  }

  /** The value of digits is decimal: one more digit at the end multiplies by ten and adds it, and the
      first character that is no digit ends the number. */
  lemma {:induction false} DigitsAreDecimal(s: string, c: char, rest: string, acc: nat)
    requires forall i :: 0 <= i < |s| ==> IsDigit(s[i])
    requires IsDigit(c) && (rest == "" || !IsDigit(rest[0]))
    ensures DigitsOf(s + [c] + rest, acc) == 10 * DigitsOf(s, acc) + (c as int - 48)
    decreases |s|
  {
    var t := s + [c] + rest;
    if s == "" {
      assert t == [c] + rest && t[1..] == rest;
    } else {
      assert t[0] == s[0] && t[1..] == s[1..] + [c] + rest;
      DigitsAreDecimal(s[1..], c, rest, acc * 10 + DigitValue(s[0]));
    }
  }

  /** The place just past the first hit of the pattern. */
  function PastFirst(j: string, pattern: string): (r: Option<nat>)
    ensures r.None? <==> forall p: nat :: !HitAt(j, pattern, p)
    ensures r.Some? ==> |pattern| <= r.value <= |j| && IsFirstHit(j, pattern, r.value - |pattern|)
  {
    match StrStr(j, pattern)
    case None => None
    case Some(p) => Some(p + |pattern|)
  }

  function IntAt(j: string, key: string, def: int): int {
    match PastFirst(j, KeyPattern(key))
    case None => def
    case Some(at) => Atoi(SkipSpaces(j[at..]))
  }

  function BoolAt(j: string, key: string, def: bool): bool {
    match PastFirst(j, KeyPattern(key))
    case None => def
    case Some(at) => var v := SkipSpaces(j[at..]); v != "" && v[0] == 't'
  }

  /** The first place from `p` on that holds a quote, or `limit`, or the end of the text. */
  function StopAt(j: string, p: nat, limit: nat): (q: nat)
    requires p <= |j| && p <= limit
    ensures p <= q <= |j| && q <= limit
    ensures q < limit && q < |j| ==> j[q] == QUOTE
    ensures forall k :: p <= k < q ==> j[k] != QUOTE
    decreases |j| - p
  {
    if p == |j| || j[p] == QUOTE || p == limit then p else StopAt(j, p + 1, limit)
  }

  function StrAt(j: string, key: string, maxLen: nat): string
    requires 0 < maxLen
  {
    match PastFirst(j, KeyPattern(key) + [QUOTE])
    case None => ""
    case Some(at) => j[at..StopAt(j, at, at + maxLen - 1)]
  }

  /** A field whose quoted name and colon stand nowhere in the text has the default value, and a text
      field is empty. */
  lemma {:induction false} MissingField(j: string, key: string, n: int, b: bool, maxLen: nat)
    requires 0 < maxLen && forall p: nat :: !HitAt(j, "\"" + key + "\":", p)
    ensures IntAt(j, key, n) == n && BoolAt(j, key, b) == b && StrAt(j, key, maxLen) == ""
  {
    hide HitAt, IsFirstHit, StrStr, Atoi, SkipSpaces, StopAt;
    assert KeyPattern(key) == "\"" + key + "\":";
    if PastFirst(j, KeyPattern(key) + [QUOTE]).Some? {
      var p: nat :| HitAt(j, KeyPattern(key) + [QUOTE], p);
      ShorterHit(j, KeyPattern(key), p);
    }
  }

  /** What the extractors make of a field found at `p` whose value, after `k` spaces, starts at `at`: a flag is
      true exactly for a value that starts with t, a number is read from there. */
  lemma {:induction false} FieldReads(j: string, key: string, p: nat, k: nat, n: int, b: bool)
    requires IsFirstHit(j, "\"" + key + "\":", p)
    requires SpacesAt(j, p + |key| + 3, k)
    ensures p + |key| + 3 + k <= |j|
    ensures var at := p + |key| + 3 + k;
            && (BoolAt(j, key, b) <==> at < |j| && j[at] == 't')
            && IntAt(j, key, n) == Atoi(j[at..])
  {
    hide HitAt, IsFirstHit, StrStr, Atoi, SkipSpaces, PastFirst;
    var from := p + |key| + 3;
    assert KeyPattern(key) == "\"" + key + "\":" && |KeyPattern(key)| == |key| + 3;
    PastFirstIs(j, KeyPattern(key), p);
    SpacesEnd(j, from, k);
  }

  /** Exactly `k` spaces stand from `from` on. */
  ghost predicate SpacesAt(j: string, from: nat, k: nat) {
    from + k <= |j| && (forall i :: from <= i < from + k ==> j[i] == ' ') && (from + k < |j| ==> j[from + k] != ' ')
  }

  lemma {:induction false} SpacesEnd(j: string, from: nat, k: nat)
    requires SpacesAt(j, from, k)
    ensures SkipSpaces(j[from..]) == j[from + k..]
    decreases k
  {
    if k > 0 {
      assert j[from..][1..] == j[from + 1..];
      SpacesEnd(j, from + 1, k - 1);
    }
  }

  /** A sign in front makes the number negative or leaves it, and without digits the number is 0. */
  lemma {:induction false} AtoiSigns(s: string)
    ensures Atoi("-" + s) == -(DigitsOf(s, 0) as int) && Atoi("+" + s) == DigitsOf(s, 0)
    ensures s == "" || (!IsDigit(s[0]) && s[0] != '-' && s[0] != '+') ==> Atoi(s) == 0
  {
    assert ("-" + s)[1..] == s && ("+" + s)[1..] == s;
  }

  method SkipSpacesFrom(j: string, from: nat) returns (p: nat)
    requires from <= |j|
    ensures p <= |j| && j[p..] == SkipSpaces(j[from..])
  {
    p := from;
    while p < |j| && j[p] == ' '
      invariant from <= p <= |j|
      invariant SkipSpaces(j[p..]) == SkipSpaces(j[from..])
    {
      assert j[p..][1..] == j[p + 1..];
      p := p + 1;
    }
  }

  method JsonInt(j: string, key: string, def: int) returns (r: int)
    ensures r == IntAt(j, key, def)
  {
    hide StrStr, KeyPattern, SkipSpaces, Atoi;
    var hit := StrStr(j, KeyPattern(key));
    if hit.None? {
      return def;
    }
    var p := SkipSpacesFrom(j, hit.value + |KeyPattern(key)|);
    r := Atoi(j[p..]);
  }

  method JsonBool(j: string, key: string, def: bool) returns (r: bool)
    ensures r == BoolAt(j, key, def)
  {
    hide StrStr, KeyPattern, SkipSpaces;
    var hit := StrStr(j, KeyPattern(key));
    if hit.None? {
      return def;
    }
    var p := SkipSpacesFrom(j, hit.value + |KeyPattern(key)|);
    r := p < |j| && j[p] == 't';
  }

  method CopyToQuote(j: string, from: nat, limit: nat) returns (out: string)
    requires from <= |j| && from <= limit
    ensures out == j[from..StopAt(j, from, limit)]
  {
    hide StopAt;
    out := "";
    var p := from;
    while p < |j| && j[p] != QUOTE && p < limit
      invariant from <= p <= |j| && p <= limit
      invariant out == j[from..p]
      invariant StopAt(j, p, limit) == StopAt(j, from, limit)
    {
      StopAtMoves(j, p, limit);
      SliceGrows(j, from, p);
      out := out + [j[p]];
      p := p + 1;
    }
    StopAtHere(j, p, limit);
  }

  lemma StopAtMoves(j: string, p: nat, limit: nat)
    requires p < |j| && p < limit && j[p] != QUOTE
    ensures StopAt(j, p, limit) == StopAt(j, p + 1, limit)
  {
  }

  lemma StopAtHere(j: string, p: nat, limit: nat)
    requires p <= |j| && p <= limit
    requires p == |j| || p == limit || j[p] == QUOTE
    ensures StopAt(j, p, limit) == p
  {
  }

  lemma SliceGrows(j: string, from: nat, p: nat)
    requires from <= p < |j|
    ensures j[from..p] + [j[p]] == j[from..p + 1]
  {
  }

  method JsonStr(j: string, key: string, maxLen: nat) returns (out: string)
    requires 0 < maxLen
    ensures out == StrAt(j, key, maxLen)
  {
    hide StrStr, KeyPattern, StopAt, HitAt, IsFirstHit;
    var k := KeyPattern(key) + [QUOTE];
    var hit := StrStr(j, k);
    if hit.None? {
      return "";
    }
    HitInside(j, k, hit.value);
    var from := hit.value + |k|;
    out := CopyToQuote(j, from, from + maxLen - 1);
  }

  lemma HitInside(text: string, pattern: string, p: nat)
    requires IsFirstHit(text, pattern, p)
    ensures p + |pattern| <= |text|
  {
  }

  // --- Printing a number and reading it back --------------------------------------

  lemma {:induction false} DecimalReadsBack(n: nat, rest: string)
    ensures DigitsOf(Decimal(n) + rest, 0) == DigitsOf(rest, n)
  {
    var d := Digit(n % 10);
    if n < 10 {
      assert Decimal(n) + rest == [d] + rest;
      assert ([d] + rest)[1..] == rest;
    } else {
      DecimalReadsBack(n / 10, [d] + rest);
      assert Decimal(n) + rest == Decimal(n / 10) + ([d] + rest);
      assert ([d] + rest)[1..] == rest;
    }
  }

  lemma {:induction false} SignedReadsBack(n: int, rest: string)
    requires rest == "" || !IsDigit(rest[0])
    ensures Atoi(SkipSpaces(Signed(n) + rest)) == n
  {
    hide Decimal, DigitsOf, SkipSpaces;
    var m := if n < 0 then -n else n;
    var d, s := Decimal(m) + rest, Signed(n) + rest;
    assert d[0] == Decimal(m)[0];
    DecimalReadsBack(m, rest);
    DigitsEnd(rest, m);
    if n < 0 {
      assert s[0] == '-' && s[1..] == d;
    }
    NoSpaces(s);
  }

  lemma DigitsEnd(rest: string, n: nat)
    requires rest == "" || !IsDigit(rest[0])
    ensures DigitsOf(rest, n) == n
  {
  }

  lemma NoSpaces(s: string)
    requires s == "" || s[0] != ' '
    ensures SkipSpaces(s) == s
  {
  }

  lemma {:induction false} StopsAtQuote(j: string, p: nat, limit: nat, end: nat)
    requires p <= end < |j| && p <= limit
    requires Unquoted(j[p..end]) && j[end] == QUOTE
    ensures StopAt(j, p, limit) == if end <= limit then end else limit
    decreases end - p
  {
    if p < end && p < limit {
      assert j[p] == j[p..end][0];
      assert j[p + 1..end] == j[p..end][1..];
      StopsAtQuote(j, p + 1, limit, end);
    }
  }

  lemma {:induction false} PastFirstIs(j: string, pattern: string, p: nat)
    requires IsFirstHit(j, pattern, p) && p + |pattern| <= |j|
    ensures PastFirst(j, pattern) == Some(p + |pattern|)
  {
    hide HitAt, IsFirstHit, StrStr;
    FirstHitIsFound(j, pattern, p);
  }

  lemma {:induction false} NumberRecovered(j: string, key: string, n: int, def: int)
    requires Carries(j, key, Bare(Signed(n)))
    ensures IntAt(j, key, def) == n
  {
    hide HitAt, IsFirstHit, KeyPattern, Signed, PastFirst;
    var p: nat, rest: string :| CarriesAt(j, key, Bare(Signed(n)), p, rest);
    PastFirstIs(j, KeyPattern(key), p);
    SignedReadsBack(n, rest);
  }

  lemma {:induction false} FlagRecovered(j: string, key: string, b: bool, def: bool)
    requires Carries(j, key, Bare(Flag(b)))
    ensures BoolAt(j, key, def) == b
  {
    hide HitAt, IsFirstHit, KeyPattern, Flag, PastFirst;
    var p: nat, rest: string :| CarriesAt(j, key, Bare(Flag(b)), p, rest);
    PastFirstIs(j, KeyPattern(key), p);
    FlagLeads(b, rest);
  }

  lemma FlagLeads(b: bool, rest: string)
    ensures SkipSpaces(Flag(b) + rest) == Flag(b) + rest
    ensures (Flag(b) + rest)[0] == 't' <==> b
  {
  }

  /** The longer key that also asks for the opening quote is found at the same place. */
  lemma {:induction false} TextRecovered(j: string, key: string, s: string, maxLen: nat)
    requires Carries(j, key, Quoted(s)) && Unquoted(s) && 0 < maxLen
    ensures StrAt(j, key, maxLen) == if |s| < maxLen then s else s[..maxLen - 1]
  {
    hide CarriesAt, Unquoted, StrAt;
    var p: nat, rest: string :| CarriesAt(j, key, Quoted(s), p, rest);
    var at := TextPlace(j, key, s, p, rest);
    TextBetween(j, at, s, maxLen);
    StrAtPlace(j, key, at, maxLen);
  }

  lemma {:induction false} TextPlace(j: string, key: string, s: string, p: nat, rest: string) returns (at: nat)
    requires CarriesAt(j, key, Quoted(s), p, rest)
    ensures PastFirst(j, KeyPattern(key) + [QUOTE]) == Some(at)
    ensures at + |s| < |j| && j[at..at + |s|] == s && j[at + |s|] == QUOTE
  {
    hide HitAt, IsFirstHit, PastFirst, KeyPattern, ValueText;
    var k := KeyPattern(key);
    QuotedText(s, rest);
    LongerHit(j, k, p, s + [QUOTE] + rest);
    at := p + |k| + 1;
    PastFirstIs(j, k + [QUOTE], p);
    QuotedAt(j, at, s, rest);
  }

  lemma StrAtPlace(j: string, key: string, at: nat, maxLen: nat)
    requires 0 < maxLen && at <= |j|
    requires PastFirst(j, KeyPattern(key) + [QUOTE]) == Some(at)
    ensures StrAt(j, key, maxLen) == j[at..StopAt(j, at, at + maxLen - 1)]
  {
  }

  lemma QuotedText(s: string, rest: string)
    ensures ValueText(Quoted(s)) + rest == [QUOTE] + (s + [QUOTE] + rest)
  {
  }

  lemma TextBetween(j: string, at: nat, s: string, maxLen: nat)
    requires at + |s| < |j| && j[at..at + |s|] == s && j[at + |s|] == QUOTE
    requires Unquoted(s) && 0 < maxLen
    ensures j[at..StopAt(j, at, at + maxLen - 1)] == if |s| < maxLen then s else s[..maxLen - 1]
  {
    hide StopAt;
    StopsAtQuote(j, at, at + maxLen - 1, at + |s|);
    if |s| >= maxLen {
      assert j[at..at + maxLen - 1] == j[at..at + |s|][..maxLen - 1];
    }
  }

  lemma QuotedAt(j: string, at: nat, s: string, rest: string)
    requires at <= |j| && j[at..] == s + [QUOTE] + rest
    ensures at + |s| < |j| && j[at..at + |s|] == s && j[at + |s|] == QUOTE
  {
    assert j[at..at + |s|] == j[at..][..|s|];
    assert j[at + |s|] == j[at..][|s|];
  }

  lemma {:induction false} LongerHit(j: string, k: string, p: nat, rest: string)
    requires IsFirstHit(j, k, p) && j[p + |k|..] == [QUOTE] + rest
    ensures IsFirstHit(j, k + [QUOTE], p)
    ensures p + |k| + 1 <= |j| && j[p + |k| + 1..] == rest
  {
    var w := k + [QUOTE];
    assert j[p + |k|] == j[p + |k|..][0];
    assert j[p..p + |w|] == j[p..p + |k|] + [j[p + |k|]];
    assert j[p + |k| + 1..] == j[p + |k|..][1..];
    forall q: nat | q < p ensures !HitAt(j, w, q) {
      if HitAt(j, w, q) {
        ShorterHit(j, k, q);
      }
    }
  }

  lemma ShorterHit(j: string, k: string, q: nat)
    requires HitAt(j, k + [QUOTE], q)
    ensures HitAt(j, k, q)
  {
    var w := k + [QUOTE];
    assert j[q..q + |k|] == j[q..q + |w|][..|k|] == w[..|k|] == k;
  }

  // --- One poll -------------------------------------------------------------------

  function AsUint32(n: int): nat { n % 0x1_0000_0000 }

  function AsUint8(n: int): nat { n % 0x100 }

  function AsInt8(n: int): int { (n + 0x80) % 0x100 - 0x80 }

  /** Each conversion keeps the number modulo the size of its type and brings it into range. */
  lemma {:induction false} CastsWrap(n: int) returns (a: int, b: int, c: int)
    ensures n == a * 4294967296 + AsUint32(n) && 0 <= AsUint32(n) <= 4294967295
    ensures n == b * 256 + AsUint8(n) && 0 <= AsUint8(n) <= 255
    ensures n == c * 256 + AsInt8(n) && -128 <= AsInt8(n) <= 127
  {
    a, b, c := n / 0x1_0000_0000, n / 0x100, (n + 0x80) / 0x100;
  }

  /** The fields a poll takes from the response; the score stays a number and is left out. */
  datatype Reading = Reading(
    uptimeS: nat, camFps: nat, motionFps: nat, motionDetected: bool, alarmActive: bool,
    alarmReason: string, heapFree: nat, psramFree: nat, rssi: int, cpu0Pct: nat, cpu1Pct: nat)

  function Parsed(j: string): Reading {
    Reading(AsUint32(IntAt(j, "uptime_s", 0)), AsUint32(IntAt(j, "fps_1s", 0)),
            AsUint32(IntAt(j, "motion_fps_1s", 0)), BoolAt(j, "motion_detected", false),
            BoolAt(j, "active", false), StrAt(j, "last_reason", SENSOR_REASON_MAX),
            AsUint32(IntAt(j, "heap_free_b", 0)), AsUint32(IntAt(j, "psram_free_b", 0)),
            AsInt8(IntAt(j, "rssi_dbm", 0)), AsUint8(IntAt(j, "core0_pct", 0)), AsUint8(IntAt(j, "core1_pct", 0)))
  }

  /** The polled fields of a snapshot as its owner holds them. */
  function Original(t: Telemetry): Reading {
    Reading(t.uptimeS, t.camFps, t.motionFps, t.motionDetected, t.alarmActive,
            t.alarmLastReason, t.heapFree, t.psramFree, t.wifiRssiDbm, t.core0Pct, t.core1Pct)
  }

  /** The polled values are within their fields' types and what atoi can return. */
  predicate InRange(t: Telemetry) {
    && t.uptimeS < INT_LIMIT && t.camFps < INT_LIMIT && t.motionFps < INT_LIMIT
    && t.heapFree < INT_LIMIT && t.psramFree < INT_LIMIT
    && t.core0Pct < 0x100 && t.core1Pct < 0x100
    && -0x80 <= t.wifiRssiDbm < 0x80
    && |t.alarmLastReason| < SENSOR_REASON_MAX
  }

  lemma {:induction false} DecimalRecovered(j: string, key: string, n: nat)
    requires Carries(j, key, Bare(Decimal(n)))
    ensures IntAt(j, key, 0) == n
  {
    hide Carries, IntAt, Decimal;
    assert Signed(n) == Decimal(n);
    NumberRecovered(j, key, n, 0);
  }

  lemma {:induction false} ActivityRecovered(t: Telemetry)
    requires QuoteFree(t)
    ensures IntAt(Body(t), "uptime_s", 0) == t.uptimeS
    ensures IntAt(Body(t), "fps_1s", 0) == t.camFps
    ensures IntAt(Body(t), "motion_fps_1s", 0) == t.motionFps
    ensures BoolAt(Body(t), "motion_detected", false) == t.motionDetected
  {
    hide QuoteFree, Body, Carries, Decimal, Signed, Flag, IntAt, BoolAt, IsPolled;
    PolledPlaces();
    FieldFound(t, 1);
    DecimalRecovered(Body(t), "uptime_s", t.uptimeS);
    FieldFound(t, 9);
    DecimalRecovered(Body(t), "fps_1s", t.camFps);
    FieldFound(t, 13);
    DecimalRecovered(Body(t), "motion_fps_1s", t.motionFps);
    FieldFound(t, 14);
    FlagRecovered(Body(t), "motion_detected", t.motionDetected, false);
  }

  lemma {:induction false} LoadRecovered(t: Telemetry)
    requires QuoteFree(t)
    ensures IntAt(Body(t), "rssi_dbm", 0) == t.wifiRssiDbm
    ensures IntAt(Body(t), "core0_pct", 0) == t.core0Pct
    ensures IntAt(Body(t), "core1_pct", 0) == t.core1Pct
  {
    hide QuoteFree, Body, Carries, Decimal, Signed, Flag, IntAt, IsPolled;
    PolledPlaces();
    FieldFound(t, 6);
    NumberRecovered(Body(t), "rssi_dbm", t.wifiRssiDbm, 0);
    FieldFound(t, 33);
    DecimalRecovered(Body(t), "core0_pct", t.core0Pct);
    FieldFound(t, 34);
    DecimalRecovered(Body(t), "core1_pct", t.core1Pct);
  }

  lemma {:induction false} MemoryRecovered(t: Telemetry)
    requires QuoteFree(t)
    ensures IntAt(Body(t), "heap_free_b", 0) == t.heapFree
    ensures IntAt(Body(t), "psram_free_b", 0) == t.psramFree
  {
    hide QuoteFree, Body, Carries, Decimal, Signed, Flag, IntAt, IsPolled;
    PolledPlaces();
    FieldFound(t, 36);
    DecimalRecovered(Body(t), "heap_free_b", t.heapFree);
    FieldFound(t, 40);
    DecimalRecovered(Body(t), "psram_free_b", t.psramFree);
  }

  lemma {:induction false} AlarmRecovered(t: Telemetry)
    requires QuoteFree(t)
    ensures BoolAt(Body(t), "active", false) == t.alarmActive
  {
    hide QuoteFree, Body, Carries, Decimal, Signed, Flag, BoolAt, IsPolled;
    PolledPlaces();
    FieldFound(t, 44);
    FlagRecovered(Body(t), "active", t.alarmActive, false);
  }

  lemma {:induction false} ReasonRecovered(t: Telemetry)
    requires QuoteFree(t) && |t.alarmLastReason| < SENSOR_REASON_MAX
    ensures StrAt(Body(t), "last_reason", SENSOR_REASON_MAX) == t.alarmLastReason
  {
    hide Body, Carries, Decimal, Signed, Flag, StrAt, IsPolled, Unquoted;
    PolledPlaces();
    FieldFound(t, 46);
    TextRecovered(Body(t), "last_reason", t.alarmLastReason, SENSOR_REASON_MAX);
  }

  /** What the poller parses out of the printed snapshot is the snapshot. */
  lemma {:induction false} ParsedIsOriginal(t: Telemetry)
    requires QuoteFree(t) && InRange(t)
    ensures Parsed(Body(t)) == Original(t)
  {
    hide Body, IntAt, BoolAt, StrAt, QuoteFree;
    ActivityRecovered(t);
    LoadRecovered(t);
    MemoryRecovered(t);
    AlarmRecovered(t);
    ReasonRecovered(t);
  }

  /** Any cutting of an untruncated body into chunks is reassembled and parsed back. */
  lemma {:induction false} RoundTrip(t: Telemetry, chunks: seq<string>)
    requires QuoteFree(t) && InRange(t) && |Body(t)| < JSON_BUF_SIZE
    requires Concat(chunks) == Sent(t)
    ensures Collected(chunks) == Body(t) && Parsed(Collected(chunks)) == Original(t)
  {
    hide Body, Parsed, QuoteFree, Concat, Collected;
    CollectedWhole(chunks);
    ParsedIsOriginal(t);
  }

  // --- Edges ----------------------------------------------------------------------

  datatype Alert = AlarmAlert(reason: string) | MotionAlert(score: string, fps: nat)

  datatype Sensor = Sensor(
    online: bool, lastPollUs: int, lastSuccessUs: int, pollOk: nat, pollFail: nat,
    reading: Reading, prevAlarm: bool, prevMotion: bool)

  function AlarmEdge(was: bool, r: Reading): seq<Alert> {
    if r.alarmActive && !was then [AlarmAlert(if r.alarmReason != "" then r.alarmReason else "Alarm triggered")]
    else []
  }

  function MotionEdge(was: bool, r: Reading, score: string): seq<Alert> {
    if r.motionDetected && !was then [MotionAlert(score, r.motionFps)] else []
  }

  /** When motion starts, the reason shown is the motion. */
  function ShownReason(was: bool, r: Reading, score: string): string {
    if r.motionDetected && !was then
      var m := "Motion (" + score + ")";
      if |m| < SENSOR_REASON_MAX then m else m[..SENSOR_REASON_MAX - 1]
    else r.alarmReason
  }

  /** A sensor's record after a poll, and the alerts it sends. `score` is the score as two decimals. */
  function Polled(s: Sensor, ok: bool, j: string, now: int, score: string): (Sensor, seq<Alert>) {
    if ok && j != "" then
      var r := Parsed(j);
      (Sensor(true, now, now, s.pollOk + 1, s.pollFail,
              r.(alarmReason := ShownReason(s.prevMotion, r, score)), r.alarmActive, r.motionDetected),
       AlarmEdge(s.prevAlarm, r) + MotionEdge(s.prevMotion, r, score))
    else
      (s.(online := false, lastPollUs := now, pollFail := s.pollFail + 1), [])
  }

  /** A poll without a good answer, which includes an empty one: it is counted, the sensor is offline, and
      the last reading, the flags and the time of the last success stay. Nothing is sent. */
  lemma {:induction false} FailureKeeps(s: Sensor, ok: bool, j: string, now: int, score: string)
    requires !ok || j == ""
    ensures var (s', sent) := Polled(s, ok, j, now, score);
            && sent == [] && !s'.online && s'.lastPollUs == now && s'.pollFail == s.pollFail + 1
            && s'.lastSuccessUs == s.lastSuccessUs && s'.pollOk == s.pollOk && s'.reading == s.reading
            && s'.prevAlarm == s.prevAlarm && s'.prevMotion == s.prevMotion
  {
  }

  class Registry {
    var online: bool
    var lastPollUs: int
    var lastSuccessUs: int
    var pollOk: nat
    var pollFail: nat
    var uptimeS: nat
    var camFps: nat
    var motionFps: nat
    var motionDetected: bool
    var alarmActive: bool
    var alarmReason: string
    var heapFree: nat
    var psramFree: nat
    var rssi: int
    var cpu0Pct: nat
    var cpu1Pct: nat
    var prevAlarm: bool
    var prevMotion: bool

    function Fields(): Reading
      reads this
    {
      Reading(uptimeS, camFps, motionFps, motionDetected, alarmActive,
              alarmReason, heapFree, psramFree, rssi, cpu0Pct, cpu1Pct)
    }

    function Record(): Sensor
      reads this
    {
      Sensor(online, lastPollUs, lastSuccessUs, pollOk, pollFail, Fields(), prevAlarm, prevMotion)
    }

    method ParseActivity(j: string)
      modifies `uptimeS, `camFps, `motionFps, `motionDetected, `alarmActive, `alarmReason
      ensures uptimeS == Parsed(j).uptimeS && camFps == Parsed(j).camFps && motionFps == Parsed(j).motionFps
      ensures motionDetected == Parsed(j).motionDetected && alarmActive == Parsed(j).alarmActive
      ensures alarmReason == Parsed(j).alarmReason
    {
      hide IntAt, BoolAt, StrAt, AsUint32, AsUint8, AsInt8;
      var n := JsonInt(j, "uptime_s", 0);
      uptimeS := AsUint32(n);
      n := JsonInt(j, "fps_1s", 0);
      camFps := AsUint32(n);
      n := JsonInt(j, "motion_fps_1s", 0);
      motionFps := AsUint32(n);
      motionDetected := JsonBool(j, "motion_detected", false);
      alarmActive := JsonBool(j, "active", false);
      alarmReason := JsonStr(j, "last_reason", SENSOR_REASON_MAX);
    }

    method ParseHealth(j: string)
      modifies `heapFree, `psramFree, `rssi, `cpu0Pct, `cpu1Pct
      ensures heapFree == Parsed(j).heapFree && psramFree == Parsed(j).psramFree
      ensures rssi == Parsed(j).rssi && cpu0Pct == Parsed(j).cpu0Pct && cpu1Pct == Parsed(j).cpu1Pct
    {
      hide IntAt, BoolAt, StrAt, AsUint32, AsUint8, AsInt8;
      var n := JsonInt(j, "heap_free_b", 0);
      heapFree := AsUint32(n);
      n := JsonInt(j, "psram_free_b", 0);
      psramFree := AsUint32(n);
      n := JsonInt(j, "rssi_dbm", 0);
      rssi := AsInt8(n);
      n := JsonInt(j, "core0_pct", 0);
      cpu0Pct := AsUint8(n);
      n := JsonInt(j, "core1_pct", 0);
      cpu1Pct := AsUint8(n);
    }

    method ParseFields(j: string)
      modifies `uptimeS, `camFps, `motionFps, `motionDetected, `alarmActive, `alarmReason
      modifies `heapFree, `psramFree, `rssi, `cpu0Pct, `cpu1Pct
      ensures Record() == old(Record()).(reading := Parsed(j))
    {
      hide Parsed;
      ParseActivity(j);
      ParseHealth(j);
    }

    method RelayAlarm() returns (alerts: seq<Alert>)
      modifies `prevAlarm
      ensures alerts == AlarmEdge(old(prevAlarm), Fields())
      ensures Record() == old(Record()).(prevAlarm := alarmActive)
    {
      alerts := [];
      if alarmActive && !prevAlarm {
        alerts := [AlarmAlert(if alarmReason != "" then alarmReason else "Alarm triggered")];
      }
      prevAlarm := alarmActive;
    }

    method RelayMotion(score: string) returns (alerts: seq<Alert>)
      modifies `prevMotion, `alarmReason
      ensures alerts == MotionEdge(old(prevMotion), old(Fields()), score)
      ensures Record() == old(Record()).(
        reading := old(Fields()).(alarmReason := ShownReason(old(prevMotion), old(Fields()), score)),
        prevMotion := motionDetected)
    {
      alerts := [];
      if motionDetected && !prevMotion {
        alerts := [MotionAlert(score, motionFps)];
        var m := "Motion (" + score + ")";
        alarmReason := if |m| < SENSOR_REASON_MAX then m else m[..SENSOR_REASON_MAX - 1];
      }
      prevMotion := motionDetected;
    }

    method TakeAnswer(j: string, now: int, score: string) returns (alerts: seq<Alert>)
      requires j != ""
      modifies this
      ensures Record() == Polled(old(Record()), true, j, now, score).0
      ensures alerts == Polled(old(Record()), true, j, now, score).1
    {
      hide Parsed, AlarmEdge, MotionEdge, ShownReason;
      ghost var s := Record();
      online, lastPollUs, lastSuccessUs, pollOk := true, now, now, pollOk + 1;
      ParseFields(j);
      ghost var s' := Sensor(true, now, now, s.pollOk + 1, s.pollFail, Parsed(j), s.prevAlarm, s.prevMotion);
      assert Record() == s';
      var alarm := RelayAlarm();
      var motion := RelayMotion(score);
      alerts := alarm + motion;
    }

    method PollOne(http: HttpBuffer, ok: bool, now: int, score: string) returns (alerts: seq<Alert>)
      requires http.Valid()
      modifies this
      ensures Record() == Polled(old(Record()), ok, old(http.Held()), now, score).0
      ensures alerts == Polled(old(Record()), ok, old(http.Held()), now, score).1
    {
      hide Parsed, AlarmEdge, MotionEdge, ShownReason;
      var j := http.Text();
      if ok && j != "" {
        alerts := TakeAnswer(j, now, score);
      } else {
        alerts := [];
        lastPollUs := now;
        online := false;
        pollFail := pollFail + 1;
      }
    }
  }
}
