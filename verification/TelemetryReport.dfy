/** The telemetry snapshot and the JSON body the hub answers a poll with. */
module TelemetryReport {
  import opened JsonText

  const JSON_BUF_SIZE := 2200

  /** A snapshot. Measurements printed with a fraction are held as the text they are printed as. */
  datatype Telemetry = Telemetry(
    uptimeS: nat, resetReason: string,
    wifiConnected: bool, wifiIp: string, wifiRssiDbm: int, wifiReconnectCount: nat,
    camFps: nat, camFrameCount: nat, camDropCount: nat,
    motionFps: nat, motionDetected: bool, motionScore: string,
    classifierFps: nat, classifierLabel: string, classifierConfidence: string,
    streamClients: nat,
    tempC: string, humidityPct: string, pressureHpa: string, coPpm: string, nh3Ppm: string, lux: string,
    gasStatus: nat, gasStatusStr: string, sensorReadCount: nat, sensorErrorCount: nat,
    core0Pct: nat, core1Pct: nat,
    heapFree: nat, heapFreeMin: nat, heapLargest: nat, internalFree: nat,
    psramFree: nat, psramFreeMin: nat, psramLargest: nat,
    alarmActive: bool, alarmCount: nat, alarmLastReason: string, telegramSent: nat, telegramFail: nat,
    errCamInit: nat, errCamFbTimeout: nat, errWifiFail: nat, errSensorRead: nat)

  // --- Numbers as text ----------------------------------------------------------

  function Digit(d: nat): (c: char)
    requires d < 10
    ensures IsDigit(c) && DigitValue(c) == d
  {
    ('0' as int + d) as char
  }

  predicate IsDigit(c: char) {
    '0' <= c <= '9'
  }

  function DigitValue(c: char): nat
    requires IsDigit(c)
  {
    c as int - '0' as int
  }

  /** Decimal digits without leading zeros, as `%lu` and `%u` print. */
  function Decimal(n: nat): (s: string)
    ensures s != "" && Unquoted(s) && forall i :: 0 <= i < |s| ==> IsDigit(s[i])
  {
    if n < 10 then [Digit(n)] else Decimal(n / 10) + [Digit(n % 10)]
  }

  /** As `%d` prints. */
  function Signed(n: int): (s: string)
    ensures s != "" && Unquoted(s)
  {
    if n < 0 then "-" + Decimal(-n) else Decimal(n)
  }

  function Flag(b: bool): (s: string)
    ensures s != "" && Unquoted(s)
    ensures b <==> s[0] == 't'
  {
    if b then "true" else "false"
  }

  // --- The body -------------------------------------------------------------------

  function Header(name: Plain): Line {
    Line(name, Bare("{"), Opening)
  }

  function NumberLine(name: Plain, n: nat, p: Punctuation): Line {
    Line(name, Bare(Decimal(n)), p)
  }

  function TextLine(name: Plain, text: string, p: Punctuation): Line {
    Line(name, Quoted(text), p)
  }

  /** A measurement or signed number, already formatted. */
  function RawLine(name: Plain, text: string, p: Punctuation): Line {
    Line(name, Bare(text), p)
  }

  function FlagLine(name: Plain, b: bool): Line {
    Line(name, Bare(Flag(b)), Comma)
  }

  const LINES := 54

  const DEVICE_LINES := 21
  const SENSOR_LINES := 35

  /** The lines about the device, its camera and its streams. */
  function DeviceLine(t: Telemetry, i: nat): Line
    requires i < DEVICE_LINES
  {
    match i
    case 0 => Header("system")
    case 1 => NumberLine("uptime_s", t.uptimeS, Comma)
    case 2 => TextLine("reset_reason", t.resetReason, Closing)
    case 3 => Header("wifi")
    case 4 => FlagLine("connected", t.wifiConnected)
    case 5 => TextLine("ip", t.wifiIp, Comma)
    case 6 => RawLine("rssi_dbm", Signed(t.wifiRssiDbm), Comma)
    case 7 => NumberLine("reconnect_count", t.wifiReconnectCount, Closing)
    case 8 => Header("camera")
    case 9 => NumberLine("fps_1s", t.camFps, Comma)
    case 10 => NumberLine("frame_count", t.camFrameCount, Comma)
    case 11 => NumberLine("drop_count", t.camDropCount, Closing)
    case 12 => Header("vision")
    case 13 => NumberLine("motion_fps_1s", t.motionFps, Comma)
    case 14 => FlagLine("motion_detected", t.motionDetected)
    case 15 => RawLine("motion_score", t.motionScore, Comma)
    case 16 => NumberLine("classifier_fps_1s", t.classifierFps, Comma)
    case 17 => TextLine("classifier_label", t.classifierLabel, Comma)
    case 18 => RawLine("classifier_confidence", t.classifierConfidence, Closing)
    case 19 => Header("stream")
    case _ => NumberLine("client_count", t.streamClients, Closing)
  }

  /** The lines about sensors and processor load, which follow. */
  function SensorLine(t: Telemetry, i: nat): Line
    requires DEVICE_LINES <= i < SENSOR_LINES
  {
    match i
    case 21 => Header("sensors")
    case 22 => RawLine("temp_c", t.tempC, Comma)
    case 23 => RawLine("humidity_pct", t.humidityPct, Comma)
    case 24 => RawLine("pressure_hpa", t.pressureHpa, Comma)
    case 25 => RawLine("co_ppm", t.coPpm, Comma)
    case 26 => RawLine("nh3_ppm", t.nh3Ppm, Comma)
    case 27 => RawLine("lux", t.lux, Comma)
    case 28 => NumberLine("gas_status", t.gasStatus, Comma)
    case 29 => TextLine("gas_status_str", t.gasStatusStr, Comma)
    case 30 => NumberLine("read_count", t.sensorReadCount, Comma)
    case 31 => NumberLine("error_count", t.sensorErrorCount, Closing)
    case 32 => Header("cpu")
    case 33 => NumberLine("core0_pct", t.core0Pct, Comma)
    case _ => NumberLine("core1_pct", t.core1Pct, Closing)
  }

  /** The lines about memory, alarms and errors, which end the report. */
  function SystemLine(t: Telemetry, i: nat): Line
    requires SENSOR_LINES <= i < LINES
  {
    match i
    case 35 => Header("memory")
    case 36 => NumberLine("heap_free_b", t.heapFree, Comma)
    case 37 => NumberLine("heap_free_min_b", t.heapFreeMin, Comma)
    case 38 => NumberLine("heap_largest_block_b", t.heapLargest, Comma)
    case 39 => NumberLine("internal_free_b", t.internalFree, Comma)
    case 40 => NumberLine("psram_free_b", t.psramFree, Comma)
    case 41 => NumberLine("psram_free_min_b", t.psramFreeMin, Comma)
    case 42 => NumberLine("psram_largest_block_b", t.psramLargest, Closing)
    case 43 => Header("alarm")
    case 44 => FlagLine("active", t.alarmActive)
    case 45 => NumberLine("count", t.alarmCount, Comma)
    case 46 => TextLine("last_reason", t.alarmLastReason, Comma)
    case 47 => NumberLine("telegram_sent", t.telegramSent, Comma)
    case 48 => NumberLine("telegram_fail", t.telegramFail, Closing)
    case 49 => Header("errors")
    case 50 => NumberLine("cam_init", t.errCamInit, Comma)
    case 51 => NumberLine("cam_fb_timeout", t.errCamFbTimeout, Comma)
    case 52 => NumberLine("wifi_fail", t.errWifiFail, Comma)
    case _ => NumberLine("sensor_read", t.errSensorRead, Last)
  }

  /** The lines of the body in the order printed. */
  function LineAt(t: Telemetry, i: nat): Line
    requires i < LINES
  {
    if i < DEVICE_LINES then DeviceLine(t, i)
    else if i < SENSOR_LINES then SensorLine(t, i)
    else SystemLine(t, i)
  }

  function Lines(t: Telemetry): (s: seq<Line>)
    ensures |s| == LINES && forall i :: 0 <= i < LINES ==> s[i] == LineAt(t, i)
  {
    seq(LINES, i requires 0 <= i < LINES => LineAt(t, i))
  }

  function Body(t: Telemetry): string {
    ObjectText(Lines(t))
  }

  /** What is sent: the formatter keeps one place of its buffer for the terminator. */
  function Sent(t: Telemetry): (s: string)
    ensures |s| < JSON_BUF_SIZE
    ensures s <= Body(t)
  {
    if |Body(t)| < JSON_BUF_SIZE then Body(t) else Body(t)[..JSON_BUF_SIZE - 1]
  }

  /** No string of the snapshot contains a quote. */
  predicate QuoteFree(t: Telemetry) {
    && Unquoted(t.resetReason) && Unquoted(t.wifiIp)
    && Unquoted(t.motionScore) && Unquoted(t.classifierLabel) && Unquoted(t.classifierConfidence)
    && Unquoted(t.tempC) && Unquoted(t.humidityPct) && Unquoted(t.pressureHpa)
    && Unquoted(t.coPpm) && Unquoted(t.nh3Ppm) && Unquoted(t.lux)
    && Unquoted(t.gasStatusStr) && Unquoted(t.alarmLastReason)
  }

  // --- Where the parser finds each polled field -----------------------------------

  lemma DeviceLineOk(t: Telemetry, i: nat)
    requires QuoteFree(t) && i < DEVICE_LINES
    ensures LineOk(DeviceLine(t, i))
  {
    hide Decimal, Signed, Flag;
  }

  lemma SensorLineOk(t: Telemetry, i: nat)
    requires QuoteFree(t) && DEVICE_LINES <= i < SENSOR_LINES
    ensures LineOk(SensorLine(t, i))
  {
    hide Decimal, Signed, Flag;
  }

  lemma SystemLineOk(t: Telemetry, i: nat)
    requires QuoteFree(t) && SENSOR_LINES <= i < LINES
    ensures LineOk(SystemLine(t, i))
  {
    hide Decimal, Signed, Flag;
  }

  /** Every line of the body is in order: names and values contain no stray quote. */
  lemma {:induction false} BodyOk(t: Telemetry)
    requires QuoteFree(t)
    ensures LinesOk(Lines(t))
  {
    hide DeviceLine, SensorLine, SystemLine, LineOk, QuoteFree;
    forall i | 0 <= i < LINES ensures LineOk(Lines(t)[i]) {
      if i < DEVICE_LINES {
        DeviceLineOk(t, i);
      } else if i < SENSOR_LINES {
        SensorLineOk(t, i);
      } else {
        SystemLineOk(t, i);
      }
    }
  }

  /** The places of the polled fields. */
  predicate IsPolled(i: nat) {
    i in {1, 6, 9, 13, 14, 33, 34, 36, 40, 44, 46}
  }

  lemma PolledPlaces()
    ensures forall i: nat :: i in [1, 6, 9, 13, 14, 33, 34, 36, 40, 44, 46] ==> IsPolled(i)
  {
  }

  // No line before a polled field carries its name.

  lemma DeviceLineDiffers(t: Telemetry, i: nat, j: nat)
    requires IsPolled(i) && i < LINES && j < i && j < DEVICE_LINES
    ensures DeviceLine(t, j).name != LineAt(t, i).name
  {
    hide Decimal, Signed, Flag;
  }

  lemma SensorLineDiffers(t: Telemetry, i: nat, j: nat)
    requires IsPolled(i) && i < LINES && DEVICE_LINES <= j < i && j < SENSOR_LINES
    ensures SensorLine(t, j).name != LineAt(t, i).name
  {
    hide Decimal, Signed, Flag;
  }

  lemma SystemLineDiffers(t: Telemetry, i: nat, j: nat)
    requires IsPolled(i) && i < LINES && SENSOR_LINES <= j < i
    ensures SystemLine(t, j).name != LineAt(t, i).name
  {
    hide Decimal, Signed, Flag;
  }

  lemma PolledNames(t: Telemetry, i: nat)
    requires IsPolled(i) && i < LINES
    ensures IsName(LineAt(t, i).name) && !LineAt(t, i).punctuation.Opening?
  {
    hide Decimal, Signed, Flag;
  }

  /** The first hit of the key is at `p`, and this value and then a comma or brace follow it. */
  ghost predicate CarriesAt(text: string, key: string, v: Value, p: nat, rest: string) {
    && IsFirstHit(text, KeyPattern(key), p)
    && p + |KeyPattern(key)| <= |text|
    && text[p + |KeyPattern(key)|..] == ValueText(v) + rest
    && rest != "" && (rest[0] == ',' || rest[0] == '}')
  }

  ghost predicate Carries(text: string, key: string, v: Value) {
    exists p: nat, rest: string :: CarriesAt(text, key, v, p, rest)
  }

  /** A polled field is what its name finds in the body. */
  lemma {:induction false} FieldFound(t: Telemetry, i: nat)
    requires QuoteFree(t) && IsPolled(i) && i < LINES
    ensures Carries(Body(t), LineAt(t, i).name, LineAt(t, i).value)
  {
    hide DeviceLine, SensorLine, SystemLine, IsPolled, QuoteFree, LinesOk, LinesText, IsFirstHit, ValueText, KeyPattern, IsName;
    BodyOk(t);
    PolledNames(t, i);
    var l, before, after := LineAt(t, i), Lines(t)[..i], Lines(t)[i + 1..];
    assert Lines(t) == before + [l] + after;
    forall j | 0 <= j < i ensures before[j].name != l.name {
      if j < DEVICE_LINES {
        DeviceLineDiffers(t, i, j);
      } else if j < SENSOR_LINES {
        SensorLineDiffers(t, i, j);
      } else {
        SystemLineDiffers(t, i, j);
      }
    }
    KeyFound(before, l, after);
    var rest := l.Ending() + LinesText(after);
    Concat3(ValueText(l.value), l.Ending(), LinesText(after));
    assert rest[0] == l.Ending()[0];
    assert CarriesAt(Body(t), l.name, l.value, 1 + |LinesText(before)|, rest);
  }
}
