/**
 * The threshold alert engine of the temperature alert service: it turns an
 * MQTT message into a sensor reading, classifies the temperature against an
 * ordered range table, applies a per-location cooldown, and, when one of the
 * two yes/no confirmation answers says "Yes", stamps the cooldown clock and
 * names the metric(s) in the notification.
 *
 * Wall-clock readings are parameters in milliseconds. The two confirmation
 * answers (the replies of the language-model calls) are parameters too.
 */
module AlertEngine {
  import opened Text
  import opened Values

  // ---------------------------------------------------------------------------
  // Classification

  datatype Classification = Classification(description: string, alertLevel: string)

  /** One row of the range table; `end == None` is an open upper end. */
  datatype TemperatureRange = TemperatureRange(start: real, end: Option<real>, description: string, alertLevel: string)
  {
    function Status(): Classification {
      Classification(description, alertLevel)
    }
  }

  const TemperatureRanges: seq<TemperatureRange> := [
    TemperatureRange(0.0, Some(10.0), "Cool", "info"),
    TemperatureRange(10.0, Some(20.0), "Good", "normal"),
    TemperatureRange(20.0, Some(30.0), "Hot", "warning"),
    TemperatureRange(30.0, Some(36.0), "Very hot", "high"),
    TemperatureRange(36.0, None, "Extremely hot", "critical")
  ]

  const UnknownStatus := Classification("Unknown", "info")

  /** `t >= start && (end === null || t <= end)`: both ends are inclusive. */
  predicate InRange(range: TemperatureRange, t: Num) {
    AtLeast(t, Finite(range.start)) && (range.end.None? || AtMost(t, Finite(range.end.value)))
  }

  /** Range `i` is the first one in table order that contains `t`. */
  predicate FirstMatch(ranges: seq<TemperatureRange>, t: Num, i: int) {
    0 <= i < |ranges| && InRange(ranges[i], t) && forall j :: 0 <= j < i ==> !InRange(ranges[j], t)
  }

  predicate NoMatch(ranges: seq<TemperatureRange>, t: Num) {
    forall j :: 0 <= j < |ranges| ==> !InRange(ranges[j], t)
  }

  function StatusFrom(ranges: seq<TemperatureRange>, t: Num, from: nat): (c: Classification)
    requires from <= |ranges|
    requires forall j :: 0 <= j < from ==> !InRange(ranges[j], t)
    ensures (exists i :: FirstMatch(ranges, t, i) && c == ranges[i].Status()) || (NoMatch(ranges, t) && c == UnknownStatus)
    decreases |ranges| - from
  {
    if from == |ranges| then UnknownStatus
    else if InRange(ranges[from], t) then
      assert FirstMatch(ranges, t, from);
      ranges[from].Status()
    else StatusFrom(ranges, t, from + 1)
  }

  /** `getTemperatureStatus`: the status of the first range containing `t`, else "Unknown". */
  function GetTemperatureStatus(ranges: seq<TemperatureRange>, t: Num): (c: Classification)
    ensures (exists i :: FirstMatch(ranges, t, i) && c == ranges[i].Status()) || (NoMatch(ranges, t) && c == UnknownStatus)
  {
    StatusFrom(ranges, t, 0)
  }

  lemma {:induction false} StatusFromFirstMatch(ranges: seq<TemperatureRange>, t: Num, from: nat, i: int)
    requires from <= i && FirstMatch(ranges, t, i)
    ensures StatusFrom(ranges, t, from) == ranges[i].Status()
    decreases i - from
  {
    if from < i {
      assert !InRange(ranges[from], t);
      StatusFromFirstMatch(ranges, t, from + 1, i);
    }
  }

  lemma {:induction false} StatusFromNoMatch(ranges: seq<TemperatureRange>, t: Num, from: nat)
    requires from <= |ranges| && NoMatch(ranges, t)
    ensures StatusFrom(ranges, t, from) == UnknownStatus
    decreases |ranges| - from
  {
    if from < |ranges| {
      assert !InRange(ranges[from], t);
      StatusFromNoMatch(ranges, t, from + 1);
    }
  }

  /** The first matching range decides the status. */
  lemma FirstMatchDecides(ranges: seq<TemperatureRange>, t: Num, i: int)
    requires FirstMatch(ranges, t, i)
    ensures GetTemperatureStatus(ranges, t) == ranges[i].Status()
  {
    StatusFromFirstMatch(ranges, t, 0, i);
  }

  /**
   * The configured table, band by band: every upper end is inclusive, so a
   * boundary value belongs to the lower band; below 0 (and NaN) is "Unknown".
   */
  lemma {:induction false} TableClassification(t: Num)
    ensures t.NaN? || t.r < 0.0 ==> GetTemperatureStatus(TemperatureRanges, t) == UnknownStatus
    ensures t.Finite? && 0.0 <= t.r <= 10.0 ==> GetTemperatureStatus(TemperatureRanges, t) == Classification("Cool", "info")
    ensures t.Finite? && 10.0 < t.r <= 20.0 ==> GetTemperatureStatus(TemperatureRanges, t) == Classification("Good", "normal")
    ensures t.Finite? && 20.0 < t.r <= 30.0 ==> GetTemperatureStatus(TemperatureRanges, t) == Classification("Hot", "warning")
    ensures t.Finite? && 30.0 < t.r <= 36.0 ==> GetTemperatureStatus(TemperatureRanges, t) == Classification("Very hot", "high")
    ensures t.Finite? && 36.0 < t.r ==> GetTemperatureStatus(TemperatureRanges, t) == Classification("Extremely hot", "critical")
  {
    var rs := TemperatureRanges;
    if t.NaN? || t.r < 0.0 {
      assert NoMatch(rs, t);
      StatusFromNoMatch(rs, t, 0);
    } else if t.r <= 10.0 {
      FirstMatchDecides(rs, t, 0);
    } else if t.r <= 20.0 {
      FirstMatchDecides(rs, t, 1);
    } else if t.r <= 30.0 {
      FirstMatchDecides(rs, t, 2);
    } else if t.r <= 36.0 {
      FirstMatchDecides(rs, t, 3);
    } else {
      FirstMatchDecides(rs, t, 4);
    }
  }

  /** Every non-negative reading lands in some band, because the last band has no upper end. */
  lemma EveryNonNegativeReadingIsClassified(t: Num)
    requires t.Finite? && t.r >= 0.0
    ensures GetTemperatureStatus(TemperatureRanges, t) != UnknownStatus
  {
    TableClassification(t);
  }

  // ---------------------------------------------------------------------------
  // Cooldown

  /** Per-location time of the last alert sent, in milliseconds. */
  type AlertTimes = map<string, int>

  const MillisPerMinute: int := 60000

  /** The key the cooldown map uses for a location. */
  function AlertKey(location: JsValue): string {
    "key_" + Show(location)
  }

  /**
   * `shouldGenerateAlert`: true when the location has no stamp; otherwise true
   * unless the minutes elapsed since the stamp are below the cooldown.
   */
  function ShouldGenerateAlert(lastAlert: AlertTimes, location: JsValue, now: int, cooldownMinutes: Num): (due: bool)
    ensures AlertKey(location) !in lastAlert ==> due
    ensures AlertKey(location) in lastAlert && cooldownMinutes.NaN? ==> due
    ensures AlertKey(location) in lastAlert && cooldownMinutes.Finite? ==>
      (due <==> (now - lastAlert[AlertKey(location)]) as real >= cooldownMinutes.r * 60000.0)
  {
    var key := AlertKey(location);
    if key in lastAlert then
      var elapsed := (now - lastAlert[key]) as real;
      var minutesSince := elapsed / MillisPerMinute as real;
      assert cooldownMinutes.Finite? ==> (minutesSince < cooldownMinutes.r <==> elapsed < cooldownMinutes.r * 60000.0);
      !Less(Finite(minutesSince), cooldownMinutes)
    else true
  }

  /**
   * The cooldown window in milliseconds: an alert is due again exactly when at
   * least `cooldown` minutes (`cooldown * 60000` ms) have passed since the
   * stamp; a location without a stamp is always due.
   */
  lemma CooldownWindow(lastAlert: AlertTimes, location: JsValue, now: int, cooldown: real)
    ensures AlertKey(location) !in lastAlert ==> ShouldGenerateAlert(lastAlert, location, now, Finite(cooldown))
    ensures AlertKey(location) in lastAlert ==>
      (ShouldGenerateAlert(lastAlert, location, now, Finite(cooldown)) <==>
        (now - lastAlert[AlertKey(location)]) as real >= cooldown * 60000.0)
  {
    var key := AlertKey(location);
    if key in lastAlert {
      var d := (now - lastAlert[key]) as real;
      assert d / 60000.0 < cooldown <==> d < cooldown * 60000.0;
    }
  }

  /** A cooldown that is not a number (an unparsable setting) never suppresses anything. */
  lemma NaNCooldownNeverSuppresses(lastAlert: AlertTimes, location: JsValue, now: int)
    ensures ShouldGenerateAlert(lastAlert, location, now, NaN)
  {
  }

  // ---------------------------------------------------------------------------
  // Readings

  /** What `extractDeviceInfo` returns (the wall-clock timestamp is left out). */
  datatype DeviceInfo = DeviceInfo(
    deviceId: string,
    location: JsValue,
    temperature: Num,
    humidity: Num,
    topic: string,
    battery: JsValue,
    linkquality: JsValue)

  datatype Extraction = Threw | NoReading | Extracted(info: DeviceInfo)

  /** `payload.key` on a payload that is known not to throw. */
  function Field(payload: JsValue, key: string): JsValue
    requires !payload.JNull? && !payload.JUndefined?
  {
    Prop(payload, key).value
  }

  /** `payload.temperature || payload.temp || payload.value || null`. */
  function TemperatureCandidate(payload: JsValue): JsValue
    requires !payload.JNull? && !payload.JUndefined?
  {
    OrChain([Field(payload, "temperature"), Field(payload, "temp"), Field(payload, "value")], JNull)
  }

  /** `payload.humidity || payload.value || null`. */
  function HumidityCandidate(payload: JsValue): JsValue
    requires !payload.JNull? && !payload.JUndefined?
  {
    OrChain([Field(payload, "humidity"), Field(payload, "value")], JNull)
  }

  /** `v === null || isNaN(v)`. */
  predicate Missing(v: JsValue) {
    v == JNull || IsNaN(v)
  }

  const ZigbeePrefix := "zigbee2mqtt/"

  lemma {:induction false} IndexOfAtMost(s: string, c: char, k: nat)
    requires k < |s| && s[k] == c
    ensures IndexOf(s, c) <= k
    decreases k
  {
    if s[0] != c {
      IndexOfAtMost(s[1..], c, k - 1);
    }
  }

  lemma SplitHasTwoParts(s: string, c: char, k: nat)
    requires k < |s| && s[k] == c
    ensures |Split(s, c)| >= 2
  {
    IndexOfAtMost(s, c, k);
    SplitHead(s, c);
  }

  lemma UnslashedTopic(topic: string)
    ensures '/' !in topic ==> Split(topic, '/') == [topic]
  {
    if '/' !in topic {
      SplitWithoutSeparator(topic, '/');
    }
  }

  /**
   * The device id taken from the topic. It never holds a slash; off the
   * `zigbee2mqtt/` prefix it is never empty, and a topic without any slash
   * falls back to "unknown".
   */
  function TopicDeviceId(topic: string): (id: string)
    ensures '/' !in id
    ensures !StartsWith(topic, ZigbeePrefix) ==> id != ""
    ensures !StartsWith(topic, ZigbeePrefix) && '/' !in topic ==> id == "unknown"
  {
    UnslashedTopic(topic);
    var parts := Split(topic, '/');
    if StartsWith(topic, ZigbeePrefix) then
      SplitHasTwoParts(topic, '/', |ZigbeePrefix| - 1);
      parts[1]
    else if |parts| >= 2 && parts[|parts| - 2] != "" then parts[|parts| - 2]
    else "unknown"
  }

  /** `extractDeviceInfo(topic, payload)`. */
  function ExtractDeviceInfo(topic: string, payload: JsValue): (r: Extraction)
    ensures r.Threw? <==> payload.JNull? || payload.JUndefined?
    ensures !r.Threw? ==> (r.NoReading? <==> Missing(TemperatureCandidate(payload)) && Missing(HumidityCandidate(payload)))
    ensures r.Extracted? ==>
      && r.info.temperature == ParseFloatOf(TemperatureCandidate(payload))
      && r.info.humidity == ParseFloatOf(HumidityCandidate(payload))
      && r.info.topic == topic
  {
    if payload.JNull? || payload.JUndefined? then Threw
    else
      var temperature := TemperatureCandidate(payload);
      var humidity := HumidityCandidate(payload);
      if Missing(temperature) && Missing(humidity) then NoReading
      else
        var deviceId := TopicDeviceId(topic);
        var fallback := if StartsWith(topic, ZigbeePrefix) then JStr(deviceId) else JStr("unknown");
        Extracted(DeviceInfo(
          deviceId,
          OrChain([Field(payload, "location")], fallback),
          ParseFloatOf(temperature),
          ParseFloatOf(humidity),
          topic,
          OrChain([Field(payload, "battery")], JNull),
          OrChain([Field(payload, "linkquality")], JNull)))
  }

  /**
   * A falsy field does not stop the search: with `temperature: 0` the
   * temperature candidate is taken from `temp`, or else from `value`.
   */
  lemma ZeroTemperatureFallsThrough(props: map<string, JsValue>, v: JsValue)
    requires "temperature" in props && props["temperature"] == JNum(Finite(0.0))
    requires "temp" !in props
    requires "value" in props && props["value"] == v && Truthy(v)
    ensures TemperatureCandidate(JObj(props)) == v
  {
    OrChainPicksFirstTruthy([Field(JObj(props), "temperature"), Field(JObj(props), "temp"), Field(JObj(props), "value")], JNull, 2);
  }

  /** A payload with a non-zero numeric temperature always yields a reading carrying that temperature. */
  lemma NumericTemperatureIsRead(topic: string, props: map<string, JsValue>, t: real)
    requires "temperature" in props && props["temperature"] == JNum(Finite(t)) && t != 0.0
    ensures ExtractDeviceInfo(topic, JObj(props)).Extracted?
    ensures ExtractDeviceInfo(topic, JObj(props)).info.temperature == Finite(t)
  {
    var p := JObj(props);
    OrChainPicksFirstTruthy([Field(p, "temperature"), Field(p, "temp"), Field(p, "value")], JNull, 0);
  }

  /**
   * On a `zigbee2mqtt/...` topic the device id is the text between the first
   * and the second slash, and the location defaults to that id.
   */
  lemma ZigbeeTopicParsing(rest: string, payload: JsValue)
    requires ExtractDeviceInfo(ZigbeePrefix + rest, payload).Extracted?
    ensures var info := ExtractDeviceInfo(ZigbeePrefix + rest, payload).info;
      && info.deviceId == rest[..IndexOf(rest, '/')]
      && '/' !in info.deviceId
      && (Truthy(Field(payload, "location")) ==> info.location == Field(payload, "location"))
      && (!Truthy(Field(payload, "location")) ==> info.location == JStr(info.deviceId))
  {
    ZigbeeDeviceId(rest);
  }

  /** The device id of `zigbee2mqtt/<rest>` is `rest` up to its first slash. */
  lemma ZigbeeDeviceId(rest: string)
    ensures TopicDeviceId(ZigbeePrefix + rest) == rest[..IndexOf(rest, '/')]
    ensures StartsWith(ZigbeePrefix + rest, ZigbeePrefix)
  {
    var topic := ZigbeePrefix + rest;
    assert topic[..|ZigbeePrefix|] == ZigbeePrefix;
    assert IndexOf(topic, '/') == 11 by {
      assert topic == "zigbee2mqtt" + ("/" + rest);
      IndexOfAbsent("zigbee2mqtt", '/');
      IndexOfPrefix("zigbee2mqtt", "/" + rest, '/');
    }
    SplitAt(topic, '/');
    assert topic[12..] == rest;
    SplitHead(rest, '/');
  }

  /** The last two pieces of `head/id/last` are `id` and `last`. */
  lemma SplitLastTwo(head: string, id: string, last: string)
    requires '/' !in id && '/' !in last
    ensures Split(head + "/" + id + "/" + last, '/') == Split(head, '/') + [id, last]
  {
    assert head + "/" + id + "/" + last == head + ['/'] + (id + ['/'] + last);
    SplitAppend(head, id + ['/'] + last, '/');
    SplitAppend(id, last, '/');
    SplitWithoutSeparator(id, '/');
    SplitWithoutSeparator(last, '/');
  }

  /**
   * On any other topic the device id is the second-to-last segment (here
   * `id` in `<anything>/<id>/<last>`), and the location defaults to "unknown".
   */
  lemma OtherTopicParsing(head: string, id: string, last: string, payload: JsValue)
    requires '/' !in id && '/' !in last && id != ""
    requires !StartsWith(head + "/" + id + "/" + last, ZigbeePrefix)
    requires ExtractDeviceInfo(head + "/" + id + "/" + last, payload).Extracted?
    ensures var info := ExtractDeviceInfo(head + "/" + id + "/" + last, payload).info;
      && info.deviceId == id
      && (!Truthy(Field(payload, "location")) ==> info.location == JStr("unknown"))
  {
    var topic := head + "/" + id + "/" + last;
    SplitLastTwo(head, id, last);
    var parts := Split(topic, '/');
    assert parts[|parts| - 2] == id;
    assert TopicDeviceId(topic) == id;
  }

  // ---------------------------------------------------------------------------
  // Confirmation and stamping

  /**
   * The answer of one confirmation call: the reply text, a reply that is not
   * text (a missing `response` field), or a failed call, for which the caller
   * receives an error message in place of an answer.
   */
  datatype Answer = Reply(text: string) | NotText | CallFailed(error: string)

  /** The value the caller sees; None when it is not a string and `.trim()` throws. */
  function AnswerString(a: Answer): Option<string> {
    match a
    case Reply(t) => Some(t)
    case NotText => None
    case CallFailed(e) => Some("\U{274C} Error calling Ollama model: " + e + ", docker container \"ollama\" restarted.")
  }

  /** `answer.trim().includes('Yes')`. */
  predicate SaysYes(answer: string) {
    Contains(Trim(answer), "Yes")
  }

  /** The answer is text that says "Yes". */
  predicate AnswersYes(a: Answer) {
    AnswerString(a).Some? && SaysYes(AnswerString(a).value)
  }

  datatype Outcome =
    | Suppressed            // inside the cooldown: no confirmation, nothing sent
    | AllClear              // both answers said something other than "Yes"
    | Notify(scope: string) // a notification naming the metric(s)
    | Aborted               // an answer was not text and the evaluation threw

  const ScopeBoth := "Temperature & Humidity"
  const ScopeTemperature := "Temperature"
  const ScopeHumidity := "Humidity"

  /**
   * The decision part of `sendTemperatureAlert`: stamp the cooldown clock and
   * pick the scope when an answer says "Yes". The conditions are evaluated in
   * the code's order, so a throwing `.trim()` can come after the stamp.
   */
  function Confirm(lastAlert: AlertTimes, key: string, answeredAt: int, tempAnswer: Answer, humAnswer: Answer): (r: (AlertTimes, Outcome))
    ensures r.0 == lastAlert || r.0 == lastAlert[key := answeredAt]
    ensures r.0 != lastAlert ==> AnswersYes(tempAnswer) || AnswersYes(humAnswer)
    ensures r.1.Notify? ==> r.0 == lastAlert[key := answeredAt]
    ensures !r.1.Suppressed?
  {
    if AnswerString(tempAnswer).None? then (lastAlert, Aborted)
    else if AnswersYes(tempAnswer) then
      var stamped := lastAlert[key := answeredAt];
      if AnswerString(humAnswer).None? then (stamped, Aborted)
      else if AnswersYes(humAnswer) then (stamped, Notify(ScopeBoth))
      else (stamped, Notify(ScopeTemperature))
    else if AnswerString(humAnswer).None? then (lastAlert, Aborted)
    else if AnswersYes(humAnswer) then (lastAlert[key := answeredAt], Notify(ScopeHumidity))
    else (lastAlert, AllClear)
  }

  datatype Evaluation = Evaluation(lastAlert: AlertTimes, status: Classification, isCritical: bool, outcome: Outcome)

  /**
   * `processTemperatureReading` followed by the decision part of
   * `sendTemperatureAlert`. `now` is the clock at the cooldown check,
   * `answeredAt` the clock after both confirmation calls returned.
   */
  function ProcessTemperatureReading(
    lastAlert: AlertTimes, info: DeviceInfo, now: int, answeredAt: int,
    cooldownMinutes: Num, criticalTemperature: Num, tempAnswer: Answer, humAnswer: Answer): (e: Evaluation)
    ensures e.status == GetTemperatureStatus(TemperatureRanges, info.temperature)
    ensures e.isCritical <==> Greater(info.temperature, criticalTemperature)
    ensures e.outcome.Suppressed? <==> !ShouldGenerateAlert(lastAlert, info.location, now, cooldownMinutes)
    ensures e.lastAlert == lastAlert || e.lastAlert == lastAlert[AlertKey(info.location) := answeredAt]
    ensures e.lastAlert != lastAlert ==> AnswersYes(tempAnswer) || AnswersYes(humAnswer)
    ensures e.outcome.Notify? ==> e.lastAlert == lastAlert[AlertKey(info.location) := answeredAt]
  {
    var status := GetTemperatureStatus(TemperatureRanges, info.temperature);
    var isCritical := Greater(info.temperature, criticalTemperature);
    if ShouldGenerateAlert(lastAlert, info.location, now, cooldownMinutes) then
      var (times, outcome) := Confirm(lastAlert, AlertKey(info.location), answeredAt, tempAnswer, humAnswer);
      Evaluation(times, status, isCritical, outcome)
    else Evaluation(lastAlert, status, isCritical, Suppressed)
  }

  /**
   * The stamp is written exactly when the cooldown lets the evaluation
   * through and an answer says "Yes" (the humidity answer is only read when
   * the temperature answer is text).
   */
  lemma StampOnlyOnYes(
    lastAlert: AlertTimes, info: DeviceInfo, now: int, answeredAt: int,
    cooldown: Num, critical: Num, tempAnswer: Answer, humAnswer: Answer)
    ensures var e := ProcessTemperatureReading(lastAlert, info, now, answeredAt, cooldown, critical, tempAnswer, humAnswer);
      var t := AnswerString(tempAnswer);
      var h := AnswerString(humAnswer);
      var yes := t.Some? && (SaysYes(t.value) || (h.Some? && SaysYes(h.value)));
      && (ShouldGenerateAlert(lastAlert, info.location, now, cooldown) && yes ==> e.lastAlert == lastAlert[AlertKey(info.location) := answeredAt])
      && (!(ShouldGenerateAlert(lastAlert, info.location, now, cooldown) && yes) ==> e.lastAlert == lastAlert)
  {
    if ShouldGenerateAlert(lastAlert, info.location, now, cooldown) {
      PassedCooldownConfirms(lastAlert, info, now, answeredAt, cooldown, critical, tempAnswer, humAnswer);
    }
  }

  /** The notification scope as a function of the two answers, when both are text. */
  lemma AlertScope(
    lastAlert: AlertTimes, info: DeviceInfo, now: int, answeredAt: int,
    cooldown: Num, critical: Num, tempText: string, humText: string)
    requires ShouldGenerateAlert(lastAlert, info.location, now, cooldown)
    ensures var e := ProcessTemperatureReading(lastAlert, info, now, answeredAt, cooldown, critical, Reply(tempText), Reply(humText));
      && (SaysYes(tempText) && SaysYes(humText) ==> e.outcome == Notify("Temperature & Humidity"))
      && (SaysYes(tempText) && !SaysYes(humText) ==> e.outcome == Notify("Temperature"))
      && (!SaysYes(tempText) && SaysYes(humText) ==> e.outcome == Notify("Humidity"))
      && (!SaysYes(tempText) && !SaysYes(humText) ==> e.outcome == AllClear && e.lastAlert == lastAlert)
  {
    PassedCooldownConfirms(lastAlert, info, now, answeredAt, cooldown, critical, Reply(tempText), Reply(humText));
  }

  /** Once past the cooldown, the map and the outcome are those of the confirmation step. */
  lemma PassedCooldownConfirms(
    lastAlert: AlertTimes, info: DeviceInfo, now: int, answeredAt: int,
    cooldown: Num, critical: Num, tempAnswer: Answer, humAnswer: Answer)
    requires ShouldGenerateAlert(lastAlert, info.location, now, cooldown)
    ensures var e := ProcessTemperatureReading(lastAlert, info, now, answeredAt, cooldown, critical, tempAnswer, humAnswer);
      (e.lastAlert, e.outcome) == Confirm(lastAlert, AlertKey(info.location), answeredAt, tempAnswer, humAnswer)
  {
  }

  /**
   * A temperature "Yes" with a humidity answer that is not text: the stamp is
   * written and then the evaluation throws, so no notification goes out but
   * the location is still in cooldown.
   */
  lemma StampWithoutNotification(
    lastAlert: AlertTimes, info: DeviceInfo, now: int, answeredAt: int, cooldown: Num, critical: Num)
    requires ShouldGenerateAlert(lastAlert, info.location, now, cooldown)
    ensures var e := ProcessTemperatureReading(lastAlert, info, now, answeredAt, cooldown, critical, Reply("Yes"), NotText);
      e.outcome == Aborted && AlertKey(info.location) in e.lastAlert && e.lastAlert[AlertKey(info.location)] == answeredAt
  {
    PlainYesSaysYes();
  }

  lemma PlainYesSaysYes()
    ensures AnswersYes(Reply("Yes"))
  {
    assert LeadingSpaces("Yes") == 0;
    assert TrailingStart("Yes") == 3;
    assert Trim("Yes") == "Yes";
    assert StartsWith("Yes", "Yes");
  }

  /** The critical threshold is reported but never gates the decision. */
  lemma CriticalDoesNotGate(
    lastAlert: AlertTimes, info: DeviceInfo, now: int, answeredAt: int,
    cooldown: Num, critical1: Num, critical2: Num, tempAnswer: Answer, humAnswer: Answer)
    ensures var e1 := ProcessTemperatureReading(lastAlert, info, now, answeredAt, cooldown, critical1, tempAnswer, humAnswer);
      var e2 := ProcessTemperatureReading(lastAlert, info, now, answeredAt, cooldown, critical2, tempAnswer, humAnswer);
      e1.lastAlert == e2.lastAlert && e1.outcome == e2.outcome
  {
  }

  lemma {:induction false} NoCharNoContains(s: string, sub: string, c: char)
    requires c in sub && c !in s
    ensures !Contains(s, sub)
    decreases |s|
  {
    if |sub| <= |s| {
      var k :| 0 <= k < |sub| && sub[k] == c;
      assert s[k] in s;
      assert s[..|sub|][k] != sub[k];
    }
    if s != [] {
      assert forall x :: x in s[1..] ==> x in s;
      NoCharNoContains(s[1..], sub, c);
    }
  }

  /**
   * A failed confirmation call is not "fail open": when both calls fail with
   * messages that contain no "Y", nothing is stamped and nothing is sent,
   * however hot the reading.
   */
  lemma FailedConfirmationsSendNothing(
    lastAlert: AlertTimes, info: DeviceInfo, now: int, answeredAt: int,
    cooldown: Num, critical: Num, err1: string, err2: string)
    requires 'Y' !in err1 && 'Y' !in err2
    requires ShouldGenerateAlert(lastAlert, info.location, now, cooldown)
    ensures var e := ProcessTemperatureReading(lastAlert, info, now, answeredAt, cooldown, critical, CallFailed(err1), CallFailed(err2));
      e.outcome == AllClear && e.lastAlert == lastAlert
  {
    FailureTextSaysNo(err1);
    FailureTextSaysNo(err2);
  }

  lemma FailureTextSaysNo(err: string)
    requires 'Y' !in err
    ensures !SaysYes(AnswerString(CallFailed(err)).value)
  {
    var pre := "\U{274C} Error calling Ollama model: ";
    var post := ", docker container \"ollama\" restarted.";
    var s := AnswerString(CallFailed(err)).value;
    assert s == pre + err + post;
    assert 'Y' !in pre && 'Y' !in post;
    TrimKeepsOut(s, 'Y');
    NoCharNoContains(Trim(s), "Yes", 'Y');
  }

  /** `trim` adds no character: what is not in `s` is not in its trimmed form. */
  lemma TrimKeepsOut(s: string, c: char)
    requires c !in s
    ensures c !in Trim(s)
  {
    TrimSlice(s);
    var t := Trim(s);
    forall k | 0 <= k < |t|
      ensures t[k] != c
    {
      assert t[k] == s[LeadingSpaces(s) + k];
    }
  }

  // ---------------------------------------------------------------------------
  // Message handling

  datatype Handling = Dropped | ExtractionThrew | NoReadingFound | Evaluated(e: Evaluation)

  /**
   * The payload of an MQTT message: its JSON decoding, or, when it is not
   * JSON, `{temperature: parseFloat(text)}` if that is a number; None drops
   * the message.
   */
  function MessagePayload(message: string, decoded: Option<JsValue>): (p: Option<JsValue>)
    ensures decoded.Some? ==> p == decoded
    ensures decoded.None? ==> (p.None? <==> ParseFloatText(message).NaN?)
  {
    match decoded
    case Some(v) => Some(v)
    case None =>
      var n := ParseFloatText(message);
      if n.NaN? then None else Some(JObj(map["temperature" := JNum(n)]))
  }

  /**
   * `handleMQTTMessage` after the health check: decode, extract, and evaluate.
   * Every reading that survives extraction is evaluated (its numeric fields
   * come from `parseFloat` and are never null).
   */
  function HandleMqttMessage(
    lastAlert: AlertTimes, topic: string, message: string, decoded: Option<JsValue>,
    now: int, answeredAt: int, cooldown: Num, critical: Num, tempAnswer: Answer, humAnswer: Answer): (r: (AlertTimes, Handling))
    ensures !r.1.Evaluated? ==> r.0 == lastAlert
    ensures r.1.Evaluated? ==> r.0 == r.1.e.lastAlert
    ensures r.1.Dropped? <==> MessagePayload(message, decoded).None?
    ensures r.1.ExtractionThrew? <==>
      MessagePayload(message, decoded).Some? && ExtractDeviceInfo(topic, MessagePayload(message, decoded).value).Threw?
    ensures MessagePayload(message, decoded).Some? ==>
      (r.1.Evaluated? <==> ExtractDeviceInfo(topic, MessagePayload(message, decoded).value).Extracted?)
    ensures r.1.Evaluated? ==>
      r.1.e == ProcessTemperatureReading(
        lastAlert, ExtractDeviceInfo(topic, MessagePayload(message, decoded).value).info,
        now, answeredAt, cooldown, critical, tempAnswer, humAnswer)
  {
    match MessagePayload(message, decoded)
    case None => (lastAlert, Dropped)
    case Some(payload) =>
      match ExtractDeviceInfo(topic, payload)
      case Threw => (lastAlert, ExtractionThrew)
      case NoReading => (lastAlert, NoReadingFound)
      case Extracted(info) =>
        var e := ProcessTemperatureReading(lastAlert, info, now, answeredAt, cooldown, critical, tempAnswer, humAnswer);
        (e.lastAlert, Evaluated(e))
  }

  /**
   * Over a whole message, the cooldown stamp of the reading's location is
   * written exactly when a reading is extracted, the cooldown lets it
   * through and an answer says "Yes"; every other message leaves the stamps
   * as they were.
   */
  lemma HandlerStampsOnlyOnYes(
    lastAlert: AlertTimes, topic: string, message: string, decoded: Option<JsValue>,
    now: int, answeredAt: int, cooldown: Num, critical: Num, tempAnswer: Answer, humAnswer: Answer)
    ensures var r := HandleMqttMessage(lastAlert, topic, message, decoded, now, answeredAt, cooldown, critical, tempAnswer, humAnswer);
      var p := MessagePayload(message, decoded);
      var x := if p.Some? then ExtractDeviceInfo(topic, p.value) else Threw;
      var t := AnswerString(tempAnswer);
      var h := AnswerString(humAnswer);
      var yes := t.Some? && (SaysYes(t.value) || (h.Some? && SaysYes(h.value)));
      && (x.Extracted? && ShouldGenerateAlert(lastAlert, x.info.location, now, cooldown) && yes ==>
            r.0 == lastAlert[AlertKey(x.info.location) := answeredAt])
      && (!(x.Extracted? && ShouldGenerateAlert(lastAlert, x.info.location, now, cooldown) && yes) ==>
            r.0 == lastAlert)
  {
    var r := HandleMqttMessage(lastAlert, topic, message, decoded, now, answeredAt, cooldown, critical, tempAnswer, humAnswer);
    var p := MessagePayload(message, decoded);
    if p.Some? && ExtractDeviceInfo(topic, p.value).Extracted? {
      var info := ExtractDeviceInfo(topic, p.value).info;
      assert r.1.Evaluated?;
      StampOnlyOnYes(lastAlert, info, now, answeredAt, cooldown, critical, tempAnswer, humAnswer);
    } else {
      assert !r.1.Evaluated?;
    }
  }

  /**
   * A message that is neither JSON nor starts with a number is dropped before
   * extraction, and touches no alert state.
   */
  lemma NonNumericTextIsDropped(
    lastAlert: AlertTimes, topic: string, message: string,
    now: int, answeredAt: int, cooldown: Num, critical: Num, tempAnswer: Answer, humAnswer: Answer)
    requires ParseFloatText(message).NaN?
    ensures HandleMqttMessage(lastAlert, topic, message, None, now, answeredAt, cooldown, critical, tempAnswer, humAnswer)
      == (lastAlert, Dropped)
  {
  }

  /**
   * A numeric reading with a unit after it (`23C`) is not JSON, so it takes
   * the `parseFloat` fallback and becomes a temperature reading for the
   * device; a `0` has a falsy temperature and yields no reading.
   */
  lemma NumberWithUnitIsTemperature(
    lastAlert: AlertTimes, rest: string, n: nat, unit: string,
    now: int, answeredAt: int, cooldown: Num, critical: Num, tempAnswer: Answer, humAnswer: Answer)
    requires unit != [] && EndsNumber(unit[0]) && !IsSpace(unit[0]) && unit[0] != 'e' && unit[0] != 'E'
    ensures var r := HandleMqttMessage(lastAlert, ZigbeePrefix + rest, NatText(n) + unit, None, now, answeredAt, cooldown, critical, tempAnswer, humAnswer);
      && (n != 0 ==> r.1.Evaluated? && r.1.e.status == GetTemperatureStatus(TemperatureRanges, Finite(n as real)))
      && (n == 0 ==> r == (lastAlert, NoReadingFound))
  {
    var topic := ZigbeePrefix + rest;
    var message := NatText(n) + unit;
    var payload := JObj(map["temperature" := JNum(Finite(n as real))]);
    NumberMessagePayload(n, unit);
    assert MessagePayload(message, None) == Some(payload);
    if n != 0 {
      NumericTemperatureIsRead(topic, payload.props, n as real);
      var info := ExtractDeviceInfo(topic, payload).info;
      var e := ProcessTemperatureReading(lastAlert, info, now, answeredAt, cooldown, critical, tempAnswer, humAnswer);
      assert HandleMqttMessage(lastAlert, topic, message, None, now, answeredAt, cooldown, critical, tempAnswer, humAnswer)
        == (e.lastAlert, Evaluated(e));
    } else {
      ZeroPayloadHasNoReading(topic);
      assert HandleMqttMessage(lastAlert, topic, message, None, now, answeredAt, cooldown, critical, tempAnswer, humAnswer)
        == (lastAlert, NoReadingFound);
    }
  }

  lemma NumberMessagePayload(n: nat, unit: string)
    requires unit != [] ==> EndsNumber(unit[0])
    ensures MessagePayload(NatText(n) + unit, None) == Some(JObj(map["temperature" := JNum(Finite(n as real))]))
  {
    ParseFloatOfNatText(n, unit);
  }

  /**
   * A bare number is valid JSON: it decodes to a number, which has no
   * `temperature`, `temp`, `value` or `humidity` field, so the message yields
   * no reading and touches no alert state.
   */
  lemma BareNumberHasNoReading(
    lastAlert: AlertTimes, topic: string, message: string, x: Num,
    now: int, answeredAt: int, cooldown: Num, critical: Num, tempAnswer: Answer, humAnswer: Answer)
    ensures HandleMqttMessage(lastAlert, topic, message, Some(JNum(x)), now, answeredAt, cooldown, critical, tempAnswer, humAnswer)
      == (lastAlert, NoReadingFound)
  {
    var p := JNum(x);
    assert Field(p, "temperature") == JUndefined && Field(p, "temp") == JUndefined;
    assert Field(p, "value") == JUndefined && Field(p, "humidity") == JUndefined;
    assert TemperatureCandidate(p) == JNull;
    assert HumidityCandidate(p) == JNull;
  }

  lemma ZeroPayloadHasNoReading(topic: string)
    ensures ExtractDeviceInfo(topic, JObj(map["temperature" := JNum(Finite(0.0))])) == NoReading
  {
    var p := JObj(map["temperature" := JNum(Finite(0.0))]);
    assert Field(p, "temp") == JUndefined && Field(p, "value") == JUndefined && Field(p, "humidity") == JUndefined;
    assert TemperatureCandidate(p) == JNull;
    assert HumidityCandidate(p) == JNull;
  }
}
