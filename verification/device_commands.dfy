/**
 * The device tools of the chat assistant: switching a plug on or off,
 * pressing a button, and formatting a device's state as chat text. Each
 * tool looks the device up in the bridge's device list, probes its current
 * state, and publishes a command only when the reported mode and state call
 * for one.
 */
module DeviceCommands {
  import opened Text
  import opened Values
  import DeviceRegistry
  import Correlation

  /** What awaiting the state probe gives: the reported state, or the rejection's message. */
  datatype Probe = Answered(state: JsValue) | ProbeFailed(message: string)

  /** The awaited probe of an exchange that has settled. */
  function ProbeOf(s: Correlation.Settlement): (p: Probe)
    requires !s.Pending?
    ensures s.Resolved? ==> p == Answered(s.value)
    ensures s.Rejected? ==> p == ProbeFailed(s.failure.text)
  {
    match s
    case Resolved(v) => Answered(v)
    case Rejected(f) => ProbeFailed(f.text)
  }

  datatype Command = SwitchOnPlug | SwitchOffPlug | ClickButton

  /**
   * The reply text, whether the state probe was started, and the command
   * published, if any.
   */
  datatype CommandOutcome = CommandOutcome(reply: string, probed: bool, sent: Option<Correlation.Action>)

  const NotFound := "Device not found!"
  const Unsupported := "Unsupported Device Type."
  const FailedReply := "Failed"

  /** The mode a device must report for the command to apply. */
  function RequiredMode(cmd: Command): string {
    match cmd
    case SwitchOnPlug => "switch"
    case SwitchOffPlug => "switch"
    case ClickButton => "click"
  }

  /** Whether the reported `state` calls for a command (strict equality with the text). */
  predicate Acts(cmd: Command, state: JsValue) {
    match cmd
    case SwitchOnPlug => state == JStr("OFF")
    case SwitchOffPlug => state == JStr("ON")
    case ClickButton => true
  }

  /** A button press sends the opposite of the reported state, and `ON` unless it reads exactly `ON`. */
  function ClickTarget(state: JsValue): string {
    if state == JStr("ON") then "OFF" else "ON"
  }

  function StatePayload(value: string): string {
    "{ \"state\": \"" + value + "\" }"
  }

  function Payload(cmd: Command, state: JsValue): string {
    match cmd
    case SwitchOnPlug => StatePayload("ON")
    case SwitchOffPlug => StatePayload("OFF")
    case ClickButton => StatePayload(ClickTarget(state))
  }

  function DoneReply(cmd: Command): string {
    match cmd
    case SwitchOnPlug => "Switched On"
    case SwitchOffPlug => "Switched Off"
    case ClickButton => "Pressed"
  }

  /** The reply when the state makes the command unnecessary (a button always acts). */
  function AlreadyReply(cmd: Command): string {
    match cmd
    case SwitchOnPlug => "Already On"
    case SwitchOffPlug => "Already Off"
    case ClickButton => ""
  }

  /** Every reply a command can give. */
  predicate IsReply(cmd: Command, reply: string) {
    reply in {NotFound, Unsupported, FailedReply, DoneReply(cmd)}
    || (cmd != ClickButton && reply == AlreadyReply(cmd))
  }

  /** `devices.filter(dev => dev.friendly_name === deviceName)`. */
  function Named(devices: seq<DeviceRegistry.Device>, name: string): (r: seq<DeviceRegistry.Device>)
    ensures forall d :: d in r <==> d in devices && d.desc.friendlyName == name
  {
    DeviceRegistry.Filter(devices, (d: DeviceRegistry.Device) => d.desc.friendlyName == name)
  }

  /** `` `${states.mode || 'unknown'}` ``; None when `states` is null or undefined and the access throws. */
  function ModeText(states: JsValue): (m: Option<string>)
    ensures m.None? <==> states.JNull? || states.JUndefined?
  {
    match Prop(states, "mode")
    case None => None
    case Some(mode) => Some(Show(OrChain([mode], JStr("unknown"))))
  }

  /**
   * `switchOnPlug`, `switchOffPlug` and `clickButton`. `devices` is the
   * bridge's device list (None when it could not be fetched), `probe` the
   * awaited state probe, `published` the truthiness of what the publish call
   * returns. Every exception inside the tool turns into "Device not found!".
   */
  function Operate(
    cmd: Command, devices: Option<seq<DeviceRegistry.Device>>, name: string, probe: Probe, published: bool): (r: CommandOutcome)
    ensures IsReply(cmd, r.reply)
    ensures !r.probed ==> devices.None? && r.reply == NotFound
    ensures r.reply == FailedReply <==> r.sent.Some? && !published
    ensures r.sent.Some? ==> r.probed && (r.reply == DoneReply(cmd) || r.reply == FailedReply)
    ensures r.sent.Some? ==> r.sent.value.Publish? && r.sent.value.retain == Some(false)
  {
    if devices.None? then CommandOutcome(NotFound, false, None)
    else
      match probe
      case ProbeFailed(_) => CommandOutcome(NotFound, true, None)
      case Answered(states) =>
        match ModeText(states)
        case None => CommandOutcome(NotFound, true, None)
        case Some(mode) =>
          if mode != RequiredMode(cmd) then CommandOutcome(Unsupported, true, None)
          else
            var state := Prop(states, "state").value;
            if !Acts(cmd, state) then CommandOutcome(AlreadyReply(cmd), true, None)
            else
              var matching := Named(devices.value, name);
              if matching == [] then CommandOutcome(NotFound, true, None)
              else
                var reply := if published then DoneReply(cmd) else FailedReply;
                CommandOutcome(reply, true, Some(Correlation.PublishCommand(matching[0].desc.ieeeAddress, Payload(cmd, state))))
  }

  /** A probe that answers with a `mode` and a `state` field. */
  predicate Reports(probe: Probe, mode: string, state: JsValue) {
    && probe.Answered?
    && ModeText(probe.state) == Some(mode)
    && Prop(probe.state, "state") == Some(state)
  }

  /**
   * A command goes out exactly when the list was fetched, the device reports
   * the command's mode and a state that calls for it, and the list has a
   * device by that name; it goes to the first such device's `set` topic.
   */
  lemma CommandSentExactly(
    cmd: Command, devices: Option<seq<DeviceRegistry.Device>>, name: string, probe: Probe, published: bool)
    ensures var r := Operate(cmd, devices, name, probe, published);
      r.sent.Some? <==>
        && devices.Some?
        && probe.Answered?
        && ModeText(probe.state) == Some(RequiredMode(cmd))
        && Acts(cmd, Prop(probe.state, "state").value)
        && Named(devices.value, name) != []
    ensures var r := Operate(cmd, devices, name, probe, published);
      r.sent.Some? ==>
        var first := Named(devices.value, name)[0];
        && first in devices.value && first.desc.friendlyName == name
        && r.sent.value == Correlation.PublishCommand(first.desc.ieeeAddress, Payload(cmd, Prop(probe.state, "state").value))
  {
    if devices.Some? && probe.Answered? && ModeText(probe.state).Some? {
      var matching := Named(devices.value, name);
      if matching != [] {
        assert matching[0] in matching;
      }
    }
  }

  /** Switching on sends `ON` only to a switch that reports exactly `OFF`. */
  lemma SwitchOnOnlyWhenOff(devices: Option<seq<DeviceRegistry.Device>>, name: string, probe: Probe, published: bool)
    requires Operate(SwitchOnPlug, devices, name, probe, published).sent.Some?
    ensures Reports(probe, "switch", JStr("OFF"))
    ensures Operate(SwitchOnPlug, devices, name, probe, published).sent.value.payload == "{ \"state\": \"ON\" }"
  {
    CommandSentExactly(SwitchOnPlug, devices, name, probe, published);
  }

  /** Switching off sends `OFF` only to a switch that reports exactly `ON`. */
  lemma SwitchOffOnlyWhenOn(devices: Option<seq<DeviceRegistry.Device>>, name: string, probe: Probe, published: bool)
    requires Operate(SwitchOffPlug, devices, name, probe, published).sent.Some?
    ensures Reports(probe, "switch", JStr("ON"))
    ensures Operate(SwitchOffPlug, devices, name, probe, published).sent.value.payload == "{ \"state\": \"OFF\" }"
  {
    CommandSentExactly(SwitchOffPlug, devices, name, probe, published);
  }

  /** A switch whose state is anything but `OFF` (including no state at all) is "Already On". */
  lemma AlreadyOnSendsNothing(devices: seq<DeviceRegistry.Device>, name: string, fields: map<string, JsValue>, published: bool)
    requires "mode" in fields && fields["mode"] == JStr("switch")
    requires "state" !in fields || fields["state"] != JStr("OFF")
    ensures Operate(SwitchOnPlug, Some(devices), name, Answered(JObj(fields)), published) == CommandOutcome("Already On", true, None)
  {
  }

  /** A button press toggles: `OFF` when the button reports `ON`, otherwise `ON`. */
  lemma ClickToggles(devices: Option<seq<DeviceRegistry.Device>>, name: string, probe: Probe, published: bool)
    requires Operate(ClickButton, devices, name, probe, published).sent.Some?
    ensures probe.Answered? && ModeText(probe.state) == Some("click")
    ensures var payload := Operate(ClickButton, devices, name, probe, published).sent.value.payload;
      && (Prop(probe.state, "state") == Some(JStr("ON")) ==> payload == "{ \"state\": \"OFF\" }")
      && (Prop(probe.state, "state") != Some(JStr("ON")) ==> payload == "{ \"state\": \"ON\" }")
  {
    CommandSentExactly(ClickButton, devices, name, probe, published);
  }

  /**
   * The device list is not consulted before probing: a name missing from the
   * list is still probed, and only the missing first match stops the command.
   */
  lemma UnlistedNameIsStillProbed(cmd: Command, devices: seq<DeviceRegistry.Device>, name: string, probe: Probe, published: bool)
    requires forall d :: d in devices ==> d.desc.friendlyName != name
    ensures Operate(cmd, Some(devices), name, probe, published).probed
    ensures Operate(cmd, Some(devices), name, probe, published).sent.None?
  {
    CommandSentExactly(cmd, Some(devices), name, probe, published);
  }

  /** A device that reports no mode is not a switch: its mode reads as "unknown". */
  lemma MissingModeIsUnsupported(cmd: Command, devices: seq<DeviceRegistry.Device>, name: string, fields: map<string, JsValue>, published: bool)
    requires "mode" !in fields
    ensures Operate(cmd, Some(devices), name, Answered(JObj(fields)), published).reply == Unsupported
  {
  }

  // ---------------------------------------------------------------------------
  // The state report

  /**
   * The unit texts hold the characters the source file holds: the UTF-8 bytes
   * of a degree sign read a second time as Latin-1, so `Â°C` and `Â°F`.
   */
  const Celsius := "\U{00C2}\U{00B0}C"
  const Fahrenheit := "\U{00C2}\U{00B0}F"

  /** The unit printed after the temperature. */
  function TemperatureUnit(state: JsValue): (u: string)
    requires !state.JNull? && !state.JUndefined?
    ensures u == Fahrenheit || u == Celsius
    ensures u == Fahrenheit <==> Truthy(Prop(state, "temperature_units").value) && Prop(state, "temperature_units").value != JStr("celsius")
  {
    var units := Prop(state, "temperature_units").value;
    if Truthy(units) then (if units == JStr("celsius") then Celsius else Fahrenheit) else Celsius
  }

  /** A line for a field, present only when the field is truthy. */
  function LineIf(v: JsValue, line: string): seq<string> {
    if Truthy(v) then [line] else []
  }

  /** `state[key]` on a state known not to be null or undefined. */
  function FieldOf(st: JsValue, key: string): JsValue
    requires !st.JNull? && !st.JUndefined?
  {
    Prop(st, key).value
  }

  /** The field lines of `getDeviceState`, in the order the tool writes them. */
  function FieldLines(st: JsValue): seq<string>
    requires !st.JNull? && !st.JUndefined?
  {
    LineIf(FieldOf(st, "temperature"), "Temperature: " + Show(FieldOf(st, "temperature")) + " " + TemperatureUnit(st))
    + LineIf(FieldOf(st, "humidity"), "Humidity: " + Show(FieldOf(st, "humidity")) + "%")
    + LineIf(FieldOf(st, "battery"), "Battery: " + Show(FieldOf(st, "battery")) + "%")
    + LineIf(FieldOf(st, "state"), "State: " + Show(FieldOf(st, "state")))
    + LineIf(FieldOf(st, "reverse"), "Reverse: " + Show(FieldOf(st, "reverse")))
    + LineIf(FieldOf(st, "touch"), "Touch: " + Show(FieldOf(st, "touch")))
    + LineIf(FieldOf(st, "mode"), "Touch: " + Show(FieldOf(st, "mode")))
  }

  /** One row of the report table: the field, the caption before its value, and the text after it. */
  datatype ReportRow = ReportRow(field: string, caption: string, after: string)

  /** The report as a table. The `mode` field is printed under the label "Touch". */
  function ReportTable(st: JsValue): seq<ReportRow>
    requires !st.JNull? && !st.JUndefined?
  {
    [ ReportRow("temperature", "Temperature: ", " " + TemperatureUnit(st)),
      ReportRow("humidity", "Humidity: ", "%"),
      ReportRow("battery", "Battery: ", "%"),
      ReportRow("state", "State: ", ""),
      ReportRow("reverse", "Reverse: ", ""),
      ReportRow("touch", "Touch: ", ""),
      ReportRow("mode", "Touch: ", "") ]
  }

  /** The line a row contributes: none when its field is falsy. */
  function RowLine(st: JsValue, row: ReportRow): seq<string>
    requires !st.JNull? && !st.JUndefined?
  {
    var v := FieldOf(st, row.field);
    LineIf(v, row.caption + Show(v) + row.after)
  }

  /** The table read row by row: one line per truthy field, in table order. */
  function TableLines(st: JsValue, rows: seq<ReportRow>): (lines: seq<string>)
    requires !st.JNull? && !st.JUndefined?
    ensures |lines| <= |rows|
  {
    if rows == [] then [] else TableLines(st, rows[..|rows| - 1]) + RowLine(st, rows[|rows| - 1])
  }

  /** How many of the table's fields are truthy. */
  function TruthyRows(st: JsValue, rows: seq<ReportRow>): nat
    requires !st.JNull? && !st.JUndefined?
  {
    if rows == [] then 0
    else TruthyRows(st, rows[..|rows| - 1]) + (if Truthy(FieldOf(st, rows[|rows| - 1].field)) then 1 else 0)
  }

  lemma {:induction false} TableLinesCount(st: JsValue, rows: seq<ReportRow>)
    requires !st.JNull? && !st.JUndefined?
    ensures |TableLines(st, rows)| == TruthyRows(st, rows)
  {
    if rows != [] {
      TableLinesCount(st, rows[..|rows| - 1]);
    }
  }

  /** Each row of the table yields the line the tool writes for that field. */
  lemma RowLinesMatch(st: JsValue)
    requires !st.JNull? && !st.JUndefined?
    ensures var rows := ReportTable(st);
      && RowLine(st, rows[0]) == LineIf(FieldOf(st, "temperature"), "Temperature: " + Show(FieldOf(st, "temperature")) + " " + TemperatureUnit(st))
      && RowLine(st, rows[1]) == LineIf(FieldOf(st, "humidity"), "Humidity: " + Show(FieldOf(st, "humidity")) + "%")
      && RowLine(st, rows[2]) == LineIf(FieldOf(st, "battery"), "Battery: " + Show(FieldOf(st, "battery")) + "%")
      && RowLine(st, rows[3]) == LineIf(FieldOf(st, "state"), "State: " + Show(FieldOf(st, "state")))
      && RowLine(st, rows[4]) == LineIf(FieldOf(st, "reverse"), "Reverse: " + Show(FieldOf(st, "reverse")))
      && RowLine(st, rows[5]) == LineIf(FieldOf(st, "touch"), "Touch: " + Show(FieldOf(st, "touch")))
      && RowLine(st, rows[6]) == LineIf(FieldOf(st, "mode"), "Touch: " + Show(FieldOf(st, "mode")))
  {
    var t := FieldOf(st, "temperature");
    assert "Temperature: " + Show(t) + (" " + TemperatureUnit(st)) == "Temperature: " + Show(t) + " " + TemperatureUnit(st);
    assert "State: " + Show(FieldOf(st, "state")) + "" == "State: " + Show(FieldOf(st, "state"));
    assert "Reverse: " + Show(FieldOf(st, "reverse")) + "" == "Reverse: " + Show(FieldOf(st, "reverse"));
    assert "Touch: " + Show(FieldOf(st, "touch")) + "" == "Touch: " + Show(FieldOf(st, "touch"));
    assert "Touch: " + Show(FieldOf(st, "mode")) + "" == "Touch: " + Show(FieldOf(st, "mode"));
  }

  lemma TableOfSeven(st: JsValue, rows: seq<ReportRow>)
    requires !st.JNull? && !st.JUndefined? && |rows| == 7
    ensures TableLines(st, rows) ==
      RowLine(st, rows[0]) + RowLine(st, rows[1]) + RowLine(st, rows[2]) + RowLine(st, rows[3])
      + RowLine(st, rows[4]) + RowLine(st, rows[5]) + RowLine(st, rows[6])
  {
    var front, back := rows[..4], rows[4..];
    assert rows == front + back;
    TableLinesAppend(st, front, back);
    TableOfFour(st, front);
    TableOfThree(st, back);
  }

  lemma TableOfFour(st: JsValue, rows: seq<ReportRow>)
    requires !st.JNull? && !st.JUndefined? && |rows| == 4
    ensures TableLines(st, rows) == RowLine(st, rows[0]) + RowLine(st, rows[1]) + RowLine(st, rows[2]) + RowLine(st, rows[3])
  {
    var t0, t1, t2 := TableLines(st, rows[..1]), TableLines(st, rows[..2]), TableLines(st, rows[..3]);
    assert rows[..1][..0] == [];
    assert rows[..2][..1] == rows[..1];
    assert rows[..3][..2] == rows[..2];
    assert rows[..3] == rows[..|rows| - 1];
    assert t0 == RowLine(st, rows[0]);
  }

  lemma TableOfThree(st: JsValue, rows: seq<ReportRow>)
    requires !st.JNull? && !st.JUndefined? && |rows| == 3
    ensures TableLines(st, rows) == RowLine(st, rows[0]) + RowLine(st, rows[1]) + RowLine(st, rows[2])
  {
    var t0, t1 := TableLines(st, rows[..1]), TableLines(st, rows[..2]);
    assert rows[..1][..0] == [];
    assert rows[..2][..1] == rows[..1];
    assert rows[..2] == rows[..|rows| - 1];
    assert t0 == RowLine(st, rows[0]);
  }

  /** The table's lines of two stretches of rows are the lines of each, one after the other. */
  lemma {:induction false} TableLinesAppend(st: JsValue, a: seq<ReportRow>, b: seq<ReportRow>)
    requires !st.JNull? && !st.JUndefined?
    ensures TableLines(st, a + b) == TableLines(st, a) + TableLines(st, b)
    decreases |b|
  {
    if b == [] {
      assert a + b == a;
    } else {
      var init := b[..|b| - 1];
      assert (a + b)[..|a + b| - 1] == a + init;
      TableLinesAppend(st, a, init);
    }
  }

  /** The hand-written chain of field checks is the report table, read in order. */
  lemma FieldLinesFollowTable(st: JsValue)
    requires !st.JNull? && !st.JUndefined?
    ensures FieldLines(st) == TableLines(st, ReportTable(st))
    ensures |FieldLines(st)| == TruthyRows(st, ReportTable(st))
  {
    var rows := ReportTable(st);
    RowLinesMatch(st);
    TableOfSeven(st, rows);
    TableLinesCount(st, rows);
  }

  /** The lines `getDeviceState` collects. */
  function StateLines(name: string, probe: Probe): (lines: seq<string>)
    ensures probe.ProbeFailed? ==> lines == ["Error getting device state:", probe.message]
    ensures probe.Answered? ==> |lines| >= 1 && lines[0] == name
    ensures probe.Answered? && !Truthy(probe.state) ==> lines == [name]
    ensures probe.Answered? && Truthy(probe.state) ==>
      lines[1..] == TableLines(probe.state, ReportTable(probe.state))
  {
    match probe
    case ProbeFailed(m) => ["Error getting device state:", m]
    case Answered(st) =>
      if Truthy(st) then
        FieldLinesFollowTable(st);
        [name] + FieldLines(st)
      else [name]
  }

  /**
   * A state reply that is not JSON ends the report with the parse error's
   * text after the fixed prefix of the rejection.
   */
  lemma ParseFailureReport(name: string, timeout: int, error: string)
    ensures var x := Correlation.Start(Correlation.StateQuery, name, timeout).0;
      var y := Correlation.Step(x, Correlation.Delivered(Correlation.StateTopic(name), None, error)).0;
      && y.settled.Rejected?
      && StateLines(name, ProbeOf(y.settled)) == ["Error getting device state:", "Failed to parse device state: " + error]
  {
  }

  /**
   * `getDeviceState(deviceName)`: the collected lines joined by newlines. A
   * failed probe gives the caption and the failure's text on two lines; an
   * empty answer gives the name alone.
   */
  function FormatDeviceState(name: string, probe: Probe): (report: string)
    ensures probe.ProbeFailed? ==> report == "Error getting device state:\n" + probe.message
    ensures probe.Answered? && !Truthy(probe.state) ==> report == name
  {
    var lines := StateLines(name, probe);
    assert probe.ProbeFailed? ==> lines[1..] == [probe.message] && Join(lines[1..], "\n") == probe.message;
    Join(lines, "\n")
  }

  /** The first line of the report is the device name, whatever the state holds. */
  lemma ReportStartsWithName(name: string, probe: Probe)
    requires probe.Answered? && '\n' !in name
    ensures Split(FormatDeviceState(name, probe), '\n')[0] == name
  {
    var lines := StateLines(name, probe);
    var rest := lines[1..];
    assert lines == [name] + rest;
    if rest == [] {
      SplitWithoutSeparator(name, '\n');
    } else {
      SplitJoinCons(name, rest, '\n');
    }
  }

  /** When no value contains a newline, splitting the report gives back its lines. */
  lemma ReportLinesRoundTrip(name: string, probe: Probe)
    requires forall i :: 0 <= i < |StateLines(name, probe)| ==> '\n' !in StateLines(name, probe)[i]
    ensures Split(FormatDeviceState(name, probe), '\n') == StateLines(name, probe)
  {
    SplitJoin(StateLines(name, probe), '\n');
  }
}
