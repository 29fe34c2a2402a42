/**
 * The ad-hoc state probe of `ZigbeeDeviceAnalyst`: subscribe to a device's
 * state topic, arm a timer, listen for the next message on that topic and
 * publish a `get` request. The exchange is a state machine driven by
 * events (a delivered message, the timer, the subscribe and publish
 * callbacks); each step reports the client calls it makes.
 */
module Correlation {
  import opened Text
  import opened Values

  const DefaultTimeoutMillis := 5000
  const TopicRoot := "zigbee2mqtt/"

  /** `getDeviceState(name)` or `getDeviceProperty(name, property)`. */
  datatype Query = StateQuery | PropertyQuery(property: string)

  datatype Failure =
    | SubscribeFailed(text: string)
    | TimedOut(text: string)
    | ParseFailed(text: string)
    | PublishFailed(text: string)

  /** The promise the caller awaits. */
  datatype Settlement = Pending | Resolved(value: JsValue) | Rejected(failure: Failure)

  /**
   * One probe: whether its timer is armed, whether its subscription is still
   * held, whether its message listener is still registered, and its promise.
   */
  datatype Exchange = Exchange(
    query: Query,
    name: string,
    timeout: int,
    timerArmed: bool,
    subscribed: bool,
    handlerOn: bool,
    settled: Settlement)

  /** A call on the MQTT client. `retain` is None when no options are passed. */
  datatype Action =
    | Subscribe(topic: string)
    | Unsubscribe(topic: string)
    | Publish(topic: string, payload: string, retain: Option<bool>)

  /**
   * A message body of None is one that is not JSON. `error` is the message of
   * the error the reply's `try` block throws for this body (the parser's
   * complaint, or the failed property read of a `null` state); its wording
   * belongs to the JavaScript engine.
   */
  datatype Event =
    | Delivered(topic: string, body: Option<JsValue>, error: string)
    | TimerFired
    | SubscribeError(message: string)
    | PublishError(message: string)

  function StateTopic(name: string): string {
    TopicRoot + name
  }

  function GetTopic(name: string): string {
    StateTopic(name) + "/get"
  }

  function SetTopic(addr: string): string {
    StateTopic(addr) + "/set"
  }

  // ---------------------------------------------------------------------------
  // JSON string literals (`JSON.stringify` of a string, and its reading)

  function HexDigit(d: nat): (c: char)
    requires d < 16
  {
    if d < 10 then ('0' as int + d) as char else ('a' as int + d - 10) as char
  }

  predicate IsHex(c: char) {
    ('0' <= c <= '9') || ('a' <= c <= 'f') || ('A' <= c <= 'F')
  }

  function HexValue(c: char): nat {
    if '0' <= c <= '9' then c as int - '0' as int
    else if 'a' <= c <= 'f' then c as int - 'a' as int + 10
    else if 'A' <= c <= 'F' then c as int - 'A' as int + 10
    else 0
  }

  lemma HexDigitValue(d: nat)
    requires d < 16
    ensures IsHex(HexDigit(d)) && HexValue(HexDigit(d)) == d
  {
  }

  /** How `JSON.stringify` writes one character inside a string literal. */
  function EscapeChar(c: char): string {
    if c == '"' then "\\\""
    else if c == '\\' then "\\\\"
    else if c == '\U{0008}' then "\\b"
    else if c == '\U{000C}' then "\\f"
    else if c == '\n' then "\\n"
    else if c == '\r' then "\\r"
    else if c == '\t' then "\\t"
    else if c < ' ' then "\\u00" + [HexDigit(c as int / 16), HexDigit(c as int % 16)]
    else [c]
  }

  function Escape(s: string): string {
    if s == [] then "" else EscapeChar(s[0]) + Escape(s[1..])
  }

  /** `JSON.stringify(s)` for a string `s`. */
  function JsonQuote(s: string): (q: string)
    ensures |q| >= 2 && q[0] == '"' && q[|q| - 1] == '"'
  {
    "\"" + Escape(s) + "\""
  }

  function Prepend(c: char, rest: Option<string>): Option<string> {
    match rest
    case None => None
    case Some(s) => Some([c] + s)
  }

  /** The character a one-letter escape stands for. */
  function SimpleEscape(c: char): Option<char> {
    if c == '"' then Some('"')
    else if c == '\\' then Some('\\')
    else if c == '/' then Some('/')
    else if c == 'b' then Some('\U{0008}')
    else if c == 'f' then Some('\U{000C}')
    else if c == 'n' then Some('\n')
    else if c == 'r' then Some('\r')
    else if c == 't' then Some('\t')
    else None
  }

  /** The characters between the quotes of a JSON string literal; None when the text is not one. */
  function Unescape(t: string): Option<string>
    decreases |t|
  {
    if t == [] then Some("")
    else if t[0] == '\\' then
      if |t| < 2 then None
      else if t[1] == 'u' then
        if |t| < 6 || !(IsHex(t[2]) && IsHex(t[3]) && IsHex(t[4]) && IsHex(t[5])) then None
        else
          var v := ((HexValue(t[2]) * 16 + HexValue(t[3])) * 16 + HexValue(t[4])) * 16 + HexValue(t[5]);
          if 0xD800 <= v < 0xE000 then None else Prepend(v as char, Unescape(t[6..]))
      else
        match SimpleEscape(t[1])
        case None => None
        case Some(c) => Prepend(c, Unescape(t[2..]))
    else if t[0] == '"' || t[0] < ' ' then None
    else Prepend(t[0], Unescape(t[1..]))
  }

  /** `JSON.parse` of a string literal. */
  function JsonUnquote(q: string): Option<string> {
    if |q| >= 2 && q[0] == '"' && q[|q| - 1] == '"' then Unescape(q[1..|q| - 1]) else None
  }

  lemma EscapeCharReadsBack(c: char, rest: string)
    ensures Unescape(EscapeChar(c) + rest) == Prepend(c, Unescape(rest))
  {
    var t := EscapeChar(c) + rest;
    if c == '"' || c == '\\' || c == '\U{0008}' || c == '\U{000C}' || c == '\n' || c == '\r' || c == '\t' {
      assert t[2..] == rest;
    } else if c < ' ' {
      var hi := c as int / 16;
      var lo := c as int % 16;
      HexDigitValue(hi);
      HexDigitValue(lo);
      assert t[2] == '0' && t[3] == '0' && t[4] == HexDigit(hi) && t[5] == HexDigit(lo);
      assert t[6..] == rest;
    } else {
      assert t[1..] == rest;
    }
  }

  /** Reading back what `JSON.stringify` wrote gives the original string. */
  lemma {:induction false} UnescapeEscape(s: string)
    ensures Unescape(Escape(s)) == Some(s)
  {
    if s != [] {
      UnescapeEscape(s[1..]);
      EscapeCharReadsBack(s[0], Escape(s[1..]));
      assert [s[0]] + s[1..] == s;
    }
  }

  lemma JsonQuoteRoundTrip(s: string)
    ensures JsonUnquote(JsonQuote(s)) == Some(s)
  {
    var q := JsonQuote(s);
    assert q[1..|q| - 1] == Escape(s);
    UnescapeEscape(s);
  }

  // ---------------------------------------------------------------------------
  // The exchange

  /** The body of the `get` request: `{"state":""}`, or `JSON.stringify({[property]: ""})`. */
  function RequestPayload(q: Query): string {
    match q
    case StateQuery => "{\"state\":\"\"}"
    case PropertyQuery(p) => "{" + JsonQuote(p) + ":\"\"}"
  }

  /** Asking for the `state` property sends the same request as asking for the whole state. */
  lemma StatePropertyRequest()
    ensures RequestPayload(PropertyQuery("state")) == RequestPayload(StateQuery)
  {
    var p := "state";
    PlainChars(p);
    PlainPayload(p);
    var sent := "{\"" + p + "\":\"\"}";
    assert |sent| == 12;
    assert sent[0] == '{' && sent[1] == '"' && sent[7] == '"' && sent[8] == ':';
    assert sent[9] == '"' && sent[10] == '"' && sent[11] == '}';
    assert sent[2..7] == p;
    assert sent == "{\"state\":\"\"}";
  }

  /** The five letters of `state` need no escaping. */
  lemma PlainChars(p: string)
    requires p == "state"
    ensures forall i :: 0 <= i < |p| ==> p[i] >= ' ' && p[i] != '"' && p[i] != '\\'
  {
    assert p[0] == 's' && p[1] == 't' && p[2] == 'a' && p[3] == 't' && p[4] == 'e';
  }

  /** A property name that needs no escaping is sent between plain quotes. */
  lemma PlainPayload(p: string)
    requires forall i :: 0 <= i < |p| ==> p[i] >= ' ' && p[i] != '"' && p[i] != '\\'
    ensures RequestPayload(PropertyQuery(p)) == "{\"" + p + "\":\"\"}"
  {
    EscapePlain(p);
  }

  /** Text without quotes, backslashes or control characters is written unchanged. */
  lemma {:induction false} EscapePlain(s: string)
    requires forall i :: 0 <= i < |s| ==> s[i] >= ' ' && s[i] != '"' && s[i] != '\\'
    ensures Escape(s) == s
  {
    if s != [] {
      EscapePlain(s[1..]);
      assert [s[0]] + s[1..] == s;
    }
  }

  /**
   * The probe's invariant: while the promise is pending the timer, the
   * subscription and the listener are all live; once the listener is gone,
   * so are the others; and the timer never outlives the subscription.
   */
  predicate Coherent(x: Exchange) {
    && (x.settled.Pending? ==> x.timerArmed && x.subscribed && x.handlerOn)
    && (!x.handlerOn ==> !x.timerArmed && !x.subscribed)
    && (!x.subscribed ==> !x.timerArmed)
  }

  /** The calls made when the probe starts: subscribe, then publish the request. */
  function Start(q: Query, name: string, timeout: int): (r: (Exchange, seq<Action>))
    ensures Coherent(r.0) && r.0.settled.Pending?
    ensures r.1 == [Subscribe(StateTopic(name)), Publish(GetTopic(name), RequestPayload(q), None)]
  {
    (Exchange(q, name, timeout, true, true, true, Pending),
     [Subscribe(StateTopic(name)), Publish(GetTopic(name), RequestPayload(q), None)])
  }

  /** A promise settles once; later `resolve`/`reject` calls are ignored. */
  function Settle(current: Settlement, outcome: Settlement): (s: Settlement)
    ensures current.Pending? ==> s == outcome
    ensures !current.Pending? ==> s == current
  {
    if current.Pending? then outcome else current
  }

  /**
   * The outcome of the reply: the whole state, or `state[property] || null`.
   * Reading a property of a `null` state throws inside the same `try` as
   * the parse, and rejects the same way.
   */
  function ReplyOutcome(q: Query, body: Option<JsValue>, error: string): (s: Settlement)
    ensures body.None? ==> s == Rejected(ParseFailed(ParseFailureText(q, error)))
    ensures s.Rejected? ==> s == Rejected(ParseFailed(ParseFailureText(q, error)))
    ensures q.StateQuery? && body.Some? ==> s == Resolved(body.value)
    ensures s.Resolved? && q.PropertyQuery? ==> Truthy(s.value) || s.value == JNull
  {
    match body
    case None => Rejected(ParseFailed(ParseFailureText(q, error)))
    case Some(state) =>
      match q
      case StateQuery => Resolved(state)
      case PropertyQuery(p) =>
        match Prop(state, p)
        case None => Rejected(ParseFailed(ParseFailureText(q, error)))
        case Some(v) => Resolved(if Truthy(v) then v else JNull)
  }

  /** The rejection text of the reply's `catch`, which differs between the two queries. */
  function ParseFailureText(q: Query, error: string): string {
    match q
    case StateQuery => "Failed to parse device state: " + error
    case PropertyQuery(_) => "Failed to parse response: " + error
  }

  function SubscribeFailureText(x: Exchange, message: string): string {
    match x.query
    case StateQuery => "Failed to subscribe to " + StateTopic(x.name) + ": " + message
    case PropertyQuery(_) => "Failed to subscribe: " + message
  }

  function TimeoutText(x: Exchange): string {
    match x.query
    case StateQuery => "Timeout: No response from " + x.name + " within " + IntText(x.timeout) + "ms"
    case PropertyQuery(p) => "Timeout: No response for " + p + " from " + x.name
  }

  function PublishFailureText(x: Exchange, message: string): string {
    match x.query
    case StateQuery => "Failed to publish get request: " + message
    case PropertyQuery(p) => "Failed to request " + p + ": " + message
  }

  /** One event, and the client calls it causes. */
  function Step(x: Exchange, e: Event): (r: (Exchange, seq<Action>))
    ensures r.0.query == x.query && r.0.name == x.name && r.0.timeout == x.timeout
    ensures !x.settled.Pending? ==> r.0.settled == x.settled
    ensures Coherent(x) ==> Coherent(r.0)
    ensures forall a :: a in r.1 ==> a == Unsubscribe(StateTopic(x.name))
  {
    var unsubscribe := [Unsubscribe(StateTopic(x.name))];
    match e
    case Delivered(topic, body, error) =>
      if x.handlerOn && topic == StateTopic(x.name) then
        (x.(timerArmed := false, subscribed := false, handlerOn := false,
            settled := Settle(x.settled, ReplyOutcome(x.query, body, error))), unsubscribe)
      else (x, [])
    case TimerFired =>
      if x.timerArmed then
        (x.(timerArmed := false, subscribed := false,
            settled := Settle(x.settled, Rejected(TimedOut(TimeoutText(x))))), unsubscribe)
      else (x, [])
    case SubscribeError(m) =>
      (x.(settled := Settle(x.settled, Rejected(SubscribeFailed(SubscribeFailureText(x, m))))), [])
    case PublishError(m) =>
      var failed := Settle(x.settled, Rejected(PublishFailed(PublishFailureText(x, m))));
      match x.query
      case StateQuery =>
        (x.(timerArmed := false, subscribed := false, handlerOn := false, settled := failed), unsubscribe)
      case PropertyQuery(_) =>
        (x.(timerArmed := false, settled := failed), [])
  }

  /** A sequence of events, with every client call in order. */
  function Run(x: Exchange, events: seq<Event>): (r: (Exchange, seq<Action>))
    decreases |events|
  {
    if events == [] then (x, [])
    else
      var (y, first) := Step(x, events[0]);
      var (z, rest) := Run(y, events[1..]);
      (z, first + rest)
  }

  /** Once settled, the outcome of a probe never changes, whatever happens afterwards. */
  lemma {:induction false} SettlesOnce(x: Exchange, events: seq<Event>)
    requires !x.settled.Pending?
    ensures Run(x, events).0.settled == x.settled
    decreases |events|
  {
    if events != [] {
      SettlesOnce(Step(x, events[0]).0, events[1..]);
    }
  }

  /** Every reachable state of a probe satisfies the invariant. */
  lemma {:induction false} RunKeepsCoherent(x: Exchange, events: seq<Event>)
    requires Coherent(x)
    ensures Coherent(Run(x, events).0)
    decreases |events|
  {
    if events != [] {
      RunKeepsCoherent(Step(x, events[0]).0, events[1..]);
    }
  }

  /** A probe only ever withdraws its own subscription. */
  lemma {:induction false} RunOnlyUnsubscribesOwnTopic(x: Exchange, events: seq<Event>)
    ensures forall a :: a in Run(x, events).1 ==> a == Unsubscribe(StateTopic(x.name))
    decreases |events|
  {
    if events != [] {
      var (y, first) := Step(x, events[0]);
      RunOnlyUnsubscribesOwnTopic(y, events[1..]);
    }
  }

  /**
   * The reply on the state topic settles the probe, drops the timer, the
   * subscription and the listener; a timer event afterwards does nothing.
   */
  lemma ReplySettles(q: Query, name: string, timeout: int, body: Option<JsValue>, error: string)
    ensures var x := Start(q, name, timeout).0;
      var (y, calls) := Step(x, Delivered(StateTopic(name), body, error));
      && y.settled == ReplyOutcome(q, body, error)
      && calls == [Unsubscribe(StateTopic(name))]
      && !y.timerArmed && !y.subscribed && !y.handlerOn
      && Step(y, TimerFired) == (y, [])
  {
  }

  /** Messages on any other topic are not taken for the reply. */
  lemma OtherTopicsIgnored(x: Exchange, topic: string, body: Option<JsValue>, error: string)
    requires topic != StateTopic(x.name)
    ensures Step(x, Delivered(topic, body, error)) == (x, [])
  {
  }

  /**
   * When the timer fires first the promise is rejected and the subscription
   * withdrawn, but the listener stays registered: a late reply on the topic
   * is still consumed (unsubscribing a second time) and changes no outcome.
   */
  lemma TimeoutLeavesListener(q: Query, name: string, timeout: int, body: Option<JsValue>, error: string)
    ensures var x := Start(q, name, timeout).0;
      var (y, calls) := Step(x, TimerFired);
      && y.settled == Rejected(TimedOut(TimeoutText(x)))
      && calls == [Unsubscribe(StateTopic(name))]
      && y.handlerOn && !y.subscribed
      && var (z, late) := Step(y, Delivered(StateTopic(name), body, error));
      && z.settled == y.settled
      && late == [Unsubscribe(StateTopic(name))]
      && !z.handlerOn
  {
  }

  /** A property that is falsy in the reply (0, false, "", missing) comes back as null. */
  lemma FalsyPropertyIsNull(name: string, timeout: int, p: string, state: map<string, JsValue>, error: string)
    requires p !in state || !Truthy(state[p])
    ensures var x := Start(PropertyQuery(p), name, timeout).0;
      Step(x, Delivered(StateTopic(name), Some(JObj(state)), error)).0.settled == Resolved(JNull)
  {
  }

  /**
   * A `null` reply to a property probe rejects through the parse failure's
   * `catch`, carrying the message of the failed property read.
   */
  lemma NullReplyRejectsProperty(name: string, timeout: int, p: string, error: string)
    ensures var x := Start(PropertyQuery(p), name, timeout).0;
      Step(x, Delivered(StateTopic(name), Some(JNull), error)).0.settled
        == Rejected(ParseFailed("Failed to parse response: " + error))
  {
  }

  /**
   * A publish failure ends a state probe completely, but a property probe
   * keeps its subscription and listener: only its timer is cleared.
   */
  lemma PublishFailureCleanup(name: string, timeout: int, p: string, m: string)
    ensures var (s, sCalls) := Step(Start(StateQuery, name, timeout).0, PublishError(m));
      && s.settled.Rejected? && !s.handlerOn && !s.subscribed && sCalls == [Unsubscribe(StateTopic(name))]
    ensures var (t, tCalls) := Step(Start(PropertyQuery(p), name, timeout).0, PublishError(m));
      && t.settled.Rejected? && t.handlerOn && t.subscribed && !t.timerArmed && tCalls == []
  {
  }

  /** Every registered listener sees every delivered message. */
  function Broadcast(xs: seq<Exchange>, e: Event): (ys: seq<Exchange>)
    ensures |ys| == |xs|
    ensures forall i :: 0 <= i < |xs| ==> ys[i] == Step(xs[i], e).0
  {
    seq(|xs|, i requires 0 <= i < |xs| => Step(xs[i], e).0)
  }

  /**
   * Nothing stops two probes of the same device from running at once, and a
   * single reply then resolves both with the same state.
   */
  lemma ConcurrentProbesShareReply(name: string, t1: int, t2: int, v: JsValue, error: string)
    ensures var xs := [Start(StateQuery, name, t1).0, Start(StateQuery, name, t2).0];
      var ys := Broadcast(xs, Delivered(StateTopic(name), Some(v), error));
      ys[0].settled == Resolved(v) && ys[1].settled == Resolved(v)
  {
  }

  /** `publishMsgToDevice(addr, msg)`: publish on the device's `set` topic, not retained. */
  function PublishCommand(addr: string, msg: string): (a: Action)
    ensures a.Publish? && a.payload == msg && a.retain == Some(false)
    ensures a.topic == TopicRoot + addr + "/set"
  {
    Publish(SetTopic(addr), msg, Some(false))
  }

  /**
   * The address can be read back from a command's topic, so commands for
   * different addresses never share a topic.
   */
  lemma CommandAddressReadsBack(addr: string, other: string, msg: string)
    ensures var t := PublishCommand(addr, msg).topic;
      |t| == |TopicRoot| + |addr| + 4 && t[|TopicRoot|..|t| - 4] == addr
    ensures other != addr ==> PublishCommand(other, msg).topic != PublishCommand(addr, msg).topic
  {
    var t := PublishCommand(addr, msg).topic;
    assert t[|TopicRoot|..|t| - 4] == addr;
    if PublishCommand(other, msg).topic == t {
      var u := PublishCommand(other, msg).topic;
      assert u[|TopicRoot|..|u| - 4] == other;
    }
  }

  /** A command topic is never the state topic a probe listens on. */
  lemma CommandTopicIsNotStateTopic(addr: string, name: string)
    requires '/' !in name
    ensures PublishCommand(addr, "").topic != StateTopic(name)
  {
    var t := PublishCommand(addr, "").topic;
    var u := StateTopic(name);
    if |t| == |u| {
      assert t[|t| - 4] == '/';
      assert u[|u| - 4] == name[|name| - 4];
      assert name[|name| - 4] in name;
    }
  }
}
