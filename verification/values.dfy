/**
 * JavaScript values as the housekeeper services see them after JSON
 * decoding: the handful of primitive kinds, flat objects, JavaScript
 * truthiness, property access (which throws on null and undefined) and the
 * two numeric coercions the code relies on (`Number(x)` inside `isNaN`, `<`
 * and `==`, and `parseFloat(x)`).
 */
module Values {
  import opened Text

  datatype Option<+T> = None | Some(value: T)

  /** A JavaScript number: a finite value or NaN (infinities are not modelled). */
  datatype Num = Finite(r: real) | NaN

  /** A decoded JSON value, plus `undefined`. Arrays are not distinguished from objects. */
  datatype JsValue =
    | JUndefined
    | JNull
    | JBool(b: bool)
    | JNum(n: Num)
    | JStr(s: string)
    | JObj(props: map<string, JsValue>)

  /** JavaScript truthiness: false, 0, NaN, "", null and undefined are falsy. */
  predicate Truthy(v: JsValue) {
    match v
    case JUndefined => false
    case JNull => false
    case JBool(b) => b
    case JNum(n) => n.Finite? && n.r != 0.0
    case JStr(s) => s != ""
    case JObj(_) => true
  }

  /**
   * `v.key`: None when the access throws (v is null or undefined); a missing
   * property, and any property of a primitive, reads as undefined.
   */
  function Prop(v: JsValue, key: string): (r: Option<JsValue>)
    ensures r.None? <==> v.JNull? || v.JUndefined?
    ensures v.JObj? && key in v.props ==> r == Some(v.props[key])
    ensures v.JObj? && key !in v.props ==> r == Some(JUndefined)
  {
    match v
    case JUndefined => None
    case JNull => None
    case JObj(m) => if key in m then Some(m[key]) else Some(JUndefined)
    case _ => Some(JUndefined)
  }

  /** `a || b || ... || last`: the first truthy candidate, else the last operand. */
  function OrChain(candidates: seq<JsValue>, last: JsValue): (r: JsValue)
    ensures Truthy(r) || r == last
    ensures (exists i :: 0 <= i < |candidates| && Truthy(candidates[i])) ==> Truthy(r)
    ensures r != last ==> r in candidates
  {
    if candidates == [] then last
    else if Truthy(candidates[0]) then candidates[0]
    else OrChain(candidates[1..], last)
  }

  /** The first truthy candidate is the one `OrChain` selects. */
  lemma {:induction false} OrChainPicksFirstTruthy(candidates: seq<JsValue>, last: JsValue, i: nat)
    requires i < |candidates| && Truthy(candidates[i])
    requires forall j :: 0 <= j < i ==> !Truthy(candidates[j])
    ensures OrChain(candidates, last) == candidates[i]
  {
    if i > 0 {
      assert !Truthy(candidates[0]);
      OrChainPicksFirstTruthy(candidates[1..], last, i - 1);
    }
  }

  /** `Number(v)`: the numeric coercion used by `isNaN`, relational operators and loose equality. */
  function ToNumber(v: JsValue): Num {
    match v
    case JUndefined => NaN
    case JNull => Finite(0.0)
    case JBool(b) => if b then Finite(1.0) else Finite(0.0)
    case JNum(n) => n
    case JStr(s) => NumberOf(s)
    case JObj(_) => NaN
  }

  /** The global `isNaN(v)`. */
  predicate IsNaN(v: JsValue) {
    ToNumber(v).NaN?
  }

  /** `String(v)`, also what a template literal `${v}` produces. */
  function Show(v: JsValue): string {
    match v
    case JUndefined => "undefined"
    case JNull => "null"
    case JBool(b) => if b then "true" else "false"
    case JNum(n) => ShowNum(n)
    case JStr(s) => s
    case JObj(_) => "[object Object]"
  }

  function ShowNum(n: Num): string {
    match n
    case NaN => "NaN"
    case Finite(r) => RealText(r)
  }

  /**
   * `parseFloat(v)`: the argument is first turned into text. A finite number
   * survives the round trip through its own text, so it is returned as is.
   */
  function ParseFloatOf(v: JsValue): Num {
    match v
    case JNum(n) => n
    case _ => ParseFloatText(Show(v))
  }

  /** `parseFloat` on text: the longest decimal prefix after leading white space. */
  function ParseFloatText(s: string): (r: Num)
    ensures r.Finite? <==> ScanDecimal(TrimStart(s)).Scanned?
  {
    match ScanDecimal(TrimStart(s))
    case Scanned(v, _) => Finite(v)
    case NoNumber => NaN
  }

  /**
   * `Number(s)` for text: white space is trimmed, the empty text is 0, and
   * anything but a complete decimal literal is NaN.
   */
  function NumberOf(s: string): (r: Num)
    ensures Trim(s) == "" ==> r == Finite(0.0)
  {
    var t := Trim(s);
    if t == "" then Finite(0.0)
    else match ScanDecimal(t)
      case Scanned(v, len) => if len == |t| then Finite(v) else NaN
      case NoNumber => NaN
  }

  /** Numeric comparisons: every comparison with NaN is false. */
  predicate Less(a: Num, b: Num) {
    a.Finite? && b.Finite? && a.r < b.r
  }

  predicate Greater(a: Num, b: Num) {
    a.Finite? && b.Finite? && a.r > b.r
  }

  predicate AtLeast(a: Num, b: Num) {
    a.Finite? && b.Finite? && a.r >= b.r
  }

  predicate AtMost(a: Num, b: Num) {
    a.Finite? && b.Finite? && a.r <= b.r
  }

  /** Text written by `NatText` reads back as the same number through `Number()`. */
  lemma NumberOfNatText(n: nat)
    ensures NumberOf(NatText(n)) == Finite(n as real)
  {
    var t := NatText(n);
    NatTextIsDigits(n);
    TrimOfDigits(t);
    ScanDecimalOfDigits(t);
    NatTextValue(n);
  }

  /**
   * ... and through `parseFloat`, also when a unit or other text that cannot
   * continue the number follows it.
   */
  lemma ParseFloatOfNatText(n: nat, unit: string)
    requires unit != [] ==> EndsNumber(unit[0])
    ensures ParseFloatText(NatText(n) + unit) == Finite(n as real)
  {
    var s := NatText(n) + unit;
    NumeralScan(n, unit);
    DigitFirstTrimStart(s);
  }

  /** A numeral, followed by text that cannot continue it, scans as its value. */
  lemma NumeralScan(n: nat, unit: string)
    requires unit != [] ==> EndsNumber(unit[0])
    ensures NatText(n) + unit != [] && IsDigit((NatText(n) + unit)[0])
    ensures ScanDecimal(NatText(n) + unit) == Scanned(n as real, |NatText(n)|)
  {
    var t := NatText(n);
    NatTextIsDigits(n);
    assert IsDigit(t[0]) && (t + unit)[0] == t[0];
    ScanDecimalOfDigitsThen(t, unit);
    NatTextValue(n);
  }

  /** Text that starts with a digit has no leading white space. */
  lemma DigitFirstTrimStart(s: string)
    requires s != [] && IsDigit(s[0])
    ensures TrimStart(s) == s
  {
  }
}
