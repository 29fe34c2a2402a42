/**
 * String operations the services use: prefix and substring tests, `split`
 * and `join`, ASCII lower-casing, JavaScript `trim`, and decimal numerals in
 * both directions (number to text, and the decimal prefix that `Number()` and
 * `parseFloat` accept).
 */
module Text {

  predicate StartsWith(s: string, prefix: string) {
    |prefix| <= |s| && s[..|prefix|] == prefix
  }

  predicate EndsWith(s: string, suffix: string) {
    |suffix| <= |s| && s[|s| - |suffix|..] == suffix
  }

  /** `s.includes(sub)`. */
  predicate Contains(s: string, sub: string)
    decreases |s|
  {
    StartsWith(s, sub) || (s != [] && Contains(s[1..], sub))
  }

  /** `sub` occurs in `s` starting at position `i`. */
  predicate OccursAt(s: string, sub: string, i: int) {
    0 <= i <= |s| - |sub| && s[i..i + |sub|] == sub
  }

  /** `Contains` holds exactly when `sub` occurs at some position of `s`. */
  lemma ContainsIffOccurs(s: string, sub: string)
    ensures Contains(s, sub) <==> exists i :: OccursAt(s, sub, i)
  {
    if Contains(s, sub) {
      var i := ContainsWitness(s, sub);
    }
    forall i | OccursAt(s, sub, i)
      ensures Contains(s, sub)
    {
      OccursContains(s, sub, i);
    }
  }

  /** A position where `sub` occurs, given that `s` contains it. */
  lemma {:induction false} ContainsWitness(s: string, sub: string) returns (i: int)
    requires Contains(s, sub)
    ensures OccursAt(s, sub, i)
    decreases |s|
  {
    if StartsWith(s, sub) {
      i := 0;
      assert s[0..|sub|] == s[..|sub|];
    } else {
      var j := ContainsWitness(s[1..], sub);
      i := j + 1;
      assert s[1..][j..j + |sub|] == s[j + 1..j + 1 + |sub|];
    }
  }

  /** An occurrence at any position makes `s` contain `sub`. */
  lemma {:induction false} OccursContains(s: string, sub: string, i: int)
    requires OccursAt(s, sub, i)
    ensures Contains(s, sub)
    decreases i
  {
    if i == 0 {
      assert s[..|sub|] == s[0..|sub|];
    } else {
      assert s[1..][i - 1..i - 1 + |sub|] == s[i..i + |sub|];
      OccursContains(s[1..], sub, i - 1);
    }
  }

  /** Position of the first `c` in `s`, or `|s|` when there is none. */
  function IndexOf(s: string, c: char): (i: nat)
    ensures i <= |s|
    ensures i < |s| ==> s[i] == c
    ensures c !in s[..i]
  {
    if s == [] then 0
    else if s[0] == c then 0
    else 1 + IndexOf(s[1..], c)
  }

  /** `s.split(c)` for a one-character separator. */
  function Split(s: string, c: char): (parts: seq<string>)
    ensures |parts| >= 1
    ensures forall i :: 0 <= i < |parts| ==> c !in parts[i]
    decreases |s|
  {
    var i := IndexOf(s, c);
    if i == |s| then [s] else [s[..i]] + Split(s[i + 1..], c)
  }

  /** `parts.join(sep)`. */
  function Join(parts: seq<string>, sep: string): string {
    if |parts| == 0 then ""
    else if |parts| == 1 then parts[0]
    else parts[0] + sep + Join(parts[1..], sep)
  }

  /** Joining what `Split` cut at `c` with `c` gives back the original text. */
  lemma {:induction false} JoinSplit(s: string, c: char)
    ensures Join(Split(s, c), [c]) == s
    decreases |s|
  {
    var i := IndexOf(s, c);
    if i < |s| {
      var rest := Split(s[i + 1..], c);
      JoinSplit(s[i + 1..], c);
      var parts := [s[..i]] + rest;
      assert parts[1..] == rest;
      calc {
        Join(parts, [c]);
        s[..i] + [c] + Join(rest, [c]);
        s[..i] + [c] + s[i + 1..];
        { assert s[..i] + [s[i]] == s[..i + 1]; }
        s;
      }
    }
  }

  /** The first piece of `Split` is everything before the first separator. */
  lemma SplitHead(s: string, c: char)
    ensures Split(s, c)[0] == s[..IndexOf(s, c)]
    ensures IndexOf(s, c) < |s| ==> Split(s, c)[1..] == Split(s[IndexOf(s, c) + 1..], c)
    ensures IndexOf(s, c) == |s| <==> |Split(s, c)| == 1
  {
  }

  /** `Split` distributes over a separator that glues two texts. */
  lemma {:induction false} SplitAppend(a: string, b: string, c: char)
    ensures Split(a + [c] + b, c) == Split(a, c) + Split(b, c)
    decreases |a|
  {
    var s := a + [c] + b;
    var i := IndexOf(a, c);
    IndexOfPrefix(a, [c] + b, c);
    assert a + ([c] + b) == s;
    if i == |a| {
      SplitAt(s, c);
      SplitNone(a, c);
      assert s[..|a|] == a;
      assert s[|a| + 1..] == b;
    } else {
      var tail := a[i + 1..];
      assert s[..i] == a[..i];
      assert s[i + 1..] == tail + [c] + b;
      var head := [a[..i]];
      calc {
        Split(s, c);
        { SplitAt(s, c); }
        head + Split(tail + [c] + b, c);
        { SplitAppend(tail, b, c); }
        head + (Split(tail, c) + Split(b, c));
        (head + Split(tail, c)) + Split(b, c);
        { SplitAt(a, c); }
        Split(a, c) + Split(b, c);
      }
    }
  }

  /** `Split` at the first separator. */
  lemma SplitAt(s: string, c: char)
    requires IndexOf(s, c) < |s|
    ensures Split(s, c) == [s[..IndexOf(s, c)]] + Split(s[IndexOf(s, c) + 1..], c)
  {
  }

  /** `Split` of a text without separator. */
  lemma SplitNone(s: string, c: char)
    requires IndexOf(s, c) == |s|
    ensures Split(s, c) == [s]
  {
  }

  /** `IndexOf` on a concatenation looks in the second part only when the first has no `c`. */
  lemma {:induction false} IndexOfPrefix(a: string, b: string, c: char)
    ensures IndexOf(a, c) < |a| ==> IndexOf(a + b, c) == IndexOf(a, c)
    ensures IndexOf(a, c) == |a| ==> IndexOf(a + b, c) == |a| + IndexOf(b, c)
    decreases |a|
  {
    if a != [] {
      assert (a + b)[1..] == a[1..] + b;
      IndexOfPrefix(a[1..], b, c);
    } else {
      assert a + b == b;
    }
  }

  /** Without any `c` in `s`, `IndexOf` runs to the end. */
  lemma IndexOfAbsent(s: string, c: char)
    requires c !in s
    ensures IndexOf(s, c) == |s|
  {
  }

  /** Text without the separator splits into itself. */
  lemma SplitWithoutSeparator(s: string, c: char)
    requires c !in s
    ensures Split(s, c) == [s]
  {
    IndexOfAbsent(s, c);
  }

  /** Appending a part appends the separator and the part. */
  lemma {:induction false} JoinSnoc(parts: seq<string>, last: string, sep: string)
    requires parts != []
    ensures Join(parts + [last], sep) == Join(parts, sep) + sep + last
    decreases |parts|
  {
    var all := parts + [last];
    assert all[1..] == parts[1..] + [last];
    if |parts| > 1 {
      JoinSnoc(parts[1..], last, sep);
    }
  }

  /** Joining a part in front of at least one more adds that part and a separator. */
  lemma JoinCons(first: string, rest: seq<string>, sep: string)
    requires rest != []
    ensures Join([first] + rest, sep) == (first + sep) + Join(rest, sep)
  {
    assert ([first] + rest)[1..] == rest;
  }

  /** Joined parts framed by a first and a last part open and close with them. */
  lemma FramedJoin(first: string, middle: seq<string>, last: string, sep: string)
    ensures StartsWith(Join([first] + middle + [last], sep), first + sep)
    ensures EndsWith(Join([first] + middle + [last], sep), sep + last)
  {
    var front := [first] + middle;
    assert [first] + middle + [last] == [first] + (middle + [last]);
    JoinCons(first, middle + [last], sep);
    ConcatStartsWith(first + sep, Join(middle + [last], sep));
    JoinSnoc(front, last, sep);
    assert Join(front, sep) + sep + last == Join(front, sep) + (sep + last);
    ConcatEndsWith(Join(front, sep), sep + last);
  }

  lemma ConcatStartsWith(a: string, b: string)
    ensures StartsWith(a + b, a)
  {
    assert (a + b)[..|a|] == a;
  }

  lemma ConcatEndsWith(a: string, b: string)
    ensures EndsWith(a + b, b)
  {
    assert (a + b)[|a|..] == b;
  }

  /** Splitting at `c` undoes joining with `c`, provided no part contains `c`. */
  lemma {:induction false} SplitJoin(parts: seq<string>, c: char)
    requires |parts| >= 1
    requires forall i :: 0 <= i < |parts| ==> c !in parts[i]
    ensures Split(Join(parts, [c]), c) == parts
    decreases |parts|
  {
    if |parts| == 1 {
      SplitWithoutSeparator(parts[0], c);
    } else {
      var rest := parts[1..];
      assert forall i :: 0 <= i < |rest| ==> rest[i] == parts[i + 1];
      SplitJoin(rest, c);
      SplitJoinCons(parts[0], rest, c);
      assert [parts[0]] + rest == parts;
    }
  }

  lemma SplitJoinCons(first: string, rest: seq<string>, c: char)
    requires c !in first && |rest| >= 1
    ensures Split(Join([first] + rest, [c]), c) == [first] + Split(Join(rest, [c]), c)
  {
    var parts := [first] + rest;
    assert parts[1..] == rest;
    var tail := Join(rest, [c]);
    assert Join(parts, [c]) == first + [c] + tail;
    SplitAppend(first, tail, c);
    SplitWithoutSeparator(first, c);
  }

  /** The JavaScript white space and line terminators that `trim` removes. */
  predicate IsSpace(c: char) {
    c == '\t' || c == '\n' || c == '\U{000B}' || c == '\U{000C}' || c == '\r' || c == ' '
    || c == '\U{00A0}' || c == '\U{1680}' || ('\U{2000}' <= c <= '\U{200A}')
    || c == '\U{2028}' || c == '\U{2029}' || c == '\U{202F}' || c == '\U{205F}'
    || c == '\U{3000}' || c == '\U{FEFF}'
  }

  /** `s.trimStart()`. */
  function TrimStart(s: string): (r: string)
    ensures |r| <= |s| && r == s[|s| - |r|..]
    ensures forall i :: 0 <= i < |s| - |r| ==> IsSpace(s[i])
    ensures r != [] ==> !IsSpace(r[0])
  {
    if s != [] && IsSpace(s[0]) then TrimStart(s[1..]) else s
  }

  /** Number of white-space characters at the front of `s`. */
  function LeadingSpaces(s: string): (n: nat)
    ensures n <= |s|
    ensures forall k :: 0 <= k < n ==> IsSpace(s[k])
    ensures n < |s| ==> !IsSpace(s[n])
  {
    if s != [] && IsSpace(s[0]) then 1 + LeadingSpaces(s[1..]) else 0
  }

  /** Length of `s` without the white space at its end. */
  function TrailingStart(s: string): (m: nat)
    ensures m <= |s|
    ensures forall k :: m <= k < |s| ==> IsSpace(s[k])
    ensures m > 0 ==> !IsSpace(s[m - 1])
  {
    if s != [] && IsSpace(s[|s| - 1]) then TrailingStart(s[..|s| - 1]) else |s|
  }

  /** `s.trim()`: the longest stretch of `s` without white space at either end. */
  function Trim(s: string): (r: string)
    ensures |r| <= |s|
    ensures r != [] ==> !IsSpace(r[0]) && !IsSpace(r[|r| - 1])
  {
    var i := LeadingSpaces(s);
    if i == |s| then "" else s[i..TrailingStart(s)]
  }

  /** `Trim` cuts only white space: what it keeps is a slice of `s` with white space on both sides. */
  lemma TrimSlice(s: string)
    ensures LeadingSpaces(s) + |Trim(s)| <= |s|
    ensures Trim(s) == s[LeadingSpaces(s)..LeadingSpaces(s) + |Trim(s)|]
    ensures forall k :: 0 <= k < LeadingSpaces(s) ==> IsSpace(s[k])
    ensures forall k :: LeadingSpaces(s) + |Trim(s)| <= k < |s| ==> IsSpace(s[k])
  {
  }

  /** ASCII `toLowerCase` (non-ASCII letters are left as they are). */
  function LowerChar(c: char): char {
    if 'A' <= c <= 'Z' then (c as int - 'A' as int + 'a' as int) as char else c
  }

  function ToLower(s: string): (r: string)
    ensures |r| == |s|
    ensures forall i :: 0 <= i < |s| ==> r[i] == LowerChar(s[i])
  {
    if s == [] then "" else [LowerChar(s[0])] + ToLower(s[1..])
  }

  // ---------------------------------------------------------------------------
  // Numerals

  predicate IsDigit(c: char) {
    '0' <= c <= '9'
  }

  predicate AllDigits(s: string) {
    forall i :: 0 <= i < |s| ==> IsDigit(s[i])
  }

  function DigitValue(c: char): nat {
    if IsDigit(c) then c as int - '0' as int else 0
  }

  function DigitChar(d: nat): (c: char)
    requires d < 10
    ensures IsDigit(c) && DigitValue(c) == d
  {
    ('0' as int + d) as char
  }

  /** The value of a run of decimal digits. */
  function DigitsValue(s: string): nat {
    if s == [] then 0 else DigitsValue(s[..|s| - 1]) * 10 + DigitValue(s[|s| - 1])
  }

  /** The value of the digits after a decimal point. */
  function FractionValue(s: string): real {
    if s == [] then 0.0 else (DigitValue(s[0]) as real + FractionValue(s[1..])) / 10.0
  }

  /** Length of the leading run of digits. */
  function DigitRun(s: string): (k: nat)
    ensures k <= |s| && AllDigits(s[..k])
    ensures k < |s| ==> !IsDigit(s[k])
  {
    if s != [] && IsDigit(s[0]) then
      var k := 1 + DigitRun(s[1..]);
      assert s[..k] == [s[0]] + s[1..][..k - 1];
      k
    else 0
  }

  /** A decimal number at the start of a text: its value and how many characters it took. */
  datatype Scan = NoNumber | Scanned(value: real, length: nat)

  /**
   * The longest prefix of the form `[+-]? digits [. digits]` with at least
   * one digit (`5.` and `.5` are numbers, `.` is not). Exponents, `Infinity`
   * and hexadecimal literals are not recognised.
   */
  function ScanDecimal(t: string): (r: Scan)
    ensures r.Scanned? ==> 0 < r.length <= |t|
  {
    var signLen := if |t| > 0 && (t[0] == '+' || t[0] == '-') then 1 else 0;
    var sign := if signLen == 1 && t[0] == '-' then -1.0 else 1.0;
    var rest := t[signLen..];
    var k := DigitRun(rest);
    var whole := DigitsValue(rest[..k]) as real;
    if k < |rest| && rest[k] == '.' then
      var frac := rest[k + 1..];
      var m := DigitRun(frac);
      if k + m == 0 then NoNumber
      else Scanned(sign * (whole + FractionValue(frac[..m])), signLen + k + 1 + m)
    else if k == 0 then NoNumber
    else Scanned(sign * whole, signLen + k)
  }

  /** Decimal text of a natural number, without leading zeros. */
  function NatText(n: nat): (s: string)
    ensures |s| >= 1
    decreases n
  {
    if n < 10 then [DigitChar(n)] else NatText(n / 10) + [DigitChar(n % 10)]
  }

  function IntText(i: int): string {
    if i < 0 then "-" + NatText(-i) else NatText(i)
  }

  /**
   * Decimal text of a real: integers exactly; other values with their decimal
   * expansion, cut after 20 fraction digits.
   */
  function RealText(x: real): string {
    if x < 0.0 then "-" + NonNegativeText(-x) else NonNegativeText(x)
  }

  function NonNegativeText(x: real): string
    requires x >= 0.0
  {
    var whole := x.Floor;
    var f := x - whole as real;
    NatText(whole) + (if f == 0.0 then "" else "." + FractionDigits(f, 20))
  }

  function FractionDigits(f: real, n: nat): string
    requires 0.0 <= f < 1.0
    decreases n
  {
    if f == 0.0 || n == 0 then ""
    else
      var d := (f * 10.0).Floor;
      [DigitChar(d)] + FractionDigits(f * 10.0 - d as real, n - 1)
  }

  lemma {:induction false} NatTextIsDigits(n: nat)
    ensures AllDigits(NatText(n))
    decreases n
  {
    if n >= 10 {
      NatTextIsDigits(n / 10);
    }
  }

  lemma {:induction false} NatTextValue(n: nat)
    ensures DigitsValue(NatText(n)) == n
    decreases n
  {
    if n >= 10 {
      NatTextValue(n / 10);
      var s := NatText(n);
      assert s[..|s| - 1] == NatText(n / 10);
    }
  }

  lemma TrimOfDigits(s: string)
    requires AllDigits(s)
    ensures Trim(s) == s
  {
    assert LeadingSpaces(s) == 0;
    assert TrailingStart(s) == |s|;
  }

  lemma DigitRunOfDigits(s: string)
    requires AllDigits(s)
    ensures DigitRun(s) == |s|
  {
  }

  /** A nonempty run of digits is scanned whole, with its digit value. */
  lemma ScanDecimalOfDigits(s: string)
    requires s != [] && AllDigits(s)
    ensures ScanDecimal(s) == Scanned(DigitsValue(s) as real, |s|)
  {
    assert IsDigit(s[0]);
    assert s[0..] == s;
    DigitRunOfDigits(s);
    assert s[..|s|] == s;
  }

  /** A character that cannot continue a decimal number. */
  predicate EndsNumber(c: char) {
    !IsDigit(c) && c != '.'
  }

  /** The digit run of a run of digits followed by something else stops where the digits end. */
  lemma {:induction false} DigitRunThen(s: string, tail: string)
    requires AllDigits(s)
    requires tail != [] ==> !IsDigit(tail[0])
    ensures DigitRun(s + tail) == |s|
    decreases |s|
  {
    if s != [] {
      assert (s + tail)[1..] == s[1..] + tail;
      assert IsDigit(s[0]);
      DigitRunThen(s[1..], tail);
    } else {
      assert s + tail == tail;
    }
  }

  /** A nonempty run of digits followed by a character that ends the number is scanned up to that character. */
  lemma ScanDecimalOfDigitsThen(s: string, tail: string)
    requires s != [] && AllDigits(s)
    requires tail != [] ==> EndsNumber(tail[0])
    ensures ScanDecimal(s + tail) == Scanned(DigitsValue(s) as real, |s|)
  {
    var t := s + tail;
    assert IsDigit(s[0]) && t[0] == s[0];
    assert t[0..] == t;
    DigitRunThen(s, tail);
    assert t[..|s|] == s;
    assert |s| < |t| ==> t[|s|] == tail[0];
  }

  /** A text is its first k characters followed by the rest. */
  lemma TakeDrop(s: string, k: nat)
    requires k <= |s|
    ensures s[..k] + s[k..] == s
  {
  }
}
