/** The JavaScript number operations the timers use: `parseInt(s, 10)`,
    `n.toString()`, `s.padStart(2, '0')`, `Math.floor(a / b)` and `a % b`,
    on integers only (values beyond 2^53, where a double loses precision,
    are not modelled). */
module JsNum {
  import opened Optional

  /** The characters `parseInt` skips before the number: ECMAScript's
      WhiteSpace and LineTerminator characters. */
  predicate IsJsSpace(c: char) {
    ('\t' <= c <= '\r') || c == ' ' || c == '\U{A0}' || c == '\U{1680}' ||
    ('\U{2000}' <= c <= '\U{200A}') || c == '\U{2028}' || c == '\U{2029}' ||
    c == '\U{202F}' || c == '\U{205F}' || c == '\U{3000}' || c == '\U{FEFF}'
  }

  predicate IsDigit(c: char) {
    '0' <= c <= '9'
  }

  predicate AllDigits(s: string) {
    forall k :: 0 <= k < |s| ==> IsDigit(s[k])
  }

  function DigitChar(d: nat): (c: char)
    requires d < 10
    ensures IsDigit(c)
  {
    ('0' as int + d) as char
  }

  function DigitValue(c: char): (d: nat)
    requires IsDigit(c)
    ensures d < 10 && DigitChar(d) == c
  {
    c as int - '0' as int
  }

  /** The decimal value of a string of digits; leading zeros are allowed. */
  function DigitsValue(s: string): nat
    requires AllDigits(s)
  {
    if s == [] then 0 else DigitsValue(s[..|s| - 1]) * 10 + DigitValue(s[|s| - 1])
  }

  /** Number of characters `parseInt` skips at the front. */
  function LeadingJsSpaces(s: string): (n: nat)
    ensures n <= |s|
    ensures forall k :: 0 <= k < n ==> IsJsSpace(s[k])
    ensures n < |s| ==> !IsJsSpace(s[n])
  {
    if s == [] || !IsJsSpace(s[0]) then 0 else 1 + LeadingJsSpaces(s[1..])
  }

  /** Length of the run of decimal digits at the front of `s`. */
  function DigitRun(s: string): (n: nat)
    ensures n <= |s|
    ensures AllDigits(s[..n])
    ensures n < |s| ==> !IsDigit(s[n])
  {
    if s == [] || !IsDigit(s[0]) then 0 else 1 + DigitRun(s[1..])
  }

  /** `parseInt(s, 10)`: leading whitespace skipped, an optional sign, then
      the longest run of decimal digits; `None` stands for `NaN` (no digit). */
  function ParseInt(s: string): (r: Option<int>)
    ensures r.Some? <==> DigitRun(Unsigned(s[LeadingJsSpaces(s)..])) > 0
  {
    var t := s[LeadingJsSpaces(s)..];
    var body := Unsigned(t);
    var n := DigitRun(body);
    if n == 0 then None
    else
      var v: int := DigitsValue(body[..n]);
      if t[0] == '-' then Some(-v) else Some(v)
  }

  /** `t` without its leading sign character, if it has one. */
  function Unsigned(t: string): (body: string)
    ensures t != [] && (t[0] == '-' || t[0] == '+') ==> body == t[1..]
    ensures !(t != [] && (t[0] == '-' || t[0] == '+')) ==> body == t
  {
    if t != [] && (t[0] == '-' || t[0] == '+') then t[1..] else t
  }

  /** `parseInt(s, 10) || 0`: `NaN` (and a zero of either sign) becomes 0. */
  function ParseIntOrZero(s: string): (v: int)
    ensures ParseInt(s).None? ==> v == 0
    ensures ParseInt(s).Some? ==> v == ParseInt(s).value
  {
    match ParseInt(s)
    case None => 0
    case Some(v) => v
  }

  /** `n.toString()` for a natural number; `NatToStringDigits` states what
      it produces. */
  function NatToString(n: nat): string {
    if n < 10 then [DigitChar(n)] else NatToString(n / 10) + [DigitChar(n % 10)]
  }

  /** `i.toString()` for an integer: a minus sign in front of a negative
      number's digits. */
  function IntToString(i: int): string {
    if i < 0 then "-" + NatToString(-i) else NatToString(i)
  }

  /** `s.padStart(2, '0')`: zeros in front until the length is at least 2. */
  function PadStart2(s: string): (r: string)
    ensures |r| == if |s| >= 2 then |s| else 2
    ensures |s| >= 2 ==> r == s
    ensures |s| < 2 ==> r[|r| - |s|..] == s && forall i :: 0 <= i < 2 - |s| ==> r[i] == '0'
  {
    if |s| >= 2 then s else if |s| == 1 then "0" + s else "00"
  }

  /** `Math.floor(a / b)` for a positive divisor. */
  function FloorDiv(a: int, b: int): (q: int)
    requires b > 0
    ensures q * b <= a < q * b + b
  {
    a / b
  }

  /** JavaScript's `a % b` for a positive divisor: the remainder takes the
      sign of `a` (truncating division), unlike Dafny's `%`. */
  function JsRem(a: int, b: int): (r: int)
    requires b > 0
    ensures -b < r < b
    ensures a >= 0 ==> 0 <= r && FloorDiv(a, b) * b + r == a
    ensures a < 0 ==> r <= 0
  {
    if a >= 0 then a % b else -((-a) % b)
  }

  /** A natural number's text is a non-empty run of decimal digits with no
      leading zero, a single digit exactly below 10, and it reads back as
      the number. */
  lemma {:induction false} NatToStringDigits(n: nat)
    ensures NatToString(n) != [] && AllDigits(NatToString(n))
    ensures |NatToString(n)| > 1 ==> NatToString(n)[0] != '0'
    ensures n < 10 <==> |NatToString(n)| == 1
    ensures DigitsValue(NatToString(n)) == n
  {
    var s := NatToString(n);
    if n >= 10 {
      var q := n / 10;
      var prefix := NatToString(q);
      NatToStringDigits(q);
      assert s == prefix + [DigitChar(n % 10)];
      assert s[..|s| - 1] == prefix;
      assert s[0] == prefix[0];
      if |prefix| == 1 {
        assert prefix == [DigitChar(q)];
      }
    }
  }

  /** Zero-padding a number's digits does not change the value they read
      back as. */
  lemma PaddedValue(n: nat)
    ensures AllDigits(PadStart2(NatToString(n)))
    ensures DigitsValue(PadStart2(NatToString(n))) == n
  {
    var s := NatToString(n);
    NatToStringDigits(n);
    if |s| < 2 {
      var padded := "0" + s;
      assert padded[..1] == "0";
    }
  }

  lemma DigitRunAll(s: string)
    requires AllDigits(s)
    ensures DigitRun(s) == |s|
  {
  }

  /** `parseInt` reads back what `toString` wrote, for every integer. */
  lemma ParseIntToString(i: int)
    ensures ParseInt(IntToString(i)) == Some(i)
  {
    var s := IntToString(i);
    var digits := NatToString(if i < 0 then -i else i);
    NatToStringDigits(if i < 0 then -i else i);
    assert LeadingJsSpaces(s) == 0;
    assert s[0..] == s;
    assert Unsigned(s) == digits;
    DigitRunAll(digits);
    assert digits[..|digits|] == digits;
  }
}
