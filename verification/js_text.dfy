/** The string primitives of ECMA-262 the widgets rely on: the white-space
    set (`\s` in a regular expression, and what `parseInt` skips), decimal
    digits, `parseInt(s, 10)` and the decimal rendering of an integral Number. */
module JsText {
  import opened Outcomes

  /** WhiteSpace (ECMA-262 "White Space") together with LineTerminator
      (ECMA-262 "Line Terminators"): exactly the code points `\s` matches and
      TrimString removes. */
  predicate IsJsSpace(c: char) {
    || c == '\t' || c == '\U{000B}' || c == '\U{000C}' || c == ' ' || c == '\U{00A0}' || c == '\U{FEFF}'
    || c == '\U{1680}' || ('\U{2000}' <= c <= '\U{200A}') || c == '\U{202F}' || c == '\U{205F}' || c == '\U{3000}'
    || c == '\n' || c == '\r' || c == '\U{2028}' || c == '\U{2029}'
  }

  predicate IsDigit(c: char) {
    '0' <= c <= '9'
  }

  predicate AllDigits(s: string) {
    forall i | 0 <= i < |s| :: IsDigit(s[i])
  }

  function DigitValue(c: char): nat
    requires IsDigit(c)
  {
    c as int - '0' as int
  }

  function DigitChar(d: nat): (c: char)
    requires d < 10
    ensures IsDigit(c) && DigitValue(c) == d
  {
    ('0' as int + d) as char
  }

  function Pow10(k: nat): (p: nat)
    ensures p >= 1
  {
    if k == 0 then 1 else 10 * Pow10(k - 1)
  }

  /** The value of a string of decimal digits, most significant first. */
  function DigitsValue(s: string): nat
    requires AllDigits(s)
    decreases |s|
  {
    if |s| == 0 then 0 else 10 * DigitsValue(s[..|s| - 1]) + DigitValue(s[|s| - 1])
  }

  /** Shortest decimal rendering of `n`: no leading zero except for zero itself. */
  function NatToString(n: nat): (r: string)
    ensures 1 <= |r| && AllDigits(r)
    ensures DigitsValue(r) == n
    ensures r[0] == '0' ==> r == "0"
    decreases n
  {
    if n < 10 then [DigitChar(n)]
    else
      var prefix := NatToString(n / 10);
      assert (prefix + [DigitChar(n % 10)])[..|prefix|] == prefix;
      prefix + [DigitChar(n % 10)]
  }

  /** `n` written with exactly `width` digits, padded with leading zeros. */
  function PadDigits(n: nat, width: nat): (r: string)
    ensures |r| == width
    decreases width
  {
    if width == 0 then [] else PadDigits(n / 10, width - 1) + [DigitChar(n % 10)]
  }

  /** A padded rendering reads back as the number, when the width suffices. */
  lemma {:induction false} PadDigitsValue(n: nat, width: nat)
    requires n < Pow10(width)
    ensures AllDigits(PadDigits(n, width))
    ensures DigitsValue(PadDigits(n, width)) == n
    decreases width
  {
    if width > 0 {
      var prefix := PadDigits(n / 10, width - 1);
      PadDigitsValue(n / 10, width - 1);
      assert (prefix + [DigitChar(n % 10)])[..|prefix|] == prefix;
    }
  }

  lemma {:induction false} DigitsValueBound(u: string)
    requires AllDigits(u)
    ensures DigitsValue(u) < Pow10(|u|)
    decreases |u|
  {
    if |u| > 0 {
      DigitsValueBound(u[..|u| - 1]);
    }
  }

  /** Conversely, a digit string is the padded rendering of its value. */
  lemma {:induction false} PadDigitsOfValue(u: string)
    requires AllDigits(u)
    ensures PadDigits(DigitsValue(u), |u|) == u
    decreases |u|
  {
    if |u| > 0 {
      var init := u[..|u| - 1];
      PadDigitsOfValue(init);
      var v := DigitsValue(u);
      assert v / 10 == DigitsValue(init);
      assert DigitChar(v % 10) == u[|u| - 1];
      assert init + [u[|u| - 1]] == u;
    }
  }

  /** `Number.prototype.toString()` of an integral Number below 10^21 in
      magnitude: an optional minus sign and the shortest decimal digits.
      Negative zero prints as "0", which the unbounded integer 0 also gives. */
  function IntToString(n: int): (r: string)
    ensures r != []
    ensures n >= 0 ==> AllDigits(r) && DigitsValue(r) == n
    ensures n < 0 ==> r[0] == '-' && AllDigits(r[1..]) && DigitsValue(r[1..]) == -n
    ensures n >= 0 ==> (r[0] == '0' ==> r == "0")
    ensures n < 0 ==> |r| >= 2 && r[1] != '0'
  {
    if n < 0 then "-" + NatToString(-n) else NatToString(n)
  }

  /** parseInt reads back the rendering of any integer. */
  lemma IntToStringReadsBack(n: int)
    ensures ParseInt(IntToString(n)) == Some(n)
  {
    ParseIntOfRendering(n, []);
    assert IntToString(n) + [] == IntToString(n);
  }

  /** TrimString(s, start): drops the leading white space. */
  function TrimStart(s: string): (r: string)
    ensures |r| <= |s| && r == s[|s| - |r|..]
    ensures |r| > 0 ==> !IsJsSpace(r[0])
  {
    if |s| > 0 && IsJsSpace(s[0]) then TrimStart(s[1..]) else s
  }

  /** What TrimString drops is white space, so it drops exactly the
      leading white-space run. */
  lemma {:induction false} TrimStartDropsSpace(s: string)
    ensures forall i | 0 <= i < |s| - |TrimStart(s)| :: IsJsSpace(s[i])
    decreases |s|
  {
    if |s| > 0 && IsJsSpace(s[0]) {
      TrimStartDropsSpace(s[1..]);
      assert forall i | 1 <= i < |s| :: s[i] == s[1..][i - 1];
    }
  }

  /** The longest prefix of `s` made of decimal digits. */
  function DigitPrefix(s: string): (r: string)
    ensures AllDigits(r) && r <= s
    ensures |r| < |s| ==> !IsDigit(s[|r|])
  {
    if |s| > 0 && IsDigit(s[0]) then [s[0]] + DigitPrefix(s[1..]) else []
  }

  /** `parseInt(s, 10)` as section 19.2.5 of ECMA-262 defines it: skip
      leading white space, take one optional sign, then the longest run of
      decimal digits; `None` is NaN, returned when that run is empty. The
      result is the exact integer; the Number rounding of more than 15
      significant digits only matters far outside the time-value range. */
  function ParseInt(s: string): Option<int> {
    ParseSigned(TrimStart(s))
  }

  /** Steps 3 to 17 of parseInt, after the leading white space is gone. */
  function ParseSigned(t: string): Option<int> {
    if |t| > 0 && t[0] == '-' then
      match ParseDigits(t[1..])
      case None => None
      case Some(v) => Some(-v)
    else if |t| > 0 && t[0] == '+' then ParseDigits(t[1..])
    else ParseDigits(t)
  }

  function ParseDigits(u: string): Option<int> {
    var digits := DigitPrefix(u);
    if |digits| == 0 then None else Some(DigitsValue(digits))
  }

  lemma {:induction false} DigitPrefixOfDigits(u: string, rest: string)
    requires AllDigits(u)
    requires rest == [] || !IsDigit(rest[0])
    ensures DigitPrefix(u + rest) == u
    decreases |u|
  {
    if |u| == 0 {
      assert u + rest == rest;
    } else {
      assert (u + rest)[1..] == u[1..] + rest;
      DigitPrefixOfDigits(u[1..], rest);
      assert [u[0]] + u[1..] == u;
    }
  }

  lemma ParseDigitsOfDigits(u: string, rest: string)
    requires AllDigits(u) && |u| > 0
    requires rest == [] || !IsDigit(rest[0])
    ensures ParseDigits(u + rest) == Some(DigitsValue(u))
  {
    DigitPrefixOfDigits(u, rest);
  }

  lemma TrimStartKeeps(s: string)
    requires |s| > 0 && !IsJsSpace(s[0])
    ensures TrimStart(s) == s
  {
  }

  /** A plain run of digits reads as its value. */
  lemma ParseIntOfDigits(u: string)
    requires |u| > 0 && AllDigits(u)
    ensures ParseInt(u) == Some(DigitsValue(u))
  {
    TrimStartKeeps(u);
    DigitPrefixOfAllDigits(u);
    assert IsDigit(u[0]);
  }

  lemma {:induction false} DigitPrefixOfAllDigits(u: string)
    requires AllDigits(u)
    ensures DigitPrefix(u) == u
    decreases |u|
  {
    if |u| > 0 {
      DigitPrefixOfAllDigits(u[1..]);
      assert [u[0]] + u[1..] == u;
    }
  }

  /** parseInt reads back the decimal rendering of any integer, and stops
      at the first character after it that is not a digit. */
  lemma ParseIntOfRendering(n: int, rest: string)
    requires rest == [] || !IsDigit(rest[0])
    ensures ParseInt((if n < 0 then "-" + NatToString(-n) else NatToString(n)) + rest) == Some(n)
  {
    if n < 0 {
      ParseIntOfNegative(-n, rest);
    } else {
      ParseIntOfNatural(n, rest);
    }
  }

  lemma ParseIntOfNatural(n: nat, rest: string)
    requires rest == [] || !IsDigit(rest[0])
    ensures ParseInt(NatToString(n) + rest) == Some(n)
  {
    ParseIntOfDigitRun(NatToString(n), rest, n);
  }

  lemma ParseIntOfNegative(n: nat, rest: string)
    requires rest == [] || !IsDigit(rest[0])
    ensures ParseInt("-" + NatToString(n) + rest) == Some(-(n as int))
  {
    ParseIntOfSignedDigitRun(NatToString(n), rest, n);
  }

  /** A run of digits followed by a non-digit reads as the run's value `d`. */
  lemma ParseIntOfDigitRun(body: string, rest: string, d: nat)
    requires |body| > 0 && AllDigits(body) && d == DigitsValue(body)
    requires rest == [] || !IsDigit(rest[0])
    ensures ParseInt(body + rest) == Some(d)
  {
    var s := body + rest;
    assert s[0] == body[0] && IsDigit(body[0]);
    TrimStartKeeps(s);
    ParseDigitsOfDigits(body, rest);
  }

  /** The same after a minus sign, negated. */
  lemma ParseIntOfSignedDigitRun(body: string, rest: string, d: nat)
    requires |body| > 0 && AllDigits(body) && d == DigitsValue(body)
    requires rest == [] || !IsDigit(rest[0])
    ensures ParseInt("-" + body + rest) == Some(-(d as int))
  {
    ParseDigitsOfDigits(body, rest);
    ParseIntAfterMinus(body + rest, d);
    AppendAssociates("-", body, rest);
  }

  lemma AppendAssociates(a: string, b: string, c: string)
    ensures a + b + c == a + (b + c)
  {
  }

  lemma ParseIntAfterMinus(t: string, d: int)
    requires ParseDigits(t) == Some(d)
    ensures ParseInt("-" + t) == Some(-d)
  {
    var s := "-" + t;
    assert s[0] == '-' && s[1..] == t;
    TrimStartKeeps(s);
  }

  /** `parseInt("65abc")` is 65: the numeric prefix decides. */
  lemma ParseIntStopsAtNonDigit(n: int, rest: string)
    requires rest == [] || !IsDigit(rest[0])
    ensures ParseInt(IntToString(n) + rest) == Some(n)
  {
    ParseIntOfRendering(n, rest);
  }

  lemma {:induction false} TrimStartSkipsSpace(w: string, s: string)
    requires forall i | 0 <= i < |w| :: IsJsSpace(w[i])
    ensures TrimStart(w + s) == TrimStart(s)
    decreases |w|
  {
    if |w| > 0 {
      assert (w + s)[0] == w[0];
      assert (w + s)[1..] == w[1..] + s;
      TrimStartSkipsSpace(w[1..], s);
    } else {
      assert w + s == s;
    }
  }

  /** Leading white space never changes what parseInt returns. */
  lemma ParseIntSkipsSpace(w: string, s: string)
    requires forall i | 0 <= i < |w| :: IsJsSpace(w[i])
    ensures ParseInt(w + s) == ParseInt(s)
  {
    TrimStartSkipsSpace(w, s);
  }

  /** A string whose first non-space character is neither a digit nor a
      sign is NaN. */
  lemma ParseIntNaN(w: string, c: char, s: string)
    requires forall i | 0 <= i < |w| :: IsJsSpace(w[i])
    requires !IsJsSpace(c) && !IsDigit(c) && c != '-' && c != '+'
    ensures ParseInt(w + [c] + s) == None
  {
    assert w + [c] + s == w + ([c] + s);
    ParseIntSkipsSpace(w, [c] + s);
    TrimStartKeeps([c] + s);
    assert DigitPrefix([c] + s) == [];
  }
}
