/** `btoa` and `atob` as the HTML standard defines them: `btoa` encodes a
    string whose characters are all at most U+00FF, one byte per character,
    in the base 64 encoding of section 4 of RFC 4648 (alphabet of Table 1,
    `=` padding); `atob` runs the forgiving-base64 decode of the WHATWG
    Infra standard and reads every decoded byte back as one character. */
module Base64Codec {
  import opened Outcomes

  /** Every character fits in one byte. */
  predicate IsLatin1(s: string) {
    forall i | 0 <= i < |s| :: s[i] as int <= 0xFF
  }

  /** The ASCII whitespace of the Infra standard: TAB, LF, FF, CR, SPACE. */
  predicate IsAsciiWhitespace(c: char) {
    c == '\t' || c == '\n' || c == '\U{000C}' || c == '\r' || c == ' '
  }

  /** The 64 characters of Table 1 of RFC 4648. */
  predicate IsBase64Char(c: char) {
    ('A' <= c <= 'Z') || ('a' <= c <= 'z') || ('0' <= c <= '9') || c == '+' || c == '/'
  }

  predicate AllBase64(s: string) {
    forall i | 0 <= i < |s| :: IsBase64Char(s[i])
  }

  /** Table 1 of RFC 4648: the character that encodes the 6-bit value `v`. */
  function Digit(v: int): (c: char)
    requires 0 <= v < 64
    ensures IsBase64Char(c)
  {
    if v < 26 then ('A' as int + v) as char
    else if v < 52 then ('a' as int + (v - 26)) as char
    else if v < 62 then ('0' as int + (v - 52)) as char
    else if v == 62 then '+'
    else '/'
  }

  /** The 6-bit value a character of the alphabet stands for. */
  function Sextet(c: char): (v: int)
    requires IsBase64Char(c)
    ensures 0 <= v < 64
  {
    if 'A' <= c <= 'Z' then c as int - 'A' as int
    else if 'a' <= c <= 'z' then c as int - 'a' as int + 26
    else if '0' <= c <= '9' then c as int - '0' as int + 52
    else if c == '+' then 62
    else 63
  }

  lemma SextetOfDigit(v: int)
    requires 0 <= v < 64
    ensures Sextet(Digit(v)) == v
  {
  }

  // Encoding.

  /** The digits of one group of one to three bytes: its bits, filled with
      zero bits to a whole number of 6-bit groups. */
  function Digits(g: string): (r: string)
    requires 1 <= |g| <= 3 && IsLatin1(g)
    ensures |r| == |g| + 1 && AllBase64(r)
  {
    var a := g[0] as int;
    var b := if |g| > 1 then g[1] as int else 0;
    var c := if |g| > 2 then g[2] as int else 0;
    var all := [Digit(a / 4), Digit(a % 4 * 16 + b / 16), Digit(b % 16 * 4 + c / 64), Digit(c % 64)];
    all[..|g| + 1]
  }

  lemma Latin1Slice(s: string, i: nat, j: nat)
    requires IsLatin1(s) && i <= j <= |s|
    ensures IsLatin1(s[i..j])
  {
    assert forall k | 0 <= k < j - i :: s[i..j][k] == s[i + k];
  }

  /** The encoding without its padding, group by group. */
  function EncodeDigits(s: string): string
    requires IsLatin1(s)
    decreases |s|
  {
    if |s| == 0 then []
    else if |s| <= 3 then Digits(s)
    else
      Latin1Slice(s, 0, 3);
      Latin1Slice(s, 3, |s|);
      Digits(s[..3]) + EncodeDigits(s[3..])
  }

  /** `=` characters bringing an encoding of `n` bytes to a multiple of
      four characters. */
  function Padding(n: nat): (r: string)
    ensures |r| == PadCount(n)
    ensures forall i | 0 <= i < |r| :: r[i] == '='
  {
    if n % 3 == 1 then "==" else if n % 3 == 2 then "=" else ""
  }

  /** How many `=` complete the last group of `n` bytes. */
  function PadCount(n: nat): nat {
    if n % 3 == 0 then 0 else 3 - n % 3
  }

  function Encode(s: string): string
    requires IsLatin1(s)
  {
    EncodeDigits(s) + Padding(|s|)
  }

  /** `btoa`: a character above U+00FF throws (`None`). */
  function Btoa(s: string): (r: Option<string>)
    ensures r.Some? <==> IsLatin1(s)
    ensures r.Some? ==> r.value == Encode(s)
  {
    if IsLatin1(s) then Some(Encode(s)) else None
  }

  // Decoding.

  /** The ASCII whitespace removed, everything else in order. */
  function RemoveAsciiWhitespace(s: string): (r: string)
    ensures |r| <= |s|
    ensures forall i | 0 <= i < |r| :: !IsAsciiWhitespace(r[i])
    ensures forall c | !IsAsciiWhitespace(c) :: multiset(r)[c] == multiset(s)[c]
    decreases |s|
  {
    if |s| == 0 then []
    else
      var rest := RemoveAsciiWhitespace(s[1..]);
      HeadSplit(s);
      if IsAsciiWhitespace(s[0]) then rest else [s[0]] + rest
  }

  /** A non-empty text is its first character followed by the rest. */
  lemma HeadSplit(s: string)
    requires |s| > 0
    ensures multiset(s) == multiset{s[0]} + multiset(s[1..])
  {
    assert s == [s[0]] + s[1..];
  }

  /** Whitespace removal distributes over concatenation. */
  lemma {:induction false} RemoveAsciiWhitespaceAppend(a: string, b: string)
    ensures RemoveAsciiWhitespace(a + b) == RemoveAsciiWhitespace(a) + RemoveAsciiWhitespace(b)
    decreases |a|
  {
    if |a| > 0 {
      assert (a + b)[0] == a[0] && (a + b)[1..] == a[1..] + b;
      RemoveAsciiWhitespaceAppend(a[1..], b);
    } else {
      assert a + b == b;
    }
  }

  /** One or two trailing `=` removed. */
  function StripPadding(d: string): (r: string)
    ensures |d| - 2 <= |r| <= |d|
    ensures r == d[..|r|]
    ensures forall i | |r| <= i < |d| :: d[i] == '='
    ensures |d| - |r| < 2 ==> r == [] || r[|r| - 1] != '='
  {
    if |d| >= 2 && d[|d| - 2] == '=' && d[|d| - 1] == '=' then d[..|d| - 2]
    else if |d| >= 1 && d[|d| - 1] == '=' then d[..|d| - 1]
    else d
  }

  /** The bytes of one group of two to four characters: 12, 18 or 24 bits,
      of which the last 4 or 2 are discarded when they do not make a byte. */
  function Bytes(d: string): (r: string)
    requires 2 <= |d| <= 4 && AllBase64(d)
    ensures |r| == |d| - 1 && IsLatin1(r)
  {
    var b0 := (Sextet(d[0]) * 4 + Sextet(d[1]) / 16) as char;
    if |d| == 2 then [b0]
    else
      var b1 := (Sextet(d[1]) % 16 * 16 + Sextet(d[2]) / 4) as char;
      if |d| == 3 then [b0, b1]
      else [b0, b1, (Sextet(d[2]) % 4 * 64 + Sextet(d[3])) as char]
  }

  lemma AllBase64Slice(d: string, i: nat, j: nat)
    requires AllBase64(d) && i <= j <= |d|
    ensures AllBase64(d[i..j])
  {
    assert forall k | 0 <= k < j - i :: d[i..j][k] == d[i + k];
  }

  /** The bytes of a run of alphabet characters, four characters to three
      bytes; a final group of one character cannot occur. */
  function DecodeDigits(d: string): string
    requires AllBase64(d) && |d| % 4 != 1
    decreases |d|
  {
    if |d| == 0 then []
    else if |d| <= 4 then Bytes(d)
    else
      AllBase64Slice(d, 0, 4);
      AllBase64Slice(d, 4, |d|);
      Bytes(d[..4]) + DecodeDigits(d[4..])
  }

  /** The text the decoder works on: whitespace removed, then the padding
      when the length is a multiple of four. */
  function Unpadded(s: string): string {
    var d := RemoveAsciiWhitespace(s);
    if |d| % 4 == 0 then StripPadding(d) else d
  }

  /** `atob`: forgiving-base64 decode; failure throws (`None`). */
  function Atob(s: string): Option<string> {
    var e := Unpadded(s);
    if |e| % 4 == 1 || !AllBase64(e) then None
    else Some(DecodeDigits(e))
  }

  // The shape of an encoding and of a decoding.

  lemma {:induction false} EncodeDigitsShape(s: string)
    requires IsLatin1(s)
    ensures AllBase64(EncodeDigits(s))
    ensures |EncodeDigits(s)| == 4 * (|s| / 3) + (if |s| % 3 == 0 then 0 else |s| % 3 + 1)
    ensures |EncodeDigits(s)| % 4 == (if |s| % 3 == 0 then 0 else |s| % 3 + 1)
    decreases |s|
  {
    if |s| > 3 {
      Latin1Slice(s, 0, 3);
      Latin1Slice(s, 3, |s|);
      EncodeDigitsShape(s[3..]);
      AllBase64Append(Digits(s[..3]), EncodeDigits(s[3..]));
    }
    var r := if |s| % 3 == 0 then 0 else |s| % 3 + 1;
    ModOfGroups(|s| / 3, r, |EncodeDigits(s)|);
  }

  /** Whole groups of four leave the remainder alone. */
  lemma ModOfGroups(q: int, r: int, m: int)
    requires m == 4 * q + r && 0 <= r < 4
    ensures m % 4 == r
  {
  }

  lemma AllBase64Append(x: string, y: string)
    requires AllBase64(x) && AllBase64(y)
    ensures AllBase64(x + y)
  {
    assert forall i | |x| <= i < |x| + |y| :: (x + y)[i] == y[i - |x|];
  }

  /** Every decoded character is a byte, three for each four characters. */
  lemma {:induction false} DecodeDigitsShape(d: string)
    requires AllBase64(d) && |d| % 4 != 1
    ensures IsLatin1(DecodeDigits(d))
    ensures |DecodeDigits(d)| == |d| * 3 / 4
    decreases |d|
  {
    if |d| > 4 {
      AllBase64Slice(d, 0, 4);
      AllBase64Slice(d, 4, |d|);
      DecodeDigitsShape(d[4..]);
      var x, y := Bytes(d[..4]), DecodeDigits(d[4..]);
      assert forall i | |x| <= i < |x| + |y| :: (x + y)[i] == y[i - |x|];
    }
  }

  /** Four characters for every started group of three bytes. */
  lemma EncodeLength(s: string)
    requires IsLatin1(s)
    ensures |Encode(s)| == 4 * ((|s| + 2) / 3)
    ensures |Encode(s)| % 4 == 0
  {
    EncodeDigitsShape(s);
    assert |Encode(s)| == |EncodeDigits(s)| + |Padding(|s|)|;
    PaddedLength(|s|, |EncodeDigits(s)|, |Padding(|s|)|);
  }

  /** The digits and the padding of `n` bytes fill whole groups of four. */
  lemma PaddedLength(n: nat, d: int, p: int)
    requires d == 4 * (n / 3) + (if n % 3 == 0 then 0 else n % 3 + 1)
    requires p == PadCount(n)
    ensures d + p == 4 * ((n + 2) / 3) && (d + p) % 4 == 0
  {
    var q, r := n / 3, n % 3;
    assert n == 3 * q + r;
    if r == 0 {
      assert (n + 2) / 3 == q;
    } else {
      assert (n + 2) / 3 == q + 1;
    }
    FourTimes((n + 2) / 3, d + p);
  }

  lemma FourTimes(k: int, m: int)
    requires m == 4 * k
    ensures m % 4 == 0
  {
  }

  /** An encoding is alphabet characters followed by at most two `=`, and
      the number of `=` is fixed by the byte count. */
  lemma EncodeShape(s: string)
    requires IsLatin1(s)
    ensures var e := Encode(s); var n := PadCount(|s|);
      && |e| == 4 * ((|s| + 2) / 3)
      && (forall i | 0 <= i < |e| - n :: IsBase64Char(e[i]))
      && (forall i | |e| - n <= i < |e| :: e[i] == '=')
  {
    EncodeLength(s);
    EncodeDigitsShape(s);
    var e := Encode(s);
    var d := EncodeDigits(s);
    assert forall i | 0 <= i < |d| :: e[i] == d[i];
    assert forall i | |d| <= i < |e| :: e[i] == Padding(|s|)[i - |d|];
  }

  /** What `atob` decodes is bytes: three for every four characters that
      remain once whitespace and padding are gone. */
  lemma AtobShape(s: string)
    requires Atob(s).Some?
    ensures IsLatin1(Atob(s).value)
    ensures |Atob(s).value| == |Unpadded(s)| * 3 / 4
  {
    DecodeDigitsShape(Unpadded(s));
  }

  // Encoding, then decoding.

  /** A character of one byte is the character of its code. */
  lemma CharOfCode(c: char)
    requires c as int <= 0xFF
    ensures (c as int) as char == c
  {
  }

  /** The 6-bit values of the digits of bytes `a b c`. */
  function Sextets(a: int, b: int, c: int): (v: seq<int>)
    requires 0 <= a < 256 && 0 <= b < 256 && 0 <= c < 256
    ensures |v| == 4 && forall i | 0 <= i < 4 :: 0 <= v[i] < 64
  {
    [a / 4, a % 4 * 16 + b / 16, b % 16 * 4 + c / 64, c % 64]
  }

  lemma QuotientRemainder16(x: int, q: int, r: int)
    requires x == 16 * q + r && 0 <= r < 16
    ensures x / 16 == q && x % 16 == r
  {
  }

  lemma QuotientRemainder4(x: int, q: int, r: int)
    requires x == 4 * q + r && 0 <= r < 4
    ensures x / 4 == q && x % 4 == r
  {
  }

  /** The three bytes are the bits of the four 6-bit values, read in
      order. */
  lemma BitsReadBack(a: int, b: int, c: int)
    requires 0 <= a < 256 && 0 <= b < 256 && 0 <= c < 256
    ensures var v := Sextets(a, b, c);
      && v[0] * 4 + v[1] / 16 == a
      && v[1] % 16 * 16 + v[2] / 4 == b
      && v[2] % 4 * 64 + v[3] == c
  {
    var v := Sextets(a, b, c);
    QuotientRemainder16(v[1], a % 4, b / 16);
    QuotientRemainder4(v[2], b % 16, c / 64);
  }

  /** The digits of a group stand for the 6-bit values of its bytes, a
      missing byte counting as zero. */
  lemma DigitsStandFor(g: string, a: int, b: int, c: int)
    requires 1 <= |g| <= 3 && IsLatin1(g)
    requires a == g[0] as int
    requires b == (if |g| > 1 then g[1] as int else 0)
    requires c == (if |g| > 2 then g[2] as int else 0)
    ensures 0 <= a < 256 && 0 <= b < 256 && 0 <= c < 256
    ensures forall i | 0 <= i <= |g| :: Sextet(Digits(g)[i]) == Sextets(a, b, c)[i]
  {
    var v := Sextets(a, b, c);
    SextetOfDigit(v[0]);
    SextetOfDigit(v[1]);
    SextetOfDigit(v[2]);
    SextetOfDigit(v[3]);
  }

  /** One group of bytes comes back from its digits. */
  lemma GroupReadsBack(g: string)
    requires 1 <= |g| <= 3 && IsLatin1(g)
    ensures Bytes(Digits(g)) == g
  {
    var a := g[0] as int;
    var b := if |g| > 1 then g[1] as int else 0;
    var c := if |g| > 2 then g[2] as int else 0;
    DigitsStandFor(g, a, b, c);
    BitsReadBack(a, b, c);
    BytesOfValues(Digits(g), g, Sextets(a, b, c));
  }

  /** Bytes whose codes match the bit reading of a group's values are the
      group's decoding. */
  lemma BytesOfValues(d: string, g: string, v: seq<int>)
    requires 2 <= |d| <= 4 && AllBase64(d) && |g| == |d| - 1 && IsLatin1(g) && |v| == 4
    requires forall i | 0 <= i < |d| :: Sextet(d[i]) == v[i]
    requires v[0] * 4 + v[1] / 16 == g[0] as int
    requires |g| > 1 ==> v[1] % 16 * 16 + v[2] / 4 == g[1] as int
    requires |g| > 2 ==> v[2] % 4 * 64 + v[3] == g[2] as int
    ensures Bytes(d) == g
  {
    CharOfCode(g[0]);
    if |g| > 1 {
      CharOfCode(g[1]);
    }
    if |g| > 2 {
      CharOfCode(g[2]);
    }
  }

  /** A whole group of four characters decodes on its own. */
  lemma DecodeDigitsAppend(x: string, y: string)
    requires |x| == 4 && AllBase64(x) && AllBase64(y) && |y| % 4 != 1
    ensures AllBase64(x + y) && |x + y| % 4 != 1
    ensures DecodeDigits(x + y) == Bytes(x) + DecodeDigits(y)
  {
    AllBase64Append(x, y);
    var d := x + y;
    assert d[..4] == x && d[4..] == y;
    if |y| == 0 {
      assert d == x;
    }
  }

  /** Decoding the digits of the encoding gives back the bytes. */
  lemma {:induction false} DecodeEncodeDigits(s: string)
    requires IsLatin1(s)
    ensures AllBase64(EncodeDigits(s)) && |EncodeDigits(s)| % 4 != 1
    ensures DecodeDigits(EncodeDigits(s)) == s
    decreases |s|
  {
    EncodeDigitsShape(s);
    if 1 <= |s| <= 3 {
      GroupReadsBack(s);
    } else if |s| > 3 {
      Latin1Slice(s, 0, 3);
      Latin1Slice(s, 3, |s|);
      DecodeEncodeDigits(s[3..]);
      var x, y := Digits(s[..3]), EncodeDigits(s[3..]);
      assert EncodeDigits(s) == x + y;
      DecodeDigitsAppend(x, y);
      GroupReadsBack(s[..3]);
      assert s == s[..3] + s[3..];
    }
  }

  /** Nothing in an encoding is ASCII whitespace. */
  lemma {:induction false} NoWhitespaceKept(d: string)
    requires forall i | 0 <= i < |d| :: !IsAsciiWhitespace(d[i])
    ensures RemoveAsciiWhitespace(d) == d
    decreases |d|
  {
    if |d| > 0 {
      assert forall i | 0 <= i < |d| - 1 :: d[1..][i] == d[i + 1];
      NoWhitespaceKept(d[1..]);
      assert d == [d[0]] + d[1..];
    }
  }

  /** The padding `btoa` adds is exactly what the decoder strips. */
  lemma StripEncodedPadding(s: string)
    requires IsLatin1(s)
    ensures StripPadding(Encode(s)) == EncodeDigits(s)
  {
    EncodeDigitsShape(s);
    var digits := EncodeDigits(s);
    var e := Encode(s);
    var pad := Padding(|s|);
    assert e[..|digits|] == digits;
    if |pad| == 0 {
      assert e == digits;
      if |e| > 0 {
        assert e[|e| - 1] == digits[|digits| - 1];
      }
    } else if |pad| == 1 {
      assert |digits| >= 2 && e[|e| - 2] == digits[|digits| - 1];
    }
  }

  /** Round trip: `atob(btoa(s)) == s` for every string `btoa` accepts. */
  lemma AtobBtoa(s: string)
    requires IsLatin1(s)
    ensures Atob(Encode(s)) == Some(s)
  {
    var e := Encode(s);
    EncodeShape(s);
    EncodeLength(s);
    NoWhitespaceKept(e);
    StripEncodedPadding(s);
    DecodeEncodeDigits(s);
  }

  /** The forgiving decoder accepts the encoding without its padding too. */
  lemma AtobUnpadded(s: string)
    requires IsLatin1(s)
    ensures Atob(EncodeDigits(s)) == Some(s)
  {
    DecodeEncodeDigits(s);
    UnpaddedOfDigits(EncodeDigits(s));
  }

  /** A run of alphabet characters has neither whitespace nor padding to
      remove. */
  lemma UnpaddedOfDigits(d: string)
    requires AllBase64(d)
    ensures Unpadded(d) == d
  {
    NoWhitespaceKept(d);
    if |d| > 0 {
      assert IsBase64Char(d[|d| - 1]);
    }
  }

  // Rejected input.

  lemma {:induction false} WhitespaceRemovalKeeps(s: string, c: char)
    requires c in s && !IsAsciiWhitespace(c)
    ensures c in RemoveAsciiWhitespace(s)
    decreases |s|
  {
    if s[0] != c {
      assert c in s[1..];
      WhitespaceRemovalKeeps(s[1..], c);
    }
  }

  /** A character that is neither in the alphabet, nor ASCII whitespace,
      nor `=` makes `atob` throw. */
  lemma AtobRejectsForeign(s: string, c: char)
    requires c in s && !IsBase64Char(c) && !IsAsciiWhitespace(c) && c != '='
    ensures Atob(s) == None
  {
    var d := RemoveAsciiWhitespace(s);
    WhitespaceRemovalKeeps(s, c);
    var e := Unpadded(s);
    var i :| 0 <= i < |d| && d[i] == c;
    assert i < |e|;
    assert e[i] == c;
  }

  /** After removing whitespace, a length of one more than a multiple of
      four makes `atob` throw. */
  lemma AtobRejectsLength(s: string)
    requires |RemoveAsciiWhitespace(s)| % 4 == 1
    ensures Atob(s) == None
  {
  }

  /** A `=` anywhere but in the last two places makes `atob` throw. */
  lemma AtobRejectsInnerPadding(s: string, i: int)
    requires var d := RemoveAsciiWhitespace(s); 0 <= i < |d| - 2 && d[i] == '='
    ensures Atob(s) == None
  {
    var e := Unpadded(s);
    assert i < |e| && e[i] == '=';
  }

  /** Whitespace anywhere is ignored. */
  lemma AtobIgnoresWhitespace(s: string)
    ensures Atob(s) == Atob(RemoveAsciiWhitespace(s))
  {
    NoWhitespaceKept(RemoveAsciiWhitespace(s));
  }

  // Test vectors from section 10 of RFC 4648.

  lemma VectorF()
    ensures Btoa("f") == Some("Zg==")
  {
    assert IsLatin1("f");
    assert EncodeDigits("f") == "Zg" by {
      assert Digit(25) == 'Z' && Digit(32) == 'g';
      DigitsOfSingle("f", 102, 'Z', 'g');
      EncodeDigitsOneGroup("f");
    }
    BtoaOfDigits("f", "Zg", "==");
    assert "Zg" + "==" == "Zg==";
  }

  lemma VectorFo()
    ensures Btoa("fo") == Some("Zm8=")
  {
    assert IsLatin1("fo");
    assert Sextets(102, 111, 0) == [25, 38, 60, 0];
    DigitsOfPair("fo", 102, 111, [25, 38, 60, 0]);
    assert Digit(25) == 'Z' && Digit(38) == 'm' && Digit(60) == '8';
    EncodeDigitsOneGroup("fo");
    BtoaOfDigits("fo", "Zm8", "=");
    assert "Zm8" + "=" == "Zm8=";
  }

  /** The encoding assembled from its digits and its padding. */
  lemma BtoaOfDigits(s: string, digits: string, pad: string)
    requires IsLatin1(s) && EncodeDigits(s) == digits
    requires pad == (if |s| % 3 == 1 then "==" else if |s| % 3 == 2 then "=" else "")
    ensures Btoa(s) == Some(digits + pad)
  {
  }

  /** The digits of a whole group of three bytes, by their values. */
  lemma DigitsOfGroup(g: string, a: int, b: int, c: int, v: seq<int>)
    requires |g| == 3 && IsLatin1(g)
    requires a == g[0] as int && b == g[1] as int && c == g[2] as int
    requires 0 <= a < 256 && 0 <= b < 256 && 0 <= c < 256 && v == Sextets(a, b, c)
    ensures Digits(g) == [Digit(v[0]), Digit(v[1]), Digit(v[2]), Digit(v[3])]
  {
  }

  /** The digits of a group of one byte, by its value. */
  lemma DigitsOfSingle(g: string, a: int, x: char, y: char)
    requires |g| == 1 && IsLatin1(g) && a == g[0] as int && 0 <= a < 256
    requires x == Digit(a / 4) && y == Digit(a % 4 * 16)
    ensures Digits(g) == [x, y]
  {
  }

  /** The digits of a group of two bytes, by their values. */
  lemma DigitsOfPair(g: string, a: int, b: int, v: seq<int>)
    requires |g| == 2 && IsLatin1(g)
    requires a == g[0] as int && b == g[1] as int
    requires 0 <= a < 256 && 0 <= b < 256 && v == Sextets(a, b, 0)
    ensures Digits(g) == [Digit(v[0]), Digit(v[1]), Digit(v[2])]
  {
  }

  lemma DigitsFoo()
    ensures IsLatin1("foo") && Digits("foo") == "Zm9v"
  {
    assert IsLatin1("foo");
    assert Sextets(102, 111, 111) == [25, 38, 61, 47];
    DigitsOfGroup("foo", 102, 111, 111, [25, 38, 61, 47]);
    assert Digit(25) == 'Z' && Digit(38) == 'm' && Digit(61) == '9' && Digit(47) == 'v';
  }

  lemma DigitsBar()
    ensures IsLatin1("bar") && Digits("bar") == "YmFy"
  {
    assert IsLatin1("bar");
    assert Sextets(98, 97, 114) == [24, 38, 5, 50];
    DigitsOfGroup("bar", 98, 97, 114, [24, 38, 5, 50]);
    assert Digit(24) == 'Y' && Digit(38) == 'm' && Digit(5) == 'F' && Digit(50) == 'y';
  }

  lemma VectorFoo()
    ensures Btoa("foo") == Some("Zm9v")
  {
    DigitsFoo();
    EncodeDigitsOneGroup("foo");
    BtoaOfWholeGroups("foo", "Zm9v");
  }

  /** Two groups, as `foo` and `bar` encode on their own. */
  lemma VectorFoobar(s: string)
    requires s == "foo" + "bar"
    ensures Btoa(s) == Some("Zm9v" + "YmFy")
  {
    DigitsFoo();
    DigitsBar();
    EncodeDigitsAppend("foo", "bar");
    EncodeDigitsOneGroup("bar");
    BtoaOfWholeGroups(s, "Zm9v" + "YmFy");
  }

  lemma EncodeDigitsOneGroup(g: string)
    requires 1 <= |g| <= 3 && IsLatin1(g)
    ensures EncodeDigits(g) == Digits(g)
  {
  }

  /** Whole groups need no padding. */
  lemma BtoaOfWholeGroups(s: string, digits: string)
    requires IsLatin1(s) && |s| % 3 == 0 && EncodeDigits(s) == digits
    ensures Btoa(s) == Some(digits)
  {
    assert Padding(|s|) == "";
    assert Encode(s) == digits + "";
    assert digits + "" == digits;
  }

  /** A whole first group encodes on its own. */
  lemma EncodeDigitsAppend(x: string, y: string)
    requires |x| == 3 && IsLatin1(x) && IsLatin1(y)
    ensures IsLatin1(x + y)
    ensures EncodeDigits(x + y) == Digits(x) + EncodeDigits(y)
  {
    var s := x + y;
    assert forall i | |x| <= i < |s| :: s[i] == y[i - |x|];
    assert s[..3] == x && s[3..] == y;
    if |y| == 0 {
      assert s == x;
    }
  }

  /** `btoa` rejects a character above U+00FF. */
  lemma BtoaRejectsWide()
    ensures Btoa("€") == None
  {
    assert "€"[0] as int > 0xFF;
  }
}
