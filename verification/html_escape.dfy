/** The escaping the HTML widget applies to its output before handing it to
    the highlighter: five global `String.prototype.replace` passes, `&`
    first, then `<`, `>`, `"` and `'`, each replaced by its character
    reference. Also the inverse the escaping was designed for. */
module HtmlEscape {

  /** `s.replace(/pat/g, rep)` for a pattern without regular-expression
      metacharacters: scanning from the left, every occurrence of `pat`
      that does not overlap an earlier one is replaced by `rep`. */
  function ReplaceAll(s: string, pat: string, rep: string): (r: string)
    requires |pat| > 0
    ensures |s| == 0 ==> r == []
    decreases |s|
  {
    if |s| == 0 then []
    else if pat <= s then rep + ReplaceAll(s[|pat|..], pat, rep)
    else [s[0]] + ReplaceAll(s[1..], pat, rep)
  }

  /** The five passes of the escaping effect, in source order. */
  function Escape(s: string): string {
    var amp := ReplaceAll(s, "&", "&amp;");
    var lt := ReplaceAll(amp, "<", "&lt;");
    var gt := ReplaceAll(lt, ">", "&gt;");
    var quot := ReplaceAll(gt, "\"", "&quot;");
    ReplaceAll(quot, "'", "&#039;")
  }

  /** Undoing the escaping: the four references for markup characters
      first, `&amp;` last, so that a `&amp;lt;` comes back as `&lt;`. */
  function Unescape(s: string): string {
    var lt := ReplaceAll(s, "&lt;", "<");
    var gt := ReplaceAll(lt, "&gt;", ">");
    var quot := ReplaceAll(gt, "&quot;", "\"");
    var apos := ReplaceAll(quot, "&#039;", "'");
    ReplaceAll(apos, "&amp;", "&")
  }

  predicate IsSpecial(c: char) {
    c == '&' || c == '<' || c == '>' || c == '"' || c == '\''
  }

  /** The characters the highlighter's markup must not see. */
  predicate IsMarkup(c: char) {
    c == '<' || c == '>' || c == '"' || c == '\''
  }

  predicate NoSpecial(s: string) {
    forall i | 0 <= i < |s| :: !IsSpecial(s[i])
  }

  /** The character reference for one character; other characters stand
      for themselves. */
  function EntityOf(c: char): (r: string)
    ensures |r| > 0
    ensures IsSpecial(c) <==> |r| > 1
  {
    if c == '&' then "&amp;"
    else if c == '<' then "&lt;"
    else if c == '>' then "&gt;"
    else if c == '"' then "&quot;"
    else if c == '\'' then "&#039;"
    else [c]
  }

  /** Reference escaper: every character replaced by its reference at
      once, with no pass able to see another pass's output. */
  function EscapeEach(s: string): (r: string)
    decreases |s|
  {
    if |s| == 0 then [] else EntityOf(s[0]) + EscapeEach(s[1..])
  }

  /** Position of a character's pass in `Escape` (0 for characters no pass
      touches). */
  function EscapePass(c: char): int {
    if c == '&' then 1
    else if c == '<' then 2
    else if c == '>' then 3
    else if c == '"' then 4
    else if c == '\'' then 5
    else 0
  }

  /** Position of a character's pass in `Unescape`. */
  function UnescapePass(c: char): int {
    if c == '<' then 1
    else if c == '>' then 2
    else if c == '"' then 3
    else if c == '\'' then 4
    else if c == '&' then 5
    else 0
  }

  /** How character `c` of the original text reads after the first `k`
      passes of `Escape` (when `forward`) or of `Unescape` applied to
      `EscapeEach` (otherwise). */
  function Token(c: char, forward: bool, k: int): string {
    if forward then (if 1 <= EscapePass(c) <= k then EntityOf(c) else [c])
    else (if UnescapePass(c) > k then EntityOf(c) else [c])
  }

  function Staged(s: string, forward: bool, k: int): string
    decreases |s|
  {
    if |s| == 0 then [] else Token(s[0], forward, k) + Staged(s[1..], forward, k)
  }

  /** Pass `k` of `Escape` looks for this one-character pattern. */
  function EscapePattern(k: int): string
    requires 1 <= k <= 5
  {
    if k == 1 then "&" else if k == 2 then "<" else if k == 3 then ">" else if k == 4 then "\"" else "'"
  }

  /** Pass `k` of `Unescape` looks for this reference. */
  function UnescapePattern(k: int): string
    requires 1 <= k <= 5
  {
    if k == 1 then "&lt;" else if k == 2 then "&gt;" else if k == 3 then "&quot;" else if k == 4 then "&#039;" else "&amp;"
  }

  // Replacing within a concatenation.

  /** A pattern at the front is replaced. */
  lemma ReplaceAllMatches(rest: string, pat: string, rep: string)
    requires |pat| > 0
    ensures ReplaceAll(pat + rest, pat, rep) == rep + ReplaceAll(rest, pat, rep)
  {
    var s := pat + rest;
    assert pat <= s;
    assert s[|pat|..] == rest;
  }

  /** A prefix without the pattern's first character is copied unchanged. */
  lemma {:induction false} ReplaceAllSkips(u: string, rest: string, pat: string, rep: string)
    requires |pat| > 0
    requires forall i | 0 <= i < |u| :: u[i] != pat[0]
    ensures ReplaceAll(u + rest, pat, rep) == u + ReplaceAll(rest, pat, rep)
    decreases |u|
  {
    if |u| > 0 {
      var s := u + rest;
      assert s[0] == u[0] && s[1..] == u[1..] + rest;
      assert !(pat <= s);
      ReplaceAllSkips(u[1..], rest, pat, rep);
      assert u == [u[0]] + u[1..];
    } else {
      assert u + rest == rest;
    }
  }

  /** A reference that differs from the pattern in its second character is
      copied unchanged; only its leading `&` can start a match. */
  lemma ReplaceAllSkipsEntity(t: string, rest: string, pat: string, rep: string)
    requires |t| > 1 && |pat| > 1 && t[0] == '&' && t[1] != pat[1]
    requires forall i | 1 <= i < |t| :: t[i] != pat[0]
    ensures ReplaceAll(t + rest, pat, rep) == t + ReplaceAll(rest, pat, rep)
  {
    var s := t + rest;
    assert s[1] == t[1];
    assert !(pat <= s);
    assert s[1..] == t[1..] + rest;
    ReplaceAllSkips(t[1..], rest, pat, rep);
    assert t == [t[0]] + t[1..];
  }

  // Escaping, pass by pass.

  /** One pass of `Escape` turns stage `k - 1` into stage `k`. */
  lemma {:induction false} EscapeStep(s: string, k: int)
    requires 1 <= k <= 5
    ensures ReplaceAll(Staged(s, true, k - 1), EscapePattern(k), EntityOf(EscapePattern(k)[0]))
         == Staged(s, true, k)
    decreases |s|
  {
    var pat := EscapePattern(k);
    var rep := EntityOf(pat[0]);
    if |s| > 0 {
      var c := s[0];
      var rest := Staged(s[1..], true, k - 1);
      assert Staged(s, true, k - 1) == Token(c, true, k - 1) + rest;
      EscapeStep(s[1..], k);
      if EscapePass(c) == k {
        assert Token(c, true, k - 1) == pat;
        ReplaceAllMatches(rest, pat, rep);
      } else if 1 <= EscapePass(c) < k {
        EntityWithoutMarkup(c);
        ReplaceAllSkips(Token(c, true, k - 1), rest, pat, rep);
      } else {
        ReplaceAllSkips(Token(c, true, k - 1), rest, pat, rep);
      }
    }
  }

  /** A reference holds no markup character. */
  lemma EntityWithoutMarkup(c: char)
    requires IsSpecial(c)
    ensures forall i | 0 <= i < |EntityOf(c)| :: !IsMarkup(EntityOf(c)[i])
    ensures forall i | 1 <= i < |EntityOf(c)| :: EntityOf(c)[i] != '&'
  {
  }

  lemma {:induction false} StagedFirst(s: string)
    ensures Staged(s, true, 0) == s
    decreases |s|
  {
    if |s| > 0 {
      StagedFirst(s[1..]);
      assert s == [s[0]] + s[1..];
    }
  }

  lemma {:induction false} StagedEscaped(s: string)
    ensures Staged(s, true, 5) == EscapeEach(s)
    ensures Staged(s, false, 0) == EscapeEach(s)
    decreases |s|
  {
    if |s| > 0 {
      StagedEscaped(s[1..]);
    }
  }

  lemma {:induction false} StagedLast(s: string)
    ensures Staged(s, false, 5) == s
    decreases |s|
  {
    if |s| > 0 {
      StagedLast(s[1..]);
      assert s == [s[0]] + s[1..];
    }
  }

  /** The five sequential passes agree with escaping every character at
      once: because `&` goes first, no pass rewrites a reference an earlier
      pass produced. */
  lemma EscapeIsPerCharacter(s: string)
    ensures Escape(s) == EscapeEach(s)
  {
    StagedFirst(s);
    var amp := EscapePassAt(s, 1, s, "&", "&amp;");
    var lt := EscapePassAt(s, 2, amp, "<", "&lt;");
    var gt := EscapePassAt(s, 3, lt, ">", "&gt;");
    var quot := EscapePassAt(s, 4, gt, "\"", "&quot;");
    var apos := EscapePassAt(s, 5, quot, "'", "&#039;");
    StagedEscaped(s);
  }

  /** `EscapeStep` with the pass's pattern and reference spelled out. */
  lemma EscapePassAt(s: string, k: int, before: string, pat: string, rep: string) returns (after: string)
    requires 1 <= k <= 5 && before == Staged(s, true, k - 1)
    requires pat == EscapePattern(k) && rep == EntityOf(pat[0])
    ensures after == ReplaceAll(before, pat, rep) == Staged(s, true, k)
  {
    EscapeStep(s, k);
    after := ReplaceAll(before, pat, rep);
  }

  // Unescaping, pass by pass.

  /** One pass of `Unescape` turns stage `k - 1` into stage `k`. */
  lemma {:induction false} UnescapeStep(s: string, k: int)
    requires 1 <= k <= 5
    ensures ReplaceAll(Staged(s, false, k - 1), UnescapePattern(k), [UnescapeTarget(k)])
         == Staged(s, false, k)
    decreases |s|
  {
    var pat := UnescapePattern(k);
    var rep := [UnescapeTarget(k)];
    if |s| > 0 {
      var c := s[0];
      var rest := Staged(s[1..], false, k - 1);
      assert Staged(s, false, k - 1) == Token(c, false, k - 1) + rest;
      UnescapeStep(s[1..], k);
      if UnescapePass(c) == k {
        assert Token(c, false, k - 1) == pat;
        ReplaceAllMatches(rest, pat, rep);
      } else if UnescapePass(c) > k {
        EntityWithoutMarkup(c);
        ReplaceAllSkipsEntity(Token(c, false, k - 1), rest, pat, rep);
      } else {
        ReplaceAllSkips(Token(c, false, k - 1), rest, pat, rep);
      }
    }
  }

  /** The character pass `k` of `Unescape` restores. */
  function UnescapeTarget(k: int): (c: char)
    requires 1 <= k <= 5
    ensures UnescapePass(c) == k && EntityOf(c) == UnescapePattern(k)
  {
    if k == 1 then '<' else if k == 2 then '>' else if k == 3 then '"' else if k == 4 then '\'' else '&'
  }

  /** Reversibility: unescaping the markup references and then `&amp;`
      gives back exactly the text that was escaped. */
  lemma UnescapeEscape(s: string)
    ensures Unescape(Escape(s)) == s
  {
    EscapeIsPerCharacter(s);
    StagedEscaped(s);
    var lt := UnescapePassAt(s, 1, Escape(s), "&lt;", "<");
    var gt := UnescapePassAt(s, 2, lt, "&gt;", ">");
    var quot := UnescapePassAt(s, 3, gt, "&quot;", "\"");
    var apos := UnescapePassAt(s, 4, quot, "&#039;", "'");
    var amp := UnescapePassAt(s, 5, apos, "&amp;", "&");
    StagedLast(s);
  }

  /** `UnescapeStep` with the pass's reference and character spelled out. */
  lemma UnescapePassAt(s: string, k: int, before: string, pat: string, rep: string) returns (after: string)
    requires 1 <= k <= 5 && before == Staged(s, false, k - 1)
    requires pat == UnescapePattern(k) && rep == [UnescapeTarget(k)]
    ensures after == ReplaceAll(before, pat, rep) == Staged(s, false, k)
  {
    UnescapeStep(s, k);
    after := ReplaceAll(before, pat, rep);
  }

  // What the escaped text looks like.

  /** Escaping never shortens, and lengthens exactly when there is
      something to escape; it leaves no markup character behind. */
  lemma {:induction false} EscapeEachShape(s: string)
    ensures |EscapeEach(s)| >= |s|
    ensures |EscapeEach(s)| == |s| <==> NoSpecial(s)
    ensures NoSpecial(s) ==> EscapeEach(s) == s
    ensures forall i | 0 <= i < |EscapeEach(s)| :: !IsMarkup(EscapeEach(s)[i])
    decreases |s|
  {
    if |s| > 0 {
      EscapeEachShape(s[1..]);
      var head := EntityOf(s[0]);
      var tail := EscapeEach(s[1..]);
      if IsSpecial(s[0]) {
        EntityWithoutMarkup(s[0]);
      }
      assert forall i | 0 <= i < |head| + |tail| :: (head + tail)[i] == if i < |head| then head[i] else tail[i - |head|];
      assert NoSpecial(s) <==> !IsSpecial(s[0]) && NoSpecial(s[1..]) by {
        assert forall i | 1 <= i < |s| :: s[i] == s[1..][i - 1];
      }
      if NoSpecial(s) {
        assert s == [s[0]] + s[1..];
      }
    }
  }

  /** The escaped output contains none of `<`, `>`, `"` and `'`. */
  lemma EscapeRemovesMarkup(s: string)
    ensures forall i | 0 <= i < |Escape(s)| :: !IsMarkup(Escape(s)[i])
  {
    EscapeIsPerCharacter(s);
    EscapeEachShape(s);
  }

  /** Escaping changes a text exactly when it holds one of the five
      characters. */
  lemma EscapeIdentity(s: string)
    ensures Escape(s) == s <==> NoSpecial(s)
  {
    EscapeIsPerCharacter(s);
    EscapeEachShape(s);
  }
}
