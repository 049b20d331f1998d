/** `minifyHTML` of the HTML tool (src/components/html/HtmlTools.tsx): four
    global regular-expression rewrites applied in order. `\s` in an
    ECMAScript pattern is the WhiteSpace and LineTerminator set, the same set
    `JsText.IsJsSpace` describes. */
module HtmlMinify {
  import opened Outcomes
  import opened JsText

  /** No white space at all. */
  predicate NoSpace(s: string) {
    forall i | 0 <= i < |s| :: !IsJsSpace(s[i])
  }

  /** Every white-space character is a plain U+0020 space. */
  predicate SpacesArePlain(s: string) {
    forall i | 0 <= i < |s| :: IsJsSpace(s[i]) ==> s[i] == ' '
  }

  /** No two white-space characters side by side. */
  predicate NoSpaceRuns(s: string) {
    forall i | 0 <= i < |s| - 1 :: !(IsJsSpace(s[i]) && IsJsSpace(s[i + 1]))
  }

  /** The text with all white space deleted: what a rewrite that only
      touches white space must leave alone. */
  function Squeeze(s: string): string {
    if |s| == 0 then []
    else if IsJsSpace(s[0]) then Squeeze(s[1..])
    else [s[0]] + Squeeze(s[1..])
  }

  lemma {:induction false} SqueezeAppend(a: string, b: string)
    ensures Squeeze(a + b) == Squeeze(a) + Squeeze(b)
    decreases |a|
  {
    if |a| > 0 {
      assert (a + b)[1..] == a[1..] + b;
      SqueezeAppend(a[1..], b);
    } else {
      assert a + b == b;
    }
  }

  lemma {:induction false} SqueezeTrimStart(s: string)
    ensures Squeeze(TrimStart(s)) == Squeeze(s)
    decreases |s|
  {
    if |s| > 0 && IsJsSpace(s[0]) {
      SqueezeTrimStart(s[1..]);
    }
  }

  /** `replace(/\s+/g, ' ')`: each maximal run of white space becomes one
      space, and nothing but white space changes. */
  function CollapseSpaces(s: string): (r: string)
    ensures |r| <= |s|
    ensures SpacesArePlain(r) && NoSpaceRuns(r)
    ensures |s| > 0 ==> |r| > 0 && (IsJsSpace(r[0]) <==> IsJsSpace(s[0]))
    ensures NoSpace(s) ==> r == s
    decreases |s|
  {
    if |s| == 0 then []
    else if IsJsSpace(s[0]) then
      var rest := TrimStart(s[1..]);
      [' '] + CollapseSpaces(rest)
    else
      [s[0]] + CollapseSpaces(s[1..])
  }

  lemma NoSpaceRunsSuffix(s: string)
    requires |s| > 0 && NoSpaceRuns(s)
    ensures NoSpaceRuns(s[1..])
  {
    assert forall i | 0 <= i < |s| - 1 :: s[1..][i] == s[i + 1];
  }

  /** A character that is not white space is copied by the collapse. */
  lemma CollapseSpacesHead(c: char, t: string)
    requires !IsJsSpace(c)
    ensures CollapseSpaces([c] + t) == [c] + CollapseSpaces(t)
  {
    var s := [c] + t;
    assert s[0] == c && s[1..] == t;
  }

  /** A run of white space before a character that is not white space
      becomes one space. */
  lemma CollapseSpacesRun(w: string, t: string)
    requires |w| > 0 && forall i | 0 <= i < |w| :: IsJsSpace(w[i])
    requires |t| > 0 && !IsJsSpace(t[0])
    ensures CollapseSpaces(w + t) == [' '] + CollapseSpaces(t)
  {
    var s := w + t;
    assert s[0] == w[0] && s[1..] == w[1..] + t;
    assert forall i | 0 <= i < |w| - 1 :: w[1..][i] == w[i + 1];
    TrimStartSkipsSpace(w[1..], t);
    TrimStartKeeps(t);
    CollapseSpacesSpaceHead(s);
  }

  /** Two words with white space between them collapse to two words and
      one space. */
  lemma CollapseSpacesWordGap(a: char, w: string, b: char)
    requires !IsJsSpace(a) && !IsJsSpace(b)
    requires |w| > 0 && forall i | 0 <= i < |w| :: IsJsSpace(w[i])
    ensures CollapseSpaces([a] + (w + [b])) == [a, ' ', b]
  {
    CollapseSpacesHead(a, w + [b]);
    CollapseSpacesRun(w, [b]);
    CollapseSpacesSingle(b);
  }

  lemma CollapseSpacesSingle(b: char)
    requires !IsJsSpace(b)
    ensures CollapseSpaces([b]) == [b]
  {
    assert [b][1..] == [];
  }

  lemma CollapseSpacesSpaceHead(s: string)
    requires |s| > 0 && IsJsSpace(s[0])
    ensures CollapseSpaces(s) == [' '] + CollapseSpaces(TrimStart(s[1..]))
  {
  }

  /** Collapsing is the identity on text already collapsed, so collapsing
      twice is collapsing once. */
  lemma {:induction false} CollapseSpacesIdentity(s: string)
    requires SpacesArePlain(s) && NoSpaceRuns(s)
    ensures CollapseSpaces(s) == s
    decreases |s|
  {
    if |s| > 0 {
      PlainSpacesSuffix(s, 1);
      NoSpaceRunsSuffix(s);
      CollapseSpacesIdentity(s[1..]);
      CollapseSpacesCons(s);
    }
  }

  /** One step of `CollapseSpacesIdentity`: a head that does not start a
      white-space run of two or more is kept, and the collapsed tail follows
      unchanged. */
  lemma CollapseSpacesCons(s: string)
    requires |s| > 0 && CollapseSpaces(s[1..]) == s[1..]
    requires IsJsSpace(s[0]) ==> s[0] == ' ' && (|s| > 1 ==> !IsJsSpace(s[1]))
    ensures CollapseSpaces(s) == s
  {
    if IsJsSpace(s[0]) && |s| > 1 {
      TrimStartKeeps(s[1..]);
    }
    assert s == [s[0]] + s[1..];
  }

  lemma CollapseSpacesIdempotent(s: string)
    ensures CollapseSpaces(CollapseSpaces(s)) == CollapseSpaces(s)
  {
    CollapseSpacesIdentity(CollapseSpaces(s));
  }

  /** Collapsing changes white space and nothing else. */
  lemma {:induction false} CollapseSpacesKeepsText(s: string)
    ensures Squeeze(CollapseSpaces(s)) == Squeeze(s)
    decreases |s|
  {
    if |s| > 0 {
      assert s == [s[0]] + s[1..];
      SqueezeAppend([s[0]], s[1..]);
      if IsJsSpace(s[0]) {
        CollapseSpacesKeepsText(TrimStart(s[1..]));
        SqueezeTrimStart(s[1..]);
        SqueezeAppend([' '], CollapseSpaces(TrimStart(s[1..])));
      } else {
        CollapseSpacesKeepsText(s[1..]);
        SqueezeAppend([s[0]], CollapseSpaces(s[1..]));
      }
    }
  }

  /** Whether `t` starts with one or more white-space characters and then `<`. */
  predicate GapBeforeTag(t: string) {
    var w := TrimStart(t);
    |w| < |t| && |w| > 0 && w[0] == '<'
  }

  /** `replace(/>\s+</g, '><')`: scanning left to right, white space between
      a `>` and the next `<` is deleted; the scan resumes after that `<`. */
  function DropTagGaps(s: string): (r: string)
    ensures |r| <= |s|
    decreases |s|
  {
    if |s| == 0 then []
    else if s[0] == '>' && GapBeforeTag(s[1..]) then
      var w := TrimStart(s[1..]);
      "><" + DropTagGaps(w[1..])
    else
      [s[0]] + DropTagGaps(s[1..])
  }

  lemma PlainSpacesSuffix(s: string, k: nat)
    requires SpacesArePlain(s) && k <= |s|
    ensures SpacesArePlain(s[k..])
  {
    assert forall i | 0 <= i < |s| - k :: s[k..][i] == s[k + i];
  }

  lemma PlainSpacesAppend(a: string, b: string)
    requires SpacesArePlain(a) && SpacesArePlain(b)
    ensures SpacesArePlain(a + b)
  {
    assert forall i | |a| <= i < |a| + |b| :: (a + b)[i] == b[i - |a|];
  }

  /** The tag-gap rewrite only deletes, so plain spaces stay plain. */
  lemma {:induction false} DropTagGapsKeepsSpacesPlain(s: string)
    requires SpacesArePlain(s)
    ensures SpacesArePlain(DropTagGaps(s))
    decreases |s|
  {
    if |s| == 0 {
    } else if s[0] == '>' && GapBeforeTag(s[1..]) {
      var w := TrimStart(s[1..]);
      var u := w[1..];
      assert u == s[|s| - |u|..];
      PlainSpacesSuffix(s, |s| - |u|);
      DropTagGapsKeepsSpacesPlain(u);
      PlainSpacesAppend("><", DropTagGaps(u));
    } else {
      PlainSpacesSuffix(s, 1);
      DropTagGapsKeepsSpacesPlain(s[1..]);
      PlainSpacesAppend([s[0]], DropTagGaps(s[1..]));
    }
  }

  /** Where no `>` is followed by white space and then `<`, the tag-gap
      rewrite changes nothing. */
  lemma {:induction false} DropTagGapsUntouched(s: string)
    requires forall i | 0 <= i < |s| :: s[i] == '>' ==> !GapBeforeTag(s[i + 1..])
    ensures DropTagGaps(s) == s
    decreases |s|
  {
    if |s| > 0 {
      var t := s[1..];
      assert forall i | 0 <= i < |t| :: t[i] == s[i + 1] && t[i + 1..] == s[i + 2..];
      DropTagGapsUntouched(t);
    }
  }

  /** Without white space the tag-gap pattern never matches. */
  lemma {:induction false} DropTagGapsWithoutSpace(s: string)
    requires NoSpace(s)
    ensures DropTagGaps(s) == s
    decreases |s|
  {
    if |s| > 0 {
      assert forall i | 0 <= i < |s| - 1 :: s[1..][i] == s[i + 1];
      DropTagGapsWithoutSpace(s[1..]);
      DropTagGapsKeepsHead(s);
    }
  }

  /** A head not followed by white space is kept, and the rewritten tail
      follows it. */
  lemma DropTagGapsKeepsHead(s: string)
    requires |s| > 0 && (|s| > 1 ==> !IsJsSpace(s[1]))
    requires DropTagGaps(s[1..]) == s[1..]
    ensures DropTagGaps(s) == s
  {
    if |s| > 1 {
      TrimStartKeeps(s[1..]);
    }
    assert !GapBeforeTag(s[1..]);
    assert s == [s[0]] + s[1..];
  }

  lemma SqueezeCons(s: string)
    requires |s| > 0
    ensures Squeeze(s) == (if IsJsSpace(s[0]) then [] else [s[0]]) + Squeeze(s[1..])
  {
    if IsJsSpace(s[0]) {
      assert [] + Squeeze(s[1..]) == Squeeze(s[1..]);
    }
  }

  /** A head that does not start a gap is copied by the tag-gap rewrite. */
  lemma DropTagGapsHead(s: string)
    requires |s| > 0 && !(s[0] == '>' && GapBeforeTag(s[1..]))
    ensures DropTagGaps(s) == [s[0]] + DropTagGaps(s[1..])
  {
  }

  /** A gap starts at `i`: a `>` followed by white space and then `<`. */
  predicate GapAt(s: string, i: int) {
    0 <= i < |s| && s[i] == '>' && GapBeforeTag(s[i + 1..])
  }

  /** A prefix in which no gap starts passes through the tag-gap rewrite
      unchanged, and the rest is rewritten on its own. */
  lemma {:induction false} DropTagGapsPrefix(p: string, t: string)
    requires forall i | 0 <= i < |p| :: !GapAt(p + t, i)
    ensures DropTagGaps(p + t) == p + DropTagGaps(t)
    decreases |p|
  {
    if |p| == 0 {
      assert p + t == t;
    } else {
      var s := p + t;
      assert s[0] == p[0] && s[1..] == p[1..] + t;
      assert !GapAt(s, 0);
      DropTagGapsHead(s);
      forall i | 0 <= i < |p| - 1
        ensures !GapAt(p[1..] + t, i)
      {
        GapAtShift(s, i);
      }
      DropTagGapsPrefix(p[1..], t);
      ConsAppend(p, DropTagGaps(t));
    }
  }

  /** Dropping the head shifts every gap one place left. */
  lemma GapAtShift(s: string, i: int)
    requires |s| > 0 && 0 <= i
    ensures GapAt(s[1..], i) == GapAt(s, i + 1)
  {
    if i + 1 < |s| {
      assert s[1..][i + 1..] == s[i + 2..];
    }
  }

  /** A prefix without `>` starts no gap. */
  lemma NoGapWithoutClose(p: string, t: string)
    requires forall i | 0 <= i < |p| :: p[i] != '>'
    ensures forall i | 0 <= i < |p| :: !GapAt(p + t, i)
  {
    assert forall i | 0 <= i < |p| :: (p + t)[i] == p[i];
  }

  /** The tag-gap rewrite deletes white space and nothing else. */
  lemma {:induction false} DropTagGapsKeepsText(s: string)
    ensures Squeeze(DropTagGaps(s)) == Squeeze(s)
    decreases |s|
  {
    if |s| == 0 {
    } else if s[0] == '>' && GapBeforeTag(s[1..]) {
      var u := TrimStart(s[1..])[1..];
      DropTagGapsKeepsText(u);
      DropTagGapsAtGap(s, u);
      SqueezeAtGap(s, u);
      SqueezeTagPair(DropTagGaps(u));
    } else {
      DropTagGapsKeepsText(s[1..]);
      SqueezeCons(s);
      SqueezeAppend([s[0]], DropTagGaps(s[1..]));
    }
  }

  /** Where a gap follows the head, the rewrite emits `><` and resumes after
      the `<`. */
  lemma DropTagGapsAtGap(s: string, u: string)
    requires |s| > 0 && s[0] == '>' && GapBeforeTag(s[1..]) && u == TrimStart(s[1..])[1..]
    ensures DropTagGaps(s) == "><" + DropTagGaps(u)
  {
  }

  /** The tag-gap law anywhere in the text: after a prefix in which no gap
      starts, a `>` and a non-empty run of white space before `<` become
      `><`, and the rewrite resumes after that `<`. */
  lemma DropTagGapsRemovesGap(p: string, w: string, q: string)
    requires forall i | 0 <= i < |p| :: !GapAt(p + ">" + w + "<" + q, i)
    requires |w| > 0 && forall i | 0 <= i < |w| :: IsJsSpace(w[i])
    ensures DropTagGaps(p + ">" + w + "<" + q) == p + "><" + DropTagGaps(q)
  {
    var t := ">" + w + "<" + q;
    GapShape(p, w, q, t);
    DropTagGapsPrefix(p, t);
    GapAtFront(t, w, q);
    AppendAssociates(p, "><", DropTagGaps(q));
  }

  lemma GapShape(p: string, w: string, q: string, t: string)
    requires t == ">" + w + "<" + q
    ensures p + ">" + w + "<" + q == p + t
  {
  }

  /** The same, for a gap at the front. */
  lemma GapAtFront(t: string, w: string, q: string)
    requires t == ">" + w + "<" + q
    requires |w| > 0 && forall i | 0 <= i < |w| :: IsJsSpace(w[i])
    ensures DropTagGaps(t) == "><" + DropTagGaps(q)
  {
    var tag := "<" + q;
    assert t[0] == '>' && t[1..] == w + tag;
    TrimStartSkipsSpace(w, tag);
    TrimStartKeeps(tag);
    assert GapBeforeTag(t[1..]);
    assert tag[1..] == q;
    DropTagGapsAtGap(t, q);
  }

  /** The text of `>`, white space, `<`, then `u`. */
  lemma SqueezeAtGap(s: string, u: string)
    requires |s| > 0 && s[0] == '>' && GapBeforeTag(s[1..]) && u == TrimStart(s[1..])[1..]
    ensures Squeeze(s) == "><" + Squeeze(u)
  {
    var w := TrimStart(s[1..]);
    SqueezeTrimStart(s[1..]);
    SqueezeCons(w);
    SqueezeCons(s);
    assert [s[0]] + ([w[0]] + Squeeze(u)) == "><" + Squeeze(u);
  }

  lemma SqueezeTagPair(t: string)
    ensures Squeeze("><" + t) == "><" + Squeeze(t)
  {
    var s := "><" + t;
    SqueezeCons(s);
    assert s[1..] == "<" + t;
    SqueezeCons("<" + t);
    assert ("<" + t)[1..] == t;
    assert ">" + ("<" + Squeeze(t)) == "><" + Squeeze(t);
  }

  /** A comment opener `<!--` starts at `k`. */
  predicate OpenAt(s: string, k: int) {
    0 <= k && k + 4 <= |s| && s[k] == '<' && s[k + 1] == '!' && s[k + 2] == '-' && s[k + 3] == '-'
  }

  /** A comment closer `-->` starts at `k`. */
  predicate CloseAt(s: string, k: int) {
    0 <= k && k + 3 <= |s| && s[k] == '-' && s[k + 1] == '-' && s[k + 2] == '>'
  }

  /** The first closer at or after `from`. */
  function FirstClose(s: string, from: nat): (r: Option<nat>)
    ensures r.Some? ==> from <= r.value && CloseAt(s, r.value)
    ensures forall k | from <= k && (r.None? || k < r.value) :: !CloseAt(s, k)
    decreases |s| - from
  {
    if from + 3 > |s| then None
    else if CloseAt(s, from) then Some(from)
    else FirstClose(s, from + 1)
  }

  /** `replace(/<!--[\s\S]*?-->/g, '')`: scanning left to right, each `<!--`
      that has a `-->` after it is deleted up to and including the nearest
      such `-->` (the lazy `*?`); an opener with no closer after it stays. */
  function StripComments(s: string): (r: string)
    ensures |r| <= |s|
    ensures SpacesArePlain(s) ==> SpacesArePlain(r)
    ensures (forall k | 0 <= k < |s| :: !OpenAt(s, k)) ==> r == s
    decreases |s|
  {
    if |s| == 0 then []
    else if OpenAt(s, 0) && FirstClose(s, 4).Some? then
      StripComments(s[FirstClose(s, 4).value + 3..])
    else
      assert forall k | 0 <= k < |s[1..]| :: OpenAt(s[1..], k) ==> OpenAt(s, k + 1);
      [s[0]] + StripComments(s[1..])
  }

  /** The part of `s` left after the trailing white space. */
  function TrimEnd(s: string): (r: string)
    ensures |r| <= |s| && r == s[..|r|]
    ensures forall i | |r| <= i < |s| :: IsJsSpace(s[i])
    ensures |r| > 0 ==> !IsJsSpace(r[|r| - 1])
  {
    if |s| > 0 && IsJsSpace(s[|s| - 1]) then TrimEnd(s[..|s| - 1]) else s
  }

  /** `replace(/^\s+|\s+$/g, '')`: the leading and the trailing run of white
      space are deleted, and only they. */
  function Trim(s: string): (r: string)
    ensures |r| <= |s|
    ensures r == [] || (!IsJsSpace(r[0]) && !IsJsSpace(r[|r| - 1]))
    ensures SpacesArePlain(s) ==> SpacesArePlain(r)
    ensures NoSpace(s) ==> r == s
    ensures exists i :: CoreAt(s, r, i)
  {
    var t := TrimStart(s);
    var r := TrimEnd(t);
    TrimStartDropsSpace(s);
    TrimCore(s, t, r);
    r
  }

  /** `r` is the slice of `s` at `i`, with only white space around it. */
  predicate CoreAt(s: string, r: string, i: int) {
    && 0 <= i <= |s| - |r| && r == s[i..i + |r|]
    && (forall k | 0 <= k < i :: IsJsSpace(s[k]))
    && (forall k | i + |r| <= k < |s| :: IsJsSpace(s[k]))
  }

  /** Dropping white space at the front of `s` and then at the back
      leaves a slice of `s` with only white space around it. */
  lemma TrimCore(s: string, t: string, r: string)
    requires |t| <= |s| && t == s[|s| - |t|..]
    requires forall k | 0 <= k < |s| - |t| :: IsJsSpace(s[k])
    requires |r| <= |t| && r == t[..|r|]
    requires forall k | |r| <= k < |t| :: IsJsSpace(t[k])
    ensures CoreAt(s, r, |s| - |t|)
  {
    var i := |s| - |t|;
    assert r == s[i..i + |r|];
    forall k | i + |r| <= k < |s|
      ensures IsJsSpace(s[k])
    {
      assert s[k] == t[k - i];
    }
  }


  lemma {:induction false} SqueezeTrimEnd(s: string)
    ensures Squeeze(TrimEnd(s)) == Squeeze(s)
    decreases |s|
  {
    if |s| > 0 && IsJsSpace(s[|s| - 1]) {
      var p := s[..|s| - 1];
      SqueezeTrimEnd(p);
      assert s == p + [s[|s| - 1]];
      SqueezeAppend(p, [s[|s| - 1]]);
    }
  }

  /** Trimming deletes white space and nothing else. */
  lemma TrimKeepsText(s: string)
    ensures Squeeze(Trim(s)) == Squeeze(s)
  {
    SqueezeTrimStart(s);
    SqueezeTrimEnd(TrimStart(s));
  }

  /** `minifyHTML`: the four rewrites in their source order. */
  function Minify(html: string): (r: string)
    ensures |r| <= |html|
    ensures r == [] || (!IsJsSpace(r[0]) && !IsJsSpace(r[|r| - 1]))
    ensures SpacesArePlain(r)
  {
    var collapsed := CollapseSpaces(html);
    DropTagGapsKeepsSpacesPlain(collapsed);
    var stripped := StripComments(DropTagGaps(collapsed));
    assert SpacesArePlain(stripped);
    Trim(stripped)
  }

  /** Text with no white space and no comment opener is left as it is. */
  lemma MinifyUntouched(html: string)
    requires NoSpace(html)
    requires forall k | 0 <= k < |html| :: !OpenAt(html, k)
    ensures Minify(html) == html
  {
    DropTagGapsWithoutSpace(html);
  }

  /** The comment rewrite is lazy: an opener at the front deletes through
      the nearest closer after it and no further. */
  lemma CommentEndsAtNearestClose(s: string, j: nat)
    requires OpenAt(s, 0) && 4 <= j && CloseAt(s, j)
    requires forall k | 4 <= k < j :: !CloseAt(s, k)
    ensures StripComments(s) == StripComments(s[j + 3..])
  {
    assert FirstClose(s, 4) == Some(j);
  }

  /** A prefix in which no comment opener starts passes through comment
      removal unchanged, and the rest of the text is rewritten on its own. */
  lemma {:induction false} StripCommentsPrefix(p: string, s: string)
    requires forall k | 0 <= k < |p| :: !OpenAt(p + s, k)
    ensures StripComments(p + s) == p + StripComments(s)
    decreases |p|
  {
    if |p| > 0 {
      var t := p + s;
      assert t[0] == p[0] && t[1..] == p[1..] + s;
      StripCommentsHead(t);
      forall k | 0 <= k < |p| - 1
        ensures !OpenAt(p[1..] + s, k)
      {
        OpenAtShift(t, k);
      }
      StripCommentsPrefix(p[1..], s);
      ConsAppend(p, StripComments(s));
    } else {
      assert p + s == s;
    }
  }

  /** A head that starts no comment is copied by comment removal. */
  lemma StripCommentsHead(t: string)
    requires |t| > 0 && !OpenAt(t, 0)
    ensures StripComments(t) == [t[0]] + StripComments(t[1..])
  {
  }

  /** Dropping the head shifts every opener one place left. */
  lemma OpenAtShift(t: string, k: int)
    requires |t| > 0 && 0 <= k
    ensures OpenAt(t[1..], k) == OpenAt(t, k + 1)
  {
  }

  lemma ConsAppend(p: string, u: string)
    requires |p| > 0
    ensures [p[0]] + (p[1..] + u) == p + u
  {
    assert [p[0]] + p[1..] == p;
  }

  /** The comment law of the lazy rewrite anywhere in the text: after a
      prefix in which no opener starts, a comment `<!--c-->` whose body
      holds no earlier `-->` is deleted, and the rewrite resumes right
      after it. */
  lemma StripCommentsOfComment(p: string, c: string, q: string)
    requires forall k | 0 <= k < |p| :: !OpenAt(p + "<!--" + c + "-->" + q, k)
    requires forall k | 4 <= k < |c| + 4 :: !CloseAt("<!--" + c + "-->", k)
    ensures StripComments(p + "<!--" + c + "-->" + q) == p + StripComments(q)
  {
    var t := "<!--" + c + "-->";
    CommentShape(p, c, q, t);
    StripCommentsPrefix(p, t + q);
    CommentAtFront(t, c, q);
  }

  lemma CommentShape(p: string, c: string, q: string, t: string)
    requires t == "<!--" + c + "-->"
    ensures p + "<!--" + c + "-->" + q == p + (t + q)
  {
  }

  /** The same, for a comment at the front. */
  lemma CommentAtFront(t: string, c: string, q: string)
    requires t == "<!--" + c + "-->"
    requires forall k | 4 <= k < |c| + 4 :: !CloseAt(t, k)
    ensures StripComments(t + q) == StripComments(q)
  {
    var rest := t + q;
    var j := |c| + 4;
    forall k | 4 <= k < j
      ensures !CloseAt(rest, k)
    {
      CloseInPrefix(t, q, k);
    }
    CloseInPrefix(t, q, j);
    assert CloseAt(t, j) by {
      assert t[j] == '-' && t[j + 1] == '-' && t[j + 2] == '>';
    }
    assert OpenAt(rest, 0) by {
      assert rest[..4] == t[..4] == "<!--";
    }
    CommentEndsAtNearestClose(rest, j);
    assert rest[j + 3..] == q;
  }

  /** A closer that fits inside a prefix is seen the same in the whole. */
  lemma CloseInPrefix(t: string, q: string, k: int)
    requires 0 <= k && k + 3 <= |t|
    ensures CloseAt(t + q, k) == CloseAt(t, k)
  {
    assert (t + q)[k] == t[k] && (t + q)[k + 1] == t[k + 1] && (t + q)[k + 2] == t[k + 2];
  }


  /** An opener with no closer anywhere after it is kept as text. */
  lemma UnclosedCommentStays(s: string)
    requires OpenAt(s, 0)
    requires forall k | 4 <= k :: !CloseAt(s, k)
    ensures StripComments(s) == [s[0]] + StripComments(s[1..])
  {
    assert FirstClose(s, 4).None?;
  }
}
