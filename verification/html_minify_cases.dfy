/** Worked cases of `minifyHTML` over symbolic characters: the lazy comment
    rule, a comment inside an element, the gap between two tags, and the
    double space a deleted comment leaves behind. */
module HtmlMinifyCases {
  import opened JsText
  import opened HtmlMinify

  /** `<!--a-->b-->`: the comment stops at the first `-->`. */
  lemma LazyCommentExample()
    ensures StripComments("<!--a-->b-->") == "b-->"
  {
    var s := "<!--a-->b-->";
    CommentEndsAtNearestClose(s, 5);
    assert s[8..] == "b-->";
    assert StripComments("-->") == "-->";
    assert StripComments(">") == ">";
  }

  /** `<p><!--x--></p>`: a comment inside an element goes, the tags stay. */
  lemma CommentInsideElement(x: char)
    requires x != '-'
    ensures StripComments("<p><!--" + [x] + "--></p>") == "<p></p>"
  {
    var p, q := "<p>", "</p>";
    CommentInsideShape(p, x, q);
    StripCommentsOfComment(p, [x], q);
    assert forall k | 0 <= k < |q| :: !OpenAt(q, k);
  }

  lemma CommentInsideShape(p: string, x: char, q: string)
    requires p == "<p>" && q == "</p>"
    ensures p + "<!--" + [x] + "-->" + q == "<p><!--" + [x] + "--></p>"
    ensures p + q == "<p></p>"
    ensures forall k | 0 <= k < |p| :: !OpenAt(p + "<!--" + [x] + "-->" + q, k)
    ensures forall k | 4 <= k < 5 :: !CloseAt("<!--" + [x] + "-->", k)
  {
  }

  /** `<a> <b>`: two tags with a space between them. */
  function TwoTags(a: char, b: char): string {
    ['<', a, '>', ' ', '<', b, '>']
  }

  /** The gap between two tags goes: `<a> <b>` minifies to `<a><b>`. */
  lemma MinifyDropsTagGap(a: char, b: char)
    requires !IsJsSpace(a) && !IsJsSpace(b) && a != '>'
    ensures Minify(TwoTags(a, b)) == ['<', a, '>', '<', b, '>']
  {
    var s, r := TwoTags(a, b), ['<', a, '>', '<', b, '>'];
    TwoTagsCollapsed(a, b);
    TagGapDropped(a, b);
    TagsUntouched(a, b, r);
    MinifyOfTagGaps(s, r);
  }

  lemma TwoTagsCollapsed(a: char, b: char)
    requires !IsJsSpace(a) && !IsJsSpace(b)
    ensures CollapseSpaces(TwoTags(a, b)) == TwoTags(a, b)
  {
    var s := TwoTags(a, b);
    assert SpacesArePlain(s) && NoSpaceRuns(s);
    CollapseSpacesIdentity(s);
  }

  lemma TagsUntouched(a: char, b: char, r: string)
    requires !IsJsSpace(a) && !IsJsSpace(b) && r == ['<', a, '>', '<', b, '>']
    ensures NoSpace(r) && forall k | 0 <= k < |r| :: !OpenAt(r, k)
  {
  }

  /** Text already collapsed, whose tag-gap rewrite leaves neither white
      space nor a comment opener, minifies to that rewrite. */
  lemma MinifyOfTagGaps(s: string, r: string)
    requires CollapseSpaces(s) == s && DropTagGaps(s) == r
    requires NoSpace(r) && forall k | 0 <= k < |r| :: !OpenAt(r, k)
    ensures Minify(s) == r
  {
    assert StripComments(r) == r;
    assert Trim(r) == r;
  }

  lemma TagGapDropped(a: char, b: char)
    requires !IsJsSpace(b) && a != '>'
    ensures DropTagGaps(TwoTags(a, b)) == ['<', a, '>', '<', b, '>']
  {
    var p, w, q := ['<', a], [' '], [b, '>'];
    assert TwoTags(a, b) == p + ">" + w + "<" + q;
    NoGapWithoutClose(p, ">" + w + "<" + q);
    assert p + (">" + w + "<" + q) == p + ">" + w + "<" + q;
    DropTagGapsRemovesGap(p, w, q);
    assert NoSpace(q);
    DropTagGapsWithoutSpace(q);
    assert p + "><" + q == ['<', a, '>', '<', b, '>'];
  }

  /** `x <!----> y`: two words with an empty comment between them. */
  function Commented(a: char, b: char): string {
    [a, ' ', '<', '!', '-', '-', '-', '-', '>', ' ', b]
  }

  lemma CollapseDoubleSpace(a: char, b: char)
    requires !IsJsSpace(a) && !IsJsSpace(b)
    ensures CollapseSpaces([a, ' ', ' ', b]) == [a, ' ', b]
  {
    DoubleSpaceShape(a, b);
    CollapseSpacesWordGap(a, [' ', ' '], b);
  }

  lemma DoubleSpaceShape(a: char, b: char)
    ensures [a] + ([' ', ' '] + [b]) == [a, ' ', ' ', b]
  {
  }

  lemma StripCommented(a: char, b: char)
    requires a != '<' && !IsJsSpace(b)
    ensures StripComments(Commented(a, b)) == [a, ' ', ' ', b]
  {
    var s := Commented(a, b);
    var c := s[2..];
    assert OpenAt(c, 0) && CloseAt(c, 4);
    CommentEndsAtNearestClose(c, 4);
    assert c[7..] == [' ', b];
    assert StripComments([b]) == [b];
    assert StripComments([' ', b]) == [' ', b];
    assert s[1..][1..] == c;
    assert StripComments(s[1..]) == [' '] + StripComments(c);
  }

  lemma CollapseCommented(a: char, b: char)
    requires !IsJsSpace(a) && !IsJsSpace(b)
    ensures CollapseSpaces(Commented(a, b)) == Commented(a, b)
  {
    var s := Commented(a, b);
    assert SpacesArePlain(s) && NoSpaceRuns(s);
    CollapseSpacesIdentity(s);
  }

  /** A `>` followed by a space and a character other than `<` is no gap. */
  lemma DropTagGapsCloseSpace(b: char)
    requires !IsJsSpace(b) && b != '<'
    ensures DropTagGaps(['>', ' ', b]) == ['>', ' ', b]
  {
    assert [b][1..] == [];
    assert DropTagGaps([b]) == [b];
    NoGapWithoutClose([' '], [b]);
    DropTagGapsPrefix([' '], [b]);
    var t := [' ', b];
    assert t == [' '] + [b];
    TrimStartSkipsSpace([' '], [b]);
    TrimStartKeeps([b]);
    assert !GapBeforeTag(t);
    var s := ['>', ' ', b];
    assert s[0] == '>' && s[1..] == t;
    DropTagGapsHead(s);
  }

  lemma DropTagGapsCommented(a: char, b: char)
    requires !IsJsSpace(b) && a != '>' && b != '<'
    ensures DropTagGaps(Commented(a, b)) == Commented(a, b)
  {
    var p := [a, ' ', '<', '!', '-', '-', '-', '-'];
    var t := ['>', ' ', b];
    assert Commented(a, b) == p + t;
    NoGapWithoutClose(p, t);
    DropTagGapsPrefix(p, t);
    DropTagGapsCloseSpace(b);
  }

  lemma WordsShape(a: char, b: char, middle: string)
    ensures [a] + middle + [b] == [a] + (middle + [b])
    ensures middle == [' '] ==> [a] + middle + [b] == [a, ' ', b]
    ensures middle == [' ', ' '] ==> [a] + middle + [b] == [a, ' ', ' ', b]
  {
  }

  lemma TrimWords(a: char, b: char, middle: string)
    requires !IsJsSpace(a) && !IsJsSpace(b)
    ensures Trim([a] + middle + [b]) == [a] + middle + [b]
  {
    var t := [a] + middle + [b];
    TrimStartKeeps(t);
  }

  /** Deleting a comment after the spaces were collapsed leaves the two
      spaces around it side by side. */
  lemma MinifyKeepsSpacesAroundComment(a: char, b: char)
    requires !IsJsSpace(a) && !IsJsSpace(b) && a != '<' && a != '>' && b != '<'
    ensures Minify(Commented(a, b)) == [a, ' ', ' ', b]
  {
    CollapseCommented(a, b);
    DropTagGapsCommented(a, b);
    StripCommented(a, b);
    TrimWords(a, b, [' ', ' ']);
    WordsShape(a, b, [' ', ' ']);
  }

  lemma DropTagGapsWords(a: char, b: char)
    requires a != '>'
    ensures DropTagGaps([a, ' ', b]) == [a, ' ', b]
  {
    var s := [a, ' ', b];
    var t := s[1..];
    var u := t[1..];
    assert t == [' ', b] && u == [b] && u[1..] == [];
    assert !GapBeforeTag(u[1..]);
    DropTagGapsHead(u);
    DropTagGapsHead(t);
    DropTagGapsHead(s);
  }

  /** A second pass collapses the double space. */
  lemma MinifyDoubleSpace(a: char, b: char)
    requires !IsJsSpace(a) && !IsJsSpace(b) && a != '>'
    ensures Minify([a, ' ', ' ', b]) == [a, ' ', b]
  {
    var t := [a, ' ', b];
    CollapseDoubleSpace(a, b);
    DropTagGapsWords(a, b);
    assert StripComments(t) == t;
    TrimWords(a, b, [' ']);
    WordsShape(a, b, [' ']);
  }

  /** `minifyHTML` is not idempotent: a second pass collapses the double
      space the first one left where a comment was. */
  lemma MinifyNotIdempotent(a: char, b: char)
    requires !IsJsSpace(a) && !IsJsSpace(b) && a != '<' && a != '>' && b != '<'
    ensures Minify(Minify(Commented(a, b))) == [a, ' ', b]
    ensures Minify(Minify(Commented(a, b))) != Minify(Commented(a, b))
  {
    MinifyKeepsSpacesAroundComment(a, b);
    MinifyDoubleSpace(a, b);
  }
}
