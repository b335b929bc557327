/** The HTML page's minifier: three string rewrites applied in turn,
    `.replace(/>\s+</g, '><')`, `.replace(/\s{2,}/g, ' ')` and `.trim()`.
    Each `replace` scans left to right and resumes after the text it
    replaced, which the recursive definitions below follow. */
module HtmlMinify {
  import opened Text
  import opened PageState

  /** `t` opens with one or more whitespace characters and then `<`: what
      may follow a `>` in a match of `>\s+<`. */
  predicate GapBeforeTag(t: string)
  {
    var w := LeadingRun(t, IsWhitespace);
    w >= 1 && w < |t| && t[w] == '<'
  }

  /** No `>` is followed by whitespace and then `<`. */
  predicate NoGapBetweenTags(s: string)
  {
    forall i :: 0 <= i < |s| && s[i] == '>' ==> !GapBeforeTag(s[i + 1..])
  }

  /** No two adjacent characters are both whitespace. */
  predicate NoDoubleWhitespace(s: string)
  {
    forall i :: 0 < i < |s| ==> !(IsWhitespace(s[i - 1]) && IsWhitespace(s[i]))
  }

  /** `.replace(/>\s+</g, '><')`: whitespace between a `>` and a `<` goes. */
  function StripTagGaps(s: string): (r: string)
    ensures |r| <= |s|
    ensures |s| > 0 ==> |r| > 0 && r[0] == s[0]
    decreases |s|
  {
    if |s| == 0 then ""
    else if s[0] == '>' && GapBeforeTag(s[1..]) then
      "><" + StripTagGaps(s[2 + LeadingRun(s[1..], IsWhitespace)..])
    else [s[0]] + StripTagGaps(s[1..])
  }

  /** `.replace(/\s{2,}/g, ' ')`: a run of two or more whitespace characters
      becomes one space; a single whitespace character stays as it is. */
  function CollapseRuns(s: string): (r: string)
    ensures |r| <= |s|
    ensures |s| > 0 && !IsWhitespace(s[0]) ==> |r| > 0 && r[0] == s[0]
    ensures |s| > 0 && IsWhitespace(s[0]) ==> |r| > 0 && IsWhitespace(r[0])
    decreases |s|
  {
    if |s| == 0 then ""
    else if LeadingRun(s, IsWhitespace) >= 2 then " " + CollapseRuns(s[LeadingRun(s, IsWhitespace)..])
    else [s[0]] + CollapseRuns(s[1..])
  }

  /** The minified text of the page's `handleMinify`: no whitespace at
      either end, no two adjacent whitespace characters, no whitespace
      between `>` and `<`, no longer than the input, and the input's
      non-whitespace characters in the same order. */
  function Minify(s: string): (r: string)
    ensures |r| > 0 ==> !IsWhitespace(r[0]) && !IsWhitespace(r[|r| - 1])
    ensures NoDoubleWhitespace(r)
    ensures NoGapBetweenTags(r)
    ensures |r| <= |s|
    ensures RemoveWhitespace(r) == RemoveWhitespace(s)
  {
    PipelineShape(s);
    PipelineKeepsText(s);
    Trim(CollapseRuns(StripTagGaps(s)))
  }

  // ---- Facts about prefixing one character ----

  lemma LeadingRunCons(c: char, u: string)
    ensures LeadingRun([c] + u, IsWhitespace)
              == if IsWhitespace(c) then 1 + LeadingRun(u, IsWhitespace) else 0
  {
    assert ([c] + u)[1..] == u;
  }

  /** Whether whitespace then `<` opens `[c] + u`. */
  lemma GapBeforeTagCons(c: char, u: string)
    ensures GapBeforeTag([c] + u) <==>
              IsWhitespace(c) && (GapBeforeTag(u) || (|u| > 0 && u[0] == '<'))
  {
    LeadingRunCons(c, u);
    var w := LeadingRun(u, IsWhitespace);
    if IsWhitespace(c) && w < |u| {
      assert ([c] + u)[1 + w] == u[w];
    }
  }

  lemma NoGapBetweenTagsCons(c: char, u: string)
    ensures NoGapBetweenTags([c] + u) <==>
              (c == '>' ==> !GapBeforeTag(u)) && NoGapBetweenTags(u)
  {
    var s := [c] + u;
    assert s[1..] == u;
    if NoGapBetweenTags(s) {
      forall i | 0 <= i < |u| && u[i] == '>'
        ensures !GapBeforeTag(u[i + 1..])
      {
        assert s[i + 1] == '>' && s[i + 2..] == u[i + 1..];
      }
      assert s[0] == c;
    }
    if (c == '>' ==> !GapBeforeTag(u)) && NoGapBetweenTags(u) {
      forall i | 0 <= i < |s| && s[i] == '>'
        ensures !GapBeforeTag(s[i + 1..])
      {
        if i > 0 {
          assert u[i - 1] == '>' && s[i + 1..] == u[i..];
        }
      }
    }
  }

  lemma NoDoubleWhitespaceTail(c: char, u: string)
    requires NoDoubleWhitespace([c] + u)
    ensures |u| > 0 ==> !(IsWhitespace(c) && IsWhitespace(u[0]))
    ensures NoDoubleWhitespace(u)
  {
    var s := [c] + u;
    forall i | 0 < i < |u|
      ensures !(IsWhitespace(u[i - 1]) && IsWhitespace(u[i]))
    {
      assert s[i] == u[i - 1] && s[i + 1] == u[i];
    }
    if |u| > 0 {
      assert s[0] == c && s[1] == u[0];
    }
  }

  lemma NoDoubleWhitespacePrepend(c: char, u: string)
    requires |u| > 0 ==> !(IsWhitespace(c) && IsWhitespace(u[0]))
    requires NoDoubleWhitespace(u)
    ensures NoDoubleWhitespace([c] + u)
  {
    var s := [c] + u;
    forall i | 0 < i < |s|
      ensures !(IsWhitespace(s[i - 1]) && IsWhitespace(s[i]))
    {
      if i == 1 {
        assert s[0] == c && s[1] == u[0];
      } else {
        assert s[i - 1] == u[i - 2] && s[i] == u[i - 1];
      }
    }
  }

  lemma NoDoubleWhitespaceCons(c: char, u: string)
    ensures NoDoubleWhitespace([c] + u) <==>
              (|u| > 0 ==> !(IsWhitespace(c) && IsWhitespace(u[0]))) && NoDoubleWhitespace(u)
  {
    if NoDoubleWhitespace([c] + u) {
      NoDoubleWhitespaceTail(c, u);
    }
    if (|u| > 0 ==> !(IsWhitespace(c) && IsWhitespace(u[0]))) && NoDoubleWhitespace(u) {
      NoDoubleWhitespacePrepend(c, u);
    }
  }

  // ---- Step one: removing whitespace between tags ----

  /** The whitespace run that opens the text, and the character after it,
      come through the first step unchanged. */
  lemma {:induction false} StripTagGapsHead(t: string)
    ensures GapBeforeTag(StripTagGaps(t)) <==> GapBeforeTag(t)
    ensures LeadingRun(StripTagGaps(t), IsWhitespace) == LeadingRun(t, IsWhitespace)
    ensures var w := LeadingRun(t, IsWhitespace);
            w < |t| ==> w < |StripTagGaps(t)| && StripTagGaps(t)[w] == t[w]
    decreases |t|
  {
    if |t| > 0 && IsWhitespace(t[0]) {
      var u := t[1..];
      StripTagGapsHead(u);
      assert StripTagGaps(t) == [t[0]] + StripTagGaps(u);
      LeadingRunCons(t[0], StripTagGaps(u));
      LeadingRunCons(t[0], u);
      assert t == [t[0]] + u;
      GapBeforeTagCons(t[0], u);
      GapBeforeTagCons(t[0], StripTagGaps(u));
    }
  }

  /** The `><` that replaces a match leaves no gap of its own. */
  lemma TagPairNoGap(rest: string)
    requires NoGapBetweenTags(rest)
    ensures NoGapBetweenTags("><" + rest)
  {
    assert "><" + rest == ['>'] + (['<'] + rest);
    NoGapBetweenTagsCons('<', rest);
    LeadingRunCons('<', rest);
    assert !GapBeforeTag(['<'] + rest);
    NoGapBetweenTagsCons('>', ['<'] + rest);
  }

  /** After the first step no `>` is followed by whitespace and then `<`. */
  lemma {:induction false} StripTagGapsNoGap(s: string)
    ensures NoGapBetweenTags(StripTagGaps(s))
    decreases |s|
  {
    if |s| > 0 {
      if s[0] == '>' && GapBeforeTag(s[1..]) {
        var tail := s[2 + LeadingRun(s[1..], IsWhitespace)..];
        assert StripTagGaps(s) == "><" + StripTagGaps(tail);
        StripTagGapsNoGap(tail);
        TagPairNoGap(StripTagGaps(tail));
      } else {
        assert StripTagGaps(s) == [s[0]] + StripTagGaps(s[1..]);
        StripTagGapsNoGap(s[1..]);
        StripTagGapsHead(s[1..]);
        NoGapBetweenTagsCons(s[0], StripTagGaps(s[1..]));
      }
    }
  }

  /** The first step removes whitespace only. */
  lemma {:induction false} StripTagGapsKeepsText(s: string)
    ensures RemoveWhitespace(StripTagGaps(s)) == RemoveWhitespace(s)
    decreases |s|
  {
    if |s| > 0 {
      if s[0] == '>' && GapBeforeTag(s[1..]) {
        var w := LeadingRun(s[1..], IsWhitespace);
        var rest := s[2 + w..];
        StripTagGapsKeepsText(rest);
        assert "><" + StripTagGaps(rest) == ['>'] + (['<'] + StripTagGaps(rest));
        assert (['>'] + (['<'] + StripTagGaps(rest)))[1..] == ['<'] + StripTagGaps(rest);
        assert (['<'] + StripTagGaps(rest))[1..] == StripTagGaps(rest);
        RemoveWhitespaceSkip(s[1..], w);
        assert s[1..][w..] == ['<'] + rest;
        assert (['<'] + rest)[1..] == rest;
      } else {
        StripTagGapsKeepsText(s[1..]);
        assert ([s[0]] + StripTagGaps(s[1..]))[1..] == StripTagGaps(s[1..]);
      }
    }
  }

  // ---- Step two: collapsing whitespace runs ----

  lemma CollapseRunsHead(t: string)
    ensures GapBeforeTag(CollapseRuns(t)) <==> GapBeforeTag(t)
  {
    var k := LeadingRun(t, IsWhitespace);
    if k >= 1 {
      var rest := if k >= 2 then t[k..] else t[1..];
      var c := if k >= 2 then ' ' else t[0];
      assert CollapseRuns(t) == [c] + CollapseRuns(rest);
      GapBeforeTagCons(c, CollapseRuns(rest));
      assert t == [t[0]] + t[1..];
      GapBeforeTagCons(t[0], t[1..]);
      LeadingRunCons(t[0], t[1..]);
      if k >= 2 {
        assert t[1..][k - 1..] == rest;
        var tail := t[1..];
        assert LeadingRun(tail, IsWhitespace) == k - 1;
        assert GapBeforeTag(tail) <==> (k - 1 < |tail| && tail[k - 1] == '<');
      }
      if |rest| > 0 {
        assert !IsWhitespace(rest[0]);
      }
    } else if |t| > 0 {
      assert !IsWhitespace(CollapseRuns(t)[0]);
    }
  }

  /** After the second step no two whitespace characters are adjacent. */
  lemma {:induction false} CollapseRunsNoDouble(s: string)
    ensures NoDoubleWhitespace(CollapseRuns(s))
    decreases |s|
  {
    if |s| > 0 {
      var k := LeadingRun(s, IsWhitespace);
      var rest := if k >= 2 then s[k..] else s[1..];
      var c := if k >= 2 then ' ' else s[0];
      CollapseRunsNoDouble(rest);
      assert CollapseRuns(s) == [c] + CollapseRuns(rest);
      NoDoubleWhitespaceCons(c, CollapseRuns(rest));
      if k == 1 && |rest| > 0 {
        assert s[1..][0] == s[1];
      }
    }
  }

  lemma NoGapBetweenTagsSuffix(s: string, k: nat)
    requires k <= |s| && NoGapBetweenTags(s)
    ensures NoGapBetweenTags(s[k..])
  {
    forall i | 0 <= i < |s[k..]| && s[k..][i] == '>'
      ensures !GapBeforeTag(s[k..][i + 1..])
    {
      assert s[k + i] == '>';
      assert s[k..][i + 1..] == s[k + i + 1..];
    }
  }

  /** The second step creates no whitespace run between `>` and `<`. */
  lemma {:induction false} CollapseRunsNoGap(s: string)
    requires NoGapBetweenTags(s)
    ensures NoGapBetweenTags(CollapseRuns(s))
    decreases |s|
  {
    if |s| > 0 {
      var k := LeadingRun(s, IsWhitespace);
      var rest := if k >= 2 then s[k..] else s[1..];
      var c := if k >= 2 then ' ' else s[0];
      NoGapBetweenTagsSuffix(s, if k >= 2 then k else 1);
      CollapseRunsNoGap(rest);
      assert CollapseRuns(s) == [c] + CollapseRuns(rest);
      NoGapBetweenTagsCons(c, CollapseRuns(rest));
      if c == '>' {
        CollapseRunsHead(rest);
      }
    }
  }

  /** The second step removes or replaces whitespace only. */
  lemma {:induction false} CollapseRunsKeepsText(s: string)
    ensures RemoveWhitespace(CollapseRuns(s)) == RemoveWhitespace(s)
    decreases |s|
  {
    if |s| > 0 {
      var k := LeadingRun(s, IsWhitespace);
      if k >= 2 {
        CollapseRunsKeepsText(s[k..]);
        RemoveWhitespaceSkip(s, k);
        assert (" " + CollapseRuns(s[k..]))[1..] == CollapseRuns(s[k..]);
      } else {
        CollapseRunsKeepsText(s[1..]);
        assert ([s[0]] + CollapseRuns(s[1..]))[1..] == CollapseRuns(s[1..]);
      }
    }
  }

  // ---- Step three: trimming ----

  lemma GapBeforeTagPrefix(u: string, m: nat)
    requires m <= |u| && GapBeforeTag(u[..m])
    ensures GapBeforeTag(u)
  {
    var w := LeadingRun(u[..m], IsWhitespace);
    assert u[..m][w] == u[w];
    LeadingRunExact(u, IsWhitespace, w);
  }

  lemma SliceKeepsNoDouble(s: string, a: nat, b: nat)
    requires a <= b <= |s| && NoDoubleWhitespace(s)
    ensures NoDoubleWhitespace(s[a..b])
  {
    var t := s[a..b];
    forall i | 0 < i < |t|
      ensures !(IsWhitespace(t[i - 1]) && IsWhitespace(t[i]))
    {
      assert t[i - 1] == s[a + i - 1] && t[i] == s[a + i];
    }
  }

  lemma SliceKeepsNoGap(s: string, a: nat, b: nat)
    requires a <= b <= |s| && NoGapBetweenTags(s)
    ensures NoGapBetweenTags(s[a..b])
  {
    var t := s[a..b];
    forall i | 0 <= i < |t| && t[i] == '>'
      ensures !GapBeforeTag(t[i + 1..])
    {
      assert s[a + i] == '>';
      assert t[i + 1..] == s[a + i + 1..][..b - (a + i + 1)];
      if GapBeforeTag(t[i + 1..]) {
        GapBeforeTagPrefix(s[a + i + 1..], b - (a + i + 1));
      }
    }
  }

  /** Trimming keeps both properties, since it takes a slice. */
  lemma TrimKeepsShape(t: string)
    ensures NoDoubleWhitespace(t) ==> NoDoubleWhitespace(Trim(t))
    ensures NoGapBetweenTags(t) ==> NoGapBetweenTags(Trim(t))
  {
    var a := LeadingRun(t, IsWhitespace);
    var b := a + |Trim(t)|;
    assert Trim(t) == t[a..b];
    if NoDoubleWhitespace(t) {
      SliceKeepsNoDouble(t, a, b);
    }
    if NoGapBetweenTags(t) {
      SliceKeepsNoGap(t, a, b);
    }
  }

  // ---- The whole pipeline ----

  /** The three steps leave no whitespace at either end, no two adjacent
      whitespace characters and no whitespace between `>` and `<`. */
  lemma PipelineShape(s: string)
    ensures var r := Trim(CollapseRuns(StripTagGaps(s)));
            && (|r| > 0 ==> !IsWhitespace(r[0]) && !IsWhitespace(r[|r| - 1]))
            && NoDoubleWhitespace(r)
            && NoGapBetweenTags(r)
  {
    var stripped := StripTagGaps(s);
    var collapsed := CollapseRuns(stripped);
    StripTagGapsNoGap(s);
    CollapseRunsNoDouble(stripped);
    CollapseRunsNoGap(stripped);
    TrimKeepsShape(collapsed);
  }

  /** The three steps only shorten the text and keep its non-whitespace
      characters in order. */
  lemma PipelineKeepsText(s: string)
    ensures var r := Trim(CollapseRuns(StripTagGaps(s)));
            && |r| <= |s|
            && RemoveWhitespace(r) == RemoveWhitespace(s)
  {
    var stripped := StripTagGaps(s);
    var collapsed := CollapseRuns(stripped);
    StripTagGapsKeepsText(s);
    CollapseRunsKeepsText(stripped);
    TrimKeepsText(collapsed);
  }

  // ---- Minifying minified text ----

  lemma {:induction false} StripTagGapsOfNoGap(s: string)
    requires NoGapBetweenTags(s)
    ensures StripTagGaps(s) == s
    decreases |s|
  {
    if |s| > 0 {
      assert s == [s[0]] + s[1..];
      NoGapBetweenTagsCons(s[0], s[1..]);
      StripTagGapsOfNoGap(s[1..]);
    }
  }

  lemma {:induction false} CollapseRunsOfNoDouble(s: string)
    requires NoDoubleWhitespace(s)
    ensures CollapseRuns(s) == s
    decreases |s|
  {
    if |s| > 0 {
      assert s == [s[0]] + s[1..];
      NoDoubleWhitespaceCons(s[0], s[1..]);
      if |s| > 1 {
        assert !(IsWhitespace(s[0]) && IsWhitespace(s[1]));
        assert s[1..][0] == s[1];
        LeadingRunCons(s[0], s[1..]);
      }
      CollapseRunsOfNoDouble(s[1..]);
    }
  }

  lemma TrimOfTrimmed(s: string)
    requires |s| > 0 ==> !IsWhitespace(s[0]) && !IsWhitespace(s[|s| - 1])
    ensures Trim(s) == s
  {
    if |s| > 0 {
      assert LeadingRun(s, IsWhitespace) == 0;
      assert !IsWhitespace(s[|s| - 1]);
    }
  }

  /** Minifying twice gives what minifying once gave. */
  lemma MinifyIdempotent(s: string)
    ensures Minify(Minify(s)) == Minify(s)
  {
    var r := Minify(s);
    StripTagGapsOfNoGap(r);
    CollapseRunsOfNoDouble(r);
    TrimOfTrimmed(r);
  }

  /** Minifying leaves nothing exactly when the input is blank. */
  lemma MinifyEmptyIffBlank(s: string)
    ensures Minify(s) == "" <==> IsBlank(s)
  {
    RemoveWhitespaceEmpty(s);
    RemoveWhitespaceEmpty(Minify(s));
  }

  const BlankHtmlMessage: string := "Please paste some HTML code first."

  /** `handleMinify` of the HTML page: blank input is refused with a fixed
      message and an empty output; anything else is shown as its minified
      text with no error, and that text is never empty. */
  function HandleHtmlMinify(input: string): (v: View)
    ensures IsBlank(input) <==> v == View(BlankHtmlMessage, "")
    ensures !IsBlank(input) ==> v.error == "" && v.output != ""
    ensures !IsBlank(input) ==> v.output == Minify(input)
    ensures !IsBlank(input) ==>
      !IsWhitespace(v.output[0]) && !IsWhitespace(v.output[|v.output| - 1])
    ensures NoDoubleWhitespace(v.output) && NoGapBetweenTags(v.output)
    ensures !IsBlank(input) ==> |v.output| <= |input|
    ensures !IsBlank(input) ==> RemoveWhitespace(v.output) == RemoveWhitespace(input)
  {
    if IsBlank(input) then View(BlankHtmlMessage, "")
    else
      MinifyEmptyIffBlank(input);
      View("", Minify(input))
  }
}
