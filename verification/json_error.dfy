/** Enriching a JSON parse error with a line and column. The page searches
    the parser's message for the first case-insensitive match of
    `position\s+(\d+)`; when there is one, the captured digits are an offset
    into the source text, located with `LineCol.Locate`, and the report
    names that line and column; otherwise the message is reported as it is
    behind a fixed prefix. */
module JsonError {
  import opened Wrappers
  import opened Text
  import opened LineCol

  const Keyword: string := "position"

  /** Case folding as a non-Unicode `/i` expression applies it to the
      letters of `Keyword`: only ASCII letters fold onto them. */
  function AsciiLower(c: char): char
  {
    if 'A' <= c <= 'Z' then (c as int - 'A' as int + 'a' as int) as char else c
  }

  /** `Keyword` occurs at `i`, ignoring ASCII case. */
  predicate KeywordAt(msg: string, i: nat)
  {
    && i + |Keyword| <= |msg|
    && forall k :: 0 <= k < |Keyword| ==> AsciiLower(msg[i + k]) == Keyword[k]
  }

  /** The pattern matches at `i`: the keyword, then `w` whitespace
      characters, then a run of `d` digits that the next character (if any)
      does not extend, since `\d+` is greedy. A digit after the whitespace
      means the whitespace run is the whole run there, as `\s+` takes it. */
  ghost predicate IsMatch(msg: string, i: nat, w: nat, d: nat)
  {
    var digits := i + |Keyword| + w;
    && digits + d <= |msg|
    && KeywordAt(msg, i)
    && w >= 1 && d >= 1
    && (forall k :: i + |Keyword| <= k < digits ==> IsWhitespace(msg[k]))
    && (forall k :: digits <= k < digits + d ==> IsDigit(msg[k]))
    && (digits + d == |msg| || !IsDigit(msg[digits + d]))
  }

  /** The match the search reports: no match starts further left. */
  ghost predicate FirstMatch(msg: string, i: nat, w: nat, d: nat)
  {
    && IsMatch(msg, i, w, d)
    && forall j: nat, w': nat, d': nat :: j < i ==> !IsMatch(msg, j, w', d')
  }

  /** The offset a match captures: the value of its digit run. */
  ghost function Captured(msg: string, i: nat, w: nat, d: nat): nat
    requires IsMatch(msg, i, w, d)
  {
    var digits := i + |Keyword| + w;
    assert AllDigits(msg[digits .. digits + d]);
    DecimalValue(msg[digits .. digits + d])
  }

  /** Length of the whitespace run after a keyword at `i`. */
  function GapAt(msg: string, i: nat): nat
    requires i + |Keyword| <= |msg|
  {
    LeadingRun(msg[i + |Keyword|..], IsWhitespace)
  }

  /** The search's test at one start position. */
  predicate MatchesAt(msg: string, i: nat)
  {
    && KeywordAt(msg, i)
    && var digits := i + |Keyword| + GapAt(msg, i);
       GapAt(msg, i) >= 1 && digits < |msg| && IsDigit(msg[digits])
  }

  /** The value of the digit run at `j`. */
  function NumberAt(msg: string, j: nat): nat
    requires j <= |msg|
  {
    var d := LeadingRun(msg[j..], IsDigit);
    assert AllDigits(msg[j .. j + d]) by {
      assert forall k :: 0 <= k < d ==> msg[j .. j + d][k] == msg[j..][k];
    }
    DecimalValue(msg[j .. j + d])
  }

  /** When the search's test passes at `i`, the pattern matches there. */
  lemma MatchesAtSound(msg: string, i: nat)
    requires MatchesAt(msg, i)
    ensures var j := i + |Keyword| + GapAt(msg, i);
            IsMatch(msg, i, GapAt(msg, i), LeadingRun(msg[j..], IsDigit))
  {
    var j := i + |Keyword| + GapAt(msg, i);
    assert msg[j..][0] == msg[j];
  }

  /** The whitespace of a match is the whole run after its keyword. */
  lemma GapOfMatch(msg: string, i: nat, w: nat, d: nat)
    requires IsMatch(msg, i, w, d)
    ensures GapAt(msg, i) == w
  {
    var s := i + |Keyword|;
    var t := msg[s..];
    assert forall k :: 0 <= k < w ==> t[k] == msg[s + k];
    assert t[w] == msg[s + w] && IsDigit(msg[s + w]);
    LeadingRunExact(t, IsWhitespace, w);
  }

  /** The digits of a match are the whole digit run after its whitespace. */
  lemma DigitsOfMatch(msg: string, i: nat, w: nat, d: nat)
    requires IsMatch(msg, i, w, d)
    ensures var j := i + |Keyword| + w;
            LeadingRun(msg[j..], IsDigit) == d
  {
    var j := i + |Keyword| + w;
    var t := msg[j..];
    assert forall k :: 0 <= k < d ==> t[k] == msg[j + k];
    assert d < |t| ==> t[d] == msg[j + d];
    LeadingRunExact(t, IsDigit, d);
  }

  /** A match at `i` is the one the search's test finds there: the test
      passes and the captured offset is the value the search reads. */
  lemma MatchPinned(msg: string, i: nat, w: nat, d: nat)
    requires IsMatch(msg, i, w, d)
    ensures MatchesAt(msg, i)
    ensures Captured(msg, i, w, d) == NumberAt(msg, i + |Keyword| + GapAt(msg, i))
  {
    GapOfMatch(msg, i, w, d);
    DigitsOfMatch(msg, i, w, d);
    assert IsDigit(msg[i + |Keyword| + w]);
  }

  /** The search's test at `i` holds exactly when the pattern matches at `i`. */
  lemma MatchesAtExactly(msg: string, i: nat)
    ensures MatchesAt(msg, i) <==> exists w: nat, d: nat :: IsMatch(msg, i, w, d)
  {
    if MatchesAt(msg, i) {
      MatchesAtSound(msg, i);
    }
    forall w: nat, d: nat | IsMatch(msg, i, w, d)
      ensures MatchesAt(msg, i)
    {
      MatchPinned(msg, i, w, d);
    }
  }

  /** The leftmost-match search from start position `from` on. */
  function SearchFrom(msg: string, from: nat): Option<nat>
    decreases |msg| - from
  {
    if from >= |msg| then None
    else if MatchesAt(msg, from) then Some(NumberAt(msg, from + |Keyword| + GapAt(msg, from)))
    else SearchFrom(msg, from + 1)
  }

  lemma {:induction false} SearchFromNone(msg: string, from: nat)
    ensures SearchFrom(msg, from).None? <==>
              forall i: nat, w: nat, d: nat :: from <= i ==> !IsMatch(msg, i, w, d)
    decreases |msg| - from
  {
    if from < |msg| {
      MatchesAtExactly(msg, from);
      if !MatchesAt(msg, from) {
        SearchFromNone(msg, from + 1);
        forall i: nat, w: nat, d: nat | from <= i && IsMatch(msg, i, w, d)
          ensures from + 1 <= i
        {
        }
      }
    }
  }

  /** Where the pattern cannot match, the search moves on. */
  lemma SearchSkips(msg: string, from: nat)
    requires from < |msg|
    requires forall w: nat, d: nat :: !IsMatch(msg, from, w, d)
    ensures SearchFrom(msg, from) == SearchFrom(msg, from + 1)
  {
    if MatchesAt(msg, from) {
      MatchesAtSound(msg, from);
    }
  }

  /** Where the pattern matches, the search stops with the captured offset. */
  lemma SearchStops(msg: string, i: nat, w: nat, d: nat)
    requires IsMatch(msg, i, w, d)
    ensures SearchFrom(msg, i) == Some(Captured(msg, i, w, d))
  {
    MatchPinned(msg, i, w, d);
  }

  /** Across positions where the pattern cannot match, the search carries
      on unchanged. */
  lemma {:induction false} SearchSkipsTo(msg: string, from: nat, i: nat)
    requires from <= i <= |msg|
    requires forall j: nat, w: nat, d: nat :: from <= j < i ==> !IsMatch(msg, j, w, d)
    ensures SearchFrom(msg, from) == SearchFrom(msg, i)
    decreases i - from
  {
    if from < i {
      SearchSkips(msg, from);
      SearchSkipsTo(msg, from + 1, i);
    }
  }

  /** When the leftmost match from `from` on starts at `i`, the search
      returns the offset it captures. */
  lemma SearchFromFirst(msg: string, from: nat, i: nat, w: nat, d: nat)
    requires from <= i && IsMatch(msg, i, w, d)
    requires forall j: nat, w': nat, d': nat :: from <= j < i ==> !IsMatch(msg, j, w', d')
    ensures SearchFrom(msg, from) == Some(Captured(msg, i, w, d))
  {
    SearchSkipsTo(msg, from, i);
    SearchStops(msg, i, w, d);
  }

  lemma FirstMatchFound(msg: string)
    ensures forall i: nat, w: nat, d: nat :: FirstMatch(msg, i, w, d) ==>
              SearchFrom(msg, 0) == Some(Captured(msg, i, w, d))
  {
    forall i: nat, w: nat, d: nat | FirstMatch(msg, i, w, d)
      ensures SearchFrom(msg, 0) == Some(Captured(msg, i, w, d))
    {
      SearchFromFirst(msg, 0, i, w, d);
    }
  }

  /** `message.match(/position\s+(\d+)/i)`: the offset captured by the
      leftmost match, or nothing when there is no match. */
  function FindPosition(msg: string): (r: Option<nat>)
    ensures r.None? <==> forall i: nat, w: nat, d: nat :: !IsMatch(msg, i, w, d)
    ensures forall i: nat, w: nat, d: nat :: FirstMatch(msg, i, w, d) ==>
              r == Some(Captured(msg, i, w, d))
  {
    SearchFromNone(msg, 0);
    FirstMatchFound(msg);
    SearchFrom(msg, 0)
  }

  /** How every report begins. */
  const ReportHead: string := "Invalid JSON"

  const FallbackPrefix: string := "Invalid JSON: "

  const LineLabel: string := "Invalid JSON at line "

  const ColumnLabel: string := ", column "

  /** The report for an error located at `p`: it opens with the line label
      and ends with the parser's message. */
  function LocatedReport(p: Position, message: string): (r: string)
    ensures |r| > |LineLabel| + |message|
    ensures r[..|LineLabel|] == LineLabel
    ensures r[|r| - |message|..] == message
  {
    LineLabel + NatToDecimal(p.line) + ColumnLabel + NatToDecimal(p.column) + ": " + message
  }

  /** A numeral placed after `pre` and before a non-digit reads back as
      its number. */
  lemma NumberAtNumeral(pre: string, n: nat, post: string)
    requires |post| > 0 && !IsDigit(post[0])
    ensures NumberAt(pre + NatToDecimal(n) + post, |pre|) == n
  {
    var ds := NatToDecimal(n);
    var msg := pre + ds + post;
    assert msg[|pre|..] == ds + post;
    LeadingRunExact(ds + post, IsDigit, |ds|);
    assert msg[|pre| .. |pre| + |ds|] == ds;
    DecimalRoundTrip(n);
  }

  /** The same, for a text already known to be laid out that way. */
  lemma NumeralInside(msg: string, pre: string, n: nat, post: string)
    requires msg == pre + NatToDecimal(n) + post
    requires |post| > 0 && !IsDigit(post[0])
    ensures NumberAt(msg, |pre|) == n
  {
    NumberAtNumeral(pre, n, post);
  }

  /** Two ways to split six pieces of text around the second and the fourth. */
  lemma SplitAround(a: string, b: string, c: string, d: string, e: string, f: string)
    ensures a + b + c + d + e + f == a + b + (c + d + e + f)
    ensures a + b + c + d + e + f == (a + b + c) + d + (e + f)
  {
  }

  /** Two numerals, each followed by a non-digit, read back at the offsets
      where they start. */
  lemma TwoNumeralsReadBack(r: string, a: string, x: nat, c: string, y: nat, e: string, f: string)
    requires r == a + NatToDecimal(x) + c + NatToDecimal(y) + e + f
    requires |c| > 0 && !IsDigit(c[0]) && |e| > 0 && !IsDigit(e[0])
    ensures NumberAt(r, |a|) == x
    ensures |a| + |NatToDecimal(x)| + |c| <= |r| && NumberAt(r, |a| + |NatToDecimal(x)| + |c|) == y
  {
    var xs := NatToDecimal(x);
    var ys := NatToDecimal(y);
    SplitAround(a, xs, c, ys, e, f);
    NumeralInside(r, a, x, c + ys + e + f);
    assert |a + xs + c| == |a| + |xs| + |c|;
    NumeralInside(r, a + xs + c, y, e + f);
  }

  /** The line and column can be read back out of a located report, at the
      offsets where its numerals start. */
  lemma LocatedReportReadsBack(p: Position, message: string)
    ensures var r := LocatedReport(p, message);
            var columnAt := |LineLabel| + |NatToDecimal(p.line)| + |ColumnLabel|;
            && columnAt <= |r|
            && NumberAt(r, |LineLabel|) == p.line
            && NumberAt(r, columnAt) == p.column
  {
    TwoNumeralsReadBack(LocatedReport(p, message), LineLabel, p.line, ColumnLabel, p.column, ": ", message);
  }

  /** Different positions or different messages never give the same report. */
  lemma LocatedReportInjective(p: Position, q: Position, m1: string, m2: string)
    requires LocatedReport(p, m1) == LocatedReport(q, m2)
    ensures p == q && m1 == m2
  {
    LocatedReportReadsBack(p, m1);
    LocatedReportReadsBack(q, m2);
    var prefix := LineLabel + NatToDecimal(p.line) + ColumnLabel + NatToDecimal(p.column) + ": ";
    assert LocatedReport(p, m1) == prefix + m1;
    assert LocatedReport(q, m2) == prefix + m2;
    assert m1 == (prefix + m1)[|prefix|..];
    assert m2 == (prefix + m2)[|prefix|..];
  }

  /** `enhanceJsonError`: the report begins with `ReportHead` and ends with
      the parser's message; it names
      the line and column of the first `position N` in the message, located
      in `source`, and falls back to the plain prefix exactly when the
      message has no such match. */
  function EnhanceJsonError(message: string, source: string): (r: string)
    ensures |r| >= |message| && r[|r| - |message|..] == message
    ensures |r| >= |ReportHead| && r[..|ReportHead|] == ReportHead
    ensures (forall i: nat, w: nat, d: nat :: !IsMatch(message, i, w, d))
              <==> r == FallbackPrefix + message
    ensures forall i: nat, w: nat, d: nat :: FirstMatch(message, i, w, d) ==>
              r == LocatedReport(Locate(source, Captured(message, i, w, d)), message)
  {
    match FindPosition(message)
    case None => FallbackPrefix + message
    case Some(pos) =>
      var r := LocatedReport(Locate(source, pos), message);
      assert r[12] != (FallbackPrefix + message)[12];
      r
  }
}
