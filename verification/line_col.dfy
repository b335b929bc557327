/** Translating a zero-based character offset into a 1-based line and
    column, as the JSON page does before it reports a parse error. The scan
    stops at the offset or at the end of the text, whichever comes first,
    so an offset past the end is clamped to the end. */
module LineCol {
  import opened Text

  datatype Position = Position(line: nat, column: nat)

  predicate NotNewline(c: char)
  {
    c != '\n'
  }

  /** Number of line feeds in `s`. */
  function CountNewlines(s: string): (n: nat)
    ensures n <= |s|
  {
    if |s| == 0 then 0
    else CountNewlines(s[..|s| - 1]) + (if s[|s| - 1] == '\n' then 1 else 0)
  }

  /** How far the scan goes: the offset, kept within `0 .. |text|`. */
  function ScanEnd(text: string, index: int): (n: nat)
    ensures n <= |text|
  {
    if index < 0 then 0 else if index < |text| then index else |text|
  }

  /** The position of `index` in `text`: one line per line feed before it,
      and one column per character since the last of those line feeds. */
  function Locate(text: string, index: int): (p: Position)
    ensures p.line >= 1 && p.column >= 1
    ensures p.line - 1 <= ScanEnd(text, index) && p.column - 1 <= ScanEnd(text, index)
  {
    var prefix := text[..ScanEnd(text, index)];
    Position(1 + CountNewlines(prefix), 1 + TrailingRun(prefix, NotNewline))
  }

  /** One scanning step: a line feed starts the next line at column 1, any
      other character moves one column to the right. */
  lemma LocateStep(text: string, k: nat)
    requires k < |text|
    ensures var p := Locate(text, k);
            Locate(text, k + 1)
              == if text[k] == '\n' then Position(p.line + 1, 1)
                 else Position(p.line, p.column + 1)
  {
    assert text[..k + 1][..k] == text[..k];
  }

  /** `getLineCol`: the loop of the page, which computes `Locate`. */
  method GetLineCol(text: string, index: int) returns (p: Position)
    ensures p == Locate(text, index)
  {
    var line, col := 1, 1;
    var i := 0;
    while i < |text| && i < index
      invariant 0 <= i <= ScanEnd(text, index)
      invariant Position(line, col) == Locate(text, i)
      decreases |text| - i
    {
      LocateStep(text, i);
      if text[i] == '\n' {
        line := line + 1;
        col := 1;
      } else {
        col := col + 1;
      }
      i := i + 1;
    }
    p := Position(line, col);
  }

  /** An offset at or past the end of the text reports the position just
      after the last character; a negative offset reports the start. */
  lemma LocateClamps(text: string, index: int)
    ensures index >= |text| ==> Locate(text, index) == Locate(text, |text|)
    ensures index <= 0 ==> Locate(text, index) == Position(1, 1)
  {
  }

  /** Positions are compared line first, then column. */
  predicate Before(p: Position, q: Position)
  {
    p.line < q.line || (p.line == q.line && p.column < q.column)
  }

  lemma BeforeTransitive(p: Position, q: Position, r: Position)
    requires Before(p, q) && Before(q, r)
    ensures Before(p, r)
  {
  }

  /** Later offsets within the text lie at strictly later positions, so no
      two offsets of the text share a position. */
  lemma {:induction false} LocateStrictlyIncreasing(text: string, m: nat, n: nat)
    requires m < n <= |text|
    ensures Before(Locate(text, m), Locate(text, n))
    decreases n - m
  {
    var p, q := Locate(text, m), Locate(text, n - 1);
    LocateStep(text, n - 1);
    assert Before(q, Locate(text, n));
    if m < n - 1 {
      LocateStrictlyIncreasing(text, m, n - 1);
      BeforeTransitive(p, q, Locate(text, n));
    }
  }

  /** The worked examples: the first character, a character after one line
      feed, and an offset past the end of a three-character text. */
  lemma LocateExamples()
    ensures Locate("abc", 0) == Position(1, 1)
    ensures Locate("ab\ncd", 4) == Position(2, 2)
    ensures Locate("abc", 100) == Position(1, 4)
  {
    LocateAfterNewline();
    LocatePastEnd();
  }

  lemma LocateAfterNewline()
    ensures Locate("ab\ncd", 4) == Position(2, 2)
  {
    var t := "ab\ncd";
    assert Locate(t, 0) == Position(1, 1);
    LocateStep(t, 0);
    LocateStep(t, 1);
    assert Locate(t, 2) == Position(1, 3);
    LocateStep(t, 2);
    assert Locate(t, 3) == Position(2, 1);
    LocateStep(t, 3);
  }

  lemma LocatePastEnd()
    ensures Locate("abc", 100) == Position(1, 4)
  {
    var t := "abc";
    assert Locate(t, 0) == Position(1, 1);
    LocateStep(t, 0);
    LocateStep(t, 1);
    LocateStep(t, 2);
    LocateClamps(t, 100);
  }
}
