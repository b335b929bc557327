/** Character classes, trimming and decimal numerals as JavaScript defines
    them for the two pages: the whitespace class shared by the regular
    expression `\s` and by `String.prototype.trim`, the digit class `\d`,
    and the decimal rendering of a non-negative integer. */
module Text {

  /** JavaScript's WhiteSpace and LineTerminator code points: the set that
      both `\s` and `trim` recognise. */
  predicate IsWhitespace(c: char)
  {
    var n := c as int;
    || 0x09 <= n <= 0x0D
    || n == 0x20 || n == 0xA0 || n == 0x1680
    || 0x2000 <= n <= 0x200A
    || n == 0x2028 || n == 0x2029 || n == 0x202F || n == 0x205F
    || n == 0x3000 || n == 0xFEFF
  }

  /** The class `\d`: ASCII digits only. */
  predicate IsDigit(c: char)
  {
    '0' <= c <= '9'
  }

  /** Length of the longest prefix of `s` whose characters are all in the class. */
  function LeadingRun(s: string, inClass: char -> bool): (k: nat)
    ensures k <= |s|
    ensures forall i :: 0 <= i < k ==> inClass(s[i])
    ensures k < |s| ==> !inClass(s[k])
  {
    if |s| == 0 || !inClass(s[0]) then 0 else 1 + LeadingRun(s[1..], inClass)
  }

  /** A prefix of class characters followed by a non-class character (or by
      nothing) is the leading run. */
  lemma LeadingRunExact(s: string, inClass: char -> bool, n: nat)
    requires n <= |s|
    requires forall i :: 0 <= i < n ==> inClass(s[i])
    requires n < |s| ==> !inClass(s[n])
    ensures LeadingRun(s, inClass) == n
  {
  }

  /** Length of the longest suffix of `s` whose characters are all in the class. */
  function TrailingRun(s: string, inClass: char -> bool): (k: nat)
    ensures k <= |s|
    ensures forall i :: |s| - k <= i < |s| ==> inClass(s[i])
    ensures k < |s| ==> !inClass(s[|s| - k - 1])
  {
    if |s| == 0 || !inClass(s[|s| - 1]) then 0
    else 1 + TrailingRun(s[..|s| - 1], inClass)
  }

  /** `String.prototype.trim`: the input without its leading and trailing
      whitespace. The result is the slice that starts after the leading
      whitespace run; everything cut from either end is whitespace, and the
      slice itself neither starts nor ends with whitespace. */
  function Trim(s: string): (r: string)
    ensures |r| <= |s|
    ensures var a := LeadingRun(s, IsWhitespace);
            && a + |r| <= |s|
            && r == s[a .. a + |r|]
            && (forall i :: a + |r| <= i < |s| ==> IsWhitespace(s[i]))
    ensures |r| > 0 ==> !IsWhitespace(r[0]) && !IsWhitespace(r[|r| - 1])
  {
    var t := s[LeadingRun(s, IsWhitespace)..];
    t[..|t| - TrailingRun(t, IsWhitespace)]
  }

  /** The test `!s.trim()`: a string is blank when trimming leaves nothing,
      that is, exactly when every character is whitespace. */
  function IsBlank(s: string): (b: bool)
    ensures b <==> forall i :: 0 <= i < |s| ==> IsWhitespace(s[i])
  {
    Trim(s) == ""
  }

  /** The non-whitespace characters of `s`, in order. */
  function RemoveWhitespace(s: string): (r: string)
    ensures |r| <= |s|
    ensures forall i :: 0 <= i < |r| ==> !IsWhitespace(r[i])
  {
    if |s| == 0 then ""
    else (if IsWhitespace(s[0]) then "" else [s[0]]) + RemoveWhitespace(s[1..])
  }

  lemma {:induction false} RemoveWhitespaceConcat(a: string, b: string)
    ensures RemoveWhitespace(a + b) == RemoveWhitespace(a) + RemoveWhitespace(b)
    decreases |a|
  {
    if |a| == 0 {
      assert a + b == b;
    } else {
      assert (a + b)[0] == a[0];
      assert (a + b)[1..] == a[1..] + b;
      RemoveWhitespaceConcat(a[1..], b);
    }
  }

  /** Nothing is left exactly when there was nothing but whitespace. */
  lemma {:induction false} RemoveWhitespaceEmpty(s: string)
    ensures RemoveWhitespace(s) == "" <==> forall i :: 0 <= i < |s| ==> IsWhitespace(s[i])
    decreases |s|
  {
    if |s| > 0 {
      RemoveWhitespaceEmpty(s[1..]);
      assert forall i :: 1 <= i < |s| ==> s[i] == s[1..][i - 1];
    }
  }

  lemma {:induction false} RemoveWhitespaceOfBlank(s: string)
    requires forall i :: 0 <= i < |s| ==> IsWhitespace(s[i])
    ensures RemoveWhitespace(s) == ""
    decreases |s|
  {
    if |s| > 0 {
      RemoveWhitespaceOfBlank(s[1..]);
    }
  }

  /** Skipping over whitespace does not change the non-whitespace text. */
  lemma {:induction false} RemoveWhitespaceSkip(s: string, k: nat)
    requires k <= |s|
    requires forall i :: 0 <= i < k ==> IsWhitespace(s[i])
    ensures RemoveWhitespace(s) == RemoveWhitespace(s[k..])
    decreases k
  {
    if k > 0 {
      assert RemoveWhitespace(s) == RemoveWhitespace(s[1..]);
      assert s[1..][k - 1..] == s[k..];
      RemoveWhitespaceSkip(s[1..], k - 1);
    }
  }

  /** Dropping a whitespace tail does not change the non-whitespace text. */
  lemma {:induction false} RemoveWhitespaceDropTail(t: string, b: nat)
    requires b <= |t|
    requires forall i :: b <= i < |t| ==> IsWhitespace(t[i])
    ensures RemoveWhitespace(t) == RemoveWhitespace(t[..b])
    decreases b
  {
    if b == 0 {
      RemoveWhitespaceOfBlank(t);
    } else {
      var u := t[1..];
      forall i | b - 1 <= i < |u|
        ensures IsWhitespace(u[i])
      {
        assert u[i] == t[i + 1];
      }
      RemoveWhitespaceDropTail(u, b - 1);
      assert t[..b][1..] == u[..b - 1];
      assert t[..b][0] == t[0];
    }
  }

  /** Trimming drops whitespace only: the non-whitespace text survives intact. */
  lemma TrimKeepsText(s: string)
    ensures RemoveWhitespace(Trim(s)) == RemoveWhitespace(s)
  {
    var a := LeadingRun(s, IsWhitespace);
    var r := Trim(s);
    var t := s[a..];
    RemoveWhitespaceSkip(s, a);
    assert forall i :: |r| <= i < |t| ==> t[i] == s[a + i];
    RemoveWhitespaceDropTail(t, |r|);
    assert t[..|r|] == r;
  }

  /** The character of a decimal digit `d`. */
  function DigitChar(d: nat): (c: char)
    requires d < 10
    ensures IsDigit(c)
  {
    ('0' as int + d) as char
  }

  /** The value of a digit character. */
  function DigitValue(c: char): (d: nat)
    requires IsDigit(c)
    ensures d < 10 && DigitChar(d) == c
  {
    c as int - '0' as int
  }

  predicate AllDigits(s: string)
  {
    forall i :: 0 <= i < |s| ==> IsDigit(s[i])
  }

  /** How a template literal renders a non-negative integer: its shortest
      decimal numeral. */
  function NatToDecimal(n: nat): (r: string)
    ensures |r| >= 1 && AllDigits(r)
    ensures |r| > 1 ==> r[0] != '0'
    decreases n
  {
    if n < 10 then [DigitChar(n)] else NatToDecimal(n / 10) + [DigitChar(n % 10)]
  }

  /** The number a run of decimal digits denotes (leading zeros allowed). */
  function DecimalValue(ds: string): nat
    requires AllDigits(ds)
  {
    if |ds| == 0 then 0
    else 10 * DecimalValue(ds[..|ds| - 1]) + DigitValue(ds[|ds| - 1])
  }

  /** Reading back a rendered number gives the number. */
  lemma {:induction false} DecimalRoundTrip(n: nat)
    ensures DecimalValue(NatToDecimal(n)) == n
    decreases n
  {
    var r := NatToDecimal(n);
    if n >= 10 {
      DecimalRoundTrip(n / 10);
      assert r[..|r| - 1] == NatToDecimal(n / 10);
    }
  }

  lemma {:induction false} DecimalValuePositive(ds: string)
    requires |ds| >= 1 && AllDigits(ds) && ds[0] != '0'
    ensures DecimalValue(ds) >= 1
    decreases |ds|
  {
    if |ds| > 1 {
      DecimalValuePositive(ds[..|ds| - 1]);
    }
  }

  /** A numeral without leading zeros is exactly how its value is rendered. */
  lemma {:induction false} DecimalCanonical(ds: string)
    requires |ds| >= 1 && AllDigits(ds)
    requires |ds| > 1 ==> ds[0] != '0'
    ensures NatToDecimal(DecimalValue(ds)) == ds
    decreases |ds|
  {
    if |ds| > 1 {
      var p := ds[..|ds| - 1];
      DecimalValuePositive(p);
      DecimalCanonical(p);
      var n := DecimalValue(ds);
      assert n / 10 == DecimalValue(p) && n % 10 == DigitValue(ds[|ds| - 1]);
      assert ds == p + [ds[|ds| - 1]];
    }
  }
}
