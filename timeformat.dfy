/**
 * Go's `time.Parse` and `Time.Format` specialised to the layout "20060102":
 * a four-digit year, a two-digit month and a two-digit day, no separators.
 */
module TimeFormat {
  import opened Wrappers
  import opened Calendar
  import opened GoText

  /** The layout the package hands to `time.Parse` and `Time.Format`: Go's
      reference day, 2 January 2006, written in the layout itself. */
  const TmFormat: string := "20060102"

  /** Two decimal digits, zero-padded. */
  function TwoDigits(n: int): string
    requires 0 <= n < 100
  {
    [DigitChar(n / 10), DigitChar(n % 10)]
  }

  /** Four decimal digits, zero-padded. */
  function FourDigits(n: int): string
    requires 0 <= n < 10000
  {
    [DigitChar(n / 1000), DigitChar(n / 100 % 10), DigitChar(n / 10 % 10), DigitChar(n % 10)]
  }

  /** How Go prints a year for "2006": a minus sign when negative, then the
      magnitude zero-padded to at least four digits. */
  function FormatYear(y: int): string {
    var u: nat := if y < 0 then -y else y;
    (if y < 0 then "-" else "") + (if u < 10000 then FourDigits(u) else DecimalDigits(u))
  }

  /** `Time.Format("20060102")` of a day's midnight.  The text has exactly eight
      characters precisely for the years 0 to 9999; other years print longer. */
  function FormatDate(d: Date): (s: string)
    requires d.Valid()
    ensures |s| >= 8
    ensures |s| == 8 <==> 0 <= d.year <= 9999
  {
    FormatYear(d.year) + TwoDigits(d.month) + TwoDigits(d.day)
  }

  /** `time.Parse("20060102", s)`: eight digits whose month is 01..12 and whose
      day exists in that month of that year; anything else is an error. */
  function ParseDate(s: string): (r: Option<Date>)
    ensures r.Some? ==> r.value.Valid() && 0 <= r.value.year <= 9999
  {
    if |s| != 8 || !AllDigits(s) then None
    else
      var year := 1000 * DigitValue(s[0]) + 100 * DigitValue(s[1]) + 10 * DigitValue(s[2]) + DigitValue(s[3]);
      var month := 10 * DigitValue(s[4]) + DigitValue(s[5]);
      var day := 10 * DigitValue(s[6]) + DigitValue(s[7]);
      if 1 <= month <= 12 && 1 <= day <= DaysInMonth(year, month) then Some(Date(year, month, day))
      else None
  }

  lemma DivTen(n: int, q: int, r: int)
    requires 0 <= r < 10 && n == 10 * q + r
    ensures n / 10 == q && n % 10 == r
  {
  }

  /** The four digits `FourDigits` prints are the place values of `n`. */
  lemma PlaceValues(n: int)
    requires 0 <= n < 10000
    ensures 1000 * (n / 1000) + 100 * (n / 100 % 10) + 10 * (n / 10 % 10) + n % 10 == n
  {
    var q1, q2, q3 := n / 10, n / 100, n / 1000;
    assert n == 10 * q1 + n % 10;
    DivTen(q1, q1 / 10, q1 % 10);
    DivTen(n, q1, n % 10);
    assert q1 / 10 == q2 by {
      assert n == 100 * (q1 / 10) + 10 * (q1 % 10) + n % 10;
    }
    assert q2 / 10 == q3 by {
      assert n == 1000 * (q2 / 10) + 100 * (q2 % 10) + 10 * (q1 % 10) + n % 10;
    }
    assert q2 == 10 * q3 + q2 % 10;
  }

  lemma FourDigitsValue(n: int)
    requires 0 <= n < 10000
    ensures var t := FourDigits(n);
      AllDigits(t) && 1000 * DigitValue(t[0]) + 100 * DigitValue(t[1]) + 10 * DigitValue(t[2]) + DigitValue(t[3]) == n
  {
    var t := FourDigits(n);
    assert DigitValue(t[0]) == n / 1000 && DigitValue(t[1]) == n / 100 % 10;
    assert DigitValue(t[2]) == n / 10 % 10 && DigitValue(t[3]) == n % 10;
    PlaceValues(n);
  }

  lemma TwoDigitsValue(n: int)
    requires 0 <= n < 100
    ensures var t := TwoDigits(n); AllDigits(t) && 10 * DigitValue(t[0]) + DigitValue(t[1]) == n
  {
  }

  lemma DigitCharValue(c: char)
    requires IsDigit(c)
    ensures DigitChar(DigitValue(c)) == c
  {
  }

  lemma FourDigitsOf(a: int, b: int, c: int, e: int)
    requires 0 <= a < 10 && 0 <= b < 10 && 0 <= c < 10 && 0 <= e < 10
    ensures FourDigits(1000 * a + 100 * b + 10 * c + e) == [DigitChar(a), DigitChar(b), DigitChar(c), DigitChar(e)]
  {
    var n := 1000 * a + 100 * b + 10 * c + e;
    DivTen(n, 100 * a + 10 * b + c, e);
    DivTen(100 * a + 10 * b + c, 10 * a + b, c);
    DivTen(10 * a + b, a, b);
    assert n / 100 == 10 * a + b;
    assert n / 1000 == a;
  }

  /** Four digits read as a year print back as themselves. */
  lemma FourDigitsText(t: string)
    requires |t| == 4 && AllDigits(t)
    ensures FourDigits(1000 * DigitValue(t[0]) + 100 * DigitValue(t[1]) + 10 * DigitValue(t[2]) + DigitValue(t[3])) == t
  {
    FourDigitsOf(DigitValue(t[0]), DigitValue(t[1]), DigitValue(t[2]), DigitValue(t[3]));
    DigitCharValue(t[0]); DigitCharValue(t[1]); DigitCharValue(t[2]); DigitCharValue(t[3]);
  }

  /** Two digits read as a month or day print back as themselves. */
  lemma TwoDigitsText(t: string)
    requires |t| == 2 && AllDigits(t)
    ensures TwoDigits(10 * DigitValue(t[0]) + DigitValue(t[1])) == t
  {
    DivTen(10 * DigitValue(t[0]) + DigitValue(t[1]), DigitValue(t[0]), DigitValue(t[1]));
    DigitCharValue(t[0]); DigitCharValue(t[1]);
  }

  /** The text of a date of years 0..9999 is its three fields side by side. */
  lemma FormatFields(d: Date)
    requires d.Valid() && 0 <= d.year <= 9999
    ensures FormatDate(d) == FourDigits(d.year) + TwoDigits(d.month) + TwoDigits(d.day)
  {
    assert FormatYear(d.year) == "" + FourDigits(d.year) == FourDigits(d.year);
  }

  /** Parsing a formatted day gives the day back. */
  lemma ParseFormat(d: Date)
    requires d.Valid() && 0 <= d.year <= 9999
    ensures ParseDate(FormatDate(d)) == Some(d)
  {
    var s := FormatDate(d);
    var y, m, dd := FourDigits(d.year), TwoDigits(d.month), TwoDigits(d.day);
    FormatFields(d);
    FourDigitsValue(d.year);
    TwoDigitsValue(d.month);
    TwoDigitsValue(d.day);
    assert s[0] == y[0] && s[1] == y[1] && s[2] == y[2] && s[3] == y[3];
    assert s[4] == m[0] && s[5] == m[1] && s[6] == dd[0] && s[7] == dd[1];
    assert AllDigits(s);
  }

  /** A string that parses is the formatted form of what it parses to: the
      eight-digit form of a day is unique. */
  lemma FormatParse(s: string)
    requires ParseDate(s).Some?
    ensures FormatDate(ParseDate(s).value) == s
  {
    var d := ParseDate(s).value;
    var y, m, dd := s[..4], s[4..6], s[6..];
    assert y[0] == s[0] && y[1] == s[1] && y[2] == s[2] && y[3] == s[3];
    assert m[0] == s[4] && m[1] == s[5] && dd[0] == s[6] && dd[1] == s[7];
    FourDigitsText(y);
    TwoDigitsText(m);
    TwoDigitsText(dd);
    FormatFields(d);
    assert s == y + m + dd;
  }

  /** Two days format alike only if they are the same day. */
  lemma FormatInjective(a: Date, b: Date)
    requires a.Valid() && b.Valid() && 0 <= a.year <= 9999
    requires FormatDate(a) == FormatDate(b)
    ensures a == b
  {
    ParseFormat(a);
    ParseFormat(b);
  }

  /** The layout is Go's reference day printed in the layout. */
  lemma LayoutIsReferenceDay()
    ensures FormatDate(Date(2006, 1, 2)) == TmFormat
  {
  }
}
