/** The month codec: text of the form "MM-YYYY" to and from the first instant
    (day 1, 00:00:00 UTC) of that calendar month, as Go's time package parses and
    formats the layout "01-2006". */
module MonthDate {
  import opened Wrappers

  /** The Go layout both directions use: "01" is a two-digit month and "2006" a
      four-digit year. */
  const MonthLayout: string := "01-2006"

  /** Detail carried by every parse failure. */
  const ParseErrorDetail: string := "invalid month format, expected MM-YYYY"

  /** The first instant of month `month` of year `year`, UTC. Every instant the
      codec produces or consumes has day 1 and time of day 00:00:00, so these two
      fields are all there is to it. */
  datatype YearMonth = YearMonth(year: int, month: int)

  /** The instants that "MM-YYYY" can name: years 0000..9999, months 1..12. */
  type Month = d: YearMonth | 0 <= d.year <= 9999 && 1 <= d.month <= 12 witness YearMonth(1, 1)

  /** Go's zero `time.Time` is January 1 of year 1 at 00:00:00 UTC, itself a month
      boundary; `IsZero` holds of it and of nothing else. */
  const Zero: Month := YearMonth(1, 1)

  /** Months counted from January of year 0; the order of instants is the order
      of their indexes. */
  function Index(d: YearMonth): int {
    d.year * 12 + d.month - 1
  }

  /** `time.Time.Before`. */
  predicate Before(a: YearMonth, b: YearMonth) {
    Index(a) < Index(b)
  }

  /** Adding `interval '1 month'` to a month boundary. */
  function Next(d: YearMonth): (e: YearMonth)
    requires 1 <= d.month <= 12
    ensures 1 <= e.month <= 12
    ensures Index(e) == Index(d) + 1
  {
    if d.month == 12 then YearMonth(d.year + 1, 1) else YearMonth(d.year, d.month + 1)
  }

  /** Two month boundaries with the same index are the same instant. */
  lemma IndexInjective(a: YearMonth, b: YearMonth)
    requires 1 <= a.month <= 12 && 1 <= b.month <= 12
    requires Index(a) == Index(b)
    ensures a == b
  {
  }

  predicate IsDigit(c: char) {
    '0' <= c <= '9'
  }

  function DigitValue(c: char): (n: nat)
    requires IsDigit(c)
    ensures n < 10
  {
    c as int - '0' as int
  }

  function Digit(n: nat): (c: char)
    requires n < 10
    ensures IsDigit(c) && DigitValue(c) == n
  {
    ('0' as int + n) as char
  }

  function DigitChar(c: char): (d: char)
    requires IsDigit(c)
    ensures d == c
  {
    Digit(DigitValue(c))
  }

  /** `time.ParseInLocation(MonthLayout, s, time.UTC)` followed by truncation to
      day 1 of the month, step by step as Go's parser walks the layout: "01" takes
      exactly two digits and the month they spell must lie in 1..12, "-" must
      match itself, "2006" takes four characters of which the first must be a
      digit and all must be digits for `atoi`, and nothing may follow. */
  function Parse(s: string): (r: Result<Month, string>)
    ensures r.Failure? ==> r.error == ParseErrorDetail
    ensures r.Success? ==> |s| == |MonthLayout|
  {
    if |s| < 2 || !IsDigit(s[0]) || !IsDigit(s[1]) then Failure(ParseErrorDetail)
    else
      var month := DigitValue(s[0]) * 10 + DigitValue(s[1]);
      if month < 1 || 12 < month then Failure(ParseErrorDetail)
      else if |s| < 3 || s[2] != '-' then Failure(ParseErrorDetail)
      else if |s| < 7 || !IsDigit(s[3]) then Failure(ParseErrorDetail)
      else if !IsDigit(s[4]) || !IsDigit(s[5]) || !IsDigit(s[6]) then Failure(ParseErrorDetail)
      else if |s| > 7 then Failure(ParseErrorDetail)
      else
        // Go's atoi of the four digits
        var year := DigitValue(s[3]) * 1000 + DigitValue(s[4]) * 100 + DigitValue(s[5]) * 10 + DigitValue(s[6]);
        Success(YearMonth(year, month))
  }

  /** `t.Format(MonthLayout)`: month padded to two digits, year to four. */
  function Layout(d: Month): (r: string)
    ensures |r| == |MonthLayout| && r[2] == '-'
    ensures forall k :: 0 <= k < |r| && k != 2 ==> IsDigit(r[k])
  {
    var y1 := d.year / 10;
    var y2 := y1 / 10;
    [Digit(d.month / 10), Digit(d.month % 10), '-', Digit(y2 / 10), Digit(y2 % 10), Digit(y1 % 10), Digit(d.year % 10)]
  }

  /** `FormatMonthDate`: the zero instant formats as the empty string, any other
      month boundary as "MM-YYYY". */
  function Format(d: Month): (r: string)
    ensures r == [] <==> d == Zero
    ensures r != [] ==> |r| == |MonthLayout| && r[2] == '-'
  {
    if d == Zero then "" else Layout(d)
  }

  /** Parse accepts exactly two digits that make a month 01..12, a hyphen and four
      digits, and nothing else. */
  lemma ParseShape(s: string)
    ensures Parse(s).Success? <==>
              && |s| == 7
              && IsDigit(s[0]) && IsDigit(s[1]) && s[2] == '-'
              && IsDigit(s[3]) && IsDigit(s[4]) && IsDigit(s[5]) && IsDigit(s[6])
              && 1 <= DigitValue(s[0]) * 10 + DigitValue(s[1]) <= 12
  {
  }

  /** A successful parse yields the month and year the text names, as the first
      instant of that month. */
  lemma ParseValue(s: string)
    requires Parse(s).Success?
    ensures Parse(s).value.month == DigitValue(s[0]) * 10 + DigitValue(s[1])
    ensures Parse(s).value.year ==
              DigitValue(s[3]) * 1000 + DigitValue(s[4]) * 100 + DigitValue(s[5]) * 10 + DigitValue(s[6])
  {
  }

  /** The four digits Layout writes for a year spell that year. */
  lemma YearDigits(y: int)
    requires 0 <= y <= 9999
    ensures var y1 := y / 10; var y2 := y1 / 10;
            (y2 / 10) * 1000 + (y2 % 10) * 100 + (y1 % 10) * 10 + y % 10 == y
  {
    var y1 := y / 10;
    var y2 := y1 / 10;
    assert y == y1 * 10 + y % 10;
    assert y1 == y2 * 10 + y1 % 10;
    assert y2 == (y2 / 10) * 10 + y2 % 10;
  }

  lemma MonthDigitsOf(a: nat, b: nat)
    requires b < 10
    ensures (a * 10 + b) / 10 == a && (a * 10 + b) % 10 == b
  {
  }

  /** The digits of a four-digit number are recovered by Layout's divisions. */
  lemma YearDigitsOf(a: nat, b: nat, c: nat, e: nat)
    requires a < 10 && b < 10 && c < 10 && e < 10
    ensures var y := a * 1000 + b * 100 + c * 10 + e; var y1 := y / 10; var y2 := y1 / 10;
            y2 / 10 == a && y2 % 10 == b && y1 % 10 == c && y % 10 == e
  {
    MonthDigitsOf(a * 100 + b * 10 + c, e);
    MonthDigitsOf(a * 10 + b, c);
    MonthDigitsOf(a, b);
  }

  /** Parsing the layout of a month gives that month back. */
  lemma ParseLayout(d: Month)
    ensures Parse(Layout(d)) == Success(d)
  {
    var s := Layout(d);
    ParseShape(s);
    ParseValue(s);
    YearDigits(d.year);
  }

  /** Laying out what Parse accepted gives the input back. */
  lemma LayoutParse(s: string)
    requires Parse(s).Success?
    ensures Layout(Parse(s).value) == s
  {
    ParseShape(s);
    ParseValue(s);
    var d := Parse(s).value;
    MonthDigitsOf(DigitValue(s[0]), DigitValue(s[1]));
    YearDigitsOf(DigitValue(s[3]), DigitValue(s[4]), DigitValue(s[5]), DigitValue(s[6]));
    assert Layout(d) == [DigitChar(s[0]), DigitChar(s[1]), '-',
                         DigitChar(s[3]), DigitChar(s[4]), DigitChar(s[5]), DigitChar(s[6])];
  }

  /** Parse accepts exactly the strings that some month lays out as. */
  lemma ParseAcceptsLayouts(s: string)
    ensures Parse(s).Success? <==> exists d: Month :: Layout(d) == s
  {
    if Parse(s).Success? {
      LayoutParse(s);
    }
    if d: Month :| Layout(d) == s {
      ParseLayout(d);
    }
  }

  /** Round trip from text: every accepted string formats back to itself, except
      "01-0001", which names Go's zero instant and so formats as "". */
  lemma FormatParse(s: string)
    requires Parse(s).Success?
    ensures Format(Parse(s).value) == if s == "01-0001" then "" else s
  {
    LayoutParse(s);
    ParseLayout(Zero);
  }

  /** Round trip from months: every non-zero month boundary parses back from its
      formatted text. */
  lemma ParseFormat(d: Month)
    requires d != Zero
    ensures Parse(Format(d)) == Success(d)
  {
    ParseLayout(d);
  }

  /** Texts the codec rejects: a one-digit month, months 13 and 00, year first,
      the empty string, trailing text and a day-granular date. */
  lemma ParseRejects()
    ensures Parse("7-2025").Failure?
    ensures Parse("13-2025").Failure?
    ensures Parse("00-2025").Failure?
    ensures Parse("2025-07").Failure?
    ensures Parse("").Failure?
    ensures Parse("07-2025 ").Failure?
    ensures Parse("01-07-2025").Failure?
  {
    ParseShape("7-2025");
    ParseShape("13-2025");
    ParseShape("00-2025");
    ParseShape("2025-07");
    ParseShape("07-2025 ");
    ParseShape("01-07-2025");
  }

  /** Two accepted examples and what they name. */
  lemma ParseAccepts()
    ensures Parse("07-2025") == Success(YearMonth(2025, 7))
    ensures Parse("12-0000") == Success(YearMonth(0, 12))
    ensures Parse("01-0001") == Success(Zero)
  {
  }
}
