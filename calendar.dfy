/** Calendar dates as the `time` crate's `Date` holds them, and
    `Date::parse` with the format description `[year]-[month]-[day]`. */
module Calendar {
  import opened Wrappers
  import opened Numbers

  /** A proleptic Gregorian date. */
  datatype Date = Date(year: int, month: int, day: int)

  /** The range of `Date` without the crate's `large-dates` feature. */
  const MIN_YEAR: int := -9999
  const MAX_YEAR: int := 9999

  predicate IsLeapYear(year: int) {
    year % 4 == 0 && (year % 100 != 0 || year % 400 == 0)
  }

  function DaysInMonth(year: int, month: int): (n: int)
    requires 1 <= month <= 12
    ensures 28 <= n <= 31
    ensures n == 29 <==> month == 2 && IsLeapYear(year)
  {
    if month == 2 then (if IsLeapYear(year) then 29 else 28)
    else if month == 4 || month == 6 || month == 9 || month == 11 then 30
    else 31
  }

  /** The dates `Date::from_calendar_date` accepts. */
  predicate IsValidDate(d: Date) {
    && MIN_YEAR <= d.year <= MAX_YEAR
    && 1 <= d.month <= 12
    && 1 <= d.day <= DaysInMonth(d.year, d.month)
  }

  /** The unsigned part `YYYY-MM-DD` of the format: four digits, `-`, two
      digits, `-`, two digits, and nothing after them. */
  function ParseFields(text: string): Option<(nat, nat, nat)> {
    if |text| != 10 || !AllDigits(text[..4]) || text[4] != '-'
       || !AllDigits(text[5..7]) || text[7] != '-' || !AllDigits(text[8..])
    then None
    else Some((DigitsValue(text[..4]), DigitsValue(text[5..7]), DigitsValue(text[8..])))
  }

  function FormatFields(year: nat, month: nat, day: nat): (s: string)
    ensures |s| == 10
  {
    PadDigits(year, 4) + "-" + PadDigits(month, 2) + "-" + PadDigits(day, 2)
  }

  /** The fields read back from their rendering. */
  lemma FieldsRoundTrip(year: nat, month: nat, day: nat)
    requires year < 10000 && month < 100 && day < 100
    ensures ParseFields(FormatFields(year, month, day)) == Some((year, month, day))
  {
    var s := FormatFields(year, month, day);
    assert Pow10(4) == 10000 by { assert Pow10(2) == 100; }
    PadDigitsValue(year, 4);
    PadDigitsValue(month, 2);
    PadDigitsValue(day, 2);
    assert s[..4] == PadDigits(year, 4);
    assert s[5..7] == PadDigits(month, 2);
    assert s[8..] == PadDigits(day, 2);
  }

  /** Text that reads as fields is the rendering of those fields. */
  lemma FieldsSpelling(text: string)
    requires ParseFields(text).Some?
    ensures var (y, m, d) := ParseFields(text).value; text == FormatFields(y, m, d)
  {
    DigitsPadRoundTrip(text[..4]);
    DigitsPadRoundTrip(text[5..7]);
    DigitsPadRoundTrip(text[8..]);
    assert text == text[..4] + "-" + text[5..7] + "-" + text[8..];
  }

  /** `Date::parse(s, [year]-[month]-[day]).ok()`. `[year]` is an optional
      sign and exactly four digits, `[month]` and `[day]` exactly two digits
      each (zero padding is the default); the parsed fields must form a real
      date and nothing may follow the day. */
  function ParseDate(s: string): (r: Option<Date>)
    ensures r.Some? ==> IsValidDate(r.value)
  {
    var signed := |s| > 0 && (s[0] == '+' || s[0] == '-');
    match ParseFields(if signed then s[1..] else s)
    case None => None
    case Some((y, m, d)) =>
      var date := Date(if signed && s[0] == '-' then -(y as int) else y, m, d);
      if IsValidDate(date) then Some(date) else None
  }

  /** `Date`'s `Display`: the year zero-padded to four digits with a `-`
      when negative, then the month and the day as two digits. */
  function FormatDate(d: Date): (s: string)
    requires IsValidDate(d)
    ensures |s| == (if d.year < 0 then 11 else 10)
  {
    var magnitude: nat := if d.year < 0 then -d.year else d.year;
    (if d.year < 0 then "-" else "") + FormatFields(magnitude, d.month, d.day)
  }

  /** Parsing the rendering of a valid date gives the date back. */
  lemma ParseFormatDate(d: Date)
    requires IsValidDate(d)
    ensures ParseDate(FormatDate(d)) == Some(d)
  {
    var magnitude: nat := if d.year < 0 then -d.year else d.year;
    var body := FormatFields(magnitude, d.month, d.day);
    FieldsRoundTrip(magnitude, d.month, d.day);
    var s := FormatDate(d);
    if d.year < 0 {
      assert s[1..] == body;
    } else {
      assert s == body;
      assert IsDigit(body[0]);
    }
  }

  /** What a successful parse accepted is the rendering of the date, with at
      most a `+` in front, or a `-` in front of the year zero. */
  lemma ParseDateSpelling(s: string, d: Date)
    requires ParseDate(s) == Some(d)
    ensures s == FormatDate(d) || (d.year >= 0 && s == "+" + FormatDate(d))
            || (d.year == 0 && s == "-" + FormatDate(d))
  {
    var signed := |s| > 0 && (s[0] == '+' || s[0] == '-');
    var rest := if signed then s[1..] else s;
    FieldsSpelling(rest);
    var (y, m, dd) := ParseFields(rest).value;
    assert rest == FormatFields(y, m, dd);
    assert d.month == m && d.day == dd;
    if !signed {
      assert FormatDate(d) == rest;
    } else {
      assert s == [s[0]] + rest;
      if s[0] == '+' || y == 0 {
        assert d.year == y;
        assert FormatDate(d) == rest;
      } else {
        assert d.year == -(y as int);
        assert FormatDate(d) == "-" + rest;
      }
    }
  }
}
