/** The values the two transforms read and write: what a CSV cell or a JSON
    field holds, the result of lodash's `_.toNumber`, and the UTC calendar date
    that moment's `DD/MM/YYYY` parser produces. */
module Values {
  import opened Strings

  /** A JavaScript number as far as the model needs it: a value, or NaN. The
      value is kept as a mathematical real; floating-point rounding is not
      modelled. */
  datatype Number = Real(x: real) | NaN

  /** A day of the proleptic Gregorian calendar, at 00:00 UTC. */
  datatype CalendarDate = CalendarDate(year: int, month: int, day: int)

  /** The value of one field: `undefined`, a string (every CSV cell is one), a number,
      a JavaScript `Date` that holds a day, or an invalid `Date`. */
  datatype Value = Undefined | Text(s: string) | Num(n: Number) | Day(date: CalendarDate) | InvalidDate

  predicate IsLeapYear(y: int) {
    y % 4 == 0 && (y % 100 != 0 || y % 400 == 0)
  }

  function DaysInMonth(y: int, m: int): int
    requires 1 <= m <= 12
  {
    if m == 2 then (if IsLeapYear(y) then 29 else 28)
    else if m == 4 || m == 6 || m == 9 || m == 11 then 30
    else 31
  }

  /** A day that exists: moment reports a month or day out of range as an
      invalid date rather than rolling it over. */
  predicate ValidDate(d: CalendarDate) {
    1 <= d.month <= 12 && 1 <= d.day <= DaysInMonth(d.year, d.month)
  }

  /** Days from 1970-01-01 to March 1 of `y`, by the usual era decomposition
      of the Gregorian calendar into 400-year eras that begin on March 1;
      `/` here floors, which is what the decomposition needs. */
  function MarchFirst(y: int): int {
    var era := y / 400;
    var yoe := y - era * 400;
    era * 146097 + yoe * 365 + yoe / 4 - yoe / 100 - 719468
  }

  /** Days from March 1 to the first of month `m` in a year that starts on
      March 1 (January and February close it). */
  function MonthOffset(m: int): int {
    var mp := (m + 9) % 12;
    (153 * mp + 2) / 5
  }

  /** Days from 1970-01-01 to `d` (negative before it). */
  function DaysFromEpoch(d: CalendarDate): (n: int)
    ensures d == CalendarDate(1970, 1, 1) ==> n == 0
  {
    var y := if d.month <= 2 then d.year - 1 else d.year;
    MarchFirst(y) + MonthOffset(d.month) + d.day - 1
  }

  /** Each month's offset is the previous month's plus that month's length;
      February is the last month of the year the decomposition uses. */
  lemma MonthOffsetStep(y: int, m: int)
    requires 1 <= m <= 12 && m != 2
    ensures MonthOffset(if m == 12 then 1 else m + 1) == MonthOffset(m) + DaysInMonth(y, m)
  {
  }

  lemma FebruaryOffset()
    ensures MonthOffset(2) == 337 && MonthOffset(3) == 0
  {
  }

  /** The day after a day that exists. */
  function NextDay(d: CalendarDate): (r: CalendarDate)
    requires ValidDate(d)
    ensures ValidDate(r)
    ensures r.year == d.year || (r.year == d.year + 1 && r.month == 1 && r.day == 1)
  {
    if d.day < DaysInMonth(d.year, d.month) then CalendarDate(d.year, d.month, d.day + 1)
    else if d.month < 12 then CalendarDate(d.year, d.month + 1, 1)
    else CalendarDate(d.year + 1, 1, 1)
  }

  /** 1970-01-01 is day 0. */
  lemma DaysFromEpochAnchor()
    ensures DaysFromEpoch(CalendarDate(1970, 1, 1)) == 0
  {
  }

  /** Two days across leap-year Februaries: 2000-03-01 and 2024-03-10. */
  lemma DaysFromEpochExamples()
    ensures DaysFromEpoch(CalendarDate(2000, 3, 1)) == 11017
    ensures DaysFromEpoch(CalendarDate(2024, 3, 10)) == 19792
  {
    assert MarchFirst(2000) == 11017;
    assert MarchFirst(2024) == 19783;
  }

  /** Inside an era of 400 years, the year from March 1 of `y` has 366 days
      exactly when `y + 1` is a leap year. */
  lemma MarchYearInEra(y: int)
    requires y % 400 != 399
    ensures MarchFirst(y + 1) - MarchFirst(y) == if IsLeapYear(y + 1) then 366 else 365
  {
    var e := y / 400;
    var q := y - e * 400;
    assert 0 <= q < 399;
    assert MarchFirst(y + 1) == e * 146097 + (q + 1) * 365 + (q + 1) / 4 - (q + 1) / 100 - 719468 by {
      assert (y + 1) / 400 == e;
    }
    DivStep(q);
    assert IsLeapYear(y + 1) <==> (q + 1) % 4 == 0 && (q + 1) % 100 != 0 by {
      ModShift(e, q + 1);
    }
  }

  lemma DivStep(q: int)
    ensures (q + 1) / 4 - q / 4 == if (q + 1) % 4 == 0 then 1 else 0
    ensures (q + 1) / 100 - q / 100 == if (q + 1) % 100 == 0 then 1 else 0
  {
  }

  /** Whole eras do not change the position within the 4-, 100- and 400-year
      cycles. */
  lemma ModShift(e: int, r: int)
    ensures (400 * e + r) % 4 == r % 4 && (400 * e + r) % 100 == r % 100
    ensures (400 * e + r) % 400 == r % 400
  {
    ModShift4(100 * e, r);
    ModShift100(4 * e, r);
    ModShift400(e, r);
  }

  lemma ModShift4(k: int, r: int)
    ensures (4 * k + r) % 4 == r % 4
  {
  }

  lemma ModShift100(k: int, r: int)
    ensures (100 * k + r) % 100 == r % 100
  {
  }

  lemma ModShift400(k: int, r: int)
    ensures (400 * k + r) % 400 == r % 400
  {
  }

  /** The last year of an era runs into a year divisible by 400, a leap year. */
  lemma MarchYearEraEnd(y: int)
    requires y % 400 == 399
    ensures MarchFirst(y + 1) - MarchFirst(y) == 366
    ensures IsLeapYear(y + 1)
  {
    var e := y / 400;
    assert y + 1 == 400 * (e + 1) + 0;
    ModShift(e + 1, 0);
    assert MarchFirst(y) == e * 146097 + 399 * 365 + 99 - 3 - 719468;
    assert MarchFirst(y + 1) == (e + 1) * 146097 - 719468 by {
      assert (y + 1) / 400 == e + 1;
    }
  }

  /** The year from March 1 of `y` to March 1 of `y + 1` has as many days
      as the Gregorian year `y + 1`, whose February it holds. */
  lemma MarchYearLength(y: int)
    ensures MarchFirst(y + 1) - MarchFirst(y) == if IsLeapYear(y + 1) then 366 else 365
  {
    if y % 400 == 399 {
      MarchYearEraEnd(y);
    } else {
      MarchYearInEra(y);
    }
  }

  /** Consecutive days are consecutive day numbers, so with the anchor above
      `DaysFromEpoch` counts days since 1970-01-01. */
  lemma DaysFromEpochNext(d: CalendarDate)
    requires ValidDate(d)
    ensures DaysFromEpoch(NextDay(d)) == DaysFromEpoch(d) + 1
  {
    if d.day < DaysInMonth(d.year, d.month) {
      NextInMonth(d);
    } else if d.month == 2 {
      NextAfterFebruary(d);
    } else {
      NextAfterMonth(d);
    }
  }

  lemma NextInMonth(d: CalendarDate)
    requires ValidDate(d) && d.day < DaysInMonth(d.year, d.month)
    ensures DaysFromEpoch(CalendarDate(d.year, d.month, d.day + 1)) == DaysFromEpoch(d) + 1
  {
  }

  lemma NextAfterMonth(d: CalendarDate)
    requires 1 <= d.month <= 12 && d.month != 2 && d.day == DaysInMonth(d.year, d.month)
    ensures DaysFromEpoch(if d.month < 12 then CalendarDate(d.year, d.month + 1, 1) else CalendarDate(d.year + 1, 1, 1)) ==
      DaysFromEpoch(d) + 1
  {
    MonthOffsetStep(d.year, d.month);
  }

  lemma NextAfterFebruary(d: CalendarDate)
    requires d.month == 2 && d.day == DaysInMonth(d.year, 2)
    ensures DaysFromEpoch(CalendarDate(d.year, 3, 1)) == DaysFromEpoch(d) + 1
  {
    var y := d.year - 1;
    FebruaryOffset();
    assert DaysFromEpoch(d) == MarchFirst(y) + 337 + d.day - 1;
    assert DaysFromEpoch(CalendarDate(y + 1, 3, 1)) == MarchFirst(y + 1);
    assert d.day == if IsLeapYear(y + 1) then 29 else 28;
    MarchYearLength(y);
  }

  /** `_.toNumber(v)`. How a string is read as a number is left to `parse`,
      which may give NaN; the other cases are fixed: `undefined` and an invalid
      date give NaN, a number stays itself, and a date gives its milliseconds
      since the epoch. */
  function ToNumber(parse: string -> Number, v: Value): (r: Number)
    ensures v.Undefined? || v.InvalidDate? ==> r == NaN
    ensures v.Num? ==> r == v.n
    ensures v.Text? ==> r == parse(v.s)
    ensures v.Day? ==> r.Real? && r.x == (DaysFromEpoch(v.date) * 86400000) as real
    ensures v == Day(CalendarDate(1970, 1, 1)) ==> r == Real(0.0)
  {
    match v
    case Undefined => NaN
    case Text(s) => parse(s)
    case Num(n) => n
    case Day(d) => Real((DaysFromEpoch(d) * 86400000) as real)
    case InvalidDate => NaN
  }

  /** A `Date` counts milliseconds since the epoch: the number of the day
      after a day is that day's number plus one day of milliseconds. */
  lemma ToNumberNextDay(parse: string -> Number, d: CalendarDate)
    requires ValidDate(d)
    ensures ToNumber(parse, Day(NextDay(d))) == Real(ToNumber(parse, Day(d)).x + 86400000.0)
  {
    DaysFromEpochNext(d);
  }

  /** The year a `YYYY` token stands for: moment reads a two-digit year as
      1969-2068 and any other length literally. */
  function YearOf(digits: string): (year: int)
    requires AllDigits(digits)
    ensures |digits| == 2 ==> 1969 <= year <= 2068 && year % 100 == DigitsValue(digits)
    ensures |digits| != 2 ==> year == DigitsValue(digits)
  {
    DigitsValueBound(digits);
    assert Pow10(2) == 100;
    var n := DigitsValue(digits);
    if |digits| == 2 then n + (if n > 68 then 1900 else 2000) else n
  }

  /** moment.utc(s, 'DD/MM/YYYY'): one or two day digits, one or two month
      digits and one to four year digits, separated by '/'; anything else, and
      any day that does not exist, is an invalid date. */
  function ParseDayMonthYear(s: string): (r: Value)
    ensures r.Day? || r == InvalidDate
    ensures r.Day? ==> ValidDate(r.date)
  {
    var parts := Split(s, '/');
    if |parts| == 3
       && AllDigits(parts[0]) && 1 <= |parts[0]| <= 2
       && AllDigits(parts[1]) && 1 <= |parts[1]| <= 2
       && AllDigits(parts[2]) && 1 <= |parts[2]| <= 4
    then
      var d := CalendarDate(YearOf(parts[2]), DigitsValue(parts[1]), DigitsValue(parts[0]));
      if ValidDate(d) then Day(d) else InvalidDate
    else
      InvalidDate
  }

  /** The canonical `DD/MM/YYYY` text of a day. */
  function FormatDayMonthYear(d: CalendarDate): string
    requires 0 <= d.year && d.month >= 0 && d.day >= 0
  {
    PadDigits(d.day, 2) + "/" + PadDigits(d.month, 2) + "/" + PadDigits(d.year, 4)
  }

  /** The canonical text splits on '/' into its three padded fields. */
  lemma SplitFormat(d: CalendarDate)
    requires 0 <= d.year && d.month >= 0 && d.day >= 0
    ensures Split(FormatDayMonthYear(d), '/') == [PadDigits(d.day, 2), PadDigits(d.month, 2), PadDigits(d.year, 4)]
  {
    var dd, mm, yyyy := PadDigits(d.day, 2), PadDigits(d.month, 2), PadDigits(d.year, 4);
    assert Join([yyyy], '/') == yyyy;
    assert Join([mm, yyyy], '/') == mm + "/" + yyyy;
    assert Join([dd, mm, yyyy], '/') == dd + "/" + (mm + "/" + yyyy);
    assert FormatDayMonthYear(d) == Join([dd, mm, yyyy], '/');
    forall i | 0 <= i < 3 ensures '/' !in [dd, mm, yyyy][i] {
      var p := [dd, mm, yyyy][i];
      assert AllDigits(p);
      assert forall k :: 0 <= k < |p| ==> p[k] != '/';
    }
    SplitJoin([dd, mm, yyyy], '/');
  }

  /** Parsing the canonical text of an existing day with a four-digit year
      gives that day back. */
  lemma ParseFormatDayMonthYear(d: CalendarDate)
    requires ValidDate(d) && 0 <= d.year <= 9999
    ensures ParseDayMonthYear(FormatDayMonthYear(d)) == Day(d)
  {
    var dd, mm, yyyy := PadDigits(d.day, 2), PadDigits(d.month, 2), PadDigits(d.year, 4);
    SplitFormat(d);
    assert Pow10(2) == 100 && Pow10(4) == 10000;
    DigitsValuePad(d.day, 2);
    DigitsValuePad(d.month, 2);
    DigitsValuePad(d.year, 4);
    assert YearOf(yyyy) == d.year;
  }

  /** A run of digits holds no '/'. */
  lemma DigitsHaveNoSlash(s: string)
    requires AllDigits(s)
    ensures '/' !in s
  {
    assert forall k :: 0 <= k < |s| ==> s[k] != '/';
  }

  /** Three '/'-free pieces joined by '/' split back into those pieces. */
  lemma SplitThree(a: string, b: string, c: string)
    requires '/' !in a && '/' !in b && '/' !in c
    ensures Split(a + "/" + b + "/" + c, '/') == [a, b, c]
  {
    assert Join([c], '/') == c;
    assert Join([b, c], '/') == b + "/" + c;
    assert Join([a, b, c], '/') == a + "/" + (b + "/" + c);
    assert a + "/" + b + "/" + c == a + "/" + (b + "/" + c);
    forall i | 0 <= i < 3 ensures '/' !in [a, b, c][i] {
    }
    SplitJoin([a, b, c], '/');
  }

  /** Every text of the form D{1,2}/M{1,2}/Y{1,4} parses to the day its digit
      runs denote when that day exists, and to an invalid date when it does
      not (31/02 is not rolled over into March). */
  lemma ParseFields(dd: string, mm: string, yy: string)
    requires AllDigits(dd) && 1 <= |dd| <= 2
    requires AllDigits(mm) && 1 <= |mm| <= 2
    requires AllDigits(yy) && 1 <= |yy| <= 4
    ensures ValidDate(CalendarDate(YearOf(yy), DigitsValue(mm), DigitsValue(dd))) ==>
      ParseDayMonthYear(dd + "/" + mm + "/" + yy) == Day(CalendarDate(YearOf(yy), DigitsValue(mm), DigitsValue(dd)))
    ensures !ValidDate(CalendarDate(YearOf(yy), DigitsValue(mm), DigitsValue(dd))) ==>
      ParseDayMonthYear(dd + "/" + mm + "/" + yy) == InvalidDate
  {
    DigitsHaveNoSlash(dd);
    DigitsHaveNoSlash(mm);
    DigitsHaveNoSlash(yy);
    SplitThree(dd, mm, yy);
  }

  /** Conversely, a text that parses to a day is three digit runs of those
      widths, separated by '/', and the day is the one they denote. */
  lemma ParsedFields(s: string)
    requires ParseDayMonthYear(s).Day?
    ensures |Split(s, '/')| == 3
    ensures s == Split(s, '/')[0] + "/" + Split(s, '/')[1] + "/" + Split(s, '/')[2]
    ensures AllDigits(Split(s, '/')[0]) && 1 <= |Split(s, '/')[0]| <= 2
    ensures AllDigits(Split(s, '/')[1]) && 1 <= |Split(s, '/')[1]| <= 2
    ensures AllDigits(Split(s, '/')[2]) && 1 <= |Split(s, '/')[2]| <= 4
    ensures ParseDayMonthYear(s).date ==
      CalendarDate(YearOf(Split(s, '/')[2]), DigitsValue(Split(s, '/')[1]), DigitsValue(Split(s, '/')[0]))
  {
    var p := Split(s, '/');
    JoinSplit(s, '/');
    assert Join(p, '/') == p[0] + "/" + (p[1] + "/" + p[2]) by {
      assert p[1..][0] == p[1] && p[1..][1..] == [p[2]];
      assert Join(p[1..][1..], '/') == p[2];
      assert Join(p[1..], '/') == p[1] + "/" + p[2];
    }
    assert p[0] + "/" + p[1] + "/" + p[2] == p[0] + "/" + (p[1] + "/" + p[2]);
  }

  /** A run of `n` digits stands for less than `10^n`. */
  lemma {:induction false} DigitsValueBound(s: string)
    requires AllDigits(s)
    ensures DigitsValue(s) < Pow10(|s|)
  {
    if s != [] {
      DigitsValueBound(s[..|s| - 1]);
    }
  }

  /** A year token of one to four digits names a year from 0 to 9999 (the
      pivot itself is `YearOf`'s contract). */
  lemma YearOfRange(yy: string)
    requires AllDigits(yy) && 1 <= |yy| <= 4
    ensures 0 <= YearOf(yy) < 10000
  {
    DigitsValueBound(yy);
    assert Pow10(1) == 10 && Pow10(2) == 100 && Pow10(3) == 1000 && Pow10(4) == 10000;
  }

  /** The canonical text of a day that does not exist (day and month below
      100, year below 10000) parses to an invalid date. */
  lemma FormatInvalidDay(d: CalendarDate)
    requires !ValidDate(d) && 0 <= d.year <= 9999 && 0 <= d.month < 100 && 0 <= d.day < 100
    ensures ParseDayMonthYear(FormatDayMonthYear(d)) == InvalidDate
  {
    var dd, mm, yyyy := PadDigits(d.day, 2), PadDigits(d.month, 2), PadDigits(d.year, 4);
    SplitFormat(d);
    assert Pow10(2) == 100 && Pow10(4) == 10000;
    DigitsValuePad(d.day, 2);
    DigitsValuePad(d.month, 2);
    DigitsValuePad(d.year, 4);
    assert YearOf(yyyy) == d.year;
  }

  /** `31/02/2020` does not exist: it is invalid, not 2 March. */
  lemma ParseOverflowExample()
    ensures ParseDayMonthYear("31/02/2020") == InvalidDate
  {
    assert "2020"[..3] == "202" && "202"[..2] == "20" && "20"[..1] == "2" && "2"[..0] == "";
    assert DigitsValue("2") == 2;
    assert DigitsValue("20") == 20;
    assert DigitsValue("202") == 202;
    assert DigitsValue("2020") == 2020;
    assert "02"[..1] == "0" && "0"[..0] == "" && "31"[..1] == "3" && "3"[..0] == "";
    assert DigitsValue("02") == 2 && DigitsValue("31") == 31;
    var d := CalendarDate(YearOf("2020"), DigitsValue("02"), DigitsValue("31"));
    assert d == CalendarDate(2020, 2, 31);
    assert !ValidDate(d);
    ParseFields("31", "02", "2020");
    assert "31/02/2020" == "31" + "/" + "02" + "/" + "2020";
  }

  /** `1/3/69` is 1 March 1969: one-digit fields, and `69` read as 1969. */
  lemma ParsePivotExample()
    ensures ParseDayMonthYear("1/3/69") == Day(CalendarDate(1969, 3, 1))
  {
    assert "69"[..1] == "6" && "6"[..0] == "" && "3"[..0] == "" && "1"[..0] == "";
    assert DigitsValue("69") == 69 && DigitsValue("3") == 3 && DigitsValue("1") == 1;
    assert YearOf("69") == 1969;
    var d := CalendarDate(YearOf("69"), DigitsValue("3"), DigitsValue("1"));
    assert d == CalendarDate(1969, 3, 1);
    assert ValidDate(d);
    ParseFields("1", "3", "69");
    assert "1/3/69" == "1" + "/" + "3" + "/" + "69";
  }

  /** moment.utc(v, 'DD/MM/YYYY').toDate(): a string is parsed, a `Date` is
      taken as it is (moment ignores the format for one), and every other
      input gives an invalid date. */
  function ParseDate(v: Value): (r: Value)
    ensures r.Day? || r == InvalidDate
  {
    match v
    case Text(s) => ParseDayMonthYear(s)
    case Day(d) => Day(d)
    case _ => InvalidDate
  }
}
