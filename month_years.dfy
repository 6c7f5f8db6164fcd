/** Month-years as the routes and pages pass them around (`{month, year}`, both strings,
    the month zero-padded), the strings built from them, and the route that lists the
    month-years of a user's history (src/routes/api.js). */
module MonthYears {
  import opened Decimal
  import opened Seqs

  datatype Option<T> = None | Some(value: T)

  /** `{ month, year }` as the routes send it and the pages keep it. */
  datatype MonthYear = MonthYear(month: string, year: string)

  /** The local-time calendar fields of a JavaScript `Date`; `month` is
      `getMonth() + 1`, so 1 for January. */
  datatype CalendarDate = CalendarDate(year: int, month: nat, day: nat, hours: nat, minutes: nat, seconds: nat)

  predicate ValidDate(d: CalendarDate) {
    1 <= d.month <= 12 && 1 <= d.day <= 31 && d.hours < 24 && d.minutes < 60 && d.seconds < 60
  }

  /** The month-year the routes write for calendar year `year` and month `month`. */
  function Format(year: int, month: nat): MonthYear {
    MonthYear(TwoDigits(month), IntToString(year))
  }

  /** The month numeral's value, read from its two digits. */
  function MonthNumber(my: MonthYear): int
    requires |my.month| == 2
  {
    10 * DigitValue(my.month[0]) + DigitValue(my.month[1])
  }

  /** A month-year the routes could have produced: a two-digit month numeral "01".."12"
      and a year numeral as `toString()` writes it. */
  predicate WellFormed(my: MonthYear) {
    && |my.month| == 2 && IsDigit(my.month[0]) && IsDigit(my.month[1])
    && 1 <= MonthNumber(my) <= 12
    && IsCanonicalInt(my.year)
  }

  function YearNumber(my: MonthYear): int
    requires WellFormed(my)
  {
    ParseInt(my.year)
  }

  /** Months since January of year 0: consecutive months have consecutive indices. */
  function MonthIndex(my: MonthYear): int
    requires WellFormed(my)
  {
    YearNumber(my) * 12 + MonthNumber(my) - 1
  }

  /** Every month-year `Format` writes is well formed, with the numbers it was given. */
  lemma FormatWellFormed(year: int, month: nat)
    requires 1 <= month <= 12
    ensures WellFormed(Format(year, month)) && |Format(year, month).month| == 2
    ensures MonthNumber(Format(year, month)) == month && YearNumber(Format(year, month)) == year
  {
    TwoDigitsChars(month);
    ParseIntToString(year);
  }

  /** Conversely, a well-formed month-year is the one `Format` writes for its numbers. */
  lemma WellFormedFormat(my: MonthYear)
    requires WellFormed(my)
    ensures my == Format(YearNumber(my), MonthNumber(my))
  {
    TwoDigitsOfNumeral(my.month);
    CanonicalIntRoundTrip(my.year);
    assert Format(YearNumber(my), MonthNumber(my)) == MonthYear(my.month, my.year);
  }

  /** Two well-formed month-years with the same index are the same month-year. */
  lemma MonthIndexInjective(a: MonthYear, b: MonthYear)
    requires WellFormed(a) && WellFormed(b)
    ensures MonthIndex(a) == MonthIndex(b) <==> a == b
  {
    if MonthIndex(a) == MonthIndex(b) {
      assert YearNumber(a) == YearNumber(b) && MonthNumber(a) == MonthNumber(b);
      WellFormedFormat(a);
      WellFormedFormat(b);
    }
  }

  /** `dateToMonthYear` (src/routes/api.js:31-35): the month as a two-character numeral,
      the year as `toString()` gives it. */
  function DateToMonthYear(d: CalendarDate): (my: MonthYear)
    requires ValidDate(d)
    ensures WellFormed(my)
    ensures MonthNumber(my) == d.month && YearNumber(my) == d.year
  {
    FormatWellFormed(d.year, d.month);
    Format(d.year, d.month)
  }

  lemma FormatIndex(year: int, month: nat)
    requires 1 <= month <= 12
    ensures WellFormed(Format(year, month))
    ensures MonthIndex(Format(year, month)) == year * 12 + month - 1
  {
    FormatWellFormed(year, month);
  }

  /** The month-year with month index `i`. */
  function FromIndex(i: int): MonthYear {
    Format(i / 12, i % 12 + 1)
  }

  lemma FromIndexIndex(i: int)
    ensures WellFormed(FromIndex(i)) && MonthIndex(FromIndex(i)) == i
  {
    FormatIndex(i / 12, i % 12 + 1);
  }

  /** The calendar month before `my`, rendered the way `dateToMonthYear` renders: the
      month-year whose index is one less. */
  function PreviousMonth(my: MonthYear): MonthYear
    requires WellFormed(my)
  {
    FromIndex(MonthIndex(my) - 1)
  }

  /** The month before is well formed and its index is one less. */
  lemma PreviousMonthIndex(my: MonthYear)
    requires WellFormed(my)
    ensures WellFormed(PreviousMonth(my))
    ensures MonthIndex(PreviousMonth(my)) == MonthIndex(my) - 1
  {
    var i := MonthIndex(my) - 1;
    var p := FromIndex(i);
    FromIndexIndex(i);
    assert PreviousMonth(my) == p;
  }

  /** Across a year boundary too: January goes back to December of the year before,
      every other month to the month before in the same year. */
  lemma PreviousMonthFormat(my: MonthYear)
    requires WellFormed(my)
    ensures MonthNumber(my) == 1 ==> PreviousMonth(my) == Format(YearNumber(my) - 1, 12)
    ensures MonthNumber(my) > 1 ==> PreviousMonth(my) == Format(YearNumber(my), MonthNumber(my) - 1)
  {
    var i, y, m := MonthIndex(my) - 1, YearNumber(my), MonthNumber(my);
    assert i == 12 * y + m - 2;
    if m == 1 {
      assert i / 12 == y - 1 && i % 12 == 11;
    } else {
      assert i / 12 == y && i % 12 == m - 2;
    }
  }

  // ---------------------------------------------------------------- dropdown values

  /** The value of a month-year dropdown option: `${year}-${month}`. */
  function EncodeDropdownValue(my: MonthYear): string {
    my.year + "-" + my.month
  }

  /** `value.split('-')` read back as `{ month: parts[1], year: parts[0] }`; `None` stands
      for the `undefined` month of a value without a `-`. */
  function DecodeDropdownValue(value: string): Option<MonthYear> {
    var parts := Split(value, '-');
    if |parts| >= 2 then Some(MonthYear(parts[1], parts[0])) else None
  }

  /** Decoding an option value gives back the month-year it was built from, provided
      neither field contains a `-`. */
  lemma DropdownRoundTrip(my: MonthYear)
    requires '-' !in my.month && '-' !in my.year
    ensures DecodeDropdownValue(EncodeDropdownValue(my)) == Some(my)
  {
    assert EncodeDropdownValue(my) == my.year + ['-'] + my.month;
    SplitTwoParts(my.year, '-', my.month);
  }

  /** Every month-year of a non-negative year survives the dropdown. */
  lemma ListedMonthYearRoundTrip(my: MonthYear)
    requires WellFormed(my) && YearNumber(my) >= 0
    ensures DecodeDropdownValue(EncodeDropdownValue(my)) == Some(my)
  {
    CanonicalIntRoundTrip(my.year);
    assert my.year == NatToString(YearNumber(my));
    assert AllDigits(my.month);
    DropdownRoundTrip(my);
  }

  // ------------------------------------------------------- timestamps and month keys

  /** The `month` column written by the budget routes (src/routes/api.js:391-393). */
  function BudgetMonthKey(d: CalendarDate): string {
    IntToString(d.year) + "-" + TwoDigits(d.month)
  }

  /** The `date` column written by `/add-income` and `/add-expense`
      (src/routes/api.js:313-316): the year and padded month as in `BudgetMonthKey`, then
      the padded day and the unpadded hours, minutes and seconds. */
  function Timestamp(d: CalendarDate): string {
    BudgetMonthKey(d) + DayAndTime(d)
  }

  function DayAndTime(d: CalendarDate): string {
    "-" + TwoDigits(d.day) + " " + NatToString(d.hours) + ":" + NatToString(d.minutes) + ":" + NatToString(d.seconds)
  }

  /** SQLite `substr(s, start, length)` for a positive `start` (1-based). */
  function Substr(s: string, start: nat, length: nat): (r: string)
    requires start >= 1
    ensures start - 1 + length <= |s| ==> r == s[start - 1..start - 1 + length]
  {
    var from := start - 1;
    if from >= |s| then "" else s[from..if from + length <= |s| then from + length else |s|]
  }

  /** The month filter of the queries: `substr(date, 1, 4) = year AND substr(date, 6, 2) = month`. */
  predicate InMonth(date: string, month: string, year: string) {
    Substr(date, 1, 4) == year && Substr(date, 6, 2) == month
  }

  /** Where the year and month sit in `year + "-" + month + rest`. */
  lemma PrefixSlices(y: string, m: string, rest: string)
    requires |y| == 4 && |m| == 2
    ensures Substr(y + "-" + m + rest, 1, 4) == y
    ensures Substr(y + "-" + m + rest, 6, 2) == m
  {
    var s := y + "-" + m + rest;
    assert s[0..4] == y;
    assert s[5..7] == m;
  }

  /** A budget month key is the dropdown encoding of the month-year, and any string that
      starts with it (a stored timestamp, the key itself) passes the month filter for
      exactly that month-year, as long as the year has four digits. */
  lemma BudgetMonthKeyInMonth(d: CalendarDate, rest: string, month: string, year: string)
    requires ValidDate(d) && 1000 <= d.year <= 9999
    ensures BudgetMonthKey(d) == EncodeDropdownValue(DateToMonthYear(d))
    ensures InMonth(BudgetMonthKey(d) + rest, month, year) <==> MonthYear(month, year) == DateToMonthYear(d)
  {
    var y, m := IntToString(d.year), TwoDigits(d.month);
    NatToStringLength(d.year);
    TwoDigitsRoundTrip(d.month);
    PrefixSlices(y, m, rest);
    assert DateToMonthYear(d) == MonthYear(m, y);
  }

  /** A stored timestamp passes the month filter for exactly one query, the month-year of
      its own date (four-digit years). */
  lemma TimestampInMonth(d: CalendarDate, month: string, year: string)
    requires ValidDate(d) && 1000 <= d.year <= 9999
    ensures InMonth(Timestamp(d), month, year) <==> MonthYear(month, year) == DateToMonthYear(d)
  {
    BudgetMonthKeyInMonth(d, DayAndTime(d), month, year);
  }

  /** The budget row written for a date is the one the budget query selects for its
      month-year. */
  lemma BudgetKeyInMonth(d: CalendarDate, month: string, year: string)
    requires ValidDate(d) && 1000 <= d.year <= 9999
    ensures InMonth(BudgetMonthKey(d), month, year) <==> MonthYear(month, year) == DateToMonthYear(d)
  {
    BudgetMonthKeyInMonth(d, "", month, year);
    assert BudgetMonthKey(d) + "" == BudgetMonthKey(d);
  }

  // ------------------------------------------------------------ month-year listing

  /** The test of `accumulator.some(my => my.month === … && my.year === …)`. */
  predicate SameMonthYear(a: MonthYear, b: MonthYear) {
    a.month == b.month && a.year == b.year
  }

  /** Comparing month and year field by field is equality of month-years. */
  lemma SameMonthYearIn(s: seq<MonthYear>, my: MonthYear)
    ensures (exists k :: 0 <= k < |s| && SameMonthYear(s[k], my)) <==> my in s
  {
    if my in s {
      var k :| 0 <= k < |s| && s[k] == my;
      assert SameMonthYear(s[k], my);
    }
  }

  /** The `reduce` of src/routes/api.js:43-48 (and 92-97): keep a month-year unless an
      equal one is already in the accumulator. */
  method UniqueMonthYears(monthYears: seq<MonthYear>) returns (unique: seq<MonthYear>)
    ensures unique == FirstOccurrences(monthYears)
    ensures NoDuplicates(unique)
    ensures forall my :: my in unique <==> my in monthYears
  {
    unique := [];
    var i := 0;
    while i < |monthYears|
      invariant 0 <= i <= |monthYears|
      invariant unique == FirstOccurrences(monthYears[..i])
    {
      var my := monthYears[i];
      FirstOccurrencesElements(monthYears[..i]);
      SameMonthYearIn(unique, my);
      ghost var before := unique;
      if !(exists k :: 0 <= k < |unique| && SameMonthYear(unique[k], my)) {
        unique := unique + [my];
      }
      assert unique == before + (if my in monthYears[..i] then [] else [my]);
      assert monthYears[..i + 1] == monthYears[..i] + [my];
      FirstOccurrencesSnoc(monthYears[..i], my);
      i := i + 1;
    }
    assert monthYears[..|monthYears|] == monthYears;
    FirstOccurrencesNoDuplicates(monthYears);
    FirstOccurrencesElements(monthYears);
  }

  /** `incomeDates.map(… dateToMonthYear(new Date(row.date)))`. */
  function MonthYearsOf(dates: seq<CalendarDate>): seq<MonthYear>
    requires forall d :: d in dates ==> ValidDate(d)
  {
    seq(|dates|, i requires 0 <= i < |dates| => DateToMonthYear(dates[i]))
  }

  /** Every month-year of a history is well formed. */
  lemma MonthYearsOfWellFormed(dates: seq<CalendarDate>)
    requires forall d :: d in dates ==> ValidDate(d)
    ensures forall my :: my in MonthYearsOf(dates) ==> WellFormed(my)
  {
    var r := MonthYearsOf(dates);
    forall my | my in r ensures WellFormed(my) {
      var i :| 0 <= i < |r| && r[i] == my;
      assert r[i] == DateToMonthYear(dates[i]);
    }
  }

  /** What `/income-month-years` and `/expenses-month-years` send: a JSON list of
      month-years, or status 500 when the query throws. */
  datatype MonthYearsReply = Listed(monthYears: seq<MonthYear>) | ServerError

  /** The handlers of `/income-month-years` and `/expenses-month-years`
      (src/routes/api.js:37-53, 86-102): a failing query answers 500; otherwise the
      distinct month-years of the history in first-seen order, or the current month-year
      alone when the history is empty. */
  method MonthYearsResponse(dates: seq<CalendarDate>, now: CalendarDate, queryFails: bool) returns (r: MonthYearsReply)
    requires ValidDate(now)
    requires forall d :: d in dates ==> ValidDate(d)
    ensures r.ServerError? <==> queryFails
    ensures r.Listed? && dates == [] ==> r.monthYears == [DateToMonthYear(now)]
    ensures r.Listed? && dates != [] ==> r.monthYears == FirstOccurrences(MonthYearsOf(dates))
    ensures r.Listed? ==> |r.monthYears| >= 1 && NoDuplicates(r.monthYears)
    ensures r.Listed? ==> forall i :: 0 <= i < |dates| ==> DateToMonthYear(dates[i]) in r.monthYears
    ensures r.Listed? ==> forall my :: my in r.monthYears ==> WellFormed(my)
  {
    if queryFails {
      return ServerError;
    }
    var monthYears := MonthYearsOf(dates);
    var unique := UniqueMonthYears(monthYears);
    var list: seq<MonthYear>;
    if |unique| > 0 {
      list := unique;
    } else {
      list := [DateToMonthYear(now)];
    }
    assert |monthYears| == |dates|;
    assert dates != [] ==> monthYears[0] in unique;
    forall i | 0 <= i < |dates| ensures DateToMonthYear(dates[i]) in list {
      assert monthYears[i] == DateToMonthYear(dates[i]);
    }
    MonthYearsOfWellFormed(dates);
    forall my | my in list ensures WellFormed(my) {
      if |unique| > 0 {
        assert my in monthYears;
      }
    }
    r := Listed(list);
  }
}
