/** The summary page (src/public/scripts/summaryPage.js): its selected month-year, the
    three-month window ending at it, and the balance and savings rate of each month of
    the window. */
module SummaryPage {
  import opened Seqs
  import opened Decimal
  import opened MonthYears
  import opened Ledger

  /** `numberOfMonthsToView`. */
  const MonthsToView := 3

  predicate AllWellFormed(w: seq<MonthYear>) {
    forall my :: my in w ==> WellFormed(my)
  }

  function Min(a: int, b: int): int {
    if a < b then a else b
  }

  // ------------------------------------------------------------- the month window

  /** `monthYears.findIndex(matchesCurrentMonthYear)`: the index of the first entry with
      the same month and year, or -1. */
  function FindIndex(s: seq<MonthYear>, my: MonthYear): (i: int)
    ensures -1 <= i < |s|
    ensures i == -1 <==> my !in s
    ensures 0 <= i ==> s[i] == my && forall k :: 0 <= k < i ==> s[k] != my
  {
    FindIndexFrom(s, my, 0)
  }

  /** The search from index `j` on. */
  function FindIndexFrom(s: seq<MonthYear>, my: MonthYear, j: nat): (i: int)
    requires j <= |s|
    ensures i == -1 || j <= i < |s|
    ensures i == -1 ==> forall k :: j <= k < |s| ==> s[k] != my
    ensures 0 <= i ==> s[i] == my && forall k :: j <= k < i ==> s[k] != my
    decreases |s| - j
  {
    if j == |s| then -1 else if s[j] == my then j else FindIndexFrom(s, my, j + 1)
  }

  /** The start or end argument of `Array.prototype.slice` made into an index (ECMA-262,
      section 23.1.3.28): a negative argument counts back from the end. */
  function SliceIndex(k: int, len: nat): (r: nat)
    ensures r <= len
    ensures 0 <= k ==> r == Min(k, len)
  {
    if k < 0 then (if len + k < 0 then 0 else len + k) else if k < len then k else len
  }

  /** `s.slice(start, end)`. */
  function JsSlice<T>(s: seq<T>, start: int, end: int): (r: seq<T>)
    ensures |r| <= |s|
    ensures forall x :: x in r ==> x in s
  {
    var from, to := SliceIndex(start, |s|), SliceIndex(end, |s|);
    if from < to then s[from..to] else []
  }

  /** The list `updatePage` collects before padding: `monthYears.slice(index,
      Math.min(index + 3, monthYears.length))` with `index` found by `findIndex`. */
  function Collected(monthYears: seq<MonthYear>, current: MonthYear): seq<MonthYear> {
    var i := FindIndex(monthYears, current);
    JsSlice(monthYears, i, Min(i + MonthsToView, |monthYears|))
  }

  /** When the selected month-year is listed, the collected list is the slice of up to
      three entries starting at it. */
  lemma CollectedFound(monthYears: seq<MonthYear>, current: MonthYear)
    requires current in monthYears
    ensures var i, c := FindIndex(monthYears, current), Collected(monthYears, current);
      && |c| == Min(MonthsToView, |monthYears| - i)
      && (forall k :: 0 <= k < |c| ==> c[k] == monthYears[i + k])
      && c[0] == current
  {
    var i := FindIndex(monthYears, current);
    var end := Min(i + MonthsToView, |monthYears|);
    assert SliceIndex(i, |monthYears|) == i && SliceIndex(end, |monthYears|) == end;
    assert Collected(monthYears, current) == monthYears[i..end];
  }

  /** When it is not listed, `findIndex` gives -1 and the slice starts at the last entry:
      the list holds that entry for a list of one or two entries and is empty
      otherwise. */
  lemma CollectedNotFound(monthYears: seq<MonthYear>, current: MonthYear)
    requires current !in monthYears
    ensures Collected(monthYears, current) ==
      if 1 <= |monthYears| < MonthsToView then [monthYears[|monthYears| - 1]] else []
  {
  }

  /** The month the padding loop appends after `my`: the month before it.  Month-years
      the routes could not have produced are kept as they are. */
  function Step(my: MonthYear): MonthYear {
    if WellFormed(my) then PreviousMonth(my) else my
  }

  /** The padding loop, with the step it appends: while the list is shorter than
      three, append the step from its last, oldest, entry. */
  function Pad(w: seq<MonthYear>, step: MonthYear -> MonthYear): seq<MonthYear>
    requires 0 < |w|
    decreases MonthsToView - |w|
  {
    if |w| >= MonthsToView then w else Pad(w + [step(w[|w| - 1])], step)
  }

  /** `p[k]` is the step from `p[k - 1]`. */
  predicate SteppedFrom(p: seq<MonthYear>, k: int, step: MonthYear -> MonthYear)
    requires 0 < k < |p|
  {
    p[k] == step(p[k - 1])
  }

  /** The padding loop only appends: the result has exactly three entries, begins with the
      input, and each appended entry is the step from the entry ahead of it. */
  lemma {:induction false} PadFacts(w: seq<MonthYear>, step: MonthYear -> MonthYear)
    requires 0 < |w| <= MonthsToView
    decreases MonthsToView - |w|
    ensures |Pad(w, step)| == MonthsToView && Pad(w, step)[..|w|] == w
    ensures forall k :: |w| <= k < MonthsToView ==> SteppedFrom(Pad(w, step), k, step)
  {
    if |w| < MonthsToView {
      var w' := w + [step(w[|w| - 1])];
      PadFacts(w', step);
      assert Pad(w, step) == Pad(w', step);
      assert Pad(w', step)[..|w'|][..|w|] == w;
    }
  }

  /** Stepping from a well-formed month-year gives the month before it, well formed,
      with a month index one less. */
  lemma StepIndex(my: MonthYear)
    requires WellFormed(my)
    ensures Step(my) == PreviousMonth(my)
    ensures WellFormed(Step(my))
    ensures MonthIndex(Step(my)) == MonthIndex(my) - 1
  {
    PreviousMonthIndex(my);
  }

  /** `step` goes back exactly one month from every well-formed month-year. */
  ghost predicate StepsBack(step: MonthYear -> MonthYear) {
    forall my {:trigger step(my)} :: WellFormed(my) ==> WellFormed(step(my)) && MonthIndex(step(my)) == MonthIndex(my) - 1
  }

  lemma StepGoesBack()
    ensures StepsBack(Step)
  {
    forall my | WellFormed(my)
      ensures WellFormed(Step(my)) && MonthIndex(Step(my)) == MonthIndex(my) - 1
    {
      StepIndex(my);
    }
  }

  /** `p[k]` is the month before `p[k - 1]`, both well formed. */
  predicate SteppedBack(p: seq<MonthYear>, k: int)
    requires 0 < k < |p|
  {
    && WellFormed(p[k - 1]) && WellFormed(p[k])
    && MonthIndex(p[k]) == MonthIndex(p[k - 1]) - 1
  }

  /** With a step that goes back one month, from a well-formed oldest entry each
      appended entry is well formed and is the month before the entry ahead of it. */
  lemma {:induction false} PadMonths(w: seq<MonthYear>, step: MonthYear -> MonthYear)
    requires StepsBack(step)
    requires 0 < |w| <= MonthsToView && WellFormed(w[|w| - 1])
    decreases MonthsToView - |w|
    ensures |Pad(w, step)| == MonthsToView
    ensures forall k :: |w| <= k < MonthsToView ==> SteppedBack(Pad(w, step), k)
  {
    if |w| < MonthsToView {
      var last := w[|w| - 1];
      var w' := w + [step(last)];
      PadMonths(w', step);
      PadFacts(w', step);
      var p := Pad(w, step);
      assert p == Pad(w', step);
      assert p[|w| - 1] == last && p[|w|] == step(last) by {
        assert p[..|w'|] == w';
      }
      assert SteppedBack(p, |w|);
    }
  }

  /** In the window, oldest first, `w[k]` is the step from `w[k + 1]`. */
  predicate StepBefore(w: seq<MonthYear>, k: int)
    requires 0 <= k < |w| - 1
  {
    w[k] == Step(w[k + 1])
  }

  /** In the window, `w[k]` is the month before `w[k + 1]`, both well formed. */
  predicate MonthBefore(w: seq<MonthYear>, k: int)
    requires 0 <= k < |w| - 1
  {
    && WellFormed(w[k]) && WellFormed(w[k + 1])
    && MonthIndex(w[k]) == MonthIndex(w[k + 1]) - 1
  }

  /** The window `updatePage` shows: the padded list reversed, oldest month first;
      `None` when the collected list is empty, where the padding loop reads a property of
      `undefined` and throws. */
  function Window(monthYears: seq<MonthYear>, current: MonthYear): Option<seq<MonthYear>> {
    var c := Collected(monthYears, current);
    if c == [] then None else Some(Reversed(Pad(c, Step)))
  }

  /** The window has exactly three month-years, oldest first: the collected entries in
      reverse order at its end, the selected month-year last when it is listed, and in
      front of them the synthesized entries, each the step from its successor. */
  lemma WindowFacts(monthYears: seq<MonthYear>, current: MonthYear)
    ensures Window(monthYears, current).None? <==> Collected(monthYears, current) == []
    ensures current in monthYears ==> Window(monthYears, current).Some?
    ensures Window(monthYears, current).Some? ==>
      var w, c := Window(monthYears, current).value, Collected(monthYears, current);
      && |w| == MonthsToView
      && (forall k :: 0 <= k < |c| ==> w[MonthsToView - 1 - k] == c[k])
      && (forall k :: 0 <= k < MonthsToView - |c| ==> StepBefore(w, k))
    ensures current in monthYears ==> Window(monthYears, current).value[MonthsToView - 1] == current
  {
    var c := Collected(monthYears, current);
    if current in monthYears {
      CollectedFound(monthYears, current);
    }
    if c != [] {
      PadFacts(c, Step);
      var p := Pad(c, Step);
      var w := Reversed(p);
      forall k | 0 <= k < |c| ensures w[MonthsToView - 1 - k] == c[k] {
        assert p[..|c|][k] == c[k];
      }
      forall k | 0 <= k < MonthsToView - |c| ensures StepBefore(w, k) {
        assert w[k] == p[MonthsToView - 1 - k] && w[k + 1] == p[MonthsToView - 2 - k];
        assert SteppedFrom(p, MonthsToView - 1 - k, Step);
      }
    }
  }

  /** When the listed month-years are well formed, so is every month of the window, and
      the synthesized months count back from the oldest collected one, one month at a
      time. */
  lemma WindowMonths(monthYears: seq<MonthYear>, current: MonthYear)
    requires AllWellFormed(monthYears)
    requires Window(monthYears, current).Some?
    ensures var w, c := Window(monthYears, current).value, Collected(monthYears, current);
      && |w| == MonthsToView
      && (forall k :: 0 <= k < MonthsToView ==> WellFormed(w[k]))
      && (forall k :: 0 <= k < MonthsToView - |c| ==> MonthBefore(w, k))
  {
    var c := Collected(monthYears, current);
    assert AllWellFormed(c);
    PaddedStepsBack(c);
    PaddedWellFormed(c);
  }

  /** Reversed, the padded list counts back one month per synthesized entry. */
  lemma PaddedStepsBack(c: seq<MonthYear>)
    requires 0 < |c| <= MonthsToView && AllWellFormed(c)
    ensures |Reversed(Pad(c, Step))| == MonthsToView
    ensures forall k :: 0 <= k < MonthsToView - |c| ==> MonthBefore(Reversed(Pad(c, Step)), k)
  {
    PadMonthsBack(c);
    var p := Pad(c, Step);
    var w := Reversed(p);
    forall k | 0 <= k < MonthsToView - |c| ensures MonthBefore(w, k) {
      var j := MonthsToView - 1 - k;
      assert SteppedBack(p, j);
      ReversedStepBack(p, w, k, j);
    }
  }

  lemma ReversedStepBack(p: seq<MonthYear>, w: seq<MonthYear>, k: int, j: int)
    requires 0 <= k < |w| - 1 && 0 < j < |p|
    requires w[k] == p[j] && w[k + 1] == p[j - 1] && SteppedBack(p, j)
    ensures MonthBefore(w, k)
  {
  }

  lemma PadMonthsBack(c: seq<MonthYear>)
    requires 0 < |c| <= MonthsToView && AllWellFormed(c)
    ensures |Pad(c, Step)| == MonthsToView
    ensures forall k :: |c| <= k < MonthsToView ==> SteppedBack(Pad(c, Step), k)
  {
    assert c[|c| - 1] in c;
    StepGoesBack();
    PadMonths(c, Step);
  }

  /** Every entry of the reversed padded list is well formed. */
  lemma PaddedWellFormed(c: seq<MonthYear>)
    requires 0 < |c| <= MonthsToView && AllWellFormed(c)
    ensures |Reversed(Pad(c, Step))| == MonthsToView
    ensures forall k :: 0 <= k < MonthsToView ==> WellFormed(Reversed(Pad(c, Step))[k])
  {
    PaddedStepsBack(c);
    PadFacts(c, Step);
    var p := Pad(c, Step);
    var w := Reversed(p);
    forall k | 0 <= k < MonthsToView ensures WellFormed(w[k]) {
      if k < MonthsToView - |c| {
        assert MonthBefore(w, k);
      } else {
        var j := MonthsToView - 1 - k;
        assert w[k] == p[j] == p[..|c|][j] == c[j];
        assert c[j] in c;
      }
    }
  }

  /** Lines 26-38 of `updatePage`: find the selected month-year, slice up to three
      entries from it, pad with earlier months until there are three, and reverse in
      place. */
  method BuildWindow(monthYears: seq<MonthYear>, current: MonthYear) returns (window: Option<seq<MonthYear>>)
    ensures window == Window(monthYears, current)
  {
    var index := FindIndex(monthYears, current);
    var last := JsSlice(monthYears, index, Min(index + MonthsToView, |monthYears|));
    if |last| == 0 {
      return None;
    }
    ghost var collected := last;
    while |last| != MonthsToView
      invariant 0 < |last| <= MonthsToView
      invariant Pad(last, Step) == Pad(collected, Step)
      decreases MonthsToView - |last|
    {
      var oldest := last[|last| - 1];
      last := last + [Step(oldest)];
    }
    window := Some(Reversed(last));
  }

  // ------------------------------------------------- balances and savings rates

  /** The incomes and expenses `fetchTransactionsForMonthYear` returns for one month. */
  datatype MonthTransactions = MonthTransactions(incomes: seq<Transaction>, expenses: seq<Transaction>)

  function MonthBalance(m: MonthTransactions): int {
    Balance(m.incomes, m.expenses)
  }

  /** `lastNBalances` (src/public/scripts/summaryPage.js:67-80): one balance per month,
      in window order. */
  function Balances(months: seq<MonthTransactions>): (r: seq<int>)
    ensures |r| == |months|
    ensures forall k :: 0 <= k < |months| ==> r[k] == Total(months[k].incomes) - Total(months[k].expenses)
  {
    if months == [] then [] else Balances(months[..|months| - 1]) + [MonthBalance(months[|months| - 1])]
  }

  /** `totalIncome ? balance / totalIncome * 100.0 : 0.0`. */
  function SavingsRate(income: int, balance: int): real {
    if income != 0 then balance as real / income as real * 100.0 else 0.0
  }

  /** The savings rate is the percentage of the income left over, and exactly 0 for a
      month without income. */
  lemma SavingsRateMeaning(income: int, balance: int)
    ensures income != 0 ==> SavingsRate(income, balance) * income as real == balance as real * 100.0
    ensures income == 0 ==> SavingsRate(income, balance) == 0.0
  {
    if income != 0 {
      var q := balance as real / income as real;
      assert q * income as real == balance as real;
      assert SavingsRate(income, balance) * income as real == q * income as real * 100.0;
    }
  }

  /** With a positive income the rate is negative exactly when the balance is, at most
      100 exactly when the balance does not exceed the income, and 100 exactly when
      nothing was spent. */
  lemma SavingsRateBounds(income: int, balance: int)
    requires income > 0
    ensures SavingsRate(income, balance) < 0.0 <==> balance < 0
    ensures SavingsRate(income, balance) <= 100.0 <==> balance <= income
    ensures SavingsRate(income, balance) == 100.0 <==> balance == income
  {
    SavingsRateMeaning(income, balance);
    var r, i := SavingsRate(income, balance), income as real;
    assert r * i == balance as real * 100.0;
    ScaleOrder(r, 0.0, i);
    ScaleOrder(r, 100.0, i);
    assert r * i == 100.0 * i <==> balance as real == i;
  }

  /** Multiplying by a positive number keeps the order of two numbers. */
  lemma ScaleOrder(x: real, y: real, c: real)
    requires c > 0.0
    ensures x < y <==> x * c < y * c
    ensures x == y <==> x * c == y * c
  {
    if x < y {
      assert (y - x) * c > 0.0;
    } else if y < x {
      assert (x - y) * c > 0.0;
    }
  }

  function MonthSavingsRate(m: MonthTransactions): real {
    SavingsRate(Total(m.incomes), MonthBalance(m))
  }

  /** `lastNSavingsRates` (src/public/scripts/summaryPage.js:167-180): one rate per month,
      in window order. */
  function SavingsRates(months: seq<MonthTransactions>): (r: seq<real>)
    ensures |r| == |months|
    ensures forall k :: 0 <= k < |months| ==>
      r[k] == SavingsRate(Total(months[k].incomes), Balances(months)[k])
  {
    if months == [] then [] else SavingsRates(months[..|months| - 1]) + [MonthSavingsRate(months[|months| - 1])]
  }

  // -------------------------------------------------------------- the page state

  /** What the two charts plot: the window's month-years with their balances and rates. */
  datatype TrendView = TrendView(monthYears: seq<MonthYear>, balances: seq<int>, savingsRates: seq<real>)

  /** `Promise.all(lastNMonthYears.map(fetchTransactionsForMonthYear))`, with the fetch a
      parameter: one month's transactions per month-year, in order. */
  function FetchAll(window: seq<MonthYear>, fetch: MonthYear -> MonthTransactions): (r: seq<MonthTransactions>)
    ensures |r| == |window|
    ensures forall k :: 0 <= k < |window| ==> r[k] == fetch(window[k])
  {
    if window == [] then [] else FetchAll(window[..|window| - 1], fetch) + [fetch(window[|window| - 1])]
  }

  /** The page's module state. */
  class Page {
    /** `currentMonthYear`; `None` for its initial `null`. */
    var currentMonthYear: Option<MonthYear>

    constructor()
      ensures currentMonthYear == None
    {
      currentMonthYear := None;
    }

    /** `updatePage`: the window around the selected month-year and, per month of it, the
        balance and the savings rate.  `None` where the source throws: no selected
        month-year, or an empty collected list. */
    method UpdatePage(monthYears: seq<MonthYear>, fetch: MonthYear -> MonthTransactions)
      returns (view: Option<TrendView>)
      ensures view.Some? <==> currentMonthYear.Some? && Window(monthYears, currentMonthYear.value).Some?
      ensures currentMonthYear.Some? && currentMonthYear.value in monthYears ==> view.Some?
      ensures view.Some? ==>
        currentMonthYear.Some? && Window(monthYears, currentMonthYear.value) == Some(view.value.monthYears)
      ensures view.Some? ==>
        var v := view.value;
        && |v.monthYears| == |v.balances| == |v.savingsRates| == MonthsToView
        && (forall k :: 0 <= k < MonthsToView ==>
              && v.balances[k] == MonthBalance(fetch(v.monthYears[k]))
              && v.savingsRates[k] == MonthSavingsRate(fetch(v.monthYears[k])))
    {
      if currentMonthYear.None? {
        return None;
      }
      WindowFacts(monthYears, currentMonthYear.value);
      var window := BuildWindow(monthYears, currentMonthYear.value);
      if window.None? {
        return None;
      }
      var transactions := FetchAll(window.value, fetch);
      view := Some(TrendView(window.value, Balances(transactions), SavingsRates(transactions)));
    }

    /** The `DOMContentLoaded` handler: select the first, most recent, month-year, then
        update the page. */
    method Load(monthYears: seq<MonthYear>, fetch: MonthYear -> MonthTransactions)
      returns (view: Option<TrendView>)
      modifies this
      ensures currentMonthYear == if |monthYears| > 0 then Some(monthYears[0]) else None
      ensures |monthYears| > 0 ==>
        view.Some? && |view.value.monthYears| == MonthsToView && view.value.monthYears[MonthsToView - 1] == monthYears[0]
    {
      if |monthYears| > 0 {
        currentMonthYear := Some(monthYears[0]);
      } else {
        currentMonthYear := None;
      }
      view := UpdatePage(monthYears, fetch);
      if |monthYears| > 0 {
        WindowFacts(monthYears, monthYears[0]);
      }
    }

    /** `onChangeMonthYearDropdown`: select the month-year the option's value decodes to,
        then update the page; choosing the option of a listed month-year shows the window
        ending at it. */
    method OnChangeMonthYearDropdown(value: string, monthYears: seq<MonthYear>, fetch: MonthYear -> MonthTransactions)
      returns (view: Option<TrendView>)
      modifies this
      ensures currentMonthYear == DecodeDropdownValue(value)
      ensures forall my :: my in monthYears && WellFormed(my) && YearNumber(my) >= 0 && value == EncodeDropdownValue(my) ==>
        view.Some? && |view.value.monthYears| == MonthsToView && view.value.monthYears[MonthsToView - 1] == my
    {
      currentMonthYear := DecodeDropdownValue(value);
      view := UpdatePage(monthYears, fetch);
      forall my | my in monthYears && WellFormed(my) && YearNumber(my) >= 0 && value == EncodeDropdownValue(my)
        ensures view.Some? && |view.value.monthYears| == MonthsToView && view.value.monthYears[MonthsToView - 1] == my
      {
        ListedMonthYearRoundTrip(my);
        WindowFacts(monthYears, my);
      }
    }
  }

  // ---------------------------------------------- the month step as written

  /** The month the padding loop appends, as the source computes it: `new Date("YYYY-MM")`
      is midnight UTC on the first of the month, and `getMonth()` reads it in local time.
      At a UTC offset below zero local time is still the last day of the month before;
      at zero or above it is the first of the same month.  Real offsets lie within a day
      of UTC. */
  function StepAsWritten(my: MonthYear, utcOffsetMinutes: int): MonthYear
    requires WellFormed(my) && -24 * 60 < utcOffsetMinutes < 24 * 60
  {
    if utcOffsetMinutes < 0 then PreviousMonth(my) else my
  }

  /** At UTC and east of it the step as written gives back the same month, so the
      window repeats the oldest collected month instead of going back in time; only west
      of UTC does it agree with `PreviousMonth`. */
  lemma StepAsWrittenRepeats(my: MonthYear, utcOffsetMinutes: int)
    requires WellFormed(my) && -24 * 60 < utcOffsetMinutes < 24 * 60
    ensures utcOffsetMinutes >= 0 ==> MonthIndex(StepAsWritten(my, utcOffsetMinutes)) == MonthIndex(my)
    ensures utcOffsetMinutes >= 0 ==> StepAsWritten(my, utcOffsetMinutes) != PreviousMonth(my)
    ensures utcOffsetMinutes < 0 ==> StepAsWritten(my, utcOffsetMinutes) == PreviousMonth(my)
  {
    PreviousMonthIndex(my);
  }

  /** March of any year in Central European Time (UTC+60 minutes): the step as written
      stays in March where February was meant. */
  lemma StepAsWrittenMarch(year: int)
    ensures WellFormed(Format(year, 3))
    ensures StepAsWritten(Format(year, 3), 60) == Format(year, 3)
    ensures PreviousMonth(Format(year, 3)) == Format(year, 2) != Format(year, 3)
  {
    var march, february := Format(year, 3), Format(year, 2);
    FormatWellFormed(year, 3);
    FormatWellFormed(year, 2);
    PreviousMonthFormat(march);
    assert MonthNumber(february) != MonthNumber(march);
  }
}
