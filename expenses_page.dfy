/** The expenses page (src/public/scripts/expensesPage.js): its selected month-year, the
    category chart with its limit dataset, and the filtered and sorted list of recent
    expenses. */
module ExpensesPage {
  import opened Seqs
  import opened StableSort
  import opened MonthYears
  import opened Ledger
  import opened CategoryTotals

  /** The page's module state. */
  class Page {
    /** `currentMonthYear`; `None` for its initial `null`. */
    var currentMonthYear: Option<MonthYear>

    constructor()
      ensures currentMonthYear == None
    {
      currentMonthYear := None;
    }

    /** The `DOMContentLoaded` handler selects the first, most recent, month-year
        (`undefined`, here `None`, when there is none). */
    method Load(expenseMonthYears: seq<MonthYear>)
      modifies this
      ensures currentMonthYear == if |expenseMonthYears| > 0 then Some(expenseMonthYears[0]) else None
    {
      if |expenseMonthYears| > 0 {
        currentMonthYear := Some(expenseMonthYears[0]);
      } else {
        currentMonthYear := None;
      }
    }

    /** `onChangeMonthYearDropdown`: the selected option's value is split at `-` into the
        year and the month; selecting the option built for a listed month-year selects
        exactly that month-year. */
    method OnChangeMonthYearDropdown(value: string)
      modifies this
      ensures currentMonthYear == DecodeDropdownValue(value)
      ensures forall my :: WellFormed(my) && YearNumber(my) >= 0 && value == EncodeDropdownValue(my) ==>
        currentMonthYear == Some(my)
    {
      currentMonthYear := DecodeDropdownValue(value);
      forall my | WellFormed(my) && YearNumber(my) >= 0 && value == EncodeDropdownValue(my)
        ensures currentMonthYear == Some(my)
      {
        ListedMonthYearRoundTrip(my);
      }
    }
  }

  // ------------------------------------------------------------------------ limits

  /** A row of `/expense-limits`: a category name and its limit. */
  datatype Limit = Limit(category: string, amount: int)

  function LimitCategory(l: Limit): string {
    l.category
  }

  /** The category names of the limit rows, in order. */
  function LimitCategories(limits: seq<Limit>): seq<string> {
    Map(limits, LimitCategory)
  }

  /** The amount of the last limit row for `name`, if there is one. */
  function LastLimit(limits: seq<Limit>, name: string): Option<int> {
    if limits == [] then None
    else if limits[|limits| - 1].category == name then Some(limits[|limits| - 1].amount)
    else LastLimit(limits[..|limits| - 1], name)
  }

  /** A later row for the same category wins: `LastLimit` finds the row for `name` that no
      later row for `name` follows, and finds nothing when there is no row for `name`. */
  lemma {:induction false} LastLimitWins(limits: seq<Limit>, name: string)
    ensures LastLimit(limits, name).None? <==> name !in LimitCategories(limits)
    ensures LastLimit(limits, name).Some? ==>
      exists i :: 0 <= i < |limits| && limits[i] == Limit(name, LastLimit(limits, name).value)
        && forall j :: i < j < |limits| ==> limits[j].category != name
  {
    if limits != [] {
      var init, last := limits[..|limits| - 1], limits[|limits| - 1];
      LastLimitWins(init, name);
      assert LimitCategories(limits) == LimitCategories(init) + [last.category];
      if last.category != name && LastLimit(init, name).Some? {
        var i :| 0 <= i < |init| && init[i] == Limit(name, LastLimit(init, name).value)
          && forall j :: i < j < |init| ==> init[j].category != name;
        assert limits[i] == init[i];
      }
      if last.category == name {
        assert limits[|limits| - 1] == Limit(name, last.amount);
      }
    }
  }

  /** The limit a category shows: its last limit row, 0 when it has none. */
  function LimitOrZero(limits: seq<Limit>, name: string): int {
    match LastLimit(limits, name)
    case Some(amount) => amount
    case None => 0
  }

  /** `expenseCategoryLimitMap` (src/public/scripts/expensesPage.js:78-86): every category
      name set to 0, then each limit row assigned in order. */
  method LimitMap(categories: seq<Category>, limits: seq<Limit>) returns (limitMap: map<string, int>)
    ensures forall n :: n in limitMap <==> n in CategoryNames(categories) || n in LimitCategories(limits)
    ensures forall n :: n in limitMap ==> limitMap[n] == LimitOrZero(limits, n)
  {
    limitMap := map[];
    var i := 0;
    while i < |categories|
      invariant 0 <= i <= |categories|
      invariant forall n :: n in limitMap <==> n in CategoryNames(categories[..i])
      invariant forall n :: n in limitMap ==> limitMap[n] == 0
    {
      assert CategoryNames(categories[..i + 1]) == CategoryNames(categories[..i]) + [categories[i].name];
      limitMap := limitMap[categories[i].name := 0];
      i := i + 1;
    }
    assert categories[..i] == categories;
    var j := 0;
    while j < |limits|
      invariant 0 <= j <= |limits|
      invariant forall n :: n in limitMap <==> n in CategoryNames(categories) || n in LimitCategories(limits[..j])
      invariant forall n :: n in limitMap ==> limitMap[n] == LimitOrZero(limits[..j], n)
    {
      assert limits[..j + 1][..j] == limits[..j];
      assert LimitCategories(limits[..j + 1]) == LimitCategories(limits[..j]) + [limits[j].category];
      limitMap := limitMap[limits[j].category := limits[j].amount];
      j := j + 1;
    }
    assert limits[..j] == limits;
  }

  /** The Limit dataset: `sorted.map(category => limitMap[category.name])`, `None` for
      `undefined`. */
  function LimitDataset(sorted: seq<CategoryTotal>, limitMap: map<string, int>): (r: seq<Option<int>>)
    ensures |r| == |sorted|
    ensures forall i :: 0 <= i < |sorted| ==>
      r[i] == if sorted[i].name in limitMap then Some(limitMap[sorted[i].name]) else None
  {
    if sorted == [] then []
    else
      var name := sorted[|sorted| - 1].name;
      LimitDataset(sorted[..|sorted| - 1], limitMap) + [if name in limitMap then Some(limitMap[name]) else None]
  }

  /** `renderExpenseCategoryChart` (src/public/scripts/expensesPage.js:59-100): the bars
      of the Actual dataset are the sorted category totals; the Limit dataset has one
      entry per bar, the last limit row for that category or 0, and is `undefined` only
      for a category that is neither known nor limited. */
  method RenderExpenseCategoryChart(expenses: seq<Transaction>, categories: seq<Category>, limits: seq<Limit>)
    returns (sorted: seq<CategoryTotal>, limitData: seq<Option<int>>)
    ensures sorted == SortedTotals(categories, expenses)
    ensures NonIncreasing(sorted, TotalOf)
    ensures forall i :: 0 <= i < |sorted| ==> sorted[i].total == CategoryAmount(expenses, sorted[i].name)
    ensures |limitData| == |sorted|
    ensures forall i :: 0 <= i < |sorted| ==>
      limitData[i] == if sorted[i].name in CategoryNames(categories) || sorted[i].name in LimitCategories(limits)
        then Some(LimitOrZero(limits, sorted[i].name)) else None
  {
    sorted := SortedCategoryTotals(categories, expenses);
    var limitMap := LimitMap(categories, limits);
    limitData := LimitDataset(sorted, limitMap);
  }

  // ------------------------------------------------------------------ recent expenses

  /** `sub` occurs in `source` starting at index `i`. */
  predicate OccursAt(source: string, sub: string, i: int) {
    0 <= i && i + |sub| <= |source| && source[i..i + |sub|] == sub
  }

  /** `source.includes(sub)`. */
  predicate Contains(source: string, sub: string) {
    exists i | 0 <= i <= |source| - |sub| :: OccursAt(source, sub, i)
  }

  /** `filter ? expense.source.includes(filter) : true`: `undefined` and the empty string
      are falsy and keep every expense. */
  predicate Matches(e: Transaction, filter: Option<string>) {
    match filter
    case None => true
    case Some(f) => f == [] || Contains(e.source, f)
  }

  function Keep(filter: Option<string>): Transaction -> bool {
    e => Matches(e, filter)
  }

  function NegatedAmount(e: Transaction): int {
    -e.amount
  }

  function Zero(e: Transaction): int {
    0
  }

  /** The comparator `sortFunc(e1, e2)` as a key that `toSorted` orders by descending:
      `e2.amount - e1.amount` for 'amount-desc', `e1.amount - e2.amount` for
      'amount-asc'.  For 'latest' and 'oldest' it subtracts two invalid dates, giving NaN,
      and for any other key it returns `undefined`; ECMA-262 (CompareArrayElements,
      section 23.1.3.30.2) counts both as +0, so every pair compares equal. */
  function SortKeyOf(sortKey: string): Transaction -> int {
    if sortKey == "amount-desc" then Amount
    else if sortKey == "amount-asc" then NegatedAmount
    else Zero
  }

  predicate NonDecreasing(s: seq<Transaction>) {
    forall i, j :: 0 <= i < j < |s| ==> s[i].amount <= s[j].amount
  }

  /** What `toSorted(sortFunc)` does for each sort key: orders by amount for the two
      amount keys and keeps the input order for every other key. */
  lemma SortByKey(filtered: seq<Transaction>, sortKey: string)
    ensures multiset(SortDesc(filtered, SortKeyOf(sortKey))) == multiset(filtered)
    ensures sortKey == "amount-desc" ==> NonIncreasing(SortDesc(filtered, SortKeyOf(sortKey)), Amount)
    ensures sortKey == "amount-asc" ==> NonDecreasing(SortDesc(filtered, SortKeyOf(sortKey)))
    ensures sortKey != "amount-desc" && sortKey != "amount-asc" ==> SortDesc(filtered, SortKeyOf(sortKey)) == filtered
  {
    var key := SortKeyOf(sortKey);
    var sorted := SortDesc(filtered, key);
    SortDescFacts(filtered, key);
    if sortKey != "amount-desc" && sortKey != "amount-asc" {
      SortDescOfSorted(filtered, key);
    }
    if sortKey == "amount-asc" {
      forall i, j | 0 <= i < j < |sorted| ensures sorted[i].amount <= sorted[j].amount {
        assert key(sorted[i]) >= key(sorted[j]);
      }
    }
  }

  /** The filter keeps exactly the matching expenses, and all of them when the filter is
      `undefined` or empty. */
  lemma FilterByMatch(expenses: seq<Transaction>, filter: Option<string>)
    ensures forall e :: e in Filter(expenses, Keep(filter)) <==> e in expenses && Matches(e, filter)
    ensures filter == None || filter == Some("") ==> Filter(expenses, Keep(filter)) == expenses
  {
    FilterElements(expenses, Keep(filter));
    if filter == None || filter == Some("") {
      FilterAll(expenses, Keep(filter));
    }
  }

  /** `populateRecentExpensesList(expenses, filter, sortKey)`
      (src/public/scripts/expensesPage.js:186-205): the expenses whose source contains the
      filter, sorted by `sortFunc`, reversed for 'oldest'. */
  method PopulateRecentExpensesList(expenses: seq<Transaction>, filter: Option<string>, sortKey: string)
    returns (list: seq<Transaction>)
    ensures multiset(list) == multiset(Filter(expenses, Keep(filter)))
    ensures forall e :: e in list <==> e in expenses && Matches(e, filter)
    ensures filter == None || filter == Some("") ==> multiset(list) == multiset(expenses)
    ensures sortKey == "amount-desc" ==> NonIncreasing(list, Amount)
    ensures sortKey == "amount-asc" ==> NonDecreasing(list)
    ensures sortKey != "amount-desc" && sortKey != "amount-asc" && sortKey != "oldest" ==>
      list == Filter(expenses, Keep(filter))
    ensures sortKey == "oldest" ==> list == Reversed(Filter(expenses, Keep(filter)))
  {
    var filtered := Filter(expenses, Keep(filter));
    list := SortDesc(filtered, SortKeyOf(sortKey));
    SortByKey(filtered, sortKey);
    FilterByMatch(expenses, filter);
    if sortKey == "oldest" {
      ReversedMultiset(list);
      list := Reversed(list);
    }
    assert forall e :: e in list <==> e in multiset(list);
  }
}
