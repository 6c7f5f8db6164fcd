# Budget tracker core, modelled in Dafny

This project models the computational core of a personal budgeting web application.
The application is an Express server with SQLite behind it; browser pages draw charts of a
user's incomes and expenses. The core is the list and string logic inside the routes and
page scripts:

- **Month-years.** `{month, year}` strings as `dateToMonthYear` writes them.
  - The `"YYYY-MM"` value of a dropdown option and its `split('-')` decoding.
  - The timestamp and budget-month strings the routes store, and the `substr` month
    filter the queries apply to them.
  - The route that lists the distinct month-years of a user's history, falling back to
    the current month (`MonthYears`, with `Decimal` for `toString`, `padStart` and `split`).
- **Category breakdown.** It is shared by the income page, the expenses page and both chart
  scripts (`CategoryTotals`).
  - An object seeded with a zero for every known category name.
  - A fold that adds each transaction's amount to its category and appends unknown names.
  - The entries sorted by total with a stable sort (`StableSort`).
  - Each total's percentage of the grand total.
- **Summary page** (`SummaryPage`). The three-month window ending at the selected
  month-year: a slice of the month-year list, padded with earlier months and reversed.
  Also each month's balance and guarded savings rate, and the page's selected month-year.
- **Expenses page** (`ExpensesPage`).
  - The category chart with its limit dataset.
  - The recent-expenses list filtered by source and sorted by a sort key.
  - The selected month-year.
- **Dashboard** (`DashboardPage`). The merged, date-sorted transaction list, its three most
  recent entries, and the balance card.
- **Account routes** (`Account`). `/register` and `/login` as a state machine over a users
  table keyed by email and a session's user id.

Modelling choices:

- Amounts are integers and percentages are reals.
- `new Date()`, the calendar fields of a parsed date and the outcome of every database
  call are parameters.
- Each page's module-level `currentMonthYear` is a field of a `Page` class.
- The dashboard's in-place `sort` is an insertion sort on an `array`.
- The folds and `toSorted` are functions with lemmas.

## Model

| member | source | states |
|---|---|---|
| `Decimal.NatToString` | src/routes/api.js:33-34 | `toString()` of a non-negative integer is a non-empty digit string that starts with `0` only for zero |
| `Decimal.ParseNatToString` | src/routes/api.js:34 | parsing the digits `toString()` writes gives back the number |
| `Decimal.NatToStringLength` | src/routes/api.js:34 | the numeral has 1, 2, 3 or 4 digits exactly when the number lies in the matching power-of-ten range |
| `Decimal.NatToStringParseNat` | src/routes/api.js:34 | a numeral without leading zeros is what `toString()` writes for its value |
| `Decimal.ParseIntToString` | src/routes/api.js:34 | `toString()` of any integer is canonical (no leading zeros, no `-0`) and parses back to the integer |
| `Decimal.CanonicalIntRoundTrip` | src/routes/api.js:34 | a canonical numeral is exactly what `toString()` writes for its value |
| `Decimal.IntToStringInjective` | src/routes/api.js:34 | two integers have the same numeral exactly when they are equal |
| `Decimal.PadStart` | src/routes/api.js:33 | `padStart(width, fill)` returns a string already that long unchanged, and otherwise puts just enough fill characters in front to reach `width` |
| `Decimal.TwoDigitsRoundTrip` | src/routes/api.js:33 | below 100 the padded month numeral has exactly two digits and parses back to the month |
| `Decimal.TwoDigitsOfNumeral` | src/routes/api.js:33 | every two-digit numeral is the padded numeral of its value |
| `Decimal.TwoDigitsInjective` | src/routes/api.js:33 | below 100, two numbers have the same padded numeral exactly when they are equal |
| `Decimal.Split` | src/public/scripts/summaryPage.js:373 | `split('-')` returns at least one part, and no part contains the separator |
| `Decimal.JoinSplit` | src/public/scripts/summaryPage.js:373 | joining the parts of `split` with the separator gives back the input |
| `Decimal.SplitTwoParts` | src/public/scripts/summaryPage.js:373-377 | `(a + '-' + b).split('-')` is `[a, b]` when neither part contains `-` |
| `MonthYears.FormatWellFormed` | src/routes/api.js:31-35 | the month-year written for a month 1..12 has a two-digit month numeral and a canonical year, and they read back as that month and year |
| `MonthYears.WellFormedFormat` | src/routes/api.js:31-35 | every well-formed month-year is the one written for its own month and year numbers |
| `MonthYears.MonthIndexInjective` | src/routes/api.js:31-35 | two well-formed month-years have the same month index exactly when they are equal |
| `MonthYears.DateToMonthYear` | src/routes/api.js:31-35 | `dateToMonthYear` yields a well-formed month-year: a month "01".."12" equal to the date's month and a year equal to the date's year |
| `MonthYears.PreviousMonthIndex` | src/public/scripts/summaryPage.js:32-36 | the month the padding loop is meant to add is well formed, and its month index is one less than that of the month it is derived from |
| `MonthYears.PreviousMonthFormat` | src/public/scripts/summaryPage.js:33-35 | January goes back to December of the previous year; any other month goes back one month in the same year |
| `MonthYears.DropdownRoundTrip` | src/public/scripts/incomePage.js:251-263 | decoding the option value `${year}-${month}` with `split('-')` gives back `{month, year}` when neither field contains `-` |
| `MonthYears.ListedMonthYearRoundTrip` | src/public/scripts/expensesPage.js:147-161 | every well-formed month-year with a non-negative year survives the option encoding and the `split('-')` decoding |
| `MonthYears.Substr` | src/routes/api.js:127-128 | SQLite `substr(s, start, length)` is the slice at the 1-based `start` whenever it fits in the string |
| `MonthYears.TimestampInMonth` | src/routes/api.js:313-316 | a timestamp stored by the add routes passes the `substr(date,1,4)` / `substr(date,6,2)` month filter for exactly its own date's month-year (four-digit years) |
| `MonthYears.BudgetMonthKeyInMonth` | src/routes/api.js:391-393 | the budget month key is the dropdown encoding of the date's month-year, and any string starting with it passes the month filter for exactly that month-year |
| `MonthYears.BudgetKeyInMonth` | src/routes/api.js:232-233 | the budget query's `substr(ib.month, …)` filter selects a stored budget key for exactly its own month-year |
| `MonthYears.SameMonthYearIn` | src/routes/api.js:44 | the `some(my => my.month === … && my.year === …)` test holds exactly when the month-year is already in the accumulator |
| `MonthYears.UniqueMonthYears` | src/routes/api.js:43-48 | the dedup `reduce` returns the first occurrences in input order, without duplicates, containing exactly the input's month-years |
| `MonthYears.MonthYearsOfWellFormed` | src/routes/api.js:38-42 | every month-year mapped from a history's dates is well formed |
| `MonthYears.MonthYearsResponse` | src/routes/api.js:37-53 | a failing query, and only that, answers status 500; otherwise the list is the current month-year alone for an empty history, and otherwise the first occurrences of the history's month-years; it is never empty, has no duplicates, contains every date's month-year and holds only well-formed entries |
| `Seqs.FirstOccurrencesElements` | src/routes/api.js:43-48 | deduplication keeps exactly the elements of the input |
| `Seqs.FirstOccurrencesNoDuplicates` | src/routes/api.js:43-48 | the deduplicated list has no element twice |
| `Seqs.FirstOccurrencesOfDistinct` | src/public/scripts/incomePage.js:101 | a list without duplicates is its own deduplication |
| `Seqs.FirstOccurrencesIdempotent` | src/routes/api.js:92-97 | deduplicating twice is deduplicating once |
| `Seqs.FirstOccurrencesSnoc` | src/routes/api.js:44-46 | one step of the dedup `reduce` appends the month-year exactly when it has not been seen |
| `Seqs.FirstOccurrencesOfPrefix` | src/public/scripts/incomePage.js:93-101 | deduplicating the seed's keys first does not change the key order of the whole fold |
| `Seqs.Reversed` | src/public/scripts/summaryPage.js:38 | `reverse()` puts at each index the element the same distance from the other end |
| `Seqs.ReversedMultiset` | src/public/scripts/expensesPage.js:200-202 | reversing neither loses nor adds an element |
| `Seqs.Map` | src/public/scripts/incomePage.js:101 | `map` keeps the length and puts the image of each element at its index; it gives `categories.map(c => c.name)`, the transactions' category names and the limit rows' category names |
| `Seqs.SumOfAppend` | src/public/scripts/dashboardPage.js:38 | a sum over a concatenation is the sum of the two sums |
| `Seqs.Filter` | src/public/scripts/expensesPage.js:198 | `filter` returns at most as many elements as it is given, each satisfying the predicate |
| `Seqs.FilterElements` | src/public/scripts/expensesPage.js:197-198 | an element is kept exactly when it is in the input and satisfies the predicate |
| `Seqs.FilterAppend` | src/public/scripts/expensesPage.js:198 | filtering a concatenation is concatenating the filtered parts |
| `Seqs.FilterAll` | src/public/scripts/expensesPage.js:198 | a predicate that holds everywhere keeps the whole list, in order |
| `StableSort.InsertPermutation` | src/public/scripts/incomePage.js:105 | one insertion step adds exactly the inserted element |
| `StableSort.InsertSorted` | src/public/scripts/incomePage.js:105 | inserting into a non-increasing list keeps it non-increasing |
| `StableSort.InsertStable` | src/public/scripts/incomePage.js:105 | among elements with equal keys, the inserted element goes after those already placed |
| `StableSort.SortDescPermutation` | src/public/scripts/incomePage.js:105 | the comparator sort returns a permutation of its input |
| `StableSort.SortDescFacts` | src/public/scripts/incomePage.js:105 | the sort by `(a, b) => key(b) - key(a)` is non-increasing, a permutation, and stable: the elements of each key keep their input order |
| `StableSort.SortDescOfSorted` | src/public/scripts/expensesPage.js:199 | a stable sort leaves an already ordered list unchanged; so a comparator that always reports equality keeps the input order |
| `StableSort.SortDescSum` | src/public/scripts/incomeCharts.js:38-40 | sorting does not change any sum over the elements |
| `StableSort.InsertSum` | src/public/scripts/incomeCharts.js:29-40 | one insertion step adds the inserted element's value to a sum |
| `StableSort.SortInPlace` | src/public/scripts/dashboardPage.js:39 | `Array.prototype.sort` in place leaves the array holding the stable descending sort of its old contents |
| `StableSort.InsertInPlace` | src/public/scripts/dashboardPage.js:39 | one insertion pass makes the array's prefix the old prefix with the element inserted, and leaves the rest unchanged |
| `Ledger.CategoryAmountAbsent` | src/public/scripts/incomePage.js:101 | a category no transaction refers to keeps its zero |
| `Ledger.BalanceSigned` | src/public/scripts/dashboardPage.js:248-258 | total income minus total expenses is the signed sum over the merged list |
| `Ledger.SignedIncomes` | src/public/scripts/dashboardPage.js:248-251 | incomes count for their amounts |
| `Ledger.SignedExpenses` | src/public/scripts/dashboardPage.js:253-256 | expenses count against the balance |
| `Ledger.TotalAppend` | src/public/scripts/dashboardPage.js:38 | the merged list's total is the sum of the two lists' totals |
| `CategoryTotals.ZeroFilled` | src/public/scripts/incomePage.js:101 | `Object.fromEntries(names.map(n => [n, 0]))` is a well-formed object with every known name as a key in first-seen order, each valued 0 |
| `CategoryTotals.Totals` | src/public/scripts/incomePage.js:93-101 | the totals object is well formed: distinct keys, each with a value |
| `CategoryTotals.TallyByCategory` | src/public/scripts/incomePage.js:93-101 | the `reduce` with its truthiness test equals the fold that adds each amount to its category; its keys are the known names followed by the unseen referenced names, and each value is the sum of that category's amounts |
| `CategoryTotals.TotalsFacts` | src/public/scripts/expensesPage.js:59-67 | every known category is a key (zero when unreferenced), unknown names are appended in first-seen order, and each value is the category's sum |
| `CategoryTotals.FoldSnoc` | src/public/scripts/incomePage.js:93-100 | the fold over one more transaction is one more step |
| `CategoryTotals.FoldNames` | src/public/scripts/incomePage.js:93-100 | the fold keeps the object well formed and appends each new category name once, in first-seen order |
| `CategoryTotals.FoldValue` | src/public/scripts/incomePage.js:94-99 | each key's value is its seed value plus the amounts filed under it |
| `CategoryTotals.FoldKeys` | src/public/scripts/incomeCharts.js:19-26 | a name becomes a key exactly when it was seeded or a transaction refers to it |
| `CategoryTotals.EntriesOf` | src/public/scripts/incomePage.js:103 | `new Map(Object.entries(object))` lists one entry per key, in key order, with that key's value |
| `CategoryTotals.EntriesOfOther` | src/public/scripts/incomePage.js:97-99 | assigning a key outside the listed keys does not change their entries |
| `CategoryTotals.EntriesOfUpdate` | src/public/scripts/incomePage.js:96 | assigning a new value to one key changes the sum of the values by the difference |
| `CategoryTotals.AddSum` | src/public/scripts/incomePage.js:94-99 | one fold step adds the transaction's amount to the sum of the values |
| `CategoryTotals.AddSumExisting` | src/public/scripts/incomePage.js:94-96 | adding to an existing key adds the amount to the sum of the values |
| `CategoryTotals.AddSumNew` | src/public/scripts/incomePage.js:97-98 | appending a new key adds the amount to the sum of the values |
| `CategoryTotals.FoldSum` | src/public/scripts/incomeCharts.js:19-27 | the fold adds every amount to the sum of the values exactly once |
| `CategoryTotals.ZeroSum` | src/public/scripts/expenseCharts.js:27 | the zero-filled seed sums to 0 |
| `CategoryTotals.TotalsSum` | src/public/scripts/incomePage.js:93-114 | the category totals add up to the total of the transactions: nothing is lost or counted twice, whichever categories the transactions name |
| `CategoryTotals.SortedTotalsAmounts` | src/public/scripts/incomePage.js:103-110 | each sorted entry carries the sum of the amounts filed under its name |
| `CategoryTotals.SortedEntry` | src/public/scripts/expensesPage.js:69-76 | every sorted entry is an entry of the totals object |
| `CategoryTotals.SortedTotalsNames` | src/public/scripts/expenseCharts.js:19-36 | the sorted entries name exactly the known categories and the referenced ones |
| `CategoryTotals.NamedEntrySorted` | src/public/scripts/incomeCharts.js:29-36 | every key of the totals object appears in the sorted list |
| `CategoryTotals.SortedEntryNamed` | src/public/scripts/expenseCharts.js:29-36 | every name in the sorted list is a key of the totals object |
| `CategoryTotals.SortedTotalsSum` | src/public/scripts/incomePage.js:112-114 | the grand total of the sorted totals equals the sum of all the amounts, which is also `renderIncomeChart`'s `totalIncome` (lines 164-167) |
| `CategoryTotals.SortedCategoryTotals` | src/public/scripts/incomeCharts.js:19-36 | the sorted entries are a non-increasing, stable permutation of the object's entries; each carries its category's sum; they cover every known and every referenced category; and they add up to the total of the transactions |
| `CategoryTotals.PercentMeaning` | src/public/scripts/incomePage.js:118 | a percentage times the grand total is a hundred times the total |
| `CategoryTotals.PercentAdditive` | src/public/scripts/expenseCharts.js:42-45 | the percentage of a fixed non-zero grand total is additive, sends 0 to 0 and the grand total to 100 |
| `CategoryTotals.Shares` | src/public/scripts/incomePage.js:116-119 | the `map` keeps the length, each name and order, and scales each total |
| `CategoryTotals.SharesTotal` | src/public/scripts/incomeCharts.js:42-45 | an additive scaling of the totals sums to the scaling of their sum |
| `CategoryTotals.PercentagesSum` | src/public/scripts/incomePage.js:112-119 | when the grand total is the sum of the totals and is non-zero, the percentages add up to exactly 100 |
| `CategoryTotals.CategoryPercentages` | src/public/scripts/expenseCharts.js:19-45 | the chart's bars are the sorted totals, the grand total is the sum of the amounts, each percentage is its category's sum over the grand total times 100, and they add up to 100 |
| `SummaryPage.FindIndex` | src/public/scripts/summaryPage.js:27-28 | `findIndex` returns -1 exactly when the month-year is absent, and otherwise the index of its first occurrence |
| `SummaryPage.FindIndexFrom` | src/public/scripts/summaryPage.js:28 | the search from index `j` finds the first occurrence at or after `j`, or -1 when there is none |
| `SummaryPage.SliceIndex` | src/public/scripts/summaryPage.js:30 | a `slice` argument becomes an index within the array; a non-negative one is clamped to the length |
| `SummaryPage.JsSlice` | src/public/scripts/summaryPage.js:30 | `slice` returns no more elements than the array holds, all taken from it |
| `SummaryPage.CollectedFound` | src/public/scripts/summaryPage.js:27-30 | when the selected month-year is listed, the pre-padding list is the contiguous slice starting at its index, of length min(3, len − index), beginning with it |
| `SummaryPage.CollectedNotFound` | src/public/scripts/summaryPage.js:27-30 | when it is not listed, `findIndex` gives -1 and the slice holds the last entry for a list of one or two entries and is empty otherwise |
| `SummaryPage.PadFacts` | src/public/scripts/summaryPage.js:31-37 | the padding loop only appends: it ends with exactly 3 entries, begins with its input, and each appended entry is derived from the entry before it |
| `SummaryPage.StepIndex` | src/public/scripts/summaryPage.js:32-36 | from a well-formed month-year the step gives the previous month, well formed, with a two-digit month and an index one less |
| `SummaryPage.StepGoesBack` | src/public/scripts/summaryPage.js:31-37 | the padding step goes back exactly one month from every well-formed month-year |
| `SummaryPage.PadMonths` | src/public/scripts/summaryPage.js:31-37 | with a step that goes back one month, every appended entry is well formed and is the month before its predecessor |
| `SummaryPage.ReversedStepBack` | src/public/scripts/summaryPage.js:38 | after `reverse()`, a stepped-back pair reads as consecutive months in ascending order |
| `SummaryPage.PadMonthsBack` | src/public/scripts/summaryPage.js:31-37 | from a well-formed collected list the padded months count back one month at a time |
| `SummaryPage.PaddedStepsBack` | src/public/scripts/summaryPage.js:31-38 | reversed, the padded list has 3 months and its synthesized months lead up one month at a time to the oldest collected month |
| `SummaryPage.PaddedWellFormed` | src/public/scripts/summaryPage.js:31-38 | every month of the reversed padded list is well formed |
| `SummaryPage.WindowFacts` | src/public/scripts/summaryPage.js:25-38 | the window has exactly 3 month-years, oldest first: the collected entries in exact reverse order at its end, the selected month-year last when it is listed, and before them the synthesized entries, each derived from its successor; it is absent exactly when nothing was collected |
| `SummaryPage.WindowMonths` | src/public/scripts/summaryPage.js:31-38 | when the listed month-years are well formed, every window month is well formed and the synthesized months step back one calendar month at a time |
| `SummaryPage.BuildWindow` | src/public/scripts/summaryPage.js:26-38 | the find, slice, pad-while-short and in-place reverse compute exactly the window |
| `SummaryPage.Balances` | src/public/scripts/summaryPage.js:67-80 | one balance per month, in window order: its income total minus its expense total, which may be negative |
| `SummaryPage.SavingsRateMeaning` | src/public/scripts/summaryPage.js:179 | with income, the savings rate times the income is a hundred times the balance; without income it is exactly 0 |
| `SummaryPage.SavingsRateBounds` | src/public/scripts/summaryPage.js:179 | with positive income the rate is negative exactly when the balance is, at most 100 exactly when the balance does not exceed the income, and 100 exactly when nothing was spent |
| `SummaryPage.SavingsRates` | src/public/scripts/summaryPage.js:167-180 | one rate per month, in window order, each computed from that month's income and balance |
| `SummaryPage.FetchAll` | src/public/scripts/summaryPage.js:41-43 | `Promise.all` over the window keeps its length and order, one month's transactions per month-year |
| `SummaryPage.Page.constructor` | src/public/scripts/summaryPage.js:13 | the selected month-year starts unset |
| `SummaryPage.Page.UpdatePage` | src/public/scripts/summaryPage.js:25-43 | a view is shown exactly when a month-year is selected and its window exists (always for a listed one, and for an unlisted one with a one- or two-entry list); the view is the window with exactly 3 month-years, and the balances and savings rates have the same length and order as the window |
| `SummaryPage.Page.Load` | src/public/scripts/summaryPage.js:15-23 | the first, most recent, month-year is selected, and a non-empty list shows a 3-month window ending at it |
| `SummaryPage.Page.OnChangeMonthYearDropdown` | src/public/scripts/summaryPage.js:370-380 | the selected month-year becomes `{month: parts[1], year: parts[0]}`; choosing a listed month-year's option shows the window ending at that month-year |
| `SummaryPage.StepAsWrittenRepeats` | src/public/scripts/summaryPage.js:33-34 | the step as written repeats the same month at UTC and east of it, and only west of UTC equals the previous month |
| `SummaryPage.StepAsWrittenMarch` | src/public/scripts/summaryPage.js:33-34 | for March at UTC+1 the step as written stays in March, where February was meant |
| `ExpensesPage.Page.constructor` | src/public/scripts/expensesPage.js:12 | the selected month-year starts unset |
| `ExpensesPage.Page.Load` | src/public/scripts/expensesPage.js:14-24 | the first, most recent, month-year is selected (unset for an empty list) |
| `ExpensesPage.Page.OnChangeMonthYearDropdown` | src/public/scripts/expensesPage.js:154-164 | the selected month-year becomes `{month: parts[1], year: parts[0]}`, which is exactly the listed month-year whose option was chosen |
| `ExpensesPage.LastLimitWins` | src/public/scripts/expensesPage.js:83-86 | a category has a limit exactly when some row names it; that limit is the amount of the row for it that no later row for it follows |
| `ExpensesPage.LimitMap` | src/public/scripts/expensesPage.js:78-86 | the limit map's keys are exactly the known categories and the limited ones; each value is the last limit row for that category, 0 when it has none |
| `ExpensesPage.LimitDataset` | src/public/scripts/expensesPage.js:100 | the Limit dataset has one entry per sorted category, the map's value for that name, `undefined` when the map lacks it |
| `ExpensesPage.RenderExpenseCategoryChart` | src/public/scripts/expensesPage.js:59-100 | the Actual bars are the non-increasing sorted category totals; the Limit dataset is aligned with them by name, each being the category's last limit or 0, and `undefined` only for a category that is neither known nor limited |
| `ExpensesPage.SortByKey` | src/public/scripts/expensesPage.js:188-199 | the sort is a permutation of the filtered list; it is non-increasing by amount for 'amount-desc' and non-decreasing for 'amount-asc'; for any other key every comparison is treated as equal and the input order is kept |
| `ExpensesPage.FilterByMatch` | src/public/scripts/expensesPage.js:197-198 | the filter keeps exactly the expenses whose source contains the filter, and all of them, in order, when the filter is undefined or empty |
| `ExpensesPage.PopulateRecentExpensesList` | src/public/scripts/expensesPage.js:186-205 | the list holds exactly the matching expenses with their multiplicities: by amount for the amount keys, in input order for 'latest' and unknown keys, and exactly reversed for 'oldest' |
| `DashboardPage.UpdatePage` | src/public/scripts/dashboardPage.js:38-40 | the merged list holds every income and expense; after the in-place sort it is non-increasing by date and stable; the recent list is its prefix of length min(3, total), and no left-out transaction is more recent than one shown |
| `DashboardPage.PopulateBalanceCard` | src/public/scripts/dashboardPage.js:248-258 | total income and total expenses are the sums of the incomes' and the expenses' amounts, and the balance is their difference, negative exactly when the expenses exceed the income |
| `DashboardPage.BalanceCardOfSortedList` | src/public/scripts/dashboardPage.js:38-39 | the card's balance is the signed sum over the date-sorted merged list: the sort loses no transaction and adds none |
| `Account.Register` | src/routes/account.js:19-49 | a lookup error goes to `next(err)`; a known email is refused before the passwords are compared; differing passwords are refused; an insert error goes to `next(err)` with the table unchanged; the table changes exactly when the email is new, the passwords match and the insert succeeds, and then one row with exactly the submitted fields is added under a fresh id with the success message |
| `Account.Login` | src/routes/account.js:54-78 | lookup error goes to `next(err)`; an unknown email and a wrong password render their messages; the user is redirected to the dashboard and the session set to their id exactly when the email exists and the password matches; otherwise the session is unchanged |
| `Account.RegisterKeepsAccounts` | src/routes/account.js:36-45 | registering keeps every existing account unchanged and keeps ids distinct |
| `Account.RegisterThenLogin` | src/routes/account.js:37-74 | after a successful registration, logging in with the same email and password signs in as the new account |
| `Account.LoginNamesOneAccount` | src/routes/account.js:60-74 | in a valid table, the session a login sets names exactly one account, the one whose email and password were submitted |
| `Account.AccountRoutes.PostRegister` | src/routes/account.js:19-49 | the handler applies `Register` to the table, keeps the table valid, and leaves the session alone |
| `Account.AccountRoutes.PostLogin` | src/routes/account.js:54-78 | the handler applies `Login` to the session, keeps the table unchanged and valid |

## Left out

- The Chart.js configuration, the DOM and `toLocaleString`/`Intl` formatting are not modelled: they are UI and a foreign library.
- The network `fetch` wrappers in src/public/scripts/commonPageHelpers.js are not modelled. The pages' inputs and the per-month fetch are parameters; commonPageHelpers.js is not part of this model.
- The SQL queries, the session guards, and the `next(err)` handler are not modelled. Each database call's outcome is a boolean parameter (`lookupFails`, `insertFails` in the account routes, `queryFails` in the month-year routes); the table is a map keyed by email.
- Async ordering is not modelled: `Promise.all` is an order-preserving map (`SummaryPage.FetchAll`).
- Floating point is not modelled. Amounts are integers and percentages and savings rates are exact reals.
  - `CategoryTotals.CategoryPercentages` requires a non-zero grand total: the source divides by it unguarded and would produce NaN.
  - The only rounding, `toFixed(2)` in tooltips, is UI.
- Date parsing and the clock are parameters (`CalendarDate`, a transaction's numeric `time`). `new Date(row.date)` and `new Date()` are not modelled.
- SummaryPage.Step: the month the padding loop appends is modelled as the previous calendar month. The as-written, time-zone dependent step is `SummaryPage.StepAsWritten` (see Findings). A month-year the routes could not have produced is kept as it is.
- MonthYears.TimestampInMonth, `MonthYears.BudgetMonthKeyInMonth` and `MonthYears.BudgetKeyInMonth` hold for four-digit years only: the `substr` positions assume one.
- MonthYears.MonthYearsOf states nothing of its own; `MonthYears.MonthYearsOfWellFormed` and `MonthYears.MonthYearsResponse` state its properties.
- Account.Register gives a new user the id `nextUserId`, standing for SQLite's auto-increment `user_id`.
- SummaryPage.Page.OnChangeMonthYearDropdown: a value without `-` decodes to `None`, and the page then shows nothing. The source would keep `{month: undefined, …}`, match no month-year, and for a one- or two-entry list still show the last entry. Dropdown option values always contain `-`.
- JavaScript objects list integer-like keys (such as "2024") before other keys. `CategoryTotals.EntriesOf` keeps plain insertion order, which is right for category names that are not array indices.
- The top-three and under/over-budget lists that summaryPage.js imports are not modelled: no shown file defines them.
- The `income-months` / `income-month-years` endpoint-name mismatch is not modelled: it concerns routing, not logic.
- The recent-income list and the budget charts' drawing are not modelled. The income chart's `totalIncome` (incomePage.js:164-167) appears only through `CategoryTotals.SortedTotalsSum`.

## Findings

| source | as written | input that shows it | evidently intended | confidence | as-written member | corrected member |
|---|---|---|---|---|---|---|
| src/public/scripts/summaryPage.js:33-34 | `new Date("YYYY-MM")` is midnight UTC on the first of the month, and `getMonth()` reads it in local time. So the padding step goes back a month only at negative UTC offsets; at UTC and east of it, it repeats the same month. | A list holding only March of some year, viewed at UTC+1: the window is March, March, March | the three months ending at the selected one: January, February, March | not executed | `SummaryPage.StepAsWrittenMarch` | `SummaryPage.StepIndex` |
