/** The dashboard's `updatePage`: the month's incomes and expenses merged into one list,
    sorted newest first, the three most recent shown; and the balance card. */
module DashboardPage {
  import opened Seqs
  import opened StableSort
  import opened Ledger

  /** How many transactions the recent list shows. */
  const RecentCount := 3

  /** `[...incomes, ...expenses].sort((t1, t2) => new Date(t2.date) - new Date(t1.date))`
      followed by `slice(0, 3)` (src/public/scripts/dashboardPage.js:38-40): the merged
      array is sorted in place by time, newest first; `recent` is its first three
      entries. */
  method UpdatePage(incomes: seq<Transaction>, expenses: seq<Transaction>)
    returns (sorted: seq<Transaction>, recent: seq<Transaction>)
    ensures |sorted| == |incomes| + |expenses|
    ensures multiset(sorted) == multiset(incomes) + multiset(expenses)
    ensures NonIncreasing(sorted, Time)
    ensures forall v :: WithKey(sorted, Time, v) == WithKey(incomes + expenses, Time, v)
    ensures |recent| == if |sorted| < RecentCount then |sorted| else RecentCount
    ensures recent == sorted[..|recent|]
    ensures forall i, j :: 0 <= i < |recent| <= j < |sorted| ==> sorted[j].time <= recent[i].time
  {
    var merged := incomes + expenses;
    var a := new Transaction[|merged|](i requires 0 <= i < |merged| => merged[i]);
    assert a[..] == merged;
    SortInPlace(a, Time);
    sorted := a[..];
    SortDescFacts(merged, Time);
    var n := if a.Length < RecentCount then a.Length else RecentCount;
    recent := a[..n];
  }

  /** The three figures of the balance card. */
  datatype BalanceCard = BalanceCard(totalIncome: int, totalExpenses: int, balance: int)

  /** `populateBalanceCard` (src/public/scripts/dashboardPage.js:248-258): the income and
      expense totals and their difference, which nothing clamps at zero. */
  function PopulateBalanceCard(incomes: seq<Transaction>, expenses: seq<Transaction>): (card: BalanceCard)
    ensures card.totalIncome == Total(incomes) && card.totalExpenses == Total(expenses)
    ensures card.balance == card.totalIncome - card.totalExpenses
    ensures card.balance < 0 <==> Total(expenses) > Total(incomes)
  {
    BalanceCard(Total(incomes), Total(expenses), Balance(incomes, expenses))
  }

  /** The card's balance is the signed sum over the dashboard's date-sorted list: sorting
      the merged list loses no transaction and adds none. */
  lemma BalanceCardOfSortedList(incomes: seq<Transaction>, expenses: seq<Transaction>)
    requires forall i :: 0 <= i < |incomes| ==> incomes[i].kind == Income
    requires forall i :: 0 <= i < |expenses| ==> expenses[i].kind == Expense
    ensures PopulateBalanceCard(incomes, expenses).balance == SumOf(SortDesc(incomes + expenses, Time), Signed)
  {
    BalanceSigned(incomes, expenses);
    SortDescSum(incomes + expenses, Time, Signed);
  }
}
