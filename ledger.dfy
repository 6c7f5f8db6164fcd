/** The transaction and category rows the routes return and the pages work on, and the
    `reduce((acc, t) => acc + t.amount, 0)` totals computed over them. */
module Ledger {
  import opened Seqs

  datatype Kind = Income | Expense

  /** A row of `/transactions` (src/routes/api.js:121-143): its `type`, `source`, `amount`,
      `date` and category `name` (the icon is left out).  `time` stands for
      `new Date(date)` as a number, the value the dashboard sorts on. */
  datatype Transaction = Transaction(kind: Kind, source: string, amount: int, date: string, time: int, category: string)

  /** A row of `/income-categories` or `/expense-categories`. */
  datatype Category = Category(id: int, name: string)

  function Amount(t: Transaction): int {
    t.amount
  }

  function Time(t: Transaction): int {
    t.time
  }

  /** The `reduce` that adds up the amounts of a list of transactions. */
  function Total(txs: seq<Transaction>): int {
    SumOf(txs, Amount)
  }

  function NameOf(c: Category): string {
    c.name
  }

  function CategoryOf(t: Transaction): string {
    t.category
  }

  /** `categories.map(c => c.name)`. */
  function CategoryNames(categories: seq<Category>): seq<string> {
    Map(categories, NameOf)
  }

  /** The category names the transactions refer to, in order. */
  function CategoriesOf(txs: seq<Transaction>): seq<string> {
    Map(txs, CategoryOf)
  }

  /** The sum of the amounts of the transactions filed under `name`. */
  function CategoryAmount(txs: seq<Transaction>, name: string): int {
    if txs == [] then 0
    else CategoryAmount(txs[..|txs| - 1], name) + (if txs[|txs| - 1].category == name then txs[|txs| - 1].amount else 0)
  }

  /** A category no transaction refers to has nothing filed under it. */
  lemma {:induction false} CategoryAmountAbsent(txs: seq<Transaction>, name: string)
    requires name !in CategoriesOf(txs)
    ensures CategoryAmount(txs, name) == 0
  {
    if txs != [] {
      assert CategoriesOf(txs[..|txs| - 1]) <= CategoriesOf(txs);
      CategoryAmountAbsent(txs[..|txs| - 1], name);
    }
  }

  /** `totalIncome - totalExpenses`; nothing clamps it, so it is negative when the
      expenses exceed the income. */
  function Balance(incomes: seq<Transaction>, expenses: seq<Transaction>): int {
    Total(incomes) - Total(expenses)
  }

  /** An income counts for its amount, an expense against it. */
  function Signed(t: Transaction): int {
    if t.kind == Income then t.amount else -t.amount
  }

  /** The balance is the signed sum over the merged list of a month's transactions. */
  lemma BalanceSigned(incomes: seq<Transaction>, expenses: seq<Transaction>)
    requires forall i :: 0 <= i < |incomes| ==> incomes[i].kind == Income
    requires forall i :: 0 <= i < |expenses| ==> expenses[i].kind == Expense
    ensures Balance(incomes, expenses) == SumOf(incomes + expenses, Signed)
  {
    SumOfAppend(incomes, expenses, Signed);
    SignedIncomes(incomes);
    SignedExpenses(expenses);
  }

  lemma {:induction false} SignedIncomes(incomes: seq<Transaction>)
    requires forall i :: 0 <= i < |incomes| ==> incomes[i].kind == Income
    ensures SumOf(incomes, Signed) == Total(incomes)
  {
    if incomes != [] {
      SignedIncomes(incomes[..|incomes| - 1]);
    }
  }

  lemma {:induction false} SignedExpenses(expenses: seq<Transaction>)
    requires forall i :: 0 <= i < |expenses| ==> expenses[i].kind == Expense
    ensures SumOf(expenses, Signed) == -Total(expenses)
  {
    if expenses != [] {
      SignedExpenses(expenses[..|expenses| - 1]);
    }
  }

  lemma TotalAppend(a: seq<Transaction>, b: seq<Transaction>)
    ensures Total(a + b) == Total(a) + Total(b)
  {
    SumOfAppend(a, b, Amount);
  }
}
