/** The category breakdown shared by the income and expense pages and charts
    (src/public/scripts/incomePage.js:93-119, incomeCharts.js:19-45, expenseCharts.js:19-45,
    expensesPage.js:59-76): an object seeded with a zero for every known category name,
    a fold that adds each transaction's amount to its category (appending names it has not
    seen), the object's entries sorted by total with a stable sort, and each total's share
    of the grand total. */
module CategoryTotals {
  import opened Seqs
  import opened StableSort
  import opened Ledger

  /** The accumulator object: its keys in insertion order, and its values. */
  datatype Tally = Tally(names: seq<string>, totals: map<string, int>)

  /** An object's keys are distinct and are exactly the keys of its values. */
  predicate Valid(t: Tally) {
    && NoDuplicates(t.names)
    && (forall n :: n in t.totals ==> n in t.names)
    && (forall n :: n in t.names ==> n in t.totals)
  }

  /** `Object.fromEntries(names.map(n => [n, 0]))`: a repeated name keeps its first
      position. */
  function ZeroFilled(names: seq<string>): (t: Tally)
    ensures Valid(t) && t.names == FirstOccurrences(names)
    ensures forall n :: n in t.totals ==> t.totals[n] == 0
  {
    FirstOccurrencesElements(names);
    FirstOccurrencesNoDuplicates(names);
    Tally(FirstOccurrences(names), map n | n in names :: 0)
  }

  /** `accumulator[name] = value`: a new key goes to the end of the key order, an
      existing key keeps its place. */
  function Assign(t: Tally, name: string, value: int): Tally {
    if name in t.totals then Tally(t.names, t.totals[name := value])
    else Tally(t.names + [name], t.totals[name := value])
  }

  /** The value of `name`, zero when the object has no such key. */
  function Value(t: Tally, name: string): int {
    if name in t.totals then t.totals[name] else 0
  }

  /** The plain fold step: add the amount to the category's total, creating the category
      with a zero total if it is missing. */
  function Add(t: Tally, tx: Transaction): Tally {
    Assign(t, tx.category, Value(t, tx.category) + tx.amount)
  }

  function Fold(t: Tally, txs: seq<Transaction>): Tally {
    if txs == [] then t else Add(Fold(t, txs[..|txs| - 1]), txs[|txs| - 1])
  }

  lemma FoldSnoc(t: Tally, txs: seq<Transaction>, tx: Transaction)
    ensures Fold(t, txs + [tx]) == Add(Fold(t, txs), tx)
  {
    assert (txs + [tx])[..|txs|] == txs;
  }

  /** The totals object the pages build from the category list and the transactions. */
  function Totals(categories: seq<Category>, txs: seq<Transaction>): (t: Tally)
    ensures Valid(t)
  {
    FoldNames(ZeroFilled(CategoryNames(categories)), txs);
    Fold(ZeroFilled(CategoryNames(categories)), txs)
  }

  /** The `reduce` of src/public/scripts/incomePage.js:93-101 as written: a truthy total
      (present and non-zero) is added to, anything else is overwritten by the amount. */
  method TallyByCategory(categories: seq<Category>, txs: seq<Transaction>) returns (tally: Tally)
    ensures tally == Totals(categories, txs)
    ensures Valid(tally)
    ensures tally.names == FirstOccurrences(CategoryNames(categories) + CategoriesOf(txs))
    ensures forall n :: n in tally.totals ==> tally.totals[n] == CategoryAmount(txs, n)
  {
    var names := CategoryNames(categories);
    tally := ZeroFilled(names);
    var i := 0;
    while i < |txs|
      invariant 0 <= i <= |txs|
      invariant tally == Fold(ZeroFilled(names), txs[..i])
    {
      var tx := txs[i];
      ghost var before := tally;
      if tx.category in tally.totals && tally.totals[tx.category] != 0 {
        tally := Assign(tally, tx.category, tally.totals[tx.category] + tx.amount);
      } else {
        tally := Assign(tally, tx.category, tx.amount);
      }
      assert tally == Add(before, tx);
      assert txs[..i + 1] == txs[..i] + [tx];
      FoldSnoc(ZeroFilled(names), txs[..i], tx);
      i := i + 1;
    }
    assert txs[..|txs|] == txs;
    TotalsFacts(categories, txs);
  }

  lemma TotalsFacts(categories: seq<Category>, txs: seq<Transaction>)
    ensures Valid(Totals(categories, txs))
    ensures Totals(categories, txs).names == FirstOccurrences(CategoryNames(categories) + CategoriesOf(txs))
    ensures forall n :: n in Totals(categories, txs).totals ==> Totals(categories, txs).totals[n] == CategoryAmount(txs, n)
  {
    var z := ZeroFilled(CategoryNames(categories));
    FoldNames(z, txs);
    FirstOccurrencesOfPrefix(CategoryNames(categories), CategoriesOf(txs));
    forall n | n in Totals(categories, txs).totals
      ensures Totals(categories, txs).totals[n] == CategoryAmount(txs, n)
    {
      FoldValue(z, txs, n);
    }
  }

  /** The fold keeps the object well formed, and its keys are the first occurrences of
      the seed's keys followed by the transactions' category names. */
  lemma {:induction false} FoldNames(t: Tally, txs: seq<Transaction>)
    requires Valid(t)
    ensures Valid(Fold(t, txs))
    ensures Fold(t, txs).names == FirstOccurrences(t.names + CategoriesOf(txs))
  {
    if txs == [] {
      assert t.names + CategoriesOf(txs) == t.names;
      FirstOccurrencesOfDistinct(t.names);
    } else {
      var init, tx := txs[..|txs| - 1], txs[|txs| - 1];
      FoldNames(t, init);
      var s := t.names + CategoriesOf(init);
      FirstOccurrencesElements(s);
      assert t.names + CategoriesOf(txs) == s + [tx.category];
      FirstOccurrencesSnoc(s, tx.category);
      var f := Fold(t, init);
      if tx.category !in f.totals {
        assert NoDuplicates(f.names + [tx.category]);
      }
    }
  }

  /** Each key's value is its seed value plus the amounts filed under it. */
  lemma {:induction false} FoldValue(t: Tally, txs: seq<Transaction>, n: string)
    ensures Value(Fold(t, txs), n) == Value(t, n) + CategoryAmount(txs, n)
  {
    if txs != [] {
      FoldValue(t, txs[..|txs| - 1], n);
    }
  }

  /** A category name the seed lacks becomes a key exactly when a transaction refers to
      it; a seeded name is always a key. */
  lemma {:induction false} FoldKeys(t: Tally, txs: seq<Transaction>, n: string)
    ensures n in Fold(t, txs).totals <==> n in t.totals || n in CategoriesOf(txs)
  {
    if txs != [] {
      var init := txs[..|txs| - 1];
      FoldKeys(t, init, n);
      assert CategoriesOf(txs) == CategoriesOf(init) + [txs[|txs| - 1].category];
    }
  }

  // ------------------------------------------------------------------ entries and sums

  /** `{ name, total }` as the pages build it from a `[name, total]` entry. */
  datatype CategoryTotal = CategoryTotal(name: string, total: int)

  function TotalOf(e: CategoryTotal): int {
    e.total
  }

  /** `[...new Map(Object.entries(object))]`: the entries in key order. */
  function EntriesOf(names: seq<string>, totals: map<string, int>): (r: seq<CategoryTotal>)
    requires forall n :: n in names ==> n in totals
    ensures |r| == |names|
    ensures forall i :: 0 <= i < |names| ==> r[i] == CategoryTotal(names[i], totals[names[i]])
  {
    if names == [] then []
    else EntriesOf(names[..|names| - 1], totals) + [CategoryTotal(names[|names| - 1], totals[names[|names| - 1]])]
  }

  function Entries(t: Tally): seq<CategoryTotal>
    requires Valid(t)
  {
    EntriesOf(t.names, t.totals)
  }

  /** The sum of the values of an object. */
  function EntrySum(t: Tally): int
    requires Valid(t)
  {
    SumOf(Entries(t), TotalOf)
  }

  /** Changing the value of a key outside `names` does not change the entries for `names`. */
  lemma EntriesOfOther(names: seq<string>, totals: map<string, int>, n: string, v: int)
    requires forall k :: k in names ==> k in totals
    requires n !in names
    ensures EntriesOf(names, totals[n := v]) == EntriesOf(names, totals)
  {
  }

  /** Changing the value of one key changes the sum by the difference. */
  lemma {:induction false} EntriesOfUpdate(names: seq<string>, totals: map<string, int>, n: string, v: int)
    requires forall k :: k in names ==> k in totals
    requires NoDuplicates(names) && n in names
    ensures SumOf(EntriesOf(names, totals[n := v]), TotalOf) == SumOf(EntriesOf(names, totals), TotalOf) - totals[n] + v
  {
    var init, last := names[..|names| - 1], names[|names| - 1];
    var r, r' := EntriesOf(names, totals), EntriesOf(names, totals[n := v]);
    assert r[..|r| - 1] == EntriesOf(init, totals);
    assert r'[..|r'| - 1] == EntriesOf(init, totals[n := v]);
    if last == n {
      assert n !in init;
      EntriesOfOther(init, totals, n, v);
    } else {
      assert n in init by {
        assert names == init + [last];
      }
      EntriesOfUpdate(init, totals, n, v);
    }
  }

  /** One step of the fold adds the transaction's amount to the sum of the values. */
  lemma AddSum(t: Tally, tx: Transaction)
    requires Valid(t)
    ensures Valid(Add(t, tx)) && EntrySum(Add(t, tx)) == EntrySum(t) + tx.amount
  {
    if tx.category in t.totals {
      AddSumExisting(t, tx);
    } else {
      AddSumNew(t, tx);
    }
  }

  lemma AddSumExisting(t: Tally, tx: Transaction)
    requires Valid(t) && tx.category in t.totals
    ensures Valid(Add(t, tx)) && EntrySum(Add(t, tx)) == EntrySum(t) + tx.amount
  {
    var n, v := tx.category, t.totals[tx.category] + tx.amount;
    var t' := Tally(t.names, t.totals[n := v]);
    assert Add(t, tx) == t';
    assert Valid(t') by {
      assert t'.totals.Keys == t.totals.Keys;
    }
    EntriesOfUpdate(t.names, t.totals, n, v);
    assert EntrySum(t') == SumOf(EntriesOf(t.names, t.totals[n := v]), TotalOf);
  }

  lemma AddSumNew(t: Tally, tx: Transaction)
    requires Valid(t) && tx.category !in t.totals
    ensures Valid(Add(t, tx)) && EntrySum(Add(t, tx)) == EntrySum(t) + tx.amount
  {
    var n := tx.category;
    var t' := Tally(t.names + [n], t.totals[n := tx.amount]);
    assert Add(t, tx) == t';
    assert NoDuplicates(t'.names);
    EntriesOfOther(t.names, t.totals, n, tx.amount);
    var r := EntriesOf(t'.names, t'.totals);
    assert r[..|r| - 1] == EntriesOf(t.names, t'.totals);
    assert r[|r| - 1] == CategoryTotal(n, tx.amount);
  }

  /** The fold adds every transaction's amount to the sum of the values exactly once. */
  lemma {:induction false} FoldSum(t: Tally, txs: seq<Transaction>)
    requires Valid(t)
    ensures Valid(Fold(t, txs)) && EntrySum(Fold(t, txs)) == EntrySum(t) + Total(txs)
  {
    if txs != [] {
      var init := txs[..|txs| - 1];
      FoldSum(t, init);
      AddSum(Fold(t, init), txs[|txs| - 1]);
    }
  }

  /** A zero-filled seed sums to zero. */
  lemma {:induction false} ZeroSum(names: seq<string>, totals: map<string, int>)
    requires forall n :: n in names ==> n in totals && totals[n] == 0
    ensures SumOf(EntriesOf(names, totals), TotalOf) == 0
  {
    if names != [] {
      var r := EntriesOf(names, totals);
      assert r[..|r| - 1] == EntriesOf(names[..|names| - 1], totals);
      ZeroSum(names[..|names| - 1], totals);
    }
  }

  /** The category totals add up to the total of the transactions: nothing is lost or
      counted twice, whichever categories the transactions name. */
  lemma TotalsSum(categories: seq<Category>, txs: seq<Transaction>)
    ensures Valid(Totals(categories, txs)) && EntrySum(Totals(categories, txs)) == Total(txs)
  {
    var z := ZeroFilled(CategoryNames(categories));
    ZeroSum(z.names, z.totals);
    FoldSum(z, txs);
  }

  // ---------------------------------------------------------------- sorting and shares

  /** The totals object's entries sorted by `(a, b) => b[1] - a[1]` (a stable sort). */
  function SortedTotals(categories: seq<Category>, txs: seq<Transaction>): seq<CategoryTotal> {
    SortDesc(Entries(Totals(categories, txs)), TotalOf)
  }

  /** Every sorted entry carries the sum of the amounts filed under its name. */
  lemma SortedTotalsAmounts(categories: seq<Category>, txs: seq<Transaction>)
    ensures forall i :: 0 <= i < |SortedTotals(categories, txs)| ==>
      SortedTotals(categories, txs)[i].total == CategoryAmount(txs, SortedTotals(categories, txs)[i].name)
  {
    var t, sorted := Totals(categories, txs), SortedTotals(categories, txs);
    TotalsFacts(categories, txs);
    forall i | 0 <= i < |sorted|
      ensures sorted[i].total == CategoryAmount(txs, sorted[i].name)
    {
      SortedEntry(t, sorted, i);
    }
  }

  /** An entry of the sorted list is an entry of the object. */
  lemma SortedEntry(t: Tally, sorted: seq<CategoryTotal>, i: int)
    requires Valid(t) && sorted == SortDesc(Entries(t), TotalOf) && 0 <= i < |sorted|
    ensures sorted[i].name in t.totals && sorted[i].total == t.totals[sorted[i].name]
  {
    var entries := Entries(t);
    SortDescPermutation(entries, TotalOf);
    assert sorted[i] in multiset(entries);
    var k :| 0 <= k < |entries| && entries[k] == sorted[i];
  }

  /** The sorted entries name exactly the known categories and the categories the
      transactions refer to: none is dropped, none is made up. */
  lemma SortedTotalsNames(categories: seq<Category>, txs: seq<Transaction>, n: string)
    ensures n in CategoryNames(categories) || n in CategoriesOf(txs) <==>
      exists i :: 0 <= i < |SortedTotals(categories, txs)| && SortedTotals(categories, txs)[i].name == n
  {
    var t := Totals(categories, txs);
    TotalsFacts(categories, txs);
    var s := CategoryNames(categories) + CategoriesOf(txs);
    FirstOccurrencesElements(s);
    assert n in s <==> n in CategoryNames(categories) || n in CategoriesOf(txs);
    if n in t.names {
      NamedEntrySorted(t, SortedTotals(categories, txs), n);
    }
    if exists i :: 0 <= i < |SortedTotals(categories, txs)| && SortedTotals(categories, txs)[i].name == n {
      SortedEntryNamed(t, SortedTotals(categories, txs), n);
    }
  }

  lemma NamedEntrySorted(t: Tally, sorted: seq<CategoryTotal>, n: string)
    requires Valid(t) && n in t.names && sorted == SortDesc(Entries(t), TotalOf)
    ensures exists i :: 0 <= i < |sorted| && sorted[i].name == n
  {
    var entries := Entries(t);
    SortDescPermutation(entries, TotalOf);
    var k :| 0 <= k < |t.names| && t.names[k] == n;
    assert entries[k] in multiset(sorted);
  }

  lemma SortedEntryNamed(t: Tally, sorted: seq<CategoryTotal>, n: string)
    requires Valid(t) && sorted == SortDesc(Entries(t), TotalOf)
    requires exists i :: 0 <= i < |sorted| && sorted[i].name == n
    ensures n in t.names
  {
    var i :| 0 <= i < |sorted| && sorted[i].name == n;
    SortedEntry(t, sorted, i);
  }

  /** The sorted totals add up to the total of the transactions. */
  lemma SortedTotalsSum(categories: seq<Category>, txs: seq<Transaction>)
    ensures SumOf(SortedTotals(categories, txs), TotalOf) == Total(txs)
  {
    SortDescSum(Entries(Totals(categories, txs)), TotalOf, TotalOf);
    TotalsSum(categories, txs);
  }

  /** The sorted entries of `renderIncomeCategoryChart` and `renderExpenseCategoryChart`:
      a non-increasing permutation of the totals object's entries, ties in key order,
      each carrying its category's sum, covering every known and every referenced
      category, and adding up to the total of the transactions. */
  method SortedCategoryTotals(categories: seq<Category>, txs: seq<Transaction>) returns (sorted: seq<CategoryTotal>)
    ensures sorted == SortedTotals(categories, txs)
    ensures multiset(sorted) == multiset(Entries(Totals(categories, txs)))
    ensures NonIncreasing(sorted, TotalOf)
    ensures forall v :: WithKey(sorted, TotalOf, v) == WithKey(Entries(Totals(categories, txs)), TotalOf, v)
    ensures forall i :: 0 <= i < |sorted| ==> sorted[i].total == CategoryAmount(txs, sorted[i].name)
    ensures forall n :: n in CategoryNames(categories) || n in CategoriesOf(txs) <==>
      exists i :: 0 <= i < |sorted| && sorted[i].name == n
    ensures SumOf(sorted, TotalOf) == Total(txs)
  {
    var tally := TallyByCategory(categories, txs);
    var entries := Entries(tally);
    sorted := SortDesc(entries, TotalOf);
    SortDescFacts(entries, TotalOf);
    SortedTotalsAmounts(categories, txs);
    SortedTotalsSum(categories, txs);
    forall n
      ensures n in CategoryNames(categories) || n in CategoriesOf(txs) <==> exists i :: 0 <= i < |sorted| && sorted[i].name == n
    {
      SortedTotalsNames(categories, txs, n);
    }
  }

  /** One bar of the percentage chart. */
  datatype CategoryShare = CategoryShare(name: string, percent: real)

  /** `total / grand * 100`. */
  function Percent(total: int, grand: int): real
    requires grand != 0
  {
    total as real / grand as real * 100.0
  }

  /** A percentage times the grand total is a hundred times the total. */
  lemma PercentMeaning(total: int, grand: int)
    requires grand != 0
    ensures Percent(total, grand) * grand as real == total as real * 100.0
  {
  }

  function PercentOfGrand(grand: int): int -> real
    requires grand != 0
  {
    total => Percent(total, grand)
  }

  /** Taking a percentage of a fixed grand total is additive, takes 0 to 0 and the grand
      total itself to 100. */
  lemma PercentAdditive(grand: int)
    requires grand != 0
    ensures forall a, b :: PercentOfGrand(grand)(a + b) == PercentOfGrand(grand)(a) + PercentOfGrand(grand)(b)
    ensures PercentOfGrand(grand)(0) == 0.0
    ensures PercentOfGrand(grand)(grand) == 100.0
  {
    forall a, b ensures Percent(a + b, grand) == Percent(a, grand) + Percent(b, grand) {
      DivideSum(a as real, b as real, grand as real);
    }
    assert Percent(0, grand) == 0.0;
    assert grand as real / grand as real == 1.0;
  }

  lemma DivideSum(x: real, y: real, g: real)
    requires g != 0.0
    ensures (x + y) / g * 100.0 == x / g * 100.0 + y / g * 100.0
  {
    assert (x + y) / g == x / g + y / g;
  }

  /** `sorted.map(({name, total}) => ({ name, total: pct(total) }))`. */
  function Shares(sorted: seq<CategoryTotal>, pct: int -> real): (r: seq<CategoryShare>)
    ensures |r| == |sorted|
    ensures forall i :: 0 <= i < |sorted| ==> r[i] == CategoryShare(sorted[i].name, pct(sorted[i].total))
  {
    if sorted == [] then []
    else
      var last := sorted[|sorted| - 1];
      Shares(sorted[..|sorted| - 1], pct) + [CategoryShare(last.name, pct(last.total))]
  }

  /** `sorted.map(({name, total}) => ({ name, total: total / grand * 100 }))`. */
  function Percentages(sorted: seq<CategoryTotal>, grand: int): seq<CategoryShare>
    requires grand != 0
  {
    Shares(sorted, PercentOfGrand(grand))
  }

  /** The sum of the percentages of a chart. */
  function PercentSum(shares: seq<CategoryShare>): real {
    if shares == [] then 0.0 else PercentSum(shares[..|shares| - 1]) + shares[|shares| - 1].percent
  }

  /** An additive scaling of each total adds up to the scaling of the sum of the totals. */
  lemma {:induction false} SharesTotal(sorted: seq<CategoryTotal>, pct: int -> real)
    requires forall a, b :: pct(a + b) == pct(a) + pct(b)
    requires pct(0) == 0.0
    ensures PercentSum(Shares(sorted, pct)) == pct(SumOf(sorted, TotalOf))
  {
    if sorted != [] {
      var init, last := sorted[..|sorted| - 1], sorted[|sorted| - 1];
      SharesTotal(init, pct);
      var r := Shares(sorted, pct);
      assert r[..|r| - 1] == Shares(init, pct);
      assert pct(SumOf(init, TotalOf) + last.total) == pct(SumOf(init, TotalOf)) + pct(last.total);
    }
  }

  /** When the grand total is the sum of the totals, the percentages add up to 100. */
  lemma PercentagesSum(sorted: seq<CategoryTotal>)
    requires SumOf(sorted, TotalOf) != 0
    ensures PercentSum(Percentages(sorted, SumOf(sorted, TotalOf))) == 100.0
  {
    var g := SumOf(sorted, TotalOf);
    PercentAdditive(g);
    SharesTotal(sorted, PercentOfGrand(g));
  }

  /** The income and expense category charts (src/public/scripts/incomePage.js:93-119,
      incomeCharts.js:19-45, expenseCharts.js:19-45): the sorted totals, their grand total,
      and each category's percentage of it.  The grand total must be non-zero: the
      source divides by it unguarded. */
  method CategoryPercentages(categories: seq<Category>, txs: seq<Transaction>)
    returns (sorted: seq<CategoryTotal>, grand: int, shares: seq<CategoryShare>)
    requires Total(txs) != 0
    ensures sorted == SortedTotals(categories, txs)
    ensures grand == Total(txs)
    ensures |shares| == |sorted|
    ensures forall i :: 0 <= i < |sorted| ==>
      shares[i].name == sorted[i].name && shares[i].percent == Percent(CategoryAmount(txs, sorted[i].name), Total(txs))
    ensures PercentSum(shares) == 100.0
  {
    sorted := SortedCategoryTotals(categories, txs);
    grand := SumOf(sorted, TotalOf);
    shares := Percentages(sorted, grand);
    PercentagesSum(sorted);
  }
}
