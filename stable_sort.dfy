/** The stable sorts behind `Array.prototype.toSorted` and `Array.prototype.sort` with a
    comparator `(x, y) => key(y) - key(x)`: elements come out in non-increasing order of
    `key`, and elements with equal keys keep their input order.  An ascending sort is
    the same sort on the negated key. */
module StableSort {
  import opened Seqs

  predicate NonIncreasing<T>(s: seq<T>, key: T -> int) {
    forall i, j :: 0 <= i < j < |s| ==> key(s[i]) >= key(s[j])
  }

  /** The elements of `s` whose key is `v`, in order. */
  function WithKey<T>(s: seq<T>, key: T -> int, v: int): seq<T> {
    if s == [] then []
    else WithKey(s[..|s| - 1], key, v) + (if key(s[|s| - 1]) == v then [s[|s| - 1]] else [])
  }

  /** Puts `x`, which comes after every element of `sorted` in the input, behind every
      element whose key is at least its own. */
  function Insert<T>(sorted: seq<T>, x: T, key: T -> int): seq<T> {
    if sorted == [] || key(sorted[|sorted| - 1]) >= key(x) then sorted + [x]
    else Insert(sorted[..|sorted| - 1], x, key) + [sorted[|sorted| - 1]]
  }

  /** Insertion sort, one input element at a time, in input order. */
  function SortDesc<T>(s: seq<T>, key: T -> int): seq<T> {
    if s == [] then [] else Insert(SortDesc(s[..|s| - 1], key), s[|s| - 1], key)
  }

  lemma {:induction false} WithKeyAppend<T>(a: seq<T>, b: seq<T>, key: T -> int, v: int)
    ensures WithKey(a + b, key, v) == WithKey(a, key, v) + WithKey(b, key, v)
  {
    if b == [] {
      assert a + b == a;
    } else {
      assert (a + b)[..|a + b| - 1] == a + b[..|b| - 1];
      assert (a + b)[|a + b| - 1] == b[|b| - 1];
      WithKeyAppend(a, b[..|b| - 1], key, v);
    }
  }

  lemma {:induction false} InsertPermutation<T>(sorted: seq<T>, x: T, key: T -> int)
    ensures multiset(Insert(sorted, x, key)) == multiset(sorted) + multiset{x}
    ensures |Insert(sorted, x, key)| == |sorted| + 1
  {
    if !(sorted == [] || key(sorted[|sorted| - 1]) >= key(x)) {
      var init, last := sorted[..|sorted| - 1], sorted[|sorted| - 1];
      assert sorted == init + [last];
      InsertPermutation(init, x, key);
    }
  }

  /** A lower bound on the keys of `sorted` and of `x` bounds the keys after insertion. */
  lemma {:induction false} InsertLowerBound<T>(sorted: seq<T>, x: T, key: T -> int, v: int)
    requires forall i :: 0 <= i < |sorted| ==> key(sorted[i]) >= v
    requires key(x) >= v
    ensures forall i :: 0 <= i < |Insert(sorted, x, key)| ==> key(Insert(sorted, x, key)[i]) >= v
  {
    if !(sorted == [] || key(sorted[|sorted| - 1]) >= key(x)) {
      InsertLowerBound(sorted[..|sorted| - 1], x, key, v);
    }
  }

  lemma {:induction false} InsertSorted<T>(sorted: seq<T>, x: T, key: T -> int)
    requires NonIncreasing(sorted, key)
    ensures NonIncreasing(Insert(sorted, x, key), key)
  {
    if !(sorted == [] || key(sorted[|sorted| - 1]) >= key(x)) {
      var init, last := sorted[..|sorted| - 1], sorted[|sorted| - 1];
      InsertSorted(init, x, key);
      InsertLowerBound(init, x, key, key(last));
    }
  }

  /** `x` passes only elements whose key is below its own, so among the elements that
      share a key it stays behind every one of them. */
  lemma {:induction false} InsertStable<T>(sorted: seq<T>, x: T, key: T -> int, v: int)
    ensures WithKey(Insert(sorted, x, key), key, v) == WithKey(sorted, key, v) + WithKey([x], key, v)
  {
    if sorted == [] || key(sorted[|sorted| - 1]) >= key(x) {
      WithKeyAppend(sorted, [x], key, v);
    } else {
      var init, last := sorted[..|sorted| - 1], sorted[|sorted| - 1];
      assert sorted == init + [last];
      assert Insert(sorted, x, key) == Insert(init, x, key) + [last];
      InsertStable(init, x, key, v);
      WithKeyAppend(Insert(init, x, key), [last], key, v);
      WithKeyAppend(init, [last], key, v);
      var before, mine, theirs := WithKey(init, key, v), WithKey([x], key, v), WithKey([last], key, v);
      assert mine == [] || theirs == [];
      assert before + mine + theirs == before + theirs + mine;
    }
  }

  /** Sorting neither loses nor adds an element. */
  lemma {:induction false} SortDescPermutation<T>(s: seq<T>, key: T -> int)
    ensures multiset(SortDesc(s, key)) == multiset(s)
    ensures |SortDesc(s, key)| == |s|
  {
    if s != [] {
      var init, last := s[..|s| - 1], s[|s| - 1];
      assert s == init + [last];
      SortDescPermutation(init, key);
      InsertPermutation(SortDesc(init, key), last, key);
    }
  }

  /** The sorted list is non-increasing, a permutation of the input, and stable: for
      every key value, the elements with that key appear in input order. */
  lemma {:induction false} SortDescFacts<T>(s: seq<T>, key: T -> int)
    ensures NonIncreasing(SortDesc(s, key), key)
    ensures multiset(SortDesc(s, key)) == multiset(s)
    ensures |SortDesc(s, key)| == |s|
    ensures forall v :: WithKey(SortDesc(s, key), key, v) == WithKey(s, key, v)
  {
    if s != [] {
      var init, last := s[..|s| - 1], s[|s| - 1];
      assert s == init + [last];
      SortDescFacts(init, key);
      SortDescPermutation(s, key);
      InsertSorted(SortDesc(init, key), last, key);
      forall v ensures WithKey(SortDesc(s, key), key, v) == WithKey(s, key, v) {
        InsertStable(SortDesc(init, key), last, key, v);
        WithKeyAppend(init, [last], key, v);
      }
    }
  }

  /** A stable sort keeps a list that is already in order exactly as it is; in
      particular a comparator that calls every pair equal keeps the input order. */
  lemma {:induction false} SortDescOfSorted<T>(s: seq<T>, key: T -> int)
    requires NonIncreasing(s, key)
    ensures SortDesc(s, key) == s
  {
    if s != [] {
      var init := s[..|s| - 1];
      SortDescOfSorted(init, key);
    }
  }

  /** Sorting does not change a sum over the elements. */
  lemma {:induction false} SortDescSum<T>(s: seq<T>, key: T -> int, f: T -> int)
    ensures SumOf(SortDesc(s, key), f) == SumOf(s, f)
  {
    if s != [] {
      var init, last := s[..|s| - 1], s[|s| - 1];
      SortDescSum(init, key, f);
      InsertSum(SortDesc(init, key), last, key, f);
    }
  }

  lemma {:induction false} InsertSum<T>(sorted: seq<T>, x: T, key: T -> int, f: T -> int)
    ensures SumOf(Insert(sorted, x, key), f) == SumOf(sorted, f) + f(x)
  {
    if sorted == [] || key(sorted[|sorted| - 1]) >= key(x) {
      assert (sorted + [x])[..|sorted|] == sorted;
    } else {
      var init, last := sorted[..|sorted| - 1], sorted[|sorted| - 1];
      InsertSum(init, x, key, f);
      var r := Insert(init, x, key) + [last];
      assert r[..|r| - 1] == Insert(init, x, key);
    }
  }

  /** `Array.prototype.sort` with the comparator `(x, y) => key(y) - key(x)`, run in
      place: insertion sort over the array, one element at a time. */
  method SortInPlace<T>(a: array<T>, key: T -> int)
    modifies a
    ensures a[..] == SortDesc(old(a[..]), key)
  {
    ghost var input := a[..];
    var i := 0;
    while i < a.Length
      invariant 0 <= i <= a.Length
      invariant a[..i] == SortDesc(input[..i], key)
      invariant a[i..] == input[i..]
    {
      assert input[..i + 1] == input[..i] + [input[i]];
      assert a[i + 1..] == input[i + 1..] by {
        assert a[i + 1..] == a[i..][1..] && input[i + 1..] == input[i..][1..];
      }
      InsertInPlace(a, i, key);
      i := i + 1;
    }
    assert input[..a.Length] == input;
  }

  /** Inserts `a[i]` into the prefix `a[..i]` by swapping it leftwards past the
      elements with a smaller key. */
  method InsertInPlace<T>(a: array<T>, i: nat, key: T -> int)
    requires i < a.Length
    modifies a
    ensures a[..i + 1] == Insert(old(a[..i]), old(a[i]), key)
    ensures a[i + 1..] == old(a[i + 1..])
  {
    var x := a[i];
    ghost var done, rest := a[..i], a[i + 1..];
    var j := i;
    assert done[..j] == done && done[j..] == [];
    while j > 0 && key(a[j - 1]) < key(x)
      invariant 0 <= j <= i
      invariant a[..i + 1] == done[..j] + [x] + done[j..] && a[i + 1..] == rest
      invariant Insert(done, x, key) == Insert(done[..j], x, key) + done[j..]
    {
      InsertShift(done, j, x, key);
      ghost var s := a[..];
      SwapStep(s, done, j, x);
      a[j - 1], a[j] := a[j], a[j - 1];
      assert a[..] == s[j - 1 := s[j]][j := s[j - 1]];
      j := j - 1;
    }
    InsertStop(done, j, x, key);
  }

  /** One swap on the array's contents: `x` moves from slot `j` to slot `j - 1`. */
  lemma SwapStep<T>(s: seq<T>, done: seq<T>, j: nat, x: T)
    requires 0 < j <= |done| < |s| && s[..|done| + 1] == done[..j] + [x] + done[j..]
    ensures var t := s[j - 1 := s[j]][j := s[j - 1]];
      && t[..|done| + 1] == done[..j - 1] + [x] + done[j - 1..]
      && t[|done| + 1..] == s[|done| + 1..]
  {
    var n := |done|;
    assert s[j - 1] == s[..n + 1][j - 1] == done[j - 1];
    assert s[j] == s[..n + 1][j] == x;
    var t := s[j - 1 := s[j]][j := s[j - 1]];
    var u := done[..j - 1] + [x] + done[j - 1..];
    assert forall k :: 0 <= k < n + 1 ==> t[k] == u[k] by {
      forall k | 0 <= k < n + 1 ensures t[k] == u[k] {
        if k < j - 1 {
          assert t[k] == s[..n + 1][k];
        } else if j < k {
          assert t[k] == s[..n + 1][k];
        }
      }
    }
  }

  /** One step of the shifting loop: the insertion point moves left past `done[j - 1]`. */
  lemma InsertShift<T>(done: seq<T>, j: nat, x: T, key: T -> int)
    requires 0 < j <= |done| && key(done[j - 1]) < key(x)
    ensures Insert(done[..j], x, key) + done[j..] == Insert(done[..j - 1], x, key) + done[j - 1..]
  {
    assert done[..j][..j - 1] == done[..j - 1];
    assert done[j - 1..] == [done[j - 1]] + done[j..];
  }

  lemma InsertStop<T>(done: seq<T>, j: nat, x: T, key: T -> int)
    requires j <= |done| && (j == 0 || key(done[j - 1]) >= key(x))
    ensures Insert(done[..j], x, key) == done[..j] + [x]
  {
  }
}
