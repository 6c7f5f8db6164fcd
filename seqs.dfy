/** Generic sequence vocabulary shared by the pages and routes: first occurrences
    (the de-duplicating reduce), reversal, and sums over a projection. */
module Seqs {

  /** No element occurs twice. */
  predicate NoDuplicates<T(==)>(s: seq<T>) {
    forall i, j :: 0 <= i < j < |s| ==> s[i] != s[j]
  }

  /** The elements of `s`, each kept at its first position, in input order:
      `s[i]` is kept exactly when it does not occur in `s[..i]`. */
  function FirstOccurrences<T(==)>(s: seq<T>): seq<T> {
    if s == [] then []
    else
      var init := s[..|s| - 1];
      FirstOccurrences(init) + (if s[|s| - 1] in init then [] else [s[|s| - 1]])
  }

  lemma {:induction false} FirstOccurrencesElements<T>(s: seq<T>)
    ensures forall x :: x in FirstOccurrences(s) <==> x in s
  {
    if s != [] {
      var init := s[..|s| - 1];
      FirstOccurrencesElements(init);
      assert s == init + [s[|s| - 1]];
    }
  }

  lemma {:induction false} FirstOccurrencesNoDuplicates<T>(s: seq<T>)
    ensures NoDuplicates(FirstOccurrences(s))
  {
    if s != [] {
      var init := s[..|s| - 1];
      FirstOccurrencesNoDuplicates(init);
      FirstOccurrencesElements(init);
    }
  }

  /** A list without duplicates is its own list of first occurrences, so
      de-duplicating twice changes nothing. */
  lemma {:induction false} FirstOccurrencesOfDistinct<T>(s: seq<T>)
    requires NoDuplicates(s)
    ensures FirstOccurrences(s) == s
  {
    if s != [] {
      var init := s[..|s| - 1];
      FirstOccurrencesOfDistinct(init);
      assert s[|s| - 1] !in init by {
        forall i | 0 <= i < |init| ensures init[i] != s[|s| - 1] {
          assert s[i] != s[|s| - 1];
        }
      }
      assert s == init + [s[|s| - 1]];
    }
  }

  lemma FirstOccurrencesIdempotent<T>(s: seq<T>)
    ensures FirstOccurrences(FirstOccurrences(s)) == FirstOccurrences(s)
  {
    FirstOccurrencesNoDuplicates(s);
    FirstOccurrencesOfDistinct(FirstOccurrences(s));
  }

  /** Appending an element that already occurs leaves the first occurrences
      unchanged; appending a new one adds it at the end. */
  lemma FirstOccurrencesSnoc<T>(s: seq<T>, x: T)
    ensures FirstOccurrences(s + [x]) == FirstOccurrences(s) + (if x in s then [] else [x])
  {
    assert (s + [x])[..|s|] == s;
  }

  /** De-duplicating a prefix first does not change the first occurrences of the whole. */
  lemma {:induction false} FirstOccurrencesOfPrefix<T>(a: seq<T>, b: seq<T>)
    ensures FirstOccurrences(FirstOccurrences(a) + b) == FirstOccurrences(a + b)
  {
    if b == [] {
      assert FirstOccurrences(a) + b == FirstOccurrences(a) && a + b == a;
      FirstOccurrencesIdempotent(a);
    } else {
      var init, x := b[..|b| - 1], b[|b| - 1];
      FirstOccurrencesOfPrefix(a, init);
      FirstOccurrencesElements(a);
      assert FirstOccurrences(a) + b == (FirstOccurrences(a) + init) + [x];
      assert a + b == (a + init) + [x];
      FirstOccurrencesSnoc(FirstOccurrences(a) + init, x);
      FirstOccurrencesSnoc(a + init, x);
    }
  }

  /** `Array.prototype.reverse`: the element at `i` comes from position `|s| - 1 - i`. */
  function Reversed<T>(s: seq<T>): (r: seq<T>)
    ensures |r| == |s|
    ensures forall i :: 0 <= i < |s| ==> r[i] == s[|s| - 1 - i]
  {
    if s == [] then [] else Reversed(s[1..]) + [s[0]]
  }

  /** `Array.prototype.map`: the image of each element, in order. */
  function Map<T, U>(s: seq<T>, f: T -> U): (r: seq<U>)
    ensures |r| == |s|
    ensures forall i :: 0 <= i < |s| ==> r[i] == f(s[i])
  {
    if s == [] then [] else Map(s[..|s| - 1], f) + [f(s[|s| - 1])]
  }

  /** Reversing keeps every element with its multiplicity. */
  lemma {:induction false} ReversedMultiset<T>(s: seq<T>)
    ensures multiset(Reversed(s)) == multiset(s)
  {
    if s != [] {
      ReversedMultiset(s[1..]);
      assert s == [s[0]] + s[1..];
    }
  }

  /** Sum of `f` over the elements of `s` (a `reduce` with `+` from 0). */
  function SumOf<T>(s: seq<T>, f: T -> int): int {
    if s == [] then 0 else SumOf(s[..|s| - 1], f) + f(s[|s| - 1])
  }

  lemma {:induction false} SumOfAppend<T>(a: seq<T>, b: seq<T>, f: T -> int)
    ensures SumOf(a + b, f) == SumOf(a, f) + SumOf(b, f)
  {
    if b == [] {
      assert a + b == a;
    } else {
      assert (a + b)[..|a + b| - 1] == a + b[..|b| - 1];
      assert (a + b)[|a + b| - 1] == b[|b| - 1];
      SumOfAppend(a, b[..|b| - 1], f);
    }
  }

  /** The elements of `s` that satisfy `p`, in order (`Array.prototype.filter`). */
  function Filter<T>(s: seq<T>, p: T -> bool): (r: seq<T>)
    ensures |r| <= |s|
    ensures forall i :: 0 <= i < |r| ==> p(r[i])
  {
    if s == [] then []
    else
      var init := Filter(s[..|s| - 1], p);
      if p(s[|s| - 1]) then init + [s[|s| - 1]] else init
  }

  lemma {:induction false} FilterElements<T>(s: seq<T>, p: T -> bool)
    ensures forall x :: x in Filter(s, p) <==> x in s && p(x)
  {
    if s != [] {
      FilterElements(s[..|s| - 1], p);
      assert s == s[..|s| - 1] + [s[|s| - 1]];
    }
  }

  lemma {:induction false} FilterAppend<T>(a: seq<T>, b: seq<T>, p: T -> bool)
    ensures Filter(a + b, p) == Filter(a, p) + Filter(b, p)
  {
    if b == [] {
      assert a + b == a;
    } else {
      assert (a + b)[..|a + b| - 1] == a + b[..|b| - 1];
      assert (a + b)[|a + b| - 1] == b[|b| - 1];
      FilterAppend(a, b[..|b| - 1], p);
    }
  }

  lemma {:induction false} FilterAll<T>(s: seq<T>, p: T -> bool)
    requires forall x :: x in s ==> p(x)
    ensures Filter(s, p) == s
  {
    if s != [] {
      FilterAll(s[..|s| - 1], p);
      assert s == s[..|s| - 1] + [s[|s| - 1]];
    }
  }
}
