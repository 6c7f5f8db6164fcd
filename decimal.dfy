/** The string conversions the pages and routes use on numbers: `toString()` of an
    integer, `padStart(2, '0')`, and `split('-')`, with the parsers that invert them. */
module Decimal {

  predicate IsDigit(c: char) {
    '0' <= c <= '9'
  }

  predicate AllDigits(s: string) {
    forall i :: 0 <= i < |s| ==> IsDigit(s[i])
  }

  function DigitChar(d: nat): (c: char)
    requires d < 10
    ensures IsDigit(c) && c as int - '0' as int == d
  {
    ('0' as int + d) as char
  }

  /** The value of one digit character. */
  function DigitValue(c: char): int {
    c as int - '0' as int
  }

  lemma DigitCharValue(c: char)
    requires IsDigit(c)
    ensures 0 <= DigitValue(c) < 10 && DigitChar(DigitValue(c)) == c
  {
  }

  /** The value of a string of decimal digits (leading zeros allowed). */
  function ParseNat(s: string): nat
    requires AllDigits(s)
  {
    if s == [] then 0 else ParseNat(s[..|s| - 1]) * 10 + (s[|s| - 1] as int - '0' as int)
  }

  /** `Number.prototype.toString()` of a non-negative integer: its decimal digits,
      with a leading `0` only for zero itself. */
  function NatToString(n: nat): (s: string)
    ensures |s| >= 1 && AllDigits(s)
    ensures s[0] == '0' <==> n == 0
  {
    if n < 10 then [DigitChar(n)] else NatToString(n / 10) + [DigitChar(n % 10)]
  }

  lemma {:induction false} ParseNatToString(n: nat)
    ensures ParseNat(NatToString(n)) == n
  {
    if n >= 10 {
      ParseNatToString(n / 10);
      var s := NatToString(n);
      assert s[..|s| - 1] == NatToString(n / 10);
    }
  }

  /** A decimal numeral has at most `k` digits exactly when the number is below 10^k. */
  lemma {:induction false} NatToStringLength(n: nat)
    ensures |NatToString(n)| == 1 <==> n < 10
    ensures |NatToString(n)| == 2 <==> 10 <= n < 100
    ensures |NatToString(n)| == 3 <==> 100 <= n < 1000
    ensures |NatToString(n)| == 4 <==> 1000 <= n < 10000
  {
    if n >= 10 {
      NatToStringLength(n / 10);
    }
  }

  /** A numeral that does not start with `0` denotes at least 1, and at least 10 when it
      has two digits or more. */
  lemma {:induction false} ParseNatPositive(s: string)
    requires |s| >= 1 && AllDigits(s) && s[0] != '0'
    ensures ParseNat(s) >= 1
    ensures |s| >= 2 ==> ParseNat(s) >= 10
  {
    if |s| >= 2 {
      ParseNatPositive(s[..|s| - 1]);
    }
  }

  /** A numeral without leading zeros is what `toString()` gives for its value. */
  lemma {:induction false} NatToStringParseNat(s: string)
    requires |s| >= 1 && AllDigits(s) && (s[0] == '0' ==> |s| == 1)
    ensures NatToString(ParseNat(s)) == s
  {
    if |s| >= 2 {
      var p := s[..|s| - 1];
      NatToStringParseNat(p);
      ParseNatPositive(s);
      assert ParseNat(s) / 10 == ParseNat(p);
      assert s == p + [s[|s| - 1]];
    } else {
      assert s[..0] == [];
    }
  }

  lemma {:induction false} ParseNatLeadingZero(s: string)
    requires AllDigits(s)
    ensures AllDigits("0" + s) && ParseNat("0" + s) == ParseNat(s)
  {
    if s != [] {
      var z := "0" + s;
      assert z[..|z| - 1] == "0" + s[..|s| - 1];
      ParseNatLeadingZero(s[..|s| - 1]);
    }
  }

  /** `toString()` of any integer: a minus sign before the digits of a negative one. */
  function IntToString(n: int): string {
    if n < 0 then "-" + NatToString(-n) else NatToString(n)
  }

  /** A string `IntToString` could have produced, syntactically. */
  predicate IsIntLiteral(s: string) {
    |s| >= 1 && if s[0] == '-' then |s| >= 2 && AllDigits(s[1..]) else AllDigits(s)
  }

  /** A string `IntToString` produces: digits without leading zeros (zero itself
      aside), after a minus sign for a negative number; so no `-0`. */
  predicate IsCanonicalInt(s: string) {
    && IsIntLiteral(s)
    && (if s[0] == '-' then s[1] != '0' else s[0] == '0' ==> |s| == 1)
  }

  function ParseInt(s: string): int
    requires IsIntLiteral(s)
  {
    if s[0] == '-' then 0 - ParseNat(s[1..]) else ParseNat(s)
  }

  lemma ParseIntToString(n: int)
    ensures IsCanonicalInt(IntToString(n)) && ParseInt(IntToString(n)) == n
  {
    var s := IntToString(n);
    if n < 0 {
      var t := NatToString(-n);
      assert s == "-" + t && s[1..] == t && s[1] == t[0];
      ParseNatToString(-n);
    } else {
      NatToStringLength(n);
      ParseNatToString(n);
    }
  }

  /** A canonical numeral is what `toString()` gives for its value. */
  lemma CanonicalIntRoundTrip(s: string)
    requires IsCanonicalInt(s)
    ensures IntToString(ParseInt(s)) == s
  {
    if s[0] == '-' {
      var t := s[1..];
      NatToStringParseNat(t);
      ParseNatPositive(t);
      assert s == "-" + t;
    } else {
      NatToStringParseNat(s);
    }
  }

  lemma IntToStringInjective(a: int, b: int)
    ensures IntToString(a) == IntToString(b) <==> a == b
  {
    ParseIntToString(a);
    ParseIntToString(b);
  }

  /** `String.prototype.padStart(width, fill)`: `fill` is put in front of `s` until the
      result is `width` long; a string already that long is returned unchanged. */
  function PadStart(s: string, width: nat, fill: char): (r: string)
    ensures r == if |s| >= width then s else Repeat(fill, width - |s|) + s
    decreases width - |s|
  {
    if |s| >= width then s
    else
      var r := PadStart([fill] + s, width, fill);
      assert [fill] + s == Repeat(fill, 1) + s;
      RepeatAppend(fill, width - |s| - 1);
      r
  }

  /** `n` copies of `c`. */
  function Repeat(c: char, n: nat): (r: string)
    ensures |r| == n
    ensures forall i :: 0 <= i < n ==> r[i] == c
  {
    if n == 0 then [] else Repeat(c, n - 1) + [c]
  }

  lemma {:induction false} RepeatAppend(c: char, n: nat)
    ensures Repeat(c, n) + [c] == [c] + Repeat(c, n)
  {
    if n > 0 {
      RepeatAppend(c, n - 1);
    }
  }

  /** `n.toString().padStart(2, '0')`, as the routes write months and days. */
  function TwoDigits(n: nat): string {
    PadStart(NatToString(n), 2, '0')
  }

  /** Below 100, the padded numeral is exactly two digits and parses back to `n`. */
  lemma TwoDigitsRoundTrip(n: nat)
    requires n < 100
    ensures |TwoDigits(n)| == 2 && AllDigits(TwoDigits(n))
    ensures ParseNat(TwoDigits(n)) == n
  {
    var s := NatToString(n);
    NatToStringLength(n);
    ParseNatToString(n);
    if n < 10 {
      var r := TwoDigits(n);
      assert r == "0" + s;
      ParseNatLeadingZero(s);
    } else {
      assert TwoDigits(n) == s;
    }
  }

  /** Below 100, the padded numeral is the tens digit followed by the units digit. */
  lemma TwoDigitsChars(n: nat)
    requires n < 100
    ensures TwoDigits(n) == [DigitChar(n / 10), DigitChar(n % 10)]
  {
    if n < 10 {
      assert TwoDigits(n) == "0" + [DigitChar(n)];
    } else {
      assert NatToString(n / 10) == [DigitChar(n / 10)];
    }
  }

  /** A two-digit numeral is the padded numeral of its value. */
  lemma TwoDigitsOfNumeral(s: string)
    requires |s| == 2 && IsDigit(s[0]) && IsDigit(s[1])
    ensures TwoDigits(10 * DigitValue(s[0]) + DigitValue(s[1])) == s
  {
    var tens, units := DigitValue(s[0]), DigitValue(s[1]);
    DigitCharValue(s[0]);
    DigitCharValue(s[1]);
    var n := 10 * tens + units;
    assert n / 10 == tens && n % 10 == units;
    TwoDigitsChars(n);
    assert s == [s[0], s[1]];
  }

  lemma TwoDigitsInjective(a: nat, b: nat)
    requires a < 100 && b < 100
    ensures TwoDigits(a) == TwoDigits(b) <==> a == b
  {
    TwoDigitsRoundTrip(a);
    TwoDigitsRoundTrip(b);
  }

  /** `String.prototype.split(sep)` for a one-character separator: the maximal
      separator-free pieces between separators, always at least one. */
  function Split(s: string, sep: char): (parts: seq<string>)
    ensures |parts| >= 1
    ensures forall i :: 0 <= i < |parts| ==> sep !in parts[i]
  {
    if s == [] then [[]]
    else
      var rest := Split(s[1..], sep);
      if s[0] == sep then [[]] + rest else [[s[0]] + rest[0]] + rest[1..]
  }

  /** The inverse of `Split`: the parts glued back with the separator. */
  function Join(parts: seq<string>, sep: char): string
    requires |parts| >= 1
  {
    if |parts| == 1 then parts[0] else parts[0] + [sep] + Join(parts[1..], sep)
  }

  lemma {:induction false} JoinSplit(s: string, sep: char)
    ensures Join(Split(s, sep), sep) == s
  {
    if s != [] {
      JoinSplit(s[1..], sep);
      var rest := Split(s[1..], sep);
      if s[0] == sep {
        assert ([[]] + rest)[1..] == rest;
      } else {
        var parts := [[s[0]] + rest[0]] + rest[1..];
        if |rest| == 1 {
          assert parts == [[s[0]] + rest[0]];
        } else {
          assert parts[1..] == rest[1..];
          assert Join(rest, sep) == rest[0] + [sep] + Join(rest[1..], sep);
        }
      }
    }
  }

  /** Splitting a separator-free prefix followed by the separator. */
  lemma {:induction false} SplitAfterPrefix(a: string, sep: char, t: string)
    requires sep !in a
    ensures Split(a + [sep] + t, sep) == [a] + Split(t, sep)
  {
    if a == [] {
      assert a + [sep] + t == [sep] + t;
      assert ([sep] + t)[1..] == t;
    } else {
      assert (a + [sep] + t)[1..] == a[1..] + [sep] + t;
      SplitAfterPrefix(a[1..], sep, t);
      assert [a[0]] + a[1..] == a;
    }
  }

  lemma {:induction false} SplitWithoutSeparator(s: string, sep: char)
    requires sep !in s
    ensures Split(s, sep) == [s]
  {
    if s != [] {
      SplitWithoutSeparator(s[1..], sep);
      assert [s[0]] + s[1..] == s;
    }
  }

  /** `(a + sep + b).split(sep)` is `[a, b]` when neither part holds the separator. */
  lemma SplitTwoParts(a: string, sep: char, b: string)
    requires sep !in a && sep !in b
    ensures Split(a + [sep] + b, sep) == [a, b]
  {
    SplitAfterPrefix(a, sep, b);
    SplitWithoutSeparator(b, sep);
  }
}
