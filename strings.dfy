/** The two pieces of Go's standard library the graph's `String` methods use:
    `strings.Join` and `strconv.Itoa`, each with its inverse to pin down its meaning. */
module Strings {

  /** `strings.Join(xs, sep)`: the elements with `sep` between neighbours. */
  function Join(xs: seq<string>, sep: string): string {
    if |xs| == 0 then ""
    else if |xs| == 1 then xs[0]
    else xs[0] + sep + Join(xs[1..], sep)
  }

  /** `strings.Split(s, [c])`: the pieces between occurrences of `c`; never empty. */
  function Split(s: string, c: char): (r: seq<string>)
    ensures |r| >= 1
  {
    if s == [] then [""]
    else
      var rest := Split(s[1..], c);
      if s[0] == c then [""] + rest else [[s[0]] + rest[0]] + rest[1..]
  }

  ghost predicate Free(xs: seq<string>, c: char) {
    forall i :: 0 <= i < |xs| ==> c !in xs[i]
  }

  lemma {:induction false} SplitFree(s: string, c: char)
    requires c !in s
    ensures Split(s, c) == [s]
  {
    if s != [] {
      SplitFree(s[1..], c);
      assert [s[0]] + s[1..] == s;
    }
  }

  lemma {:induction false} SplitAfter(a: string, c: char, b: string)
    requires c !in a
    ensures Split(a + [c] + b, c) == [a] + Split(b, c)
  {
    if a == [] {
      assert a + [c] + b == [c] + b;
      assert ([c] + b)[1..] == b;
    } else {
      SplitAfter(a[1..], c, b);
      assert (a + [c] + b)[1..] == a[1..] + [c] + b;
      assert [a[0]] + a[1..] == a;
    }
  }

  /** Joining with a single character and splitting on it again gives back the
      pieces, provided there is at least one and none contains the separator. */
  lemma {:induction false} SplitJoin(xs: seq<string>, c: char)
    requires |xs| >= 1 && Free(xs, c)
    ensures Split(Join(xs, [c]), c) == xs
  {
    if |xs| == 1 {
      SplitFree(xs[0], c);
    } else {
      SplitJoin(xs[1..], c);
      SplitAfter(xs[0], c, Join(xs[1..], [c]));
      assert [xs[0]] + xs[1..] == xs;
    }
  }

  /** A character that is in neither the pieces nor the separator is not in the joined text. */
  lemma {:induction false} JoinFree(xs: seq<string>, sep: string, c: char)
    requires Free(xs, c) && c !in sep
    ensures c !in Join(xs, sep)
  {
    if |xs| > 1 {
      JoinFree(xs[1..], sep, c);
    }
  }

  /** No elements give the empty text, as does the one empty element. */
  lemma JoinEmpty(sep: string)
    ensures Join([], sep) == "" && Join([""], sep) == ""
  {
  }

  // ---- decimal text of integers (`strconv.Itoa`) ----

  ghost predicate IsDigit(ch: char) {
    '0' <= ch <= '9'
  }

  ghost predicate AllDigits(s: string) {
    forall i :: 0 <= i < |s| ==> IsDigit(s[i])
  }

  function Digit(d: nat): char
    requires d < 10
  {
    "0123456789"[d]
  }

  /** The shortest decimal text of `n`. */
  function NatDecimal(n: nat): (s: string)
    ensures |s| >= 1 && AllDigits(s)
  {
    if n < 10 then [Digit(n)] else NatDecimal(n / 10) + [Digit(n % 10)]
  }

  /** `strconv.Itoa`: a minus sign before negative numbers. */
  function Decimal(x: int): string {
    if x < 0 then "-" + NatDecimal(-x) else NatDecimal(x)
  }

  function DigitsValue(s: string): nat
    requires AllDigits(s)
  {
    if s == [] then 0
    else DigitsValue(s[..|s| - 1]) * 10 + (s[|s| - 1] as int - '0' as int)
  }

  ghost predicate IsIntText(s: string) {
    (|s| >= 1 && AllDigits(s)) || (|s| >= 2 && s[0] == '-' && AllDigits(s[1..]))
  }

  /** `strconv.Atoi` on well-formed text. */
  function ParseInt(s: string): int
    requires IsIntText(s)
  {
    if |s| >= 1 && s[0] == '-' then 0 - DigitsValue(s[1..]) as int else DigitsValue(s)
  }

  lemma {:induction false} NatDecimalValue(n: nat)
    ensures DigitsValue(NatDecimal(n)) == n
  {
    if n >= 10 {
      NatDecimalValue(n / 10);
      var s := NatDecimal(n);
      assert s[..|s| - 1] == NatDecimal(n / 10);
    }
  }

  /** Reading back the decimal text gives the number. */
  lemma {:induction false} DecimalRoundTrip(x: int)
    ensures IsIntText(Decimal(x)) && ParseInt(Decimal(x)) == x
  {
    var n: nat := if x < 0 then -x else x;
    var d := NatDecimal(n);
    NatDecimalValue(n);
    assert d[0] != '-' by { assert IsDigit(d[0]); }
    if x < 0 {
      var t := "-" + d;
      assert Decimal(x) == t;
      assert t[1..] == d;
      assert IsIntText(t);
    } else {
      assert Decimal(x) == d;
    }
  }
}
