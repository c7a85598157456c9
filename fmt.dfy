/** `fmt.Sprintf` called with a format and no further arguments, as node.go's
    `String` calls it. The directive scanner follows Go's `doPrintf`: flags,
    an optional `[n]` argument index, a width, an optional precision, another
    optional index, then the verb. With no arguments every verb but `%` lacks
    its operand, and every `[n]` index is out of range. */
module Fmt {
  import Strings

  const NoVerb := "%!(NOVERB)"
  const BadWidth := "%!(BADWIDTH)"
  const BadPrec := "%!(BADPREC)"

  /** The bound of Go's `tooLarge`: a number already above it gives up. */
  const MaxNum := 1000000

  predicate IsDigit(c: char) {
    '0' <= c <= '9'
  }

  /** Index just past the flags (`#0+- `) that start a directive. */
  function SkipFlags(s: string, i: nat): (j: nat)
    requires i <= |s|
    ensures i <= j <= |s|
    ensures j < |s| ==> s[j] !in "#0+- "
    ensures forall k | i <= k < j :: s[k] in "#0+- "
    decreases |s| - i
  {
    if i < |s| && s[i] in "#0+- " then SkipFlags(s, i + 1) else i
  }

  /** What `parsenum` gives: the number, whether there was one, and where it stopped. */
  datatype Num = Num(value: nat, present: bool, next: nat)

  /** The end of the run of digits that starts at `i`, bounded by `end`. */
  function DigitRun(s: string, i: nat, end: nat): (j: nat)
    requires i <= end <= |s|
    ensures i <= j <= end
    ensures j < end ==> !IsDigit(s[j])
    ensures forall k | i <= k < j :: IsDigit(s[k])
    decreases end - i
  {
    if i < end && IsDigit(s[i]) then DigitRun(s, i + 1, end) else i
  }

  /** The text between two indexes of a run of digits is all digits. */
  lemma DigitsBetween(s: string, a: nat, b: nat)
    requires a <= b <= |s| && forall k | a <= k < b :: IsDigit(s[k])
    ensures Strings.AllDigits(s[a..b])
  {
    assert forall x | 0 <= x < b - a :: s[a..b][x] == s[a + x];
  }

  /** The decimal value of the digits from `a` up to `b`, as `strconv` reads them. */
  ghost function ValueBetween(s: string, a: nat, b: nat): nat
    requires a <= b <= |s| && forall k | a <= k < b :: IsDigit(s[k])
  {
    DigitsBetween(s, a, b);
    Strings.DigitsValue(s[a..b])
  }

  /** Reading the digits from `start` up to `j`, some prefix of them is already
      above `MaxNum` while another digit follows: `parsenum` gives up. */
  ghost predicate GivesUp(s: string, start: nat, j: nat)
    requires start <= j <= |s| && forall k | start <= k < j :: IsDigit(s[k])
  {
    exists k | start < k < j :: ValueBetween(s, start, k) > MaxNum
  }

  /** `parsenum(s, start, end)` from index `i` on, with `num` read so far. A
      further digit after a number above `MaxNum` abandons the directive text:
      the scan jumps to `end`. */
  function ParseDigits(s: string, i: nat, end: nat, num: nat, present: bool): (r: Num)
    requires i <= end <= |s|
    ensures i <= r.next <= end
    ensures r.next < end ==> !IsDigit(s[r.next])
    ensures r.present ==> present || i < r.next
    ensures i < end && IsDigit(s[i]) && num > MaxNum ==> r == Num(0, false, end)
    ensures r.next < end ==> forall k | i <= k < r.next :: IsDigit(s[k])
    decreases end - i
  {
    if i < end && IsDigit(s[i]) then
      if num > MaxNum then Num(0, false, end)
      else ParseDigits(s, i + 1, end, num * 10 + (s[i] as int - '0' as int), true)
    else Num(num, present, i)
  }

  /** `parsenum`: the decimal value of the run of digits at `start`, present when
      the run is not empty, and the index just past it; or, once a prefix of the
      run is above `MaxNum` with a digit still to come, nothing, and the end. */
  function ParseNum(s: string, start: nat, end: nat): (r: Num)
    requires start <= end <= |s|
    ensures start <= r.next <= end
    ensures r.present ==> start < r.next
  {
    ParseDigits(s, start, end, 0, false)
  }

  /** `parsenum` reads the decimal value of the run of digits at `start`, present
      when the run is not empty, and stops just past it; but once a prefix of the
      run is above `MaxNum` with a digit still to come, it reads nothing and jumps
      to the end. */
  lemma ParseNumValue(s: string, start: nat, end: nat)
    requires start <= end <= |s|
    ensures var j := DigitRun(s, start, end);
      ParseNum(s, start, end)
      == if GivesUp(s, start, j) then Num(0, false, end)
         else Num(ValueBetween(s, start, j), start < j, j)
  {
    assert s[start..start] == [];
    ParseDigitsValue(s, start, start, end);
  }

  /** From any point of the run, with the value of the digits read so far and no
      give-up yet, `ParseDigits` ends as `ParseNum` states. */
  lemma {:induction false} ParseDigitsValue(s: string, start: nat, i: nat, end: nat)
    requires start <= end <= |s|
    requires start <= i <= DigitRun(s, start, end)
    requires forall k | start < k < i :: ValueBetween(s, start, k) <= MaxNum
    ensures var j := DigitRun(s, start, end);
      ParseDigits(s, i, end, ValueBetween(s, start, i), start < i)
      == if GivesUp(s, start, j) then Num(0, false, end)
         else Num(ValueBetween(s, start, j), start < j, j)
    decreases end - i
  {
    var j := DigitRun(s, start, end);
    var num := ValueBetween(s, start, i);
    if i == j {
      assert !GivesUp(s, start, j);
    } else {
      assert s[start..j][i - start] == s[i];
      if num > MaxNum {
        assert start < i;
        assert GivesUp(s, start, j);
      } else {
        DigitsBetween(s, start, i + 1);
        assert s[start..i + 1][..i - start] == s[start..i];
        assert ValueBetween(s, start, i + 1) == num * 10 + (s[i] as int - '0' as int);
        ParseDigitsValue(s, start, i + 1, end);
      }
    }
  }

  /** Index of the first `]` at or after `j`, or `|f|` when there is none. */
  function CloseBracket(f: string, j: nat): (k: nat)
    requires j <= |f|
    ensures j <= k <= |f|
    ensures k < |f| ==> f[k] == ']'
    ensures forall m | j <= m < k :: f[m] != ']'
    decreases |f| - j
  {
    if j == |f| || f[j] == ']' then j else CloseBracket(f, j + 1)
  }

  /** What `argNumber` gives: where the scan goes on, whether a well-formed
      `[n]` was read (`afterIndex`), and whether a `[` was there at all, which
      with no arguments always marks the directive as a bad index. */
  datatype Index = Index(next: nat, ok: bool, bracket: bool)

  /** `argNumber` with `parseArgNumber`, at index `i`. */
  function ArgNumber(s: string, i: nat): (r: Index)
    requires i <= |s|
    ensures i <= r.next <= |s|
    ensures r.bracket <==> i < |s| && s[i] == '['
    ensures r.bracket ==> i < r.next
    ensures !r.bracket ==> r.next == i && !r.ok
  {
    if i == |s| || s[i] != '[' then Index(i, false, false)
    else if |s| - i < 3 then Index(i + 1, false, true)
    else
      var k := CloseBracket(s, i + 1);
      if k == |s| then Index(i + 1, false, true)
      else
        var n := ParseNum(s, i + 1, k);
        Index(k + 1, n.present && n.next == k, true)
  }

  /** The scan of one directive: position, complaints written so far, whether
      the argument index is still good, and whether an index was just read. */
  datatype Scan = Scan(i: nat, out: string, good: bool, afterIndex: bool)

  /** The flags, then an index; the index is good unless a `[` follows the flags. */
  function Start(s: string, i: nat): (c: Scan)
    requires i <= |s|
    ensures i <= c.i <= |s| && c.out == []
    ensures var f := SkipFlags(s, i);
      && c.i == ArgNumber(s, f).next
      && (c.good <==> !(f < |s| && s[f] == '['))
      && c.afterIndex == ArgNumber(s, f).ok
  {
    var a := ArgNumber(s, SkipFlags(s, i));
    Scan(a.next, "", !a.bracket, a.ok)
  }

  /** A `*` width has no argument to take: `%!(BADWIDTH)`. A numeric width
      straight after an index spoils the index. */
  function Width(s: string, c: Scan): (d: Scan)
    requires c.i <= |s|
    ensures c.i <= d.i <= |s|
    ensures d.good ==> c.good
    ensures c.i < |s| && s[c.i] == '*' ==>
      d.out == c.out + BadWidth && d.i == c.i + 1 && d.good == c.good && !d.afterIndex
    ensures !(c.i < |s| && s[c.i] == '*') ==>
      d.out == c.out && d.i == ParseNum(s, c.i, |s|).next && d.afterIndex == c.afterIndex
    ensures !(c.i < |s| && s[c.i] == '*') && c.afterIndex && ParseNum(s, c.i, |s|).present ==> !d.good
  {
    if c.i < |s| && s[c.i] == '*' then Scan(c.i + 1, c.out + BadWidth, c.good, false)
    else
      var w := ParseNum(s, c.i, |s|);
      Scan(w.next, c.out, c.good && !(c.afterIndex && w.present), c.afterIndex)
  }

  /** A precision is read only when a `.` is followed by at least one more
      character; a `*` precision has no argument: `%!(BADPREC)`. */
  function Precision(s: string, c: Scan): (d: Scan)
    requires c.i <= |s|
    ensures c.i <= d.i <= |s|
    ensures d.good ==> c.good
    ensures !(c.i + 1 < |s| && s[c.i] == '.') ==> d == c
  {
    if c.i + 1 < |s| && s[c.i] == '.' then
      var a := ArgNumber(s, c.i + 1);
      var good := c.good && !c.afterIndex && !a.bracket;
      if a.next < |s| && s[a.next] == '*' then Scan(a.next + 1, c.out + BadPrec, good, false)
      else Scan(ParseNum(s, a.next, |s|).next, c.out, good, a.ok)
    else c
  }

  /** An index just before the verb, unless one was just read. */
  function VerbIndex(s: string, c: Scan): (d: Scan)
    requires c.i <= |s|
    ensures c.i <= d.i <= |s|
    ensures d.good ==> c.good
    ensures c.afterIndex ==> d == c
  {
    if c.afterIndex then c
    else
      var a := ArgNumber(s, c.i);
      Scan(a.next, c.out, c.good && !a.bracket, a.ok)
  }

  /** What one directive prints, where the format goes on, and whether the
      format ended before a verb (which ends the whole output). */
  datatype Piece = Piece(out: string, next: nat, stop: bool)

  /** The directive whose text starts at `i`, just after its `%`. */
  function Directive(s: string, i: nat): (p: Piece)
    requires i <= |s|
    ensures i <= p.next <= |s|
    ensures p.stop ==> p.next == |s| && |p.out| >= |NoVerb| && p.out[|p.out| - |NoVerb|..] == NoVerb
    ensures !p.stop ==> i < p.next && |p.out| >= 1
  {
    var c := VerbIndex(s, Precision(s, Width(s, Start(s, i))));
    if c.i >= |s| then
      assert (c.out + NoVerb)[|c.out + NoVerb| - |NoVerb|..] == NoVerb;
      Piece(c.out + NoVerb, |s|, true)
    else
      var v := s[c.i];
      var text := if v == '%' then "%"
                  else if !c.good then "%!" + [v] + "(BADINDEX)"
                  else "%!" + [v] + "(MISSING)";
      Piece(c.out + text, c.i + 1, false)
  }

  /** The output of `fmt.Sprintf(s)` from index `i` on. */
  function Format(s: string, i: nat): string
    requires i <= |s|
    decreases |s| - i
  {
    if i == |s| then ""
    else if s[i] != '%' then [s[i]] + Format(s, i + 1)
    else
      var p := Directive(s, i + 1);
      if p.stop then p.out else p.out + Format(s, p.next)
  }

  /** Plain text is copied; `%%` gives `%`; any other verb finds no argument and
      prints `%!<verb>(MISSING)`, or `%!<verb>(BADINDEX)` after an `[n]`; a
      directive cut off by the end prints `%!(NOVERB)` and ends the output. */
  function Sprintf(format: string): string {
    Format(format, 0)
  }

  /** Text without `%` is copied as it is. */
  lemma {:induction false} FormatPlain(s: string, i: nat)
    requires i <= |s|
    requires '%' !in s[i..]
    ensures Format(s, i) == s[i..]
    decreases |s| - i
  {
    if i < |s| {
      assert s[i] in s[i..];
      assert s[i + 1..] == s[i..][1..];
      FormatPlain(s, i + 1);
      assert [s[i]] + s[i + 1..] == s[i..];
    }
  }

  /** A format without `%` is printed as it is. */
  lemma SprintfPlain(format: string)
    requires '%' !in format
    ensures Sprintf(format) == format
  {
    assert format[0..] == format;
    FormatPlain(format, 0);
  }

  /** A directive cut off by the end of the format prints `%!(NOVERB)` and stops. */
  lemma DirectiveAtEnd(s: string)
    ensures Directive(s, |s|) == Piece(NoVerb, |s|, true)
  {
    assert Start(s, |s|) == Scan(|s|, "", true, false);
  }

  /** A `%` as the last character prints only `%!(NOVERB)`. */
  lemma FormatFinalPercent(s: string)
    requires |s| > 0 && s[|s| - 1] == '%'
    ensures Format(s, |s| - 1) == NoVerb
  {
    DirectiveAtEnd(s);
  }

  /** A character other than `%` is copied, and the scan goes on after it. */
  lemma FormatCopies(s: string, i: nat)
    requires i < |s| && s[i] != '%'
    ensures Format(s, i) == [s[i]] + Format(s, i + 1)
  {
  }

  lemma {:induction false} FormatTrailingPercent(s: string, i: nat)
    requires 0 < |s| && s[|s| - 1] == '%'
    requires i < |s| && forall k | i <= k < |s| - 1 :: s[k] != '%'
    ensures Format(s, i) == s[i..|s| - 1] + NoVerb
    decreases |s| - i
  {
    var last := |s| - 1;
    if i == last {
      assert s[i..last] == [];
      FormatFinalPercent(s);
    } else {
      var rest := s[i + 1..last];
      assert [s[i]] + rest == s[i..last];
      FormatTrailingPercent(s, i + 1);
      assert Format(s, i + 1) == rest + NoVerb;
      FormatCopies(s, i);
    }
  }

  /** A trailing `%` is not printed as itself. */
  lemma SprintfTrailingPercent(text: string)
    requires '%' !in text
    ensures Sprintf(text + "%") == text + NoVerb
  {
    var s := text + "%";
    forall k | 0 <= k < |s| - 1
      ensures s[k] != '%'
    {
      assert s[k] == text[k] && text[k] in text;
    }
    FormatTrailingPercent(s, 0);
    assert s[0..|s| - 1] == text;
  }

  /** A `.` at the very end is not a precision: it is taken as the verb. */
  lemma SprintfTrailingDot()
    ensures Sprintf("%.") == "%!.(MISSING)"
  {
    var s := "%.";
    var c := Scan(1, "", true, false);
    assert SkipFlags(s, 1) == 1 && ArgNumber(s, 1) == Index(1, false, false);
    assert Start(s, 1) == c;
    assert ParseNum(s, 1, 2) == Num(0, false, 1);
    assert Width(s, c) == c;
    assert Precision(s, c) == c && VerbIndex(s, c) == c;
    assert Directive(s, 1) == Piece("%!.(MISSING)", 2, false);
  }

  /** The same after a width: `x%5.` prints `x%!.(MISSING)`. */
  lemma SprintfWidthTrailingDot()
    ensures Sprintf("x%5.") == "x%!.(MISSING)"
  {
    var t := "x%5.";
    var c := Scan(2, "", true, false);
    assert SkipFlags(t, 2) == 2 && ArgNumber(t, 2) == Index(2, false, false);
    assert Start(t, 2) == c;
    assert ParseDigits(t, 3, 4, 5, true) == Num(5, true, 3);
    assert ParseNum(t, 2, 4) == Num(5, true, 3);
    var d := Scan(3, "", true, false);
    assert Width(t, c) == d;
    assert Precision(t, d) == d && VerbIndex(t, d) == d;
    assert Directive(t, 2) == Piece("%!.(MISSING)", 4, false);
    FormatCopies(t, 0);
  }

  /** `parsenum` on `12345678`: the eighth digit finds 1234567 read, above the bound. */
  lemma HugeWidthParse(s: string)
    requires |s| >= 9 && s[1..9] == "12345678"
    ensures ParseNum(s, 1, |s|) == Num(0, false, |s|)
  {
    var e := |s|;
    assert s[1] == '1' && s[2] == '2' && s[3] == '3' && s[4] == '4';
    assert s[5] == '5' && s[6] == '6' && s[7] == '7' && s[8] == '8';
    calc {
      ParseNum(s, 1, e);
      ParseDigits(s, 2, e, 1, true);
      ParseDigits(s, 3, e, 12, true);
      ParseDigits(s, 4, e, 123, true);
      ParseDigits(s, 5, e, 1234, true);
      ParseDigits(s, 6, e, 12345, true);
      ParseDigits(s, 7, e, 123456, true);
      ParseDigits(s, 8, e, 1234567, true);
      Num(0, false, e);
    }
  }

  /** A width that grows past the bound abandons the rest of the format. */
  lemma SprintfHugeWidth()
    ensures Sprintf("%12345678d tail") == NoVerb
  {
    var s := "%12345678d tail";
    var c := Scan(1, "", true, false);
    assert s[1..9] == "12345678";
    HugeWidthParse(s);
    assert Start(s, 1) == c;
    var d := Scan(|s|, "", true, false);
    assert Width(s, c) == d;
    assert VerbIndex(s, Precision(s, d)) == d;
    assert Directive(s, 1) == Piece(NoVerb, |s|, true);
  }

  lemma SprintfMissing()
    ensures Sprintf("%d") == "%!d(MISSING)"
  {
    assert Start("%d", 1) == Scan(1, "", true, false);
  }

  lemma SprintfPercent()
    ensures Sprintf("%%") == "%"
  {
    assert Start("%%", 1) == Scan(1, "", true, false);
  }

  lemma SprintfBadIndex()
    ensures Sprintf("%[1]d") == "%!d(BADINDEX)"
  {
    var b := "%[1]d";
    assert CloseBracket(b, 2) == 3 && CloseBracket(b, 3) == 3;
    assert ParseDigits(b, 3, 3, 1, true) == Num(1, true, 3);
    assert ParseNum(b, 2, 3) == Num(1, true, 3);
    assert ArgNumber(b, 1) == Index(4, true, true);
    assert Start(b, 1) == Scan(4, "", false, true);
    assert ParseNum(b, 4, 5) == Num(0, false, 4);
  }

  lemma SprintfBadWidth()
    ensures Sprintf("%*d") == BadWidth + "%!d(MISSING)"
  {
    assert Start("%*d", 1) == Scan(1, "", true, false);
  }
}
