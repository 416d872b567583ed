/**
 * Decimal text and the conversion the extractors apply to a numeric span:
 * strncpy into a zero-filled 8-byte scratch array, then atol/atoi. Like the
 * C library functions, Atol skips leading white space, takes an optional
 * sign, and reads the run of decimal digits that follows, stopping at the
 * first other character.
 */
module Decimal {
  import opened Wrappers

  /** Size of the zero-filled scratch array `char tmp[8]`. */
  const ScratchSize: nat := 8
  /** Longest span that still leaves the scratch array NUL-terminated. */
  const MaxDigits: nat := ScratchSize - 1

  predicate IsDigit(c: char) { '0' <= c <= '9' }

  predicate AllDigits(s: string) { forall i :: 0 <= i < |s| ==> IsDigit(s[i]) }

  function DigitValue(c: char): (d: nat)
    requires IsDigit(c)
    ensures d < 10
  {
    c as int - '0' as int
  }

  function DigitChar(d: nat): (c: char)
    requires d < 10
    ensures IsDigit(c) && DigitValue(c) == d
  {
    ('0' as int + d) as char
  }

  function Pow10(k: nat): (r: nat)
    ensures r >= 1
  {
    if k == 0 then 1 else 10 * Pow10(k - 1)
  }

  /** The bound on values that survive the scratch array. */
  lemma Pow10Seven()
    ensures Pow10(MaxDigits) == 10_000_000
  {
    assert Pow10(1) == 10;
    assert Pow10(3) == 1000;
    assert Pow10(5) == 100_000;
  }

  lemma {:induction false} Pow10Monotone(j: nat, k: nat)
    requires j <= k
    ensures Pow10(j) <= Pow10(k)
  {
    if j < k { Pow10Monotone(j, k - 1); }
  }

  /** Length of the leading run of decimal digits of `s`. */
  function DigitRun(s: string): (n: nat)
    ensures n <= |s|
    ensures AllDigits(s[..n])
    ensures n < |s| ==> !IsDigit(s[n])
  {
    if s == [] || !IsDigit(s[0]) then 0
    else
      var n := 1 + DigitRun(s[1..]);
      assert s[..n] == [s[0]] + s[1..][..n - 1];
      n
  }

  /** Value of a string of decimal digits, most significant digit first. */
  function DigitsValue(d: string): (v: nat)
    requires AllDigits(d)
    ensures v < Pow10(|d|)
  {
    if d == [] then 0
    else 10 * DigitsValue(d[..|d| - 1]) + DigitValue(d[|d| - 1])
  }

  /** The white-space characters of isspace in the "C" locale. */
  predicate IsSpace(c: char)
  {
    c == ' ' || c == '\t' || c == '\n' || c == '\U{000B}' || c == '\U{000C}' || c == '\r'
  }

  /** Length of the leading run of white space of `s`. */
  function BlankRun(s: string): (n: nat)
    ensures n <= |s|
    ensures forall k :: 0 <= k < n ==> IsSpace(s[k])
    ensures n < |s| ==> !IsSpace(s[n])
  {
    if s == [] || !IsSpace(s[0]) then 0 else 1 + BlankRun(s[1..])
  }

  /** Value of the leading run of decimal digits of `s` (0 when there is none). */
  function Magnitude(s: string): (v: nat)
    ensures v < Pow10(DigitRun(s))
  {
    DigitsValue(s[..DigitRun(s)])
  }

  /** atol / atoi: white space, an optional sign, then digits. */
  function Atol(s: string): (v: int)
    ensures -(Pow10(|s|) as int) < v < Pow10(|s|)
  {
    var t := s[BlankRun(s)..];
    if |t| > 0 && t[0] == '-' then
      Pow10Monotone(DigitRun(t[1..]), |s|);
      -(Magnitude(t[1..]) as int)
    else if |t| > 0 && t[0] == '+' then
      Pow10Monotone(DigitRun(t[1..]), |s|);
      Magnitude(t[1..])
    else
      Pow10Monotone(DigitRun(t), |s|);
      Magnitude(t)
  }

  /** Canonical decimal text of `n`: no leading zeros, "0" for zero. */
  function DecimalText(n: nat): (d: string)
    ensures |d| > 0 && AllDigits(d)
  {
    if n < 10 then [DigitChar(n)] else DecimalText(n / 10) + [DigitChar(n % 10)]
  }

  /** Decimal text holds no character other than digits. */
  lemma NotInDigits(d: string, c: char)
    requires AllDigits(d) && !IsDigit(c)
    ensures c !in d
  {
  }

  /** Reading back the text of `n` gives `n`. */
  lemma {:induction false} DecimalRoundTrip(n: nat)
    ensures DigitsValue(DecimalText(n)) == n
  {
    if n >= 10 {
      var d := DecimalText(n);
      assert d[..|d| - 1] == DecimalText(n / 10);
      DecimalRoundTrip(n / 10);
    }
  }

  /** The digit run of a digit string followed by a non-digit is that digit string. */
  lemma {:induction false} DigitRunOfPrefix(d: string, rest: string)
    requires AllDigits(d)
    requires rest == [] || !IsDigit(rest[0])
    ensures DigitRun(d + rest) == |d|
  {
    if d != [] {
      assert (d + rest)[1..] == d[1..] + rest;
      DigitRunOfPrefix(d[1..], rest);
    }
  }

  /** atol reads a number back from its text when no further digit follows it. */
  lemma AtolOfDecimal(n: nat, rest: string)
    requires rest == [] || !IsDigit(rest[0])
    ensures Atol(DecimalText(n) + rest) == n
  {
    var d := DecimalText(n);
    assert (d + rest)[0] == d[0];
    assert BlankRun(d + rest) == 0;
    assert (d + rest)[0..] == d + rest;
    DigitRunOfPrefix(d, rest);
    assert (d + rest)[..|d|] == d;
    DecimalRoundTrip(n);
  }

  /** atol skips the white space in front of a number. */
  lemma AtolSkipsBlanks(blanks: string, s: string)
    requires forall k :: 0 <= k < |blanks| ==> IsSpace(blanks[k])
    requires s == [] || !IsSpace(s[0])
    ensures Atol(blanks + s) == Atol(s)
  {
    BlankRunOfPrefix(blanks, s);
    assert (blanks + s)[|blanks|..] == s;
    assert s[0..] == s;
  }

  /** The leading white space of `blanks + s` is `blanks` when `s` does not start with white space. */
  lemma {:induction false} BlankRunOfPrefix(blanks: string, s: string)
    requires forall k :: 0 <= k < |blanks| ==> IsSpace(blanks[k])
    requires s == [] || !IsSpace(s[0])
    ensures BlankRun(blanks + s) == |blanks|
  {
    if blanks != [] {
      assert (blanks + s)[0] == blanks[0];
      assert (blanks + s)[1..] == blanks[1..] + s;
      BlankRunOfPrefix(blanks[1..], s);
    } else {
      assert blanks + s == s;
    }
  }

  /** A '-' in front of a number's text negates it. */
  lemma AtolOfNegative(n: nat, rest: string)
    requires rest == [] || !IsDigit(rest[0])
    ensures Atol("-" + DecimalText(n) + rest) == -(n as int)
  {
    var d := DecimalText(n);
    var s := "-" + d + rest;
    assert BlankRun(s) == 0;
    assert s[0..] == s;
    assert s[1..] == d + rest;
    DigitRunOfPrefix(d, rest);
    assert (d + rest)[..|d|] == d;
    DecimalRoundTrip(n);
  }

  /**
   * Result of copying a span into the scratch array and converting it: a span
   * of more than MaxDigits characters would overflow the array (or leave it
   * unterminated), so it is rejected.
   */
  function ScratchValue(span: string): (r: Option<int>)
    ensures r.Some? <==> |span| <= MaxDigits
    ensures r.Some? ==> -(Pow10(MaxDigits) as int) < r.value < Pow10(MaxDigits)
  {
    if |span| <= MaxDigits then
      Pow10Monotone(|span|, MaxDigits);
      Some(Atol(span))
    else None
  }

  /** Every value that survives the scratch array fits in a 32-bit signed integer. */
  lemma ScratchValueFits(span: string)
    requires ScratchValue(span).Some?
    ensures -0x8000_0000 <= ScratchValue(span).value < 0x8000_0000
  {
    Pow10Seven();
  }

  /** The text of a number of at most MaxDigits digits, followed by a non-digit, converts back to it. */
  lemma ScratchValueOfDecimal(n: nat, rest: string)
    requires rest == [] || !IsDigit(rest[0])
    requires |DecimalText(n) + rest| <= MaxDigits
    ensures ScratchValue(DecimalText(n) + rest) == Some(n)
  {
    AtolOfDecimal(n, rest);
  }

  /** A '-' and the text of a number of fewer than MaxDigits digits convert to its negation. */
  lemma ScratchValueOfNegative(n: nat)
    requires |DecimalText(n)| < MaxDigits
    ensures ScratchValue("-" + DecimalText(n)) == Some(-(n as int))
  {
    AtolOfNegative(n, []);
    assert "-" + DecimalText(n) + [] == "-" + DecimalText(n);
  }

  /**
   * Converts numeric spans in the order the C code converts them, stopping at
   * the first span that does not fit the scratch array.
   */
  function ScratchValues(spans: seq<string>): (vs: seq<int>)
    ensures |vs| <= |spans|
    ensures forall i :: 0 <= i < |vs| ==> ScratchValue(spans[i]) == Some(vs[i])
    ensures |vs| < |spans| ==> ScratchValue(spans[|vs|]).None?
  {
    if spans == [] then []
    else match ScratchValue(spans[0])
      case None => []
      case Some(v) => [v] + ScratchValues(spans[1..])
  }

  /** Spans that each fit the scratch array convert to their values, all of them. */
  lemma {:induction false} ScratchValuesOfFitting(spans: seq<string>, vs: seq<int>)
    requires |spans| == |vs|
    requires forall i :: 0 <= i < |spans| ==> ScratchValue(spans[i]) == Some(vs[i])
    ensures ScratchValues(spans) == vs
  {
    if spans != [] {
      ScratchValuesOfFitting(spans[1..], vs[1..]);
    }
  }

  /**
   * Converting a pair of spans and then more goes on into the rest only when
   * both spans of the pair convert.
   */
  lemma ScratchValuesAfterPair(x: string, y: string, rest: seq<string>)
    ensures ScratchValues([x, y] + rest) ==
              if |ScratchValues([x, y])| == 2 then ScratchValues([x, y]) + ScratchValues(rest)
              else ScratchValues([x, y])
  {
    assert ([x, y] + rest)[1..] == [y] + rest;
    assert ([y] + rest)[1..] == rest;
    ScratchValuesOfPair(x, y);
  }

  /** Converting two spans gives the first value, then the second when it too fits. */
  lemma ScratchValuesOfPair(x: string, y: string)
    ensures ScratchValue(x).None? ==> ScratchValues([x]) == [] && ScratchValues([x, y]) == []
    ensures ScratchValue(x).Some? ==> ScratchValues([x]) == [ScratchValue(x).value]
    ensures ScratchValue(x).Some? && ScratchValue(y).None? ==> ScratchValues([x, y]) == [ScratchValue(x).value]
    ensures ScratchValue(x).Some? && ScratchValue(y).Some? ==>
              ScratchValues([x, y]) == [ScratchValue(x).value, ScratchValue(y).value]
  {
    assert [x, y][1..] == [y];
    assert [x][1..] == [];
    assert [y][1..] == [];
  }
}
