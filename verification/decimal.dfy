/**
  Decimal rendering of integers, as Python's `str`/`format` produces it for an
  `int` within the interpreter's digit limit: the shortest digit string, with
  a leading '-' for negative values.
  The parser is the rendering's partner; the lemmas show that the two are
  inverse to each other on canonical digit strings.
 */
module Decimal {
  import opened Results

  predicate IsDigit(c: char) {
    '0' <= c <= '9'
  }

  predicate AllDigits(s: string) {
    forall i :: 0 <= i < |s| ==> IsDigit(s[i])
  }

  /** A non-empty digit string without a superfluous leading zero. */
  predicate IsCanonical(s: string) {
    |s| >= 1 && AllDigits(s) && (s[0] == '0' ==> |s| == 1)
  }

  function DigitChar(d: nat): (c: char)
    requires d < 10
    ensures IsDigit(c)
  {
    ('0' as int + d) as char
  }

  function DigitValue(c: char): (d: nat)
    requires IsDigit(c)
    ensures d < 10
  {
    c as int - '0' as int
  }

  /** The decimal digits of `n`, most significant first. */
  function NatToString(n: nat): (s: string)
    ensures IsCanonical(s)
    ensures n == 0 <==> s == "0"
  {
    if n < 10 then [DigitChar(n)]
    else NatToString(n / 10) + [DigitChar(n % 10)]
  }

  /** Python's `str(i)` for an integer `i`; the interpreter's digit limit is not modelled. */
  function IntToString(i: int): (s: string)
    ensures |s| >= 1
    ensures i < 0 <==> s[0] == '-'
    ensures i >= 0 ==> IsCanonical(s)
    ensures i < 0 ==> IsCanonical(s[1..]) && s[1..] != "0"
  {
    if i < 0 then "-" + NatToString(-i) else NatToString(i)
  }

  /** The value of a digit string read in base ten. */
  function DigitsValue(s: string): nat
    requires AllDigits(s)
  {
    if |s| == 0 then 0
    else DigitsValue(s[..|s| - 1]) * 10 + DigitValue(s[|s| - 1])
  }

  /** The length of the longest run of digits at the start of `s`. */
  function DigitRun(s: string): (k: nat)
    ensures k <= |s|
    ensures AllDigits(s[..k])
    ensures k < |s| ==> !IsDigit(s[k])
  {
    if |s| == 0 || !IsDigit(s[0]) then 0 else 1 + DigitRun(s[1..])
  }

  /**
    Reads a canonical natural number from the front of `s` and returns it
    with the remaining text; the digit run is taken greedily.
   */
  function ParseNatPrefix(s: string): Option<(nat, string)> {
    var k := DigitRun(s);
    if k == 0 || (k > 1 && s[0] == '0') then None
    else Some((DigitsValue(s[..k]), s[k..]))
  }

  /** Reads an integer written as `IntToString` writes it from the front of `s`. */
  function ParseIntPrefix(s: string): Option<(int, string)> {
    if |s| > 0 && s[0] == '-' then
      match ParseNatPrefix(s[1..])
      case None => None
      case Some((n, rest)) => if n == 0 then None else Some((-(n as int), rest))
    else
      match ParseNatPrefix(s)
      case None => None
      case Some((n, rest)) => Some((n as int, rest))
  }

  /** Text that cannot continue a number: empty, or starting with a non-digit. */
  predicate StopsNumber(rest: string) {
    |rest| == 0 || !IsDigit(rest[0])
  }

  lemma {:induction false} DigitsValueOfNatToString(n: nat)
    ensures DigitsValue(NatToString(n)) == n
  {
    var s := NatToString(n);
    if n < 10 {
      assert s[..0] == [];
    } else {
      var t := NatToString(n / 10);
      assert s[..|s| - 1] == t;
      DigitsValueOfNatToString(n / 10);
    }
  }

  lemma {:induction false} DigitsValuePositive(s: string)
    requires |s| >= 1 && AllDigits(s) && s[0] != '0'
    ensures DigitsValue(s) >= 1
  {
    if |s| > 1 {
      DigitsValuePositive(s[..|s| - 1]);
    }
  }

  lemma {:induction false} NatToStringOfDigitsValue(s: string)
    requires IsCanonical(s)
    ensures NatToString(DigitsValue(s)) == s
  {
    var n := DigitsValue(s);
    var last := s[|s| - 1];
    var front := s[..|s| - 1];
    assert DigitChar(DigitValue(last)) == last;
    if |s| == 1 {
      assert front == [];
      assert s == [last];
    } else {
      DigitsValuePositive(front);
      NatToStringOfDigitsValue(front);
      assert n / 10 == DigitsValue(front) && n % 10 == DigitValue(last);
      assert s == front + [last];
    }
  }

  /** The rendering is injective: distinct numbers have distinct texts. */
  lemma NatToStringInjective(a: nat, b: nat)
    ensures NatToString(a) == NatToString(b) ==> a == b
  {
    DigitsValueOfNatToString(a);
    DigitsValueOfNatToString(b);
  }

  lemma {:induction false} DigitRunOfDigits(ds: string, rest: string)
    requires AllDigits(ds) && StopsNumber(rest)
    ensures DigitRun(ds + rest) == |ds|
  {
    if |ds| > 0 {
      assert (ds + rest)[1..] == ds[1..] + rest;
      DigitRunOfDigits(ds[1..], rest);
    } else {
      assert ds + rest == rest;
    }
  }

  /** Parsing a rendered natural gives the number back, and the text after it. */
  lemma NatPrefixRoundTrip(n: nat, rest: string)
    requires StopsNumber(rest)
    ensures ParseNatPrefix(NatToString(n) + rest) == Some((n, rest))
  {
    var s := NatToString(n);
    DigitRunOfDigits(s, rest);
    assert (s + rest)[..|s|] == s;
    assert (s + rest)[|s|..] == rest;
    DigitsValueOfNatToString(n);
  }

  /** Whatever the parser accepts is a rendered natural followed by a non-digit. */
  lemma NatPrefixSound(s: string, n: nat, rest: string)
    requires ParseNatPrefix(s) == Some((n, rest))
    ensures s == NatToString(n) + rest && StopsNumber(rest)
  {
    var k := DigitRun(s);
    NatToStringOfDigitsValue(s[..k]);
    assert s == s[..k] + s[k..];
  }

  /** A '-' before a parsed positive natural is read as its negation. */
  lemma NegatedParse(t: string, n: nat, rest: string)
    requires n > 0 && ParseNatPrefix(t) == Some((n, rest))
    ensures ParseIntPrefix("-" + t) == Some((-(n as int), rest))
  {
    assert ("-" + t)[0] == '-' && ("-" + t)[1..] == t;
  }

  lemma NegativePrefixRoundTrip(i: int, rest: string)
    requires i < 0 && StopsNumber(rest)
    ensures ParseIntPrefix(IntToString(i) + rest) == Some((i, rest))
  {
    var t := NatToString(-i) + rest;
    NatPrefixRoundTrip(-i, rest);
    NegatedParse(t, -i, rest);
    NegativeRendering(i, rest);
  }

  lemma NonNegativePrefixRoundTrip(i: int, rest: string)
    requires i >= 0 && StopsNumber(rest)
    ensures ParseIntPrefix(IntToString(i) + rest) == Some((i, rest))
  {
    var digits := NatToString(i);
    assert IntToString(i) == digits;
    assert (digits + rest)[0] != '-';
    NatPrefixRoundTrip(i, rest);
  }

  /** Parsing a rendered integer gives the integer back, and the text after it. */
  lemma IntPrefixRoundTrip(i: int, rest: string)
    requires StopsNumber(rest)
    ensures ParseIntPrefix(IntToString(i) + rest) == Some((i, rest))
  {
    if i < 0 {
      NegativePrefixRoundTrip(i, rest);
    } else {
      NonNegativePrefixRoundTrip(i, rest);
    }
  }

  /** The integer parser reads a leading '-' as the negation of the natural after it. */
  lemma NegativeParse(s: string, i: int, rest: string)
    requires |s| > 0 && s[0] == '-'
    requires ParseIntPrefix(s) == Some((i, rest))
    ensures i < 0 && ParseNatPrefix(s[1..]) == Some((-i, rest))
  {
  }

  lemma NegativeRendering(i: int, rest: string)
    requires i < 0
    ensures IntToString(i) + rest == "-" + (NatToString(-i) + rest)
  {
    assert IntToString(i) == "-" + NatToString(-i);
  }

  lemma NegativePrefixSound(s: string, i: int, rest: string)
    requires |s| > 0 && s[0] == '-'
    requires ParseIntPrefix(s) == Some((i, rest))
    ensures s == IntToString(i) + rest && StopsNumber(rest)
  {
    NegativeParse(s, i, rest);
    var t := s[1..];
    NatPrefixSound(t, -i, rest);
    assert t == NatToString(-i) + rest;
    NegativeRendering(i, rest);
    assert s == "-" + t;
  }

  /** Whatever the integer parser accepts is a rendered integer followed by a non-digit. */
  lemma IntPrefixSound(s: string, i: int, rest: string)
    requires ParseIntPrefix(s) == Some((i, rest))
    ensures s == IntToString(i) + rest && StopsNumber(rest)
  {
    if |s| > 0 && s[0] == '-' {
      NegativePrefixSound(s, i, rest);
    } else {
      var (n, rest') := ParseNatPrefix(s).value;
      NatPrefixSound(s, n, rest');
    }
  }
}
