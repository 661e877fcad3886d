/**
  The age string written into the card: years, months and days of the
  elapsed calendar interval, each with its unit word in the singular exactly
  when the number is 1. The interval's decomposition itself is an input.
 */
module Uptime {
  import opened Results
  import Decimal

  /** The three components of the elapsed interval, in the order they are shown. */
  datatype Delta = Delta(years: int, months: int, days: int)

  /** The plural marker: "s" unless the count is exactly 1 (so 0 is plural). */
  function Suffix(n: int): string {
    if n != 1 then "s" else ""
  }

  /** The text after a component's number: `" <unit>[s]"`. */
  function UnitWord(n: int, unit: string): string {
    " " + unit + Suffix(n)
  }

  /** One component rendered as `<n> <unit>[s]`. */
  function UnitPhrase(n: int, unit: string): string {
    Decimal.IntToString(n) + UnitWord(n, unit)
  }

  /** `"<y> year[s], <m> month[s], <d> day[s]"`. */
  function UptimeString(d: Delta): string {
    UnitPhrase(d.years, "year") + ", " + UnitPhrase(d.months, "month") + ", " + UnitPhrase(d.days, "day")
  }

  /** Reads one `<n> <unit>[s]` phrase from the front of `s`, insisting on the suffix that `n` calls for. */
  function ParseUnit(s: string, unit: string): Option<(int, string)> {
    match Decimal.ParseIntPrefix(s)
    case None => None
    case Some((n, rest)) =>
      var word := UnitWord(n, unit);
      if |word| <= |rest| && rest[..|word|] == word then Some((n, rest[|word|..])) else None
  }

  /** Strips the `", "` separator from the front of `s`. */
  function ParseSeparator(s: string): Option<string> {
    if |s| >= 2 && s[..2] == ", " then Some(s[2..]) else None
  }

  /** Reads the final `<d> day[s]` phrase, which must end the text. */
  function ParseDays(s: string): Option<int> {
    match ParseUnit(s, "day")
    case None => None
    case Some((d, rest)) => if rest == [] then Some(d) else None
  }

  /** Reads `<m> month[s], <d> day[s]`. */
  function ParseMonthsDays(s: string): Option<(int, int)> {
    match ParseUnit(s, "month")
    case None => None
    case Some((m, r1)) =>
      match ParseSeparator(r1)
      case None => None
      case Some(r2) =>
        match ParseDays(r2)
        case None => None
        case Some(d) => Some((m, d))
  }

  /** Reads back an uptime string; None for text `UptimeString` cannot produce. */
  function ParseUptime(s: string): Option<Delta> {
    match ParseUnit(s, "year")
    case None => None
    case Some((y, r1)) =>
      match ParseSeparator(r1)
      case None => None
      case Some(r2) =>
        match ParseMonthsDays(r2)
        case None => None
        case Some((m, d)) => Some(Delta(y, m, d))
  }

  /**
    The phrase ends in 's' exactly when the count is not 1, for any unit word
    that does not itself end in 's' ("year", "month", "day").
   */
  lemma PluralIffNotOne(n: int, unit: string)
    requires |unit| >= 1 && unit[|unit| - 1] != 's'
    ensures var p := UnitPhrase(n, unit); p[|p| - 1] == 's' <==> n != 1
  {
  }

  lemma UnitRoundTrip(n: int, unit: string, tail: string)
    ensures ParseUnit(UnitPhrase(n, unit) + tail, unit) == Some((n, tail))
  {
    var word := UnitWord(n, unit);
    var rest := word + tail;
    assert UnitPhrase(n, unit) + tail == Decimal.IntToString(n) + rest;
    Decimal.IntPrefixRoundTrip(n, rest);
    assert rest[..|word|] == word;
    assert rest[|word|..] == tail;
  }

  lemma UnitSound(s: string, unit: string, n: int, tail: string)
    requires ParseUnit(s, unit) == Some((n, tail))
    ensures s == UnitPhrase(n, unit) + tail
  {
    var (i, rest) := Decimal.ParseIntPrefix(s).value;
    assert i == n;
    Decimal.IntPrefixSound(s, n, rest);
    var word := UnitWord(n, unit);
    assert rest == word + tail by {
      assert rest == rest[..|word|] + rest[|word|..];
    }
  }

  lemma SeparatorRoundTrip(tail: string)
    ensures ParseSeparator(", " + tail) == Some(tail)
  {
    assert (", " + tail)[..2] == ", ";
    assert (", " + tail)[2..] == tail;
  }

  lemma SeparatorSound(s: string, tail: string)
    requires ParseSeparator(s) == Some(tail)
    ensures s == ", " + tail
  {
    assert s == s[..2] + s[2..];
  }

  lemma MonthsDaysRoundTrip(m: int, d: int)
    ensures ParseMonthsDays(UnitPhrase(m, "month") + (", " + UnitPhrase(d, "day"))) == Some((m, d))
  {
    var pd := UnitPhrase(d, "day");
    var t := ", " + pd;
    UnitRoundTrip(m, "month", t);
    SeparatorRoundTrip(pd);
    assert ParseDays(pd) == Some(d) by {
      UnitRoundTrip(d, "day", []);
      assert pd + [] == pd;
    }
  }

  lemma MonthsDaysSound(s: string, m: int, d: int)
    requires ParseMonthsDays(s) == Some((m, d))
    ensures s == UnitPhrase(m, "month") + (", " + UnitPhrase(d, "day"))
  {
    var (m', r1) := ParseUnit(s, "month").value;
    UnitSound(s, "month", m', r1);
    var r2 := ParseSeparator(r1).value;
    SeparatorSound(r1, r2);
    var (d', r3) := ParseUnit(r2, "day").value;
    UnitSound(r2, "day", d', r3);
    assert r2 == UnitPhrase(d, "day");
  }

  /** The uptime string regrouped from the right, the way the parser consumes it. */
  lemma UptimeStringShape(d: Delta)
    ensures UptimeString(d)
      == UnitPhrase(d.years, "year") + (", " + (UnitPhrase(d.months, "month") + (", " + UnitPhrase(d.days, "day"))))
  {
    RegroupRight(UnitPhrase(d.years, "year"), ", ", UnitPhrase(d.months, "month"), ", ", UnitPhrase(d.days, "day"));
  }

  lemma RegroupRight(a: string, b: string, c: string, d: string, e: string)
    ensures a + b + c + d + e == a + (b + (c + (d + e)))
  {
  }

  /** Every uptime string reads back as the interval it was rendered from. */
  lemma UptimeRoundTrip(d: Delta)
    ensures ParseUptime(UptimeString(d)) == Some(d)
  {
    var md := UnitPhrase(d.months, "month") + (", " + UnitPhrase(d.days, "day"));
    var t := ", " + md;
    UptimeStringShape(d);
    UnitRoundTrip(d.years, "year", t);
    SeparatorRoundTrip(md);
    MonthsDaysRoundTrip(d.months, d.days);
  }

  /** The parser accepts nothing but uptime strings. */
  lemma UptimeSound(s: string, d: Delta)
    requires ParseUptime(s) == Some(d)
    ensures s == UptimeString(d)
  {
    var pu := ParseUnit(s, "year");
    assert pu.Some?;
    var y, r1 := pu.value.0, pu.value.1;
    UnitSound(s, "year", y, r1);
    var ps := ParseSeparator(r1);
    assert ps.Some?;
    var r2 := ps.value;
    SeparatorSound(r1, r2);
    assert ParseMonthsDays(r2) == Some((d.months, d.days));
    MonthsDaysSound(r2, d.months, d.days);
    assert y == d.years;
    UptimeStringShape(d);
  }

  /** Rendering is a bijection onto the strings the parser accepts. */
  lemma UptimeParseIff(s: string, d: Delta)
    ensures ParseUptime(s) == Some(d) <==> s == UptimeString(d)
  {
    if ParseUptime(s) == Some(d) {
      UptimeSound(s, d);
    }
    UptimeRoundTrip(d);
  }

  /** Distinct intervals are never shown as the same text. */
  lemma UptimeInjective(a: Delta, b: Delta)
    ensures UptimeString(a) == UptimeString(b) ==> a == b
  {
    UptimeRoundTrip(a);
    UptimeRoundTrip(b);
  }

  /** The worked example: 24 years, 5 months and 14 days. */
  lemma UptimeExample()
    ensures UptimeString(Delta(24, 5, 14)) == "24 years, 5 months, 14 days"
  {
  }

  /** Zero is plural and one is singular. */
  lemma UptimeSingularExample()
    ensures UptimeString(Delta(1, 0, 1)) == "1 year, 0 months, 1 day"
  {
  }
}
