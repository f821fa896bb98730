/** Calendar dates as `java.time.LocalDate` handles them: validity in the
    proleptic Gregorian calendar, `minusDays(1)`, and the ISO-8601 text of
    `toString()` that the counter keys embed. */
module Dates {
  import opened Wrappers
  import opened Numbers

  const YEAR_MIN: int := -999_999_999
  const YEAR_MAX: int := 999_999_999

  datatype Date = Date(year: int, month: int, day: int)

  predicate IsLeap(y: int) {
    y % 4 == 0 && (y % 100 != 0 || y % 400 == 0)
  }

  function DaysInMonth(y: int, m: int): (n: int)
    requires 1 <= m <= 12
    ensures 28 <= n <= 31
  {
    if m == 2 then (if IsLeap(y) then 29 else 28)
    else if m == 4 || m == 6 || m == 9 || m == 11 then 30
    else 31
  }

  /** A date `LocalDate` can represent. */
  predicate Valid(d: Date) {
    && YEAR_MIN <= d.year <= YEAR_MAX
    && 1 <= d.month <= 12
    && 1 <= d.day <= DaysInMonth(d.year, d.month)
  }

  /** Chronological order of dates. */
  predicate Before(a: Date, b: Date) {
    || a.year < b.year
    || (a.year == b.year && a.month < b.month)
    || (a.year == b.year && a.month == b.month && a.day < b.day)
  }

  /** `d.minusDays(1)`; None where `LocalDate` throws, below its minimum. */
  function MinusOneDay(d: Date): (r: Option<Date>)
    requires Valid(d)
    ensures r.None? <==> d == Date(YEAR_MIN, 1, 1)
    ensures r.Some? ==> Valid(r.value) && Before(r.value, d)
    ensures r.Some? ==> forall e :: Valid(e) && Before(r.value, e) ==> !Before(e, d)
  {
    if d.day > 1 then Some(Date(d.year, d.month, d.day - 1))
    else if d.month > 1 then Some(Date(d.year, d.month - 1, DaysInMonth(d.year, d.month - 1)))
    else if d.year > YEAR_MIN then Some(Date(d.year - 1, 12, 31))
    else None
  }

  /** A string of `n` zeros. */
  function Zeros(n: nat): (s: string)
    ensures |s| == n && AllDigits(s)
    ensures forall i :: 0 <= i < n ==> s[i] == '0'
  {
    if n == 0 then [] else "0" + Zeros(n - 1)
  }

  /** `n` in decimal, left-padded with zeros to at least `width` digits. */
  function Padded(n: nat, width: nat): (s: string)
    ensures AllDigits(s) && |s| >= width && |s| > 0
  {
    var digits := ShowNat(n);
    (if |digits| < width then Zeros(width - |digits|) else []) + digits
  }

  /** The year as `LocalDate.toString` writes it: at least four digits, a
      '-' for negative years and a '+' for years beyond 9999. */
  function YearText(y: int): string {
    (if y > 9999 then "+" else if y < 0 then "-" else "") + Padded(if y < 0 then -y else y, 4)
  }

  /** `LocalDate.toString()`: `yyyy-MM-dd`. */
  function IsoText(d: Date): string
    requires Valid(d)
  {
    YearText(d.year) + "-" + Padded(d.month, 2) + "-" + Padded(d.day, 2)
  }

  lemma {:induction false} LeadingZero(s: string)
    requires AllDigits(s)
    ensures AllDigits("0" + s) && DigitsValue("0" + s) == DigitsValue(s)
  {
    if s != [] {
      var t := "0" + s;
      assert t[..|t| - 1] == "0" + s[..|s| - 1];
      LeadingZero(s[..|s| - 1]);
    }
  }

  lemma {:induction false} LeadingZeros(n: nat, s: string)
    requires AllDigits(s)
    ensures AllDigits(Zeros(n) + s) && DigitsValue(Zeros(n) + s) == DigitsValue(s)
  {
    if n > 0 {
      LeadingZeros(n - 1, s);
      assert Zeros(n) + s == "0" + (Zeros(n - 1) + s);
      LeadingZero(Zeros(n - 1) + s);
    } else {
      assert Zeros(n) + s == s;
    }
  }

  /** Padding never changes the value the digits denote. */
  lemma PaddedValue(n: nat, width: nat)
    ensures DigitsValue(Padded(n, width)) == n
  {
    var digits := ShowNat(n);
    ShowNatValue(n);
    if |digits| < width {
      LeadingZeros(width - |digits|, digits);
    } else {
      assert Padded(n, width) == digits;
    }
  }

  lemma {:induction false} ShortShow(n: nat)
    requires n < 100
    ensures |ShowNat(n)| <= 2
  {
    if n >= 10 {
      assert ShowNat(n) == ShowNat(n / 10) + [DigitChar(n % 10)];
    }
  }

  lemma PaddedInjective(a: nat, b: nat, width: nat)
    requires Padded(a, width) == Padded(b, width)
    ensures a == b
  {
    PaddedValue(a, width);
    PaddedValue(b, width);
  }

  lemma YearTextInjective(a: int, b: int)
    requires YearText(a) == YearText(b)
    ensures a == b
  {
    var pa := Padded(if a < 0 then -a else a, 4);
    var pb := Padded(if b < 0 then -b else b, 4);
    assert IsDigit(pa[0]) && IsDigit(pb[0]);
    var ta, tb := YearText(a), YearText(b);
    assert (a > 9999 || a < 0) <==> !IsDigit(ta[0]);
    assert (b > 9999 || b < 0) <==> !IsDigit(tb[0]);
    assert a > 9999 <==> ta[0] == '+';
    assert b > 9999 <==> tb[0] == '+';
    if a > 9999 || a < 0 {
      assert pa == ta[1..] && pb == tb[1..];
    } else {
      assert pa == ta && pb == tb;
    }
    PaddedInjective(if a < 0 then -a else a, if b < 0 then -b else b, 4);
  }

  /** The ISO text splits back into its year, month and day parts: the
      month and day always take two characters. */
  lemma IsoTextParts(d: Date)
    requires Valid(d)
    ensures var s := IsoText(d);
      && |s| >= 6
      && s[|s| - 2..] == Padded(d.day, 2)
      && s[|s| - 5..|s| - 3] == Padded(d.month, 2)
      && s[..|s| - 6] == YearText(d.year)
  {
    ShortShow(d.month);
    ShortShow(d.day);
    var y, m, dd := YearText(d.year), Padded(d.month, 2), Padded(d.day, 2);
    assert |m| == 2 && |dd| == 2;
    assert IsoText(d) == y + "-" + m + "-" + dd;
    JoinedParts(y, m, dd);
  }

  /** `y-m-d` with two-character `m` and `d` splits back into its parts. */
  lemma JoinedParts(y: string, m: string, d: string)
    requires |m| == 2 && |d| == 2
    ensures var s := y + "-" + m + "-" + d;
      && |s| >= 6
      && s[|s| - 2..] == d
      && s[|s| - 5..|s| - 3] == m
      && s[..|s| - 6] == y
  {
    var s := y + "-" + m + "-" + d;
    assert |s| == |y| + 6;
    assert s[|y| + 4..] == d;
    assert s[|y| + 1..|y| + 3] == m;
    assert s[..|y|] == y;
  }

  /** Different dates give different ISO text, so different counter keys. */
  lemma IsoTextInjective(a: Date, b: Date)
    requires Valid(a) && Valid(b) && IsoText(a) == IsoText(b)
    ensures a == b
  {
    IsoTextParts(a);
    IsoTextParts(b);
    PaddedInjective(a.month, b.month, 2);
    PaddedInjective(a.day, b.day, 2);
    YearTextInjective(a.year, b.year);
  }
}
