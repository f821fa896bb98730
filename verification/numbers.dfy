/** Java's fixed-width integers and decimal text: `int`/`long` ranges,
    two's-complement wrap-around of `int` arithmetic and casts,
    `Long.toString`, `Long.parseLong`, and the stricter integer syntax the
    key-value store accepts for INCR. */
module Numbers {
  import opened Wrappers

  const INT_MIN: int := -0x8000_0000
  const INT_MAX: int := 0x7FFF_FFFF
  const LONG_MIN: int := -0x8000_0000_0000_0000
  const LONG_MAX: int := 0x7FFF_FFFF_FFFF_FFFF

  predicate IsInt32(x: int) {
    INT_MIN <= x <= INT_MAX
  }

  predicate IsInt64(x: int) {
    LONG_MIN <= x <= LONG_MAX
  }

  /** The 32-bit two's-complement value congruent to `x`: the result of Java
      `int` addition that overflows and of a `(int)` cast from `long`. */
  function Wrap32(x: int): (r: int)
    ensures IsInt32(r)
    ensures (r - x) % 0x1_0000_0000 == 0
    ensures IsInt32(x) ==> r == x
  {
    (x - INT_MIN) % 0x1_0000_0000 + INT_MIN
  }

  /** `Integer` fields read through `value == null ? 0 : value`. */
  function OrZero(v: Option<int>): (r: int)
    ensures v.None? ==> r == 0
    ensures v.Some? ==> r == v.value
  {
    v.GetOr(0)
  }

  predicate IsDigit(c: char) {
    '0' <= c <= '9'
  }

  predicate AllDigits(s: string) {
    forall i :: 0 <= i < |s| ==> IsDigit(s[i])
  }

  function DigitChar(d: nat): (c: char)
    requires d < 10
    ensures IsDigit(c)
  {
    "0123456789"[d]
  }

  function DigitValue(c: char): (d: nat)
    requires IsDigit(c)
    ensures d < 10
  {
    (c as int - '0' as int) as nat
  }

  lemma DigitRoundTrip(d: nat)
    requires d < 10
    ensures DigitValue(DigitChar(d)) == d
  {
  }

  /** The number a run of decimal digits denotes (leading zeros allowed). */
  function DigitsValue(s: string): nat
    requires AllDigits(s)
  {
    if s == [] then 0 else 10 * DigitsValue(s[..|s| - 1]) + DigitValue(s[|s| - 1])
  }

  /** Decimal digits of a natural number, without leading zeros. */
  function ShowNat(n: nat): (s: string)
    ensures |s| > 0 && AllDigits(s)
    ensures s[0] == '0' ==> n == 0
  {
    if n < 10 then [DigitChar(n)] else ShowNat(n / 10) + [DigitChar(n % 10)]
  }

  /** `Long.toString(n)` / string concatenation of a number. */
  function Show(n: int): (s: string)
    ensures |s| > 0
    ensures n >= 0 <==> s[0] != '-'
  {
    if n < 0 then "-" + ShowNat(-n) else ShowNat(n)
  }

  lemma {:induction false} ShowNatValue(n: nat)
    ensures DigitsValue(ShowNat(n)) == n
  {
    if n >= 10 {
      var s := ShowNat(n);
      assert s[..|s| - 1] == ShowNat(n / 10);
      ShowNatValue(n / 10);
      DigitRoundTrip(n % 10);
    } else {
      DigitRoundTrip(n);
    }
  }

  /** `Long.parseLong(s)` over ASCII digits: an optional sign, then at least
      one digit, and the value must fit in a `long`; anything else throws
      NumberFormatException (here: None). */
  function ParseLong(s: string): (r: Option<int>)
    ensures r.Some? ==> IsInt64(r.value)
    ensures r.Some? ==> |s| > 0
  {
    if |s| == 0 then None
    else
      var negative := s[0] == '-';
      var digits := if s[0] == '-' || s[0] == '+' then s[1..] else s;
      if |digits| == 0 || !AllDigits(digits) then None
      else
        var v: int := if negative then 0 - DigitsValue(digits) else DigitsValue(digits);
        if IsInt64(v) then Some(v) else None
  }

  /** The value of `sign + d` read as a signed decimal, when `d` is a run
      of digits. */
  function SignedValue(sign: string, d: string): int
    requires AllDigits(d)
  {
    if sign == "-" then -(DigitsValue(d) as int) else DigitsValue(d)
  }

  /** Every text splits uniquely into an optional sign and the rest (the
      rest never starts with a sign when no sign was split off). It parses
      exactly when the rest is a non-empty run of ASCII digits whose signed
      value fits in a `long`, and then to that value: so "+5" reads as 5 and
      "007" as 7, while "", "+", "-" and " 5" are rejected. */
  lemma ParseLongDecimal(sign: string, d: string)
    requires sign == "" || sign == "+" || sign == "-"
    requires sign == "" && |d| > 0 ==> d[0] != '-' && d[0] != '+'
    ensures ParseLong(sign + d).Some? <==> |d| > 0 && AllDigits(d) && IsInt64(SignedValue(sign, d))
    ensures ParseLong(sign + d).Some? ==> ParseLong(sign + d).value == SignedValue(sign, d)
  {
    var s := sign + d;
    if sign != "" {
      assert s[0] == sign[0] && s[1..] == d;
    } else {
      assert s == d;
    }
  }

  /** What a read of a counter yields: the parsed value, or 0 when the value
      is missing or does not parse (the source catches NumberFormatException). */
  function ParseLongOrZero(v: Option<string>): (r: int)
    ensures IsInt64(r)
    ensures v.None? ==> r == 0
    ensures v.Some? && ParseLong(v.value).None? ==> r == 0
    ensures v.Some? && ParseLong(v.value).Some? ==> r == ParseLong(v.value).value
  {
    match v
    case None => 0
    case Some(s) => match ParseLong(s) case Some(n) => n case None => 0
  }

  /** Printing then parsing a `long` gives it back. */
  lemma ParseShow(n: int)
    requires IsInt64(n)
    ensures ParseLong(Show(n)) == Some(n)
  {
    if n < 0 {
      ParseShowNegative(-n);
    } else {
      ParseShowNatural(n);
    }
  }

  lemma ParseShowNatural(n: nat)
    requires IsInt64(n)
    ensures ParseLong(ShowNat(n)) == Some(n)
  {
    var s := ShowNat(n);
    assert IsDigit(s[0]);
    ShowNatValue(n);
  }

  lemma ParseShowNegative(m: nat)
    requires 0 < m <= -LONG_MIN
    ensures ParseLong("-" + ShowNat(m)) == Some(-(m as int))
  {
    var d := ShowNat(m);
    var s := "-" + d;
    assert s[0] == '-' && s[1..] == d;
    ShowNatValue(m);
  }

  /** Distinct numbers print differently. */
  lemma ShowInjective(a: int, b: int)
    requires IsInt64(a) && IsInt64(b) && Show(a) == Show(b)
    ensures a == b
  {
    ParseShow(a);
    ParseShow(b);
  }

  /** The integer syntax the key-value store accepts for INCR: exactly the
      canonical decimal of a 64-bit value (no '+', no leading zeros). */
  function StoreInteger(s: string): (r: Option<int>)
    ensures r.Some? ==> IsInt64(r.value) && s == Show(r.value)
  {
    match ParseLong(s)
    case Some(n) => if Show(n) == s then Some(n) else None
    case None => None
  }

  /** The store reads back every value it writes. */
  lemma StoreIntegerShow(n: int)
    requires IsInt64(n)
    ensures StoreInteger(Show(n)) == Some(n)
  {
    ParseShow(n);
  }
}
