/** The part of JavaScript number behaviour the catalog relies on: `parseFloat`
    of an unsigned decimal and the conversion `amount * 60 / seconds` from an
    amount per production cycle to an amount per minute. Every number here is
    non-negative, so IEEE signed zeros and negative infinity never arise. */
module Numbers {
  import opened Text

  type NonNegReal = r: real | r >= 0.0

  /** A non-negative JavaScript number; arithmetic on `Finite` values is exact. */
  datatype Number = Finite(value: NonNegReal) | Infinity | NaN

  predicate IsDigit(c: char) {
    '0' <= c <= '9'
  }

  predicate AllDigits(s: string) {
    forall i :: 0 <= i < |s| ==> IsDigit(s[i])
  }

  function DigitValue(c: char): nat
    requires IsDigit(c)
  {
    c as int - '0' as int
  }

  function DigitChar(d: nat): (c: char)
    requires d < 10
    ensures IsDigit(c) && DigitValue(c) == d
  {
    ('0' as int + d) as char
  }

  function Pow10(k: nat): (p: nat)
    ensures p >= 1
  {
    if k == 0 then 1 else 10 * Pow10(k - 1)
  }

  /** The value of a decimal digit string, most significant digit first. */
  function DigitsValue(ds: string): nat
    requires AllDigits(ds)
  {
    if ds == [] then 0 else DigitsValue(ds[..|ds| - 1]) * 10 + DigitValue(ds[|ds| - 1])
  }

  /** The value of the digits after a decimal point. */
  function Fraction(ds: string): real
    requires AllDigits(ds)
  {
    DigitsValue(ds) as real / Pow10(|ds|) as real
  }

  /** True when `parseFloat` finds a number at the start of `t`: a digit, or
      a point followed by a digit. */
  predicate StartsNumeric(t: string) {
    |t| > 0 && (IsDigit(t[0]) || (t[0] == '.' && |t| > 1 && IsDigit(t[1])))
  }

  /** The digits before the decimal point: the longest leading digit run. */
  function WholeDigits(t: string): (w: string)
    ensures AllDigits(w) && w <= t
    ensures |w| == |t| || !IsDigit(t[|w|])
  {
    t[..RunLength(t, 0, IsDigit)]
  }

  /** The digits after a decimal point that directly follows the whole digits,
      or none when no point follows them. */
  function FractionDigits(t: string): (f: string)
    ensures AllDigits(f)
    ensures var n := |WholeDigits(t)|;
            f != [] <==> n + 1 < |t| && t[n] == '.' && IsDigit(t[n + 1])
    ensures f != [] ==> |WholeDigits(t)| + 1 + |f| <= |t| && t[|WholeDigits(t)|] == '.'
                        && f == t[|WholeDigits(t)| + 1..|WholeDigits(t)| + 1 + |f|]
    ensures f != [] ==> |WholeDigits(t)| + 1 + |f| == |t| || !IsDigit(t[|WholeDigits(t)| + 1 + |f|])
  {
    var rest := t[|WholeDigits(t)|..];
    if |rest| > 0 && rest[0] == '.' then rest[1..1 + RunLength(rest, 1, IsDigit)] else []
  }

  /** `parseFloat` restricted to unsigned decimals: the longest prefix of the
      form `digits [. digits]` or `. digits`, or NaN when there is none. */
  function ParseFloat(t: string): (r: Number)
    ensures !r.Infinity?
    ensures r.NaN? <==> !StartsNumeric(t)
  {
    var w := WholeDigits(t);
    var f := FractionDigits(t);
    assert w == [] <==> |t| == 0 || !IsDigit(t[0]);
    if w == [] && f == [] then NaN
    else Finite(DigitsValue(w) as real + Fraction(f))
  }

  /** IEEE multiplication by 60. */
  function TimesSixty(x: Number): (r: Number)
    ensures x.Finite? ==> r.Finite? && r.value / 60.0 == x.value
    ensures !x.Finite? ==> r == x
  {
    match x
    case Finite(v) => Finite(v * 60.0)
    case Infinity => Infinity
    case NaN => NaN
  }

  /** IEEE division of non-negative numbers. */
  function Divide(x: Number, y: Number): (r: Number)
    ensures x.Finite? && y.Finite? && y.value > 0.0 ==> r.Finite? && r.value * y.value == x.value
    ensures r.NaN? <==> x.NaN? || y.NaN? || (x == y == Finite(0.0)) || (x == y == Infinity)
    ensures r.Infinity? <==> (x.Infinity? && y.Finite?) || (x.Finite? && x.value > 0.0 && y == Finite(0.0))
  {
    match (x, y)
    case (NaN, _) => NaN
    case (_, NaN) => NaN
    case (Infinity, Infinity) => NaN
    case (Infinity, Finite(_)) => Infinity
    case (Finite(_), Infinity) => Finite(0.0)
    case (Finite(a), Finite(b)) =>
      if b > 0.0 then Finite(a / b)
      else if a == 0.0 then NaN
      else Infinity
  }

  /** `amount * 60 / secondsToCreate`: an amount per cycle as an amount per
      minute, following IEEE arithmetic when the cycle time is zero or an
      operand is NaN. */
  function PerMinute(amount: Number, seconds: Number): (r: Number)
    ensures amount.Finite? && seconds.Finite? && seconds.value > 0.0 ==>
              r.Finite? && r.value == amount.value * 60.0 / seconds.value
    ensures amount.Finite? && seconds == Finite(0.0) ==>
              (if amount.value == 0.0 then r.NaN? else r.Infinity?)
    ensures amount.NaN? || seconds.NaN? ==> r.NaN?
  {
    Divide(TimesSixty(amount), seconds)
  }

  /** The decimal rendering of a natural number, without leading zeros. */
  function Decimal(n: nat): (s: string)
    ensures |s| > 0 && AllDigits(s)
  {
    if n < 10 then [DigitChar(n)] else Decimal(n / 10) + [DigitChar(n % 10)]
  }

  /** The `k`-digit rendering of `b`, padded with leading zeros. */
  function Padded(b: nat, k: nat): (s: string)
    requires b < Pow10(k)
    ensures |s| == k && AllDigits(s)
  {
    if k == 0 then [] else Padded(b / 10, k - 1) + [DigitChar(b % 10)]
  }

  lemma {:induction false} DecimalValue(n: nat)
    ensures DigitsValue(Decimal(n)) == n
  {
    if n >= 10 {
      DecimalValue(n / 10);
      var s := Decimal(n);
      assert s[..|s| - 1] == Decimal(n / 10);
    }
  }

  lemma {:induction false} PaddedValue(b: nat, k: nat)
    requires b < Pow10(k)
    ensures DigitsValue(Padded(b, k)) == b
  {
    if k > 0 {
      PaddedValue(b / 10, k - 1);
      var s := Padded(b, k);
      assert s[..|s| - 1] == Padded(b / 10, k - 1);
    }
  }

  /** A digit run followed by a non-digit is measured exactly, wherever it
      sits in the text. */
  lemma {:induction false} RunOfDigits(pre: string, ds: string, rest: string, from: nat)
    requires AllDigits(ds) && from <= |ds|
    requires rest == [] || !IsDigit(rest[0])
    ensures RunLength(pre + ds + rest, |pre| + from, IsDigit) == |ds| - from
    decreases |ds| - from
  {
    var t := pre + ds + rest;
    if from < |ds| {
      assert t[|pre| + from] == ds[from];
      RunOfDigits(pre, ds, rest, from + 1);
    } else if rest != [] {
      assert t[|pre| + from] == rest[0];
    }
  }

  /** The whole digits of a digit string followed by a non-digit. */
  lemma WholeDigitsOf(ds: string, rest: string)
    requires AllDigits(ds)
    requires rest == [] || !IsDigit(rest[0])
    ensures WholeDigits(ds + rest) == ds
  {
    RunOfDigits([], ds, rest, 0);
    assert [] + ds + rest == ds + rest;
    assert (ds + rest)[..|ds|] == ds;
  }

  /** The whole and fraction digits of `ds.frac` followed by a non-digit. */
  lemma FractionDigitsOf(ds: string, frac: string, rest: string)
    requires AllDigits(ds) && AllDigits(frac)
    requires rest == [] || !IsDigit(rest[0])
    ensures WholeDigits(ds + "." + frac + rest) == ds
    ensures FractionDigits(ds + "." + frac + rest) == frac
  {
    var t := ds + "." + frac + rest;
    var after := "." + frac + rest;
    assert WholeDigits(t) == ds && t[|ds|..] == after by {
      assert t == ds + after;
      WholeDigitsOf(ds, after);
    }
    assert RunLength(after, 1, IsDigit) == |frac| by {
      RunOfDigits(".", frac, rest, 0);
    }
    FractionDigitsAfterPoint(t, after);
    assert after[1..1 + |frac|] == frac;
  }

  /** Helper: where the whole digits are followed by a point, the fraction
      digits are the digit run after it. */
  lemma FractionDigitsAfterPoint(t: string, after: string)
    requires t[|WholeDigits(t)|..] == after && |after| > 0 && after[0] == '.'
    ensures FractionDigits(t) == after[1..1 + RunLength(after, 1, IsDigit)]
  {
  }

  /** `parseFloat` reads back a whole number rendered in decimal, whatever
      non-numeric text follows it (such as the closing parenthesis of a group). */
  lemma WholeRoundTrip(n: nat, rest: string)
    requires rest == [] || (!IsDigit(rest[0]) && rest[0] != '.')
    ensures ParseFloat(Decimal(n) + rest) == Finite(n as real)
  {
    var d := Decimal(n);
    WholeDigitsOf(d, rest);
    assert FractionDigits(d + rest) == [] by {
      assert (d + rest)[|d|..] == rest;
    }
    DecimalValue(n);
  }

  /** Helper: the value of a text with a non-empty integer part. */
  lemma ParseFloatValue(t: string, whole: string, frac: string)
    requires WholeDigits(t) == whole && FractionDigits(t) == frac && whole != []
    ensures ParseFloat(t) == Finite(DigitsValue(whole) as real + Fraction(frac))
  {
  }

  /** `parseFloat` of `whole.frac` followed by a non-digit is the whole
      part plus the fraction. */
  lemma ParseDecimalText(whole: string, frac: string, rest: string)
    requires AllDigits(whole) && whole != [] && AllDigits(frac)
    requires rest == [] || !IsDigit(rest[0])
    ensures ParseFloat(whole + "." + frac + rest) == Finite(DigitsValue(whole) as real + Fraction(frac))
  {
    FractionDigitsOf(whole, frac, rest);
    ParseFloatValue(whole + "." + frac + rest, whole, frac);
  }

  /** `parseFloat` of `.frac` followed by a non-digit, with no digit before
      the point, is the fraction alone. */
  lemma LeadingPointValue(frac: string, rest: string)
    requires AllDigits(frac) && frac != []
    requires rest == [] || !IsDigit(rest[0])
    ensures ParseFloat("." + frac + rest) == Finite(Fraction(frac))
  {
    var t := "." + frac + rest;
    assert WholeDigits(t) == [] by {
      assert [] + t == t;
      WholeDigitsOf([], t);
    }
    assert FractionDigits(t) == frac by {
      assert [] + "." + frac + rest == t;
      FractionDigitsOf([], frac, rest);
    }
  }

  /** `parseFloat` reads back `n + b / 10^k` rendered as `n.b` with `b`
      padded to `k` digits, whatever non-digit text follows it. */
  lemma FractionRoundTrip(n: nat, b: nat, k: nat, rest: string)
    requires b < Pow10(k)
    requires rest == [] || !IsDigit(rest[0])
    ensures ParseFloat(Decimal(n) + "." + Padded(b, k) + rest)
         == Finite(n as real + b as real / Pow10(k) as real)
  {
    ParseDecimalText(Decimal(n), Padded(b, k), rest);
    DecimalValue(n);
    PaddedValue(b, k);
  }
}
