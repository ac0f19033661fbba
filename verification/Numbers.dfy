/** Decimal digits, and the texts that `str::parse::<f64>` accepts with the numbers they stand for. */
module Numbers {
  import opened Text
  import opened Chars

  // ---- Digits ----------------------------------------------------------------------------

  /** The last `width` decimal digits of `n`. */
  function Digits(n: nat, width: nat): (s: string)
    ensures |s| == width
    ensures forall k :: 0 <= k < width ==> IsDigitChar(s[k])
  {
    if width == 0 then "" else Digits(n / 10, width - 1) + [DigitChar(n % 10)]
  }

  function DigitValue(c: char): (n: int)
    requires IsDigitChar(c)
    ensures 0 <= n <= 9
  {
    (c - '0') as int
  }

  predicate AllDigits(s: string) {
    forall k :: 0 <= k < |s| ==> IsDigitChar(s[k])
  }

  function NumberOf(s: string): (n: nat)
    requires AllDigits(s)
  {
    if s == "" then 0 else 10 * NumberOf(s[..|s| - 1]) + DigitValue(s[|s| - 1])
  }

  function Pow10(n: nat): (p: nat)
    ensures p > 0
  {
    if n == 0 then 1 else 10 * Pow10(n - 1)
  }

  lemma {:induction false} NumberOfDigits(n: nat, width: nat)
    requires n < Pow10(width)
    ensures AllDigits(Digits(n, width)) && NumberOf(Digits(n, width)) == n
  {
    if width > 0 {
      NumberOfDigits(n / 10, width - 1);
      assert Digits(n, width)[..width - 1] == Digits(n / 10, width - 1);
    }
  }

  lemma {:induction false} NumberIsBounded(s: string)
    requires AllDigits(s)
    ensures NumberOf(s) < Pow10(|s|)
  {
    if s != "" { NumberIsBounded(s[..|s| - 1]); }
  }

  function Abs(x: real): (r: real)
    ensures r >= 0.0 && (r == x || r == -x)
  {
    if x < 0.0 then -x else x
  }

  // ---- Floating point texts --------------------------------------------------------------

  function LeadingDigits(s: string): (n: nat)
    ensures n <= |s| && forall k :: 0 <= k < n ==> IsDigitChar(s[k])
  {
    if s != "" && IsDigitChar(s[0]) then 1 + LeadingDigits(s[1..]) else 0
  }

  predicate IsSign(c: char) { c == '+' || c == '-' }

  function DropSign(s: string): string {
    if s != "" && IsSign(s[0]) then s[1..] else s
  }

  predicate IsInteger(s: string) {
    s != "" && LeadingDigits(s) == |s|
  }

  /** Digits with at most one point among them, at least one digit in all. */
  predicate IsMantissa(s: string) {
    var n := LeadingDigits(s);
    if n == |s| then n > 0
    else s[n] == '.' && LeadingDigits(s[n + 1..]) == |s| - n - 1 && |s| > 1
  }

  /** The position of the first `e` of either case, or the length. */
  function ExponentMark(s: string): (k: nat)
    ensures k <= |s| && (k < |s| ==> s[k] == 'e' || s[k] == 'E')
  {
    if s == "" || s[0] == 'e' || s[0] == 'E' then 0 else 1 + ExponentMark(s[1..])
  }

  predicate IsNumber(s: string) {
    var k := ExponentMark(s);
    IsMantissa(s[..k]) && (k < |s| ==> IsInteger(DropSign(s[k + 1..])))
  }

  predicate IsNamedFloat(s: string) {
    var upper := seq(|s|, k requires 0 <= k < |s| => UpperChar(s[k]));
    upper == "INF" || upper == "INFINITY" || upper == "NAN"
  }

  predicate IsFloat(s: string) {
    IsNumber(DropSign(s)) || IsNamedFloat(DropSign(s))
  }

  function MantissaValue(s: string): (v: real)
    requires IsMantissa(s)
    ensures v >= 0.0
  {
    var n := LeadingDigits(s);
    assert AllDigits(s[..n]);
    if n == |s| then NumberOf(s[..n]) as real
    else NumberOf(s[..n]) as real + NumberOf(s[n + 1..]) as real / Pow10(|s| - n - 1) as real
  }

  function TenTo(exponent: int): real {
    if exponent >= 0 then Pow10(exponent) as real else 1.0 / Pow10(-exponent) as real
  }

  predicate IsMinus(s: string) { s != "" && s[0] == '-' }

  /** The exponent behind the mark. */
  function ExponentOf(s: string): int
    requires IsInteger(DropSign(s))
  {
    var n := NumberOf(DropSign(s)); if IsMinus(s) then -(n as int) else n
  }

  function Magnitude(t: string): real
    requires IsNumber(t)
  {
    var k := ExponentMark(t);
    if k == |t| then MantissaValue(t[..k]) else MantissaValue(t[..k]) * TenTo(ExponentOf(t[k + 1..]))
  }

  /** The number a text stands for, unless it is not one or only a name. */
  function FloatValue(s: string): Option<real> {
    var t := DropSign(s);
    if !IsNumber(t) then None else Some(if IsMinus(s) then -Magnitude(t) else Magnitude(t))
  }

  lemma {:induction false} AllLeading(s: string)
    requires AllDigits(s)
    ensures LeadingDigits(s) == |s| && ExponentMark(s) == |s|
  {
    if s != "" { AllLeading(s[1..]); }
  }

  /** Plain digits stand for their number. */
  lemma DigitsAreFloat(s: string)
    requires AllDigits(s) && s != ""
    ensures IsFloat(s) && FloatValue(s) == Some(NumberOf(s) as real)
  {
    AllLeading(s);
    assert s[..|s|] == s;
  }

  // ---- Which texts are numbers -----------------------------------------------------------

  lemma {:induction false} LeadingBefore(digits: string, c: char, rest: string)
    requires AllDigits(digits) && !IsDigitChar(c)
    ensures LeadingDigits(digits + [c] + rest) == |digits|
  {
    var s := digits + [c] + rest;
    if digits != "" {
      assert s[1..] == digits[1..] + [c] + rest;
      LeadingBefore(digits[1..], c, rest);
    }
  }

  lemma {:induction false} MarkBehind(plain: string, mark: char, rest: string)
    requires forall k :: 0 <= k < |plain| ==> plain[k] != 'e' && plain[k] != 'E'
    requires mark == 'e' || mark == 'E'
    ensures ExponentMark(plain + [mark] + rest) == |plain| && ExponentMark(plain) == |plain|
  {
    var s := plain + [mark] + rest;
    if plain != "" {
      assert s[1..] == plain[1..] + [mark] + rest;
      MarkBehind(plain[1..], mark, rest);
    }
  }

  function DecimalValue(whole: string, fraction: string): real
    requires AllDigits(whole) && AllDigits(fraction)
  {
    NumberOf(whole) as real + NumberOf(fraction) as real / Pow10(|fraction|) as real
  }

  lemma PointParts(whole: string, fraction: string)
    requires AllDigits(whole) && AllDigits(fraction)
    ensures var s := whole + "." + fraction;
            && LeadingDigits(s) == |whole| && s[..|whole|] == whole && s[|whole|] == '.' && s[|whole| + 1..] == fraction
            && LeadingDigits(fraction) == |fraction|
  {
    LeadingBefore(whole, '.', fraction);
    AllLeading(fraction);
  }

  function ScientificValue(whole: string, fraction: string, down: bool, exponent: string): real
    requires AllDigits(whole) && AllDigits(fraction) && AllDigits(exponent)
  {
    var n: int := NumberOf(exponent); DecimalValue(whole, fraction) * TenTo(if down then -n else n)
  }

  /** Digits around a point, and at least one in all. */
  lemma MantissaReads(whole: string, fraction: string)
    requires AllDigits(whole) && AllDigits(fraction)
    ensures IsMantissa(whole + "." + fraction) <==> whole + fraction != ""
    ensures whole + fraction != "" ==> MantissaValue(whole + "." + fraction) == DecimalValue(whole, fraction)
  {
    hide NumberOf, LeadingDigits, Pow10, AllDigits;
    PointParts(whole, fraction);
  }

  function SignText(negative: bool): string { if negative then "-" else "" }

  function Negated(value: real, negative: bool): real { if negative then -value else value }

  lemma NumberReads(t: string, negative: bool)
    requires IsNumber(t) && t != "" && !IsSign(t[0])
    ensures IsFloat(SignText(negative) + t) && FloatValue(SignText(negative) + t) == Some(Negated(Magnitude(t), negative))
  {
    hide IsNumber, Magnitude, IsNamedFloat;
    SignIsDropped(negative, t);
  }

  lemma SignIsDropped(negative: bool, t: string)
    requires t != "" && !IsSign(t[0])
    ensures DropSign(SignText(negative) + t) == t && (IsMinus(SignText(negative) + t) <==> negative)
  {
    assert ("-" + t)[1..] == t && "" + t == t;
  }

  lemma ExponentReads(down: bool, exponent: string)
    requires AllDigits(exponent) && exponent != ""
    ensures var behind := SignText(down) + exponent;
            IsInteger(DropSign(behind)) && ExponentOf(behind) == if down then -(NumberOf(exponent) as int) else NumberOf(exponent)
  {
    SignIsDropped(down, exponent);
    AllLeading(exponent);
  }

  lemma PowerReads(mantissa: string, mark: char, behind: string)
    requires IsMantissa(mantissa) && IsInteger(DropSign(behind))
    requires ExponentMark(mantissa + [mark] + behind) == |mantissa|
    ensures var t := mantissa + [mark] + behind;
            IsNumber(t) && Magnitude(t) == MantissaValue(mantissa) * TenTo(ExponentOf(behind))
  {
    hide IsMantissa, MantissaValue, ExponentMark, ExponentOf, TenTo, DropSign, IsInteger;
    var t := mantissa + [mark] + behind;
    assert t[..|mantissa|] == mantissa && t[|mantissa| + 1..] == behind;
  }

  lemma PlainMagnitude(mantissa: string)
    requires IsMantissa(mantissa) && ExponentMark(mantissa) == |mantissa|
    ensures IsNumber(mantissa) && Magnitude(mantissa) == MantissaValue(mantissa)
  {
    hide IsMantissa, MantissaValue, ExponentMark;
    assert mantissa[..|mantissa|] == mantissa;
  }

  /** A decimal number, with or without an exponent, reads as what it says. */
  lemma DecimalReads(whole: string, fraction: string, negative: bool, mark: char, down: bool, exponent: string)
    requires AllDigits(whole) && AllDigits(fraction) && whole + fraction != ""
    requires (mark == 'e' || mark == 'E') && AllDigits(exponent) && exponent != ""
    ensures var plain := SignText(negative) + (whole + "." + fraction);
            IsFloat(plain) && FloatValue(plain) == Some(Negated(DecimalValue(whole, fraction), negative))
    ensures var scaled := SignText(negative) + (whole + "." + fraction + [mark] + (SignText(down) + exponent));
            IsFloat(scaled) && FloatValue(scaled) == Some(Negated(ScientificValue(whole, fraction, down, exponent), negative))
  {
    hide IsMantissa, MantissaValue, IsFloat, FloatValue, NumberOf, TenTo, DecimalValue, ExponentMark, Magnitude, IsNumber,
      ExponentOf, IsInteger, DropSign;
    var mantissa, behind := whole + "." + fraction, SignText(down) + exponent;
    MantissaReads(whole, fraction);
    MarkBehind(mantissa, mark, behind);
    ExponentReads(down, exponent);
    PowerReads(mantissa, mark, behind);
    PlainMagnitude(mantissa);
    NumberReads(mantissa, negative);
    var t := mantissa + [mark] + behind;
    NumberReads(t, negative);
    assert Magnitude(t) == ScientificValue(whole, fraction, down, exponent);
  }
}
