/** convert_nmea_to_decimal: a degrees-and-minutes text such as "3437.54"
    together with a hemisphere letter becomes signed decimal degrees. For
    N and S the first two characters are the degrees, for every other
    letter the first three; the rest is the minutes. S and W negate.
    Values are exact reals: the binary floating point of float() and the
    final round(x, 6) are not part of this model. */
module Converter {
  import opened Text

  /** What the conversion gives back: None, a number of degrees, or the
      ValueError that int() or float() raises on text it cannot read. */
  datatype Conversion = NoValue | Degrees(value: real) | Raises

  /** Number of leading characters read as whole degrees. */
  function DegreeWidth(direction: char): nat
  {
    if direction == 'N' || direction == 'S' then 2 else 3
  }

  predicate Southern(direction: char) { direction == 'S' || direction == 'W' }

  /** Python's slice s[:n]. */
  function Take(s: string, n: nat): string { if n <= |s| then s[..n] else s }

  /** Python's slice s[n:]. */
  function Drop(s: string, n: nat): string { if n <= |s| then s[n..] else "" }

  /** Text float() reads as digits, one '.', digits, with at least one digit. */
  predicate PlainDecimal(t: string)
  {
    var k := IndexOf(t, '.');
    k < |t| && |t| >= 2 && AllDigits(t[..k]) && AllDigits(t[k + 1..])
  }

  /** The value of the digits after a decimal point. */
  function FractionValue(digits: string): (v: real)
    requires AllDigits(digits)
    ensures 0.0 <= v < 1.0
  {
    Ratio(DigitsValue(digits), Pow10(|digits|));
    DigitsValue(digits) as real / Pow10(|digits|) as real
  }

  lemma Ratio(a: nat, p: nat)
    requires a < p
    ensures 0.0 <= a as real / p as real < 1.0
  {
  }

  /** The value float() gives a plain decimal, computed exactly. */
  function DecimalValue(t: string): (v: real)
    requires PlainDecimal(t)
    ensures var whole := DigitsValue(t[..IndexOf(t, '.')]) as real;
      whole <= v < whole + 1.0
  {
    var k := IndexOf(t, '.');
    DigitsValue(t[..k]) as real + FractionValue(t[k + 1..])
  }

  function Convert(degreeStr: string, direction: char): (r: Conversion)
    ensures r.NoValue? <==> |degreeStr| == 0 || '.' !in degreeStr
    ensures r.Degrees? ==> |degreeStr| > DegreeWidth(direction)
    ensures r.Degrees? ==> AllDigits(degreeStr[..DegreeWidth(direction)])
  {
    if |degreeStr| == 0 || '.' !in degreeStr then NoValue
    else
      var width := DegreeWidth(direction);
      var degrees, minutes := Take(degreeStr, width), Drop(degreeStr, width);
      if |degrees| == 0 || !AllDigits(degrees) || !PlainDecimal(minutes) then Raises
      else
        var decimal := DigitsValue(degrees) as real + DecimalValue(minutes) / 60.0;
        Degrees(if Southern(direction) then -decimal else decimal)
  }

  function Negated(c: Conversion): Conversion
  {
    match c
    case Degrees(v) => Degrees(-v)
    case _ => c
  }

  /** Two letters with the same degree width, one negating and one not,
      give opposite results. */
  lemma Mirror(degreeStr: string, plus: char, minus: char)
    requires DegreeWidth(plus) == DegreeWidth(minus)
    requires !Southern(plus) && Southern(minus)
    ensures Convert(degreeStr, minus) == Negated(Convert(degreeStr, plus))
  {
  }

  /** S mirrors N and W mirrors E: same digits, opposite sign. */
  lemma SignSymmetry(degreeStr: string)
    ensures Convert(degreeStr, 'S') == Negated(Convert(degreeStr, 'N'))
    ensures Convert(degreeStr, 'W') == Negated(Convert(degreeStr, 'E'))
  {
    Mirror(degreeStr, 'N', 'S');
    Mirror(degreeStr, 'E', 'W');
  }

  /** N, E (and any letter other than S and W) never give a negative value; S and W never a positive one. */
  lemma Sign(degreeStr: string, direction: char)
    requires Convert(degreeStr, direction).Degrees?
    ensures !Southern(direction) ==> Convert(degreeStr, direction).value >= 0.0
    ensures Southern(direction) ==> Convert(degreeStr, direction).value <= 0.0
  {
  }

  /** Only the degree width depends on the letter: any letter other than N
      and S reads three degree digits, like E. */
  lemma OtherLettersReadAsEast(degreeStr: string, direction: char)
    requires direction != 'N' && direction != 'S' && direction != 'W'
    ensures Convert(degreeStr, direction) == Convert(degreeStr, 'E')
  {
  }

  /** When the minutes are below 60, the degree prefix is exactly the whole
      part of the result: a latitude is read with two degree digits and a
      longitude with three, never the other way round. */
  lemma WholeDegrees(degreeStr: string, direction: char)
    requires Convert(degreeStr, direction).Degrees?
    ensures var width := DegreeWidth(direction);
      var d := DigitsValue(degreeStr[..width]) as real;
      var m := DecimalValue(degreeStr[width..]);
      var v := Convert(degreeStr, direction).value;
      m < 60.0 ==> d <= (if Southern(direction) then -v else v) < d + 1.0
  {
  }

  lemma ShiftDigit(high: int, p: int, low: int, last: int)
    ensures 10 * (high * p + low) + last == high * (10 * p) + (10 * low + last)
  {
  }

  /** Reading a + b as one number: a shifted left by |b| digits, plus b. */
  lemma {:induction false} DigitsValueAppend(a: string, b: string)
    requires AllDigits(a) && AllDigits(b)
    ensures AllDigits(a + b)
    ensures DigitsValue(a + b) == DigitsValue(a) * Pow10(|b|) + DigitsValue(b)
    decreases |b|
  {
    if |b| == 0 {
      assert a + b == a;
    } else {
      var b' := b[..|b| - 1];
      var last := DigitValue(b[|b| - 1]);
      DigitsValueAppend(a, b');
      assert (a + b)[..|a + b| - 1] == a + b';
      assert DigitsValue(a + b) == 10 * DigitsValue(a + b') + last;
      assert DigitsValue(b) == 10 * DigitsValue(b') + last;
      assert Pow10(|b|) == 10 * Pow10(|b'|);
      ShiftDigit(DigitsValue(a), Pow10(|b'|), DigitsValue(b'), last);
    }
  }

  lemma TwoPlaceShape(units: string, fraction: string)
    requires AllDigits(units) && AllDigits(fraction) && |fraction| == 2
    ensures var m := units + "." + fraction;
      && IndexOf(m, '.') == |units|
      && m[..|units|] == units
      && m[|units| + 1..] == fraction
  {
    var m := units + "." + fraction;
    assert m[|units|] == '.';
  }

  /** A plain decimal with exactly two digits after its point. */
  lemma TwoPlaceDecimal(units: string, fraction: string)
    requires AllDigits(units) && AllDigits(fraction) && |fraction| == 2
    ensures PlainDecimal(units + "." + fraction)
    ensures DecimalValue(units + "." + fraction)
      == DigitsValue(units) as real + DigitsValue(fraction) as real / 100.0
  {
    TwoPlaceShape(units, fraction);
    Hundredth(fraction);
  }

  lemma Hundredth(fraction: string)
    requires AllDigits(fraction) && |fraction| == 2
    ensures FractionValue(fraction) == DigitsValue(fraction) as real / 100.0
  {
    assert Pow10(|fraction|) == 100;
  }

  /** The degree prefix and the minutes of whole + "." + fraction. */
  lemma MinutesText(whole: string, fraction: string, width: nat)
    requires |whole| >= width
    ensures var s := whole + "." + fraction;
      && '.' in s
      && Take(s, width) == whole[..width]
      && Drop(s, width) == whole[width..] + "." + fraction
  {
    var s := whole + "." + fraction;
    assert s[|whole|] == '.';
  }

  lemma AppendHundredths(units: string, fraction: string)
    requires AllDigits(units) && AllDigits(fraction) && |fraction| == 2
    ensures AllDigits(units + fraction)
    ensures DigitsValue(units + fraction) == 100 * DigitsValue(units) + DigitsValue(fraction)
  {
    DigitsValueAppend(units, fraction);
    assert Pow10(|fraction|) == 100 by {
      assert Pow10(2) == 10 * Pow10(1) && Pow10(1) == 10 * Pow10(0);
    }
  }

  lemma AllDigitsAppend(a: string, b: string)
    requires AllDigits(a) && AllDigits(b)
    ensures AllDigits(a + b)
  {
  }

  /** The exact value of whole + "." + fraction read with `width` degree
      digits: the degrees times 6000 plus the minutes in hundredths (the
      rest of the whole digits followed by the fraction digits), over 6000. */
  function SixThousandths(whole: string, fraction: string, width: nat): (v: real)
    requires AllDigits(whole) && AllDigits(fraction) && width <= |whole|
    ensures v >= 0.0
  {
    AllDigitsAppend(whole[width..], fraction);
    (6000 * DigitsValue(whole[..width]) + DigitsValue(whole[width..] + fraction)) as real / 6000.0
  }

  /** The conversion once its degree digits and its minutes are known to be readable. */
  lemma ConvertParts(degreeStr: string, direction: char, degrees: string, minutes: string)
    requires '.' in degreeStr
    requires Take(degreeStr, DegreeWidth(direction)) == degrees && Drop(degreeStr, DegreeWidth(direction)) == minutes
    requires |degrees| > 0 && AllDigits(degrees) && PlainDecimal(minutes)
    ensures var decimal := DigitsValue(degrees) as real + DecimalValue(minutes) / 60.0;
      Convert(degreeStr, direction) == Degrees(if Southern(direction) then -decimal else decimal)
  {
  }

  /** whole + "." + fraction converts to its degree digits plus its
      minutes, units and hundredths, over 60. */
  lemma {:induction false} TwoPlaceConvert(whole: string, fraction: string, direction: char)
    requires AllDigits(whole) && AllDigits(fraction)
    requires |fraction| == 2 && |whole| >= DegreeWidth(direction)
    ensures var width := DegreeWidth(direction);
      var decimal := DigitsValue(whole[..width]) as real
        + (DigitsValue(whole[width..]) as real + DigitsValue(fraction) as real / 100.0) / 60.0;
      Convert(whole + "." + fraction, direction) == Degrees(if Southern(direction) then -decimal else decimal)
  {
    var width := DegreeWidth(direction);
    MinutesText(whole, fraction, width);
    TwoPlaceDecimal(whole[width..], fraction);
    ConvertParts(whole + "." + fraction, direction, whole[..width], whole[width..] + "." + fraction);
  }

  /** A text of the shape the coordinate pattern produces, whole digits, '.',
      two digits, with at least as many whole digits as the letter's degree
      width, always converts, and to an exact multiple of 1/6000 degree. */
  lemma {:induction false} Hundredths(whole: string, fraction: string, direction: char)
    requires AllDigits(whole) && AllDigits(fraction)
    requires |fraction| == 2 && |whole| >= DegreeWidth(direction)
    ensures var exact := SixThousandths(whole, fraction, DegreeWidth(direction));
      Convert(whole + "." + fraction, direction) == Degrees(if Southern(direction) then -exact else exact)
  {
    SixThousandthsValue(whole, fraction, DegreeWidth(direction));
    TwoPlaceConvert(whole, fraction, direction);
  }

  /** The 1/6000 form equals degrees plus minutes (units and hundredths) over 60. */
  lemma SixThousandthsValue(whole: string, fraction: string, width: nat)
    requires AllDigits(whole) && AllDigits(fraction) && |fraction| == 2 && width <= |whole|
    ensures SixThousandths(whole, fraction, width) == DigitsValue(whole[..width]) as real
      + (DigitsValue(whole[width..]) as real + DigitsValue(fraction) as real / 100.0) / 60.0
  {
    var degrees := DigitsValue(whole[..width]);
    var mi := DigitsValue(whole[width..]) as real;
    var mf := DigitsValue(fraction) as real;
    AppendHundredths(whole[width..], fraction);
    var hundredths := DigitsValue(whole[width..] + fraction);
    assert hundredths as real == 100.0 * mi + mf;
    CastSum(degrees, hundredths);
    MinutesOverSixty(degrees as real, mi, mf);
  }

  lemma CastSum(x: nat, h: nat)
    ensures (6000 * x + h) as real == 6000.0 * x as real + h as real
  {
  }

  lemma MinutesOverSixty(d: real, mi: real, mf: real)
    ensures d + (mi + mf / 100.0) / 60.0 == (6000.0 * d + (100.0 * mi + mf)) / 6000.0
  {
  }
}
