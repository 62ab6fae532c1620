/** The degree-minute to decimal-degree conversion of a GGA coordinate field.
    A field reads `DDMM.MMMM` (latitude) or `DDDMM.MMMM` (longitude): the
    first two or three characters are whole degrees, the rest are minutes.
    Numbers are exact reals read from digit strings. */
module Coordinates {
  import opened Text

  predicate IsDigit(c: char)
  {
    '0' <= c <= '9'
  }

  predicate AllDigits(s: string)
  {
    forall i :: 0 <= i < |s| ==> IsDigit(s[i])
  }

  function Pow10(n: nat): (p: nat)
    ensures p >= 1
  {
    if n == 0 then 1 else 10 * Pow10(n - 1)
  }

  /** Value of a string of decimal digits, most significant first; it has
      fewer digits than `|s|` allows. */
  function DigitsValue(s: string): (v: nat)
    requires AllDigits(s)
    ensures v < Pow10(|s|)
  {
    if s == [] then 0 else DigitsValue(s[..|s| - 1]) * 10 + (s[|s| - 1] as int - '0' as int)
  }

  /** The texts the model reads as numbers: digits with at most one point
      and at least one digit (`"07.038"`, `"48"`, `"5."`, `".5"`). */
  predicate IsDecimal(s: string)
  {
    if '.' in s then
      var k := IndexOf(s, '.');
      |s| >= 2 && AllDigits(s[..k]) && AllDigits(s[k + 1..])
    else
      |s| >= 1 && AllDigits(s)
  }

  /** `float(s)` on a text of that form, as an exact real. */
  function DecimalValue(s: string): (v: real)
    requires IsDecimal(s)
    ensures v >= 0.0
  {
    if '.' in s then
      var k := IndexOf(s, '.');
      DigitsValue(s[..k]) as real + DigitsValue(s[k + 1..]) as real / Pow10(|s| - k - 1) as real
    else
      DigitsValue(s) as real
  }

  /** `s[:n]` */
  function Head(s: string, n: nat): string
  {
    if n <= |s| then s[..n] else s
  }

  /** `s[n:]` */
  function Tail(s: string, n: nat): string
  {
    if n <= |s| then s[n..] else []
  }

  /** The field splits into a degree part and a minute part that `float`
      accepts; otherwise the conversion raises and the program stops. */
  predicate Convertible(raw: string, degreeDigits: nat)
  {
    IsDecimal(Head(raw, degreeDigits)) && IsDecimal(Tail(raw, degreeDigits))
  }

  /** Decimal degrees of a coordinate field: degrees plus minutes over 60,
      negated when the hemisphere field is exactly `negative` (`"S"` for
      latitude, `"W"` for longitude); any other hemisphere text, including
      an empty or lower-case one, leaves the value positive. */
  function ToDecimalDegrees(raw: string, hemisphere: string, degreeDigits: nat, negative: string): (dd: real)
    requires Convertible(raw, degreeDigits)
    ensures hemisphere == negative ==> dd <= 0.0
    ensures hemisphere != negative ==> dd >= 0.0
  {
    var magnitude := DecimalValue(Head(raw, degreeDigits)) + DecimalValue(Tail(raw, degreeDigits)) / 60.0;
    if hemisphere == negative then -magnitude else magnitude
  }

  /** For every field `float` accepts, the negative hemisphere gives
      exactly the negation of what any other hemisphere text gives. */
  lemma HemisphereFlipsSign(raw: string, hemisphere: string, degreeDigits: nat, negative: string)
    requires Convertible(raw, degreeDigits) && hemisphere != negative
    ensures ToDecimalDegrees(raw, negative, degreeDigits, negative) == -ToDecimalDegrees(raw, hemisphere, degreeDigits, negative)
  {
  }

  /** Writes `n` with exactly `width` digits, zero-padded on the left. */
  function Pad(n: nat, width: nat): (s: string)
    ensures |s| == width && AllDigits(s)
  {
    if width == 0 then [] else Pad(n / 10, width - 1) + [('0' as int + n % 10) as char]
  }

  lemma {:induction false} PadValue(n: nat, width: nat)
    requires n < Pow10(width)
    ensures DigitsValue(Pad(n, width)) == n
  {
    if width > 0 {
      var s := Pad(n, width);
      assert s[..|s| - 1] == Pad(n / 10, width - 1);
      PadValue(n / 10, width - 1);
    }
  }

  /** How a receiver encodes an angle: `degrees` in `degreeDigits` digits,
      whole minutes in two digits, a point, then `fraction` written with
      `fractionDigits` digits (so the minutes are
      `minutes + fraction / 10^fractionDigits`). */
  function EncodeDegreesMinutes(degrees: nat, degreeDigits: nat, minutes: nat, fraction: nat, fractionDigits: nat): string
  {
    Pad(degrees, degreeDigits) + Pad(minutes, 2) + "." + Pad(fraction, fractionDigits)
  }

  lemma NoPointInDigits(s: string)
    requires AllDigits(s)
    ensures '.' !in s
  {
  }

  lemma DecimalOfDigits(s: string)
    requires AllDigits(s) && |s| >= 1
    ensures IsDecimal(s) && DecimalValue(s) == DigitsValue(s) as real
  {
    NoPointInDigits(s);
  }

  /** A digit string, a point and a digit string read as the whole part
      plus the fraction over its power of ten. */
  lemma DecimalOfParts(whole: string, fraction: string)
    requires AllDigits(whole) && AllDigits(fraction) && |whole| + |fraction| >= 1
    ensures IsDecimal(whole + "." + fraction)
    ensures DecimalValue(whole + "." + fraction)
         == DigitsValue(whole) as real + DigitsValue(fraction) as real / Pow10(|fraction|) as real
  {
    NoPointInDigits(whole);
    IndexOfAfter(whole, '.', fraction);
    var s := whole + "." + fraction;
    assert s == whole + ['.'] + fraction;
    assert s[..|whole|] == whole;
    assert s[|whole| + 1..] == fraction;
  }

  lemma EncodedParts(d: string, m: string, f: string)
    ensures Head(d + m + "." + f, |d|) == d
    ensures Tail(d + m + "." + f, |d|) == m + "." + f
  {
    assert d + m + "." + f == d + (m + "." + f);
  }

  /** The angle a receiver encodes: degrees plus minutes over 60. */
  function Angle(degrees: nat, minutes: nat, fraction: nat, fractionDigits: nat): real
  {
    degrees as real + (minutes as real + fraction as real / Pow10(fractionDigits) as real) / 60.0
  }

  /** Reading back what a receiver wrote: converting an encoded angle gives
      its degrees plus its minutes over 60, with the sign of the hemisphere. */
  lemma {:induction false} ConvertEncoded(degrees: nat, degreeDigits: nat, minutes: nat, fraction: nat, fractionDigits: nat,
                                          hemisphere: string, negative: string)
    requires 1 <= degreeDigits && degrees < Pow10(degreeDigits)
    requires minutes < 100 && fraction < Pow10(fractionDigits)
    ensures Convertible(EncodeDegreesMinutes(degrees, degreeDigits, minutes, fraction, fractionDigits), degreeDigits)
    ensures ToDecimalDegrees(EncodeDegreesMinutes(degrees, degreeDigits, minutes, fraction, fractionDigits), hemisphere, degreeDigits, negative)
         == if hemisphere == negative then -Angle(degrees, minutes, fraction, fractionDigits)
            else Angle(degrees, minutes, fraction, fractionDigits)
  {
    EncodedDegrees(degrees, degreeDigits, minutes, fraction, fractionDigits);
    EncodedMinutes(degrees, degreeDigits, minutes, fraction, fractionDigits);
  }

  /** The degree part of an encoded angle reads as its degrees. */
  lemma EncodedDegrees(degrees: nat, degreeDigits: nat, minutes: nat, fraction: nat, fractionDigits: nat)
    requires 1 <= degreeDigits && degrees < Pow10(degreeDigits)
    ensures var raw := EncodeDegreesMinutes(degrees, degreeDigits, minutes, fraction, fractionDigits);
      IsDecimal(Head(raw, degreeDigits)) && DecimalValue(Head(raw, degreeDigits)) == degrees as real
  {
    var d := Pad(degrees, degreeDigits);
    EncodedParts(d, Pad(minutes, 2), Pad(fraction, fractionDigits));
    PadValue(degrees, degreeDigits);
    DecimalOfDigits(d);
  }

  /** The minute part of an encoded angle reads as its minutes. */
  lemma EncodedMinutes(degrees: nat, degreeDigits: nat, minutes: nat, fraction: nat, fractionDigits: nat)
    requires minutes < 100 && fraction < Pow10(fractionDigits)
    ensures var raw := EncodeDegreesMinutes(degrees, degreeDigits, minutes, fraction, fractionDigits);
      && IsDecimal(Tail(raw, degreeDigits))
      && DecimalValue(Tail(raw, degreeDigits)) == minutes as real + fraction as real / Pow10(fractionDigits) as real
  {
    var d := Pad(degrees, degreeDigits);
    var m := Pad(minutes, 2);
    var f := Pad(fraction, fractionDigits);
    EncodedParts(d, m, f);
    PadValue(minutes, 2);
    PadValue(fraction, fractionDigits);
    DecimalOfParts(m, f);
  }

  /** The textbook GGA latitude `4807.038,N` is 48.1173 degrees; with
      `S` it is negated. */
  lemma TextbookLatitude()
    ensures Convertible("4807.038", 2)
    ensures ToDecimalDegrees("4807.038", "N", 2, "S") == 48.1173
    ensures ToDecimalDegrees("4807.038", "S", 2, "S") == -48.1173
  {
    TextbookLatitudeField("4807.038");
  }

  lemma TextbookLatitudeField(raw: string)
    requires raw == "4807.038"
    ensures Convertible(raw, 2)
    ensures ToDecimalDegrees(raw, "N", 2, "S") == 48.1173
    ensures ToDecimalDegrees(raw, "S", 2, "S") == -48.1173
  {
    EncodedLiterals();
    ConvertEncoded(48, 2, 7, 38, 3, "N", "S");
    ConvertEncoded(48, 2, 7, 38, 3, "S", "S");
  }

  /** The textbook GGA longitude `01131.000,E` is 11 + 31/60 degrees; with
      `W` it is negated. */
  lemma TextbookLongitude()
    ensures Convertible("01131.000", 3)
    ensures ToDecimalDegrees("01131.000", "E", 3, "W") == 11.0 + 31.0 / 60.0
    ensures ToDecimalDegrees("01131.000", "W", 3, "W") == -(11.0 + 31.0 / 60.0)
  {
    TextbookLongitudeField("01131.000");
  }

  lemma TextbookLongitudeField(raw: string)
    requires raw == "01131.000"
    ensures Convertible(raw, 3)
    ensures ToDecimalDegrees(raw, "E", 3, "W") == 11.0 + 31.0 / 60.0
    ensures ToDecimalDegrees(raw, "W", 3, "W") == -(11.0 + 31.0 / 60.0)
  {
    EncodedLiterals();
    ConvertEncoded(11, 3, 31, 0, 3, "E", "W");
    ConvertEncoded(11, 3, 31, 0, 3, "W", "W");
  }

  /** Nothing bounds the result to a real latitude: `9960.000` converts
      to 100 degrees. */
  lemma LatitudeNotRangeChecked()
    ensures Convertible("9960.000", 2) && ToDecimalDegrees("9960.000", "N", 2, "S") == 100.0
  {
    LatitudeNotRangeCheckedField("9960.000");
  }

  lemma LatitudeNotRangeCheckedField(raw: string)
    requires raw == "9960.000"
    ensures Convertible(raw, 2) && ToDecimalDegrees(raw, "N", 2, "S") == 100.0
  {
    EncodedLiterals();
    ConvertEncoded(99, 2, 60, 0, 3, "N", "S");
  }

  /** The encodings and angles of the three fields above. */
  lemma EncodedLiterals()
    ensures EncodeDegreesMinutes(48, 2, 7, 38, 3) == "4807.038" && Angle(48, 7, 38, 3) == 48.1173
    ensures EncodeDegreesMinutes(11, 3, 31, 0, 3) == "01131.000" && Angle(11, 31, 0, 3) == 11.0 + 31.0 / 60.0
    ensures EncodeDegreesMinutes(99, 2, 60, 0, 3) == "9960.000" && Angle(99, 60, 0, 3) == 100.0
  {
    Pow10Three();
    LiteralAngles();
    LatitudeLiteral();
    LongitudeLiteral();
    OutOfRangeLiteral();
  }

  lemma LatitudeLiteral()
    ensures EncodeDegreesMinutes(48, 2, 7, 38, 3) == "4807.038"
  {
    PadLiterals();
  }

  lemma LongitudeLiteral()
    ensures EncodeDegreesMinutes(11, 3, 31, 0, 3) == "01131.000"
  {
    PadLiterals();
  }

  lemma OutOfRangeLiteral()
    ensures EncodeDegreesMinutes(99, 2, 60, 0, 3) == "9960.000"
  {
    PadLiterals();
  }

  lemma PadLiterals()
    ensures Pad(48, 2) == "48" && Pad(7, 2) == "07" && Pad(38, 3) == "038"
    ensures Pad(11, 3) == "011" && Pad(31, 2) == "31" && Pad(0, 3) == "000"
    ensures Pad(99, 2) == "99" && Pad(60, 2) == "60"
  {
    SingleDigits();
    assert Pad(3, 2) == "03";
    assert Pad(1, 2) == "01";
    assert Pad(0, 2) == "00";
  }

  lemma SingleDigits()
    ensures Pad(0, 1) == "0" && Pad(1, 1) == "1" && Pad(3, 1) == "3" && Pad(4, 1) == "4"
    ensures Pad(6, 1) == "6" && Pad(9, 1) == "9"
  {
  }

  lemma LiteralAngles()
    requires Pow10(3) == 1000
    ensures Angle(48, 7, 38, 3) == 48.1173
    ensures Angle(11, 31, 0, 3) == 11.0 + 31.0 / 60.0
    ensures Angle(99, 60, 0, 3) == 100.0
  {
  }

  lemma Pow10Three()
    ensures Pow10(3) == 1000
  {
    assert Pow10(2) == 100 by { assert Pow10(1) == 10; }
  }
}
