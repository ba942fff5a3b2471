/** `decimal_to_aprs`: a latitude or longitude as the fixed-width position
    field of an APRS position report, `ddmm.hhN` for latitude and
    `dddmm.hhE` for longitude (chapter 6 of the APRS Protocol Reference
    1.0.1). */
module Position {

  import opened Wrappers
  import Decimal

  datatype Axis = Latitude | Longitude

  /** What the floating-point part of `decimal_to_aprs` hands to the layout:
      whether the value failed the `value >= 0` test, the whole degrees of
      its magnitude, and its minutes rounded to hundredths (minutes * 100).
      The rounding is not guarded, so `hundredths` may reach 6000. */
  datatype Angle = Angle(negative: bool, degrees: nat, hundredths: nat)

  /** The degrees field is zero-padded to 2 digits for latitude, 3 for
      longitude. */
  function DegreeWidth(axis: Axis): nat {
    match axis
    case Latitude => 2
    case Longitude => 3
  }

  /** N or S for latitude, E or W for longitude. */
  function Hemisphere(axis: Axis, negative: bool): (d: char)
    ensures d == 'N' <==> axis == Latitude && !negative
    ensures d == 'S' <==> axis == Latitude && negative
    ensures d == 'E' <==> axis == Longitude && !negative
    ensures d == 'W' <==> axis == Longitude && negative
  {
    match axis
    case Latitude => if negative then 'S' else 'N'
    case Longitude => if negative then 'W' else 'E'
  }

  /** A position field from its parts: degrees, two digits of whole
      minutes, a point, two digits of hundredths of a minute, and the
      hemisphere letter. */
  function Field(deg: string, whole: string, frac: string, d: char): string {
    deg + whole + "." + frac + [d]
  }

  /** `decimal_to_aprs(value, is_latitude)`: degrees in `{:02d}` or
      `{:03d}`, minutes in `{:05.2f}`, then the hemisphere letter. */
  function Encode(a: Angle, axis: Axis): (r: string)
    ensures |r| >= DegreeWidth(axis) + 6
    ensures r[|r| - 1] == Hemisphere(axis, a.negative)
  {
    Field(Decimal.PadZero(a.degrees, DegreeWidth(axis)),
          Decimal.PadZero(a.hundredths / 100, 2),
          Decimal.PadZero(a.hundredths % 100, 2),
          Hemisphere(axis, a.negative))
  }

  /** Where each part of a field sits. */
  lemma FieldSlices(deg: string, whole: string, frac: string, d: char)
    requires |whole| == 2 && |frac| == 2
    ensures var s, w := Field(deg, whole, frac, d), |deg|;
      && |s| == w + 6
      && s[..w] == deg && s[w..w + 2] == whole && s[w + 2] == '.'
      && s[w + 3..w + 5] == frac && s[w + 5] == d
  {
  }

  /** A string of the field's width is the field of its own slices. */
  lemma FieldOfSlices(s: string, w: nat)
    requires |s| == w + 6 && s[w + 2] == '.'
    ensures Field(s[..w], s[w..w + 2], s[w + 3..w + 5], s[w + 5]) == s
  {
  }

  /** `s` spells angle `a` in the field layout: degrees in `DegreeWidth`
      digits, two digits of whole minutes, a point, two digits of
      hundredths, and the hemisphere letter last. */
  predicate Spells(s: string, a: Angle, axis: Axis) {
    var w := DegreeWidth(axis);
    && |s| == w + 6
    && Decimal.AllDigits(s[..w]) && Decimal.AllDigits(s[w..w + 2]) && Decimal.AllDigits(s[w + 3..w + 5])
    && s[w + 2] == '.' && s[w + 5] == Hemisphere(axis, a.negative)
    && Decimal.Value(s[..w]) == a.degrees
    && Decimal.Value(s[w + 3..w + 5]) < 100
    && 100 * Decimal.Value(s[w..w + 2]) + Decimal.Value(s[w + 3..w + 5]) == a.hundredths
  }

  /** The layout of an in-range field: every part spells its part of the
      angle. */
  lemma EncodeLayout(a: Angle, axis: Axis)
    requires a.degrees < Decimal.Pow10(DegreeWidth(axis)) && a.hundredths < 10000
    ensures Spells(Encode(a, axis), a, axis)
  {
    var w := DegreeWidth(axis);
    var x, y := a.hundredths / 100, a.hundredths % 100;
    PartWidths(a, axis);
    FieldSlices(Decimal.PadZero(a.degrees, w), Decimal.PadZero(x, 2), Decimal.PadZero(y, 2),
                Hemisphere(axis, a.negative));
  }

  /** In range, every part has its fixed width. */
  lemma PartWidths(a: Angle, axis: Axis)
    requires a.degrees < Decimal.Pow10(DegreeWidth(axis)) && a.hundredths < 10000
    ensures |Decimal.PadZero(a.degrees, DegreeWidth(axis))| == DegreeWidth(axis)
    ensures |Decimal.PadZero(a.hundredths / 100, 2)| == 2
    ensures |Decimal.PadZero(a.hundredths % 100, 2)| == 2
  {
    assert Decimal.Pow10(2) == 100;
    Decimal.PadZeroWidth(a.degrees, DegreeWidth(axis));
    Decimal.PadZeroWidth(a.hundredths / 100, 2);
    Decimal.PadZeroWidth(a.hundredths % 100, 2);
  }

  /** Reads a position field of exactly the width `Encode` writes for an
      in-range angle; anything else is `None`. */
  function Decode(s: string, axis: Axis): (r: Option<Angle>)
    ensures r.Some? ==> |s| == DegreeWidth(axis) + 6
  {
    var w := DegreeWidth(axis);
    if |s| != w + 6 then None
    else DecodeFields(s[..w], s[w..w + 2], s[w + 2], s[w + 3..w + 5], s[w + 5], axis)
  }

  /** The fields of a position, already cut at their fixed offsets. */
  function DecodeFields(deg: string, whole: string, point: char, frac: string, d: char, axis: Axis): Option<Angle> {
    if !Decimal.AllDigits(deg) || !Decimal.AllDigits(whole) || !Decimal.AllDigits(frac) || point != '.' then None
    else if d == Hemisphere(axis, false) then Some(Angle(false, Decimal.Value(deg), 100 * Decimal.Value(whole) + Decimal.Value(frac)))
    else if d == Hemisphere(axis, true) then Some(Angle(true, Decimal.Value(deg), 100 * Decimal.Value(whole) + Decimal.Value(frac)))
    else None
  }

  /** A field decodes back to the angle it encodes, whenever the degrees
      fit their width and the minutes field is five characters. */
  lemma DecodeEncode(a: Angle, axis: Axis)
    requires a.degrees < Decimal.Pow10(DegreeWidth(axis)) && a.hundredths < 10000
    ensures Decode(Encode(a, axis), axis) == Some(a)
  {
    var deg := Decimal.PadZero(a.degrees, DegreeWidth(axis));
    var whole := Decimal.PadZero(a.hundredths / 100, 2);
    var frac := Decimal.PadZero(a.hundredths % 100, 2);
    var d := Hemisphere(axis, a.negative);
    PartWidths(a, axis);
    FieldSlices(deg, whole, frac, d);
    assert Decode(Encode(a, axis), axis) == DecodeFields(deg, whole, '.', frac, d, axis);
    assert 100 * (a.hundredths / 100) + a.hundredths % 100 == a.hundredths;
  }

  /** `DecodeEncode` for any angle, as a statement about the angles within
      the layout. */
  lemma DecodeEncodeWithin(a: Angle, axis: Axis)
    ensures a.degrees < Decimal.Pow10(DegreeWidth(axis)) && a.hundredths < 10000 ==>
              Decode(Encode(a, axis), axis) == Some(a)
  {
    if a.degrees < Decimal.Pow10(DegreeWidth(axis)) && a.hundredths < 10000 {
      DecodeEncode(a, axis);
    }
  }

  /** Every field that decodes is exactly the encoding of what it decodes
      to: the layout has one spelling per angle. */
  lemma EncodeDecode(s: string, axis: Axis)
    requires Decode(s, axis).Some?
    ensures Encode(Decode(s, axis).value, axis) == s
  {
    var w := DegreeWidth(axis);
    var a := Decode(s, axis).value;
    DecodedParts(s, axis);
    EncodeParts(a, axis, s[..w], s[w..w + 2], s[w + 3..w + 5]);
    FieldOfSlices(s, w);
  }

  /** What a successful `Decode` read from each slice. */
  lemma DecodedParts(s: string, axis: Axis)
    requires Decode(s, axis).Some?
    ensures var w, a := DegreeWidth(axis), Decode(s, axis).value;
      && Decimal.AllDigits(s[..w]) && Decimal.AllDigits(s[w..w + 2]) && Decimal.AllDigits(s[w + 3..w + 5])
      && s[w + 2] == '.' && s[w + 5] == Hemisphere(axis, a.negative)
      && a.degrees == Decimal.Value(s[..w])
      && a.hundredths == 100 * Decimal.Value(s[w..w + 2]) + Decimal.Value(s[w + 3..w + 5])
      && Decimal.Value(s[w + 3..w + 5]) < 100
  {
    var w := DegreeWidth(axis);
    DigitsBound(s[w + 3..w + 5]);
    assert Decimal.Pow10(2) == 100;
  }

  lemma SplitHundredths(whole: nat, frac: nat)
    requires frac < 100
    ensures (100 * whole + frac) / 100 == whole && (100 * whole + frac) % 100 == frac
  {
  }

  lemma {:induction false} DigitsBound(s: string)
    requires Decimal.AllDigits(s)
    ensures Decimal.Value(s) < Decimal.Pow10(|s|)
    decreases |s|
  {
    if s != [] {
      DigitsBound(s[..|s| - 1]);
    }
  }

  /** A digit string of width `w` is the zero-padded form of its value at
      width `w`. */
  lemma {:induction false} PadOfDigits(s: string)
    requires Decimal.AllDigits(s) && |s| >= 1
    ensures Decimal.PadZero(Decimal.Value(s), |s|) == s
  {
    var n := Decimal.Value(s);
    DigitsBound(s);
    var p := Decimal.PadZero(n, |s|);
    Decimal.PadZeroWidth(n, |s|);
    DigitsInjective(p, s);
  }

  /** Two digit strings of one length with one value are equal. */
  lemma {:induction false} DigitsInjective(a: string, b: string)
    requires Decimal.AllDigits(a) && Decimal.AllDigits(b) && |a| == |b|
    requires Decimal.Value(a) == Decimal.Value(b)
    ensures a == b
    decreases |a|
  {
    if a != [] {
      var n := |a| - 1;
      var da := a[n] as int - '0' as int;
      var db := b[n] as int - '0' as int;
      assert Decimal.Value(a) == 10 * Decimal.Value(a[..n]) + da;
      assert Decimal.Value(b) == 10 * Decimal.Value(b[..n]) + db;
      assert da == db && Decimal.Value(a[..n]) == Decimal.Value(b[..n]);
      DigitsInjective(a[..n], b[..n]);
      assert a == a[..n] + [a[n]] && b == b[..n] + [b[n]];
    }
  }

  /** A signed angle held exactly, in hundredths of a minute of arc. The
      angle of such a value is what the floating-point part computes when
      no rounding is involved. */
  function FromHundredths(v: int): (a: Angle)
    ensures a.negative <==> v < 0
    ensures 6000 * a.degrees + a.hundredths == if v < 0 then -v else v
    ensures a.hundredths < 6000
  {
    var m := if v < 0 then -v else v;
    Angle(v < 0, m / 6000, m % 6000)
  }

  function ToHundredths(a: Angle): int {
    var m := 6000 * a.degrees + a.hundredths;
    if a.negative then -m else m
  }

  /** Within the ranges of latitude (90 degrees) and longitude (180
      degrees), the field has its fixed width and decodes back to the exact
      value: the encoding loses nothing at a resolution of a hundredth of a
      minute. */
  lemma RoundTrip(v: int, axis: Axis)
    requires -90 * 6000 <= v <= 90 * 6000 || (axis == Longitude && -180 * 6000 <= v <= 180 * 6000)
    ensures |Encode(FromHundredths(v), axis)| == DegreeWidth(axis) + 6
    ensures Decode(Encode(FromHundredths(v), axis), axis).Some?
    ensures ToHundredths(Decode(Encode(FromHundredths(v), axis), axis).value) == v
  {
    var a := FromHundredths(v);
    assert a.degrees <= 180;
    assert Decimal.Pow10(2) == 100 && Decimal.Pow10(3) == 1000;
    DecodeEncode(a, axis);
  }

  /** Reference encodings: the equator (the non-negative branch),
      41 degrees 7.40 minutes north, and 27 degrees 30 minutes west. */
  lemma ExampleEquator()
    ensures Encode(Angle(false, 0, 0), Latitude) == "0000.00N"
  {
    EncodeParts(Angle(false, 0, 0), Latitude, "00", "00", "00");
  }

  lemma ExampleNorth()
    ensures Encode(Angle(false, 41, 740), Latitude) == "4107.40N"
  {
    EncodeParts(Angle(false, 41, 740), Latitude, "41", "07", "40");
  }

  lemma ExampleWest()
    ensures Encode(Angle(true, 27, 3000), Longitude) == "02730.00W"
  {
    assert "027"[..2] == "02" && Decimal.Value("02") == 2;
    EncodeParts(Angle(true, 27, 3000), Longitude, "027", "30", "00");
  }

  /** The field of an angle whose parts are spelled by the given digits. */
  lemma EncodeParts(a: Angle, axis: Axis, deg: string, whole: string, frac: string)
    requires |deg| == DegreeWidth(axis) && |whole| == 2 && |frac| == 2
    requires Decimal.AllDigits(deg) && Decimal.AllDigits(whole) && Decimal.AllDigits(frac)
    requires Decimal.Value(deg) == a.degrees
    requires Decimal.Value(frac) < 100 && 100 * Decimal.Value(whole) + Decimal.Value(frac) == a.hundredths
    ensures Encode(a, axis) == Field(deg, whole, frac, Hemisphere(axis, a.negative))
  {
    SplitHundredths(Decimal.Value(whole), Decimal.Value(frac));
    assert Decimal.PadZero(a.degrees, DegreeWidth(axis)) == deg by { PadOfDigits(deg); }
    var x, y := a.hundredths / 100, a.hundredths % 100;
    assert x == Decimal.Value(whole) && y == Decimal.Value(frac);
    PadOfDigits(whole);
    PadOfDigits(frac);
    assert Decimal.PadZero(x, 2) == whole;
    assert Decimal.PadZero(y, 2) == frac;
  }
}
