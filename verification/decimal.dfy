/** Decimal text: Python's `str(n)` for a non-negative integer, the
    zero-padded `{n:0Wd}` format field, and `int(text)`. */
module Decimal {

  import opened Wrappers
  import Text

  predicate IsDigit(c: char) {
    '0' <= c <= '9'
  }

  predicate AllDigits(s: string) {
    forall i :: 0 <= i < |s| ==> IsDigit(s[i])
  }

  function DigitChar(d: nat): (c: char)
    requires d < 10
    ensures IsDigit(c) && c as int - '0' as int == d
  {
    ('0' as int + d) as char
  }

  /** The number a string of decimal digits denotes, leading zeros allowed. */
  function Value(s: string): nat
    requires AllDigits(s)
  {
    if s == [] then 0 else 10 * Value(s[..|s| - 1]) + (s[|s| - 1] as int - '0' as int)
  }

  function Pow10(k: nat): (p: nat)
    ensures p >= 1
  {
    if k == 0 then 1 else 10 * Pow10(k - 1)
  }

  /** `str(n)`: the shortest decimal digits that denote `n`; there is no
      leading zero except in "0" itself. */
  function Format(n: nat): (r: string)
    ensures |r| >= 1 && AllDigits(r)
    ensures Value(r) == n
    ensures r[0] == '0' ==> r == "0"
  {
    if n < 10 then [DigitChar(n)]
    else
      var r := Format(n / 10) + [DigitChar(n % 10)];
      assert r[..|r| - 1] == Format(n / 10);
      r
  }

  function Zeros(k: nat): (r: string)
    ensures |r| == k && AllDigits(r)
    ensures forall i :: 0 <= i < k ==> r[i] == '0'
  {
    seq(k, _ => '0')
  }

  /** The format field `{n:0Wd}`: `str(n)` left-padded with zeros to at
      least `width` characters and never cut. */
  function PadZero(n: nat, width: nat): (r: string)
    ensures AllDigits(r) && Value(r) == n
    ensures |r| == if |Format(n)| < width then width else |Format(n)|
  {
    var digits := Format(n);
    if |digits| < width then
      ZerosPrefix(width - |digits|, digits);
      Zeros(width - |digits|) + digits
    else
      digits
  }

  /** A number below 10^width fills exactly `width` characters. */
  lemma PadZeroWidth(n: nat, width: nat)
    requires 1 <= width && n < Pow10(width)
    ensures |PadZero(n, width)| == width
  {
    FormatFits(n, width);
  }

  /** Leading zeros do not change the value. */
  lemma {:induction false} ZerosPrefix(k: nat, s: string)
    requires AllDigits(s)
    ensures AllDigits(Zeros(k) + s) && Value(Zeros(k) + s) == Value(s)
    decreases |s|
  {
    if s == [] {
      assert Zeros(k) + s == Zeros(k);
      ZerosValue(k);
    } else {
      var t := Zeros(k) + s;
      assert t[..|t| - 1] == Zeros(k) + s[..|s| - 1];
      ZerosPrefix(k, s[..|s| - 1]);
    }
  }

  lemma {:induction false} ZerosValue(k: nat)
    ensures Value(Zeros(k)) == 0
  {
    if k > 0 {
      assert Zeros(k)[..k - 1] == Zeros(k - 1);
      ZerosValue(k - 1);
    }
  }

  lemma {:induction false} PowMonotone(a: nat, b: nat)
    requires a <= b
    ensures Pow10(a) <= Pow10(b)
    decreases b
  {
    if a < b {
      PowMonotone(a, b - 1);
    }
  }

  /** `str(n)` has k digits exactly when 10^(k-1) <= n < 10^k. */
  lemma {:induction false} FormatMagnitude(n: nat)
    ensures n < Pow10(|Format(n)|)
    ensures |Format(n)| > 1 ==> Pow10(|Format(n)| - 1) <= n
  {
    if n >= 10 {
      FormatMagnitude(n / 10);
      assert |Format(n)| == |Format(n / 10)| + 1;
    }
  }

  /** A number below 10^width needs at most `width` digits. */
  lemma FormatFits(n: nat, width: nat)
    requires 1 <= width && n < Pow10(width)
    ensures |Format(n)| <= width
  {
    FormatMagnitude(n);
    if |Format(n)| > width {
      PowMonotone(width, |Format(n)| - 1);
    }
  }

  /** CPython's default limit on decimal digits (`sys.get_int_max_str_digits()`):
      `int()` of a text with more digits, leading zeros included, raises
      `ValueError`, and `str()` of a number that needs more raises too. */
  const MaxStrDigits := 4300

  function Abs(x: int): nat {
    if x < 0 then -x else x
  }

  /** `int(text)` for base-10 text: the white space `int()` skips is
      ignored at both ends, then an optional `+` or `-` sign and one or more
      ASCII digits, at most `MaxStrDigits` of them; anything else is not a
      number (`None`, where Python raises `ValueError`). Whatever is read
      can be written back by `str()`. */
  function ParseInt(text: string): (r: Option<int>)
    ensures r.Some? <==> Numeral(Text.IntStrip(text))
    ensures Text.IntStrip(text) == [] ==> r == None
    ensures r.Some? && IsDigit(Text.IntStrip(text)[0]) ==> r.value >= 0
    ensures r.Some? ==> |Format(Abs(r.value))| <= MaxStrDigits
  {
    ParseStripped(Text.IntStrip(text))
  }

  /** Text `int()` accepts once stripped: digits, or a sign and at least one
      digit, with no more than `MaxStrDigits` digits. */
  predicate Numeral(t: string) {
    && |t| > 0 && AllDigits(t[1..])
    && (IsDigit(t[0]) || (|t| > 1 && (t[0] == '-' || t[0] == '+')))
    && (if IsDigit(t[0]) then |t| else |t| - 1) <= MaxStrDigits
  }

  /** The reading of the text once white space is stripped. */
  function ParseStripped(t: string): (r: Option<int>)
    ensures r.Some? <==> Numeral(t)
    ensures r.Some? && IsDigit(t[0]) ==> r.value >= 0
    ensures r.Some? ==> |Format(Abs(r.value))| <= MaxStrDigits
  {
    if |t| > 1 && (t[0] == '-' || t[0] == '+') && AllDigits(t[1..]) then
      if |t| - 1 > MaxStrDigits then None
      else
        var magnitude: int := Value(t[1..]);
        DigitsFit(t[1..]);
        Some(if t[0] == '-' then -magnitude else magnitude)
    else if |t| > 0 && AllDigits(t) then
      if |t| > MaxStrDigits then None
      else
        DigitsFit(t);
        Some(Value(t))
    else
      None
  }

  /** `k` digits denote less than `10^k`. */
  lemma {:induction false} ValueBelow(s: string)
    requires AllDigits(s)
    ensures Value(s) < Pow10(|s|)
    decreases |s|
  {
    if s != [] {
      ValueBelow(s[..|s| - 1]);
    }
  }

  /** `str()` of a number never needs more digits than any text denoting it. */
  lemma DigitsFit(s: string)
    requires s != [] && AllDigits(s)
    ensures |Format(Value(s))| <= |s|
  {
    ValueBelow(s);
    FormatFits(Value(s), |s|);
  }

  /** More than `MaxStrDigits` digits are refused, however small the number
      they denote. */
  lemma TooManyDigits(s: string)
    requires AllDigits(s) && |s| > MaxStrDigits
    ensures ParseInt(s) == None
  {
    DigitsTrimmed(s);
  }

  /** The same with a sign in front. */
  lemma SignedTooManyDigits(sign: char, d: string)
    requires sign == '-' || sign == '+'
    requires AllDigits(d) && |d| > MaxStrDigits
    ensures ParseInt([sign] + d) == None
  {
    SignedTrimmed(sign, d);
    ParseOfTrimmed([sign] + d);
    assert ([sign] + d)[1..] == d;
  }

  /** `int(str(n)) == n`, also with leading zeros, within the digit limit. */
  lemma ParseFormatted(k: nat, n: nat)
    requires k + |Format(n)| <= MaxStrDigits
    ensures ParseInt(Zeros(k) + Format(n)) == Some(n)
  {
    var s := Zeros(k) + Format(n);
    ZerosPrefix(k, Format(n));
    ParseDigits(s);
  }

  /** A non-empty digit string is read as the number it denotes. */
  lemma ParseDigits(s: string)
    requires s != [] && AllDigits(s) && |s| <= MaxStrDigits
    ensures ParseInt(s) == Some(Value(s))
  {
    DigitsTrimmed(s);
    assert IsDigit(s[0]);
  }

  /** Digits are not white space, so a digit string is its own `strip()`,
      and `int()` has nothing to skip in it. */
  lemma DigitsTrimmed(s: string)
    requires AllDigits(s)
    ensures Text.Strip(s) == s && Text.IntStrip(s) == s
  {
    if s != [] {
      assert IsDigit(s[0]) && IsDigit(s[|s| - 1]);
      assert !Text.IsSpace(s[0]) && !Text.IsSpace(s[|s| - 1]);
    }
    Text.StripTrimmed(s);
    Text.IntStripTrimmed(s);
  }

  /** `int("-" + str(n)) == -n`. */
  lemma ParseNegative(n: nat)
    requires |Format(n)| <= MaxStrDigits
    ensures ParseInt("-" + Format(n)) == Some(-(n as int))
  {
    var d := Format(n);
    var t := ['-'] + d;
    assert "-" + d == t;
    assert ParseStripped(t) == Some(-(n as int)) by {
      ParseSigned('-', d);
    }
    assert ParseInt(t) == ParseStripped(t) by {
      SignedTrimmed('-', d);
      ParseOfTrimmed(t);
    }
  }

  /** A sign followed by digits has no white space at either end. */
  lemma SignedTrimmed(sign: char, d: string)
    requires sign == '-' || sign == '+'
    requires d != [] && AllDigits(d)
    ensures Text.Trimmed([sign] + d)
  {
    var t := [sign] + d;
    assert t[|t| - 1] == d[|d| - 1];
    assert IsDigit(d[|d| - 1]);
  }

  /** Text with nothing to strip is read as it stands. */
  lemma ParseOfTrimmed(t: string)
    requires Text.Trimmed(t)
    ensures ParseInt(t) == ParseStripped(t)
  {
    Text.IntStripTrimmed(t);
  }

  /** A sign followed by digits reads as the signed value of the digits. */
  lemma ParseSigned(sign: char, d: string)
    requires sign == '-' || sign == '+'
    requires d != [] && AllDigits(d) && |d| <= MaxStrDigits
    ensures ParseStripped([sign] + d) == Some(if sign == '-' then -(Value(d) as int) else Value(d))
  {
    var t := [sign] + d;
    assert t[1..] == d;
  }

  /** White space `int()` skips, around the number, is ignored. */
  lemma ParsePadded(lead: string, s: string, trail: string)
    requires Text.AllIntSpace(lead) && Text.AllIntSpace(trail)
    ensures ParseInt(lead + s + trail) == ParseInt(s)
  {
    Text.IntStripPadded(lead, s, trail);
  }

  /** A separator U+001C in front of the digits makes `int()` fail... */
  lemma SeparatorRejected()
    ensures ParseInt("\U{1C}5") == None
  {
    Text.SeparatorNotSkipped();
    NoLeadingDigit("\U{1C}5");
  }

  /** ...though `strip()` would have removed it, leaving a valid numeral. */
  lemma SeparatorStripped()
    ensures ParseInt(Text.Strip("\U{1C}5")) == Some(5)
  {
    calc {
      ParseInt(Text.Strip("\U{1C}5"));
    == { Text.SeparatorNotSkipped(); }
      ParseInt("5");
    == { ParseDigits("5"); }
      Some(Value("5"));
    == { assert "5"[..0] == []; }
      Some(5);
    }
  }

  /** Text that starts with neither a digit nor a sign is not a number. */
  lemma NoLeadingDigit(t: string)
    requires |t| > 0 && !IsDigit(t[0]) && t[0] != '-' && t[0] != '+'
    ensures ParseStripped(t) == None
  {
  }
}
