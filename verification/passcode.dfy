/** The APRS-IS passcode: a 15-bit hash of the base callsign that an APRS-IS
    server checks before it accepts packets from a client. */
module Passcode {

  import opened Wrappers
  import Text
  import Decimal

  /** Initial value of the hash accumulator. */
  const Seed: bv32 := 0x73E2
  /** The result keeps the low 15 bits. */
  const Mask: bv32 := 0x7FFF

  /** The callsign with its `-SSID` suffix removed, surrounding white space
      stripped and ASCII letters capitalised. */
  function BaseCallsign(callsign: string): (r: string)
    ensures '-' !in r
    ensures Text.Trimmed(r)
    ensures forall i :: 0 <= i < |r| ==> !('a' <= r[i] <= 'z')
  {
    if callsign == [] then []
    else
      var stripped := Text.Strip(Text.BeforeFirst(callsign, '-'));
      Text.UpperTrimmed(stripped);
      Text.Upper(stripped)
  }

  /** The code point of a character. Python's `ord` is below 0x110000, so it
      and 256 times it fit in 32 bits: the bit-vector arithmetic below loses
      nothing against Python's unbounded integers. */
  function Code(c: char): bv32 {
    c as bv32
  }

  /** What the character at index `i` contributes: its code shifted left by
      8 bits at an even index, the code itself at an odd index. */
  function Term(i: nat, c: char): bv32 {
    if i % 2 == 0 then Code(c) << 8 else Code(c)
  }

  /** One pass of the hash loop body. */
  function Mix(h: bv32, i: nat, c: char): bv32 {
    h ^ Term(i, c)
  }

  /** The loop `for i, ch in enumerate(cs)` from index `i` on, with the
      accumulator `h` and the loop body `step`. */
  function Fold<T>(step: (T, nat, char) -> T, h: T, cs: string, i: nat): T
    requires i <= |cs|
    decreases |cs| - i
  {
    if i == |cs| then h else Fold(step, step(h, i, cs[i]), cs, i + 1)
  }

  /** The whole hash loop over `cs`, before masking; with no characters the
      loop leaves the seed. */
  function Hash(cs: string): (h: bv32)
    ensures cs == [] ==> h == Seed
  {
    Fold(Mix, Seed, cs, 0)
  }

  /** `compute_passcode`: always a 15-bit number, the bare seed for a
      callsign that has no base. */
  function ComputePasscode(callsign: string): (r: nat)
    ensures r <= 32767
    ensures BaseCallsign(callsign) == [] ==> r == 29666
  {
    var base := BaseCallsign(callsign);
    assert Low15(Seed) == 29666;
    Low15(Hash(base))
  }

  /** `h & 0x7FFF` as a number, so at most 32767. */
  function Low15(h: bv32): (r: nat)
    ensures r <= 32767
  {
    ((h & Mask) as bv15) as int
  }

  /** `verify_passcode`: true exactly when the text reads as an integer and
      that integer is the callsign's passcode; text that is not a number
      gives false rather than an error. */
  function VerifyPasscode(callsign: string, passcode: string): (ok: bool)
    ensures ok <==> Decimal.ParseInt(passcode) == Some(ComputePasscode(callsign))
    ensures Decimal.ParseInt(passcode) == None ==> !ok
  {
    match Decimal.ParseInt(passcode)
    case None => false
    case Some(n) => n == ComputePasscode(callsign)
  }

  /** The hash runs one step per character, in order: appending a character
      changes the accumulator by exactly that character's XOR term. */
  lemma HashAppend(cs: string, c: char)
    ensures Hash(cs + [c]) == Hash(cs) ^ Term(|cs|, c)
  {
    FoldAppend(Mix, Seed, cs, c, 0);
  }

  /** Running the loop over one more character is one more loop body. */
  lemma {:induction false} FoldAppend<T>(step: (T, nat, char) -> T, h: T, cs: string, c: char, i: nat)
    requires i <= |cs|
    ensures Fold(step, h, cs + [c], i) == step(Fold(step, h, cs, i), |cs|, c)
    decreases |cs| - i
  {
    var ext := cs + [c];
    if i == |cs| {
      assert ext[i] == c;
    } else {
      assert ext[i] == cs[i];
      FoldAppend(step, step(h, i, cs[i]), cs, c, i + 1);
    }
  }

  /** The base of a base callsign is itself. */
  lemma BaseIdempotent(callsign: string)
    ensures BaseCallsign(BaseCallsign(callsign)) == BaseCallsign(callsign)
  {
    var b := BaseCallsign(callsign);
    if b != [] {
      var stripped := Text.Strip(Text.BeforeFirst(callsign, '-'));
      assert b == Text.Upper(stripped);
      Text.BeforeFirstNone(b, '-');
      Text.StripTrimmed(b);
      assert Text.Strip(Text.BeforeFirst(b, '-')) == b;
      Text.UpperIdempotent(stripped);
    }
  }

  /** Only the base callsign counts. */
  lemma PasscodeOfBase(callsign: string)
    ensures ComputePasscode(BaseCallsign(callsign)) == ComputePasscode(callsign)
  {
    BaseIdempotent(callsign);
  }

  /** White space around the callsign and any `-SSID` suffix leave the
      passcode unchanged: `" n0call -9"` and `"N0CALL"` share one passcode. */
  lemma PasscodeIgnoresSsidAndPadding(lead: string, call: string, trail: string, ssid: string)
    requires Text.AllSpace(lead) && Text.AllSpace(trail)
    requires '-' !in call
    ensures ComputePasscode(lead + call + trail + "-" + ssid) == ComputePasscode(call)
    ensures ComputePasscode(lead + call + trail) == ComputePasscode(call)
  {
    var padded := lead + call + trail;
    assert '-' !in lead && '-' !in trail;
    assert '-' !in padded;
    Text.BeforeFirstJoin(padded, '-', ssid);
    assert padded + "-" + ssid == padded + ['-'] + ssid;
    Text.BeforeFirstNone(padded, '-');
    Text.BeforeFirstNone(call, '-');
    Text.StripPadded(lead, call, trail);
    if call == [] {
      assert BaseCallsign(call) == [];
    }
  }

  /** Upper and lower case give the same passcode. */
  lemma PasscodeIgnoresCase(a: string, b: string)
    requires Text.Upper(a) == Text.Upper(b)
    ensures ComputePasscode(a) == ComputePasscode(b)
  {
    BaseOfUpper(a);
    BaseOfUpper(b);
  }

  lemma BaseOfUpper(callsign: string)
    ensures BaseCallsign(Text.Upper(callsign)) == BaseCallsign(callsign)
  {
    if callsign != [] {
      var part := Text.BeforeFirst(callsign, '-');
      assert Text.Upper(callsign) != [];
      calc {
        BaseCallsign(Text.Upper(callsign));
        Text.Upper(Text.Strip(Text.BeforeFirst(Text.Upper(callsign), '-')));
      == { Text.UpperBeforeFirst(callsign, '-'); }
        Text.Upper(Text.Strip(Text.Upper(part)));
      == { Text.UpperStrip(part); }
        Text.Upper(Text.Upper(Text.Strip(part)));
      == { Text.UpperIdempotent(Text.Strip(part)); }
        Text.Upper(Text.Strip(part));
        BaseCallsign(callsign);
      }
    }
  }

  /** The passcode written out as `str()` does, with or without leading
      zeros, verifies for the callsign and for every SSID of it, as long as
      the text stays within `int()`'s digit limit. */
  lemma VerifyAcceptsPasscode(callsign: string, zeros: nat)
    requires zeros + |Decimal.Format(ComputePasscode(callsign))| <= Decimal.MaxStrDigits
    ensures VerifyPasscode(callsign, Decimal.Zeros(zeros) + Decimal.Format(ComputePasscode(callsign)))
  {
    Decimal.ParseFormatted(zeros, ComputePasscode(callsign));
  }

  /** A passcode takes at most five digits. */
  lemma PasscodeDigits(callsign: string)
    ensures |Decimal.Format(ComputePasscode(callsign))| <= 5
  {
    assert Decimal.Pow10(5) == 100000 by {
      assert Decimal.Pow10(2) == 100;
    }
    Decimal.FormatFits(ComputePasscode(callsign), 5);
  }

  /** Past the digit limit even the right number is refused: `int()`
      raises, and `verify_passcode` answers false. */
  lemma VerifyRejectsLong(callsign: string, passcode: string)
    requires Decimal.AllDigits(passcode) && |passcode| > Decimal.MaxStrDigits
    ensures !VerifyPasscode(callsign, passcode)
  {
    Decimal.TooManyDigits(passcode);
  }

  /** Every passcode text that verifies denotes the one passcode of the
      callsign, so at most one number is accepted per base callsign. */
  lemma VerifyUnique(callsign: string, p: string, q: string)
    requires VerifyPasscode(callsign, p) && VerifyPasscode(callsign, q)
    ensures Decimal.ParseInt(p) == Decimal.ParseInt(q)
  {
  }

  /** Reference values: the seed alone for no callsign, and the well-known
      passcode 13023 of N0CALL, also behind an SSID and in lower case. */
  lemma KnownPasscodes()
    ensures ComputePasscode("") == 29666
    ensures ComputePasscode("n0call-9") == 13023
  {
    BaseOfExample();
    HashOfExample();
  }

  lemma BaseOfExample()
    ensures BaseCallsign("n0call-9") == "N0CALL"
  {
    Text.BeforeFirstJoin("n0call", '-', "9");
    assert "n0call" + ['-'] + "9" == "n0call-9";
    Text.StripTrimmed("n0call");
    UpperOfExample();
  }

  lemma UpperOfExample()
    ensures Text.Upper("n0call") == "N0CALL"
  {
    var u := Text.Upper("n0call");
    assert Text.UpperChar('n') == 'N' && Text.UpperChar('c') == 'C';
    assert Text.UpperChar('a') == 'A' && Text.UpperChar('l') == 'L';
    assert u[0] == 'N' && u[1] == '0' && u[2] == 'C' && u[3] == 'A' && u[4] == 'L' && u[5] == 'L';
  }

  lemma HashOfExample()
    ensures Hash("N0CALL") & Mask == 13023
  {
    var cs := "N0CALL";
    CodeOf('N', 0x4E);
    CodeOf('0', 0x30);
    CodeOf('C', 0x43);
    CodeOf('A', 0x41);
    CodeOf('L', 0x4C);
    assert Fold(Mix, Seed, cs, 0) == Fold(Mix, 0x3DE2, cs, 1);
    assert Fold(Mix, 0x3DE2, cs, 1) == Fold(Mix, 0x3DD2, cs, 2);
    assert Fold(Mix, 0x3DD2, cs, 2) == Fold(Mix, 0x7ED2, cs, 3);
    assert Fold(Mix, 0x7ED2, cs, 3) == Fold(Mix, 0x7E93, cs, 4);
    assert Fold(Mix, 0x7E93, cs, 4) == Fold(Mix, 0x3293, cs, 5);
    assert Fold(Mix, 0x3293, cs, 5) == Fold(Mix, 0x32DF, cs, 6);
  }

  /** The code of one ASCII character of the example. */
  lemma CodeOf(c: char, code: bv32)
    requires c as int == code as int
    ensures Code(c) == code
  {
  }
}
