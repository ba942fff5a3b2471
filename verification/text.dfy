/** The three string operations the callsign handling is built from:
    `str.strip()`, `str.upper()` and `str.split(sep)[0]`. */
module Text {

  /** The characters Python's `str.isspace()` accepts; `str.strip()` with no
      argument removes exactly these from both ends. */
  predicate IsSpace(c: char) {
    || c == ' '
    || ('\t' <= c <= '\r')
    || ('\U{1C}' <= c <= '\U{1F}')
    || c == '\U{85}' || c == '\U{A0}' || c == '\U{1680}'
    || ('\U{2000}' <= c <= '\U{200A}')
    || c == '\U{2028}' || c == '\U{2029}' || c == '\U{202F}' || c == '\U{205F}' || c == '\U{3000}'
  }

  /** Every character of `s` passes the white-space test `sp`. */
  predicate AllIn(sp: char -> bool, s: string) {
    forall i :: 0 <= i < |s| ==> sp(s[i])
  }

  /** No character passing `sp` at either end. */
  predicate TrimmedBy(sp: char -> bool, s: string) {
    s == [] || (!sp(s[0]) && !sp(s[|s| - 1]))
  }

  /** Drops leading white space of the class `sp`: what is removed is white
      space and what is kept is a suffix that does not start with any. */
  function TrimStart(sp: char -> bool, s: string): (r: string)
    ensures |r| <= |s| && r == s[|s| - |r|..]
    ensures AllIn(sp, s[..|s| - |r|])
    ensures r == [] || !sp(r[0])
  {
    if |s| > 0 && sp(s[0]) then
      var r := TrimStart(sp, s[1..]);
      SpaceFront(sp, s, r);
      r
    else s
  }

  /** Drops trailing white space of the class `sp`: what is removed is white
      space and what is kept is a prefix that does not end with any. */
  function TrimEnd(sp: char -> bool, s: string): (r: string)
    ensures |r| <= |s| && r == s[..|r|]
    ensures AllIn(sp, s[|r|..])
    ensures r == [] || !sp(r[|r| - 1])
  {
    if |s| > 0 && sp(s[|s| - 1]) then
      var r := TrimEnd(sp, s[..|s| - 1]);
      SpaceBack(sp, s, |r|);
      r
    else s
  }

  /** A white space in front extends a run of white space after it. */
  lemma SpaceFront(sp: char -> bool, s: string, r: string)
    requires |s| > 0 && sp(s[0]) && |r| < |s|
    requires r == s[1..][|s| - 1 - |r|..] && AllIn(sp, s[1..][..|s| - 1 - |r|])
    ensures r == s[|s| - |r|..] && AllIn(sp, s[..|s| - |r|])
  {
    var k := |s| - |r|;
    assert s[1..][k - 1..] == s[k..];
    assert s[..k] == [s[0]] + s[1..][..k - 1];
  }

  /** A white space at the end extends a run of white space before it. */
  lemma SpaceBack(sp: char -> bool, s: string, k: nat)
    requires k < |s| && sp(s[|s| - 1]) && AllIn(sp, s[..|s| - 1][k..])
    ensures AllIn(sp, s[k..]) && s[..|s| - 1][..k] == s[..k]
  {
    assert s[k..] == s[..|s| - 1][k..] + [s[|s| - 1]];
  }

  /** Both ends trimmed of the class `sp`. */
  function StripBy(sp: char -> bool, s: string): (r: string)
    ensures TrimmedBy(sp, r)
    ensures |r| <= |s|
  {
    TrimEnd(sp, TrimStart(sp, s))
  }

  /** White space of the class `sp` added at either end is exactly what
      `StripBy(sp, _)` takes away again. */
  lemma {:induction false} StripByPadded(sp: char -> bool, lead: string, s: string, trail: string)
    requires AllIn(sp, lead) && AllIn(sp, trail)
    ensures StripBy(sp, lead + s + trail) == StripBy(sp, s)
  {
    calc {
      StripBy(sp, lead + s + trail);
    == { assert lead + s + trail == lead + (s + trail); }
      TrimEnd(sp, TrimStart(sp, lead + (s + trail)));
    == { TrimStartPadded(sp, lead, s + trail); }
      TrimEnd(sp, TrimStart(sp, s + trail));
    == { TrailIgnored(sp, s, trail); }
      StripBy(sp, s);
    }
  }

  /** Trailing white space survives `TrimStart` only to be removed by
      `TrimEnd`. */
  lemma TrailIgnored(sp: char -> bool, s: string, trail: string)
    requires AllIn(sp, trail)
    ensures TrimEnd(sp, TrimStart(sp, s + trail)) == TrimEnd(sp, TrimStart(sp, s))
  {
    var t := TrimStart(sp, s);
    TrimStartAppend(sp, s, trail);
    if t == [] {
      TrimStartAllSpace(sp, trail);
    } else {
      TrimEndPadded(sp, t, trail);
    }
  }

  lemma {:induction false} TrimStartPadded(sp: char -> bool, lead: string, s: string)
    requires AllIn(sp, lead)
    ensures TrimStart(sp, lead + s) == TrimStart(sp, s)
    decreases |lead|
  {
    if lead != [] {
      assert (lead + s)[1..] == lead[1..] + s;
      TrimStartPadded(sp, lead[1..], s);
    } else {
      assert lead + s == s;
    }
  }

  lemma {:induction false} TrimStartAllSpace(sp: char -> bool, s: string)
    requires AllIn(sp, s)
    ensures TrimStart(sp, s) == []
    decreases |s|
  {
    if s != [] {
      TrimStartAllSpace(sp, s[1..]);
    }
  }

  lemma {:induction false} TrimStartAppend(sp: char -> bool, s: string, tail: string)
    ensures TrimStart(sp, s + tail)
         == if TrimStart(sp, s) == [] then TrimStart(sp, tail) else TrimStart(sp, s) + tail
    decreases |s|
  {
    if s == [] {
      assert s + tail == tail;
    } else if sp(s[0]) {
      assert (s + tail)[1..] == s[1..] + tail;
      TrimStartAppend(sp, s[1..], tail);
    } else {
    }
  }

  lemma {:induction false} TrimEndPadded(sp: char -> bool, s: string, trail: string)
    requires AllIn(sp, trail)
    ensures TrimEnd(sp, s + trail) == TrimEnd(sp, s)
    decreases |trail|
  {
    if trail == [] {
      assert s + trail == s;
    } else {
      assert (s + trail)[..|s + trail| - 1] == s + trail[..|trail| - 1];
      TrimEndPadded(sp, s, trail[..|trail| - 1]);
    }
  }

  /** Text with nothing of the class `sp` at its ends is left as it is. */
  lemma StripByTrimmed(sp: char -> bool, s: string)
    requires TrimmedBy(sp, s)
    ensures StripBy(sp, s) == s
  {
  }

  predicate AllSpace(s: string) {
    AllIn(IsSpace, s)
  }

  /** No white space at either end. */
  predicate Trimmed(s: string) {
    TrimmedBy(IsSpace, s)
  }

  /** `str.strip()`. */
  function Strip(s: string): (r: string)
    ensures Trimmed(r)
    ensures |r| <= |s|
  {
    StripBy(IsSpace, s)
  }

  /** White space added at either end is exactly what `strip()` takes away again. */
  lemma StripPadded(lead: string, s: string, trail: string)
    requires AllSpace(lead) && AllSpace(trail)
    ensures Strip(lead + s + trail) == Strip(s)
  {
    StripByPadded(IsSpace, lead, s, trail);
  }

  /** A trimmed string is its own `strip()`. */
  lemma StripTrimmed(s: string)
    requires Trimmed(s)
    ensures Strip(s) == s
  {
    StripByTrimmed(IsSpace, s);
  }

  /** `str.upper()` on one character, for ASCII letters only. */
  function UpperChar(c: char): (u: char)
    ensures 'a' <= c <= 'z' ==> u as int == c as int - 32
    ensures !('a' <= c <= 'z') ==> u == c
  {
    if 'a' <= c <= 'z' then (c as int - 32) as char else c
  }

  /** `str.upper()`: every ASCII lower-case letter replaced by its capital,
      everything else kept, in place. */
  function Upper(s: string): (r: string)
    ensures |r| == |s|
    ensures forall i :: 0 <= i < |s| ==> r[i] == UpperChar(s[i])
  {
    seq(|s|, i requires 0 <= i < |s| => UpperChar(s[i]))
  }

  /** `s.split(sep)[0]`: the text before the first `sep`, or all of `s`
      when it has none. */
  function BeforeFirst(s: string, sep: char): (r: string)
    ensures sep !in r
    ensures r <= s
    ensures |r| < |s| ==> s[|r|] == sep
  {
    if s == [] then [] else if s[0] == sep then [] else [s[0]] + BeforeFirst(s[1..], sep)
  }

  lemma AllSpaceConcat(a: string, b: string)
    requires AllSpace(a) && AllSpace(b)
    ensures AllSpace(a + b)
  {
  }

  /** `upper()` changes no white space and no separator, so it commutes with
      `strip()` and with `split(sep)[0]` for a separator that is not a
      lower-case letter. */
  lemma {:induction false} UpperStrip(s: string)
    ensures Strip(Upper(s)) == Upper(Strip(s))
  {
    UpperTrimStart(s);
    UpperTrimEnd(TrimStart(IsSpace, s));
  }

  lemma UpperCharSpace(c: char)
    ensures IsSpace(UpperChar(c)) == IsSpace(c)
  {
  }

  lemma UpperTrimmed(s: string)
    requires Trimmed(s)
    ensures Trimmed(Upper(s))
  {
    if s != [] {
      UpperCharSpace(s[0]);
      UpperCharSpace(s[|s| - 1]);
    }
  }

  lemma {:induction false} UpperTrimStart(s: string)
    ensures TrimStart(IsSpace, Upper(s)) == Upper(TrimStart(IsSpace, s))
    decreases |s|
  {
    if s != [] {
      var u := Upper(s);
      assert u[0] == UpperChar(s[0]);
      UpperCharSpace(s[0]);
      assert u[1..] == Upper(s[1..]);
      if IsSpace(s[0]) {
        UpperTrimStart(s[1..]);
      }
    }
  }

  lemma {:induction false} UpperTrimEnd(s: string)
    ensures TrimEnd(IsSpace, Upper(s)) == Upper(TrimEnd(IsSpace, s))
    decreases |s|
  {
    if s != [] {
      var u := Upper(s);
      assert u[|s| - 1] == UpperChar(s[|s| - 1]);
      UpperCharSpace(s[|s| - 1]);
      assert u[..|s| - 1] == Upper(s[..|s| - 1]);
      if IsSpace(s[|s| - 1]) {
        UpperTrimEnd(s[..|s| - 1]);
      }
    }
  }

  lemma {:induction false} UpperBeforeFirst(s: string, sep: char)
    requires !('a' <= sep <= 'z') && !('A' <= sep <= 'Z')
    ensures BeforeFirst(Upper(s), sep) == Upper(BeforeFirst(s, sep))
    decreases |s|
  {
    if s != [] {
      var c, rest := s[0], s[1..];
      assert s == [c] + rest;
      UpperCons(c, rest);
      BeforeFirstCons(UpperChar(c), Upper(rest), sep);
      BeforeFirstCons(c, rest, sep);
      if c != sep {
        calc {
          BeforeFirst(Upper(s), sep);
          [UpperChar(c)] + BeforeFirst(Upper(rest), sep);
        == { UpperBeforeFirst(rest, sep); }
          [UpperChar(c)] + Upper(BeforeFirst(rest, sep));
        == { UpperCons(c, BeforeFirst(rest, sep)); }
          Upper([c] + BeforeFirst(rest, sep));
        }
      }
    }
  }

  /** `split(sep)[0]` of a text that starts with `c`. */
  lemma BeforeFirstCons(c: char, s: string, sep: char)
    ensures BeforeFirst([c] + s, sep) == if c == sep then [] else [c] + BeforeFirst(s, sep)
  {
    assert ([c] + s)[1..] == s;
  }

  /** `upper()` works character by character from the front. */
  lemma UpperCons(c: char, s: string)
    ensures Upper([c] + s) == [UpperChar(c)] + Upper(s)
  {
  }

  lemma UpperIdempotent(s: string)
    ensures Upper(Upper(s)) == Upper(s)
  {
  }

  /** The text before the first separator of `a + [sep] + b` is `a` when `a`
      has no separator. */
  lemma {:induction false} BeforeFirstJoin(a: string, sep: char, b: string)
    requires sep !in a
    ensures BeforeFirst(a + [sep] + b, sep) == a
    decreases |a|
  {
    if a == [] {
      assert (a + [sep] + b)[0] == sep;
    } else {
      assert (a + [sep] + b)[1..] == a[1..] + [sep] + b;
      BeforeFirstJoin(a[1..], sep, b);
      assert a == [a[0]] + a[1..];
    }
  }

  /** A string without the separator is its own `split(sep)[0]`. */
  lemma BeforeFirstNone(s: string, sep: char)
    requires sep !in s
    ensures BeforeFirst(s, sep) == s
  {
  }

  /** The white space `int()` skips around a number. CPython's `int()` of a
      `str` turns non-ASCII white space into a plain space but leaves ASCII
      characters as they are, and then skips only space, tab, newline,
      vertical tab, form feed and carriage return. So it is `isspace()`
      without the four ASCII separators U+001C to U+001F, which `int()`
      rejects. */
  predicate IsIntSpace(c: char) {
    IsSpace(c) && !('\U{1C}' <= c <= '\U{1F}')
  }

  predicate AllIntSpace(s: string) {
    AllIn(IsIntSpace, s)
  }

  /** The text `int()` reads once it has skipped white space at both ends:
      nothing it skips is left at either end. */
  function IntStrip(s: string): (r: string)
    ensures r == [] || (!IsIntSpace(r[0]) && !IsIntSpace(r[|r| - 1]))
    ensures |r| <= |s|
  {
    StripBy(IsIntSpace, s)
  }

  /** Text without `isspace()` white space at its ends has nothing for
      `int()` to skip either. */
  lemma IntStripTrimmed(s: string)
    requires Trimmed(s)
    ensures IntStrip(s) == s
  {
    StripByTrimmed(IsIntSpace, s);
  }

  /** White space `int()` skips, added at either end, is skipped again. */
  lemma IntStripPadded(lead: string, s: string, trail: string)
    requires AllIntSpace(lead) && AllIntSpace(trail)
    ensures IntStrip(lead + s + trail) == IntStrip(s)
  {
    StripByPadded(IsIntSpace, lead, s, trail);
  }

  /** The separator U+001C is `isspace()` white space that `int()` does not
      skip: `strip()` removes it, `int()`'s own skipping keeps it. */
  lemma SeparatorNotSkipped()
    ensures Strip("\U{1C}5") == "5"
    ensures IntStrip("\U{1C}5") == "\U{1C}5"
  {
    var s := "\U{1C}5";
    assert s[1..] == "5";
    assert IsSpace(s[0]) && !IsIntSpace(s[0]);
    StripTrimmed("5");
  }
}
