/**
 * The pieces of Python's `str` and `int` behaviour that the registration
 * portal relies on: `str.isspace`, `str.strip`, `str.startswith`,
 * `str.endswith`, `str.split(sep)`, `int(s)` on a decimal string and
 * `str(n)` / f-string formatting of an integer.
 */
module PyText {
  import opened Wrappers

  /** Python's `str.isspace()` for one character: the characters that
      `str.strip()` discards. */
  predicate IsSpace(c: char) {
    var k := c as int;
    (9 <= k <= 13) || (28 <= k <= 32) || k == 0x85 || k == 0xA0 || k == 0x1680 ||
    (0x2000 <= k <= 0x200A) || k == 0x2028 || k == 0x2029 || k == 0x202F ||
    k == 0x205F || k == 0x3000
  }

  /** The whitespace `int()` skips around a number. Non-ASCII whitespace is
      first turned into a space, and then only tab, line feed, vertical tab,
      form feed, carriage return and space are skipped, so the four ASCII
      separators U+001C to U+001F, whitespace for `isspace()`, are not. */
  predicate IsIntSpace(c: char) {
    IsSpace(c) && !(28 <= c as int <= 31)
  }

  /** Which whitespace a strip removes: that of `str.strip()`, or that of `int()`. */
  datatype Blanks = StrBlanks | IntBlanks

  predicate IsBlank(w: Blanks, c: char) {
    if w == StrBlanks then IsSpace(c) else IsIntSpace(c)
  }

  /** Dropping leading `w`-whitespace: `s.lstrip()` for `StrBlanks`. */
  function StripLeft(w: Blanks, s: string): (r: string)
    ensures |r| <= |s|
    ensures r == [] || !IsBlank(w, r[0])
  {
    if s != [] && IsBlank(w, s[0]) then StripLeft(w, s[1..]) else s
  }

  /** Dropping trailing `w`-whitespace: `s.rstrip()` for `StrBlanks`. */
  function StripRight(w: Blanks, s: string): (r: string)
    ensures |r| <= |s|
    ensures r == [] || !IsBlank(w, r[|r| - 1])
  {
    if s != [] && IsBlank(w, s[|s| - 1]) then StripRight(w, s[..|s| - 1]) else s
  }

  /** Stripping on the left keeps a suffix and drops only whitespace. */
  lemma {:induction false} StripLeftShape(w: Blanks, s: string)
    ensures StripLeft(w, s) == s[|s| - |StripLeft(w, s)|..]
    ensures forall i :: 0 <= i < |s| - |StripLeft(w, s)| ==> IsBlank(w, s[i])
  {
    if s != [] && IsBlank(w, s[0]) {
      StripLeftShape(w, s[1..]);
    }
  }

  /** Stripping on the right keeps a prefix and drops only whitespace. */
  lemma {:induction false} StripRightShape(w: Blanks, s: string)
    ensures StripRight(w, s) == s[..|StripRight(w, s)|]
    ensures forall i :: |StripRight(w, s)| <= i < |s| ==> IsBlank(w, s[i])
  {
    if s != [] && IsBlank(w, s[|s| - 1]) {
      StripRightShape(w, s[..|s| - 1]);
    }
  }

  /** Both ends stripped of `w`-whitespace. */
  function StripWith(w: Blanks, s: string): string {
    StripRight(w, StripLeft(w, s))
  }

  /** `s.strip()`. */
  function Strip(s: string): string {
    StripWith(StrBlanks, s)
  }

  /** A string with no whitespace at either end is its own strip. */
  lemma StripUnchanged(w: Blanks, s: string)
    requires s == [] || (!IsBlank(w, s[0]) && !IsBlank(w, s[|s| - 1]))
    ensures StripWith(w, s) == s
  {
  }

  /** `s.strip()` is empty exactly when `s` is all whitespace: this is the
      portal's "Name is required" test. */
  lemma StripEmptyIffBlank(s: string)
    ensures Strip(s) == [] <==> forall i :: 0 <= i < |s| ==> IsSpace(s[i])
  {
    var l := StripLeft(StrBlanks, s);
    StripLeftShape(StrBlanks, s);
    if l != [] {
      StripRightShape(StrBlanks, l);
      assert l[0] == s[|s| - |l|];
      assert !IsSpace(s[|s| - |l|]);
    }
  }

  /** `s.startswith(p)`, compared character by character from the front. */
  predicate StartsWith(s: string, p: string) {
    |p| <= |s| && (p == [] || (s[0] == p[0] && StartsWith(s[1..], p[1..])))
  }

  /** `s.endswith(p)`, compared character by character from the back. */
  predicate EndsWith(s: string, p: string) {
    |p| <= |s| && (p == [] || (s[|s| - 1] == p[|p| - 1] && EndsWith(s[..|s| - 1], p[..|p| - 1])))
  }

  /** `startswith` holds exactly when `p` is a prefix of `s`. */
  lemma {:induction false} StartsWithPrefix(s: string, p: string)
    ensures StartsWith(s, p) <==> |p| <= |s| && s[..|p|] == p
  {
    if p != [] && |p| <= |s| {
      StartsWithPrefix(s[1..], p[1..]);
      if s[..|p|] == p { assert s[1..][..|p| - 1] == s[..|p|][1..]; }
      if s[0] == p[0] && s[1..][..|p| - 1] == p[1..] {
        assert s[..|p|] == [s[0]] + s[1..][..|p| - 1];
        assert p == [p[0]] + p[1..];
      }
    }
  }

  /** `endswith` holds exactly when `p` is a suffix of `s`. */
  lemma {:induction false} EndsWithSuffix(s: string, p: string)
    ensures EndsWith(s, p) <==> |p| <= |s| && s[|s| - |p|..] == p
  {
    if p != [] && |p| <= |s| {
      var s', p' := s[..|s| - 1], p[..|p| - 1];
      EndsWithSuffix(s', p');
      if s[|s| - |p|..] == p { assert s'[|s'| - |p'|..] == s[|s| - |p|..][..|p| - 1]; }
      if s[|s| - 1] == p[|p| - 1] && s'[|s'| - |p'|..] == p' {
        assert s[|s| - |p|..] == s'[|s'| - |p'|..] + [s[|s| - 1]];
        assert p == p' + [p[|p| - 1]];
      }
    }
  }

  /** `s.split(sep)` for a one-character separator: the maximal pieces between
      separators, an empty piece where two separators meet or at either end. */
  function Split(s: string, sep: char): (r: seq<string>)
    ensures |r| >= 1
  {
    if s == [] then [[]]
    else
      var rest := Split(s[1..], sep);
      if s[0] == sep then [[]] + rest
      else [[s[0]] + rest[0]] + rest[1..]
  }

  /** There is more than one piece exactly when the separator occurs, and no
      piece contains it. */
  lemma {:induction false} SplitShape(s: string, sep: char)
    ensures sep in s <==> |Split(s, sep)| >= 2
    ensures forall i :: 0 <= i < |Split(s, sep)| ==> sep !in Split(s, sep)[i]
  {
    if s != [] {
      SplitShape(s[1..], sep);
      assert s == [s[0]] + s[1..];
    }
  }

  /** `sep.join(parts)`. */
  function Join(parts: seq<string>, sep: char): string {
    if |parts| == 0 then []
    else if |parts| == 1 then parts[0]
    else parts[0] + [sep] + Join(parts[1..], sep)
  }

  /** Joining the pieces of a split with the same separator gives back the string. */
  lemma {:induction false} JoinSplit(s: string, sep: char)
    ensures Join(Split(s, sep), sep) == s
  {
    if s != [] {
      JoinSplit(s[1..], sep);
      var rest := Split(s[1..], sep);
      if s[0] != sep {
        assert s == [s[0]] + s[1..];
        if |rest| == 1 {
          assert Split(s, sep) == [[s[0]] + rest[0]];
        } else {
          assert Split(s, sep) == [[s[0]] + rest[0]] + rest[1..];
          assert Split(s, sep)[1..] == rest[1..];
        }
      } else {
        assert Split(s, sep) == [[]] + rest;
        assert Split(s, sep)[1..] == rest;
      }
    }
  }

  /** Splitting a string without the separator gives the string itself. */
  lemma {:induction false} SplitNoSep(s: string, sep: char)
    requires sep !in s
    ensures Split(s, sep) == [s]
  {
    if s != [] {
      SplitNoSep(s[1..], sep);
      assert [s[0]] + s[1..] == s;
    }
  }

  /** Splitting `w + sep + rest`, where `w` has no separator, yields `w` and then
      the pieces of `rest`. */
  lemma {:induction false} SplitAfterField(w: string, sep: char, rest: string)
    requires sep !in w
    ensures Split(w + [sep] + rest, sep) == [w] + Split(rest, sep)
  {
    if w == [] {
      assert [sep] + rest == w + [sep] + rest;
      assert ([sep] + rest)[1..] == rest;
    } else {
      var s := w + [sep] + rest;
      assert s[1..] == w[1..] + [sep] + rest;
      SplitAfterField(w[1..], sep, rest);
      assert [w[0]] + w[1..] == w;
    }
  }

  predicate IsDigit(c: char) {
    '0' <= c <= '9'
  }

  predicate AllDigits(s: string) {
    forall i :: 0 <= i < |s| ==> IsDigit(s[i])
  }

  function DigitValue(c: char): nat
    requires IsDigit(c)
  {
    (c as int) - ('0' as int)
  }

  function DigitChar(d: nat): (c: char)
    requires d < 10
    ensures IsDigit(c) && DigitValue(c) == d
  {
    (('0' as int) + d) as char
  }

  /** The value of a string of decimal digits, most significant first. */
  function DigitsValue(s: string): nat
    requires AllDigits(s)
  {
    if s == [] then 0
    else 10 * DigitsValue(s[..|s| - 1]) + DigitValue(s[|s| - 1])
  }

  /** Python's `int(s)` on a `str`, base 10: surrounding `int()` whitespace,
      then an optional `+` or `-`, then one or more digits; anything else
      raises `ValueError`, modelled as `None`. */
  function ParseInt(s: string): Option<int> {
    ParseSignedDigits(StripWith(IntBlanks, s))
  }

  /** The part of `int()` after the whitespace is stripped. */
  function ParseSignedDigits(t: string): Option<int> {
    if t == [] then None
    else
      var body := if t[0] == '-' || t[0] == '+' then t[1..] else t;
      if body != [] && AllDigits(body) then
        Some(if t[0] == '-' then -(DigitsValue(body) as int) else DigitsValue(body))
      else None
  }

  /** `str(n)` for a non-negative integer: canonical decimal digits. */
  function FormatNat(n: nat): (r: string)
    ensures |r| >= 1 && AllDigits(r)
    ensures DigitsValue(r) == n
    ensures r[0] == '0' <==> n == 0
  {
    if n < 10 then [DigitChar(n)]
    else
      var r := FormatNat(n / 10) + [DigitChar(n % 10)];
      assert r[..|r| - 1] == FormatNat(n / 10);
      r
  }

  /** `str(n)` for any integer, the text an f-string writes for `{n}`. */
  function FormatInt(n: int): string {
    if n < 0 then "-" + FormatNat(-n) else FormatNat(n)
  }

  /** What `str(n)` writes, `int()` reads back. */
  lemma ParseFormatInt(n: int)
    ensures ParseInt(FormatInt(n)) == Some(n)
    ensures '_' !in FormatInt(n)
  {
    var f := FormatInt(n);
    var d := if n < 0 then FormatNat(-n) else FormatNat(n);
    assert f[|f| - 1] == d[|d| - 1];
    StripUnchanged(IntBlanks, f);
    if n < 0 {
      assert f[1..] == d;
    }
    assert '_' !in f by {
      forall i | 0 <= i < |f| ensures f[i] != '_' {
        if n < 0 && i == 0 { } else if n < 0 { assert f[i] == d[i - 1]; } else { assert f[i] == d[i]; }
      }
    }
  }

  /** Splitting `w + sep + t`, neither of which has the separator, gives the two fields. */
  lemma SplitTwoFields(w: string, sep: char, t: string)
    requires sep !in w && sep !in t
    ensures Split(w + [sep] + t, sep) == [w, t]
  {
    SplitAfterField(w, sep, t);
    SplitNoSep(t, sep);
  }

  /** Leading whitespace is dropped up to the first non-space character. */
  lemma {:induction false} StripLeftSpaces(w: Blanks, a: string, x: string)
    requires forall i :: 0 <= i < |a| ==> IsBlank(w, a[i])
    requires x != [] && !IsBlank(w, x[0])
    ensures StripLeft(w, a + x) == x
  {
    if a != [] {
      assert (a + x)[1..] == a[1..] + x;
      StripLeftSpaces(w, a[1..], x);
    } else {
      assert a + x == x;
    }
  }

  /** Trailing whitespace is dropped back to the last non-space character. */
  lemma {:induction false} StripRightSpaces(w: Blanks, x: string, b: string)
    requires forall i :: 0 <= i < |b| ==> IsBlank(w, b[i])
    requires x != [] && !IsBlank(w, x[|x| - 1])
    ensures StripRight(w, x + b) == x
  {
    if b != [] {
      assert (x + b)[..|x + b| - 1] == x + b[..|b| - 1];
      StripRightSpaces(w, x, b[..|b| - 1]);
    } else {
      assert x + b == x;
    }
  }

  /** A sign followed by canonical digits is a well-formed `int()` literal with
      no whitespace at its ends. */
  lemma SignedDigits(sign: string, n: nat)
    requires sign == "" || sign == "+" || sign == "-"
    ensures var x := sign + FormatNat(n);
      !IsSpace(x[0]) && !IsSpace(x[|x| - 1]) &&
      ParseSignedDigits(x) == Some(if sign == "-" then -(n as int) else n)
  {
    SignedDigitsEnds(sign, FormatNat(n));
    SignedDigitsValue(sign, FormatNat(n));
  }

  lemma SignedDigitsEnds(sign: string, d: string)
    requires sign == "" || sign == "+" || sign == "-"
    requires d != [] && AllDigits(d)
    ensures var x := sign + d; !IsSpace(x[0]) && !IsSpace(x[|x| - 1])
  {
    var x := sign + d;
    assert x[|x| - 1] == d[|d| - 1];
    if sign == "" {
      assert x[0] == d[0];
    } else {
      assert x[0] == sign[0];
    }
  }

  lemma SignedDigitsValue(sign: string, d: string)
    requires sign == "" || sign == "+" || sign == "-"
    requires d != [] && AllDigits(d)
    ensures ParseSignedDigits(sign + d) ==
            Some(if sign == "-" then -(DigitsValue(d) as int) else DigitsValue(d))
  {
    var x := sign + d;
    if sign == "" {
      assert x == d;
      assert IsDigit(d[0]);
    } else {
      assert x[0] == sign[0];
      assert x[1..] == d;
    }
  }

  /** Regrouping a four-part concatenation, kept apart so that the sequence
      equality is proved without the whitespace quantifiers in scope. */
  lemma ConcatAssoc(a: string, b: string, c: string, d: string)
    ensures a + b + c + d == a + (b + c) + d
  {
  }

  /** Stripping removes exactly the whitespace padding around a word whose ends
      are not whitespace. */
  lemma StripPadded(w: Blanks, a: string, x: string, b: string)
    requires forall i :: 0 <= i < |a| ==> IsBlank(w, a[i])
    requires forall i :: 0 <= i < |b| ==> IsBlank(w, b[i])
    requires x != [] && !IsBlank(w, x[0]) && !IsBlank(w, x[|x| - 1])
    ensures StripWith(w, a + x + b) == x
  {
    var xb := x + b;
    assert xb[0] == x[0];
    StripLeftSpaces(w, a, xb);
    StripRightSpaces(w, x, b);
    assert a + x + b == a + xb;
  }

  /** `int()` reads a canonical number back through surrounding `int()`
      whitespace and an optional sign. */
  lemma ParsePaddedInt(a: string, sign: string, n: nat, b: string)
    requires forall i :: 0 <= i < |a| ==> IsIntSpace(a[i])
    requires forall i :: 0 <= i < |b| ==> IsIntSpace(b[i])
    requires sign == "" || sign == "+" || sign == "-"
    ensures ParseInt(a + sign + FormatNat(n) + b) == Some(if sign == "-" then -(n as int) else n)
  {
    var x := sign + FormatNat(n);
    SignedDigits(sign, n);
    StripPadded(IntBlanks, a, x, b);
    ConcatAssoc(a, sign, FormatNat(n), b);
  }

  /** The separators U+001C to U+001F are whitespace to `strip()` but not to
      `int()`: `"\x1c5".strip()` is `"5"`, while `int("\x1c5")` raises. */
  lemma SeparatorNotIntSpace()
    ensures Strip(['\U{1C}', '5']) == "5"
    ensures ParseInt(['\U{1C}', '5']) == None
  {
    assert ['\U{1C}', '5'][1..] == "5";
    assert !AllDigits(['\U{1C}', '5']) by { assert !IsDigit(['\U{1C}', '5'][0]); }
  }
}
