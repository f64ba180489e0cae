/**
 * Python's `int(s)` and `float(s)` on decimal strings, with exact values.
 * Both ignore surrounding whitespace other than the ASCII separators U+001C
 * to U+001F, take an optional `+` or `-`, and read
 * ASCII digits that may be grouped by single underscores between two digits;
 * `float` also takes a fraction after `.` and an exponent after `e` or `E`.
 * A string they reject gives `None` where Python raises ValueError.
 */
module Numbers {
  import opened Options
  import opened Text

  predicate IsDigit(c: char) {
    '0' <= c <= '9'
  }

  function DigitValue(c: char): (d: nat)
    requires IsDigit(c)
    ensures d < 10
  {
    c as int - '0' as int
  }

  function DigitChar(d: nat): (c: char)
    requires d < 10
    ensures IsDigit(c) && DigitValue(c) == d
  {
    ('0' as int + d) as char
  }

  predicate AllDigits(s: string) {
    forall i :: 0 <= i < |s| ==> IsDigit(s[i])
  }

  /**
   * Python's `digitpart`: a digit, followed by digits each of which may be
   * preceded by one underscore (`digit (["_"] digit)*`).
   */
  predicate IsDigitPart(s: string)
    decreases |s|
  {
    |s| > 0 && IsDigit(s[|s| - 1]) &&
    (|s| == 1 ||
     var init := s[..|s| - 1];
     if init[|init| - 1] == '_' then IsDigitPart(init[..|init| - 1]) else IsDigitPart(init))
  }

  /** A non-empty string of plain digits is a digit part. */
  lemma {:induction false} AllDigitsPart(d: string)
    requires |d| > 0 && AllDigits(d)
    ensures IsDigitPart(d)
    decreases |d|
  {
    if |d| > 1 {
      assert d[|d| - 2] == d[..|d| - 1][|d| - 2];
      AllDigitsPart(d[..|d| - 1]);
    }
  }

  /** The number the digits of `s` write, in base ten, skipping the underscores. */
  function GroupedValue(s: string): nat
    decreases |s|
  {
    if s == [] then 0
    else if IsDigit(s[|s| - 1]) then GroupedValue(s[..|s| - 1]) * 10 + DigitValue(s[|s| - 1])
    else GroupedValue(s[..|s| - 1])
  }

  /** How many digits `s` holds: the number of decimal places a fraction part stands for. */
  function DigitCount(s: string): nat
    decreases |s|
  {
    if s == [] then 0 else DigitCount(s[..|s| - 1]) + (if IsDigit(s[|s| - 1]) then 1 else 0)
  }

  function Pow10(k: nat): (p: nat)
    ensures p > 0
  {
    if k == 0 then 1 else 10 * Pow10(k - 1)
  }

  /** `v` moved `places` decimal places to the right of the point: `v / 10^places`, exactly. */
  function Shift(v: real, places: nat): real
    decreases places
  {
    if places == 0 then v else Shift(v, places - 1) / 10.0
  }

  /** `v` times ten to the power `e`, exactly. */
  function Scale(v: real, e: int): real
    decreases if e < 0 then -e else e
  {
    if e == 0 then v
    else if e > 0 then Scale(v, e - 1) * 10.0
    else Scale(v, e + 1) / 10.0
  }

  /** Shifting is dividing by a power of ten. */
  lemma {:induction false} ShiftIsDivision(v: real, places: nat)
    ensures Shift(v, places) == v / Pow10(places) as real
    decreases places
  {
    if places > 0 {
      ShiftIsDivision(v, places - 1);
      var p := Pow10(places - 1) as real;
      assert Pow10(places) as real == 10.0 * p;
      assert (v / p) / 10.0 == v / (10.0 * p);
    }
  }

  /** The position of the first `c` in `s`, or `|s|` when there is none. */
  function IndexOf(s: string, c: char): (k: nat)
    ensures k <= |s|
    decreases |s|
  {
    if s == [] || s[0] == c then 0 else 1 + IndexOf(s[1..], c)
  }

  /** `IndexOf` finds `c` if it is there at all, and no earlier `c`. */
  lemma {:induction false} IndexOfSpec(s: string, c: char)
    ensures var k := IndexOf(s, c);
      (k < |s| ==> s[k] == c) && forall i :: 0 <= i < k ==> s[i] != c
    decreases |s|
  {
    if s != [] && s[0] != c {
      IndexOfSpec(s[1..], c);
    }
  }

  /** A string without `c` has no index of it. */
  lemma {:induction false} IndexOfAbsent(s: string, c: char)
    requires forall i :: 0 <= i < |s| ==> s[i] != c
    ensures IndexOf(s, c) == |s|
    decreases |s|
  {
    if s != [] {
      IndexOfAbsent(s[1..], c);
    }
  }

  /** The first `c` in `u + [c] + v`, when `u` has none, is the one after `u`. */
  lemma {:induction false} IndexOfFirst(u: string, c: char, v: string)
    requires forall i :: 0 <= i < |u| ==> u[i] != c
    ensures IndexOf(u + [c] + v, c) == |u|
    decreases |u|
  {
    if u != [] {
      assert (u + [c] + v)[1..] == u[1..] + [c] + v;
      IndexOfFirst(u[1..], c, v);
    }
  }

  /**
   * The whitespace `int()` and `float()` trim: that of `str.isspace()` except
   * the four ASCII separators U+001C to U+001F, which stay in the text (and
   * so make the conversion fail).
   */
  predicate IsNumberSpace(c: char) {
    IsSpace(c) && !(0x1C <= c as int <= 0x1F)
  }

  /** Drops the leading whitespace `int()` and `float()` skip. */
  function TrimLeft(s: string): string
    decreases |s|
  {
    if s == [] || !IsNumberSpace(s[0]) then s else TrimLeft(s[1..])
  }

  /** Drops the trailing whitespace `int()` and `float()` skip. */
  function TrimRight(s: string): string
    decreases |s|
  {
    if s == [] || !IsNumberSpace(s[|s| - 1]) then s else TrimRight(s[..|s| - 1])
  }

  /** The text `int()` and `float()` read: `s` without the surrounding whitespace they skip. */
  function Trim(s: string): string {
    TrimRight(TrimLeft(s))
  }

  /** A string neither end of which is whitespace `int()` skips is read whole. */
  lemma TrimKeeps(s: string)
    requires s == [] || (!IsNumberSpace(s[0]) && !IsNumberSpace(s[|s| - 1]))
    ensures Trim(s) == s
  {
  }

  /** Text that `strip()` has trimmed is read whole by `int()` and `float()`. */
  lemma TrimStripped(s: string)
    ensures Trim(Strip(s)) == Strip(s)
  {
    StripSpec(s);
    TrimKeeps(Strip(s));
  }

  /** `TrimLeft` keeps a suffix and drops only skipped whitespace. */
  lemma {:induction false} TrimLeftSpec(s: string)
    ensures var r := TrimLeft(s);
      |r| <= |s| && r == s[|s| - |r|..] && forall i :: 0 <= i < |s| - |r| ==> IsNumberSpace(s[i])
    decreases |s|
  {
    if s != [] && IsNumberSpace(s[0]) {
      TrimLeftSpec(s[1..]);
    }
  }

  /** `TrimRight` keeps a prefix and drops only skipped whitespace. */
  lemma {:induction false} TrimRightSpec(s: string)
    ensures var r := TrimRight(s);
      |r| <= |s| && r == s[..|r|] && forall i :: |r| <= i < |s| ==> IsNumberSpace(s[i])
    decreases |s|
  {
    if s != [] && IsNumberSpace(s[|s| - 1]) {
      TrimRightSpec(s[..|s| - 1]);
    }
  }

  /** Skipped whitespace after text that does not end in such whitespace is trimmed away. */
  lemma {:induction false} TrimRightDrop(x: string, b: string)
    requires |x| > 0 && !IsNumberSpace(x[|x| - 1])
    requires forall i :: 0 <= i < |b| ==> IsNumberSpace(b[i])
    ensures TrimRight(x + b) == x
    decreases |b|
  {
    if b == [] {
      assert x + b == x;
    } else {
      var n := |b| - 1;
      assert (x + b)[..|x + b| - 1] == x + b[..n];
      TrimRightDrop(x, b[..n]);
    }
  }

  /** `s` is the text `TrimLeft` keeps with only skipped whitespace before it. */
  lemma TrimLeftFrame(s: string) returns (front: string)
    ensures s == front + TrimLeft(s)
    ensures forall i :: 0 <= i < |front| ==> IsNumberSpace(front[i])
  {
    var u := TrimLeft(s);
    TrimLeftSpec(s);
    front := s[..|s| - |u|];
    assert s == front + u;
  }

  /** `s` is the text `TrimRight` keeps with only skipped whitespace after it. */
  lemma TrimRightFrame(s: string) returns (back: string)
    ensures s == TrimRight(s) + back
    ensures forall i :: 0 <= i < |back| ==> IsNumberSpace(back[i])
  {
    var t := TrimRight(s);
    TrimRightSpec(s);
    back := s[|t|..];
    assert s == t + back;
  }

  /** `s` is the text `Trim` keeps with only skipped whitespace before and after it. */
  lemma TrimFrame(s: string) returns (front: string, back: string)
    ensures s == front + (Trim(s) + back)
    ensures forall i :: 0 <= i < |front| ==> IsNumberSpace(front[i])
    ensures forall i :: 0 <= i < |back| ==> IsNumberSpace(back[i])
  {
    front := TrimLeftFrame(s);
    back := TrimRightFrame(TrimLeft(s));
  }

  /** Text with no whitespace at its ends, followed by skipped whitespace, trims to itself. */
  lemma TrimBeforeSpace(t: string, back: string)
    requires |t| > 0 && !IsSpace(t[0]) && !IsSpace(t[|t| - 1])
    requires forall i :: 0 <= i < |back| ==> IsNumberSpace(back[i])
    ensures Trim(t + back) == t
  {
    assert (t + back)[0] == t[0];
    TrimRightDrop(t, back);
  }

  /**
   * When the text `int()` and `float()` read from `s` has no whitespace of
   * any kind at its ends, `strip()` finds the same text, and so does
   * trimming after `lstrip()`.
   */
  lemma StripFindsTrim(s: string)
    requires var t := Trim(s); |t| > 0 && !IsSpace(t[0]) && !IsSpace(t[|t| - 1])
    ensures Strip(s) == Trim(s) && Trim(StripLeft(s)) == Trim(s)
  {
    var t := Trim(s);
    var front, back := TrimFrame(s);
    assert (t + back)[0] == t[0];
    StripLeftDrop(front, t + back);
    StripRightDrop(t, back);
    TrimBeforeSpace(t, back);
  }

  /** A digit part starts with a digit. */
  lemma {:induction false} DigitPartFirst(s: string)
    requires IsDigitPart(s)
    ensures IsDigit(s[0])
    decreases |s|
  {
    if |s| > 1 {
      var init := s[..|s| - 1];
      if init[|init| - 1] == '_' {
        DigitPartFirst(init[..|init| - 1]);
        assert s[0] == init[..|init| - 1][0];
      } else {
        DigitPartFirst(init);
        assert s[0] == init[0];
      }
    }
  }

  /**
   * `int()` does not skip an ASCII separator (U+001C to U+001F) although
   * `strip()` does: `int("\x1c5")` fails.
   */
  lemma SeparatorNotSkipped(c: char, d: string)
    requires 0x1C <= c as int <= 0x1F && |d| > 0 && AllDigits(d)
    ensures ParseInt([c] + d) == None
    ensures Strip([c] + d) == d
  {
    var t := [c] + d;
    assert t[|t| - 1] == d[|d| - 1];
    TrimKeeps(t);
    assert SplitSign(t) == (false, t);
    if IsDigitPart(t) {
      DigitPartFirst(t);
    }
    assert t[1..] == d;
    StripKeeps(d);
  }

  /** Splits off a leading sign: whether it was `-`, and the rest. */
  function SplitSign(t: string): (bool, string) {
    if |t| > 0 && (t[0] == '+' || t[0] == '-') then (t[0] == '-', t[1..]) else (false, t)
  }

  /** An optionally signed digit part, as Python's integer grammar and a float exponent read it. */
  function ParseSigned(t: string): Option<int> {
    var (negative, digits) := SplitSign(t);
    var v: int := GroupedValue(digits);
    if IsDigitPart(digits) then Some(if negative then -v else v) else None
  }

  /** `int(s)` for base ten. */
  function ParseInt(s: string): Option<int> {
    ParseSigned(Trim(s))
  }

  /** The part of a float before its exponent: `digits`, `digits.`, `.digits` or `digits.digits`. */
  function ParseMantissa(m: string): Option<real> {
    var d := IndexOf(m, '.');
    if d < |m| then ParseDecimal(m[..d], m[d + 1..])
    else if IsDigitPart(m) then Some(GroupedValue(m) as real)
    else None
  }

  /** A mantissa with a point, from the digits before it and after it; one side may be empty. */
  function ParseDecimal(whole: string, frac: string): Option<real> {
    if whole == [] && frac == [] then None
    else if whole != [] && !IsDigitPart(whole) then None
    else if frac != [] && !IsDigitPart(frac) then None
    else Some(GroupedValue(whole) as real + Shift(GroupedValue(frac) as real, DigitCount(frac)))
  }

  /** An unsigned float literal: a mantissa and an optional exponent. */
  function ParseUnsignedFloat(b: string): Option<real> {
    var lower, upper := IndexOf(b, 'e'), IndexOf(b, 'E');
    var e := if lower < upper then lower else upper;
    var m := ParseMantissa(b[..e]);
    if m.None? || e == |b| then m
    else
      match ParseSigned(b[e + 1..])
      case None => None
      case Some(x) => Some(Scale(m.value, x))
  }

  /** `float(s)` on decimal literals, as an exact real. */
  function ParseFloat(s: string): Option<real> {
    ReadFloat(Trim(s))
  }

  /** A trimmed float literal: an optional sign and an unsigned literal. */
  function ReadFloat(t: string): Option<real> {
    var (negative, body) := SplitSign(t);
    match ParseUnsignedFloat(body)
    case None => None
    case Some(v) => Some(if negative then -v else v)
  }

  /** A digit part ends with a digit. */
  lemma DigitPartLast(s: string)
    requires IsDigitPart(s)
    ensures |s| > 0 && IsDigit(s[|s| - 1])
  {
  }

  /** A float mantissa that reads starts and ends with a digit or the point. */
  lemma MantissaEnds(m: string)
    requires ParseMantissa(m).Some?
    ensures |m| > 0 && (IsDigit(m[0]) || m[0] == '.') && (IsDigit(m[|m| - 1]) || m[|m| - 1] == '.')
  {
    var d := IndexOf(m, '.');
    IndexOfSpec(m, '.');
    if d < |m| {
      var whole, frac := m[..d], m[d + 1..];
      if whole != [] {
        DigitPartFirst(whole);
        assert m[0] == whole[0];
      }
      if frac != [] {
        DigitPartLast(frac);
        assert m[|m| - 1] == frac[|frac| - 1];
      }
    } else {
      DigitPartFirst(m);
    }
  }

  /** An unsigned float literal that reads starts with a digit or the point and ends with a digit or the point. */
  lemma UnsignedEnds(b: string)
    requires ParseUnsignedFloat(b).Some?
    ensures |b| > 0 && (IsDigit(b[0]) || b[0] == '.') && (IsDigit(b[|b| - 1]) || b[|b| - 1] == '.')
  {
    var lower, upper := IndexOf(b, 'e'), IndexOf(b, 'E');
    var e := if lower < upper then lower else upper;
    var m := b[..e];
    MantissaEnds(m);
    assert b[0] == m[0];
    if e < |b| {
      var x := b[e + 1..];
      var (negative, digits) := SplitSign(x);
      DigitPartLast(digits);
      assert b[|b| - 1] == x[|x| - 1] == digits[|digits| - 1];
    } else {
      assert m == b;
    }
  }

  /** Text that reads as a float has no whitespace of any kind at either end. */
  lemma FloatTextEnds(t: string)
    requires ReadFloat(t).Some?
    ensures |t| > 0 && !IsSpace(t[0]) && !IsSpace(t[|t| - 1])
    ensures IsDigit(t[|t| - 1]) || t[|t| - 1] == '.'
  {
    var (negative, body) := SplitSign(t);
    UnsignedEnds(body);
    if body != t {
      assert t[|t| - 1] == body[|body| - 1];
    }
  }

  /** `str(n)` for a natural number: its decimal digits, most significant first. */
  function ShowNat(n: nat): (s: string)
    ensures |s| > 0 && AllDigits(s)
    decreases n
  {
    if n < 10 then [DigitChar(n)] else ShowNat(n / 10) + [DigitChar(n % 10)]
  }

  /** `str(n)` for an integer. */
  function ShowInt(n: int): (s: string) {
    if n < 0 then ['-'] + ShowNat(-n) else ShowNat(n)
  }

  /** Reading back the digits `ShowNat` writes gives the number. */
  lemma {:induction false} ShowNatValue(n: nat)
    ensures GroupedValue(ShowNat(n)) == n
    decreases n
  {
    if n >= 10 {
      var s := ShowNat(n);
      ShowNatValue(n / 10);
      assert s[..|s| - 1] == ShowNat(n / 10);
    }
  }

  /** A digit string is counted digit for digit. */
  lemma {:induction false} DigitCountAll(s: string)
    requires AllDigits(s)
    ensures DigitCount(s) == |s|
    decreases |s|
  {
    if s != [] {
      DigitCountAll(s[..|s| - 1]);
    }
  }

  /** Neither end of a digit string is whitespace, and it has no sign. */
  lemma DigitsUnsigned(d: string)
    requires |d| > 0 && AllDigits(d)
    ensures Trim(d) == d && SplitSign(d) == (false, d)
    ensures IsDigitPart(d)
  {
    TrimKeeps(d);
    AllDigitsPart(d);
  }

  /** `int()` of a digit string, optionally after a `-`, is its value with that sign. */
  lemma ParseSignedDigits(d: string)
    requires |d| > 0 && AllDigits(d)
    ensures ParseInt(d) == Some(GroupedValue(d) as int)
    ensures ParseInt(['-'] + d) == Some(-(GroupedValue(d) as int))
  {
    AllDigitsPart(d);
    TrimKeeps(d);
    SignedBody(d, false);
    TrimNegative(d);
    SignedBody(d, true);
  }

  /** Reading `d`, or `-` followed by `d`, where `d` is a digit part. */
  lemma SignedBody(d: string, negative: bool)
    requires |d| > 0 && IsDigit(d[0]) && IsDigitPart(d)
    ensures var t := if negative then ['-'] + d else d;
      ParseSigned(t) == Some(if negative then -(GroupedValue(d) as int) else GroupedValue(d) as int)
  {
    var t := if negative then ['-'] + d else d;
    assert t[1..] == d || !negative;
    assert SplitSign(t) == (negative, d);
  }

  /** A minus sign in front changes neither end's whitespace. */
  lemma TrimNegative(d: string)
    requires |d| > 0 && AllDigits(d)
    ensures Trim(['-'] + d) == ['-'] + d
  {
    TrimKeeps(['-'] + d);
  }

  /** `int(str(n)) == n`. */
  lemma ParseIntShowInt(n: int)
    ensures ParseInt(ShowInt(n)) == Some(n)
  {
    var m := if n < 0 then -n else n;
    ShowNatValue(m);
    ParseSignedDigits(ShowNat(m));
  }

  /** A string with no `e`, `E` or `.` in it is a float mantissa with no exponent or fraction. */
  lemma PlainMantissa(b: string)
    requires forall i :: 0 <= i < |b| ==> b[i] != 'e' && b[i] != 'E' && b[i] != '.'
    ensures ParseUnsignedFloat(b) == if IsDigitPart(b) then Some(GroupedValue(b) as real) else None
  {
    IndexOfAbsent(b, 'e');
    IndexOfAbsent(b, 'E');
    IndexOfAbsent(b, '.');
    assert b[..|b|] == b;
  }

  /** `float(d) == d` for a string of digits `d`, read as a whole number. */
  lemma ParseFloatDigits(d: string)
    requires |d| > 0 && AllDigits(d)
    ensures ParseFloat(d) == Some(GroupedValue(d) as real)
  {
    DigitsUnsigned(d);
    PlainMantissa(d);
  }

  /** A mantissa `w.f` of digit strings is `w` plus `f` read as `|f|` decimal places. */
  lemma DecimalDigits(w: string, f: string)
    requires |w| > 0 && AllDigits(w) && AllDigits(f)
    ensures ParseDecimal(w, f) == Some(GroupedValue(w) as real + Shift(GroupedValue(f) as real, |f|))
  {
    DigitsUnsigned(w);
    DigitCountAll(f);
    if f != [] {
      DigitsUnsigned(f);
    }
  }

  /** The first point of a mantissa splits it into its whole and fraction digits. */
  lemma MantissaAtPoint(w: string, f: string)
    requires forall i :: 0 <= i < |w| ==> w[i] != '.'
    ensures ParseMantissa(w + ['.'] + f) == ParseDecimal(w, f)
  {
    var m := w + ['.'] + f;
    IndexOfFirst(w, '.', f);
    assert m[..|w|] == w && m[|w| + 1..] == f;
  }

  /** `float(w + "." + f)` for digit strings is `w` plus `f` read as `|f|` decimal places. */
  lemma ParseFloatDecimal(w: string, f: string)
    requires |w| > 0 && AllDigits(w) && AllDigits(f)
    ensures ParseFloat(w + ['.'] + f) ==
      Some(GroupedValue(w) as real + Shift(GroupedValue(f) as real, |f|))
  {
    var s := w + ['.'] + f;
    assert s[0] == w[0];
    assert s[|s| - 1] == if f != [] then f[|f| - 1] else '.';
    TrimKeeps(s);
    assert SplitSign(s) == (false, s);
    assert forall i :: 0 <= i < |s| ==> s[i] != 'e' && s[i] != 'E' by {
      forall i | 0 <= i < |s| ensures s[i] != 'e' && s[i] != 'E' {
        if i < |w| { assert s[i] == w[i]; } else if i > |w| { assert s[i] == f[i - |w| - 1]; }
      }
    }
    IndexOfAbsent(s, 'e');
    IndexOfAbsent(s, 'E');
    assert s[..|s|] == s;
    MantissaAtPoint(w, f);
    DecimalDigits(w, f);
  }
}
