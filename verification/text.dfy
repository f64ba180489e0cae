/**
 * The string operations the reader relies on: Python's `str.strip()` with
 * no argument and `str.split(sep)` with a one-character separator. The
 * functions are stated plainly; what they guarantee is proved in the lemmas
 * after each of them.
 */
module Text {

  /** Python's `str.isspace()` for one character: the characters `strip()` removes. */
  predicate IsSpace(c: char) {
    var n := c as int;
    n == 0x20 || 0x09 <= n <= 0x0D || 0x1C <= n <= 0x1F || n == 0x85 || n == 0xA0 ||
    n == 0x1680 || 0x2000 <= n <= 0x200A || n == 0x2028 || n == 0x2029 ||
    n == 0x202F || n == 0x205F || n == 0x3000
  }

  /** `s.lstrip()`: drops leading whitespace. */
  function StripLeft(s: string): string
    decreases |s|
  {
    if s == [] || !IsSpace(s[0]) then s else StripLeft(s[1..])
  }

  /** `s.rstrip()`: drops trailing whitespace. */
  function StripRight(s: string): string
    decreases |s|
  {
    if s == [] || !IsSpace(s[|s| - 1]) then s else StripRight(s[..|s| - 1])
  }

  /** `s.strip()`. */
  function Strip(s: string): string {
    StripRight(StripLeft(s))
  }

  /** `lstrip()` keeps a suffix of `s`, drops only whitespace, and stops at a non-whitespace character. */
  lemma {:induction false} StripLeftSpec(s: string)
    ensures var r := StripLeft(s);
      |r| <= |s| && r == s[|s| - |r|..] &&
      (forall i :: 0 <= i < |s| - |r| ==> IsSpace(s[i])) &&
      (r == [] || !IsSpace(r[0]))
    decreases |s|
  {
    if s != [] && IsSpace(s[0]) {
      StripLeftSpec(s[1..]);
    }
  }

  /** `rstrip()` keeps a prefix of `s`, drops only whitespace, and stops at a non-whitespace character. */
  lemma {:induction false} StripRightSpec(s: string)
    ensures var r := StripRight(s);
      |r| <= |s| && r == s[..|r|] &&
      (forall i :: |r| <= i < |s| ==> IsSpace(s[i])) &&
      (r == [] || !IsSpace(r[|r| - 1]))
    decreases |s|
  {
    if s != [] && IsSpace(s[|s| - 1]) {
      StripRightSpec(s[..|s| - 1]);
    }
  }

  /** `r` is `s[lead..lead + |r|]` and all of `s` around it is whitespace. */
  ghost predicate StripsTo(s: string, r: string, lead: int) {
    0 <= lead && lead + |r| <= |s| && r == s[lead..lead + |r|] &&
    (forall i :: 0 <= i < lead ==> IsSpace(s[i])) &&
    (forall i :: lead + |r| <= i < |s| ==> IsSpace(s[i]))
  }

  /**
   * `strip()` keeps a slice of `s` with whitespace only around it, and
   * neither end of what it keeps is whitespace.
   */
  lemma StripSpec(s: string)
    ensures StripsTo(s, Strip(s), |s| - |StripLeft(s)|)
    ensures Strip(s) == [] || (!IsSpace(Strip(s)[0]) && !IsSpace(Strip(s)[|Strip(s)| - 1]))
  {
    var t := StripLeft(s);
    var r := StripRight(t);
    StripLeftSpec(s);
    StripRightSpec(t);
    StripSlice(s, t, r);
    assert r != [] ==> r[0] == t[0];
  }

  lemma StripSlice(s: string, t: string, r: string)
    requires |t| <= |s| && t == s[|s| - |t|..]
    requires forall i :: 0 <= i < |s| - |t| ==> IsSpace(s[i])
    requires |r| <= |t| && r == t[..|r|]
    requires forall i :: |r| <= i < |t| ==> IsSpace(t[i])
    ensures StripsTo(s, r, |s| - |t|)
  {
    var lead := |s| - |t|;
    SliceOfSuffix(s, lead, |r|);
    forall i | lead + |r| <= i < |s| ensures IsSpace(s[i]) {
      assert s[i] == t[i - lead];
    }
  }

  lemma SliceOfSuffix(s: string, lead: nat, k: nat)
    requires lead + k <= |s|
    ensures s[lead..][..k] == s[lead..lead + k]
  {
  }

  /** A string whose ends are not whitespace is left alone by `strip()`. */
  lemma StripKeeps(s: string)
    requires s == [] || (!IsSpace(s[0]) && !IsSpace(s[|s| - 1]))
    ensures Strip(s) == s
  {
  }

  /** `strip()` is idempotent. */
  lemma StripIdempotent(s: string)
    ensures Strip(Strip(s)) == Strip(s)
  {
    StripSpec(s);
    StripKeeps(Strip(s));
  }

  /** A string of whitespace only strips to the empty string. */
  lemma {:induction false} StripBlank(s: string)
    requires forall i :: 0 <= i < |s| ==> IsSpace(s[i])
    ensures Strip(s) == []
    decreases |s|
  {
    if s != [] {
      assert IsSpace(s[0]);
      StripBlank(s[1..]);
      assert StripLeft(s) == StripLeft(s[1..]);
    }
  }

  /** Appending a non-whitespace character: `strip()` then only drops the leading whitespace. */
  lemma StripAppend(s: string, c: char)
    requires !IsSpace(c)
    ensures Strip(s + [c]) == StripLeft(s) + [c]
  {
    StripLeftAppend(s, c);
    StripLeftSpec(s);
    var t := StripLeft(s) + [c];
    assert t[0] == if StripLeft(s) == [] then c else StripLeft(s)[0];
    StripKeeps(t);
  }

  lemma {:induction false} StripLeftAppend(s: string, c: char)
    requires !IsSpace(c)
    ensures StripLeft(s + [c]) == StripLeft(s) + [c]
    decreases |s|
  {
    if s != [] && IsSpace(s[0]) {
      assert (s + [c])[1..] == s[1..] + [c];
      StripLeftAppend(s[1..], c);
    }
  }

  /** `strip()` after dropping leading whitespace is the same as `strip()` alone. */
  lemma StripAfterStripLeft(s: string)
    ensures Strip(StripLeft(s)) == Strip(s)
  {
    StripLeftSpec(s);
    var t := StripLeft(s);
    assert StripLeft(t) == t;
  }

  /** Whitespace before text that does not start with whitespace is all `lstrip()` removes. */
  lemma {:induction false} StripLeftDrop(a: string, x: string)
    requires forall i :: 0 <= i < |a| ==> IsSpace(a[i])
    requires x == [] || !IsSpace(x[0])
    ensures StripLeft(a + x) == x
    decreases |a|
  {
    if a == [] {
      assert a + x == x;
    } else {
      assert (a + x)[1..] == a[1..] + x;
      StripLeftDrop(a[1..], x);
    }
  }

  /** Whitespace after text that does not end with whitespace is all `rstrip()` removes. */
  lemma {:induction false} StripRightDrop(x: string, b: string)
    requires |x| > 0 && !IsSpace(x[|x| - 1])
    requires forall i :: 0 <= i < |b| ==> IsSpace(b[i])
    ensures StripRight(x + b) == x
    decreases |b|
  {
    if b == [] {
      assert x + b == x;
    } else {
      var n := |b| - 1;
      assert (x + b)[..|x + b| - 1] == x + b[..n];
      StripRightDrop(x, b[..n]);
    }
  }

  /** The number of occurrences of `c` in `s`. */
  function Occurrences(s: string, c: char): nat
    decreases |s|
  {
    if s == [] then 0 else Occurrences(s[..|s| - 1], c) + (if s[|s| - 1] == c then 1 else 0)
  }

  lemma {:induction false} OccurrencesAbsent(s: string, c: char)
    requires c !in s
    ensures Occurrences(s, c) == 0
    decreases |s|
  {
    if s != [] {
      assert s[..|s| - 1] <= s;
      OccurrencesAbsent(s[..|s| - 1], c);
    }
  }

  /** The inverse of splitting: the parts glued back together with the separator between them. */
  function Join(parts: seq<string>, sep: char): string
    requires |parts| > 0
    decreases |parts|
  {
    if |parts| == 1 then parts[0] else Join(parts[..|parts| - 1], sep) + [sep] + parts[|parts| - 1]
  }

  /** `s.split(sep)`, read left to right: a separator closes the current part and opens a new one. */
  function Split(s: string, sep: char): (parts: seq<string>)
    ensures |parts| > 0
    decreases |s|
  {
    if s == [] then [[]]
    else
      var init := Split(s[..|s| - 1], sep);
      var c := s[|s| - 1];
      if c == sep then init + [[]]
      else
        var n := |init| - 1;
        init[..n] + [init[n] + [c]]
  }

  /**
   * Splitting gives one part more than there are separators (so the empty
   * string gives `[""]`), and no part contains the separator.
   */
  lemma {:induction false} SplitSpec(s: string, sep: char)
    ensures |Split(s, sep)| == Occurrences(s, sep) + 1
    ensures forall i :: 0 <= i < |Split(s, sep)| ==> sep !in Split(s, sep)[i]
    decreases |s|
  {
    if s != [] {
      var init := Split(s[..|s| - 1], sep);
      SplitSpec(s[..|s| - 1], sep);
      var c := s[|s| - 1];
      if c != sep {
        var n := |init| - 1;
        assert sep !in init[n] + [c];
      }
    }
  }

  /** Joining the parts of a split with the separator gives the string back. */
  lemma {:induction false} JoinSplit(s: string, sep: char)
    ensures Join(Split(s, sep), sep) == s
    decreases |s|
  {
    if s != [] {
      var m := |s| - 1;
      var c := s[m];
      var init := Split(s[..m], sep);
      JoinSplit(s[..m], sep);
      SplitSnoc(s[..m], c, sep);
      assert s[..m] + [c] == s;
      if c == sep {
        JoinSnocPart(init, [], sep);
      } else {
        JoinExtendLast(init, [c], sep);
      }
    }
  }

  /** Joining with one more, new part appends the separator and that part. */
  lemma JoinSnocPart(parts: seq<string>, x: string, sep: char)
    requires |parts| > 0
    ensures Join(parts + [x], sep) == Join(parts, sep) + [sep] + x
  {
    assert (parts + [x])[..|parts|] == parts;
  }

  /** Joining with the last part extended by `x` appends `x`. */
  lemma JoinExtendLast(parts: seq<string>, x: string, sep: char)
    requires |parts| > 0
    ensures var n := |parts| - 1; Join(parts[..n] + [parts[n] + x], sep) == Join(parts, sep) + x
  {
    var n := |parts| - 1;
    var q := parts[..n] + [parts[n] + x];
    if n > 0 {
      assert q[..n] == parts[..n];
      assert Join(q, sep) == Join(parts[..n], sep) + [sep] + (parts[n] + x);
    }
  }

  /** Splitting a string that has no separator in it gives the whole string as the one part. */
  lemma SplitNone(s: string, sep: char)
    requires sep !in s
    ensures Split(s, sep) == [s]
  {
    OccurrencesAbsent(s, sep);
    SplitSpec(s, sep);
    JoinSplit(s, sep);
  }

  /** A join starts with the first character of the first part and ends with the last character of the last. */
  lemma {:induction false} JoinEnds(parts: seq<string>, sep: char)
    requires |parts| > 0 && forall i :: 0 <= i < |parts| ==> |parts[i]| > 0
    ensures var j := Join(parts, sep); var last := parts[|parts| - 1];
      |j| > 0 && j[0] == parts[0][0] && j[|j| - 1] == last[|last| - 1]
    decreases |parts|
  {
    var n := |parts| - 1;
    if n > 0 {
      var init := parts[..n];
      JoinEnds(init, sep);
      var j := Join(parts, sep);
      assert j == Join(init, sep) + [sep] + parts[n];
      assert j[0] == Join(init, sep)[0];
    }
  }
  /**
   * Joining parts that are empty or have no whitespace at their ends, with a
   * separator that is not whitespace, gives a string with no whitespace at
   * its ends.
   */
  lemma {:induction false} JoinEndsNotSpace(parts: seq<string>, sep: char)
    requires |parts| > 0 && !IsSpace(sep)
    requires forall i :: 0 <= i < |parts| ==>
      parts[i] == [] || (!IsSpace(parts[i][0]) && !IsSpace(parts[i][|parts[i]| - 1]))
    ensures var j := Join(parts, sep); j == [] || (!IsSpace(j[0]) && !IsSpace(j[|j| - 1]))
    decreases |parts|
  {
    var n := |parts| - 1;
    if n > 0 {
      var init := parts[..n];
      JoinEndsNotSpace(init, sep);
      var front := Join(init, sep) + [sep];
      var j := Join(parts, sep);
      assert j == front + parts[n];
      assert j[0] == front[0];
      if parts[n] == [] {
        assert j[|j| - 1] == sep;
      } else {
        assert j[|j| - 1] == parts[n][|parts[n]| - 1];
      }
    }
  }


  /** Splitting is a left inverse of joining, for parts that do not hold the separator. */
  lemma {:induction false} SplitJoin(parts: seq<string>, sep: char)
    requires |parts| > 0
    requires forall i :: 0 <= i < |parts| ==> sep !in parts[i]
    ensures Split(Join(parts, sep), sep) == parts
    decreases |parts|
  {
    var n := |parts| - 1;
    if n == 0 {
      SplitNone(parts[0], sep);
    } else {
      var init := parts[..n];
      var front := Join(init, sep) + [sep];
      assert Join(parts, sep) == front + parts[n];
      SplitJoin(init, sep);
      SplitSep(Join(init, sep), sep);
      var p := init + [[]];
      assert Split(front, sep) == p;
      SplitAppendPlain(front, parts[n], sep);
      assert Split(front + parts[n], sep) == p[..n] + [p[n] + parts[n]];
      assert p[..n] == init && p[n] + parts[n] == parts[n];
      assert parts == init + [parts[n]];
    }
  }

  /** Splitting `s + [c]` in terms of splitting `s`: one step of the left-to-right scan. */
  lemma SplitSnoc(s: string, c: char, sep: char)
    ensures var p := Split(s, sep); var n := |p| - 1;
      Split(s + [c], sep) == if c == sep then p + [[]] else p[..n] + [p[n] + [c]]
  {
    assert (s + [c])[..|s|] == s;
  }

  /** Appending the separator starts a new, empty part. */
  lemma SplitSep(s: string, sep: char)
    ensures Split(s + [sep], sep) == Split(s, sep) + [[]]
  {
    SplitSnoc(s, sep, sep);
  }

  /** Appending characters that are not the separator extends the last part only. */
  lemma {:induction false} SplitAppendPlain(s: string, t: string, sep: char)
    requires sep !in t
    ensures var p := Split(s, sep); var n := |p| - 1;
      Split(s + t, sep) == p[..n] + [p[n] + t]
    decreases |t|
  {
    if t == [] {
      assert s + t == s;
      ExtendLastNothing(Split(s, sep));
    } else {
      var m := |t| - 1;
      var a := t[..m];
      assert t == a + [t[m]];
      assert sep !in a && t[m] != sep;
      SplitAppendPlain(s, a, sep);
      SplitAppendStep(s, a, t[m], sep);
    }
  }

  /** One step of `SplitAppendPlain`: from `s + a` to `s + a + [c]`. */
  lemma SplitAppendStep(s: string, a: string, c: char, sep: char)
    requires c != sep
    requires var p := Split(s, sep); var n := |p| - 1; Split(s + a, sep) == p[..n] + [p[n] + a]
    ensures var p := Split(s, sep); var n := |p| - 1; Split(s + (a + [c]), sep) == p[..n] + [p[n] + (a + [c])]
  {
    var p := Split(s, sep);
    var u := s + a;
    SplitSnoc(u, c, sep);
    assert u + [c] == s + (a + [c]);
    ExtendLastTwice(p, a, c);
  }

  lemma ExtendLastNothing(p: seq<string>)
    requires |p| > 0
    ensures var n := |p| - 1; p[..n] + [p[n] + []] == p
  {
    var n := |p| - 1;
    assert p[n] + [] == p[n];
  }

  lemma ExtendLastTwice(p: seq<string>, a: string, c: char)
    requires |p| > 0
    ensures var n := |p| - 1; var q := p[..n] + [p[n] + a];
      q[..n] + [q[n] + [c]] == p[..n] + [p[n] + (a + [c])]
  {
    var n := |p| - 1;
    var q := p[..n] + [p[n] + a];
    assert q[..n] == p[..n];
    assert q[n] + [c] == p[n] + (a + [c]);
  }
}
