/**
 * The pieces of Python's `str` behaviour that the canteen script relies on:
 * `strip()`, `strip(chars)`, `split(sep)`, `find`, `int()` and `str()` on
 * integers, over `string` (a sequence of Unicode scalar values).
 */
module Text {
  import opened Optional

  /** The characters for which Python's `str.isspace()` holds. */
  const Whitespace: set<char> :=
    {' ', '\t', '\n', '\r', '\U{000B}', '\U{000C}', '\U{001C}', '\U{001D}', '\U{001E}', '\U{001F}',
     '\U{0085}', '\U{00A0}', '\U{1680}', '\U{2000}', '\U{2001}', '\U{2002}', '\U{2003}', '\U{2004}',
     '\U{2005}', '\U{2006}', '\U{2007}', '\U{2008}', '\U{2009}', '\U{200A}', '\U{2028}', '\U{2029}',
     '\U{202F}', '\U{205F}', '\U{3000}'}

  /** ASCII decimal digit (what `\d` matches in the script's inputs). */
  predicate IsDigit(c: char) { '0' <= c <= '9' }

  predicate AllDigits(s: string) { forall k :: 0 <= k < |s| ==> IsDigit(s[k]) }

  predicate AllIn(s: string, cs: set<char>) { forall k :: 0 <= k < |s| ==> s[k] in cs }

  /** Drops the leading characters that belong to `cs`. */
  function TrimLeft(s: string, cs: set<char>): (r: string)
    ensures |r| <= |s| && r == s[|s| - |r|..]
    ensures forall k :: 0 <= k < |s| - |r| ==> s[k] in cs
    ensures r == [] || r[0] !in cs
  {
    if s != [] && s[0] in cs then
      var r := TrimLeft(s[1..], cs);
      assert forall k :: 1 <= k < |s| - |r| ==> s[k] == s[1..][k - 1];
      r
    else s
  }

  /** Drops the trailing characters that belong to `cs`. */
  function TrimRight(s: string, cs: set<char>): (r: string)
    ensures |r| <= |s| && r == s[..|r|]
    ensures forall k :: |r| <= k < |s| ==> s[k] in cs
    ensures r == [] || r[|r| - 1] !in cs
  {
    if s != [] && s[|s| - 1] in cs then
      var r := TrimRight(s[..|s| - 1], cs);
      assert forall k :: |r| <= k < |s| - 1 ==> s[k] == s[..|s| - 1][k];
      r
    else s
  }

  /** Python's `s.strip(chars)`: both ends trimmed, the middle kept. */
  function StripChars(s: string, cs: set<char>): (r: string)
    ensures |r| <= |s|
    ensures r == [] || (r[0] !in cs && r[|r| - 1] !in cs)
  {
    TrimRight(TrimLeft(s, cs), cs)
  }

  /** What `strip` keeps is a contiguous piece of the input, and only characters of `cs` go. */
  lemma StripCharsInfix(s: string, cs: set<char>) returns (i: nat)
    ensures i + |StripChars(s, cs)| <= |s|
    ensures forall m :: 0 <= m < |StripChars(s, cs)| ==> StripChars(s, cs)[m] == s[i + m]
    ensures forall k :: 0 <= k < i ==> s[k] in cs
    ensures forall k :: i + |StripChars(s, cs)| <= k < |s| ==> s[k] in cs
  {
    var l := TrimLeft(s, cs);
    i := |s| - |l|;
    SuffixPrefix(s, i, |TrimRight(l, cs)|, cs);
    assert StripChars(s, cs) == s[i..i + |StripChars(s, cs)|];
  }

  /** A prefix of a suffix is an infix, and the dropped end of the suffix is the end of the whole. */
  lemma SuffixPrefix(s: string, i: nat, n: nat, cs: set<char>)
    requires i <= |s| && n <= |s| - i
    requires forall k :: n <= k < |s| - i ==> s[i..][k] in cs
    ensures s[i..][..n] == s[i..i + n]
    ensures forall k :: i + n <= k < |s| ==> s[k] in cs
  {
    forall k | i + n <= k < |s|
      ensures s[k] in cs
    {
      assert s[k] == s[i..][k - i];
    }
  }

  /** A character that `strip` does not remove is in the result exactly when it is in the input. */
  lemma StripCharsKeeps(s: string, cs: set<char>, c: char)
    requires c !in cs
    ensures c in StripChars(s, cs) <==> c in s
  {
    if c in s {
      StripCharsKeepsIn(s, cs, c);
    } else {
      StripCharsAvoids(s, cs, c);
    }
  }

  lemma StripCharsKeepsIn(s: string, cs: set<char>, c: char)
    requires c !in cs && c in s
    ensures c in StripChars(s, cs)
  {
    var i := StripCharsInfix(s, cs);
    var m :| 0 <= m < |s| && s[m] == c;
    InsideInfix(s, cs, i, |StripChars(s, cs)|, m);
    assert StripChars(s, cs)[m - i] == c;
  }

  /** A character outside `cs` lies within the part that stripping keeps. */
  lemma InsideInfix(s: string, cs: set<char>, i: nat, n: nat, m: nat)
    requires i + n <= |s| && m < |s| && s[m] !in cs
    requires forall k :: 0 <= k < i ==> s[k] in cs
    requires forall k :: i + n <= k < |s| ==> s[k] in cs
    ensures i <= m < i + n
  {
  }

  /** Stripping never adds a character. */
  lemma StripCharsAvoids(s: string, cs: set<char>, c: char)
    requires c !in s
    ensures c !in StripChars(s, cs)
  {
    var i := StripCharsInfix(s, cs);
    var t := StripChars(s, cs);
    forall m | 0 <= m < |t|
      ensures t[m] != c
    {
      assert t[m] == s[i + m];
    }
  }

  /** Python's `s.strip()`. */
  function Strip(s: string): string
  {
    StripChars(s, Whitespace)
  }

  /** A string that already has no strippable end is left as it is. */
  lemma StripCharsUnchanged(s: string, cs: set<char>)
    requires s == [] || (s[0] !in cs && s[|s| - 1] !in cs)
    ensures StripChars(s, cs) == s
  {
  }

  /** Stripping is idempotent. */
  lemma StripCharsIdempotent(s: string, cs: set<char>)
    ensures StripChars(StripChars(s, cs), cs) == StripChars(s, cs)
  {
    StripCharsUnchanged(StripChars(s, cs), cs);
  }

  lemma {:induction false} TrimLeftPadding(p: string, s: string, cs: set<char>)
    requires AllIn(p, cs)
    ensures TrimLeft(p + s, cs) == TrimLeft(s, cs)
  {
    if p != [] {
      assert (p + s)[1..] == p[1..] + s;
      TrimLeftPadding(p[1..], s, cs);
    } else {
      assert p + s == s;
    }
  }

  lemma {:induction false} TrimRightPadding(s: string, q: string, cs: set<char>)
    requires AllIn(q, cs)
    ensures TrimRight(s + q, cs) == TrimRight(s, cs)
  {
    if q != [] {
      assert (s + q)[..|s + q| - 1] == s + q[..|q| - 1];
      TrimRightPadding(s, q[..|q| - 1], cs);
    } else {
      assert s + q == s;
    }
  }

  lemma TrimLeftUnchanged(s: string, cs: set<char>)
    requires s == [] || s[0] !in cs
    ensures TrimLeft(s, cs) == s
  {
  }

  lemma TrimRightUnchanged(s: string, cs: set<char>)
    requires s == [] || s[|s| - 1] !in cs
    ensures TrimRight(s, cs) == s
  {
  }

  /** Padding made only of strippable characters is removed exactly. */
  lemma StripCharsPadding(p: string, s: string, q: string, cs: set<char>)
    requires AllIn(p, cs) && AllIn(q, cs)
    requires s == [] || (s[0] !in cs && s[|s| - 1] !in cs)
    ensures StripChars(p + s + q, cs) == s
  {
    var x := s + q;
    assert p + s + q == p + x;
    TrimLeftPadding(p, x, cs);
    if s == [] {
      assert x == q + [];
      TrimLeftPadding(q, [], cs);
    } else {
      assert x[0] == s[0];
      TrimLeftUnchanged(x, cs);
      TrimRightPadding(s, q, cs);
      TrimRightUnchanged(s, cs);
    }
  }

  /** The index of the first occurrence of `c`, as `str.find` reports it (None for -1). */
  function IndexOf(s: string, c: char): (r: Option<nat>)
    ensures r.None? ==> c !in s
    ensures r.Some? ==> r.value < |s| && s[r.value] == c && c !in s[..r.value]
  {
    if s == [] then None
    else if s[0] == c then Some(0)
    else match IndexOf(s[1..], c)
      case None => None
      case Some(k) =>
        assert s[..k + 1] == [s[0]] + s[1..][..k];
        Some(k + 1)
  }

  /** Python's `s.split(sep)` for a one-character separator. */
  function Split(s: string, sep: char): (parts: seq<string>)
    ensures |parts| >= 1
    ensures forall k :: 0 <= k < |parts| ==> sep !in parts[k]
    decreases |s|
  {
    match IndexOf(s, sep)
    case None => [s]
    case Some(k) => [s[..k]] + Split(s[k + 1..], sep)
  }

  /** Python's `sep.join(parts)`. */
  function Join(parts: seq<string>, sep: char): string
  {
    if parts == [] then []
    else if |parts| == 1 then parts[0]
    else parts[0] + [sep] + Join(parts[1..], sep)
  }

  /** Joining the pieces of a split gives the original string back. */
  lemma {:induction false} JoinSplit(s: string, sep: char)
    ensures Join(Split(s, sep), sep) == s
    decreases |s|
  {
    match IndexOf(s, sep)
    case None =>
    case Some(k) =>
      JoinSplit(s[k + 1..], sep);
      JoinCons(s[..k], Split(s[k + 1..], sep), sep);
      Around(s, k);
  }

  lemma JoinCons(p: string, rest: seq<string>, sep: char)
    requires |rest| >= 1
    ensures Join([p] + rest, sep) == p + [sep] + Join(rest, sep)
  {
    assert ([p] + rest)[1..] == rest;
  }

  lemma Around(s: string, k: nat)
    requires k < |s|
    ensures s == s[..k] + [s[k]] + s[k + 1..]
  {
  }

  /** Splitting a join of separator-free pieces gives the pieces back. */
  lemma {:induction false} SplitJoin(parts: seq<string>, sep: char)
    requires |parts| >= 1
    requires forall k :: 0 <= k < |parts| ==> sep !in parts[k]
    ensures Split(Join(parts, sep), sep) == parts
  {
    if |parts| > 1 {
      var s := Join(parts, sep);
      var p := parts[0];
      assert s == p + [sep] + Join(parts[1..], sep);
      IndexOfAfter(p, sep, Join(parts[1..], sep));
      assert s[..|p|] == p;
      assert s[|p| + 1..] == Join(parts[1..], sep);
      SplitJoin(parts[1..], sep);
    }
  }

  lemma {:induction false} IndexOfAfter(p: string, c: char, rest: string)
    requires c !in p
    ensures IndexOf(p + [c] + rest, c) == Some(|p|)
  {
    if p != [] {
      assert (p + [c] + rest)[1..] == p[1..] + [c] + rest;
      IndexOfAfter(p[1..], c, rest);
    }
  }

  /** The value of an ASCII digit. */
  function DigitValue(c: char): (d: nat)
    requires IsDigit(c)
    ensures d < 10
  {
    c as int - '0' as int
  }

  /** The ASCII digit of a value below ten. */
  function DigitChar(d: nat): (c: char)
    requires d < 10
    ensures IsDigit(c) && DigitValue(c) == d
  {
    ('0' as int + d) as char
  }

  /** The value of a run of decimal digits, most significant first. */
  function DigitsValue(s: string): nat
    requires AllDigits(s)
  {
    if s == [] then 0 else DigitsValue(s[..|s| - 1]) * 10 + DigitValue(s[|s| - 1])
  }

  /** Python's `str(n)` for a natural number. */
  function NatToString(n: nat): (s: string)
    ensures s != [] && AllDigits(s)
  {
    if n < 10 then [DigitChar(n)] else NatToString(n / 10) + [DigitChar(n % 10)]
  }

  /** Python's `str(i)` for an integer. */
  function IntToString(i: int): string
  {
    if i < 0 then "-" + NatToString(-i) else NatToString(i)
  }

  /**
   * Python's `int(s)` for a string that has already been stripped: an
   * optional sign, then one or more decimal digits; anything else is the
   * `ValueError` the script catches (None).
   */
  function ParseInt(s: string): (r: Option<int>)
  {
    if s != [] && (s[0] == '+' || s[0] == '-') then
      if |s| > 1 && AllDigits(s[1..]) then
        var v: int := DigitsValue(s[1..]);
        Some(if s[0] == '-' then -v else v)
      else None
    else if s != [] && AllDigits(s) then Some(DigitsValue(s))
    else None
  }

  lemma {:induction false} DigitsValueOfNat(n: nat)
    ensures DigitsValue(NatToString(n)) == n
  {
    if n >= 10 {
      DigitsValueOfNat(n / 10);
      var s := NatToString(n);
      assert s[..|s| - 1] == NatToString(n / 10);
    }
  }

  /** `int(str(i)) == i`. */
  lemma ParseIntToString(i: int)
    ensures ParseInt(IntToString(i)) == Some(i)
  {
    var n: nat := if i < 0 then -i else i;
    DigitsValueOfNat(n);
    ParseIntDigits(NatToString(n));
  }

  /** Digits, with or without a leading minus sign, parse as their value. */
  lemma ParseIntDigits(d: string)
    requires d != [] && AllDigits(d)
    ensures ParseInt(d) == Some(DigitsValue(d))
    ensures ParseInt("-" + d) == Some(-(DigitsValue(d) as int))
  {
    assert IsDigit(d[0]);
    var m := "-" + d;
    assert m[0] == '-' && m[1..] == d;
  }

  /** Digits whose first digit is not zero have a positive value. */
  lemma {:induction false} DigitsValuePositive(d: string)
    requires d != [] && AllDigits(d) && d[0] != '0'
    ensures DigitsValue(d) > 0
  {
    if |d| > 1 {
      DigitsValuePositive(d[..|d| - 1]);
    }
  }

  /** `str(int(d)) == d` for digits without a leading zero. */
  lemma {:induction false} NatToStringOfDigits(d: string)
    requires d != [] && AllDigits(d)
    requires d[0] == '0' ==> |d| == 1
    ensures NatToString(DigitsValue(d)) == d
  {
    var c := d[|d| - 1];
    if |d| == 1 {
      assert DigitChar(DigitValue(c)) == c;
    } else {
      var init := d[..|d| - 1];
      NatToStringOfDigits(init);
      DigitsValuePositive(init);
      var n := DigitsValue(d);
      assert n / 10 == DigitsValue(init) && n % 10 == DigitValue(c);
      assert DigitChar(DigitValue(c)) == c;
      assert d == init + [c];
    }
  }

  /**
   * The converse of ParseIntToString: a string that `int()` accepts, with no
   * `+` sign, no leading zero and no `-0`, is `str()` of its value.
   */
  lemma ParseIntCanonical(s: string, v: int)
    requires s != [] && ParseInt(s) == Some(v)
    requires s[0] != '+'
    requires s[0] == '-' ==> s[1..] != [] && s[1] != '0'
    requires s[0] == '0' ==> |s| == 1
    ensures IntToString(v) == s
  {
    if s[0] == '-' {
      var d := s[1..];
      NatToStringOfDigits(d);
      DigitsValuePositive(d);
      assert s == "-" + d;
    } else {
      NatToStringOfDigits(s);
    }
  }
}
