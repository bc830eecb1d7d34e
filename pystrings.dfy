/**
 * The Python 2 string builtins the analysis-period text form relies on: `str.lower`,
 * `str.replace`, `str.split` with an explicit separator, `int()` on a string and `str()` of an
 * integer. Strings are byte strings, so case folding only touches 'A'..'Z'.
 */
module PyStrings {
  import opened Results

  // ---------------------------------------------------------------- lower

  function LowerChar(c: char): char {
    if 'A' <= c <= 'Z' then (c as int - 'A' as int + 'a' as int) as char else c
  }

  predicate IsUpper(c: char) {
    'A' <= c <= 'Z'
  }

  /** `s.lower()` */
  function Lower(s: string): (r: string)
    ensures |r| == |s|
    ensures forall i :: 0 <= i < |s| ==> r[i] == LowerChar(s[i])
  {
    if s == [] then [] else [LowerChar(s[0])] + Lower(s[1..])
  }

  /** A string with no upper-case letter is its own lower-case form. */
  lemma LowerNoUpper(s: string)
    requires forall i :: 0 <= i < |s| ==> !IsUpper(s[i])
    ensures Lower(s) == s
  {
  }

  predicate NoUpper(s: string) {
    forall i :: 0 <= i < |s| ==> !IsUpper(s[i])
  }

  lemma NoUpperAppend(x: string, y: string)
    requires NoUpper(x) && NoUpper(y)
    ensures NoUpper(x + y)
  {
    assert forall i :: |x| <= i < |x + y| ==> (x + y)[i] == y[i - |x|];
  }


  // ---------------------------------------------------------------- replace

  /**
   * `s.replace(pat, rep)`: every occurrence of `pat`, scanned left to right without overlap, is
   * replaced by `rep`.
   */
  function Replace(s: string, pat: string, rep: string): string
    requires |pat| > 0
    decreases |s|
  {
    if |s| < |pat| then s
    else if s[..|pat|] == pat then rep + Replace(s[|pat|..], pat, rep)
    else [s[0]] + Replace(s[1..], pat, rep)
  }

  /** Every place where `s` holds the first character of `pat` leaves room for all of `pat` in `s`. */
  predicate Roomy(s: string, pat: string)
    requires |pat| > 0
  {
    forall i :: 0 <= i < |s| && s[i] == pat[0] ==> i + |pat| <= |s|
  }

  lemma RoomyAppend(x: string, y: string, pat: string)
    requires |pat| > 0 && Roomy(x, pat) && Roomy(y, pat)
    ensures Roomy(x + y, pat)
  {
    assert forall i :: |x| <= i < |x + y| ==> (x + y)[i] == y[i - |x|];
  }

  /** Without the first character of `pat`, `replace` changes nothing. */
  lemma {:induction false} ReplaceAbsent(s: string, pat: string, rep: string)
    requires |pat| > 0
    requires forall i :: 0 <= i < |s| ==> s[i] != pat[0]
    ensures Replace(s, pat, rep) == s
    decreases |s|
  {
    if |pat| <= |s| {
      assert s[..|pat|][0] == s[0];
      ReplaceAbsent(s[1..], pat, rep);
    }
  }

  /** The pattern alone is replaced whole. */
  lemma ReplaceWhole(pat: string, rep: string)
    requires |pat| > 0
    ensures Replace(pat, pat, rep) == rep
  {
    assert pat[..|pat|] == pat && pat[|pat|..] == "";
    assert rep + "" == rep;
  }

  /** No occurrence of `pat` straddles the end of a roomy `x`, so `replace` works piece by piece. */
  lemma {:induction false} ReplaceConcat(x: string, y: string, pat: string, rep: string)
    requires |pat| > 0 && Roomy(x, pat)
    ensures Replace(x + y, pat, rep) == Replace(x, pat, rep) + Replace(y, pat, rep)
    decreases |x|
  {
    if x == [] {
      assert x + y == y;
    } else if |x + y| < |pat| {
      assert Replace(y, pat, rep) == y;
    } else if (x + y)[..|pat|] == pat {
      assert x[0] == pat[0];
      assert (x + y)[|pat|..] == x[|pat|..] + y;
      assert x[..|pat|] == pat;
      ReplaceConcat(x[|pat|..], y, pat, rep);
    } else {
      assert (x + y)[1..] == x[1..] + y;
      if |pat| <= |x| {
        assert x[..|pat|] == (x + y)[..|pat|];
      } else {
        assert x[0] != pat[0];
        assert x[1..] + y == (x + y)[1..];
      }
      ReplaceConcat(x[1..], y, pat, rep);
      if |x| < |pat| {
        assert Replace(x[1..], pat, rep) == x[1..];
      }
    }
  }

  /** Each piece with `pat` replaced. */
  function ReplaceAll(parts: seq<string>, pat: string, rep: string): (r: seq<string>)
    requires |pat| > 0
    ensures |r| == |parts|
    ensures forall k :: 0 <= k < |parts| ==> r[k] == Replace(parts[k], pat, rep)
  {
    if parts == [] then [] else [Replace(parts[0], pat, rep)] + ReplaceAll(parts[1..], pat, rep)
  }

  // ---------------------------------------------------------------- split and join

  /** `s.split(sep)`: the pieces between separators, empty ones included. */
  function Split(s: string, sep: char): (parts: seq<string>)
    ensures |parts| >= 1
    decreases |s|
  {
    if s == [] then [""]
    else
      var rest := Split(s[1..], sep);
      if s[0] == sep then [""] + rest else [[s[0]] + rest[0]] + rest[1..]
  }

  /** `sep.join(parts)` */
  function JoinWith(parts: seq<string>, sep: char): string
    requires |parts| >= 1
  {
    if |parts| == 1 then parts[0] else parts[0] + [sep] + JoinWith(parts[1..], sep)
  }

  /** Splitting and joining again with the same separator restores the string. */
  lemma {:induction false} JoinSplit(s: string, sep: char)
    ensures JoinWith(Split(s, sep), sep) == s
    ensures forall k, i :: 0 <= k < |Split(s, sep)| && 0 <= i < |Split(s, sep)[k]| ==> Split(s, sep)[k][i] != sep
    decreases |s|
  {
    if s != [] {
      JoinSplit(s[1..], sep);
      var rest := Split(s[1..], sep);
      if s[0] != sep && |rest| > 1 {
        assert rest == [rest[0]] + rest[1..];
      }
      if s[0] == sep {
        assert [""] + rest == [""] + rest;
      }
    }
  }

  /** A separator-free prefix followed by a separator is the first piece of the split. */
  lemma {:induction false} SplitAtSeparator(a: string, sep: char, b: string)
    requires forall i :: 0 <= i < |a| ==> a[i] != sep
    ensures Split(a + [sep] + b, sep) == [a] + Split(b, sep)
    decreases |a|
  {
    if a == [] {
      assert a + [sep] + b == [sep] + b;
      assert ([sep] + b)[1..] == b;
    } else {
      assert (a + [sep] + b)[1..] == a[1..] + [sep] + b;
      SplitAtSeparator(a[1..], sep, b);
      assert [a[0]] + a[1..] == a;
    }
  }

  /** A separator-free string splits into itself alone. */
  lemma {:induction false} SplitWhole(a: string, sep: char)
    requires forall i :: 0 <= i < |a| ==> a[i] != sep
    ensures Split(a, sep) == [a]
    decreases |a|
  {
    if a != [] {
      SplitWhole(a[1..], sep);
      assert [a[0]] + a[1..] == a;
    }
  }


  /** Splitting pieces joined by a separator none of them holds gives the pieces back. */
  lemma {:induction false} SplitJoin(parts: seq<string>, sep: char)
    requires |parts| >= 1
    requires forall k, i :: 0 <= k < |parts| && 0 <= i < |parts[k]| ==> parts[k][i] != sep
    ensures Split(JoinWith(parts, sep), sep) == parts
  {
    if |parts| == 1 {
      SplitWhole(parts[0], sep);
    } else {
      SplitJoin(parts[1..], sep);
      SplitAtSeparator(parts[0], sep, JoinWith(parts[1..], sep));
    }
  }

  // ---------------------------------------------------------------- int() and str()

  predicate IsDigit(c: char) {
    '0' <= c <= '9'
  }

  predicate IsDigits(s: string) {
    |s| > 0 && forall i :: 0 <= i < |s| ==> IsDigit(s[i])
  }

  /** The value of a string of decimal digits, most significant first. */
  function DigitsValue(s: string): (n: nat)
    requires forall i :: 0 <= i < |s| ==> IsDigit(s[i])
  {
    if s == [] then 0
    else
      var last := s[|s| - 1];
      assert IsDigit(last);
      DigitsValue(s[..|s| - 1]) * 10 + (last as int - '0' as int)
  }

  predicate IsSpace(c: char) {
    c == ' ' || c == '\t' || c == '\n' || c == '\r' || c == '\U{b}' || c == '\U{c}'
  }

  /** `s.strip()`: leading and trailing white space removed. */
  function Strip(s: string): (r: string)
    decreases |s|
  {
    if s != [] && IsSpace(s[0]) then Strip(s[1..])
    else if s != [] && IsSpace(s[|s| - 1]) then Strip(s[..|s| - 1])
    else s
  }

  /**
   * `int(s)` for a string: white space, an optional sign, white space again, at least one decimal
   * digit and trailing white space; anything else raises ValueError, modelled as None.
   */
  function ParseInt(s: string): (r: Option<int>)
    ensures IsDigits(s) ==> r == Some(DigitsValue(s))
  {
    var t := Strip(s);
    if |t| > 0 && (t[0] == '-' || t[0] == '+') then
      var u := Strip(t[1..]);
      if !IsDigits(u) then None
      else if t[0] == '-' then Some(0 - DigitsValue(u))
      else Some(DigitsValue(u))
    else if IsDigits(t) then Some(DigitsValue(t))
    else None
  }

  predicate AllSpace(s: string) {
    forall i :: 0 <= i < |s| ==> IsSpace(s[i])
  }

  /** `strip()` removes exactly the white space padding a text that starts and ends with non-space. */
  lemma {:induction false} StripPadded(a: string, x: string, b: string)
    requires AllSpace(a) && AllSpace(b)
    requires |x| > 0 && !IsSpace(x[0]) && !IsSpace(x[|x| - 1])
    ensures Strip(a + x + b) == x
    decreases |a| + |b|
  {
    var s := a + x + b;
    if |a| > 0 {
      assert s[1..] == a[1..] + x + b;
      StripPadded(a[1..], x, b);
    } else if |b| > 0 {
      assert s[..|s| - 1] == [] + x + b[..|b| - 1];
      StripPadded([], x, b[..|b| - 1]);
    } else {
      assert s == x;
    }
  }

  /** `int()` accepts digits padded with white space: `int(" 42 ") == 42`. */
  lemma ParseIntPadded(pre: string, d: string, post: string)
    requires AllSpace(pre) && AllSpace(post) && IsDigits(d)
    ensures ParseInt(pre + d + post) == Some(DigitsValue(d))
  {
    assert !IsSpace(d[0]) && !IsSpace(d[|d| - 1]) by { assert IsDigit(d[0]) && IsDigit(d[|d| - 1]); }
    StripPadded(pre, d, post);
  }

  /**
   * A sign may stand between the white space and the digits, with white space after it as well:
   * `int("  - 5 ") == -5`.
   */
  lemma ParseIntSigned(pre: string, sign: char, mid: string, d: string, post: string)
    requires AllSpace(pre) && AllSpace(mid) && AllSpace(post) && IsDigits(d)
    requires sign == '-' || sign == '+'
    ensures ParseInt(pre + [sign] + mid + d + post)
            == Some(if sign == '-' then 0 - DigitsValue(d) else DigitsValue(d))
  {
    var x := [sign] + mid + d;
    assert pre + [sign] + mid + d + post == pre + x + post;
    assert !IsSpace(x[|x| - 1]) by {
      assert x[|x| - 1] == d[|d| - 1];
      assert IsDigit(d[|d| - 1]);
    }
    StripPadded(pre, x, post);
    assert !IsSpace(d[0]) && !IsSpace(d[|d| - 1]) by { assert IsDigit(d[0]) && IsDigit(d[|d| - 1]); }
    assert x[1..] == mid + d + [];
    StripPadded(mid, d, []);
    assert Strip(x[1..]) == d;
  }

  function DigitChar(d: int): char
    requires 0 <= d <= 9
  {
    ('0' as int + d) as char
  }

  /** The decimal digits of a natural number, without leading zeros. */
  function Digits(n: nat): (s: string)
    ensures IsDigits(s)
  {
    if n < 10 then [DigitChar(n)] else Digits(n / 10) + [DigitChar(n % 10)]
  }

  /** `str(n)` and `"%d" % n` for an integer. */
  function Str(n: int): string {
    if n < 0 then "-" + Digits(-n) else Digits(n)
  }

  lemma {:induction false} DigitsValueOfDigits(n: nat)
    ensures DigitsValue(Digits(n)) == n
  {
    if n >= 10 {
      DigitsValueOfDigits(n / 10);
      var s := Digits(n);
      assert s[..|s| - 1] == Digits(n / 10);
    }
  }

  /** `int(str(n)) == n` for every integer. */
  lemma ParseIntStr(n: int)
    ensures ParseInt(Str(n)) == Some(n)
  {
    var s := Str(n);
    if n < 0 {
      var d := Digits(-n);
      DigitsValueOfDigits(-n);
      assert s[1..] == d;
      assert !IsSpace(s[|s| - 1]) by { assert IsDigit(d[|d| - 1]); }
      assert Strip(d) == d by { assert IsDigit(d[0]) && IsDigit(d[|d| - 1]); }
    } else {
      DigitsValueOfDigits(n);
      assert !IsSpace(s[|s| - 1]) by { assert IsDigit(s[|s| - 1]); }
    }
    assert Strip(s) == s;
  }
}
