/**
 * The Python string operations the parser relies on: `str.strip()`,
 * `str.split('-')`, the substring test `sub in s`, and `int(s)` on base-10
 * text, together with a decimal renderer that serves as their inverse.
 */
module Text {
  import opened Results

  /** The characters for which Python's `str.isspace()` holds; `strip()` with
      no argument removes exactly these. */
  predicate IsSpace(c: char) {
    || ('\t' <= c <= '\r')
    || ('\U{1C}' <= c <= '\U{1F}')
    || c == ' '
    || c == '\U{85}'
    || c == '\U{A0}'
    || c == '\U{1680}'
    || ('\U{2000}' <= c <= '\U{200A}')
    || c == '\U{2028}'
    || c == '\U{2029}'
    || c == '\U{202F}'
    || c == '\U{205F}'
    || c == '\U{3000}'
  }

  predicate AllSpace(s: string) {
    forall i :: 0 <= i < |s| ==> IsSpace(s[i])
  }

  /** The information separators U+001C..U+001F: `str.isspace()` holds of
      them, but `int()` does not skip them. */
  predicate IsInfoSeparator(c: char) {
    '\U{1C}' <= c <= '\U{1F}'
  }

  /** The whitespace `int()` skips around a number. */
  predicate IsIntSpace(c: char) {
    IsSpace(c) && !IsInfoSeparator(c)
  }

  predicate AllIntSpace(s: string) {
    forall i :: 0 <= i < |s| ==> IsIntSpace(s[i])
  }

  predicate NoInfoSeparator(s: string) {
    forall i :: 0 <= i < |s| ==> !IsInfoSeparator(s[i])
  }

  /** Neither end of `s` is whitespace (vacuously true of the empty string). */
  predicate Trimmed(s: string) {
    s == [] || (!IsSpace(s[0]) && !IsSpace(s[|s| - 1]))
  }

  /** Python's `s.lstrip()`. */
  function TrimStart(s: string): (r: string)
    ensures |r| <= |s|
  {
    if s != [] && IsSpace(s[0]) then TrimStart(s[1..]) else s
  }

  /** `lstrip` removes a whitespace prefix and stops at the first other
      character. */
  lemma {:induction false} TrimStartShape(s: string)
    ensures var r := TrimStart(s);
      r == s[|s| - |r|..] && AllSpace(s[..|s| - |r|]) && (r == [] || !IsSpace(r[0]))
  {
    if s != [] && IsSpace(s[0]) {
      TrimStartShape(s[1..]);
      var r := TrimStart(s);
      assert s[1..][|s| - 1 - |r|..] == s[|s| - |r|..];
      assert s[..|s| - |r|] == [s[0]] + s[1..][..|s| - 1 - |r|];
    }
  }

  /** Python's `s.rstrip()`. */
  function TrimEnd(s: string): (r: string)
    ensures |r| <= |s|
  {
    if s != [] && IsSpace(s[|s| - 1]) then TrimEnd(s[..|s| - 1]) else s
  }

  /** `rstrip` removes a whitespace suffix and stops at the last other
      character. */
  lemma {:induction false} TrimEndShape(s: string)
    ensures var r := TrimEnd(s);
      r == s[..|r|] && AllSpace(s[|r|..]) && (r == [] || !IsSpace(r[|r| - 1]))
  {
    if s != [] && IsSpace(s[|s| - 1]) {
      TrimEndShape(s[..|s| - 1]);
      var r := TrimEnd(s);
      assert s[..|s| - 1][..|r|] == s[..|r|];
      assert s[|r|..] == s[..|s| - 1][|r|..] + [s[|s| - 1]];
    }
  }

  /** Python's `s.strip()`: the result is `s` with its leading and trailing
      whitespace cut off, and nothing else. */
  function Strip(s: string): string {
    TrimEnd(TrimStart(s))
  }

  /** What `Strip` leaves is a trimmed piece of `s` with only whitespace
      around it. */
  lemma StripShape(s: string)
    ensures Trimmed(Strip(s))
    ensures var i, r := |s| - |TrimStart(s)|, Strip(s);
      i + |r| <= |s| && r == s[i..i + |r|] && AllSpace(s[..i]) && AllSpace(s[i + |r|..])
  {
    var t := TrimStart(s);
    var r := TrimEnd(t);
    var i := |s| - |t|;
    TrimStartShape(s);
    TrimEndShape(t);
    assert t == s[i..];
    assert r == s[i..i + |r|] by {
      assert r == t[..|r|];
    }
    assert t[|r|..] == s[i + |r|..];
  }

  lemma {:induction false} TrimStartPadded(pre: string, x: string)
    requires AllSpace(pre)
    requires x == [] || !IsSpace(x[0])
    ensures TrimStart(pre + x) == x
  {
    if pre == [] {
      assert pre + x == x;
    } else {
      assert (pre + x)[1..] == pre[1..] + x;
      TrimStartPadded(pre[1..], x);
    }
  }

  lemma {:induction false} TrimEndPadded(x: string, post: string)
    requires AllSpace(post)
    requires x == [] || !IsSpace(x[|x| - 1])
    ensures TrimEnd(x + post) == x
  {
    if post == [] {
      assert x + post == x;
    } else {
      assert (x + post)[..|x + post| - 1] == x + post[..|post| - 1];
      TrimEndPadded(x, post[..|post| - 1]);
    }
  }

  /** Surrounding whitespace is all that `Strip` removes: the trimmed core of
      a padded string is recovered exactly. */
  lemma StripPadded(pre: string, core: string, post: string)
    requires AllSpace(pre) && AllSpace(post) && Trimmed(core)
    ensures Strip(pre + core + post) == core
  {
    if core == [] {
      assert pre + core + post == pre + post + [];
      TrimStartPadded(pre + post, []);
    } else {
      assert pre + core + post == pre + (core + post);
      TrimStartPadded(pre, core + post);
      TrimEndPadded(core, post);
    }
  }

  /** A string with no whitespace at either end is left alone. */
  lemma StripTrimmed(s: string)
    requires Trimmed(s)
    ensures Strip(s) == s
  {
    StripPadded([], s, []);
    assert [] + s + [] == s;
  }

  /** Stripping twice is the same as stripping once. */
  lemma StripIdempotent(s: string)
    ensures Strip(Strip(s)) == Strip(s)
  {
    StripShape(s);
    StripPadded([], Strip(s), []);
    assert [] + Strip(s) + [] == Strip(s);
  }

  /** Python's `s.startswith(prefix)`. */
  predicate StartsWith(s: string, prefix: string) {
    |prefix| <= |s| && s[..|prefix|] == prefix
  }

  /** `sub` occurs in `s` starting at index `i`. */
  predicate OccursAt(s: string, sub: string, i: int) {
    0 <= i <= |s| - |sub| && s[i..i + |sub|] == sub
  }

  /** Python's `sub in s`: case-sensitive substring search. */
  function Contains(s: string, sub: string): bool {
    StartsWith(s, sub) || (s != [] && Contains(s[1..], sub))
  }

  /** `Contains` finds `sub` exactly when it occurs somewhere in `s`. */
  lemma {:induction false} ContainsOccurs(s: string, sub: string)
    ensures Contains(s, sub) <==> exists i :: OccursAt(s, sub, i)
  {
    if StartsWith(s, sub) {
      assert OccursAt(s, sub, 0);
    } else if s != [] {
      ContainsOccurs(s[1..], sub);
      forall i ensures OccursAt(s[1..], sub, i) <==> OccursAt(s, sub, i + 1) {
        if 0 <= i <= |s| - 1 - |sub| {
          assert s[1..][i..i + |sub|] == s[i + 1..i + 1 + |sub|];
        }
      }
      assert !OccursAt(s, sub, 0);
      assert forall i :: OccursAt(s, sub, i) ==> OccursAt(s[1..], sub, i - 1);
    }
  }

  predicate NoSpace(s: string) {
    forall k :: 0 <= k < |s| ==> !IsSpace(s[k])
  }

  lemma OccursShift(pre: string, r: string, post: string, sub: string, i: int)
    requires OccursAt(r, sub, i)
    ensures OccursAt(pre + r + post, sub, |pre| + i)
  {
    var s := pre + r + post;
    assert s[|pre| + i..|pre| + i + |sub|] == r[i..i + |sub|];
  }

  /** An occurrence of a non-empty, whitespace-free text cannot overlap
      whitespace padding. */
  lemma OccursInside(pre: string, r: string, post: string, sub: string, i: int)
    requires AllSpace(pre) && AllSpace(post) && sub != [] && NoSpace(sub)
    requires OccursAt(pre + r + post, sub, i)
    ensures OccursAt(r, sub, i - |pre|)
  {
    var s := pre + r + post;
    var last := i + |sub| - 1;
    assert s[i] == sub[0] && s[last] == sub[|sub| - 1];
    assert !IsSpace(s[i]) && !IsSpace(s[last]);
    assert r[i - |pre|..i - |pre| + |sub|] == s[i..i + |sub|];
  }

  /** A non-empty, whitespace-free text occurs in a padded text exactly when
      it occurs in what is padded. */
  lemma ContainsPadded(pre: string, r: string, post: string, sub: string)
    requires AllSpace(pre) && AllSpace(post) && sub != [] && NoSpace(sub)
    ensures Contains(pre + r + post, sub) <==> Contains(r, sub)
  {
    ContainsOccurs(pre + r + post, sub);
    ContainsOccurs(r, sub);
    if Contains(r, sub) {
      var i :| OccursAt(r, sub, i);
      OccursShift(pre, r, post, sub, i);
    }
    if Contains(pre + r + post, sub) {
      var i :| OccursAt(pre + r + post, sub, i);
      OccursInside(pre, r, post, sub, i);
    }
  }

  /** Such a text occurs in `s` exactly when it occurs in `s` stripped. */
  lemma ContainsStrip(s: string, sub: string)
    requires sub != [] && NoSpace(sub)
    ensures Contains(Strip(s), sub) <==> Contains(s, sub)
  {
    var r := Strip(s);
    var a := |s| - |TrimStart(s)|;
    StripShape(s);
    assert s == s[..a] + r + s[a + |r|..];
    ContainsPadded(s[..a], r, s[a + |r|..], sub);
  }

  /** Python's `sep.join(parts)` for a one-character separator. */
  function Join(parts: seq<string>, sep: char): string
    requires |parts| >= 1
  {
    if |parts| == 1 then parts[0] else parts[0] + [sep] + Join(parts[1..], sep)
  }

  /** Python's `s.split(sep)` for a one-character separator: the maximal
      separator-free pieces between separators, always at least one. */
  function Split(s: string, sep: char): (parts: seq<string>)
    ensures |parts| >= 1
  {
    if s == [] then [[]]
    else
      var rest := Split(s[1..], sep);
      if s[0] == sep then [[]] + rest
      else [[s[0]] + rest[0]] + rest[1..]
  }

  /** The pieces `split` returns hold no separator, and joining them with
      the separator gives back the string. */
  lemma {:induction false} SplitShape(s: string, sep: char)
    ensures forall k :: 0 <= k < |Split(s, sep)| ==> sep !in Split(s, sep)[k]
    ensures Join(Split(s, sep), sep) == s
  {
    if s != [] {
      var rest := Split(s[1..], sep);
      SplitShape(s[1..], sep);
      var parts := Split(s, sep);
      if s[0] == sep {
        assert parts[1..] == rest;
      } else {
        assert parts[1..] == rest[1..];
        if |rest| > 1 {
          assert rest[1..] == Split(s[1..], sep)[1..];
          assert Join(rest, sep) == rest[0] + [sep] + Join(rest[1..], sep);
        }
      }
    }
  }

  /** The number of occurrences of `c` in `s`. */
  function Count(s: string, c: char): nat {
    if s == [] then 0 else (if s[0] == c then 1 else 0) + Count(s[1..], c)
  }

  /** `split` yields one piece more than there are separators. */
  lemma {:induction false} SplitCount(s: string, sep: char)
    ensures |Split(s, sep)| == Count(s, sep) + 1
  {
    if s != [] {
      SplitCount(s[1..], sep);
    }
  }

  /** A separator-free piece glued to the front of `tail` extends the first
      piece of `tail`'s split. */
  lemma {:induction false} SplitPrefix(p: string, tail: string, sep: char)
    requires sep !in p
    ensures Split(p + tail, sep) == [p + Split(tail, sep)[0]] + Split(tail, sep)[1..]
  {
    if p != [] {
      var parts := Split(tail, sep);
      assert (p + tail)[1..] == p[1..] + tail;
      SplitPrefix(p[1..], tail, sep);
      var rest := Split(p[1..] + tail, sep);
      assert rest[0] == p[1..] + parts[0] && rest[1..] == parts[1..];
      assert (p + tail)[0] == p[0] && p[0] != sep;
      assert [p[0]] + (p[1..] + parts[0]) == p + parts[0];
    } else {
      var parts := Split(tail, sep);
      assert p + tail == tail;
      assert p + parts[0] == parts[0];
      assert [parts[0]] + parts[1..] == parts;
    }
  }

  /** `split` undoes `join` when no piece contains the separator. */
  lemma {:induction false} SplitJoin(parts: seq<string>, sep: char)
    requires |parts| >= 1
    requires forall k :: 0 <= k < |parts| ==> sep !in parts[k]
    ensures Split(Join(parts, sep), sep) == parts
  {
    var p0 := parts[0];
    if |parts| == 1 {
      SplitPrefix(p0, [], sep);
      assert p0 + [] == p0;
    } else {
      var tail := parts[1..];
      var rest := Join(tail, sep);
      SplitJoin(tail, sep);
      var t := [sep] + rest;
      assert t[1..] == rest;
      assert Split(t, sep) == [[]] + tail;
      SplitPrefix(p0, t, sep);
      assert p0 + [] == p0;
      assert Join(parts, sep) == p0 + t;
      assert parts == [p0] + tail;
    }
  }

  predicate IsDigit(c: char) {
    '0' <= c <= '9'
  }

  predicate AllDigits(s: string) {
    forall i :: 0 <= i < |s| ==> IsDigit(s[i])
  }

  function DigitValue(c: char): nat
    requires IsDigit(c)
  {
    c as int - '0' as int
  }

  /** The value of a string of decimal digits, leading zeros allowed. */
  function DigitsValue(s: string): nat
    requires AllDigits(s)
  {
    if s == [] then 0 else DigitsValue(s[..|s| - 1]) * 10 + DigitValue(s[|s| - 1])
  }

  /** Python's `str(n)` for a natural number. */
  function NatToString(n: nat): (s: string)
    ensures |s| >= 1 && AllDigits(s)
  {
    var d := [('0' as int + n % 10) as char];
    if n < 10 then d else NatToString(n / 10) + d
  }

  /** Python's `str(n)` for any integer. */
  function IntToString(n: int): string {
    if n < 0 then "-" + NatToString(-n) else NatToString(n)
  }

  /** Reading back the decimal text of `n` gives `n`. */
  lemma {:induction false} NatToStringValue(n: nat)
    ensures DigitsValue(NatToString(n)) == n
  {
    if n >= 10 {
      NatToStringValue(n / 10);
      var s := NatToString(n);
      assert s[..|s| - 1] == NatToString(n / 10);
    }
  }

  /** Python's `int()` refuses a text of more digits than this
      (`sys.get_int_max_str_digits()`, 4300 by default since Python 3.11). */
  const MaxIntDigits: nat := 4300

  /** `str(n)` is short enough for `int` to read it back. */
  predicate FitsDigitLimit(n: int) {
    |NatToString(if n < 0 then -n else n)| <= MaxIntDigits
  }

  /** Every number below 4300 in magnitude fits the limit. */
  lemma {:induction false} NatToStringLength(n: nat)
    ensures |NatToString(n)| <= n + 1
  {
    if n >= 10 {
      NatToStringLength(n / 10);
    }
  }

  lemma SmallFitsDigitLimit(n: int)
    requires -(MaxIntDigits as int) < n < MaxIntDigits
    ensures FitsDigitLimit(n)
  {
    NatToStringLength(if n < 0 then -n else n);
  }

  /** Python's `int(s)` in base 10: the whitespace `int` skips, an optional
      sign, and one to `MaxIntDigits` ASCII digits. An information separator
      anywhere makes the text invalid, since `int` neither skips it nor reads
      it as a sign or a digit; without one, `int`'s whitespace and `strip`'s
      agree on `s`. */
  function ParseInt(s: string): Option<int> {
    var t := Strip(s);
    if !NoInfoSeparator(s) then
      None
    else if t != [] && (t[0] == '+' || t[0] == '-') then
      var digits := t[1..];
      if digits != [] && AllDigits(digits) && |digits| <= MaxIntDigits then
        var v: int := DigitsValue(digits);
        Some(if t[0] == '-' then -v else v)
      else
        None
    else if t != [] && AllDigits(t) && |t| <= MaxIntDigits then
      Some(DigitsValue(t))
    else
      None
  }

  /** Text without a minus sign never reads as a negative number. */
  lemma ParseIntUnsigned(s: string)
    requires '-' !in s
    ensures ParseInt(s).Some? ==> ParseInt(s).value >= 0
  {
    var t := Strip(s);
    if t != [] && t[0] == '-' {
      StripShape(s);
    }
  }

  predicate IsSign(sign: string) {
    sign == "" || sign == "+" || sign == "-"
  }

  function SignedValue(sign: string, d: string): int
    requires AllDigits(d)
  {
    if sign == "-" then 0 - DigitsValue(d) else DigitsValue(d)
  }

  /** An optional sign and one to `MaxIntDigits` digits, with only the
      whitespace `int` skips around them, read as their signed value. */
  lemma ParseIntPadded(pre: string, sign: string, d: string, post: string)
    requires AllIntSpace(pre) && AllIntSpace(post) && IsSign(sign)
    requires d != [] && AllDigits(d) && |d| <= MaxIntDigits
    ensures ParseInt(pre + (sign + d) + post) == Some(SignedValue(sign, d))
  {
    var core := sign + d;
    assert IsDigit(d[0]) && IsDigit(d[|d| - 1]);
    assert core[|core| - 1] == d[|d| - 1];
    assert Trimmed(core);
    StripPadded(pre, core, post);
    assert NoInfoSeparator(core) by {
      forall i | 0 <= i < |core|
        ensures !IsInfoSeparator(core[i])
      {
        if i >= |sign| {
          assert core[i] == d[i - |sign|];
        }
      }
    }
    NoSeparatorJoin(pre, core, post);
    if sign == "" {
      assert core == d;
    } else {
      assert core[0] == sign[0] && core[1..] == d;
    }
  }

  lemma NoSeparatorJoin(pre: string, core: string, post: string)
    requires AllIntSpace(pre) && NoInfoSeparator(core) && AllIntSpace(post)
    ensures NoInfoSeparator(pre + core + post)
  {
    var s := pre + core + post;
    forall i | 0 <= i < |s|
      ensures !IsInfoSeparator(s[i])
    {
      if i < |pre| {
        assert s[i] == pre[i];
      } else if i < |pre| + |core| {
        assert s[i] == core[i - |pre|];
      } else {
        assert s[i] == post[i - |pre| - |core|];
      }
    }
  }

  /** `s` is its stripped form with whitespace around it. */
  lemma StripCut(s: string) returns (pre: string, post: string)
    ensures s == pre + Strip(s) + post && AllSpace(pre) && AllSpace(post)
  {
    StripShape(s);
    var t := Strip(s);
    var i := |s| - |TrimStart(s)|;
    pre, post := s[..i], s[i + |t|..];
    assert s == pre + s[i..i + |t|] + post;
  }

  lemma NoSeparatorAround(pre: string, t: string, post: string)
    requires NoInfoSeparator(pre + t + post) && AllSpace(pre) && AllSpace(post)
    ensures AllIntSpace(pre) && AllIntSpace(post)
  {
    var s := pre + t + post;
    forall k | 0 <= k < |pre|
      ensures IsIntSpace(pre[k])
    {
      assert pre[k] == s[k];
    }
    forall k | 0 <= k < |post|
      ensures IsIntSpace(post[k])
    {
      assert post[k] == s[|pre| + |t| + k];
    }
  }

  /** Conversely, whatever `int` reads is such a text: a sign and digits
      with only the whitespace `int` skips around them. */
  lemma ParseIntSound(s: string)
    requires ParseInt(s).Some?
    ensures exists pre, sign, d, post ::
      && s == pre + (sign + d) + post && AllIntSpace(pre) && AllIntSpace(post) && IsSign(sign)
      && d != [] && AllDigits(d) && |d| <= MaxIntDigits && ParseInt(s) == Some(SignedValue(sign, d))
  {
    var t := Strip(s);
    var pre, post := StripCut(s);
    NoSeparatorAround(pre, t, post);
    var signed := t[0] == '+' || t[0] == '-';
    var sign := if signed then [t[0]] else "";
    var d := if signed then t[1..] else t;
    assert t == sign + d by {
      if signed {
        assert t == t[..1] + t[1..];
      }
    }
    assert d != [] && AllDigits(d) && |d| <= MaxIntDigits;
    ParseIntPadded(pre, sign, d, post);
  }

  /** `int` reads back what `str` writes, with the whitespace `int` skips
      around it. */
  lemma ParseIntToString(n: int, pre: string, post: string)
    requires AllIntSpace(pre) && AllIntSpace(post) && FitsDigitLimit(n)
    ensures ParseInt(pre + IntToString(n) + post) == Some(n)
  {
    var m: nat := if n < 0 then -n else n;
    var d := NatToString(m);
    var sign := if n < 0 then "-" else "";
    NatToStringValue(m);
    assert IntToString(n) == sign + d;
    ParseIntPadded(pre, sign, d, post);
  }
}
