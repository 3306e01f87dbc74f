/** The pieces of Python's `str` and `ntpath` behaviour that the duplicate
    manager relies on, written out over `seq<char>`. */
module Text {

  /** `str.isspace()`, which is also what the `\s` class of `re` matches on
      `str` patterns. */
  predicate IsSpace(c: char) {
    ('\t' <= c <= '\r') || ('\U{1C}' <= c <= '\U{1F}') || c == ' '
    || c == '\U{85}' || c == '\U{A0}' || c == '\U{1680}'
    || ('\U{2000}' <= c <= '\U{200A}') || c == '\U{2028}' || c == '\U{2029}'
    || c == '\U{202F}' || c == '\U{205F}' || c == '\U{3000}'
  }

  /** The `\d` class, restricted to ASCII digits. */
  predicate IsDigit(c: char) {
    '0' <= c <= '9'
  }

  predicate AllDigits(s: string) {
    forall i :: 0 <= i < |s| ==> IsDigit(s[i])
  }

  /** `str.lower()` on one character (ASCII letters only). */
  function Lower(c: char): char {
    if 'A' <= c <= 'Z' then (c as int + 32) as char else c
  }

  function LowerStr(s: string): (r: string)
    ensures |r| == |s|
    ensures forall i :: 0 <= i < |s| ==> r[i] == Lower(s[i])
  {
    seq(|s|, i requires 0 <= i < |s| => Lower(s[i]))
  }

  /** The first index at or after `i` that does not hold whitespace. */
  function SkipSpace(s: string, i: nat): (j: nat)
    requires i <= |s|
    ensures i <= j <= |s|
    ensures forall k :: i <= k < j ==> IsSpace(s[k])
    ensures j < |s| ==> !IsSpace(s[j])
    decreases |s| - i
  {
    if i == |s| || !IsSpace(s[i]) then i else SkipSpace(s, i + 1)
  }

  /** The end of `s` once trailing whitespace down to index `lo` is removed. */
  function TrimEnd(s: string, lo: nat, j: nat): (e: nat)
    requires lo <= j <= |s|
    ensures lo <= e <= j
    ensures forall k :: e <= k < j ==> IsSpace(s[k])
    ensures e > lo ==> !IsSpace(s[e - 1])
    decreases j
  {
    if j == lo || !IsSpace(s[j - 1]) then j else TrimEnd(s, lo, j - 1)
  }

  /** A string with no whitespace at either end. */
  predicate Stripped(s: string) {
    s == [] || (!IsSpace(s[0]) && !IsSpace(s[|s| - 1]))
  }

  /** `str.strip()` with no argument. */
  function Strip(s: string): (r: string)
    ensures Stripped(r)
    ensures |r| <= |s|
    ensures Stripped(s) ==> r == s
  {
    var a := SkipSpace(s, 0);
    var b := TrimEnd(s, a, |s|);
    assert Stripped(s) && s != [] ==> a == 0 && b == |s|;
    s[a..b]
  }

  /** `Strip` only removes characters: its result is a slice of its input. */
  lemma StripIsSlice(s: string)
    ensures exists a, b :: 0 <= a <= b <= |s| && Strip(s) == s[a..b]
  {
    var a := SkipSpace(s, 0);
    var b := TrimEnd(s, a, |s|);
    assert Strip(s) == s[a..b];
  }

  /** A slice of `s` as long as `s` is `s` itself. */
  lemma FullSlice(s: string, a: nat, b: nat)
    requires a <= b <= |s| && b - a == |s|
    ensures s[a..b] == s
  {
  }

  /** Python `in` on two strings: substring test. */
  predicate Contains(text: string, pat: string) {
    exists i :: 0 <= i <= |text| && OccursAt(text, pat, i)
  }

  predicate OccursAt(text: string, pat: string, i: nat) {
    i + |pat| <= |text| && text[i..i + |pat|] == pat
  }

  /** `str.endswith`. */
  predicate EndsWith(s: string, suffix: string) {
    |suffix| <= |s| && s[|s| - |suffix|..] == suffix
  }

  /** `str.replace(pat, rep)`: left to right, non-overlapping. */
  function ReplaceAll(s: string, pat: string, rep: string): string
    requires |pat| > 0
    decreases |s|
  {
    if |s| < |pat| then s
    else if s[..|pat|] == pat then rep + ReplaceAll(s[|pat|..], pat, rep)
    else [s[0]] + ReplaceAll(s[1..], pat, rep)
  }

  /** Replacing a pattern that does not occur changes nothing. */
  lemma {:induction false} ReplaceAllAbsent(s: string, pat: string, rep: string)
    requires |pat| > 0 && !Contains(s, pat)
    ensures ReplaceAll(s, pat, rep) == s
    decreases |s|
  {
    if |s| >= |pat| {
      assert !OccursAt(s, pat, 0);
      assert !Contains(s[1..], pat) by {
        forall i | 0 <= i <= |s[1..]|
          ensures !OccursAt(s[1..], pat, i)
        {
          assert !OccursAt(s, pat, i + 1);
          if i + |pat| <= |s[1..]| {
            assert s[1..][i..i + |pat|] == s[i + 1..i + 1 + |pat|];
          }
        }
      }
      ReplaceAllAbsent(s[1..], pat, rep);
      assert [s[0]] + s[1..] == s;
    }
  }

  /** Lower-casing both sides keeps a substring a substring. */
  lemma ContainsLower(text: string, pat: string)
    requires Contains(text, pat)
    ensures Contains(LowerStr(text), LowerStr(pat))
  {
    var i :| 0 <= i <= |text| && OccursAt(text, pat, i);
    assert LowerStr(text)[i..i + |pat|] == LowerStr(pat);
    assert OccursAt(LowerStr(text), LowerStr(pat), i);
  }

  lemma LowerStrIdempotent(s: string)
    ensures LowerStr(LowerStr(s)) == LowerStr(s)
  {
  }

  /** `s.replace(a, b)` for single characters. */
  function ReplaceChar(s: string, a: char, b: char): (r: string)
    ensures |r| == |s|
    ensures forall i :: 0 <= i < |s| ==> r[i] == (if s[i] == a then b else s[i])
  {
    seq(|s|, i requires 0 <= i < |s| => if s[i] == a then b else s[i])
  }

  /** `s.replace('\\', '/')`. */
  function SlashPath(s: string): (r: string)
    ensures |r| == |s|
    ensures forall i :: 0 <= i < |s| ==> r[i] == (if s[i] == '\\' then '/' else s[i])
  {
    ReplaceChar(s, '\\', '/')
  }

  predicate IsSep(c: char) {
    c == '/' || c == '\\'
  }

  /** The index just after the last path separator in `s[..j]`, or 0. */
  function AfterLastSep(s: string, j: nat): (k: nat)
    requires j <= |s|
    ensures k <= j
    ensures k > 0 ==> IsSep(s[k - 1])
    ensures forall i :: k <= i < j ==> !IsSep(s[i])
    decreases j
  {
    if j == 0 || IsSep(s[j - 1]) then j else AfterLastSep(s, j - 1)
  }

  /** The length of the drive of a Windows path: "X:" (UNC shares are not
      modelled). */
  function DriveLen(p: string): (n: nat)
    ensures n <= |p|
  {
    if |p| >= 2 && !IsSep(p[0]) && p[1] == ':' then 2 else 0
  }

  /** The end of `s[..j]` with trailing separators removed. */
  function TrimSeps(s: string, j: nat): (e: nat)
    requires j <= |s|
    ensures e <= j
    decreases j
  {
    if j == 0 || !IsSep(s[j - 1]) then j else TrimSeps(s, j - 1)
  }

  /** `ntpath.split`: the directory part and the final component. */
  function SplitPath(p: string): (r: (string, string))
    ensures forall i :: 0 <= i < |r.1| ==> !IsSep(r.1[i])
    ensures EndsWith(p, r.1)
  {
    var d := DriveLen(p);
    var i := d + AfterLastSep(p[d..], |p| - d);
    var t := TrimSeps(p, i);
    var head := if t > d then p[d..t] else p[d..i];
    assert p[i..] == p[d..][i - d..];
    (p[..d] + head, p[i..])
  }

  /** `os.path.basename` (Windows flavour). */
  function Basename(p: string): string {
    SplitPath(p).1
  }

  /** `os.path.dirname` (Windows flavour). */
  function Dirname(p: string): string {
    SplitPath(p).0
  }

  /** The last index of `c` in `s[..j]`, if any. */
  function LastIndexOf(s: string, c: char, j: nat): (r: int)
    requires j <= |s|
    ensures -1 <= r < j
    ensures r >= 0 ==> s[r] == c
    ensures forall i :: r < i < j ==> s[i] != c
    decreases j
  {
    if j == 0 then -1 else if s[j - 1] == c then j - 1 else LastIndexOf(s, c, j - 1)
  }

  /** `LastIndexOf` finds the last occurrence. */
  lemma {:induction false} LastIndexOfIs(s: string, c: char, j: nat, m: nat)
    requires m < j <= |s| && s[m] == c
    requires forall i :: m < i < j ==> s[i] != c
    ensures LastIndexOf(s, c, j) == m
    decreases j
  {
    if j - 1 != m {
      LastIndexOfIs(s, c, j - 1, m);
    }
  }

  /** `os.path.splitext` (`genericpath._splitext` with the separators '\\'
      and '/'): the extension starts at the last dot of the last path
      component, unless only dots precede it in that component. */
  function SplitExt(p: string): (r: (string, string))
    ensures r.0 + r.1 == p
    ensures r.1 != [] ==> r.1[0] == '.'
    ensures forall i :: 1 <= i < |r.1| ==> r.1[i] != '.' && !IsSep(r.1[i])
  {
    var start := AfterLastSep(p, |p|);
    var dot := LastIndexOf(p, '.', |p|);
    if dot >= start && exists k :: start <= k < dot && p[k] != '.' then
      assert p[..dot] + p[dot..] == p;
      (p[..dot], p[dot..])
    else
      (p, "")
  }

  /** For a bare name whose last dot is at `dot`, with some character
      other than a dot before it, `splitext` splits at that dot. */
  lemma SplitExtAt(p: string, dot: nat)
    requires dot < |p| && p[dot] == '.'
    requires forall i :: 0 <= i < |p| ==> !IsSep(p[i])
    requires forall i :: dot < i < |p| ==> p[i] != '.'
    requires exists k :: 0 <= k < dot && p[k] != '.'
    ensures SplitExt(p) == (p[..dot], p[dot..])
  {
    assert AfterLastSep(p, |p|) == 0;
    LastIndexOfIs(p, '.', |p|, dot);
  }

  function Ext(p: string): string {
    SplitExt(p).1
  }

  function Stem(p: string): string {
    SplitExt(p).0
  }

  /** The value of a digit string, as `int()` reads it. */
  function DigitsValue(s: string): nat
    requires AllDigits(s)
  {
    if s == [] then 0
    else DigitsValue(s[..|s| - 1]) * 10 + (s[|s| - 1] as int - '0' as int)
  }

  function DigitChar(d: nat): char
    requires d < 10
  {
    ('0' as int + d) as char
  }

  /** `str(n)`. */
  function Decimal(n: nat): (r: string)
    ensures r != [] && AllDigits(r)
    ensures r[0] == '0' <==> n == 0
    ensures n < 10 ==> |r| == 1
    ensures n < 100 ==> |r| <= 2
    ensures n < 1000 ==> |r| <= 3
  {
    if n < 10 then [DigitChar(n)] else Decimal(n / 10) + [DigitChar(n % 10)]
  }

  /** `Decimal` is read back by `int()`. */
  lemma {:induction false} DecimalValue(n: nat)
    ensures DigitsValue(Decimal(n)) == n
  {
    if n >= 10 {
      DecimalValue(n / 10);
      var s := Decimal(n);
      assert s[..|s| - 1] == Decimal(n / 10);
    }
  }

  /** Three digits with leading zeros. */
  function Pad3(n: nat): (r: string)
    requires n < 1000
    ensures |r| == 3 && AllDigits(r)
  {
    [DigitChar(n / 100), DigitChar(n / 10 % 10), DigitChar(n % 10)]
  }

  /** Digits in groups of three separated by commas: counting from the
      right, every fourth character is a comma and all the others are
      digits. */
  predicate GroupedDigits(r: string) {
    forall i :: 0 <= i < |r| ==>
      (r[i] == ',' <==> (|r| - i) % 4 == 0) && (r[i] != ',' ==> IsDigit(r[i]))
  }

  /** A string of at most three digits is one group. */
  lemma ShortGroup(s: string)
    requires AllDigits(s) && |s| <= 3
    ensures GroupedDigits(s)
  {
  }

  /** One more comma and three-digit group keep the grouping. */
  lemma AppendGroup(front: string, m: nat)
    requires m < 1000 && GroupedDigits(front)
    ensures GroupedDigits(front + "," + Pad3(m))
  {
    var r := front + "," + Pad3(m);
    forall i | 0 <= i < |r|
      ensures (r[i] == ',' <==> (|r| - i) % 4 == 0) && (r[i] != ',' ==> IsDigit(r[i]))
    {
      if i < |front| {
        assert r[i] == front[i];
        assert |r| - i == (|front| - i) + 4;
      }
    }
  }

  /** Python's `f"{n:,}"`: decimal digits in groups of three separated by
      commas, with no leading zero. */
  function Thousands(n: nat): (r: string)
    ensures r != [] && IsDigit(r[0])
    ensures r[0] == '0' <==> n == 0
    ensures GroupedDigits(r)
  {
    if n < 1000 then
      ShortGroup(Decimal(n));
      Decimal(n)
    else
      AppendGroup(Thousands(n / 1000), n % 1000);
      Thousands(n / 1000) + "," + Pad3(n % 1000)
  }

  /** `s.replace(',', '')`. */
  function DropCommas(s: string): (r: string)
    ensures |r| <= |s|
    ensures forall i :: 0 <= i < |r| ==> r[i] != ','
  {
    if s == [] then []
    else DropCommas(s[..|s| - 1]) + (if s[|s| - 1] == ',' then [] else [s[|s| - 1]])
  }

  lemma {:induction false} DropCommasAppend(a: string, b: string)
    ensures DropCommas(a + b) == DropCommas(a) + DropCommas(b)
    decreases |b|
  {
    if b == [] {
      assert a + b == a;
    } else {
      assert (a + b)[..|a + b| - 1] == a + b[..|b| - 1];
      DropCommasAppend(a, b[..|b| - 1]);
    }
  }

  lemma {:induction false} DropCommasOfDigits(s: string)
    requires AllDigits(s)
    ensures DropCommas(s) == s
    decreases |s|
  {
    if s != [] {
      DropCommasOfDigits(s[..|s| - 1]);
      assert s == s[..|s| - 1] + [s[|s| - 1]];
    }
  }

  /** Appending a digit multiplies the value read so far by ten. */
  lemma DigitsValueSnoc(s: string, c: char)
    requires AllDigits(s) && IsDigit(c)
    ensures AllDigits(s + [c])
    ensures DigitsValue(s + [c]) == DigitsValue(s) * 10 + (c as int - '0' as int)
  {
    assert (s + [c])[..|s|] == s;
  }

  /** Appending a three-digit group multiplies by a thousand. */
  lemma Pad3Value(s: string, m: nat)
    requires AllDigits(s) && m < 1000
    ensures AllDigits(s + Pad3(m))
    ensures DigitsValue(s + Pad3(m)) == DigitsValue(s) * 1000 + m
  {
    var p := Pad3(m);
    DigitsValueSnoc(s, p[0]);
    DigitsValueSnoc(s + [p[0]], p[1]);
    DigitsValueSnoc(s + [p[0]] + [p[1]], p[2]);
    assert s + p == s + [p[0]] + [p[1]] + [p[2]];
    assert m == m / 100 * 100 + m / 10 % 10 * 10 + m % 10;
  }

  /** One more comma and three-digit group after `front`. */
  lemma GroupValue(front: string, m: nat)
    requires m < 1000 && AllDigits(DropCommas(front))
    ensures AllDigits(DropCommas(front + "," + Pad3(m)))
    ensures DigitsValue(DropCommas(front + "," + Pad3(m))) == DigitsValue(DropCommas(front)) * 1000 + m
  {
    var tail := Pad3(m);
    DropCommasAppend(front + ",", tail);
    DropCommasAppend(front, ",");
    assert DropCommas(",") == [] by {
      assert ","[..0] == [];
    }
    DropCommasOfDigits(tail);
    assert DropCommas(front + "," + tail) == DropCommas(front) + tail;
    Pad3Value(DropCommas(front), m);
  }

  /** Removing the commas from `f"{n:,}"` gives `str(n)` back, which
      `int()` reads as `n`. */
  lemma {:induction false} ThousandsValue(n: nat)
    ensures AllDigits(DropCommas(Thousands(n)))
    ensures DigitsValue(DropCommas(Thousands(n))) == n
  {
    if n < 1000 {
      DropCommasOfDigits(Decimal(n));
      DecimalValue(n);
    } else {
      ThousandsValue(n / 1000);
      GroupValue(Thousands(n / 1000), n % 1000);
      assert Thousands(n) == Thousands(n / 1000) + "," + Pad3(n % 1000);
    }
  }

  /** Different sizes are written differently. */
  lemma ThousandsInjective(a: nat, b: nat)
    requires Thousands(a) == Thousands(b)
    ensures a == b
  {
    ThousandsValue(a);
    ThousandsValue(b);
  }

  /** Python's `<` on `str`: lexicographic by code point, a proper prefix
      being smaller. */
  predicate StrLess(a: string, b: string)
    decreases |a|
  {
    if |a| == 0 then |b| > 0
    else if |b| == 0 then false
    else if a[0] != b[0] then a[0] < b[0]
    else StrLess(a[1..], b[1..])
  }

  lemma {:induction false} StrLessIrreflexive(a: string)
    ensures !StrLess(a, a)
  {
    if |a| > 0 {
      StrLessIrreflexive(a[1..]);
    }
  }

  lemma {:induction false} StrLessTotal(a: string, b: string)
    ensures a == b || StrLess(a, b) || StrLess(b, a)
  {
    if |a| > 0 && |b| > 0 && a[0] == b[0] {
      StrLessTotal(a[1..], b[1..]);
      if a[1..] == b[1..] {
        assert a == [a[0]] + a[1..] && b == [b[0]] + b[1..];
      }
    }
  }

  lemma {:induction false} StrLessAsymmetric(a: string, b: string)
    ensures !(StrLess(a, b) && StrLess(b, a))
  {
    if |a| > 0 && |b| > 0 && a[0] == b[0] {
      StrLessAsymmetric(a[1..], b[1..]);
    }
  }

  lemma {:induction false} StrLessTransitive(a: string, b: string, c: string)
    requires StrLess(a, b) && StrLess(b, c)
    ensures StrLess(a, c)
  {
    if |a| > 0 && a[0] == b[0] && b[0] == c[0] {
      StrLessTransitive(a[1..], b[1..], c[1..]);
    }
  }

  /** A path without separators and without a drive is a bare file name
      in the current directory. */
  lemma BareName(p: string)
    requires forall i :: 0 <= i < |p| ==> !IsSep(p[i])
    requires |p| < 2 || p[1] != ':'
    ensures Basename(p) == p && Dirname(p) == ""
  {
    assert AfterLastSep(p, |p|) == 0;
    assert p[0..] == p;
  }

  /** A pattern whose first three characters never occur together in `s`
      is not in `s`. */
  lemma NotContains(s: string, pat: string)
    requires |pat| >= 3
    requires forall i :: 0 <= i && i + 2 < |s| && s[i] == pat[0] ==> s[i + 1] != pat[1] || s[i + 2] != pat[2]
    ensures !Contains(s, pat)
  {
    forall i | 0 <= i <= |s|
      ensures !OccursAt(s, pat, i)
    {
      if i + |pat| <= |s| {
        assert s[i..i + |pat|][0] == s[i] && s[i..i + |pat|][1] == s[i + 1] && s[i..i + |pat|][2] == s[i + 2];
      }
    }
  }

  /** A string without capitals is its own lowercase. */
  lemma LowerKeeps(s: string)
    requires forall i :: 0 <= i < |s| ==> !('A' <= s[i] <= 'Z')
    ensures LowerStr(s) == s
  {
  }

  /** A path without backslashes is its own slashed form. */
  lemma SlashKeeps(s: string)
    requires forall i :: 0 <= i < |s| ==> s[i] != '\\'
    ensures SlashPath(s) == s
  {
  }

  /** `s` spells out `t` character by character (the same string, stated
      without an equation between the two). */
  predicate Spells(s: string, t: string) {
    |s| == |t| && forall i :: 0 <= i < |t| ==> s[i] == t[i]
  }
}
