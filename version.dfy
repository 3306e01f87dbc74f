/** The version extractor of rom_duplicate_manager/utils/helpers.py:41-111
    (also rom_duplicate_manager.py:129-199): a variable-length tuple
    date ++ version ++ proto/beta ++ other-number, each part defaulting to
    zeros. Every regular expression is written out as the positions where it
    matches, with the leftmost match (`re.search`) or the left-to-right
    non-overlapping scan (`re.findall`) made explicit. */
module Version {
  import opened Text
  import opened Wrappers
  import Normalizer

  // ---------------------------------------------------------------------
  // Shared pieces
  // ---------------------------------------------------------------------

  function SkipDigits(s: string, i: nat): (j: nat)
    requires i <= |s|
    ensures i <= j <= |s|
    ensures forall k :: i <= k < j ==> IsDigit(s[k])
    ensures j < |s| ==> !IsDigit(s[j])
  {
    Normalizer.SkipDigits(s, i)
  }

  /** Where `\d+(?:\.\d+)*` ends when it starts at `k` (both parts greedy). */
  function DottedEnd(s: string, k: nat): (e: nat)
    requires k < |s| && IsDigit(s[k])
    ensures k < e <= |s|
    ensures forall j :: k <= j < e ==> IsDigit(s[j]) || s[j] == '.'
    decreases |s| - k
  {
    var e := SkipDigits(s, k);
    if e + 1 < |s| && s[e] == '.' && IsDigit(s[e + 1]) then DottedEnd(s, e + 1) else e
  }

  /** `tuple(map(int, group.split('.')))` for the number matched at `k`. */
  function DottedValues(s: string, k: nat): (r: seq<nat>)
    requires k < |s| && IsDigit(s[k])
    ensures |r| >= 1
    decreases |s| - k
  {
    var e := SkipDigits(s, k);
    [DigitsValue(s[k..e])]
      + (if e + 1 < |s| && s[e] == '.' && IsDigit(s[e + 1]) then DottedValues(s, e + 1) else [])
  }

  // ---------------------------------------------------------------------
  // Date: r'(20\d{2}|19\d{2})[.\-_](\d{1,2})[.\-_](\d{1,2})', then
  //       r'(?<!\d)(20\d{2}|19\d{2})(\d{2})(\d{2})(?!\d)'
  // ---------------------------------------------------------------------

  predicate YearAt(s: string, i: nat) {
    i + 4 <= |s| && ((s[i] == '2' && s[i + 1] == '0') || (s[i] == '1' && s[i + 1] == '9'))
    && IsDigit(s[i + 2]) && IsDigit(s[i + 3])
  }

  predicate IsDateSep(c: char) {
    c == '.' || c == '-' || c == '_'
  }

  function DayValue(s: string, d: nat): nat
    requires d < |s| && IsDigit(s[d])
  {
    if d + 1 < |s| && IsDigit(s[d + 1]) then DigitsValue(s[d..d + 2]) else DigitsValue(s[d..d + 1])
  }

  /** The separated date pattern at `i`. The month takes two digits when a
      separator follows them and one digit otherwise; the day takes two
      digits when there are two. */
  function SeparatedDateAt(s: string, i: nat): Option<seq<nat>> {
    if !(YearAt(s, i) && i + 5 < |s| && IsDateSep(s[i + 4]) && IsDigit(s[i + 5])) then None
    else
      var m := i + 5;
      var year := DigitsValue(s[i..i + 4]);
      if m + 3 < |s| && IsDigit(s[m + 1]) && IsDateSep(s[m + 2]) && IsDigit(s[m + 3]) then
        Some([year, DigitsValue(s[m..m + 2]), DayValue(s, m + 3)])
      else if m + 2 < |s| && IsDateSep(s[m + 1]) && IsDigit(s[m + 2]) then
        Some([year, DigitsValue(s[m..m + 1]), DayValue(s, m + 2)])
      else None
  }

  /** The compact date pattern at `i`, with its digit boundaries. */
  function CompactDateAt(s: string, i: nat): Option<seq<nat>> {
    if YearAt(s, i) && i + 8 <= |s| && AllDigits(s[i..i + 8])
       && (i == 0 || !IsDigit(s[i - 1])) && (i + 8 == |s| || !IsDigit(s[i + 8]))
    then
      var t := s[i..i + 8];
      Some([DigitsValue(t[..4]), DigitsValue(t[4..6]), DigitsValue(t[6..])])
    else None
  }

  function SearchSeparatedDate(s: string, i: nat): Option<seq<nat>>
    decreases |s| - i
  {
    if i >= |s| then None
    else if SeparatedDateAt(s, i).Some? then SeparatedDateAt(s, i)
    else SearchSeparatedDate(s, i + 1)
  }

  function SearchCompactDate(s: string, i: nat): Option<seq<nat>>
    decreases |s| - i
  {
    if i >= |s| then None
    else if CompactDateAt(s, i).Some? then CompactDateAt(s, i)
    else SearchCompactDate(s, i + 1)
  }

  /** `date_val`: the separated form is tried first, the compact form only
      when it finds nothing. */
  function DatePart(s: string): (r: seq<nat>)
    ensures |r| == 3
  {
    match SearchSeparatedDate(s, 0)
    case Some(d) => YearRange(s, 0); d
    case None =>
      match SearchCompactDate(s, 0)
      case Some(d) => YearRange(s, 0); d
      case None => [0, 0, 0]
  }

  /** A year of two fixed and two free digits lies in 1900..2099. */
  lemma YearValue(s: string, i: nat)
    requires YearAt(s, i)
    ensures AllDigits(s[i..i + 4]) && 1900 <= DigitsValue(s[i..i + 4]) <= 2099
  {
    var y := s[i..i + 4];
    assert y[..1][..0] == [];
    assert y[..2][..1] == y[..1];
    assert y[..3][..2] == y[..2];
    assert y[..3] == y[..|y| - 1];
    var a := y[0] as int - '0' as int;
    var b := y[1] as int - '0' as int;
    assert DigitsValue(y[..1]) == a;
    assert DigitsValue(y[..2]) == a * 10 + b;
    assert DigitsValue(y[..3]) <= (a * 10 + b) * 10 + 9;
    assert DigitsValue(y) <= ((a * 10 + b) * 10 + 9) * 10 + 9;
  }

  lemma {:induction false} YearRange(s: string, i: nat)
    requires i <= |s|
    ensures match SearchSeparatedDate(s, i)
      case Some(d) => |d| == 3 && 1900 <= d[0] <= 2099
      case None => true
    ensures match SearchCompactDate(s, i)
      case Some(d) => |d| == 3 && 1900 <= d[0] <= 2099
      case None => true
    decreases |s| - i
  {
    if i < |s| {
      if YearAt(s, i) {
        YearValue(s, i);
        if i + 8 <= |s| {
          assert s[i..i + 8][..4] == s[i..i + 4];
        }
      }
      YearRange(s, i + 1);
    }
  }

  // ---------------------------------------------------------------------
  // Explicit version: re.findall(r'v(?:er(?:sion)?)?[\s\-_]?(\d+(?:\.\d+)*)', ..., re.IGNORECASE)
  // ---------------------------------------------------------------------

  predicate IsVersionSep(c: char) {
    IsSpace(c) || c == '-' || c == '_'
  }

  /** `[\s\-_]?(\d+...)` after the word ends at `p`: the separator is taken
      when a number follows it, and otherwise the number must start at `p`.
      Gives the start and end of the captured number. */
  function NumberAfter(s: string, p: nat): Option<(nat, nat)> {
    if p + 1 < |s| && IsVersionSep(s[p]) && IsDigit(s[p + 1]) then Some((p + 1, DottedEnd(s, p + 1)))
    else if p < |s| && IsDigit(s[p]) then Some((p, DottedEnd(s, p)))
    else None
  }

  /** The version pattern at `i`: "version", then "ver", then "v" alone, in
      the order the greedy optional groups try them. */
  function VersionMatchAt(s: string, i: nat): (r: Option<(nat, nat)>)
    ensures r.Some? ==> i < r.value.0 < r.value.1 <= |s| && IsDigit(s[r.value.0])
  {
    if !(i < |s| && Lower(s[i]) == 'v') then None
    else if i + 7 <= |s| && LowerStr(s[i + 1..i + 7]) == "ersion" && NumberAfter(s, i + 7).Some? then
      NumberAfter(s, i + 7)
    else if i + 3 <= |s| && LowerStr(s[i + 1..i + 3]) == "er" && NumberAfter(s, i + 3).Some? then
      NumberAfter(s, i + 3)
    else NumberAfter(s, i + 1)
  }

  /** The `re.findall` scan from `i`, keeping the capture of the last match. */
  function LastVersionFrom(s: string, i: nat, last: Option<nat>): (r: Option<nat>)
    requires last.Some? ==> last.value < |s| && IsDigit(s[last.value])
    ensures r.Some? ==> r.value < |s| && IsDigit(s[r.value])
    decreases |s| - i
  {
    if i >= |s| then last
    else match VersionMatchAt(s, i)
      case Some((k, e)) => LastVersionFrom(s, e, Some(k))
      case None => LastVersionFrom(s, i + 1, last)
  }

  /** `v_val`: the numbers of the last match, or (0,). */
  function VersionNumbers(s: string): (r: seq<nat>)
    ensures |r| >= 1
  {
    match LastVersionFrom(s, 0, None)
    case Some(k) => DottedValues(s, k)
    case None => [0]
  }

  // ---------------------------------------------------------------------
  // Proto/beta: re.search(r'\((?:proto|beta)\s*(\d+)\)', filename_lower)
  // ---------------------------------------------------------------------

  function ProtoNumberAt(s: string, i: nat): Option<nat> {
    if !(i < |s| && s[i] == '(') then None
    else
      var p := if i + 6 <= |s| && s[i + 1..i + 6] == "proto" then i + 6
               else if i + 5 <= |s| && s[i + 1..i + 5] == "beta" then i + 5
               else 0;
      if p == 0 then None
      else
        var q := SkipSpace(s, p);
        if q < |s| && IsDigit(s[q]) then
          var e := SkipDigits(s, q);
          if e < |s| && s[e] == ')' then Some(DigitsValue(s[q..e])) else None
        else None
  }

  function SearchProto(s: string, i: nat): Option<nat>
    decreases |s| - i
  {
    if i >= |s| then None
    else if ProtoNumberAt(s, i).Some? then ProtoNumberAt(s, i)
    else SearchProto(s, i + 1)
  }

  /** `proto_val`. */
  function ProtoPart(lowered: string): (r: seq<nat>)
    ensures |r| == 1
  {
    match SearchProto(lowered, 0)
    case Some(n) => [n]
    case None => [0]
  }

  // ---------------------------------------------------------------------
  // Other number: re.search(r'\((\d+)\)', ...), else
  //               re.search(r'[_\s\-](\d+(?:\.\d+)*)$', ...)
  // ---------------------------------------------------------------------

  function ParenNumberAt(s: string, i: nat): Option<nat> {
    if i + 1 < |s| && s[i] == '(' && IsDigit(s[i + 1]) then
      var e := SkipDigits(s, i + 1);
      if e < |s| && s[e] == ')' then Some(DigitsValue(s[i + 1..e])) else None
    else None
  }

  function SearchParenNumber(s: string, i: nat): Option<nat>
    decreases |s| - i
  {
    if i >= |s| then None
    else if ParenNumberAt(s, i).Some? then ParenNumberAt(s, i)
    else SearchParenNumber(s, i + 1)
  }

  /** `[_\s\-]` at `i` followed by a dotted number that reaches the end. */
  predicate TrailingNumberAt(s: string, i: nat) {
    i + 1 < |s| && IsVersionSep(s[i]) && IsDigit(s[i + 1]) && DottedEnd(s, i + 1) == |s|
  }

  function SearchTrailingNumber(s: string, i: nat): (r: Option<nat>)
    ensures r.Some? ==> r.value + 1 < |s| && IsDigit(s[r.value + 1])
    decreases |s| - i
  {
    if i >= |s| then None
    else if TrailingNumberAt(s, i) then Some(i)
    else SearchTrailingNumber(s, i + 1)
  }

  /** `other_val`: a bare "(N)" anywhere wins over a trailing number. */
  function OtherPart(s: string): (r: seq<nat>)
    ensures |r| >= 1
  {
    match SearchParenNumber(s, 0)
    case Some(n) => [n]
    case None =>
      match SearchTrailingNumber(s, 0)
      case Some(i) => DottedValues(s, i + 1)
      case None => [0]
  }

  // ---------------------------------------------------------------------
  // extract_version
  // ---------------------------------------------------------------------

  /** `extract_version(filename)`: the date, the explicit version and the
      other number come from the name without its extension, the proto/beta
      number from the whole lowercased file name. */
  function ExtractVersion(filename: string): (r: seq<nat>)
    ensures |r| >= 6
  {
    var stem := Stem(filename);
    DatePart(stem) + VersionNumbers(stem) + ProtoPart(LowerStr(filename)) + OtherPart(stem)
  }

  // ---------------------------------------------------------------------
  // Properties
  // ---------------------------------------------------------------------

  /** The tuple has at least six components, and a year component that is
      not 0 lies in 1900..2099. */
  lemma ExtractVersionShape(filename: string)
    ensures var r := ExtractVersion(filename);
      |r| >= 6 && (r[0] == 0 || 1900 <= r[0] <= 2099)
  {
    YearRange(Stem(filename), 0);
  }

  /** With no date, no v/ver/version number, no "(proto N)"/"(beta N)", no
      "(N)" and no trailing separated number, the tuple is (0,0,0,0,0,0). */
  lemma NoMarkersAllZero(filename: string)
    requires var stem := Stem(filename);
      && SearchSeparatedDate(stem, 0).None? && SearchCompactDate(stem, 0).None?
      && LastVersionFrom(stem, 0, None).None?
      && SearchProto(LowerStr(filename), 0).None?
      && SearchParenNumber(stem, 0).None? && SearchTrailingNumber(stem, 0).None?
    ensures ExtractVersion(filename) == [0, 0, 0, 0, 0, 0]
  {
  }

  /** A leftmost search returns the value at the first matching position. */
  lemma {:induction false} SearchSeparatedDateFinds(s: string, i: nat, j: nat)
    requires i <= j && SeparatedDateAt(s, j).Some?
    requires forall k :: i <= k < j ==> SeparatedDateAt(s, k).None?
    ensures SearchSeparatedDate(s, i) == SeparatedDateAt(s, j)
    decreases j - i
  {
    assert j < |s|;
    if i < j {
      SearchSeparatedDateFinds(s, i + 1, j);
    }
  }

  /** A separated date wins over any compact date, wherever each occurs. */
  lemma SeparatedDateWins(s: string, j: nat)
    requires SeparatedDateAt(s, j).Some?
    requires forall k :: 0 <= k < j ==> SeparatedDateAt(s, k).None?
    ensures DatePart(s) == SeparatedDateAt(s, j).value
  {
    SearchSeparatedDateFinds(s, 0, j);
  }

  /** The compact form is only read between non-digits: a run of nine or
      more digits never yields a compact date at its start. */
  lemma CompactDateNeedsBoundary(s: string, i: nat)
    requires i + 9 <= |s| && AllDigits(s[i..i + 9])
    ensures CompactDateAt(s, i).None?
  {
    assert s[i..i + 9][8] == s[i + 8];
  }

  /** Inside a version match, after its first character, there is no 'v'. */
  lemma VersionMatchHasOneV(s: string, i: nat, j: nat)
    requires VersionMatchAt(s, i).Some?
    requires i < j < VersionMatchAt(s, i).value.1
    ensures Lower(s[j]) != 'v'
  {
    var (k, e) := VersionMatchAt(s, i).value;
    if j >= k {
      assert IsDigit(s[j]) || s[j] == '.';
    } else if i + 7 <= |s| && LowerStr(s[i + 1..i + 7]) == "ersion" && NumberAfter(s, i + 7).Some? {
      if j < i + 7 {
        assert LowerStr(s[i + 1..i + 7])[j - i - 1] == Lower(s[j]);
      }
    } else if i + 3 <= |s| && LowerStr(s[i + 1..i + 3]) == "er" && NumberAfter(s, i + 3).Some? {
      if j < i + 3 {
        assert LowerStr(s[i + 1..i + 3])[j - i - 1] == Lower(s[j]);
      }
    }
  }

  /** The scan reaches every position where the pattern matches, so the
      capture it keeps is that of the last match in the name. */
  lemma LastVersionFromFinds(s: string, i: nat, last: Option<nat>, j: nat)
    requires last.Some? ==> last.value < |s| && IsDigit(s[last.value])
    requires i <= j && VersionMatchAt(s, j).Some?
    requires forall m :: VersionMatchAt(s, j).value.1 <= m ==> VersionMatchAt(s, m).None?
    ensures LastVersionFrom(s, i, last) == Some(VersionMatchAt(s, j).value.0)
  {
    var f := VersionMatcher(s);
    LastVersionFromIsLastMatch(s, i, last);
    forall a | i <= a < j && f(a).Some?
      ensures a < f(a).value.1 <= j
    {
      MatchesDoNotOverlap(s, a, j);
    }
    LastMatchFinds(f, |s|, i, last, j);
  }

  /** `VersionMatchAt` on a fixed name. */
  function VersionMatcher(s: string): nat -> Option<(nat, nat)> {
    m => VersionMatchAt(s, m)
  }

  /** The `re.findall` scan for any matcher `f` on a text of length `n`,
      keeping the capture of the last match; a match that would not
      advance ends the scan. */
  function LastMatchFrom(f: nat -> Option<(nat, nat)>, n: nat, i: nat, last: Option<nat>): Option<nat>
    decreases n - i
  {
    if i >= n then last
    else match f(i)
      case Some((k, e)) => if i < e then LastMatchFrom(f, n, e, Some(k)) else last
      case None => LastMatchFrom(f, n, i + 1, last)
  }

  /** The version scan is the generic scan with the version pattern. */
  lemma {:induction false} LastVersionFromIsLastMatch(s: string, i: nat, last: Option<nat>)
    requires last.Some? ==> last.value < |s| && IsDigit(s[last.value])
    ensures LastVersionFrom(s, i, last) == LastMatchFrom(VersionMatcher(s), |s|, i, last)
    decreases |s| - i
  {
    if i < |s| {
      var m := VersionMatchAt(s, i);
      assert VersionMatcher(s)(i) == m;
      if m.Some? {
        LastVersionFromIsLastMatch(s, m.value.1, Some(m.value.0));
      } else {
        LastVersionFromIsLastMatch(s, i + 1, last);
      }
    }
  }

  /** When matches never overlap a later match at `j` and nothing matches
      after it, the scan keeps the capture of `j`. */
  lemma {:induction false} LastMatchFinds(f: nat -> Option<(nat, nat)>, n: nat, i: nat, last: Option<nat>, j: nat)
    requires i <= j < n && f(j).Some? && j < f(j).value.1
    requires forall m :: f(j).value.1 <= m < n ==> f(m).None?
    requires forall a :: i <= a < j && f(a).Some? ==> a < f(a).value.1 <= j
    ensures LastMatchFrom(f, n, i, last) == Some(f(j).value.0)
    decreases n - i
  {
    if i == j {
      LastMatchNone(f, n, f(j).value.1, Some(f(j).value.0));
    } else if f(i).Some? {
      LastMatchFinds(f, n, f(i).value.1, Some(f(i).value.0), j);
    } else {
      LastMatchFinds(f, n, i + 1, last, j);
    }
  }

  /** With no match from `i` on, the generic scan keeps what it had. */
  lemma {:induction false} LastMatchNone(f: nat -> Option<(nat, nat)>, n: nat, i: nat, last: Option<nat>)
    requires forall m :: i <= m < n ==> f(m).None?
    ensures LastMatchFrom(f, n, i, last) == last
    decreases n - i
  {
    if i < n {
      LastMatchNone(f, n, i + 1, last);
    }
  }

  /** A later match starts at or after the end of an earlier one. */
  lemma MatchesDoNotOverlap(s: string, i: nat, j: nat)
    requires i < j && VersionMatchAt(s, i).Some? && VersionMatchAt(s, j).Some?
    ensures VersionMatchAt(s, i).value.1 <= j
  {
    if VersionMatchAt(s, i).value.1 > j {
      VersionMatchHasOneV(s, i, j);
    }
  }

  /** With no match from `i` on, the scan keeps what it had. */
  lemma {:induction false} LastVersionFromNone(s: string, i: nat, last: Option<nat>)
    requires last.Some? ==> last.value < |s| && IsDigit(s[last.value])
    requires forall m :: i <= m ==> VersionMatchAt(s, m).None?
    ensures LastVersionFrom(s, i, last) == last
    decreases |s| - i
  {
    if i < |s| {
      LastVersionFromNone(s, i + 1, last);
    }
  }

  /** The explicit version is read from the last v/ver/version match. */
  lemma LastVersionWins(s: string, j: nat)
    requires VersionMatchAt(s, j).Some?
    requires forall m :: VersionMatchAt(s, j).value.1 <= m ==> VersionMatchAt(s, m).None?
    ensures VersionNumbers(s) == DottedValues(s, VersionMatchAt(s, j).value.0)
  {
    LastVersionFromFinds(s, 0, None, j);
  }

  /** A bare "(N)" in the name wins over a trailing number: the first one
      gives the other-number component. */
  lemma ParenNumberWins(s: string, j: nat)
    requires ParenNumberAt(s, j).Some?
    requires forall k :: 0 <= k < j ==> ParenNumberAt(s, k).None?
    ensures OtherPart(s) == [ParenNumberAt(s, j).value]
  {
    SearchParenNumberFinds(s, 0, j);
  }

  lemma {:induction false} SearchParenNumberFinds(s: string, i: nat, j: nat)
    requires i <= j && ParenNumberAt(s, j).Some?
    requires forall k :: i <= k < j ==> ParenNumberAt(s, k).None?
    ensures SearchParenNumber(s, i) == ParenNumberAt(s, j)
    decreases j - i
  {
    assert j < |s|;
    if i < j {
      SearchParenNumberFinds(s, i + 1, j);
    }
  }

  /** Without a bare "(N)", a trailing "_N", " N" or "-N" (dotted) gives the
      other-number components. */
  lemma {:induction false} TrailingNumberFallback(s: string, j: nat)
    requires SearchParenNumber(s, 0).None?
    requires TrailingNumberAt(s, j)
    requires forall k :: 0 <= k < j ==> !TrailingNumberAt(s, k)
    ensures OtherPart(s) == DottedValues(s, j + 1)
  {
    SearchTrailingFinds(s, 0, j);
  }

  lemma {:induction false} SearchTrailingFinds(s: string, i: nat, j: nat)
    requires i <= j && TrailingNumberAt(s, j)
    requires forall k :: i <= k < j ==> !TrailingNumberAt(s, k)
    ensures SearchTrailingNumber(s, i) == Some(j)
    decreases j - i
  {
    if i < j {
      SearchTrailingFinds(s, i + 1, j);
    }
  }

  /** The proto/beta number is read from the whole lowercased file name, so
      a "(Beta 2)" that `splitext` counts as part of the extension still
      sets it, while the other parts stay zero. */
  lemma ProtoReadsExtension()
    ensures ExtractVersion("Game.(Beta 2)") == [0, 0, 0, 0, 2, 0]
  {
    StemOfGame();
    NoNumbersInGame();
    BetaInGame();
  }

  lemma StemOfGame()
    ensures Stem("Game.(Beta 2)") == "Game"
  {
    var f := "Game.(Beta 2)";
    LastIndexOfIs(f, '.', |f|, 4);
    assert forall i :: 0 <= i < |f| ==> !IsSep(f[i]);
    assert AfterLastSep(f, |f|) == 0;
    assert f[0] != '.';
  }

  lemma BetaInGame()
    ensures ProtoPart(LowerStr("Game.(Beta 2)")) == [2]
  {
    LowerGame();
    BetaFoundInLowered("game.(beta 2)");
  }

  lemma LowerGame()
    ensures LowerStr("Game.(Beta 2)") == "game.(beta 2)"
  {
  }

  lemma BetaFoundInLowered(l: string)
    requires l == "game.(beta 2)"
    ensures SearchProto(l, 0) == Some(2)
  {
    BetaNumberAt(l);
    assert SearchProto(l, 5) == Some(2);
    assert l[0] != '(' && l[1] != '(' && l[2] != '(' && l[3] != '(' && l[4] != '(';
    SearchProtoSkips(l, 0, 5);
  }

  /** The search passes over characters that cannot open a parenthesis. */
  lemma {:induction false} SearchProtoSkips(s: string, i: nat, j: nat)
    requires i <= j <= |s|
    requires forall k :: i <= k < j ==> s[k] != '('
    ensures SearchProto(s, i) == SearchProto(s, j)
    decreases j - i
  {
    if i < j {
      SearchProtoSkips(s, i + 1, j);
    }
  }

  lemma BetaNumberAt(l: string)
    requires l == "game.(beta 2)"
    ensures ProtoNumberAt(l, 5) == Some(2)
  {
    assert l[6..10] == "beta";
    assert l[11..12] == "2";
    assert DigitsValue("2") == 2 by {
      assert "2"[..0] == [];
    }
    assert l[10] == ' ' && l[11] == '2' && l[12] == ')';
    assert SkipSpace(l, 10) == 11;
    assert Normalizer.SkipDigits(l, 12) == 12;
    assert SkipDigits(l, 11) == 12;
  }

  lemma NoNumbersInGame()
    ensures DatePart("Game") == [0, 0, 0]
    ensures VersionNumbers("Game") == [0]
    ensures OtherPart("Game") == [0]
  {
    var g := "Game";
    LastVersionFromNone(g, 0, None);
    assert SearchSeparatedDate(g, 0).None?;
    assert SearchCompactDate(g, 0).None?;
    assert SearchParenNumber(g, 0).None?;
    assert SearchTrailingNumber(g, 0).None?;
  }

  // ---------------------------------------------------------------------
  // Names without markers
  // ---------------------------------------------------------------------

  /** Without a '1' or a '2' there is no year, so neither date pattern
      matches. */
  lemma {:induction false} NoYearFrom(s: string, i: nat)
    requires forall k :: i <= k < |s| ==> s[k] != '1' && s[k] != '2'
    ensures SearchSeparatedDate(s, i).None? && SearchCompactDate(s, i).None?
    decreases |s| - i
  {
    if i < |s| {
      NoYearFrom(s, i + 1);
    }
  }

  /** Without "(p" or "(b" the proto/beta pattern does not match. */
  lemma {:induction false} NoProtoFrom(s: string, i: nat)
    requires forall k :: i <= k && k + 1 < |s| && s[k] == '(' ==> s[k + 1] != 'p' && s[k + 1] != 'b'
    ensures SearchProto(s, i).None?
    decreases |s| - i
  {
    if i < |s| {
      if i + 6 <= |s| {
        assert s[i + 1..i + 6][0] == s[i + 1];
      }
      if i + 5 <= |s| {
        assert s[i + 1..i + 5][0] == s[i + 1];
      }
      NoProtoFrom(s, i + 1);
    }
  }

  /** Without a digit after a '(' there is no "(N)". */
  lemma {:induction false} NoParenNumberFrom(s: string, i: nat)
    requires forall k :: i <= k && k + 1 < |s| && s[k] == '(' ==> !IsDigit(s[k + 1])
    ensures SearchParenNumber(s, i).None?
    decreases |s| - i
  {
    if i < |s| {
      NoParenNumberFrom(s, i + 1);
    }
  }

  /** Without a digit after a separator there is no trailing number. */
  lemma {:induction false} NoTrailingFrom(s: string, i: nat)
    requires forall k :: i <= k && k + 1 < |s| && IsVersionSep(s[k]) ==> !IsDigit(s[k + 1])
    ensures SearchTrailingNumber(s, i).None?
    decreases |s| - i
  {
    if i < |s| {
      NoTrailingFrom(s, i + 1);
    }
  }

  /** "a" carries no marker: six zeros. */
  lemma PlainVersion(f: string)
    requires |f| == 1 && f[0] == 'a'
    ensures ExtractVersion(f) == [0, 0, 0, 0, 0, 0]
  {
    assert Stem(f) == f;
    LowerKeeps(f);
    NoYearFrom(f, 0);
    LastVersionFromNone(f, 0, None);
    NoProtoFrom(f, 0);
    NoParenNumberFrom(f, 0);
    NoTrailingFrom(f, 0);
    NoMarkersAllZero(f);
  }

  /** "a (SECAM) (v0.0.0).zip": the extension ".zip" goes, and the stem's
      "v0.0.0" gives three version numbers, so the tuple has eight zeros. */
  lemma SecamVersion(f: string)
    requires Spells(f, "a (SECAM) (v0.0.0).zip")
    ensures ExtractVersion(f) == [0, 0, 0, 0, 0, 0, 0, 0]
  {
    var s := SecamStem(f);
    assert ExtractVersion(f) == DatePart(s) + VersionNumbers(s) + ProtoPart(LowerStr(f)) + OtherPart(s);
    SecamDate(s);
    SecamNumbers(s);
    SecamProto(f);
    SecamOther(s);
    EightZeros(DatePart(s), VersionNumbers(s), ProtoPart(LowerStr(f)), OtherPart(s));
  }

  lemma EightZeros(d: seq<nat>, v: seq<nat>, p: seq<nat>, o: seq<nat>)
    requires d == [0, 0, 0] && v == [0, 0, 0] && p == [0] && o == [0]
    ensures d + v + p + o == [0, 0, 0, 0, 0, 0, 0, 0]
  {
  }

  lemma SecamStem(f: string) returns (s: string)
    requires Spells(f, "a (SECAM) (v0.0.0).zip")
    ensures s == Stem(f) && Spells(s, "a (SECAM) (v0.0.0)")
  {
    assert f == "a (SECAM) (v0.0.0).zip";
    assert f[0] != '.';
    SplitExtAt(f, 18);
    s := f[..18];
  }

  lemma SecamDate(s: string)
    requires Spells(s, "a (SECAM) (v0.0.0)")
    ensures DatePart(s) == [0, 0, 0]
  {
    assert s == "a (SECAM) (v0.0.0)";
    NoYearFrom(s, 0);
  }

  lemma SecamNumbers(s: string)
    requires Spells(s, "a (SECAM) (v0.0.0)")
    ensures VersionNumbers(s) == [0, 0, 0]
  {
    assert s[11] == 'v' && s[12] == '0' && s[13] == '.' && s[14] == '0';
    assert s[15] == '.' && s[16] == '0' && s[17] == ')';
    ZeroVersionAt(s);
  }

  /** A name that ends in "v0.0.0)" reads the version (0, 0, 0). */
  lemma ZeroVersionAt(s: string)
    requires |s| == 18 && s[11] == 'v' && s[12] == '0' && s[13] == '.' && s[14] == '0'
    requires s[15] == '.' && s[16] == '0' && s[17] == ')'
    ensures VersionNumbers(s) == [0, 0, 0]
  {
    LastDigit(s, 16);
    DigitDotDigit(s, 14);
    DigitDotDigit(s, 12);
    VAndDigit(s, 11);
    LastVersionWins(s, 11);
  }

  /** A 'v' followed directly by a digit matches the short form "v" alone. */
  lemma VAndDigit(s: string, i: nat)
    requires i + 1 < |s| && Lower(s[i]) == 'v' && IsDigit(s[i + 1])
    ensures VersionMatchAt(s, i) == Some((i + 1, DottedEnd(s, i + 1)))
  {
    if i + 7 <= |s| {
      assert LowerStr(s[i + 1..i + 7])[0] == Lower(s[i + 1]);
    }
    if i + 3 <= |s| {
      assert LowerStr(s[i + 1..i + 3])[0] == Lower(s[i + 1]);
    }
  }

  /** A digit that nothing dotted follows is a one-digit number. */
  lemma LastDigit(s: string, k: nat)
    requires k < |s| && IsDigit(s[k])
    requires k + 1 < |s| && !IsDigit(s[k + 1]) && s[k + 1] != '.'
    ensures DottedEnd(s, k) == k + 1
    ensures DottedValues(s, k) == [s[k] as int - '0' as int]
  {
    assert SkipDigits(s, k) == k + 1;
    assert s[k..k + 1] == [s[k]];
    assert DigitsValue(s[k..k + 1]) == s[k] as int - '0' as int by {
      assert s[k..k + 1][..0] == [];
    }
  }

  /** A digit, a dot and a digit: the number goes on after the dot. */
  lemma DigitDotDigit(s: string, k: nat)
    requires k + 2 < |s| && IsDigit(s[k]) && s[k + 1] == '.' && IsDigit(s[k + 2])
    ensures DottedEnd(s, k) == DottedEnd(s, k + 2)
    ensures DottedValues(s, k) == [s[k] as int - '0' as int] + DottedValues(s, k + 2)
  {
    assert SkipDigits(s, k) == k + 1;
    assert s[k..k + 1] == [s[k]];
    assert DigitsValue(s[k..k + 1]) == s[k] as int - '0' as int by {
      assert s[k..k + 1][..0] == [];
    }
  }

  lemma SecamProto(f: string)
    requires Spells(f, "a (SECAM) (v0.0.0).zip")
    ensures ProtoPart(LowerStr(f)) == [0]
  {
    SecamLower(f);
    SecamLowerProto(LowerStr(f));
  }

  lemma SecamLower(f: string)
    requires Spells(f, "a (SECAM) (v0.0.0).zip")
    ensures Spells(LowerStr(f), "a (secam) (v0.0.0).zip")
  {
    assert f == "a (SECAM) (v0.0.0).zip";
    assert LowerStr(f) == "a (secam) (v0.0.0).zip";
  }

  lemma SecamLowerProto(l: string)
    requires Spells(l, "a (secam) (v0.0.0).zip")
    ensures ProtoPart(l) == [0]
  {
    assert l == "a (secam) (v0.0.0).zip";
    NoProtoFrom(l, 0);
  }

  lemma SecamOther(s: string)
    requires Spells(s, "a (SECAM) (v0.0.0)")
    ensures OtherPart(s) == [0]
  {
    assert s == "a (SECAM) (v0.0.0)";
    NoParenNumberFrom(s, 0);
    NoTrailingFrom(s, 0);
  }
}
