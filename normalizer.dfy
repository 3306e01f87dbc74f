/** The filename normaliser of rom_duplicate_manager/utils/helpers.py:10-38
    (the same function sits at rom_duplicate_manager.py:98-126): it turns a
    file name into the key under which name-mode scanning groups files.

    The two `re.sub` calls are written out as "find the leftmost position
    where the pattern matches, and cut there": both patterns end in `$`, so a
    match always runs to the end of the name and there is at most one. */
module Normalizer {
  import opened Text

  // ---------------------------------------------------------------------
  // Catalog prefix: `re.sub(r'^\d{3,4}\s+', '', name)`
  // ---------------------------------------------------------------------

  /** The first index at or after `i` that is not an ASCII digit. */
  function SkipDigits(s: string, i: nat): (j: nat)
    requires i <= |s|
    ensures i <= j <= |s|
    ensures forall k :: i <= k < j ==> IsDigit(s[k])
    ensures j < |s| ==> !IsDigit(s[j])
    decreases |s| - i
  {
    if i == |s| || !IsDigit(s[i]) then i else SkipDigits(s, i + 1)
  }

  /** How many characters `^\d{3,4}\s+` matches at the start of `name` (0 if
      it does not match). With four or more leading digits the greedy `\d{3,4}`
      takes four and then needs whitespace, and backing off to three leaves a
      digit where whitespace is needed, so the run of leading digits must be
      exactly three or four long. */
  function CatalogPrefixLen(name: string): (n: nat)
    ensures n <= |name|
  {
    var d := SkipDigits(name, 0);
    if (d == 3 || d == 4) && d < |name| && IsSpace(name[d]) then SkipSpace(name, d) else 0
  }

  function StripCatalogPrefix(name: string): string {
    name[CatalogPrefixLen(name)..]
  }

  /** `ignore_system_prefix and system_extensions and ext.lower() in
      system_extensions` (an absent set is modelled as the empty set; both
      are falsy in Python). */
  predicate PrefixStripApplies(ext: string, systemExtensions: set<string>, ignoreSystemPrefix: bool) {
    ignoreSystemPrefix && systemExtensions != {} && LowerStr(ext) in systemExtensions
  }

  /** The name the fixpoint loop starts from. */
  function LoopStart(filename: string, systemExtensions: set<string>, ignoreSystemPrefix: bool): string {
    var (name, ext) := SplitExt(filename);
    if PrefixStripApplies(ext, systemExtensions, ignoreSystemPrefix) then StripCatalogPrefix(name) else name
  }

  // ---------------------------------------------------------------------
  // Copy marker: `re.sub(r'\s*-\s*Copy(?:\s*\(\d+\))?$', '', name, flags=re.IGNORECASE)`
  // ---------------------------------------------------------------------

  /** `\s*\(\d+\)$` matches `s[k..]`. */
  predicate CountTail(s: string, k: nat)
    requires k <= |s|
  {
    var p := SkipSpace(s, k);
    p + 3 <= |s| && s[p] == '(' && s[|s| - 1] == ')' && AllDigits(s[p + 1..|s| - 1])
  }

  /** The copy pattern matches from index `i` to the end of `s`. */
  predicate CopyTailAt(s: string, i: nat)
    requires i <= |s|
  {
    var j := SkipSpace(s, i);
    j < |s| && s[j] == '-' &&
    var c := SkipSpace(s, j + 1);
    c + 4 <= |s| && LowerStr(s[c..c + 4]) == "copy" && (c + 4 == |s| || CountTail(s, c + 4))
  }

  /** The leftmost `k >= i` where the copy pattern matches, or -1. */
  function CopyMatchFrom(s: string, i: nat): (k: int)
    requires i <= |s|
    ensures k == -1 || (i <= k < |s| && CopyTailAt(s, k))
    ensures forall m :: i <= m <= |s| && (k == -1 || m < k) ==> !CopyTailAt(s, m)
    decreases |s| - i
  {
    if CopyTailAt(s, i) then i
    else if i == |s| then -1
    else CopyMatchFrom(s, i + 1)
  }

  function CopySub(s: string): (r: string)
    ensures r == s || (|r| < |s| && r == s[..|r|])
  {
    var k := CopyMatchFrom(s, 0);
    if k < 0 then s else s[..k]
  }

  // ---------------------------------------------------------------------
  // Bracket group: `re.sub(r'\s*[\(\[].*?[\)\]]$', '', name)`
  // ---------------------------------------------------------------------

  predicate IsOpen(c: char) {
    c == '(' || c == '['
  }

  predicate IsClose(c: char) {
    c == ')' || c == ']'
  }

  /** The bracket pattern matches from index `i` to the end of `s`: after the
      whitespace comes an opening bracket, and the lazy `.*?` stretches to the
      closing bracket that `$` forces to be the last character. Round and
      square brackets may pair up either way. */
  predicate BracketTailAt(s: string, i: nat)
    requires i <= |s|
  {
    var j := SkipSpace(s, i);
    j + 1 < |s| && IsOpen(s[j]) && IsClose(s[|s| - 1])
  }

  /** The leftmost `k >= i` where the bracket pattern matches, or -1. */
  function BracketMatchFrom(s: string, i: nat): (k: int)
    requires i <= |s|
    ensures k == -1 || (i <= k < |s| && BracketTailAt(s, k))
    ensures forall m :: i <= m <= |s| && (k == -1 || m < k) ==> !BracketTailAt(s, m)
    decreases |s| - i
  {
    if BracketTailAt(s, i) then i
    else if i == |s| then -1
    else BracketMatchFrom(s, i + 1)
  }

  function BracketSub(s: string): (r: string)
    ensures r == s || (|r| < |s| && r == s[..|r|])
  {
    var k := BracketMatchFrom(s, 0);
    if k < 0 then s else s[..k]
  }

  // ---------------------------------------------------------------------
  // The loop
  // ---------------------------------------------------------------------

  /** One pass of the loop body. */
  function Pass(s: string): (r: string)
    ensures |r| <= |s|
    ensures |r| == |s| ==> r == s
  {
    var c := CopySub(s);
    var b := BracketSub(c);
    StripIsSlice(b);
    Strip(b)
  }

  /** Run passes until one changes nothing. */
  function Fix(s: string): (r: string)
    decreases |s|
  {
    var n := Pass(s);
    if n == s then s else Fix(n)
  }

  /** `normalize_filename(filename, system_extensions, ignore_system_prefix)`,
      an absent `system_extensions` being the empty set. */
  function NormalizeName(filename: string, systemExtensions: set<string>, ignoreSystemPrefix: bool): string {
    Fix(LoopStart(filename, systemExtensions, ignoreSystemPrefix))
  }

  /** The loop of helpers.py:31-37, run until the name stops changing. */
  method Normalize(filename: string, systemExtensions: set<string>, ignoreSystemPrefix: bool)
    returns (key: string)
    ensures key == NormalizeName(filename, systemExtensions, ignoreSystemPrefix)
    ensures Stripped(key) && Pass(key) == key
  {
    var name, ext := SplitExt(filename).0, SplitExt(filename).1;
    if ignoreSystemPrefix && systemExtensions != {} && LowerStr(ext) in systemExtensions {
      name := StripCatalogPrefix(name);
    }
    ghost var target := Fix(name);
    assert target == NormalizeName(filename, systemExtensions, ignoreSystemPrefix);
    while true
      invariant Fix(name) == target
      decreases |name|
    {
      var oldName := name;
      name := CopySub(name);
      name := BracketSub(name);
      name := Strip(name);
      if name == oldName {
        break;
      }
    }
    key := name;
  }

  // ---------------------------------------------------------------------
  // Properties
  // ---------------------------------------------------------------------

  /** The loop exits only at a fixpoint: one more pass changes nothing. */
  lemma {:induction false} FixIsFixpoint(s: string)
    ensures Pass(Fix(s)) == Fix(s)
    ensures |Fix(s)| <= |s|
    decreases |s|
  {
    if Pass(s) != s {
      FixIsFixpoint(Pass(s));
    }
  }

  /** A fixpoint of `Pass` has no whitespace at either end. */
  lemma FixpointIsStripped(s: string)
    requires Pass(s) == s
    ensures Stripped(s)
  {
  }

  /** The key is stripped, is a fixpoint of the loop body, and is no longer
      than the name the loop started from. */
  lemma NormalizeNameProperties(filename: string, systemExtensions: set<string>, ignoreSystemPrefix: bool)
    ensures var key := NormalizeName(filename, systemExtensions, ignoreSystemPrefix);
      Stripped(key) && Pass(key) == key && |key| <= |Stem(filename)|
  {
    var start := LoopStart(filename, systemExtensions, ignoreSystemPrefix);
    FixIsFixpoint(start);
    FixpointIsStripped(Fix(start));
  }

  /** Every pass that changes the name makes it strictly shorter, which is
      why the loop terminates. */
  lemma PassShrinksOrFixes(s: string)
    ensures Pass(s) == s || |Pass(s)| < |s|
  {
  }

  /** The catalog prefix is removed only when prefix stripping is on, the
      system extension set is non-empty and holds the lowercased extension;
      and what is removed is three or four digits and the whitespace after
      them. */
  lemma CatalogPrefixOnlyWhenEnabled(filename: string, systemExtensions: set<string>, ignoreSystemPrefix: bool)
    ensures var name := Stem(filename);
      var start := LoopStart(filename, systemExtensions, ignoreSystemPrefix);
      start != name ==>
        && ignoreSystemPrefix && systemExtensions != {} && LowerStr(Ext(filename)) in systemExtensions
        && |start| < |name| && start == name[|name| - |start|..]
        && (AllDigits(name[..3]) || AllDigits(name[..4]))
        && IsSpace(name[SkipDigits(name, 0)])
  {
    var name := Stem(filename);
    var ext := Ext(filename);
    assert SplitExt(filename) == (name, ext);
    if LoopStart(filename, systemExtensions, ignoreSystemPrefix) != name {
      assert PrefixStripApplies(ext, systemExtensions, ignoreSystemPrefix);
      CatalogPrefixShape(name);
    }
  }

  /** What a non-empty catalog prefix match consists of. */
  lemma CatalogPrefixShape(name: string)
    requires StripCatalogPrefix(name) != name
    ensures var start := StripCatalogPrefix(name);
      && |start| < |name| && start == name[|name| - |start|..]
      && (AllDigits(name[..3]) || AllDigits(name[..4]))
      && IsSpace(name[SkipDigits(name, 0)])
  {
    var n := CatalogPrefixLen(name);
    assert n > 0;
    var d := SkipDigits(name, 0);
    if d == 3 {
      assert AllDigits(name[..3]);
    } else {
      assert AllDigits(name[..4]);
    }
  }

  /** A name that starts with five digits keeps its digits. */
  lemma FiveDigitsNeverStripped(name: string)
    requires |name| >= 5 && AllDigits(name[..5])
    ensures StripCatalogPrefix(name) == name
  {
    forall k | 0 <= k < 5
      ensures IsDigit(name[k])
    {
      assert name[..5][k] == name[k];
    }
    assert SkipDigits(name, 0) >= 5;
  }

  /** The start of the whitespace run that ends at index `j`. */
  function RunStart(s: string, j: nat): nat
    requires j <= |s|
  {
    TrimEnd(s, 0, j)
  }

  /** When the name ends in ')' or ']' and has an opening bracket before
      that, the bracket substitution deletes everything from the first
      opening bracket, together with the whitespace before it, to the end:
      "Game (USA) (Proto)" becomes "Game" in one substitution. */
  lemma BracketSubCutsAtFirstOpen(s: string, j: nat)
    requires j + 1 < |s| && IsOpen(s[j]) && IsClose(s[|s| - 1])
    requires forall k :: 0 <= k < j ==> !IsOpen(s[k])
    ensures BracketSub(s) == s[..RunStart(s, j)]
  {
    var r := RunStart(s, j);
    assert forall k :: r <= k < j ==> IsSpace(s[k]);
    assert !IsSpace(s[j]);
    assert SkipSpace(s, r) == j;
    assert BracketTailAt(s, r);
    forall m | 0 <= m < r
      ensures !BracketTailAt(s, m)
    {
      var p := SkipSpace(s, m);
      assert !IsSpace(s[r - 1]);
      assert p <= r - 1;
    }
    var k := BracketMatchFrom(s, 0);
    assert k == r;
  }

  /** A name the loop can no longer change does not end in a bracket group:
      if it ends in ')' or ']', it has no '(' or '[' before that. */
  lemma FixpointHasNoBracketTail(s: string, j: nat)
    requires Pass(s) == s
    requires j + 1 < |s| && IsOpen(s[j])
    ensures !IsClose(s[|s| - 1])
  {
    var c := CopySub(s);
    var b := BracketSub(c);
    assert |Strip(b)| <= |b| <= |c| <= |s|;
    assert c == s;
    assert b == s;
    var f := FirstOpen(s, 0, j);
    if IsClose(s[|s| - 1]) {
      BracketSubCutsAtFirstOpen(s, f);
    }
  }

  /** The index of the first opening bracket in `s[i..]`, given one at `j`. */
  function FirstOpen(s: string, i: nat, j: nat): (f: nat)
    requires i <= j < |s| && IsOpen(s[j])
    ensures i <= f <= j && IsOpen(s[f])
    ensures forall k :: i <= k < f ==> !IsOpen(s[k])
    decreases j - i
  {
    if IsOpen(s[i]) then i else FirstOpen(s, i + 1, j)
  }

  /** Every character of a pass's result comes from its input. */
  lemma PassChars(s: string)
    ensures forall ch :: ch in Pass(s) ==> ch in s
  {
    var c := CopySub(s);
    var b := BracketSub(c);
    StripIsSlice(b);
  }

  lemma {:induction false} FixChars(s: string)
    ensures forall ch :: ch in Fix(s) ==> ch in s
    decreases |s|
  {
    PassChars(s);
    if Pass(s) != s {
      FixChars(Pass(s));
    }
  }

  /** A key has no path separator when the file name has none. */
  lemma KeyHasNoSep(filename: string, systemExtensions: set<string>)
    requires forall i :: 0 <= i < |filename| ==> !IsSep(filename[i])
    ensures var key := NormalizeName(filename, systemExtensions, false);
      forall i :: 0 <= i < |key| ==> !IsSep(key[i])
  {
    var key := NormalizeName(filename, systemExtensions, false);
    var stem := Stem(filename);
    FixChars(stem);
    assert stem == filename[..|stem|];
    forall i | 0 <= i < |key|
      ensures !IsSep(key[i])
    {
      assert key[i] in stem;
    }
  }

  /** `os.path.splitext` finds `ext` again once it is put back on `key`. */
  lemma SplitExtAppend(key: string, ext: string, i: nat)
    requires forall k :: 0 <= k < |key| ==> !IsSep(key[k])
    requires i < |key| && key[i] != '.'
    requires ext != [] && ext[0] == '.'
    requires forall k :: 1 <= k < |ext| ==> ext[k] != '.' && !IsSep(ext[k])
    ensures SplitExt(key + ext) == (key, ext)
  {
    var p := key + ext;
    assert forall k :: 0 <= k < |p| ==> !IsSep(p[k]);
    assert AfterLastSep(p, |p|) == 0;
    LastIndexOfIs(p, '.', |p|, |key|);
    assert p[i] != '.';
    assert p[..|key|] == key && p[|key|..] == ext;
  }

  /** Normalising again changes nothing: putting the extension back on a key
      and normalising the result gives the same key (prefix stripping off),
      as long as the key is not made of dots alone, in which case
      `os.path.splitext` would no longer see the extension. */
  lemma NormalizeIdempotent(filename: string, systemExtensions: set<string>, i: nat)
    requires forall k :: 0 <= k < |filename| ==> !IsSep(filename[k])
    requires Ext(filename) != []
    requires i < |NormalizeName(filename, systemExtensions, false)|
    requires NormalizeName(filename, systemExtensions, false)[i] != '.'
    ensures var key := NormalizeName(filename, systemExtensions, false);
      NormalizeName(key + Ext(filename), systemExtensions, false) == key
  {
    var key := NormalizeName(filename, systemExtensions, false);
    KeyHasNoSep(filename, systemExtensions);
    SplitExtAppend(key, Ext(filename), i);
    FixIsFixpoint(Stem(filename));
  }
}
