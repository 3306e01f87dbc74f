/** The language/region/format extractor of
    rom_duplicate_manager/utils/helpers.py:114-165 (also
    rom_duplicate_manager.py:202-253): every "(...)" group of the file name
    is lowercased and split on commas and whitespace, and each token is
    looked up in three fixed tables. */
module Languages {
  import opened Text
  import opened Wrappers

  const LangMap: map<string, string> := map[
    "en" := "English", "english" := "English",
    "ja" := "Japanese", "japan" := "Japanese",
    "fr" := "French", "france" := "French",
    "de" := "German", "germany" := "German",
    "es" := "Spanish", "spain" := "Spanish",
    "it" := "Italian", "italy" := "Italian",
    "nl" := "Dutch", "netherlands" := "Dutch",
    "pt" := "Portuguese", "portugal" := "Portuguese",
    "sv" := "Swedish", "sweden" := "Swedish",
    "zh" := "Chinese", "taiwan" := "Chinese", "china" := "Chinese",
    "ko" := "Korean", "korea" := "Korean"]

  const RegionMap: map<string, string> := map[
    "usa" := "English-US", "europe" := "English-EU", "australia" := "English-EU",
    "uk" := "English-EU", "world" := "World", "global" := "World"]

  const FormatMap: map<string, string> := map["ntsc" := "NTSC", "pal" := "PAL", "secam" := "SECAM"]

  /** Every label the three tables can produce. */
  const Vocabulary: set<string> := {
    "English", "Japanese", "French", "German", "Spanish", "Italian", "Dutch",
    "Portuguese", "Swedish", "Chinese", "Korean",
    "English-US", "English-EU", "World", "NTSC", "PAL", "SECAM"}

  const Unknown: string := "Unknown"

  // ---------------------------------------------------------------------
  // re.findall(r'\(([^)]+)\)', filename)
  // ---------------------------------------------------------------------

  /** The first ')' at or after `j`, or `|s|`. */
  function CloseFrom(s: string, j: nat): (e: nat)
    requires j <= |s|
    ensures j <= e <= |s|
    ensures e < |s| ==> s[e] == ')'
    ensures forall k :: j <= k < e ==> s[k] != ')'
    decreases |s| - j
  {
    if j == |s| || s[j] == ')' then j else CloseFrom(s, j + 1)
  }

  /** The pattern matches at `i` when a '(' there is followed, after at
      least one other character, by a ')'. */
  predicate GroupAt(s: string, i: nat) {
    i + 1 < |s| && s[i] == '(' && s[i + 1] != ')' && CloseFrom(s, i + 1) < |s|
  }

  /** The captures of the left-to-right, non-overlapping scan from `i`. */
  function GroupsFrom(s: string, i: nat): seq<string>
    decreases |s| - i
  {
    if i >= |s| then []
    else if GroupAt(s, i) then
      var e := CloseFrom(s, i + 1);
      [s[i + 1..e]] + GroupsFrom(s, e + 1)
    else GroupsFrom(s, i + 1)
  }

  function Groups(filename: string): seq<string> {
    GroupsFrom(filename, 0)
  }

  // ---------------------------------------------------------------------
  // re.split(r'[,\s]+', match.lower()), each part stripped
  // ---------------------------------------------------------------------

  predicate IsTokenSep(c: char) {
    c == ',' || IsSpace(c)
  }

  function TokenEnd(s: string, i: nat): (e: nat)
    requires i <= |s|
    ensures i <= e <= |s|
    ensures forall k :: i <= k < e ==> !IsTokenSep(s[k])
    ensures e < |s| ==> IsTokenSep(s[e])
    decreases |s| - i
  {
    if i == |s| || IsTokenSep(s[i]) then i else TokenEnd(s, i + 1)
  }

  /** The non-empty parts of the split, left to right (the empty parts the
      split also yields are in none of the tables). */
  function TokensFrom(s: string, i: nat): seq<string>
    requires i <= |s|
    decreases |s| - i
  {
    if i == |s| then []
    else if IsTokenSep(s[i]) then TokensFrom(s, i + 1)
    else
      var e := TokenEnd(s, i);
      [s[i..e]] + TokensFrom(s, e)
  }

  function Tokens(group: string): seq<string> {
    TokensFrom(LowerStr(group), 0)
  }

  // ---------------------------------------------------------------------
  // The lookups and the result
  // ---------------------------------------------------------------------

  /** The entry of a token in the first table that has it. */
  function Lookup(t: string): (r: Option<string>)
    ensures r.Some? ==> r.value in Vocabulary
  {
    if t in LangMap then Some(LangMap[t])
    else if t in RegionMap then Some(RegionMap[t])
    else if t in FormatMap then Some(FormatMap[t])
    else None
  }

  /** What one token adds to the result. */
  function TokenLabels(t: string): (r: set<string>)
    ensures r <= Vocabulary && |r| <= 1
  {
    var hit := Lookup(t);
    if hit.Some? then {hit.value} else {}
  }

  function Labels(ts: seq<string>): set<string> {
    if ts == [] then {} else Labels(ts[..|ts| - 1]) + TokenLabels(ts[|ts| - 1])
  }

  function Found(groups: seq<string>): set<string> {
    if groups == [] then {} else Found(groups[..|groups| - 1]) + Labels(Tokens(groups[|groups| - 1]))
  }

  /** `extract_languages(filename)`. */
  function LanguagesOf(filename: string): set<string> {
    var found := Found(Groups(filename));
    if found == {} then {Unknown} else found
  }

  /** The nested loops of `extract_languages`, accumulating into a set. */
  method ExtractLanguages(filename: string) returns (languages: set<string>)
    ensures languages == LanguagesOf(filename)
  {
    languages := {};
    var groups := Groups(filename);
    var k := 0;
    while k < |groups|
      invariant 0 <= k <= |groups|
      invariant languages == Found(groups[..k])
    {
      var labels := TokensLabels(Tokens(groups[k]));
      languages := languages + labels;
      assert groups[..k + 1][..k] == groups[..k];
      k := k + 1;
    }
    assert groups[..k] == groups;
    if languages == {} {
      languages := {Unknown};
    }
  }

  /** The inner loop: the labels the tokens of one group add. */
  method TokensLabels(parts: seq<string>) returns (labels: set<string>)
    ensures labels == Labels(parts)
  {
    labels := {};
    var m := 0;
    while m < |parts|
      invariant 0 <= m <= |parts|
      invariant labels == Labels(parts[..m])
    {
      var part := parts[m];
      assert Labels(parts[..m + 1]) == Labels(parts[..m]) + TokenLabels(part) by {
        assert parts[..m + 1][..m] == parts[..m];
      }
      var hit := Lookup(part);
      if hit.Some? {
        labels := labels + {hit.value};
      }
      m := m + 1;
    }
    assert parts[..m] == parts;
  }

  // ---------------------------------------------------------------------
  // Properties
  // ---------------------------------------------------------------------

  /** The result is a non-empty set of labels from the tables or
      "Unknown"; "Unknown" is in it exactly when no token matched, and then
      it is alone. */
  lemma LanguagesShape(filename: string)
    ensures var r := LanguagesOf(filename);
      && r != {}
      && r <= Vocabulary + {Unknown}
      && (Unknown in r <==> Found(Groups(filename)) == {})
      && (Unknown in r ==> r == {Unknown})
  {
    assert Unknown !in Vocabulary;
    FoundInVocabulary(Groups(filename));
  }

  lemma {:induction false} LabelsInVocabulary(ts: seq<string>)
    ensures Labels(ts) <= Vocabulary
  {
    if ts != [] {
      LabelsInVocabulary(ts[..|ts| - 1]);
    }
  }

  lemma {:induction false} FoundInVocabulary(groups: seq<string>)
    ensures Found(groups) <= Vocabulary
  {
    if groups != [] {
      FoundInVocabulary(groups[..|groups| - 1]);
      LabelsInVocabulary(Tokens(groups[|groups| - 1]));
    }
  }

  /** A name without '(' has no groups, so it is "Unknown". */
  lemma {:induction false} NoGroupsWithoutParen(s: string, i: nat)
    requires forall k :: i <= k < |s| ==> s[k] != '('
    ensures GroupsFrom(s, i) == []
    decreases |s| - i
  {
    if i < |s| {
      NoGroupsWithoutParen(s, i + 1);
    }
  }

  lemma UnknownWithoutParen(filename: string)
    requires forall k :: 0 <= k < |filename| ==> filename[k] != '('
    ensures LanguagesOf(filename) == {Unknown}
  {
    NoGroupsWithoutParen(filename, 0);
  }

  /** A label of a token of a group is in the result. */
  lemma {:induction false} FoundContains(groups: seq<string>, g: nat, t: nat)
    requires g < |groups| && t < |Tokens(groups[g])|
    ensures TokenLabels(Tokens(groups[g])[t]) <= Found(groups)
    decreases |groups|
  {
    if g < |groups| - 1 {
      FoundContains(groups[..|groups| - 1], g, t);
    } else {
      LabelsContains(Tokens(groups[g]), t);
    }
  }

  lemma {:induction false} LabelsContains(ts: seq<string>, t: nat)
    requires t < |ts|
    ensures TokenLabels(ts[t]) <= Labels(ts)
    decreases |ts|
  {
    if t < |ts| - 1 {
      LabelsContains(ts[..|ts| - 1], t);
    }
  }

  /** Every label comes from some token of some group. */
  lemma {:induction false} FoundFromToken(groups: seq<string>, x: string) returns (g: nat, t: nat)
    requires x in Found(groups)
    ensures g < |groups| && t < |Tokens(groups[g])| && x in TokenLabels(Tokens(groups[g])[t])
    decreases |groups|
  {
    var n := |groups| - 1;
    if x in Found(groups[..n]) {
      g, t := FoundFromToken(groups[..n], x);
      assert groups[..n][g] == groups[g];
    } else {
      g := n;
      t := LabelsFromToken(Tokens(groups[n]), x);
    }
  }

  lemma {:induction false} LabelsFromToken(ts: seq<string>, x: string) returns (t: nat)
    requires x in Labels(ts)
    ensures t < |ts| && x in TokenLabels(ts[t])
    decreases |ts|
  {
    if x in TokenLabels(ts[|ts| - 1]) {
      t := |ts| - 1;
    } else {
      t := LabelsFromToken(ts[..|ts| - 1], x);
    }
  }

  // ---------------------------------------------------------------------
  // Case-insensitivity
  // ---------------------------------------------------------------------

  lemma LowerStrIdempotent(s: string)
    ensures LowerStr(LowerStr(s)) == LowerStr(s)
  {
  }

  lemma LowerStrSlice(s: string, a: nat, b: nat)
    requires a <= b <= |s|
    ensures LowerStr(s)[a..b] == LowerStr(s[a..b])
  {
  }

  function LowerAll(groups: seq<string>): (r: seq<string>)
    ensures |r| == |groups|
    ensures forall k :: 0 <= k < |groups| ==> r[k] == LowerStr(groups[k])
  {
    seq(|groups|, k requires 0 <= k < |groups| => LowerStr(groups[k]))
  }

  lemma {:induction false} CloseFromLower(s: string, j: nat)
    requires j <= |s|
    ensures CloseFrom(LowerStr(s), j) == CloseFrom(s, j)
    decreases |s| - j
  {
    if j < |s| && s[j] != ')' {
      CloseFromLower(s, j + 1);
    }
  }

  /** Lowercasing the name lowercases its groups and keeps their positions. */
  lemma {:induction false} GroupsFromLower(s: string, i: nat)
    ensures GroupsFrom(LowerStr(s), i) == LowerAll(GroupsFrom(s, i))
    decreases |s| - i
  {
    if i < |s| {
      GroupAtLower(s, i);
      if GroupAt(s, i) {
        var e := CloseFrom(s, i + 1);
        GroupsFromLower(s, e + 1);
        LowerStrSlice(s, i + 1, e);
        LowerAllCons(s[i + 1..e], GroupsFrom(s, e + 1));
      } else {
        GroupsFromLower(s, i + 1);
      }
    }
  }

  /** A group starts at the same place, and closes at the same place, in
      the lowercased name. */
  lemma GroupAtLower(s: string, i: nat)
    requires i < |s|
    ensures GroupAt(LowerStr(s), i) == GroupAt(s, i)
    ensures i + 1 < |s| ==> CloseFrom(LowerStr(s), i + 1) == CloseFrom(s, i + 1)
  {
    if i + 1 < |s| {
      CloseFromLower(s, i + 1);
    }
  }

  lemma LowerAllCons(g: string, rest: seq<string>)
    ensures LowerAll([g] + rest) == [LowerStr(g)] + LowerAll(rest)
  {
  }

  lemma {:induction false} FoundLower(groups: seq<string>)
    ensures Found(LowerAll(groups)) == Found(groups)
    decreases |groups|
  {
    if groups != [] {
      var n := |groups| - 1;
      assert LowerAll(groups)[..n] == LowerAll(groups[..n]);
      FoundLower(groups[..n]);
      LowerStrIdempotent(groups[n]);
    }
  }

  /** Matching is case-insensitive: the name and its lowercase form yield
      the same labels. */
  lemma CaseInsensitive(filename: string)
    ensures LanguagesOf(LowerStr(filename)) == LanguagesOf(filename)
  {
    GroupsFromLower(filename, 0);
    FoundLower(Groups(filename));
  }

  // ---------------------------------------------------------------------
  // The languages of one name
  // ---------------------------------------------------------------------

  /** The scan passes over characters that are not '('. */
  lemma {:induction false} GroupsSkip(s: string, i: nat, j: nat)
    requires i <= j <= |s|
    requires forall k :: i <= k < j ==> s[k] != '('
    ensures GroupsFrom(s, i) == GroupsFrom(s, j)
    decreases j - i
  {
    if i < j {
      GroupsSkip(s, i + 1, j);
    }
  }

  /** A '(' at `i` whose first ')' is at `e > i + 1` opens a group. */
  lemma GroupHere(s: string, i: nat, e: nat)
    requires i + 1 < e < |s| && s[i] == '(' && s[i + 1] != ')' && s[e] == ')'
    requires forall k :: i < k < e ==> s[k] != ')'
    ensures GroupsFrom(s, i) == [s[i + 1..e]] + GroupsFrom(s, e + 1)
  {
    assert CloseFrom(s, i + 1) == e;
  }

  /** A lowercase group without separators is one token. */
  lemma OneToken(g: string)
    requires g != [] && LowerStr(g) == g
    requires forall k :: 0 <= k < |g| ==> !IsTokenSep(g[k])
    ensures Tokens(g) == [g]
  {
    var e := TokenEnd(g, 0);
    assert e == |g|;
    assert g[0..|g|] == g;
    assert TokensFrom(g, |g|) == [];
    assert TokensFrom(g, 0) == [g[0..e]] + TokensFrom(g, e) by {
      assert !IsTokenSep(g[0]);
    }
  }

  /** "a (SECAM) (v0.0.0).zip" has the groups "SECAM" and "v0.0.0". */
  lemma SecamGroups(f: string)
    requires f == "a (SECAM) (v0.0.0).zip"
    ensures Groups(f) == ["SECAM", "v0.0.0"]
  {
    SecamFirstGroup(f);
    SecamSecondGroup(f);
  }

  lemma SecamFirstGroup(f: string)
    requires f == "a (SECAM) (v0.0.0).zip"
    ensures GroupsFrom(f, 0) == ["SECAM"] + GroupsFrom(f, 9)
  {
    GroupsSkip(f, 0, 2);
    GroupHere(f, 2, 8);
    assert f[3..8] == "SECAM";
  }

  lemma SecamSecondGroup(f: string)
    requires f == "a (SECAM) (v0.0.0).zip"
    ensures GroupsFrom(f, 9) == ["v0.0.0"]
  {
    GroupsSkip(f, 9, 10);
    GroupHere(f, 10, 17);
    NoGroupsWithoutParen(f, 18);
    assert f[11..17] == "v0.0.0";
  }

  /** Only the format tag is recognised: the result is {"SECAM"}. */
  lemma SecamLanguages(f: string)
    requires Spells(f, "a (SECAM) (v0.0.0).zip")
    ensures LanguagesOf(f) == {"SECAM"}
  {
    assert f == "a (SECAM) (v0.0.0).zip";
    SecamGroups(f);
    SecamTokens();
    assert Found(["SECAM", "v0.0.0"]) == Found(["SECAM"]) + Labels(Tokens("v0.0.0")) by {
      assert ["SECAM", "v0.0.0"][..1] == ["SECAM"];
    }
    assert Found(["SECAM"]) == Labels(Tokens("SECAM")) by {
      assert ["SECAM"][..0] == [];
    }
  }

  lemma SecamTokens()
    ensures Labels(Tokens("SECAM")) == {"SECAM"}
    ensures Labels(Tokens("v0.0.0")) == {}
  {
    FormatToken("SECAM", "secam");
    OtherToken("v0.0.0");
  }

  lemma FormatToken(g: string, l: string)
    requires g == "SECAM" && l == "secam"
    ensures Labels(Tokens(g)) == {"SECAM"}
  {
    assert LowerStr(g) == l;
    OneToken(l);
    assert Lookup(l) == Some("SECAM");
    assert Labels([l]) == TokenLabels(l) by {
      assert [l][..0] == [];
    }
  }

  lemma OtherToken(g: string)
    requires g == "v0.0.0"
    ensures Labels(Tokens(g)) == {}
  {
    assert LowerStr(g) == g;
    OneToken(g);
    assert Lookup(g) == None;
    assert Labels([g]) == TokenLabels(g) by {
      assert [g][..0] == [];
    }
  }

}
