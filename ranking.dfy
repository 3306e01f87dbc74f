/** The smart-selection ranking of
    rom_duplicate_manager/core/duplicate_logic.py:15-87 (also
    rom_duplicate_manager.py:1232-1304): every file of a duplicate group
    gets a priority tuple, and the base file is the first file whose tuple
    is smallest under Python's tuple order. The tuple mixes integers with
    the file name, and version tuples of different lengths shift the
    fields against each other, so the comparison can raise `TypeError`;
    the model keeps that outcome. */
module Ranking {
  import opened Text
  import opened Wrappers
  import Version
  import Languages

  /** One field of a priority tuple: an `int` or a `str`. */
  datatype KeyItem = I(n: int) | S(s: string)

  /** The exceptions `min` can raise here. */
  datatype Failure = TypeError | ValueError

  const AnyLanguage: string := "Any"
  const NtscRegions: set<string> := {"English-US", "Japanese", "Korean", "Chinese"}
  const PalRegions: set<string> := {"English-EU", "French", "German", "Spanish", "Italian", "Dutch", "Portuguese", "Swedish"}

  // ---------------------------------------------------------------------
  // Python's `<` on the fields and on tuples
  // ---------------------------------------------------------------------

  /** `<` on two fields: integers and strings compare among themselves; an
      integer against a string raises `TypeError`. */
  function ItemLess(a: KeyItem, b: KeyItem): Result<bool, Failure> {
    match (a, b)
    case (I(x), I(y)) => Ok(x < y)
    case (S(x), S(y)) => Ok(StrLess(x, y))
    case _ => Err(TypeError)
  }

  /** `<` on tuples: the first position where the fields differ (`==`,
      which is False between an `int` and a `str`) decides with the fields'
      `<`; when one tuple is a prefix of the other, the shorter is smaller. */
  function TupleLess(a: seq<KeyItem>, b: seq<KeyItem>): (r: Result<bool, Failure>)
    ensures r.Err? ==> r == Err(TypeError)
    decreases |a|
  {
    if |a| == 0 || |b| == 0 then Ok(|a| < |b|)
    else if a[0] != b[0] then ItemLess(a[0], b[0])
    else TupleLess(a[1..], b[1..])
  }

  lemma ItemLessTotal(x: KeyItem, y: KeyItem)
    requires ItemLess(x, y).Ok?
    ensures ItemLess(y, x).Ok?
    ensures x != y ==> (ItemLess(x, y) == Ok(true) <==> ItemLess(y, x) == Ok(false))
    ensures ItemLess(x, x) == Ok(false)
  {
    if x.S? {
      StrLessIrreflexive(x.s);
      StrLessTotal(x.s, y.s);
      StrLessAsymmetric(x.s, y.s);
    }
  }

  lemma ItemLessTransitive(x: KeyItem, y: KeyItem, z: KeyItem)
    requires ItemLess(x, y) == Ok(true) && ItemLess(y, z) == Ok(true)
    ensures ItemLess(x, z) == Ok(true) && x != z
  {
    if x.S? {
      StrLessTransitive(x.s, y.s, z.s);
      StrLessIrreflexive(x.s);
    }
  }

  /** No tuple is smaller than itself. */
  lemma {:induction false} TupleLessIrreflexive(a: seq<KeyItem>)
    ensures TupleLess(a, a) == Ok(false)
    decreases |a|
  {
    if |a| > 0 {
      TupleLessIrreflexive(a[1..]);
    }
  }

  /** Two tuples that compare without error compare without error both
      ways round, and exactly one of "smaller", "equal", "larger" holds. */
  lemma {:induction false} TupleLessTotal(a: seq<KeyItem>, b: seq<KeyItem>)
    requires TupleLess(a, b).Ok?
    ensures TupleLess(b, a).Ok?
    ensures a != b ==> (TupleLess(a, b) == Ok(true) <==> TupleLess(b, a) == Ok(false))
    decreases |a|
  {
    if |a| > 0 && |b| > 0 {
      if a[0] != b[0] {
        ItemLessTotal(a[0], b[0]);
      } else {
        TupleLessTotal(a[1..], b[1..]);
        if a[1..] == b[1..] {
          assert a == [a[0]] + a[1..] && b == [b[0]] + b[1..];
        }
      }
    }
  }

  /** Of two different tuples that compare without raising, the one that
      is not smaller is larger. */
  lemma {:induction false} NotLessMeansGreater(a: seq<KeyItem>, b: seq<KeyItem>)
    requires a != b && TupleLess(a, b) == Ok(false)
    ensures TupleLess(b, a) == Ok(true)
    decreases |a|
  {
    if |a| > 0 && |b| > 0 {
      if a[0] != b[0] {
        ItemLessTotal(a[0], b[0]);
      } else {
        assert a == [a[0]] + a[1..] && b == [b[0]] + b[1..];
        NotLessMeansGreater(a[1..], b[1..]);
      }
    }
  }

  /** Tuple `<` is transitive, and a chain of two comparisons that do not
      raise gives a third that does not raise. */
  lemma {:induction false} TupleLessTransitive(a: seq<KeyItem>, b: seq<KeyItem>, c: seq<KeyItem>)
    requires TupleLess(a, b) == Ok(true) && TupleLess(b, c) == Ok(true)
    ensures TupleLess(a, c) == Ok(true)
    decreases |a|
  {
    if |a| > 0 {
      if a[0] != b[0] && b[0] != c[0] {
        ItemLessTransitive(a[0], b[0], c[0]);
      } else if a[0] == b[0] && b[0] == c[0] {
        TupleLessTransitive(a[1..], b[1..], c[1..]);
      }
    }
  }

  /** Two tuples of the same length with an integer or a string at the same
      positions never raise. */
  predicate SameShape(a: seq<KeyItem>, b: seq<KeyItem>) {
    |a| == |b| && forall i :: 0 <= i < |a| ==> a[i].I? == b[i].I?
  }

  lemma {:induction false} SameShapeComparable(a: seq<KeyItem>, b: seq<KeyItem>)
    requires SameShape(a, b)
    ensures TupleLess(a, b).Ok?
    decreases |a|
  {
    if |a| > 0 && a[0] == b[0] {
      assert forall i :: 0 <= i < |a| - 1 ==> a[1..][i] == a[i + 1] && b[1..][i] == b[i + 1];
      SameShapeComparable(a[1..], b[1..]);
    }
  }

  // ---------------------------------------------------------------------
  // get_file_priority (duplicate_logic.py:15-73)
  // ---------------------------------------------------------------------

  /** The fields of the priority tuple before it is flattened. */
  datatype Priority = Priority(notInRoot: int, lowPriority: int, version: seq<nat>,
                               isWorld: int, hasLang: int, formatPriority: int,
                               numLangs: int, length: int, filename: string)
  {
    /** The flattened tuple: the version components are negated, so that
        newer versions come first. */
    function Key(): (k: seq<KeyItem>)
      ensures |k| == |version| + 8
      ensures k[..2] == [I(notInRoot), I(lowPriority)]
      ensures forall i :: 2 <= i < |version| + 2 ==> k[i] == I(-(version[i - 2] as int))
      ensures k[|version| + 2..] == [I(-isWorld), I(-hasLang), I(-formatPriority), I(-numLangs), I(length), S(filename)]
    {
      [I(notInRoot), I(lowPriority)] + Negated(version)
        + [I(-isWorld), I(-hasLang), I(-formatPriority), I(-numLangs), I(length), S(filename)]
    }
  }

  function Negated(v: seq<nat>): (r: seq<KeyItem>)
    ensures |r| == |v| && forall i :: 0 <= i < |v| ==> r[i] == I(-(v[i] as int))
  {
    seq(|v|, i requires 0 <= i < |v| => I(-(v[i] as int)))
  }

  /** The quality markers: a proto, demo, sample or beta release. */
  predicate LowQuality(lowered: string) {
    Contains(lowered, "(proto") || Contains(lowered, "(demo") || Contains(lowered, "(sample") || Contains(lowered, "(beta")
  }

  /** The video format bonus: for a preferred NTSC-family language, NTSC
      beats PAL beats nothing beats SECAM; for a PAL-family language, PAL
      beats SECAM beats nothing beats NTSC; otherwise no bonus. */
  function FormatPriority(preference: string, languages: set<string>): (r: int)
    ensures -1 <= r <= 2
  {
    if preference == AnyLanguage then 0
    else if preference in NtscRegions then
      if "NTSC" in languages then 2
      else if "PAL" in languages then 1
      else if "SECAM" in languages then -1
      else 0
    else if preference in PalRegions then
      if "PAL" in languages then 2
      else if "SECAM" in languages then 1
      else if "NTSC" in languages then -1
      else 0
    else 0
  }

  /** `get_file_priority(filepath)` for the scanned folder `folder` and the
      language preference `preference`. */
  function PriorityOf(filepath: string, folder: string, preference: string): (p: Priority)
    ensures p.notInRoot in {0, 1} && p.lowPriority in {0, 1} && p.isWorld in {0, 1} && p.hasLang in {0, 1}
    ensures p.filename == Basename(filepath) && p.length == |p.filename|
    ensures p.version == Version.ExtractVersion(p.filename) && |p.version| >= 6
  {
    var filename := Basename(filepath);
    var languages := Languages.LanguagesOf(filename);
    Priority(
      if Dirname(SlashPath(filepath)) == SlashPath(folder) then 0 else 1,
      if LowQuality(LowerStr(filename)) then 1 else 0,
      Version.ExtractVersion(filename),
      if "World" in languages then 1 else 0,
      if preference != AnyLanguage && preference in languages then 1 else 0,
      FormatPriority(preference, languages),
      |languages - {Languages.Unknown}|,
      |filename|,
      filename)
  }

  /** What each flag of the priority says about the file: it is outside
      the scanned folder, it is a proto/demo/sample/beta release; with the
      preference "Any" no language or format bonus is given; the language
      count is zero exactly when nothing was recognised, and a "World"
      release counts at least one language. */
  lemma PriorityFlags(filepath: string, folder: string, preference: string)
    ensures var p := PriorityOf(filepath, folder, preference);
      && (p.notInRoot == 0 <==> Dirname(SlashPath(filepath)) == SlashPath(folder))
      && (p.lowPriority == 1 <==> LowQuality(LowerStr(Basename(filepath))))
      && (preference == AnyLanguage ==> p.hasLang == 0 && p.formatPriority == 0)
      && (p.numLangs == 0 <==> Languages.LanguagesOf(Basename(filepath)) == {Languages.Unknown})
      && (p.isWorld == 1 ==> p.numLangs >= 1)
  {
    var filename := Basename(filepath);
    var languages := Languages.LanguagesOf(filename);
    Languages.LanguagesShape(filename);
    var known := languages - {Languages.Unknown};
    if known == {} {
      var x :| x in languages;
      assert x == Languages.Unknown;
      assert languages == {Languages.Unknown};
    }
    if "World" in languages {
      assert "World" in known;
    }
  }

  /** `get_file_priority` as a function of the path, for a fixed folder
      and preference. */
  function PriorityFn(folder: string, preference: string): string -> Priority {
    p => PriorityOf(p, folder, preference)
  }

  /** The `key=` argument of `min`: the flattened priority tuple. */
  function KeyBy(priority: string -> Priority): string -> seq<KeyItem> {
    p => priority(p).Key()
  }

  // ---------------------------------------------------------------------
  // get_base_file (duplicate_logic.py:75-87): min(files, key=...)
  // ---------------------------------------------------------------------

  /** `min(files, key=key)`: the first item is the candidate, and a later
      item replaces it only when its key is strictly smaller. An empty list
      raises `ValueError`; a comparison may raise `TypeError`. */
  function MinBy(files: seq<string>, key: string -> seq<KeyItem>): (r: Result<string, Failure>)
    ensures r.Ok? ==> r.value in files
    ensures files == [] <==> r == Err(ValueError)
  {
    if files == [] then Err(ValueError)
    else if |files| == 1 then Ok(files[0])
    else
      var x := files[|files| - 1];
      match MinBy(files[..|files| - 1], key)
      case Err(e) => Err(e)
      case Ok(best) =>
        match TupleLess(key(x), key(best))
        case Err(e) => Err(e)
        case Ok(less) => Ok(if less then x else best)
  }

  /** `get_base_file(files)`. */
  function BaseFile(files: seq<string>, folder: string, preference: string): Result<string, Failure> {
    MinBy(files, KeyBy(PriorityFn(folder, preference)))
  }

  /** The file `min` returns has a key no other key is smaller than, and
      every file before it has a strictly larger key: of several files with
      the smallest key, the first one wins. */
  lemma {:induction false} MinByIsFirstMinimum(files: seq<string>, key: string -> seq<KeyItem>) returns (j: nat)
    requires MinBy(files, key).Ok?
    ensures j < |files| && files[j] == MinBy(files, key).value
    ensures forall i :: 0 <= i < |files| ==> TupleLess(key(files[i]), key(files[j])) == Ok(false)
    ensures forall i :: 0 <= i < j ==> TupleLess(key(files[j]), key(files[i])) == Ok(true)
  {
    var n := |files| - 1;
    if n == 0 {
      j := 0;
      TupleLessIrreflexive(key(files[0]));
    } else {
      var front := files[..n];
      var x := files[n];
      var k := MinByIsFirstMinimum(front, key);
      var best := front[k];
      var c := TupleLess(key(x), key(best));
      assert c.Ok?;
      if c.value {
        j := n;
        TupleLessIrreflexive(key(x));
        forall i | 0 <= i < n
          ensures TupleLess(key(files[i]), key(x)) == Ok(false)
          ensures TupleLess(key(x), key(files[i])) == Ok(true)
        {
          var y := key(front[i]);
          assert TupleLess(y, key(best)) == Ok(false);
          TupleLessTotal(y, key(best));
          if y != key(best) {
            NotLessMeansGreater(y, key(best));
            assert TupleLess(key(x), key(best)) == Ok(true);
            TupleLessTransitive(key(x), key(best), y);
          }
          TupleLessTotal(key(x), y);
        }
      } else {
        j := k;
        TupleLessTotal(key(x), key(best));
        assert forall i :: 0 <= i < n ==> front[i] == files[i];
      }
    }
  }

  /** When every two keys of the group compare without raising, `min`
      returns a file. */
  lemma {:induction false} MinByDefined(files: seq<string>, key: string -> seq<KeyItem>)
    requires files != []
    requires forall p, q :: p in files && q in files ==> TupleLess(key(p), key(q)).Ok?
    ensures MinBy(files, key).Ok?
  {
    if |files| > 1 {
      var front := files[..|files| - 1];
      assert forall p :: p in front ==> p in files;
      MinByDefined(front, key);
    }
  }

  // ---------------------------------------------------------------------
  // What the ranking prefers
  // ---------------------------------------------------------------------

  /** A file in the scanned folder itself beats every file in a
      sub-folder, whatever else is true of either. */
  lemma RootFolderFirst(a: Priority, b: Priority)
    requires a.notInRoot == 0 && b.notInRoot == 1
    ensures TupleLess(a.Key(), b.Key()) == Ok(true)
  {
    assert a.Key()[0] == I(0) && b.Key()[0] == I(1);
  }

  /** Between two files in the same place, a release without a quality
      marker beats a proto, demo, sample or beta. */
  lemma GoodDumpFirst(a: Priority, b: Priority)
    requires a.notInRoot == b.notInRoot && a.lowPriority == 0 && b.lowPriority == 1
    ensures TupleLess(a.Key(), b.Key()) == Ok(true)
  {
    var ka, kb := a.Key(), b.Key();
    assert ka[0] == kb[0] && ka[1] != kb[1];
    assert ka[1..][0] == ka[1] && kb[1..][0] == kb[1];
  }

  /** Equal up to position `k` and different at `k`: the fields at `k`
      decide. */
  lemma {:induction false} DecidedAt(a: seq<KeyItem>, b: seq<KeyItem>, k: nat)
    requires k < |a| && k < |b| && a[..k] == b[..k] && a[k] != b[k]
    ensures TupleLess(a, b) == ItemLess(a[k], b[k])
    decreases k
  {
    if k > 0 {
      assert a[0] == a[..k][0] && b[0] == b[..k][0];
      assert a[1..][..k - 1] == a[..k][1..] && b[1..][..k - 1] == b[..k][1..];
      DecidedAt(a[1..], b[1..], k - 1);
    }
  }

  /** Between two files with the same location and quality flags and
      version tuples of the same length, the newer version (the larger
      tuple) wins. */
  lemma NewerVersionFirst(a: Priority, b: Priority, k: nat)
    requires a.notInRoot == b.notInRoot && a.lowPriority == b.lowPriority
    requires |a.version| == |b.version| && k < |a.version|
    requires forall i :: 0 <= i < k ==> a.version[i] == b.version[i]
    requires a.version[k] > b.version[k]
    ensures TupleLess(a.Key(), b.Key()) == Ok(true)
  {
    NewerAt(a.Key(), b.Key(), a.version, b.version, k);
  }

  lemma NewerAt(ka: seq<KeyItem>, kb: seq<KeyItem>, va: seq<nat>, vb: seq<nat>, k: nat)
    requires k < |va| && k < |vb| && |ka| == |va| + 8 && |kb| == |vb| + 8
    requires ka[..2] == kb[..2]
    requires forall i :: 2 <= i < |va| + 2 ==> ka[i] == I(-(va[i - 2] as int))
    requires forall i :: 2 <= i < |vb| + 2 ==> kb[i] == I(-(vb[i - 2] as int))
    requires forall i :: 0 <= i < k ==> va[i] == vb[i]
    requires va[k] > vb[k]
    ensures TupleLess(ka, kb) == Ok(true)
  {
    forall i | 0 <= i < k + 2
      ensures ka[i] == kb[i]
    {
      if i < 2 {
        assert ka[i] == ka[..2][i] && kb[i] == kb[..2][i];
      } else {
        assert ka[i] == I(-(va[i - 2] as int)) && kb[i] == I(-(vb[i - 2] as int));
      }
    }
    assert ka[..k + 2] == kb[..k + 2];
    assert ka[k + 2] == I(-(va[k] as int)) && kb[k + 2] == I(-(vb[k] as int));
    DecidedAt(ka, kb, k + 2);
  }

  /** Between two files equal in everything before the name, the shorter
      name wins; two equal tuples belong to files with the same name. */
  lemma ShorterNameFirst(a: Priority, b: Priority)
    requires a.(length := b.length, filename := b.filename) == b && a.length < b.length
    ensures TupleLess(a.Key(), b.Key()) == Ok(true)
  {
    var ka, kb := a.Key(), b.Key();
    var k := |a.version| + 6;
    assert ka[..k] == kb[..k] by {
      forall i | 0 <= i < k
        ensures ka[i] == kb[i]
      {
        if i >= |a.version| + 2 {
          assert ka[i] == ka[|a.version| + 2..][i - |a.version| - 2];
          assert kb[i] == kb[|a.version| + 2..][i - |a.version| - 2];
        } else if i < 2 {
          assert ka[i] == ka[..2][i] && kb[i] == kb[..2][i];
        }
      }
    }
    assert ka[k] == ka[|a.version| + 2..][4] && kb[k] == kb[|a.version| + 2..][4];
    DecidedAt(ka, kb, k);
  }

  /** Two priority tuples with version parts of the same length have the
      same shape, so comparing them never raises. */
  lemma EqualVersionLengthsCompare(a: Priority, b: Priority)
    requires |a.version| == |b.version|
    ensures TupleLess(a.Key(), b.Key()).Ok?
  {
    var ka, kb := a.Key(), b.Key();
    forall i | 0 <= i < |ka|
      ensures ka[i].I? == kb[i].I?
    {
      if i >= |a.version| + 2 {
        assert ka[i] == ka[|a.version| + 2..][i - |a.version| - 2];
        assert kb[i] == kb[|a.version| + 2..][i - |a.version| - 2];
      } else if i < 2 {
        assert ka[i] == ka[..2][i] && kb[i] == kb[..2][i];
      }
    }
    SameShapeComparable(ka, kb);
  }

  /** Files whose version tuples have the same length always compare, so
      `min` returns one of them. */
  lemma BaseFileDefinedForEqualVersionLengths(files: seq<string>, priority: string -> Priority, n: nat)
    requires files != []
    requires forall p :: p in files ==> |priority(p).version| == n
    ensures MinBy(files, KeyBy(priority)).Ok?
  {
    var key := KeyBy(priority);
    forall p, q | p in files && q in files
      ensures TupleLess(key(p), key(q)).Ok?
    {
      EqualVersionLengthsCompare(priority(p), priority(q));
    }
    MinByDefined(files, key);
  }

  /** The format bonus is 2 exactly for the format native to the
      preferred language's region, and always 0 with no preference or a
      preference outside both families. */
  lemma NativeFormatFirst(preference: string, languages: set<string>)
    ensures preference in NtscRegions && "NTSC" in languages ==> FormatPriority(preference, languages) == 2
    ensures preference in PalRegions && "PAL" in languages ==> FormatPriority(preference, languages) == 2
    ensures preference !in NtscRegions + PalRegions ==> FormatPriority(preference, languages) == 0
    ensures FormatPriority(preference, languages) == 2 ==>
      (preference in NtscRegions && "NTSC" in languages) || (preference in PalRegions && "PAL" in languages)
  {
    assert AnyLanguage !in NtscRegions + PalRegions;
    assert NtscRegions !! PalRegions;
  }

  /** A file named like "a", but with a SECAM tag and an explicit
      three-number version before its extension. */
  const SecamName: string := "a (SECAM) (v0.0.0).zip"

  /** `get_file_priority` of a bare file name in the folder "" whose name
      carries no quality marker, assembled from its version, its languages
      and its format bonus. */
  lemma PriorityParts(filepath: string, preference: string, version: seq<int>, langs: set<string>, format: int)
    requires Basename(filepath) == filepath && Dirname(filepath) == ""
    requires SlashPath(filepath) == filepath
    requires !LowQuality(LowerStr(filepath))
    requires Version.ExtractVersion(filepath) == version
    requires Languages.LanguagesOf(filepath) == langs
    requires FormatPriority(preference, langs) == format
    ensures PriorityOf(filepath, "", preference)
      == Priority(0, 0, version,
                  if "World" in langs then 1 else 0,
                  if preference != AnyLanguage && preference in langs then 1 else 0,
                  format, |langs - {Languages.Unknown}|, |filepath|, filepath)
  {
    SlashKeeps("");
  }

  /** For the preference "Japanese", an NTSC-family language, a file
      marked neither NTSC nor PAL gets -1 when marked SECAM and 0 otherwise. */
  lemma JapaneseFormat(langs: set<string>)
    requires "NTSC" !in langs && "PAL" !in langs
    ensures FormatPriority("Japanese", langs) == if "SECAM" in langs then -1 else 0
  {
    assert "Japanese" in NtscRegions;
  }

  /** `get_file_priority("a")` in the folder "" with preference "Japanese":
      a six-component version and no language. */
  lemma PlainPriority(f: string)
    requires |f| == 1 && f[0] == 'a'
    ensures PriorityOf(f, "", "Japanese") == Priority(0, 0, [0, 0, 0, 0, 0, 0], 0, 0, 0, 0, 1, f)
  {
    BareName(f);
    SlashKeeps(f);
    LowerKeeps(f);
    NotContains(f, "(proto");
    NotContains(f, "(demo");
    NotContains(f, "(sample");
    NotContains(f, "(beta");
    Version.PlainVersion(f);
    Languages.UnknownWithoutParen(f);
    JapaneseFormat({Languages.Unknown});
    PriorityParts(f, "Japanese", [0, 0, 0, 0, 0, 0], {Languages.Unknown}, 0);
    assert {Languages.Unknown} - {Languages.Unknown} == {};
  }

  /** `get_file_priority(SecamName)` there: the explicit version adds two
      components, and SECAM under an NTSC-family preference costs a format
      point. */
  lemma SecamPriority(f: string)
    requires Spells(f, SecamName)
    ensures PriorityOf(f, "", "Japanese") == Priority(0, 0, [0, 0, 0, 0, 0, 0, 0, 0], 0, 0, -1, 1, 22, f)
  {
    SecamPath(f);
    SecamQuality(f);
    Version.SecamVersion(f);
    Languages.SecamLanguages(f);
    JapaneseFormat({"SECAM"});
    PriorityParts(f, "Japanese", [0, 0, 0, 0, 0, 0, 0, 0], {"SECAM"}, -1);
    assert {"SECAM"} - {Languages.Unknown} == {"SECAM"};
  }

  lemma SecamPath(f: string)
    requires Spells(f, SecamName)
    ensures Basename(f) == f && Dirname(f) == "" && SlashPath(f) == f
  {
    forall i | 0 <= i < |f|
      ensures !IsSep(f[i]) && f[i] != '\\'
    {
      assert f[i] == SecamName[i];
    }
    BareName(f);
    SlashKeeps(f);
  }

  lemma SecamQuality(f: string)
    requires Spells(f, SecamName)
    ensures !LowQuality(LowerStr(f))
  {
    var l := LowerStr(f);
    forall i | 0 <= i < |l|
      ensures l[i] == '(' ==> i == 2 || i == 10
    {
      assert l[i] == Lower(f[i]) && f[i] == SecamName[i];
    }
    assert l[3] == 's' && l[4] == 'e' && l[11] == 'v';
    NotContains(l, "(proto");
    NotContains(l, "(demo");
    NotContains(l, "(sample");
    NotContains(l, "(beta");
  }

  /** The sort key of the first record: twelve zeros, the length 1 and the
      name. */
  lemma PlainKey(f: string)
    ensures var k := Priority(0, 0, [0, 0, 0, 0, 0, 0], 0, 0, 0, 0, 1, f).Key();
      && |k| == 14 && (forall i :: 0 <= i < 12 ==> k[i] == I(0))
      && k[12] == I(1) && k[13] == S(f)
  {
    var p := Priority(0, 0, [0, 0, 0, 0, 0, 0], 0, 0, 0, 0, 1, f);
    var k := p.Key();
    var v := p.version;
    forall i | 0 <= i < 12
      ensures k[i] == I(0)
    {
      if i < 2 {
        assert k[i] == k[..2][i];
      } else if i < 8 {
        assert k[i] == I(-(v[i - 2] as int));
      } else {
        assert k[i] == k[8..][i - 8];
      }
    }
    assert k[12] == k[8..][4] && k[13] == k[8..][5];
  }

  /** The sort key of the second: the eight-component version pushes the
      format bonus -1 to the place where the first key holds its name. */
  lemma SecamKey(f: string)
    ensures var k := Priority(0, 0, [0, 0, 0, 0, 0, 0, 0, 0], 0, 0, -1, 1, 22, f).Key();
      && |k| == 16 && (forall i :: 0 <= i < 12 ==> k[i] == I(0))
      && k[12] == I(1) && k[13] == I(-1) && k[14] == I(22) && k[15] == S(f)
  {
    var p := Priority(0, 0, [0, 0, 0, 0, 0, 0, 0, 0], 0, 0, -1, 1, 22, f);
    var k := p.Key();
    var v := p.version;
    forall i | 0 <= i < 12
      ensures k[i] == I(0)
    {
      if i < 2 {
        assert k[i] == k[..2][i];
      } else if i < 10 {
        assert k[i] == I(-(v[i - 2] as int));
      } else {
        assert k[i] == k[10..][i - 10];
      }
    }
    assert k[12] == k[10..][2] && k[13] == k[10..][3] && k[14] == k[10..][4] && k[15] == k[10..][5];
  }

  /** Comparing the two keys: the comparison reaches the name of the first
      against the integer -1 of the second and raises. */
  lemma MisalignedKeysRaise(a: string, b: string)
    ensures TupleLess(Priority(0, 0, [0, 0, 0, 0, 0, 0, 0, 0], 0, 0, -1, 1, 22, b).Key(),
                      Priority(0, 0, [0, 0, 0, 0, 0, 0], 0, 0, 0, 0, 1, a).Key()) == Err(TypeError)
  {
    PlainKey(a);
    SecamKey(b);
    MisalignedAt(Priority(0, 0, [0, 0, 0, 0, 0, 0, 0, 0], 0, 0, -1, 1, 22, b).Key(),
                 Priority(0, 0, [0, 0, 0, 0, 0, 0], 0, 0, 0, 0, 1, a).Key());
  }

  /** `get_base_file(["a", "a (SECAM) (v0.0.0).zip"])` with preference
      "Japanese" raises `TypeError`: `min` compares the second key with the
      first, and the version lengths differ. */
  lemma BaseFileRaises(a: string, b: string)
    requires |a| == 1 && a[0] == 'a' && Spells(b, SecamName)
    ensures BaseFile([a, b], "", "Japanese") == Err(TypeError)
  {
    var key := KeyBy(PriorityFn("", "Japanese"));
    PlainPriority(a);
    SecamPriority(b);
    MisalignedKeysRaise(a, b);
    MinByPair(a, b, key);
  }

  /** The same, for the two names written out. */
  lemma BaseFileRaisesOnNames()
    ensures BaseFile(["a", SecamName], "", "Japanese") == Err(TypeError)
  {
    BaseFileRaises("a", SecamName);
  }

  /** `min` of two files compares the second key with the first. */
  lemma MinByPair(a: string, b: string, key: string -> seq<KeyItem>)
    ensures MinBy([a, b], key) == match TupleLess(key(b), key(a))
      case Err(e) => Err(e)
      case Ok(less) => Ok(if less then b else a)
  {
    assert [a, b][..1] == [a];
  }

  /** Two tuples equal on their first 13 fields whose 14th fields are an
      int and a str. */
  lemma MisalignedAt(kb: seq<KeyItem>, ka: seq<KeyItem>)
    requires |kb| == 16 && |ka| == 14
    requires forall i :: 0 <= i < 12 ==> kb[i] == I(0) && ka[i] == I(0)
    requires kb[12] == ka[12] && kb[13] == I(-1) && ka[13].S?
    ensures TupleLess(kb, ka) == Err(TypeError)
  {
    assert kb[..13] == ka[..13];
    DecidedAt(kb, ka, 13);
  }
}
