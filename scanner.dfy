/** The grouping engine of rom_duplicate_manager/core/scanner.py:159-287 and
    the orphaned-image matcher of scanner.py:290-321.

    The file system is an input: a directory listing (as `os.scandir`,
    `os.walk` or `os.listdir` would produce it, cut short where they raise),
    a size oracle standing for `os.path.getsize` (None where it raises) and a
    hash oracle standing for `get_partial_hash` (modelled in the Fingerprint
    module). The progress callback is the sequence of answers it gives, call
    by call; the calls it receives are returned as a trace. */
module Scanner {
  import opened Text
  import opened Wrappers
  import Normalizer
  import Fingerprint

  // ---------------------------------------------------------------------
  // Groups: dict[str, list[str]] built with setdefault(key, []).append(path)
  // ---------------------------------------------------------------------

  type Groups = map<string, seq<string>>

  /** `groups.setdefault(key, []).append(path)`. */
  function Insert(g: Groups, key: string, path: string): (r: Groups)
    ensures r.Keys == g.Keys + {key}
  {
    g[key := (if key in g then g[key] else []) + [path]]
  }

  /** The groups built by inserting each (key, path) pair in turn. */
  function GroupPairs(pairs: seq<(string, string)>): Groups {
    if pairs == [] then map[]
    else
      var last := pairs[|pairs| - 1];
      Insert(GroupPairs(pairs[..|pairs| - 1]), last.0, last.1)
  }

  /** The paths paired with `k`, in order: the reference for a group. */
  function PathsWithKey(pairs: seq<(string, string)>, k: string): seq<string> {
    if pairs == [] then []
    else
      var last := pairs[|pairs| - 1];
      PathsWithKey(pairs[..|pairs| - 1], k) + (if last.0 == k then [last.1] else [])
  }

  /** Each group holds exactly the paths inserted under its key, in
      insertion order, and there is a group for a key exactly when some
      path was inserted under it. */
  lemma {:induction false} GroupPairsContents(pairs: seq<(string, string)>, k: string)
    ensures k in GroupPairs(pairs) <==> PathsWithKey(pairs, k) != []
    ensures k in GroupPairs(pairs) ==> GroupPairs(pairs)[k] == PathsWithKey(pairs, k)
  {
    if pairs != [] {
      GroupPairsContents(pairs[..|pairs| - 1], k);
    }
  }

  /** A path is in the group of `k` exactly when it was inserted under `k`. */
  lemma {:induction false} PathsWithKeyMember(pairs: seq<(string, string)>, k: string, p: string)
    ensures p in PathsWithKey(pairs, k) <==> exists i :: 0 <= i < |pairs| && pairs[i] == (k, p)
  {
    if pairs != [] {
      var n := |pairs| - 1;
      PathsWithKeyMember(pairs[..n], k, p);
      if p in PathsWithKey(pairs[..n], k) {
        var i :| 0 <= i < n && pairs[..n][i] == (k, p);
        assert pairs[i] == (k, p);
      }
      if exists i :: 0 <= i < |pairs| && pairs[i] == (k, p) {
        var i :| 0 <= i < |pairs| && pairs[i] == (k, p);
        if i < n {
          assert pairs[..n][i] == (k, p);
        }
      }
    }
  }

  lemma InGroupIff(pairs: seq<(string, string)>, k: string, p: string)
    ensures (k in GroupPairs(pairs) && p in GroupPairs(pairs)[k])
      <==> exists i :: 0 <= i < |pairs| && pairs[i] == (k, p)
  {
    GroupPairsContents(pairs, k);
    PathsWithKeyMember(pairs, k, p);
  }

  // ---------------------------------------------------------------------
  // The partition (scanner.py:249-252)
  // ---------------------------------------------------------------------

  function Duplicates(g: Groups): Groups {
    map k | k in g && |g[k]| > 1 :: g[k]
  }

  function NonDuplicates(g: Groups): Groups {
    map k | k in g && |g[k]| == 1 :: g[k]
  }

  /** The two maps have disjoint keys, keep the groups as they are, and
      together cover every group: `duplicates` holds the keys with more
      than one path and `non_duplicates` those with exactly one. */
  lemma PartitionProperties(pairs: seq<(string, string)>)
    ensures var g := GroupPairs(pairs);
      && Duplicates(g).Keys !! NonDuplicates(g).Keys
      && Duplicates(g).Keys + NonDuplicates(g).Keys == g.Keys
      && (forall k :: k in Duplicates(g) ==> |Duplicates(g)[k]| > 1 && Duplicates(g)[k] == g[k])
      && (forall k :: k in NonDuplicates(g) ==> |NonDuplicates(g)[k]| == 1 && NonDuplicates(g)[k] == g[k])
  {
    var g := GroupPairs(pairs);
    forall k | k in g
      ensures |g[k]| >= 1
    {
      GroupPairsContents(pairs, k);
    }
  }

  /** Every inserted path lands in exactly one of the two maps, under its
      own key. */
  lemma EveryPathPartitioned(pairs: seq<(string, string)>, i: nat)
    requires i < |pairs|
    ensures var g := GroupPairs(pairs);
      var (k, p) := pairs[i];
      && ((k in Duplicates(g) && p in Duplicates(g)[k]) || (k in NonDuplicates(g) && p in NonDuplicates(g)[k]))
      && !(k in Duplicates(g) && k in NonDuplicates(g))
  {
    InGroupIff(pairs, pairs[i].0, pairs[i].1);
    PartitionProperties(pairs);
  }

  // ---------------------------------------------------------------------
  // Enumeration and the extension filter (scanner.py:171-195)
  // ---------------------------------------------------------------------

  /** What kind of entry a listing holds: a regular file, a symbolic link
      to a file, a directory, or anything else. */
  datatype EntryKind = File | FileLink | Dir | Other

  /** One entry: the joined path, the bare name, and its kind. */
  datatype DirEntry = DirEntry(path: string, name: string, kind: EntryKind)

  /** A listing: whether the folder exists, the entries returned before
      enumeration stopped, and whether a `PermissionError` stopped it while
      the folder itself was being listed. The package's flat scan swallows
      that error and keeps the entries; `os.walk` ignores it. */
  datatype Listing = Listing(exists_: bool, entries: seq<DirEntry>, denied: bool)

  /** The extension filter: a non-empty inclusion set decides alone;
      otherwise a non-empty exclusion set rejects its extensions. Empty
      sets stand for both `None` and an empty set, which Python treats
      alike. */
  predicate KeepExtension(extLower: string, wanted: set<string>, unwanted: set<string>) {
    if wanted != {} then extLower in wanted
    else !(unwanted != {} && extLower in unwanted)
  }

  lemma KeepExtensionIff(extLower: string, wanted: set<string>, unwanted: set<string>)
    ensures KeepExtension(extLower, wanted, unwanted)
      <==> (wanted != {} && extLower in wanted)
           || (wanted == {} && (unwanted == {} || extLower !in unwanted))
  {
  }

  /** `os.walk` lists every non-directory in `files`; `entry.is_file(
      follow_symlinks=False)` holds only for regular files. */
  predicate Listed(kind: EntryKind, recursive: bool) {
    if recursive then kind != Dir else kind == File
  }

  predicate Kept(e: DirEntry, recursive: bool, wanted: set<string>, unwanted: set<string>) {
    Listed(e.kind, recursive) && KeepExtension(LowerStr(Ext(e.name)), wanted, unwanted)
  }

  /** The `file_list` of the scan: kept entries' paths with '/' separators. */
  function FileList(listing: Listing, recursive: bool, wanted: set<string>, unwanted: set<string>): seq<string> {
    if !listing.exists_ then [] else KeptPaths(listing.entries, recursive, wanted, unwanted)
  }

  function KeptPaths(entries: seq<DirEntry>, recursive: bool, wanted: set<string>, unwanted: set<string>): seq<string> {
    if entries == [] then []
    else
      var e := entries[|entries| - 1];
      KeptPaths(entries[..|entries| - 1], recursive, wanted, unwanted)
        + (if Kept(e, recursive, wanted, unwanted) then [SlashPath(e.path)] else [])
  }

  lemma KeptPathsStep(entries: seq<DirEntry>, i: nat, recursive: bool, wanted: set<string>, unwanted: set<string>)
    requires i < |entries|
    ensures KeptPaths(entries[..i + 1], recursive, wanted, unwanted)
         == KeptPaths(entries[..i], recursive, wanted, unwanted)
            + (if Kept(entries[i], recursive, wanted, unwanted) then [SlashPath(entries[i].path)] else [])
  {
    assert entries[..i + 1][..i] == entries[..i];
  }

  /** The enumeration loop of `_scan_folder_internal`. */
  method CollectFiles(listing: Listing, recursive: bool, wanted: set<string>, unwanted: set<string>)
    returns (files: seq<string>)
    ensures files == FileList(listing, recursive, wanted, unwanted)
  {
    files := [];
    if !listing.exists_ {
      return;
    }
    var entries := listing.entries;
    var i := 0;
    while i < |entries|
      invariant 0 <= i <= |entries|
      invariant files == KeptPaths(entries[..i], recursive, wanted, unwanted)
    {
      var e := entries[i];
      KeptPathsStep(entries, i, recursive, wanted, unwanted);
      var listed := if recursive then e.kind != Dir else e.kind == File;
      if listed {
        var extLower := LowerStr(Ext(e.name));
        if wanted != {} && extLower !in wanted {
        } else if wanted == {} && unwanted != {} && extLower in unwanted {
        } else {
          files := files + [SlashPath(e.path)];
        }
      }
      i := i + 1;
    }
    assert entries[..i] == entries;
  }

  // ---------------------------------------------------------------------
  // Group keys (scanner.py:211, 221, 242-246)
  // ---------------------------------------------------------------------

  function Min(a: nat, b: nat): nat {
    if a <= b then a else b
  }

  /** `normalize_filename(os.path.basename(path), ...)`. */
  function NameKey(path: string, systemExtensions: set<string>, ignoreSystemPrefix: bool): string {
    Normalizer.NormalizeName(Basename(path), systemExtensions, ignoreSystemPrefix)
  }

  /** The key of a file in a size bucket of two or more: its size with
      thousands separators, its lowercased extension and, when the hash is
      a non-empty string, the hash's first eight characters. */
  function SizeKey(size: nat, path: string, h: Option<string>): string {
    SizeKeyHead(size) + "(" + LowerStr(Ext(path)) + ")" + HashSuffix(h)
  }

  function SizeKeyHead(size: nat): string {
    "Size: " + Thousands(size) + " bytes "
  }

  function HashSuffix(h: Option<string>): (r: string)
    ensures r == [] || r[|r| - 1] == ']'
  {
    if h.Some? && h.value != [] then " [Hash: " + h.value[..Min(8, |h.value|)] + "]" else ""
  }

  /** A size key ends with ')' or ']' and has a '(' before its last two
      characters. */
  lemma SizeKeyShape(size: nat, path: string, h: Option<string>)
    ensures var k := SizeKey(size, path, h);
      var j := |SizeKeyHead(size)|;
      j + 1 < |k| && k[j] == '(' && (k[|k| - 1] == ')' || k[|k| - 1] == ']')
  {
    BracketedShape(SizeKeyHead(size), LowerStr(Ext(path)), HashSuffix(h));
  }

  lemma BracketedShape(head: string, x: string, tail: string)
    requires tail == [] || tail[|tail| - 1] == ']'
    ensures var k := head + "(" + x + ")" + tail;
      |head| + 1 < |k| && k[|head|] == '(' && (k[|k| - 1] == ')' || k[|k| - 1] == ']')
  {
    var mid := "(" + x + ")";
    var k := head + "(" + x + ")" + tail;
    assert k == head + mid + tail;
    assert k[|head|] == mid[0];
    if tail == [] {
      assert k[|k| - 1] == mid[|mid| - 1];
    } else {
      assert k[|k| - 1] == tail[|tail| - 1];
    }
  }

  /** Two size keys that are equal are keys of the same size: the
      thousands-separated size is read up to the first space. */
  lemma SizeKeyDistinguishesSizes(a: nat, p: string, g: Option<string>,
                                  b: nat, q: string, h: Option<string>)
    requires SizeKey(a, p, g) == SizeKey(b, q, h)
    ensures a == b
  {
    var ta, tb := Thousands(a), Thousands(b);
    var ra := SizeKeyRegroup(ta, LowerStr(Ext(p)), HashSuffix(g));
    var rb := SizeKeyRegroup(tb, LowerStr(Ext(q)), HashSuffix(h));
    SpaceFree(ta);
    SpaceFree(tb);
    FieldBeforeSpace("Size: ", ta, ra, tb, rb);
    ThousandsInjective(a, b);
  }

  /** The size key read as its head, the size, a space and the rest. */
  lemma SizeKeyRegroup(t: string, x: string, tail: string) returns (rest: string)
    ensures "Size: " + t + " bytes " + "(" + x + ")" + tail == "Size: " + (t + " " + rest)
  {
    rest := "bytes " + "(" + x + ")" + tail;
    assert " bytes " == " " + "bytes ";
  }

  lemma SpaceFree(r: string)
    requires GroupedDigits(r)
    ensures forall i :: 0 <= i < |r| ==> r[i] != ' '
  {
  }

  /** A field without spaces is read back up to the first space after a
      common head. */
  lemma FieldBeforeSpace(head: string, x: string, u: string, y: string, v: string)
    requires forall i :: 0 <= i < |x| ==> x[i] != ' '
    requires forall i :: 0 <= i < |y| ==> y[i] != ' '
    requires head + (x + " " + u) == head + (y + " " + v)
    ensures x == y
  {
    var s, t := x + " " + u, y + " " + v;
    assert s == (head + s)[|head|..];
    assert t == (head + t)[|head|..];
    assert s[|x|] == ' ' && forall i :: 0 <= i < |x| ==> s[i] == x[i];
    assert t[|y|] == ' ' && forall i :: 0 <= i < |y| ==> t[i] == y[i];
    FirstSpace(s, |x|, |y|);
    assert x == s[..|x|] && y == t[..|y|];
  }

  /** A string has one first space. */
  lemma FirstSpace(s: string, n: nat, m: nat)
    requires n < |s| && m < |s| && s[n] == ' ' && s[m] == ' '
    requires forall i :: 0 <= i < n ==> s[i] != ' '
    requires forall i :: 0 <= i < m ==> s[i] != ' '
    ensures n == m
  {
  }

  /** A name key is never a size key: a normalized name is a fixpoint of
      the bracket substitution, so it cannot end with a bracket group. */
  lemma NameKeyIsNotSizeKey(path: string, systemExtensions: set<string>, ignoreSystemPrefix: bool,
                            size: nat, other: string, h: Option<string>)
    ensures NameKey(path, systemExtensions, ignoreSystemPrefix) != SizeKey(size, other, h)
  {
    Normalizer.NormalizeNameProperties(Basename(path), systemExtensions, ignoreSystemPrefix);
    FixpointIsNotSizeKey(NameKey(path, systemExtensions, ignoreSystemPrefix), size, other, h);
  }

  /** A fixpoint of the bracket substitution is never a size key. */
  lemma FixpointIsNotSizeKey(key: string, size: nat, other: string, h: Option<string>)
    requires Normalizer.Pass(key) == key
    ensures key != SizeKey(size, other, h)
  {
    var j := |SizeKeyHead(size)|;
    SizeKeyShape(size, other, h);
    if j + 1 < |key| && Normalizer.IsOpen(key[j]) {
      Normalizer.FixpointHasNoBracketTail(key, j);
    }
  }

  /** `NameKey` with the settings of one scan fixed: the key every file
      gets in name mode and a file alone in its size bucket gets in size
      mode. */
  function NameKeyOf(systemExtensions: set<string>, ignoreSystemPrefix: bool): string -> string {
    p => NameKey(p, systemExtensions, ignoreSystemPrefix)
  }

  /** Each path paired with the key `key` gives it, in order: the pairs of
      name mode, and of one size bucket. */
  function KeyedPairs(files: seq<string>, key: string -> string): seq<(string, string)> {
    if files == [] then []
    else
      var p := files[|files| - 1];
      KeyedPairs(files[..|files| - 1], key) + [(key(p), p)]
  }

  lemma {:induction false} KeyedPairsAt(files: seq<string>, key: string -> string)
    ensures |KeyedPairs(files, key)| == |files|
    ensures forall i :: 0 <= i < |files| ==> KeyedPairs(files, key)[i] == (key(files[i]), files[i])
  {
    if files != [] {
      KeyedPairsAt(files[..|files| - 1], key);
    }
  }

  /** When every pair carries the key `f` gives its path, a path is in the
      group of `k` exactly when `f` maps it to `k`. */
  lemma GroupsByKeyFunction(pairs: seq<(string, string)>, f: string -> string, k: string, i: nat)
    requires i < |pairs|
    requires forall j :: 0 <= j < |pairs| ==> pairs[j].0 == f(pairs[j].1)
    ensures var g := GroupPairs(pairs);
      (k in g && pairs[i].1 in g[k]) <==> k == f(pairs[i].1)
  {
    InGroupIff(pairs, k, pairs[i].1);
  }

  /** In name mode a file is in the group of `k` exactly when its
      normalized basename is `k`. */
  lemma NameModeGroups(files: seq<string>, systemExtensions: set<string>, ignoreSystemPrefix: bool, k: string, i: nat)
    requires i < |files|
    ensures var g := GroupPairs(KeyedPairs(files, NameKeyOf(systemExtensions, ignoreSystemPrefix)));
      (k in g && files[i] in g[k]) <==> k == NameKey(files[i], systemExtensions, ignoreSystemPrefix)
  {
    var f := NameKeyOf(systemExtensions, ignoreSystemPrefix);
    KeyedGroups(files, f, k, i);
    assert f(files[i]) == NameKey(files[i], systemExtensions, ignoreSystemPrefix);
  }

  lemma KeyedGroups(files: seq<string>, f: string -> string, k: string, i: nat)
    requires i < |files|
    ensures var g := GroupPairs(KeyedPairs(files, f));
      (k in g && files[i] in g[k]) <==> k == f(files[i])
  {
    KeyedPairsAt(files, f);
    GroupsByKeyFunction(KeyedPairs(files, f), f, k, i);
  }

  // ---------------------------------------------------------------------
  // The size map (scanner.py:215-224): dict[int, list[str]] in insertion order
  // ---------------------------------------------------------------------

  datatype Bucket = Bucket(size: nat, paths: seq<string>)

  /** `size_map.setdefault(size, []).append(path)`. */
  function AddToBucket(buckets: seq<Bucket>, size: nat, path: string): (r: seq<Bucket>)
    ensures |r| >= 1
    decreases |buckets|
  {
    if buckets == [] then [Bucket(size, [path])]
    else if buckets[0].size == size then [Bucket(size, buckets[0].paths + [path])] + buckets[1..]
    else [buckets[0]] + AddToBucket(buckets[1..], size, path)
  }

  /** The size map after the first pass; a file whose size cannot be read
      is left out. */
  function SizeBuckets(files: seq<string>, sizeOf: string -> Option<nat>): seq<Bucket> {
    if files == [] then []
    else
      var p := files[|files| - 1];
      var before := SizeBuckets(files[..|files| - 1], sizeOf);
      if sizeOf(p).Some? then AddToBucket(before, sizeOf(p).value, p) else before
  }

  /** `SizeKey` for the files of one bucket. */
  function BucketKey(size: nat, hashOf: string -> Option<string>): string -> string {
    p => SizeKey(size, p, hashOf(p))
  }

  /** The pairs one bucket contributes. */
  function BucketPairs(b: Bucket, key: string -> string,
                       hashOf: string -> Option<string>): seq<(string, string)> {
    if |b.paths| == 1 then [(key(b.paths[0]), b.paths[0])]
    else KeyedPairs(b.paths, BucketKey(b.size, hashOf))
  }

  function BucketPairsOf(key: string -> string, hashOf: string -> Option<string>): Bucket -> seq<(string, string)> {
    b => BucketPairs(b, key, hashOf)
  }

  /** The pairs of the size pass: those of each bucket, bucket by bucket. */
  function SizePairs(buckets: seq<Bucket>, key: string -> string,
                     hashOf: string -> Option<string>): seq<(string, string)> {
    FlatMap(buckets, BucketPairsOf(key, hashOf))
  }

  /** The results of `f` on each element, concatenated in order. */
  function FlatMap<A, B>(xs: seq<A>, f: A -> seq<B>): seq<B> {
    if xs == [] then []
    else FlatMap(xs[..|xs| - 1], f) + f(xs[|xs| - 1])
  }

  lemma FlatMapStep<A, B>(xs: seq<A>, n: nat, f: A -> seq<B>)
    requires n < |xs|
    ensures FlatMap(xs[..n + 1], f) == FlatMap(xs[..n], f) + f(xs[n])
  {
    assert xs[..n + 1][..n] == xs[..n];
  }

  /** Whatever `f` gives for one element is in the concatenation. */
  lemma {:induction false} FlatMapHas<A, B>(xs: seq<A>, f: A -> seq<B>, i: nat, x: B)
    requires i < |xs| && x in f(xs[i])
    ensures x in FlatMap(xs, f)
  {
    var n := |xs| - 1;
    if i < n {
      assert xs[..n][i] == xs[i];
      FlatMapHas(xs[..n], f, i, x);
    }
  }

  /** The files that are hashed, in order: those in buckets of two or more. */
  function HashedPaths(buckets: seq<Bucket>): seq<string> {
    if buckets == [] then []
    else
      var b := buckets[|buckets| - 1];
      HashedPaths(buckets[..|buckets| - 1]) + HashedIn(b)
  }

  /** The pairs of a scan, in the order the groups are built. */
  function ScanPairs(files: seq<string>, matchSize: bool, key: string -> string,
                     sizeOf: string -> Option<nat>, hashOf: string -> Option<string>): seq<(string, string)> {
    if matchSize then SizePairs(SizeBuckets(files, sizeOf), key, hashOf)
    else KeyedPairs(files, key)
  }

  // ---------------------------------------------------------------------
  // Progress reports and cancellation (scanner.py:203-240)
  // ---------------------------------------------------------------------

  /** One call `progress_callback(current, total, message)`; the message
      is a stage label followed by the base name of the file at hand. */
  datatype Report = Report(current: nat, total: nat, stage: string, path: string) {
    function Message(): string {
      stage + Basename(path)
    }
  }

  /** `max(1, total // 100)`. */
  function BatchSize(total: nat): (b: nat)
    ensures b >= 1
  {
    if total / 100 >= 1 then total / 100 else 1
  }

  predicate Reported(i: nat, total: nat) {
    i % BatchSize(total) == 0 || i == total - 1
  }

  /** The reports of a pass over `files[..n]`. */
  function PassReports(files: seq<string>, n: nat, prefix: string): seq<Report>
    requires n <= |files|
  {
    if n == 0 then []
    else
      var before := PassReports(files, n - 1, prefix);
      before + (if Reported(n - 1, |files|) then [Report(n, |files|, prefix, files[n - 1])] else [])
  }

  /** The reports of the hashing pass: every hashed file, counted from 1. */
  function HashReports(paths: seq<string>, total: nat): seq<Report> {
    if paths == [] then []
    else
      var n := |paths| - 1;
      HashReports(paths[..n], total) + [Report(n + 1, total, "Hashing: ", paths[n])]
  }

  /** The hashing pass reports each hashed file once, counting 1, 2, ... */
  lemma {:induction false} HashReportsAt(paths: seq<string>, total: nat)
    ensures |HashReports(paths, total)| == |paths|
    ensures forall j :: 0 <= j < |paths| ==>
      HashReports(paths, total)[j] == Report(j + 1, total, "Hashing: ", paths[j])
  {
    if paths != [] {
      HashReportsAt(paths[..|paths| - 1], total);
    }
  }

  /** Every call a scan makes when no call refuses. */
  function ScanCalls(files: seq<string>, matchSize: bool, sizeOf: string -> Option<nat>): seq<Report> {
    if matchSize then
      var hashed := HashedPaths(SizeBuckets(files, sizeOf));
      PassReports(files, |files|, "Checking size: ") + HashReports(hashed, |hashed|)
    else PassReports(files, |files|, "Scanning: ")
  }

  /** The index (counted from `offset`) of the first of `n` calls that
      refuses, or `n` when none does. */
  function Refusal(answer: nat -> bool, offset: nat, n: nat): (k: nat)
    ensures k <= n
    ensures forall j :: offset <= j < offset + k ==> answer(j)
    ensures k < n ==> !answer(offset + k)
    decreases n
  {
    if n == 0 then 0
    else if !answer(offset) then 0
    else 1 + Refusal(answer, offset + 1, n - 1)
  }

  /** The calls made: none without a callback, otherwise every call up to
      and including the first that refuses. */
  function Trace(callback: Option<nat -> bool>, calls: seq<Report>): seq<Report> {
    if callback.None? then []
    else
      var k := Refusal(callback.value, 0, |calls|);
      if k < |calls| then calls[..k + 1] else calls
  }

  /** Some call refuses, so the scan is cancelled. */
  predicate Cancelled(callback: Option<nat -> bool>, calls: seq<Report>) {
    callback.Some? && Refusal(callback.value, 0, |calls|) < |calls|
  }

  // ---------------------------------------------------------------------
  // Lemmas used by the scan
  // ---------------------------------------------------------------------

  lemma GroupPairsSnoc(pairs: seq<(string, string)>, x: (string, string))
    ensures GroupPairs(pairs + [x]) == Insert(GroupPairs(pairs), x.0, x.1)
  {
    assert (pairs + [x])[..|pairs|] == pairs;
  }

  /** Keying the next path extends the keyed pairs by one. */
  lemma KeyedPairsStep(pairs: seq<(string, string)>, paths: seq<string>, j: nat, f: string -> string)
    requires j < |paths|
    ensures pairs + KeyedPairs(paths[..j + 1], f) == pairs + KeyedPairs(paths[..j], f) + [(f(paths[j]), paths[j])]
  {
    assert paths[..j + 1][..j] == paths[..j];
  }

  lemma {:induction false} PassReportsPrefix(files: seq<string>, a: nat, b: nat, prefix: string)
    requires a <= b <= |files|
    ensures PassReports(files, a, prefix) <= PassReports(files, b, prefix)
    decreases b - a
  {
    if a < b {
      PassReportsPrefix(files, a, b - 1, prefix);
    }
  }

  lemma {:induction false} HashedPathsPrefix(buckets: seq<Bucket>, b: nat)
    requires b <= |buckets|
    ensures HashedPaths(buckets[..b]) <= HashedPaths(buckets)
    decreases |buckets| - b
  {
    if b < |buckets| {
      if |buckets| > 0 {
        var n := |buckets| - 1;
        if b == |buckets| - 1 {
          assert buckets[..b] == buckets[..n];
        } else {
          HashedPathsPrefix(buckets[..n], b);
          assert buckets[..n][..b] == buckets[..b];
        }
      }
    } else {
      assert buckets[..b] == buckets;
    }
  }

  lemma HashedPathsStep(buckets: seq<Bucket>, b: nat)
    requires b < |buckets|
    ensures HashedPaths(buckets[..b + 1])
      == HashedPaths(buckets[..b]) + HashedIn(buckets[b])
  {
    assert buckets[..b + 1][..b] == buckets[..b];
  }

  lemma SizePairsStep(buckets: seq<Bucket>, b: nat, key: string -> string,
                      hashOf: string -> Option<string>)
    requires b < |buckets|
    ensures SizePairs(buckets[..b + 1], key, hashOf)
      == SizePairs(buckets[..b], key, hashOf)
         + BucketPairs(buckets[b], key, hashOf)
  {
    FlatMapStep(buckets, b, BucketPairsOf(key, hashOf));
  }

  lemma {:induction false} HashReportsPrefix(xs: seq<string>, ys: seq<string>, total: nat)
    requires xs <= ys
    ensures HashReports(xs, total) <= HashReports(ys, total)
    decreases |ys|
  {
    if |xs| < |ys| {
      var n := |ys| - 1;
      assert xs <= ys[..n];
      HashReportsPrefix(xs, ys[..n], total);
    } else {
      assert xs == ys;
    }
  }

  lemma HashReportsSnoc(xs: seq<string>, p: string, total: nat)
    ensures HashReports(xs + [p], total)
      == HashReports(xs, total) + [Report(|xs| + 1, total, "Hashing: ", p)]
  {
    assert (xs + [p])[..|xs|] == xs;
  }

  /** A refusal at call `n`, after `n` accepted calls that are a prefix of
      `calls`, ends the trace there. */
  lemma RefusalEndsTrace(callback: Option<nat -> bool>, calls: seq<Report>, made: seq<Report>)
    requires made <= calls && LastRefused(callback, made)
    ensures Trace(callback, calls) == made && Cancelled(callback, calls)
  {
    AcceptedUpToIff(callback.value, |made| - 1);
    var k := Refusal(callback.value, 0, |calls|);
    assert k == |made| - 1;
  }

  /** With every call accepted, the trace is every call. */
  lemma AcceptedTrace(callback: Option<nat -> bool>, calls: seq<Report>, made: seq<Report>)
    requires Progress(callback, made, calls)
    ensures Trace(callback, calls) == made && !Cancelled(callback, calls)
  {
    if callback.Some? {
      AcceptedUpToIff(callback.value, |calls|);
      var k := Refusal(callback.value, 0, |calls|);
      assert k == |calls|;
    }
  }

  /** The first `n` calls were all answered True. */
  predicate AcceptedUpTo(answer: nat -> bool, n: nat) {
    n == 0 || (AcceptedUpTo(answer, n - 1) && answer(n - 1))
  }

  lemma {:induction false} AcceptedUpToIff(answer: nat -> bool, n: nat)
    ensures AcceptedUpTo(answer, n) <==> forall j :: 0 <= j < n ==> answer(j)
  {
    if n > 0 {
      AcceptedUpToIff(answer, n - 1);
    }
  }

  /** The calls so far are `calls` (none without a callback), and each was
      answered True. */
  predicate Progress(callback: Option<nat -> bool>, trace: seq<Report>, calls: seq<Report>) {
    if callback.Some? then trace == calls && AcceptedUpTo(callback.value, |calls|) else trace == []
  }

  /** The last call so far was answered False, every earlier one True. */
  predicate LastRefused(callback: Option<nat -> bool>, trace: seq<Report>) {
    callback.Some? && |trace| >= 1 && !callback.value(|trace| - 1) && AcceptedUpTo(callback.value, |trace| - 1)
  }

  // ---------------------------------------------------------------------
  // _scan_folder_internal
  // ---------------------------------------------------------------------

  /** The progress report of the first loops (scanner.py:207-209 and
      217-219): on every `batchSize`-th file and on the last one, report the
      count so far and stop if the callback refuses. */
  method ReportProgress(files: seq<string>, i: nat, batchSize: nat, stage: string,
                        callback: Option<nat -> bool>, trace: seq<Report>)
    returns (stop: bool, trace': seq<Report>)
    requires i < |files| && batchSize == BatchSize(|files|)
    requires Progress(callback, trace, PassReports(files, i, stage))
    ensures stop ==> LastRefused(callback, trace') && trace' <= PassReports(files, |files|, stage)
    ensures !stop ==> Progress(callback, trace', PassReports(files, i + 1, stage))
  {
    var total := |files|;
    ghost var step := if Reported(i, total) then [Report(i + 1, total, stage, files[i])] else [];
    assert PassReports(files, i + 1, stage) == PassReports(files, i, stage) + step;
    trace' := trace;
    if callback.Some? && (i % batchSize == 0 || i == total - 1) {
      var n := |trace'|;
      trace' := trace' + [Report(i + 1, total, stage, files[i])];
      if !callback.value(n) {
        PassReportsPrefix(files, i + 1, total, stage);
        return true, trace';
      }
    }
    stop := false;
  }

  /** The name-mode loop (scanner.py:205-212). */
  method NamePass(files: seq<string>, callback: Option<nat -> bool>, batchSize: nat,
                  key: string -> string)
    returns (cancelled: bool, trace: seq<Report>, groups: Groups)
    requires batchSize == BatchSize(|files|)
    ensures var calls := PassReports(files, |files|, "Scanning: ");
      if cancelled then LastRefused(callback, trace) && trace <= calls
      else && Progress(callback, trace, calls)
           && groups == GroupPairs(KeyedPairs(files, key))
  {
    var total := |files|;
    trace := [];
    groups := map[];
    var i := 0;
    while i < total
      invariant 0 <= i <= total
      invariant Progress(callback, trace, PassReports(files, i, "Scanning: "))
      invariant groups == GroupPairs(KeyedPairs(files[..i], key))
    {
      var fullPath := files[i];
      var stop;
      stop, trace := ReportProgress(files, i, batchSize, "Scanning: ", callback, trace);
      if stop {
        return true, trace, map[];
      }
      var base := key(fullPath);
      assert files[..i + 1][..i] == files[..i];
      GroupPairsSnoc(KeyedPairs(files[..i], key), (base, fullPath));
      groups := Insert(groups, base, fullPath);
      i := i + 1;
    }
    assert files[..i] == files;
    cancelled := false;
  }

  /** The first loop of size mode (scanner.py:215-224). */
  method SizePass(files: seq<string>, callback: Option<nat -> bool>, batchSize: nat,
                  sizeOf: string -> Option<nat>)
    returns (cancelled: bool, trace: seq<Report>, sizeMap: seq<Bucket>)
    requires batchSize == BatchSize(|files|)
    ensures var calls := PassReports(files, |files|, "Checking size: ");
      if cancelled then LastRefused(callback, trace) && trace <= calls
      else && Progress(callback, trace, calls)
           && sizeMap == SizeBuckets(files, sizeOf)
  {
    var total := |files|;
    trace := [];
    sizeMap := [];
    var i := 0;
    while i < total
      invariant 0 <= i <= total
      invariant Progress(callback, trace, PassReports(files, i, "Checking size: "))
      invariant sizeMap == SizeBuckets(files[..i], sizeOf)
    {
      var fullPath := files[i];
      var stop;
      stop, trace := ReportProgress(files, i, batchSize, "Checking size: ", callback, trace);
      if stop {
        return true, trace, [];
      }
      assert files[..i + 1][..i] == files[..i];
      var size := sizeOf(fullPath);
      if size.Some? {
        sizeMap := AddToBucket(sizeMap, size.value, fullPath);
      }
      i := i + 1;
    }
    assert files[..i] == files;
    cancelled := false;
  }

  /** One bucket of two or more files in the second loop of size mode
      (scanner.py:235-247): each file is counted, reported, hashed and
      keyed by size, extension and hash. */
  method HashBucket(bucket: Bucket, callback: Option<nat -> bool>, totalToHash: nat,
                    ghost before: seq<Report>, ghost done: seq<string>,
                    made: seq<Report>, count: nat, groups: Groups,
                    ghost pairsBefore: seq<(string, string)>, f: string -> string)
    returns (cancelled: bool, trace: seq<Report>, count': nat, groups': Groups, ghost m: nat)
    requires |bucket.paths| > 1
    requires Progress(callback, made, before + HashReports(done, totalToHash))
    requires count == |done|
    requires groups == GroupPairs(pairsBefore)
    ensures m <= |bucket.paths|
    ensures cancelled ==>
      LastRefused(callback, trace) && trace == before + HashReports(done + bucket.paths[..m], totalToHash)
    ensures !cancelled ==>
      && Progress(callback, trace, before + HashReports(done + bucket.paths, totalToHash))
      && count' == |done| + |bucket.paths|
      && groups' == GroupPairs(pairsBefore + KeyedPairs(bucket.paths, f))
  {
    trace, count', groups' := made, count, groups;
    var j := 0;
    ghost var seen := done;
    ghost var pairs := pairsBefore;
    assert done + bucket.paths[..0] == done;
    assert pairsBefore + KeyedPairs(bucket.paths[..0], f) == pairsBefore;
    while j < |bucket.paths|
      invariant 0 <= j <= |bucket.paths|
      invariant seen == done + bucket.paths[..j]
      invariant count' == |seen|
      invariant Progress(callback, trace, before + HashReports(seen, totalToHash))
      invariant pairs == pairsBefore + KeyedPairs(bucket.paths[..j], f)
      invariant groups' == GroupPairs(pairs)
    {
      var fullPath := bucket.paths[j];
      assert done + bucket.paths[..j + 1] == seen + [fullPath];
      KeyedPairsStep(pairsBefore, bucket.paths, j, f);
      var stop;
      stop, trace, count', groups' := HashFile(callback, totalToHash, fullPath, f, trace, count', groups',
        before, seen, pairs);
      seen := seen + [fullPath];
      pairs := pairs + [(f(fullPath), fullPath)];
      if stop {
        return true, trace, count', groups', j + 1;
      }
      j := j + 1;
    }
    assert bucket.paths[..j] == bucket.paths;
    cancelled, m := false, j;
  }

  /** One file of a bucket (scanner.py:237-247): count it, report it
      and stop if the callback refuses, otherwise add it to the group of its
      key. */
  method HashFile(callback: Option<nat -> bool>, totalToHash: nat, fullPath: string, f: string -> string,
                  trace: seq<Report>, count: nat, groups: Groups,
                  ghost before: seq<Report>, ghost seen: seq<string>, ghost pairs: seq<(string, string)>)
    returns (stop: bool, trace': seq<Report>, count': nat, groups': Groups)
    requires Progress(callback, trace, before + HashReports(seen, totalToHash))
    requires count == |seen|
    requires groups == GroupPairs(pairs)
    ensures count' == count + 1
    ensures stop ==>
      LastRefused(callback, trace') && trace' == before + HashReports(seen + [fullPath], totalToHash)
    ensures !stop ==>
      && Progress(callback, trace', before + HashReports(seen + [fullPath], totalToHash))
      && groups' == GroupPairs(pairs + [(f(fullPath), fullPath)])
  {
    count' := count + 1;
    trace' := trace;
    groups' := groups;
    HashReportsSnoc(seen, fullPath, totalToHash);
    assert before + HashReports(seen + [fullPath], totalToHash)
      == (before + HashReports(seen, totalToHash)) + [Report(count', totalToHash, "Hashing: ", fullPath)];
    if callback.Some? {
      var n := |trace'|;
      trace' := trace' + [Report(count', totalToHash, "Hashing: ", fullPath)];
      if !callback.value(n) {
        return true, trace', count', groups';
      }
    }
    var base := f(fullPath);
    GroupPairsSnoc(pairs, (base, fullPath));
    groups' := Insert(groups', base, fullPath);
    stop := false;
  }

  /** The files of one bucket that are hashed: all of them when there are
      two or more, none otherwise. */
  function HashedIn(b: Bucket): seq<string> {
    if |b.paths| > 1 then b.paths else []
  }

  /** One entry of the size map in the second loop of size mode
      (scanner.py:230-247): a bucket of one is keyed by the normalized name,
      a larger one file by file by size and hash. */
  method SizeGroup(bucket: Bucket, callback: Option<nat -> bool>, totalToHash: nat,
                   key: string -> string, hashOf: string -> Option<string>,
                   trace: seq<Report>, count: nat, groups: Groups,
                   ghost before: seq<Report>, ghost done: seq<string>, ghost pairs: seq<(string, string)>)
    returns (stop: bool, trace': seq<Report>, count': nat, groups': Groups, ghost m: nat)
    requires Progress(callback, trace, before + HashReports(done, totalToHash))
    requires count == |done|
    requires groups == GroupPairs(pairs)
    ensures m <= |HashedIn(bucket)|
    ensures stop ==>
      LastRefused(callback, trace') && trace' == before + HashReports(done + HashedIn(bucket)[..m], totalToHash)
    ensures !stop ==>
      && Progress(callback, trace', before + HashReports(done + HashedIn(bucket), totalToHash))
      && count' == |done + HashedIn(bucket)|
      && groups' == GroupPairs(pairs + BucketPairs(bucket, key, hashOf))
  {
    if |bucket.paths| == 1 {
      var fullPath := bucket.paths[0];
      var base := key(fullPath);
      GroupPairsSnoc(pairs, (base, fullPath));
      assert done + HashedIn(bucket) == done;
      return false, trace, count, Insert(groups, base, fullPath), 0;
    } else if |bucket.paths| > 1 {
      stop, trace', count', groups', m := HashBucket(bucket, callback, totalToHash, before, done,
        trace, count, groups, pairs, BucketKey(bucket.size, hashOf));
    } else {
      assert done + HashedIn(bucket) == done;
      assert pairs + BucketPairs(bucket, key, hashOf) == pairs;
      return false, trace, count, groups, 0;
    }
  }

  /** The second loop of size mode (scanner.py:226-247). `before` is the
      trace of the first loop. */
  method HashPass(sizeMap: seq<Bucket>, callback: Option<nat -> bool>, before: seq<Report>,
                  key: string -> string, hashOf: string -> Option<string>)
    returns (cancelled: bool, trace: seq<Report>, groups: Groups)
    requires Progress(callback, before, before)
    ensures var hashed := HashedPaths(sizeMap);
      var calls := before + HashReports(hashed, |hashed|);
      if cancelled then LastRefused(callback, trace) && trace <= calls
      else && Progress(callback, trace, calls)
           && groups == GroupPairs(SizePairs(sizeMap, key, hashOf))
  {
    trace := before;
    groups := map[];
    var hashedCount := 0;
    var totalToHash := |HashedPaths(sizeMap)|;
    ghost var done: seq<string> := [];
    ghost var pairs: seq<(string, string)> := [];
    assert sizeMap[..0] == [];
    var b := 0;
    while b < |sizeMap|
      invariant 0 <= b <= |sizeMap|
      invariant done == HashedPaths(sizeMap[..b])
      invariant pairs == SizePairs(sizeMap[..b], key, hashOf)
      invariant hashedCount == |done|
      invariant Progress(callback, trace, before + HashReports(done, totalToHash))
      invariant groups == GroupPairs(pairs)
    {
      HashedPathsStep(sizeMap, b);
      SizePairsStep(sizeMap, b, key, hashOf);
      var stop: bool;
      ghost var m: nat;
      stop, trace, hashedCount, groups, m := SizeGroup(sizeMap[b], callback, totalToHash, key, hashOf,
        trace, hashedCount, groups, before, done, pairs);
      if stop {
        HashedPathsPrefix(sizeMap, b + 1);
        StoppedInside(done, HashedIn(sizeMap[b]), m, HashedPaths(sizeMap), before, totalToHash);
        return true, trace, map[];
      }
      done := done + HashedIn(sizeMap[b]);
      pairs := pairs + BucketPairs(sizeMap[b], key, hashOf);
      b := b + 1;
    }
    assert sizeMap[..b] == sizeMap;
    cancelled := false;
  }

  /** Calls made up to a refusal inside one bucket are a prefix of all the
      calls of the pass. */
  lemma StoppedInside(done: seq<string>, xs: seq<string>, m: nat, all: seq<string>,
                      before: seq<Report>, total: nat)
    requires m <= |xs| && done + xs <= all
    ensures before + HashReports(done + xs[..m], total) <= before + HashReports(all, total)
  {
    assert done + xs[..m] <= all;
    HashReportsPrefix(done + xs[..m], all, total);
  }

  /** The two result maps (scanner.py:249-252). */
  method Partition(groups: Groups) returns (duplicates: Groups, nonDuplicates: Groups)
    ensures duplicates == Duplicates(groups) && nonDuplicates == NonDuplicates(groups)
  {
    duplicates := map k | k in groups && |groups[k]| > 1 :: groups[k];
    nonDuplicates := map k | k in groups && |groups[k]| == 1 :: groups[k];
  }

  /** With no file to scan there is no group. */
  lemma EmptyScan(files: seq<string>, matchSize: bool, key: string -> string,
                  sizeOf: string -> Option<nat>, hashOf: string -> Option<string>)
    requires files == []
    ensures var g := GroupPairs(ScanPairs(files, matchSize, key, sizeOf, hashOf));
      Duplicates(g) == map[] && NonDuplicates(g) == map[]
  {
    assert ScanPairs(files, matchSize, key, sizeOf, hashOf) == [];
  }

  /** `_scan_folder_internal`: enumerate and filter, then group by
      normalized name, or by size and partial hash, reporting progress and
      returning two empty maps as soon as the callback refuses. */
  method ScanFolderInternal(listing: Listing, recursive: bool, wanted: set<string>, matchSize: bool,
                            callback: Option<nat -> bool>, systemExtensions: set<string>,
                            ignoreSystemPrefix: bool, unwanted: set<string>,
                            sizeOf: string -> Option<nat>, hashOf: string -> Option<string>)
    returns (duplicates: Groups, nonDuplicates: Groups, trace: seq<Report>)
    ensures var files := FileList(listing, recursive, wanted, unwanted);
      var calls := ScanCalls(files, matchSize, sizeOf);
      && trace == Trace(callback, calls)
      && if Cancelled(callback, calls) then duplicates == map[] && nonDuplicates == map[]
         else
           var g := GroupPairs(ScanPairs(files, matchSize, NameKeyOf(systemExtensions, ignoreSystemPrefix), sizeOf, hashOf));
           duplicates == Duplicates(g) && nonDuplicates == NonDuplicates(g)
  {
    var files := CollectFiles(listing, recursive, wanted, unwanted);
    var key := NameKeyOf(systemExtensions, ignoreSystemPrefix);
    ghost var calls := ScanCalls(files, matchSize, sizeOf);
    var total := |files|;
    if total == 0 {
      AcceptedTrace(callback, calls, []);
      EmptyScan(files, matchSize, key, sizeOf, hashOf);
      return map[], map[], [];
    }
    var batchSize := total / 100;
    if batchSize < 1 {
      batchSize := 1;
    }
    var cancelled: bool;
    var groups: Groups;
    if !matchSize {
      cancelled, trace, groups := NamePass(files, callback, batchSize, key);
    } else {
      var sizeMap: seq<Bucket>;
      cancelled, trace, sizeMap := SizePass(files, callback, batchSize, sizeOf);
      if !cancelled {
        cancelled, trace, groups := HashPass(sizeMap, callback, trace, key, hashOf);
      } else {
        assert trace <= calls;
      }
    }
    if cancelled {
      RefusalEndsTrace(callback, calls, trace);
      return map[], map[], trace;
    }
    AcceptedTrace(callback, calls, trace);
    assert groups == GroupPairs(ScanPairs(files, matchSize, key, sizeOf, hashOf));
    duplicates, nonDuplicates := Partition(groups);
  }

  // ---------------------------------------------------------------------
  // scan_folder (scanner.py:255-287)
  // ---------------------------------------------------------------------

  /** The wrapped callback of `scan_folder`: it forwards the call and
      always answers True. */
  function AlwaysContinue(): nat -> bool {
    _ => true
  }

  lemma {:induction false} AlwaysContinueNeverRefuses(offset: nat, n: nat)
    ensures Refusal(AlwaysContinue(), offset, n) == n
    decreases n
  {
    if n > 0 {
      AlwaysContinueNeverRefuses(offset + 1, n - 1);
    }
  }

  /** `scan_folder`: the scan with the wrapped callback, which never
      cancels, so every call is made and the groups are always returned. */
  method ScanFolder(listing: Listing, recursive: bool, wanted: set<string>, matchSize: bool,
                    systemExtensions: set<string>, ignoreSystemPrefix: bool, unwanted: set<string>,
                    sizeOf: string -> Option<nat>, hashOf: string -> Option<string>)
    returns (duplicates: Groups, nonDuplicates: Groups, trace: seq<Report>)
    ensures var files := FileList(listing, recursive, wanted, unwanted);
      var g := GroupPairs(ScanPairs(files, matchSize, NameKeyOf(systemExtensions, ignoreSystemPrefix), sizeOf, hashOf));
      && trace == ScanCalls(files, matchSize, sizeOf)
      && duplicates == Duplicates(g) && nonDuplicates == NonDuplicates(g)
  {
    ghost var calls := ScanCalls(FileList(listing, recursive, wanted, unwanted), matchSize, sizeOf);
    AlwaysContinueNeverRefuses(0, |calls|);
    duplicates, nonDuplicates, trace := ScanFolderInternal(listing, recursive, wanted, matchSize,
      Some(AlwaysContinue()), systemExtensions, ignoreSystemPrefix, unwanted, sizeOf, hashOf);
  }

  // ---------------------------------------------------------------------
  // Properties of the scan
  // ---------------------------------------------------------------------

  /** Every report of a pass over `files[..n]` counts a file among the
      first `n`. */
  lemma {:induction false} PassReportsBounded(files: seq<string>, n: nat, stage: string)
    requires n <= |files|
    ensures forall r :: r in PassReports(files, n, stage) ==> 1 <= r.current <= n && r.total == |files|
  {
    if n > 0 {
      PassReportsBounded(files, n - 1, stage);
    }
  }

  /** The first loops report file `i` (counted from 0) exactly when `i` is
      a multiple of the batch size or the last index. */
  lemma {:induction false} PassReportsWhen(files: seq<string>, n: nat, stage: string, i: nat)
    requires i < n <= |files|
    ensures Report(i + 1, |files|, stage, files[i]) in PassReports(files, n, stage)
      <==> (i % BatchSize(|files|) == 0 || i == |files| - 1)
  {
    var r := Report(i + 1, |files|, stage, files[i]);
    if i < n - 1 {
      PassReportsWhen(files, n - 1, stage, i);
    } else {
      PassReportsBounded(files, n - 1, stage);
      assert r !in PassReports(files, n - 1, stage);
    }
  }

  /** A pass over a non-empty list always ends with a report of the last
      file, counted as the total. */
  lemma PassReportsEnd(files: seq<string>, stage: string)
    requires files != []
    ensures var calls := PassReports(files, |files|, stage);
      calls != [] && calls[|calls| - 1] == Report(|files|, |files|, stage, files[|files| - 1])
  {
  }

  /** The files of size `s`, in order: the reference for a bucket. */
  function FilesOfSize(files: seq<string>, sizeOf: string -> Option<nat>, s: nat): seq<string> {
    if files == [] then []
    else
      var p := files[|files| - 1];
      FilesOfSize(files[..|files| - 1], sizeOf, s) + (if sizeOf(p) == Some(s) then [p] else [])
  }

  /** The paths of the first bucket of size `s`, or none. */
  function PathsOfSize(buckets: seq<Bucket>, s: nat): seq<string> {
    if buckets == [] then []
    else if buckets[0].size == s then buckets[0].paths
    else PathsOfSize(buckets[1..], s)
  }

  function Sizes(buckets: seq<Bucket>): seq<nat> {
    if buckets == [] then [] else [buckets[0].size] + Sizes(buckets[1..])
  }

  predicate Distinct(xs: seq<nat>) {
    forall i, j :: 0 <= i < j < |xs| ==> xs[i] != xs[j]
  }

  /** `setdefault(size, []).append(path)` appends to the bucket of that
      size, opens one at the end when there is none, and touches no other
      bucket. */
  lemma {:induction false} AddToBucketSpec(buckets: seq<Bucket>, size: nat, path: string, s: nat)
    ensures PathsOfSize(AddToBucket(buckets, size, path), s)
      == PathsOfSize(buckets, s) + (if s == size then [path] else [])
    ensures Sizes(AddToBucket(buckets, size, path))
      == if size in Sizes(buckets) then Sizes(buckets) else Sizes(buckets) + [size]
    decreases |buckets|
  {
    if buckets != [] && buckets[0].size != size {
      AddToBucketSpec(buckets[1..], size, path, s);
      var r := AddToBucket(buckets, size, path);
      assert r[1..] == AddToBucket(buckets[1..], size, path);
    }
  }

  /** The size map has one bucket per size, and the bucket of size `s`
      holds exactly the files of size `s`, in file order. A file whose size
      cannot be read is in no bucket. */
  lemma {:induction false} SizeBucketsSpec(files: seq<string>, sizeOf: string -> Option<nat>, s: nat)
    ensures PathsOfSize(SizeBuckets(files, sizeOf), s) == FilesOfSize(files, sizeOf, s)
    ensures Distinct(Sizes(SizeBuckets(files, sizeOf)))
  {
    if files != [] {
      var n := |files| - 1;
      var p := files[n];
      SizeBucketsSpec(files[..n], sizeOf, s);
      var before := SizeBuckets(files[..n], sizeOf);
      if sizeOf(p).Some? {
        AddToBucketSpec(before, sizeOf(p).value, p, s);
        var xs := Sizes(before);
        if sizeOf(p).value !in xs {
          assert forall i :: 0 <= i < |xs| ==> (xs + [sizeOf(p).value])[i] == xs[i];
        }
      }
    }
  }

  /** A file is in a bucket of the size map exactly when its size can be
      read. */
  lemma {:induction false} FilesOfSizeMember(files: seq<string>, sizeOf: string -> Option<nat>, s: nat, p: string)
    ensures p in FilesOfSize(files, sizeOf, s) <==> p in files && sizeOf(p) == Some(s)
  {
    if files != [] {
      var n := |files| - 1;
      FilesOfSizeMember(files[..n], sizeOf, s, p);
      assert files == files[..n] + [files[n]];
    }
  }

  /** The first bucket of size `s`. */
  lemma {:induction false} BucketOfSize(buckets: seq<Bucket>, s: nat) returns (i: nat)
    requires PathsOfSize(buckets, s) != []
    ensures i < |buckets| && buckets[i] == Bucket(s, PathsOfSize(buckets, s))
  {
    if buckets[0].size == s {
      i := 0;
    } else {
      var k := BucketOfSize(buckets[1..], s);
      i := k + 1;
    }
  }

  /** In size mode a file alone in its bucket is keyed by its normalized
      name, and a file of a larger bucket by its size key. */
  lemma {:induction false} SizePairsMember(buckets: seq<Bucket>, key: string -> string,
                                           hashOf: string -> Option<string>, i: nat, j: nat)
    requires i < |buckets| && j < |buckets[i].paths|
    ensures var p := buckets[i].paths[j];
      var k := if |buckets[i].paths| == 1 then key(p) else SizeKey(buckets[i].size, p, hashOf(p));
      (k, p) in SizePairs(buckets, key, hashOf)
  {
    var b := buckets[i];
    BucketPairsMember(b, key, hashOf, j);
    FlatMapHas(buckets, BucketPairsOf(key, hashOf), i, if |b.paths| == 1 then (key(b.paths[j]), b.paths[j])
                                          else (SizeKey(b.size, b.paths[j], hashOf(b.paths[j])), b.paths[j]));
  }

  lemma BucketPairsMember(b: Bucket, key: string -> string, hashOf: string -> Option<string>, j: nat)
    requires j < |b.paths|
    ensures var p := b.paths[j];
      var k := if |b.paths| == 1 then key(p) else SizeKey(b.size, p, hashOf(p));
      (k, p) in BucketPairs(b, key, hashOf)
  {
    if |b.paths| > 1 {
      KeyedPairsAt(b.paths, BucketKey(b.size, hashOf));
    }
  }

  /** A sequence holding two different elements has more than one. */
  lemma TwoMembers(xs: seq<string>, p: string, q: string)
    requires p in xs && q in xs && p != q
    ensures |xs| > 1
  {
  }

  /** Two different paths paired with the same key form a group of
      duplicates. */
  lemma SharedKeyDuplicates(pairs: seq<(string, string)>, k: string, p: string, q: string)
    requires (k, p) in pairs && (k, q) in pairs && p != q
    ensures var g := GroupPairs(pairs);
      k in Duplicates(g) && p in Duplicates(g)[k] && q in Duplicates(g)[k]
  {
    var g := GroupPairs(pairs);
    var ip :| 0 <= ip < |pairs| && pairs[ip] == (k, p);
    var iq :| 0 <= iq < |pairs| && pairs[iq] == (k, q);
    InGroupIff(pairs, k, p);
    InGroupIff(pairs, k, q);
    TwoMembers(g[k], p, q);
  }

  /** Two different files of the same size, with the same lowercased
      extension and the same hash, are reported as duplicates in size mode
      when both hashes could be computed. */
  lemma SameContentAreDuplicates(files: seq<string>, sizeOf: string -> Option<nat>,
                                 hashOf: string -> Option<string>, key: string -> string,
                                 p: string, q: string, size: nat)
    requires p in files && q in files && p != q
    requires sizeOf(p) == Some(size) && sizeOf(q) == Some(size)
    requires hashOf(p) == hashOf(q) && hashOf(p).Some?
    requires LowerStr(Ext(p)) == LowerStr(Ext(q))
    ensures var g := GroupPairs(ScanPairs(files, true, key, sizeOf, hashOf));
      var k := SizeKey(size, p, hashOf(p));
      k in Duplicates(g) && p in Duplicates(g)[k] && q in Duplicates(g)[k]
  {
    var buckets := SizeBuckets(files, sizeOf);
    SizeBucketsSpec(files, sizeOf, size);
    FilesOfSizeMember(files, sizeOf, size, p);
    FilesOfSizeMember(files, sizeOf, size, q);
    var i := BucketOfSize(buckets, size);
    var b := buckets[i];
    TwoMembers(b.paths, p, q);
    var jp :| 0 <= jp < |b.paths| && b.paths[jp] == p;
    var jq :| 0 <= jq < |b.paths| && b.paths[jq] == q;
    SizePairsMember(buckets, key, hashOf, i, jp);
    SizePairsMember(buckets, key, hashOf, i, jq);
    SharedKeyDuplicates(SizePairs(buckets, key, hashOf), SizeKey(size, p, hashOf(p)), p, q);
  }

  /** Two different zero-byte files with the same lowercased extension are
      reported as duplicates in size mode: both are hashed to the sentinel
      "empty" and so get the same key. */
  lemma EmptyFilesAreDuplicates(files: seq<string>, sizeOf: string -> Option<nat>,
                                hashOf: string -> Option<string>, key: string -> string, p: string, q: string)
    requires p in files && q in files && p != q
    requires sizeOf(p) == Some(0) && sizeOf(q) == Some(0)
    requires hashOf(p) == Some(Fingerprint.EmptySentinel) && hashOf(q) == Some(Fingerprint.EmptySentinel)
    requires LowerStr(Ext(p)) == LowerStr(Ext(q))
    ensures var g := GroupPairs(ScanPairs(files, true, key, sizeOf, hashOf));
      var k := SizeKey(0, p, Some(Fingerprint.EmptySentinel));
      k in Duplicates(g) && p in Duplicates(g)[k] && q in Duplicates(g)[k]
  {
    SameContentAreDuplicates(files, sizeOf, hashOf, key, p, q, 0);
  }

  /** In name mode every kept file is in exactly one of the two maps, in
      the group of its normalized base name. */
  lemma NameModePartition(files: seq<string>, systemExtensions: set<string>, ignoreSystemPrefix: bool, i: nat)
    requires i < |files|
    ensures var g := GroupPairs(ScanPairs(files, false, NameKeyOf(systemExtensions, ignoreSystemPrefix),
                                          _ => None, _ => None));
      var k := NameKey(files[i], systemExtensions, ignoreSystemPrefix);
      && ((k in Duplicates(g) && files[i] in Duplicates(g)[k])
          || (k in NonDuplicates(g) && files[i] in NonDuplicates(g)[k]))
      && !(k in Duplicates(g) && k in NonDuplicates(g))
  {
    var f := NameKeyOf(systemExtensions, ignoreSystemPrefix);
    KeyedPairsAt(files, f);
    EveryPathPartitioned(KeyedPairs(files, f), i);
  }

  // ---------------------------------------------------------------------
  // find_orphaned_images (scanner.py:290-321)
  // ---------------------------------------------------------------------

  /** `file_types.get("Images", set())`. */
  function ImageExtensions(fileTypes: map<string, set<string>>): set<string> {
    if "Images" in fileTypes then fileTypes["Images"] else {}
  }

  /** The name an image is matched on: its lowercased stem, with one
      trailing "-image" removed. */
  function MatchName(name: string): (r: string)
    ensures var m := LowerStr(Stem(name));
      (EndsWith(m, "-image") ==> m == r + "-image") && (!EndsWith(m, "-image") ==> r == m)
  {
    var m := LowerStr(Stem(name));
    if EndsWith(m, "-image") then m[..|m| - 6] else m
  }

  /** An entry is an orphaned image when it is a file (or a link to one),
      the image extension set is non-empty and holds its lowercased
      extension, and its match name is not kept. */
  predicate IsOrphan(e: DirEntry, imageExtensions: set<string>, keep: set<string>) {
    && (e.kind == File || e.kind == FileLink)
    && imageExtensions != {}
    && LowerStr(Ext(e.name)) in imageExtensions
    && MatchName(e.name) !in keep
  }

  /** The orphaned images of a listing, in listing order. */
  function Orphans(entries: seq<DirEntry>, imageExtensions: set<string>, keep: set<string>): seq<string> {
    if entries == [] then []
    else
      var e := entries[|entries| - 1];
      Orphans(entries[..|entries| - 1], imageExtensions, keep)
        + (if IsOrphan(e, imageExtensions, keep) then [e.path] else [])
  }

  /** `find_orphaned_images`. A missing folder gives no orphans; a listing
      that fails (`None`) gives the orphans found so far, which are none,
      since `os.listdir` fails before any entry is seen. */
  method FindOrphanedImages(exists_: bool, listing: Option<seq<DirEntry>>, keep: set<string>,
                            fileTypes: map<string, set<string>>)
    returns (orphaned: seq<string>)
    ensures orphaned == if exists_ && listing.Some? then Orphans(listing.value, ImageExtensions(fileTypes), keep) else []
  {
    if !exists_ {
      return [];
    }
    var imageExtensions := ImageExtensions(fileTypes);
    orphaned := [];
    if listing.None? {
      return;
    }
    var entries := listing.value;
    for i := 0 to |entries|
      invariant orphaned == Orphans(entries[..i], imageExtensions, keep)
    {
      var e := entries[i];
      OrphansStep(entries, i, imageExtensions, keep);
      if e.kind == File || e.kind == FileLink {
        var ext := LowerStr(Ext(e.name));
        if imageExtensions != {} && ext in imageExtensions {
          var matchName := LowerStr(Stem(e.name));
          if EndsWith(matchName, "-image") {
            matchName := matchName[..|matchName| - 6];
          }
          assert matchName == MatchName(e.name);
          if matchName !in keep {
            orphaned := orphaned + [e.path];
          }
        }
      }
    }
    assert entries[..|entries|] == entries;
  }

  /** A path is reported exactly when some entry with that path is an
      orphaned image. */
  lemma {:induction false} OrphansMember(entries: seq<DirEntry>, imageExtensions: set<string>,
                                         keep: set<string>, p: string)
    ensures p in Orphans(entries, imageExtensions, keep)
      <==> exists e :: e in entries && e.path == p && IsOrphan(e, imageExtensions, keep)
  {
    if p in Orphans(entries, imageExtensions, keep) {
      OrphansSound(entries, imageExtensions, keep, p);
    }
    forall e | e in entries && e.path == p && IsOrphan(e, imageExtensions, keep)
      ensures p in Orphans(entries, imageExtensions, keep)
    {
      OrphansComplete(entries, imageExtensions, keep, e);
    }
  }

  lemma {:induction false} OrphansSound(entries: seq<DirEntry>, imageExtensions: set<string>,
                                        keep: set<string>, p: string)
    requires p in Orphans(entries, imageExtensions, keep)
    ensures exists e :: e in entries && e.path == p && IsOrphan(e, imageExtensions, keep)
  {
    var n := |entries| - 1;
    var front := entries[..n];
    assert entries == front + [entries[n]];
    if p in Orphans(front, imageExtensions, keep) {
      OrphansSound(front, imageExtensions, keep, p);
      var e :| e in front && e.path == p && IsOrphan(e, imageExtensions, keep);
      assert e in entries;
    } else {
      assert entries[n] in entries;
    }
  }

  lemma {:induction false} OrphansComplete(entries: seq<DirEntry>, imageExtensions: set<string>,
                                           keep: set<string>, e: DirEntry)
    requires e in entries && IsOrphan(e, imageExtensions, keep)
    ensures e.path in Orphans(entries, imageExtensions, keep)
  {
    var n := |entries| - 1;
    var front := entries[..n];
    var i :| 0 <= i < |entries| && entries[i] == e;
    if i < n {
      assert front[i] == e;
      OrphansComplete(front, imageExtensions, keep, e);
    }
  }

  lemma OrphansStep(entries: seq<DirEntry>, i: nat, imageExtensions: set<string>, keep: set<string>)
    requires i < |entries|
    ensures Orphans(entries[..i + 1], imageExtensions, keep)
         == Orphans(entries[..i], imageExtensions, keep)
            + (if IsOrphan(entries[i], imageExtensions, keep) then [entries[i].path] else [])
  {
    assert entries[..i + 1][..i] == entries[..i];
  }

  /** Without an "Images" extension set nothing is an orphan. */
  lemma {:induction false} NoImageTypesNoOrphans(entries: seq<DirEntry>, fileTypes: map<string, set<string>>,
                                                 keep: set<string>)
    requires "Images" !in fileTypes || fileTypes["Images"] == {}
    ensures Orphans(entries, ImageExtensions(fileTypes), keep) == []
  {
    if entries != [] {
      NoImageTypesNoOrphans(entries[..|entries| - 1], fileTypes, keep);
    }
  }

  /** The orphans never outnumber the entries. */
  lemma {:induction false} OrphansBounded(entries: seq<DirEntry>, imageExtensions: set<string>, keep: set<string>)
    ensures |Orphans(entries, imageExtensions, keep)| <= |entries|
  {
    if entries != [] {
      OrphansBounded(entries[..|entries| - 1], imageExtensions, keep);
    }
  }

  /** An image named after a kept ROM, with the "-image" suffix and in
      another letter case, is not an orphan. */
  lemma SuffixedImageIsNotOrphan()
    ensures MatchName("Zelda-Image.PNG") == "zelda"
    ensures !IsOrphan(DirEntry("imgs/Zelda-Image.PNG", "Zelda-Image.PNG", File), {".png"}, {"zelda"})
  {
    var a := "Zelda-Image.PNG";
    ZeldaImageParts(a);
    var m := LowerStr(Stem(a));
    assert m[|m| - 6..] == "-image";
    assert m[..|m| - 6] == "zelda";
  }

  lemma ZeldaImageParts(a: string)
    requires a == "Zelda-Image.PNG"
    ensures LowerStr(Stem(a)) == "zelda-image" && LowerStr(Ext(a)) == ".png"
  {
    ZeldaImageSplit(a);
    assert LowerStr("Zelda-Image") == "zelda-image" by {
      assert Lower('Z') == 'z' && Lower('I') == 'i';
    }
    assert LowerStr(".PNG") == ".png";
  }

  lemma ZeldaImageSplit(a: string)
    requires a == "Zelda-Image.PNG"
    ensures Stem(a) == "Zelda-Image" && Ext(a) == ".PNG"
  {
    assert a[0] != '.';
    SplitExtAt(a, 11);
    assert a[..11] == "Zelda-Image";
    assert a[11..] == ".PNG";
  }

  /** An image whose name matches no kept ROM is an orphan. */
  lemma UnmatchedImageIsOrphan()
    ensures MatchName("Link.png") == "link"
    ensures IsOrphan(DirEntry("imgs/Link.png", "Link.png", File), {".png"}, {"zelda"})
  {
    var c := "Link.png";
    assert c[0] != '.';
    SplitExtAt(c, 4);
    assert Lower('L') == 'l';
    assert LowerStr(c[..4]) == "link";
    assert LowerStr(c[4..]) == ".png";
  }
}
