/** Where the earlier single-file revision, rom_duplicate_manager.py,
    differs from the package. Its `normalize_filename`, `extract_version`,
    `extract_languages`, `get_file_priority`, `get_base_file`,
    `toggle_item_status` and the bookkeeping of `_execute_deletion` are
    the package's, and are modelled once in Normalizer, Version, Languages,
    Ranking, Tags and FileList; its partial hash is in Fingerprint. What
    is left is written here:

    - `scan_folder` (rom_duplicate_manager.py:290-390): the same filter and
      grouping as the package scan, but the non-recursive listing keeps
      every entry `os.path.isfile` accepts (links to files included) and
      lets a `PermissionError` of `os.listdir` out, the progress callback
      hears about every file, not every batch, and its answer is ignored,
      so a scan is never cancelled;
    - the file-type table (rom_duplicate_manager.py:581-601) names the
      image extensions "Image" while every lookup asks for "Images", so no
      image is ever orphaned and images are never excluded from a scan;
      its "Archive" type is the one selected by default
      (rom_duplicate_manager.py:544);
    - catalog-prefix stripping is switched on exactly when the selected
      file type has no extension set (rom_duplicate_manager.py:951-955). */
module Legacy {
  import opened Text
  import opened Wrappers
  import opened Scanner

  // ---------------------------------------------------------------------
  // Enumeration (rom_duplicate_manager.py:310-332)
  // ---------------------------------------------------------------------

  /** `os.walk` lists every non-directory; `os.path.isfile` follows links,
      so a link to a file passes as a file. */
  predicate LegacyListed(kind: EntryKind, recursive: bool) {
    if recursive then kind != Dir else kind == File || kind == FileLink
  }

  predicate LegacyKept(e: DirEntry, recursive: bool, wanted: set<string>, unwanted: set<string>) {
    LegacyListed(e.kind, recursive) && KeepExtension(LowerStr(Ext(e.name)), wanted, unwanted)
  }

  function LegacyKeptPaths(entries: seq<DirEntry>, recursive: bool, wanted: set<string>,
                           unwanted: set<string>): seq<string>
  {
    if entries == [] then []
    else
      var e := entries[|entries| - 1];
      LegacyKeptPaths(entries[..|entries| - 1], recursive, wanted, unwanted)
        + (if LegacyKept(e, recursive, wanted, unwanted) then [SlashPath(e.path)] else [])
  }

  /** The `file_list` of the legacy scan; a missing folder gives none. */
  function LegacyFileList(listing: Listing, recursive: bool, wanted: set<string>,
                          unwanted: set<string>): seq<string>
  {
    if !listing.exists_ then [] else LegacyKeptPaths(listing.entries, recursive, wanted, unwanted)
  }

  /** A recursive listing is the package's; a flat one differs only in
      keeping links to files. */
  lemma {:induction false} LegacyListingAgrees(entries: seq<DirEntry>, recursive: bool,
                                               wanted: set<string>, unwanted: set<string>)
    requires recursive || forall i :: 0 <= i < |entries| ==> entries[i].kind != FileLink
    ensures LegacyKeptPaths(entries, recursive, wanted, unwanted) == KeptPaths(entries, recursive, wanted, unwanted)
  {
    if entries != [] {
      var n := |entries| - 1;
      assert forall i :: 0 <= i < n ==> entries[..n][i] == entries[i];
      LegacyListingAgrees(entries[..n], recursive, wanted, unwanted);
    }
  }

  /** A link to a file with a wanted extension is scanned by the legacy
      flat listing and skipped by the package's. */
  lemma LinkListedOnlyByLegacy(link: DirEntry, wanted: set<string>, unwanted: set<string>)
    requires link.kind == FileLink && KeepExtension(LowerStr(Ext(link.name)), wanted, unwanted)
    ensures LegacyFileList(Listing(true, [link], false), false, wanted, unwanted) == [SlashPath(link.path)]
    ensures FileList(Listing(true, [link], false), false, wanted, unwanted) == []
  {
    var es := [link];
    assert es[..|es| - 1] == [] && es[|es| - 1] == link;
    assert LegacyKeptPaths(es, false, wanted, unwanted) == [SlashPath(link.path)];
    assert KeptPaths(es, false, wanted, unwanted) == [];
  }

  lemma LegacyKeptPathsStep(entries: seq<DirEntry>, i: nat, recursive: bool, wanted: set<string>, unwanted: set<string>)
    requires i < |entries|
    ensures LegacyKeptPaths(entries[..i + 1], recursive, wanted, unwanted)
         == LegacyKeptPaths(entries[..i], recursive, wanted, unwanted)
            + (if LegacyKept(entries[i], recursive, wanted, unwanted) then [SlashPath(entries[i].path)] else [])
  {
    assert entries[..i + 1][..i] == entries[..i];
  }

  /** The flat listing of the legacy scan calls `os.listdir` outside any
      `try`: a `PermissionError` while listing the folder leaves
      `scan_folder`, where the package's flat scan swallows it. */
  predicate LegacyListingRaises(listing: Listing, recursive: bool) {
    !recursive && listing.exists_ && listing.denied
  }

  /** The enumeration loop of the legacy `scan_folder`; `None` stands for
      the `PermissionError` it lets through. */
  method CollectLegacyFiles(listing: Listing, recursive: bool, wanted: set<string>, unwanted: set<string>)
    returns (files: Option<seq<string>>)
    ensures files == if LegacyListingRaises(listing, recursive) then None
                     else Some(LegacyFileList(listing, recursive, wanted, unwanted))
  {
    if !listing.exists_ {
      return Some([]);
    }
    if !recursive && listing.denied {
      return None;
    }
    var entries := listing.entries;
    var kept := [];
    var i := 0;
    while i < |entries|
      invariant 0 <= i <= |entries|
      invariant kept == LegacyKeptPaths(entries[..i], recursive, wanted, unwanted)
    {
      var e := entries[i];
      LegacyKeptPathsStep(entries, i, recursive, wanted, unwanted);
      var isFile := if recursive then e.kind != Dir else e.kind == File || e.kind == FileLink;
      if isFile {
        var extLower := LowerStr(Ext(e.name));
        if wanted != {} && extLower !in wanted {
        } else if wanted == {} && unwanted != {} && extLower in unwanted {
        } else {
          kept := kept + [SlashPath(e.path)];
        }
      }
      i := i + 1;
    }
    assert entries[..i] == entries;
    files := Some(kept);
  }

  // ---------------------------------------------------------------------
  // Progress (rom_duplicate_manager.py:341-343, 349-351, 373-374)
  // ---------------------------------------------------------------------

  /** One report per file of `files[..n]`, counted from 1. */
  function EveryReport(files: seq<string>, n: nat, stage: string): (r: seq<Report>)
    requires n <= |files|
    ensures |r| == n
  {
    if n == 0 then [] else EveryReport(files, n - 1, stage) + [Report(n, |files|, stage, files[n - 1])]
  }

  /** The `i`-th report is about the `i`-th file. */
  lemma {:induction false} EveryReportAt(files: seq<string>, n: nat, stage: string)
    requires n <= |files|
    ensures forall i :: 0 <= i < n ==> EveryReport(files, n, stage)[i] == Report(i + 1, |files|, stage, files[i])
  {
    if n > 0 {
      EveryReportAt(files, n - 1, stage);
    }
  }

  /** Every call of a legacy scan: each file in the first loop, then each
      hashed file. */
  function LegacyCalls(files: seq<string>, matchSize: bool, sizeOf: string -> Option<nat>): seq<Report> {
    if matchSize then
      var hashed := HashedPaths(SizeBuckets(files, sizeOf));
      EveryReport(files, |files|, "Checking size: ") + HashReports(hashed, |hashed|)
    else EveryReport(files, |files|, "Scanning: ")
  }

  /** From 200 files on, the package reports in batches and skips the
      second file, which the legacy scan reports. */
  lemma LegacyReportsMore(files: seq<string>, stage: string)
    requires |files| >= 200
    ensures Report(2, |files|, stage, files[1]) in EveryReport(files, |files|, stage)
    ensures Report(2, |files|, stage, files[1]) !in PassReports(files, |files|, stage)
  {
    EveryReportAt(files, |files|, stage);
    assert EveryReport(files, |files|, stage)[1] == Report(2, |files|, stage, files[1]);
    PassReportsWhen(files, |files|, stage, 1);
    assert BatchSize(|files|) >= 2;
  }

  // ---------------------------------------------------------------------
  // scan_folder (rom_duplicate_manager.py:290-390)
  // ---------------------------------------------------------------------

  /** The name-mode loop: report each file, then add it to its group. */
  method LegacyNamePass(files: seq<string>, report: bool, key: string -> string)
    returns (trace: seq<Report>, groups: Groups)
    ensures trace == if report then EveryReport(files, |files|, "Scanning: ") else []
    ensures groups == GroupPairs(KeyedPairs(files, key))
  {
    trace := [];
    groups := map[];
    for i := 0 to |files|
      invariant trace == if report then EveryReport(files, i, "Scanning: ") else []
      invariant groups == GroupPairs(KeyedPairs(files[..i], key))
    {
      var fullPath := files[i];
      if report {
        trace := trace + [Report(i + 1, |files|, "Scanning: ", fullPath)];
      }
      var base := key(fullPath);
      assert files[..i + 1][..i] == files[..i];
      GroupPairsSnoc(KeyedPairs(files[..i], key), (base, fullPath));
      groups := Insert(groups, base, fullPath);
    }
    assert files[..|files|] == files;
  }

  /** The first loop of size mode: report each file, then put it in the
      bucket of its size; a file whose size cannot be read is skipped. */
  method LegacySizePass(files: seq<string>, report: bool, sizeOf: string -> Option<nat>)
    returns (trace: seq<Report>, sizeMap: seq<Bucket>)
    ensures trace == if report then EveryReport(files, |files|, "Checking size: ") else []
    ensures sizeMap == SizeBuckets(files, sizeOf)
  {
    trace := [];
    sizeMap := [];
    for i := 0 to |files|
      invariant trace == if report then EveryReport(files, i, "Checking size: ") else []
      invariant sizeMap == SizeBuckets(files[..i], sizeOf)
    {
      var fullPath := files[i];
      if report {
        trace := trace + [Report(i + 1, |files|, "Checking size: ", fullPath)];
      }
      assert files[..i + 1][..i] == files[..i];
      var size := sizeOf(fullPath);
      if size.Some? {
        sizeMap := AddToBucket(sizeMap, size.value, fullPath);
      }
    }
    assert files[..|files|] == files;
  }

  /** A callback whose answers are all True never stops a pass. */
  lemma AlwaysAccepted(n: nat)
    ensures AcceptedUpTo(AlwaysContinue(), n)
  {
    AcceptedUpToIff(AlwaysContinue(), n);
  }

  /** The legacy `scan_folder`, `report` saying whether a progress callback
      was passed: the groups of the package scan over the legacy listing,
      with every call made and none able to cancel. */
  method LegacyScanFolder(listing: Listing, recursive: bool, wanted: set<string>, matchSize: bool,
                          report: bool, systemExtensions: set<string>, ignoreSystemPrefix: bool,
                          unwanted: set<string>, sizeOf: string -> Option<nat>,
                          hashOf: string -> Option<string>)
    returns (raised: bool, duplicates: Groups, nonDuplicates: Groups, trace: seq<Report>)
    ensures raised == LegacyListingRaises(listing, recursive)
    ensures raised ==> duplicates == map[] && nonDuplicates == map[] && trace == []
    ensures !raised ==>
      var files := LegacyFileList(listing, recursive, wanted, unwanted);
      var g := GroupPairs(ScanPairs(files, matchSize, NameKeyOf(systemExtensions, ignoreSystemPrefix), sizeOf, hashOf));
      && trace == (if report then LegacyCalls(files, matchSize, sizeOf) else [])
      && duplicates == Duplicates(g) && nonDuplicates == NonDuplicates(g)
  {
    var listed := CollectLegacyFiles(listing, recursive, wanted, unwanted);
    if listed.None? {
      return true, map[], map[], [];
    }
    raised := false;
    var files := listed.value;
    var key := NameKeyOf(systemExtensions, ignoreSystemPrefix);
    if |files| == 0 {
      EmptyScan(files, matchSize, key, sizeOf, hashOf);
      return false, map[], map[], [];
    }
    var groups: Groups;
    if !matchSize {
      trace, groups := LegacyNamePass(files, report, key);
    } else {
      var sizeMap: seq<Bucket>;
      trace, sizeMap := LegacySizePass(files, report, sizeOf);
      var callback := if report then Some(AlwaysContinue()) else None;
      AlwaysAccepted(|trace|);
      var cancelled;
      cancelled, trace, groups := HashPass(sizeMap, callback, trace, key, hashOf);
      if report {
        AlwaysAccepted(|trace|);
      }
    }
    duplicates, nonDuplicates := Partition(groups);
  }

  /** An empty scan gives two empty maps and makes no call. */
  lemma LegacyEmptyScan(listing: Listing, recursive: bool, wanted: set<string>, matchSize: bool,
                        report: bool, systemExtensions: set<string>, ignoreSystemPrefix: bool,
                        unwanted: set<string>, sizeOf: string -> Option<nat>, hashOf: string -> Option<string>)
    requires LegacyFileList(listing, recursive, wanted, unwanted) == []
    ensures var files := LegacyFileList(listing, recursive, wanted, unwanted);
      var g := GroupPairs(ScanPairs(files, matchSize, NameKeyOf(systemExtensions, ignoreSystemPrefix), sizeOf, hashOf));
      && Duplicates(g) == map[] && NonDuplicates(g) == map[]
      && LegacyCalls(files, matchSize, sizeOf) == []
  {
    var files := LegacyFileList(listing, recursive, wanted, unwanted);
    EmptyScan(files, matchSize, NameKeyOf(systemExtensions, ignoreSystemPrefix), sizeOf, hashOf);
    assert SizeBuckets(files, sizeOf) == [];
  }

  // ---------------------------------------------------------------------
  // The file-type table and the scan settings (rom_duplicate_manager.py:
  // 581-601, 951-955)
  // ---------------------------------------------------------------------

  /** File type name to extension set; `None` for "Wildcard *.*". */
  type FileTypes = map<string, Option<set<string>>>

  const WildcardType: string := "Wildcard *.*"

  /** The extensions of the "Archive" type. */
  const ArchiveExtensions: set<string> := {".zip", ".7z", ".jar", ".lha", ".lzh", ".rar", ".tar", ".gz"}

  /** The file type selected when the settings file names none. */
  const DefaultFileType: string := "Archive"

  /** The table of the legacy window. The "System" set is long and is a
      parameter; the others are written out. */
  function LegacyFileTypes(system: set<string>): FileTypes {
    map["Archive" := Some(ArchiveExtensions),
        "System" := Some(system),
        "Disk" := Some({".iso", ".bin", ".cue", ".img", ".mdf", ".mds", ".nrg", ".ccd", ".chd", ".gdi", ".cdi"}),
        "Image" := Some({".jpg", ".jpeg", ".png", ".bmp", ".gif", ".tiff", ".tif"}),
        "Video" := Some({".mp4", ".mpg", ".mpeg", ".avi", ".mov", ".wmv", ".mkv"}),
        WildcardType := None]
  }

  /** `file_types.get(name)`: a missing name reads as `None` too. */
  function Lookup(t: FileTypes, name: string): Option<set<string>> {
    if name in t then t[name] else None
  }

  /** `value or set()`. */
  function OrEmpty(o: Option<set<string>>): set<string> {
    if o.Some? then o.value else {}
  }

  /** What `scan` passes to `scan_folder`. */
  datatype ScanSettings = ScanSettings(wanted: set<string>, systemExtensions: set<string>,
                                       ignoreSystemPrefix: bool, unwanted: set<string>)

  /** The settings for the selected file type and the "scan images" box:
      the selected set filters; with no set, prefixes are stripped and,
      unless images are scanned, the "Images" set is excluded. */
  function SettingsFor(t: FileTypes, selected: string, scanImages: bool): (s: ScanSettings)
    ensures s.ignoreSystemPrefix <==> Lookup(t, selected).None?
    ensures Lookup(t, selected).Some? ==> s.wanted == Lookup(t, selected).value && s.unwanted == {}
  {
    var extFilter := Lookup(t, selected);
    var imageExtensions := OrEmpty(Lookup(t, "Images"));
    ScanSettings(OrEmpty(extFilter), OrEmpty(Lookup(t, "System")), extFilter.None?,
                 if extFilter.None? && !scanImages then imageExtensions else {})
  }

  /** Of the types the window offers, only "Wildcard *.*" strips catalog
      prefixes. */
  lemma PrefixStrippingOnlyForWildcard(system: set<string>, selected: string, scanImages: bool)
    requires selected in LegacyFileTypes(system)
    ensures LegacyFileTypes(system).Keys == {"Archive", "System", "Disk", "Image", "Video", WildcardType}
    ensures SettingsFor(LegacyFileTypes(system), selected, scanImages).ignoreSystemPrefix
            <==> selected == WildcardType
  {
  }

  /** On the default type the scan keeps only archive files, strips no
      catalog prefix and excludes nothing. */
  lemma DefaultTypeFiltersArchives(system: set<string>, scanImages: bool)
    ensures var s := SettingsFor(LegacyFileTypes(system), DefaultFileType, scanImages);
      && s.wanted == ArchiveExtensions && !s.ignoreSystemPrefix && s.unwanted == {}
      && s.systemExtensions == system
  {
  }

  /** The table has no "Images" entry, so a wildcard scan never excludes
      images, whatever the "scan images" box says. */
  lemma ImagesNeverExcluded(system: set<string>, selected: string, scanImages: bool)
    ensures "Images" !in LegacyFileTypes(system) && "Image" in LegacyFileTypes(system)
    ensures SettingsFor(LegacyFileTypes(system), selected, scanImages).unwanted == {}
  {
  }

  // ---------------------------------------------------------------------
  // get_orphaned_images (rom_duplicate_manager.py:798-835)
  // ---------------------------------------------------------------------

  /** The lowercased stems of every path of both maps. */
  function KeepNames(duplicates: Groups, nonDuplicates: Groups): set<string> {
    (set k, p | k in duplicates && p in duplicates[k] :: LowerStr(Stem(Basename(p))))
    + (set k, p | k in nonDuplicates && p in nonDuplicates[k] :: LowerStr(Stem(Basename(p))))
  }

  /** `get_orphaned_images(keep_filenames)`: nothing without a scanned
      folder and its "images" sub-folder; `keep` defaults to the names of
      the scan results. The matcher is the package's. */
  method LegacyOrphanedImages(folderIsDir: bool, imagesIsDir: bool, listing: Option<seq<DirEntry>>,
                              keep: Option<set<string>>, duplicates: Groups, nonDuplicates: Groups,
                              t: FileTypes)
    returns (orphaned: seq<string>)
    ensures orphaned == if folderIsDir && imagesIsDir && listing.Some?
                        then Orphans(listing.value, OrEmpty(Lookup(t, "Images")),
                                     if keep.Some? then keep.value else KeepNames(duplicates, nonDuplicates))
                        else []
  {
    if !folderIsDir || !imagesIsDir {
      return [];
    }
    var keepNames := if keep.Some? then keep.value else KeepNames(duplicates, nonDuplicates);
    var imageExtensions := OrEmpty(Lookup(t, "Images"));
    orphaned := [];
    if listing.None? {
      return;
    }
    var entries := listing.value;
    for i := 0 to |entries|
      invariant orphaned == Orphans(entries[..i], imageExtensions, keepNames)
    {
      var e := entries[i];
      assert entries[..i + 1][..i] == entries[..i];
      if e.kind == File || e.kind == FileLink {
        var ext := LowerStr(Ext(e.name));
        if imageExtensions != {} && ext in imageExtensions {
          var matchName := LowerStr(Stem(e.name));
          if EndsWith(matchName, "-image") {
            matchName := matchName[..|matchName| - 6];
          }
          if matchName !in keepNames {
            orphaned := orphaned + [e.path];
          }
        }
      }
    }
    assert entries[..|entries|] == entries;
  }

  /** With the legacy table no image is ever orphaned. */
  lemma {:induction false} LegacyNeverOrphans(entries: seq<DirEntry>, system: set<string>, keep: set<string>)
    ensures Orphans(entries, OrEmpty(Lookup(LegacyFileTypes(system), "Images")), keep) == []
  {
    assert OrEmpty(Lookup(LegacyFileTypes(system), "Images")) == ImageExtensions(map[]);
    NoImageTypesNoOrphans(entries, map[], keep);
  }
}
