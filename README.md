# ROM Duplicate Manager — a verified model of its core

ROM Duplicate Manager scans a folder of game ROM files, groups files that
are copies of the same game, suggests which copy of each group to keep,
and deletes the rest. This project models, in Dafny, the parts of the
program that decide what happens to the files:

- **Name normalisation, versions, languages** (`rom_duplicate_manager/utils/helpers.py`):
  `normalize_filename` drops the extension, removes a leading 3-4 digit
  catalog prefix when asked to, and then repeatedly removes a trailing
  " - Copy" or " - Copy (N)" marker and a trailing bracket group and
  strips whitespace, until the name stops changing; words outside
  brackets stay (modules `Normalizer`, `Text`). `extract_version` reads a
  date, the last `v`/`ver`/`version` number, a `(proto N)` or `(beta N)`
  tag and a number in parentheses or at the end of the name into a tuple
  of numbers (module `Version`). `extract_languages` maps the tokens of the
  bracket groups to languages, regions and video formats (module
  `Languages`). `get_partial_hash` chooses which byte ranges of a file are
  fed to MD5 (module `Fingerprint`).
- **Scanning** (`rom_duplicate_manager/core/scanner.py`, module `Scanner`):
  which directory entries are listed and kept; the grouping, which runs in
  one of two modes: by normalised name, or by size, where a size shared by
  one file only groups that file by its normalised name and a size shared
  by several files groups them by size, extension and partial hash; the
  progress reports and the cancel request of the progress callback; the
  final split into duplicates and non-duplicates; and the search for
  orphaned images.
- **Ranking** (`rom_duplicate_manager/core/duplicate_logic.py`, module
  `Ranking`): the priority tuple of `get_file_priority`, Python's
  lexicographic tuple comparison including the `TypeError` it raises when
  an integer meets a string, `get_base_file` as a minimum, and
  `apply_base_suggestions` over the whole result tree.
- **The result list** (`rom_duplicate_manager/ui/file_list.py`, modules
  `Tags`, `Sorting`, `FileList`): the class `FileListView` keeps the tree of
  groups and rows with their tags, and its methods toggle a row, mark a
  group, reset marks, filter rows, sort each group with Python's stable
  `sorted`, and carry out a deletion (files removed, rows dropped, groups
  with fewer than two rows cleaned up).
- **The single-file revision** (`rom_duplicate_manager.py`, module
  `Legacy`): the earlier version of the program repeats most of these
  functions unchanged; those are the same code and are modelled once. The
  `Legacy` module holds what differs: a flat listing that also keeps links
  to files (`os.path.isfile` follows them) and lets a `PermissionError`
  out, a report for every file and no cancel, a two-sample partial hash
  (in `Fingerprint`), the file-type table with its default "Archive" type
  and its wildcard entry that turns on catalog-prefix stripping, and the
  orphan search keyed by `"Image"`.

The filesystem, MD5 and the user interface are parameters of the model:
a directory listing is a sequence of entries, file sizes and hashes are
functions from path to value, and a deletion is decided by a `Disk`
oracle that says which removals succeed.

## Model

| member | source | states |
|---|---|---|
| `Text.LowerStr` | rom_duplicate_manager/utils/helpers.py:59 | `str.lower` maps each character and keeps the length |
| `Text.Strip` | rom_duplicate_manager/utils/helpers.py:35 | `str.strip` leaves no surrounding whitespace, never lengthens, and keeps a stripped string |
| `Text.StripIsSlice` | rom_duplicate_manager/utils/helpers.py:35 | `str.strip` returns a slice of its input |
| `Text.SlashPath` | rom_duplicate_manager/core/scanner.py:180 | `replace('\\', '/')` turns each backslash into a slash and nothing else |
| `Text.SplitPath` | rom_duplicate_manager/core/scanner.py:211 | `os.path.basename` ends the path and holds no separator |
| `Text.SplitExt` | rom_duplicate_manager/utils/helpers.py:27 | `os.path.splitext` splits a path into two parts that concatenate back to it; the extension starts with a dot and holds no other dot or separator |
| `Text.SplitExtAt` | rom_duplicate_manager/utils/helpers.py:27 | the extension starts at the last dot when a non-dot character precedes it |
| `Text.Thousands` | rom_duplicate_manager/core/scanner.py:244 | `{size:,}` writes digits in groups of three from the right: a digit first, a comma exactly at every fourth place from the end, digits everywhere else, and a leading 0 only for the size 0 |
| `Text.ThousandsValue` | rom_duplicate_manager/core/scanner.py:244 | dropping the commas from `{size:,}` leaves digits whose decimal value is the size |
| `Text.ThousandsInjective` | rom_duplicate_manager/core/scanner.py:244 | two sizes with the same `{size:,}` text are equal |
| `Text.StrLessTotal` | rom_duplicate_manager/ui/file_list.py:450-454 | Python string comparison is total |
| `Text.StrLessTransitive` | rom_duplicate_manager/ui/file_list.py:450-454 | Python string comparison is transitive |
| `Normalizer.CatalogPrefixLen` | rom_duplicate_manager/utils/helpers.py:29 | the length of the `^\d{3,4}\s+` match at the start of a name never exceeds the name |
| `Normalizer.CopyMatchFrom` | rom_duplicate_manager/utils/helpers.py:33 | finds the leftmost position from which `\s*-\s*Copy(\s*\(\d+\))?$` (case-insensitive) matches to the end, or -1 when none does |
| `Normalizer.CopySub` | rom_duplicate_manager/utils/helpers.py:33 | removing the copy marker leaves the name or a strict prefix of it |
| `Normalizer.BracketMatchFrom` | rom_duplicate_manager/utils/helpers.py:34 | finds the leftmost position from which `\s*[\(\[].*?[\)\]]$` matches to the end, or -1 when none does |
| `Normalizer.BracketSub` | rom_duplicate_manager/utils/helpers.py:34 | removing a trailing bracket group leaves the name or a strict prefix of it |
| `Normalizer.Pass` | rom_duplicate_manager/utils/helpers.py:32-35 | one round of the loop (copy marker, bracket group, strip) never lengthens the name, and a round that keeps the length changes nothing |
| `Normalizer.Normalize` | rom_duplicate_manager/utils/helpers.py:10-38 | the loop computes the normalized key; the key has no surrounding whitespace and one more round leaves it unchanged (the loop's exit condition) |
| `Normalizer.FixIsFixpoint` | rom_duplicate_manager/utils/helpers.py:31-37 | repeating rounds until nothing changes reaches a name that one more round keeps, no longer than the start |
| `Normalizer.FixpointIsStripped` | rom_duplicate_manager/utils/helpers.py:35-37 | a name the loop stops at has no leading or trailing whitespace |
| `Normalizer.NormalizeNameProperties` | rom_duplicate_manager/utils/helpers.py:10-38 | the key is stripped, is a fixpoint of the loop, and is no longer than the name without its extension |
| `Normalizer.PassShrinksOrFixes` | rom_duplicate_manager/utils/helpers.py:31-37 | each round either changes nothing or strictly shortens the name, so the loop ends |
| `Normalizer.CatalogPrefixOnlyWhenEnabled` | rom_duplicate_manager/utils/helpers.py:27-29 | a catalog prefix is removed only when prefix stripping is on, the extension set is non-empty and holds the lowercased extension, and then what goes is 3 or 4 digits followed by whitespace |
| `Normalizer.FiveDigitsNeverStripped` | rom_duplicate_manager/utils/helpers.py:29 | a name that starts with five digits keeps them (`\d{3,4}` must be followed by whitespace) |
| `Normalizer.BracketSubCutsAtFirstOpen` | rom_duplicate_manager/utils/helpers.py:34 | with a closing bracket last, the non-greedy group starts at the FIRST opening bracket, so everything from there (with the whitespace before it) goes |
| `Normalizer.FixpointHasNoBracketTail` | rom_duplicate_manager/utils/helpers.py:34-37 | a normalized key that holds an opening bracket before its last character does not end with a closing one |
| `Normalizer.FirstOpen` | rom_duplicate_manager/utils/helpers.py:34 | locates the first opening bracket at or after a position |
| `Normalizer.PassChars` | rom_duplicate_manager/utils/helpers.py:32-35 | a round only removes characters, it never introduces one |
| `Normalizer.FixChars` | rom_duplicate_manager/utils/helpers.py:31-37 | every character of the key occurs in the name |
| `Normalizer.KeyHasNoSep` | rom_duplicate_manager/utils/helpers.py:27-38 | a name without path separators gives a key without them |
| `Normalizer.SplitExtAppend` | rom_duplicate_manager/utils/helpers.py:27 | `os.path.splitext` of a key followed by a one-dot extension gives back the key and the extension |
| `Normalizer.NormalizeIdempotent` | rom_duplicate_manager/utils/helpers.py:10-38 | normalizing the key with the original extension put back gives the key again |
| `Version.DottedEnd` | rom_duplicate_manager/utils/helpers.py:80 | the `\d+(\.\d+)*` run starting at a digit ends after it and holds only digits and dots |
| `Version.DottedValues` | rom_duplicate_manager/utils/helpers.py:83 | `tuple(map(int, m.split('.')))` of a dotted run yields at least one number |
| `Version.DatePart` | rom_duplicate_manager/utils/helpers.py:63-76 | the date component is always three numbers, `(0, 0, 0)` when no date is found |
| `Version.YearValue` | rom_duplicate_manager/utils/helpers.py:64 | a year accepted by `(20\d{2}\|19\d{2})` is four digits worth 1900 to 2099 |
| `Version.YearRange` | rom_duplicate_manager/utils/helpers.py:64-76 | a date found by either search has three parts and a year between 1900 and 2099 |
| `Version.VersionMatchAt` | rom_duplicate_manager/utils/helpers.py:80 | a match of `v(er(sion)?)?[\s\-_]?(\d+(\.\d+)*)` at a position puts its number group after that position, starting with a digit |
| `Version.LastVersionFrom` | rom_duplicate_manager/utils/helpers.py:80-83 | the scan for `findall(...)[-1]` returns the start of a number group, if any |
| `Version.VersionNumbers` | rom_duplicate_manager/utils/helpers.py:79-85 | the version component has at least one number, `(0,)` without a match |
| `Version.ProtoPart` | rom_duplicate_manager/utils/helpers.py:87-93 | the proto/beta component is exactly one number |
| `Version.SearchTrailingNumber` | rom_duplicate_manager/utils/helpers.py:104 | a match of `[_\s\-](\d+(\.\d+)*)$` has a digit right after its separator |
| `Version.OtherPart` | rom_duplicate_manager/utils/helpers.py:96-109 | the last component has at least one number |
| `Version.ExtractVersion` | rom_duplicate_manager/utils/helpers.py:41-111 | the version tuple is date + version + proto + other, at least six numbers |
| `Version.ExtractVersionShape` | rom_duplicate_manager/utils/helpers.py:63-111 | the tuple has at least six numbers and its first is 0 or a year from 1900 to 2099 |
| `Version.NoMarkersAllZero` | rom_duplicate_manager/utils/helpers.py:63-111 | when none of the patterns matches, the tuple is `(0, 0, 0, 0, 0, 0)` |
| `Version.SearchSeparatedDateFinds` | rom_duplicate_manager/utils/helpers.py:64 | `re.search` returns the leftmost separated date |
| `Version.SeparatedDateWins` | rom_duplicate_manager/utils/helpers.py:64-69 | the leftmost `YYYY-MM-DD` style date is the date component, whatever compact date follows |
| `Version.CompactDateNeedsBoundary` | rom_duplicate_manager/utils/helpers.py:71 | a compact date inside a longer run of digits is not accepted (the `(?<!\d)` and `(?!\d)` guards) |
| `Version.VersionMatchHasOneV` | rom_duplicate_manager/utils/helpers.py:80 | a version match holds no second `v` after its first character |
| `Version.LastVersionFromFinds` | rom_duplicate_manager/utils/helpers.py:80-83 | the scan returns the number group of the last non-overlapping match, as `findall(...)[-1]` does |
| `Version.LastVersionFromNone` | rom_duplicate_manager/utils/helpers.py:80-81 | with no further match the scan keeps the match it had |
| `Version.LastVersionWins` | rom_duplicate_manager/utils/helpers.py:80-83 | the version component is the numbers of the LAST version match |
| `Version.ParenNumberWins` | rom_duplicate_manager/utils/helpers.py:97-100 | the first `(n)` group gives the last component |
| `Version.SearchParenNumberFinds` | rom_duplicate_manager/utils/helpers.py:97 | `re.search` returns the leftmost `(n)` group |
| `Version.TrailingNumberFallback` | rom_duplicate_manager/utils/helpers.py:103-107 | without a `(n)` group, a trailing separated number gives the last component |
| `Version.SearchTrailingFinds` | rom_duplicate_manager/utils/helpers.py:104 | the trailing-number search returns the leftmost position that matches to the end |
| `Version.ProtoReadsExtension` | rom_duplicate_manager/utils/helpers.py:59-88 | the proto search reads the whole lowercased filename, extension included: "Game.(Beta 2)" yields a proto number of 2 although its stem is "Game" |
| `Version.StemOfGame` | rom_duplicate_manager/utils/helpers.py:60 | `os.path.splitext("Game.(Beta 2)")` keeps "Game" |
| `Version.BetaInGame` | rom_duplicate_manager/utils/helpers.py:88 | `\((proto\|beta)\s*(\d+)\)` finds 2 in "game.(beta 2)" |
| `Version.NoNumbersInGame` | rom_duplicate_manager/utils/helpers.py:63-109 | "Game" has no date, no version and no other number |
| `Languages.CloseFrom` | rom_duplicate_manager/utils/helpers.py:153 | finds the first `)` at or after a position, or the end |
| `Languages.TokenEnd` | rom_duplicate_manager/utils/helpers.py:155 | finds the end of a token: the next comma or whitespace, or the end |
| `Languages.Lookup` | rom_duplicate_manager/utils/helpers.py:129-163 | a token found in the language, region or format table gives a label of the vocabulary |
| `Languages.TokenLabels` | rom_duplicate_manager/utils/helpers.py:157-163 | a token gives at most one label, from the vocabulary |
| `Languages.ExtractLanguages` | rom_duplicate_manager/utils/helpers.py:114-165 | the loops compute the label set of the filename |
| `Languages.TokensLabels` | rom_duplicate_manager/utils/helpers.py:156-163 | the inner loop collects the labels of a group's tokens |
| `Languages.LanguagesShape` | rom_duplicate_manager/utils/helpers.py:126-165 | the result is never empty, holds only vocabulary labels or "Unknown", holds "Unknown" exactly when no token was recognised, and then is `{'Unknown'}` alone |
| `Languages.LabelsInVocabulary` | rom_duplicate_manager/utils/helpers.py:156-163 | the labels of any tokens are vocabulary labels |
| `Languages.FoundInVocabulary` | rom_duplicate_manager/utils/helpers.py:154-163 | the labels of any groups are vocabulary labels |
| `Languages.NoGroupsWithoutParen` | rom_duplicate_manager/utils/helpers.py:153 | a text without `(` has no parenthesised group |
| `Languages.UnknownWithoutParen` | rom_duplicate_manager/utils/helpers.py:153-165 | a filename without `(` is `{'Unknown'}` |
| `Languages.FoundContains` | rom_duplicate_manager/utils/helpers.py:154-163 | every recognised token of every group contributes its label |
| `Languages.LabelsContains` | rom_duplicate_manager/utils/helpers.py:156-163 | every recognised token contributes its label |
| `Languages.FoundFromToken` | rom_duplicate_manager/utils/helpers.py:154-163 | every label found comes from some token of some group |
| `Languages.LabelsFromToken` | rom_duplicate_manager/utils/helpers.py:156-163 | every label of a group comes from one of its tokens |
| `Languages.LowerAll` | rom_duplicate_manager/utils/helpers.py:155 | lowercases each group, keeping the count |
| `Languages.CloseFromLower` | rom_duplicate_manager/utils/helpers.py:153 | lowercasing does not move a closing parenthesis |
| `Languages.GroupsFromLower` | rom_duplicate_manager/utils/helpers.py:153 | the groups of a lowercased name are the lowercased groups |
| `Languages.FoundLower` | rom_duplicate_manager/utils/helpers.py:155 | lowercasing the groups first does not change the labels (`match.lower()`) |
| `Languages.CaseInsensitive` | rom_duplicate_manager/utils/helpers.py:114-165 | the labels of a filename do not depend on its letter case |
| `Fingerprint.Read` | rom_duplicate_manager/utils/helpers.py:196 | `f.read(n)` at a position returns `n` bytes or what is left of the file |
| `Fingerprint.Plan` | rom_duplicate_manager/utils/helpers.py:191-209 | the package reads one to three ranges, each inside the file |
| `Fingerprint.LegacyPlan` | rom_duplicate_manager.py:273-283 | the earlier revision reads one or two ranges, each inside the file |
| `Fingerprint.PartialHash` | rom_duplicate_manager/utils/helpers.py:168-213 | computes the package fingerprint: "empty" for a zero-byte file, None when the file cannot be read, else the digest of the sampled bytes |
| `Fingerprint.LegacyPartialHash` | rom_duplicate_manager.py:256-287 | computes the earlier revision's fingerprint the same way over its own ranges |
| `Fingerprint.PlanShape` | rom_duplicate_manager/utils/helpers.py:191-207 | the first 128 KiB are always read; middle and end chunks are added exactly when the file exceeds 256 KiB, the middle one centred on `size // 2` |
| `Fingerprint.PlanWithoutSeek` | rom_duplicate_manager/utils/helpers.py:200-209 | when seeking fails at once, only the first chunk is hashed (and likewise in rom_duplicate_manager.py:279-283) |
| `Fingerprint.LegacyPlanShape` | rom_duplicate_manager.py:273-281 | the earlier revision reads the first 64 KiB and, for larger files, the last 64 KiB |
| `Fingerprint.SampledLength` | rom_duplicate_manager/utils/helpers.py:196-207 | the hashed bytes are as many as the ranges cover |
| `Fingerprint.SmallFileHashedWhole` | rom_duplicate_manager/utils/helpers.py:196-199 | a file of at most 128 KiB is hashed in full |
| `Fingerprint.BoundedRead` | rom_duplicate_manager/utils/helpers.py:171-178 | at most 384 KiB are hashed, whatever the file size |
| `Fingerprint.SampledAgree` | rom_duplicate_manager/utils/helpers.py:196-207 | two equally long files that agree on the sampled ranges give the same sampled bytes |
| `Fingerprint.OnlySamplesMatter` | rom_duplicate_manager/utils/helpers.py:168-213 | files of the same size that agree on the sampled bytes get the same fingerprint, whatever lies between the samples |
| `Fingerprint.EmptyFilesHashAlike` | rom_duplicate_manager/utils/helpers.py:187-189 | every readable empty file gets the "empty" sentinel, in both revisions |
| `Scanner.Insert` | rom_duplicate_manager/core/scanner.py:212 | `groups.setdefault(key, []).append(path)` adds the key and keeps the others |
| `Scanner.GroupPairsContents` | rom_duplicate_manager/core/scanner.py:197-247 | a key is a group exactly when some file got it, and its list is those files in scan order |
| `Scanner.InGroupIff` | rom_duplicate_manager/core/scanner.py:197-247 | a path is in the group of a key exactly when it was added under that key |
| `Scanner.PartitionProperties` | rom_duplicate_manager/core/scanner.py:249-250 | the two results have disjoint keys that together are all groups; duplicates hold lists of two or more, non-duplicates lists of one, each the full group |
| `Scanner.EveryPathPartitioned` | rom_duplicate_manager/core/scanner.py:249-250 | every scanned file ends up in exactly one of the two results |
| `Scanner.KeepExtensionIff` | rom_duplicate_manager/core/scanner.py:176-179 | a file is kept exactly when its lowercased extension is in the filter, or there is no filter and it is not excluded |
| `Scanner.CollectFiles` | rom_duplicate_manager/core/scanner.py:170-195 | the enumeration loop yields the kept paths with forward slashes; a missing folder yields none |
| `Scanner.HashSuffix` | rom_duplicate_manager/core/scanner.py:243-246 | the hash part of a size key is empty or ends with `]` |
| `Scanner.SizeKeyShape` | rom_duplicate_manager/core/scanner.py:244-246 | a size key has `(` after its size and ends with `)` or `]` |
| `Scanner.SizeKeyDistinguishesSizes` | rom_duplicate_manager/core/scanner.py:244-246 | two equal size keys were made for the same size, so files of different sizes never share a hashed group |
| `Scanner.NameKeyIsNotSizeKey` | rom_duplicate_manager/core/scanner.py:211-246 | a name key never equals a size key, so a file grouped by name never joins a group of hashed files |
| `Scanner.KeyedPairsAt` | rom_duplicate_manager/core/scanner.py:207-212 | the i-th file is grouped under its own key |
| `Scanner.GroupsByKeyFunction` | rom_duplicate_manager/core/scanner.py:207-212 | with keys computed by one function, a file is in a group exactly when that group's key is its key |
| `Scanner.NameModeGroups` | rom_duplicate_manager/core/scanner.py:205-212 | in name mode, a file sits in the group of its normalized basename and in no other |
| `Scanner.AddToBucket` | rom_duplicate_manager/core/scanner.py:222 | adding a file to the size map leaves at least one bucket |
| `Scanner.BatchSize` | rom_duplicate_manager/core/scanner.py:203 | `max(1, total // 100)` is at least 1 |
| `Scanner.HashReportsAt` | rom_duplicate_manager/core/scanner.py:237-239 | the j-th hashing report counts j+1 and names the j-th hashed file |
| `Scanner.Refusal` | rom_duplicate_manager/core/scanner.py:208-240 | finds the first call the callback refuses, all earlier ones accepted |
| `Scanner.RefusalEndsTrace` | rom_duplicate_manager/core/scanner.py:209-210 | a refused call ends the scan: no call is made after it and the scan counts as cancelled |
| `Scanner.AcceptedTrace` | rom_duplicate_manager/core/scanner.py:207-247 | when every call was accepted, the calls made are all the calls and the scan is not cancelled |
| `Scanner.AcceptedUpToIff` | rom_duplicate_manager/core/scanner.py:209-210 | a scan gets past its n-th report exactly when the callback answered True to each of the first n (the same holds for the checks at scanner.py:218-219 and 239-240) |
| `Scanner.ReportProgress` | rom_duplicate_manager/core/scanner.py:208-210 | calls the callback on batch boundaries and on the last file; a refusal stops with the calls made so far |
| `Scanner.NamePass` | rom_duplicate_manager/core/scanner.py:205-212 | the name loop either stops at a refused call or makes every call and groups every file by its key |
| `Scanner.SizePass` | rom_duplicate_manager/core/scanner.py:215-224 | the size loop either stops at a refused call or makes every call and buckets every readable file by size |
| `Scanner.HashBucket` | rom_duplicate_manager/core/scanner.py:236-247 | hashing a bucket reports each of its files and groups each by its size key, or stops at a refusal |
| `Scanner.HashFile` | rom_duplicate_manager/core/scanner.py:237-247 | one hashed file: count one more, report it, and group it by its size key |
| `Scanner.SizeGroup` | rom_duplicate_manager/core/scanner.py:230-247 | a one-file bucket is grouped by name; a larger one is hashed file by file |
| `Scanner.HashPass` | rom_duplicate_manager/core/scanner.py:226-247 | the second size-mode loop either stops at a refused call or reports every hashed file and groups every bucket |
| `Scanner.Partition` | rom_duplicate_manager/core/scanner.py:249-250 | splits the groups into duplicates and non-duplicates |
| `Scanner.EmptyScan` | rom_duplicate_manager/core/scanner.py:198-200 | no files give two empty results |
| `Scanner.ScanFolderInternal` | rom_duplicate_manager/core/scanner.py:159-252 | the calls made are the expected calls cut at the first refusal; a cancelled scan returns two empty maps, else the partition of the groups of the listed files |
| `Scanner.AlwaysContinueNeverRefuses` | rom_duplicate_manager/core/scanner.py:278-281 | the wrapper callback accepts every call |
| `Scanner.ScanFolder` | rom_duplicate_manager/core/scanner.py:255-287 | the synchronous scan makes every call and always returns the partition of the groups |
| `Scanner.PassReportsBounded` | rom_duplicate_manager/core/scanner.py:208-209 | every report of a pass counts from 1 up to the files seen, out of the total |
| `Scanner.PassReportsWhen` | rom_duplicate_manager/core/scanner.py:208 | file i is reported exactly when i is a multiple of the batch size or the last index |
| `Scanner.PassReportsEnd` | rom_duplicate_manager/core/scanner.py:208 | the last report of a pass is `total` of `total`, about the last file |
| `Scanner.AddToBucketSpec` | rom_duplicate_manager/core/scanner.py:222 | adding a file appends it to the list of its size only; a new size is appended to the map's key order |
| `Scanner.SizeBucketsSpec` | rom_duplicate_manager/core/scanner.py:215-224 | the bucket of each size holds the readable files of that size, in scan order, and no size has two buckets |
| `Scanner.FilesOfSizeMember` | rom_duplicate_manager/core/scanner.py:220-224 | a file is in a size's list exactly when it was scanned and its size could be read as that size |
| `Scanner.BucketOfSize` | rom_duplicate_manager/core/scanner.py:230 | a size with files has a bucket holding them |
| `Scanner.SizePairsMember` | rom_duplicate_manager/core/scanner.py:230-247 | each file of a bucket is grouped by its name when alone, else by its size key |
| `Scanner.SharedKeyDuplicates` | rom_duplicate_manager/core/scanner.py:249 | two different files under one key end up together among the duplicates |
| `Scanner.SameContentAreDuplicates` | rom_duplicate_manager/core/scanner.py:215-250 | in size mode, two files of the same size, the same fingerprint and the same extension are reported as duplicates |
| `Scanner.EmptyFilesAreDuplicates` | rom_duplicate_manager/core/scanner.py:215-250 | empty files with the same extension are reported as duplicates |
| `Scanner.NameModePartition` | rom_duplicate_manager/core/scanner.py:205-250 | in name mode every file sits under its normalized key in exactly one of the two results |
| `Scanner.MatchName` | rom_duplicate_manager/core/scanner.py:311-315 | the match name is the lowercased stem with one "-image" suffix removed |
| `Scanner.FindOrphanedImages` | rom_duplicate_manager/core/scanner.py:290-321 | the loop lists the image files whose match name is not kept; nothing when the folder is missing or cannot be listed |
| `Scanner.OrphansMember` | rom_duplicate_manager/core/scanner.py:308-317 | a path is reported exactly when it is an image file of the folder whose match name is not kept |
| `Scanner.NoImageTypesNoOrphans` | rom_duplicate_manager/core/scanner.py:304-312 | without an "Images" extension set nothing is orphaned |
| `Scanner.OrphansBounded` | rom_duplicate_manager/core/scanner.py:308-317 | at most one path per directory entry |
| `Scanner.SuffixedImageIsNotOrphan` | rom_duplicate_manager/core/scanner.py:313-316 | "Zelda-Image.PNG" matches the kept name "zelda" |
| `Scanner.UnmatchedImageIsOrphan` | rom_duplicate_manager/core/scanner.py:313-317 | "Link.png" is orphaned when only "zelda" is kept |
| `Ranking.TupleLess` | rom_duplicate_manager/core/duplicate_logic.py:87 | Python's tuple `<` on priority tuples: a result, or TypeError when an int meets a str at the first difference |
| `Ranking.ItemLessTotal` | rom_duplicate_manager/core/duplicate_logic.py:87 | two comparable items compare both ways, consistently, and an item is not less than itself |
| `Ranking.ItemLessTransitive` | rom_duplicate_manager/core/duplicate_logic.py:87 | item `<` is transitive |
| `Ranking.TupleLessIrreflexive` | rom_duplicate_manager/core/duplicate_logic.py:87 | no tuple is less than itself, and comparing it with itself never raises |
| `Ranking.TupleLessTotal` | rom_duplicate_manager/core/duplicate_logic.py:87 | when `a < b` evaluates, so does `b < a`, and for different tuples exactly one holds |
| `Ranking.NotLessMeansGreater` | rom_duplicate_manager/core/duplicate_logic.py:87 | of two different tuples, the one that is not less is greater |
| `Ranking.TupleLessTransitive` | rom_duplicate_manager/core/duplicate_logic.py:87 | tuple `<` is transitive |
| `Ranking.SameShapeComparable` | rom_duplicate_manager/core/duplicate_logic.py:72-87 | tuples with an int or a str in the same places always compare |
| `Ranking.Key` | rom_duplicate_manager/core/duplicate_logic.py:72-73 | the priority tuple is (not in root, low priority), the negated version numbers, then (-world, -language match, -format priority, -language count, length, filename) |
| `Ranking.Negated` | rom_duplicate_manager/core/duplicate_logic.py:72 | `tuple(-v for v in version)` negates each number in place |
| `Ranking.FormatPriority` | rom_duplicate_manager/core/duplicate_logic.py:51-69 | the video format priority is between -1 and 2 |
| `Ranking.PriorityOf` | rom_duplicate_manager/core/duplicate_logic.py:15-73 | the flags are 0 or 1; the filename is the basename and the length its length; the version is `extract_version` of the basename |
| `Ranking.MinBy` | rom_duplicate_manager/core/duplicate_logic.py:75-87 | `min(files, key=...)` returns one of the files, and ValueError exactly for an empty list |
| `Ranking.MinByIsFirstMinimum` | rom_duplicate_manager/core/duplicate_logic.py:87 | the chosen file has no file with a smaller key, and every file before it has a larger key: it is the FIRST minimum |
| `Ranking.MinByDefined` | rom_duplicate_manager/core/duplicate_logic.py:87 | when all keys of a non-empty group compare, the minimum is defined |
| `Ranking.RootFolderFirst` | rom_duplicate_manager/core/duplicate_logic.py:36-72 | a file in the scanned folder ranks before one in a sub-folder |
| `Ranking.GoodDumpFirst` | rom_duplicate_manager/core/duplicate_logic.py:40-72 | at equal location, a file without a proto/demo/sample/beta marker ranks first |
| `Ranking.DecidedAt` | rom_duplicate_manager/core/duplicate_logic.py:87 | tuples that agree up to k and differ at k compare as their k-th items |
| `Ranking.NewerVersionFirst` | rom_duplicate_manager/core/duplicate_logic.py:46-72 | at equal location and quality, with version tuples of one length, the higher version ranks first |
| `Ranking.ShorterNameFirst` | rom_duplicate_manager/core/duplicate_logic.py:47-73 | when everything before the length ties, the shorter filename ranks first |
| `Ranking.EqualVersionLengthsCompare` | rom_duplicate_manager/core/duplicate_logic.py:72-87 | priority tuples with version tuples of one length always compare |
| `Ranking.BaseFileDefinedForEqualVersionLengths` | rom_duplicate_manager/core/duplicate_logic.py:75-87 | `get_base_file` returns a file of a non-empty group whose version tuples have one length |
| `Ranking.NativeFormatFirst` | rom_duplicate_manager/core/duplicate_logic.py:51-69 | the format priority is 2 exactly for NTSC under an NTSC region or PAL under a PAL region, and 0 for other preferences |
| `Ranking.PriorityParts` | rom_duplicate_manager/core/duplicate_logic.py:15-73 | the priority of a file in the scanned folder without a quality marker is assembled from its version tuple, its languages and its format bonus |
| `Ranking.JapaneseFormat` | rom_duplicate_manager/core/duplicate_logic.py:51-69 | for the NTSC-family preference "Japanese", a file marked neither NTSC nor PAL scores -1 when marked SECAM and 0 otherwise |
| `Version.PlainVersion` | rom_duplicate_manager/utils/helpers.py:41-111 | `extract_version("a")` is six zeros |
| `Version.SecamVersion` | rom_duplicate_manager/utils/helpers.py:41-111 | `extract_version("a (SECAM) (v0.0.0).zip")` is eight zeros: `splitext` takes ".zip" off and "v0.0.0" gives three numbers |
| `Languages.SecamLanguages` | rom_duplicate_manager/utils/helpers.py:114-165 | `extract_languages("a (SECAM) (v0.0.0).zip")` is {"SECAM"} |
| `Ranking.PlainPriority` | rom_duplicate_manager/core/duplicate_logic.py:15-73 | `get_file_priority("a")` in the folder "" with preference "Japanese" is the record with a six-zero version, no language and length 1 |
| `Ranking.SecamPriority` | rom_duplicate_manager/core/duplicate_logic.py:15-73 | `get_file_priority("a (SECAM) (v0.0.0).zip")` there has an eight-zero version, one language, format bonus -1 and length 22 |
| `Ranking.PlainKey` | rom_duplicate_manager/core/duplicate_logic.py:72-73 | the tuple of the first record has 14 fields: twelve zeros, the length 1 at position 12 and the name at position 13 |
| `Ranking.SecamKey` | rom_duplicate_manager/core/duplicate_logic.py:72-73 | the tuple of the second has 16 fields: twelve zeros, the negated format bonus 1 at position 12, the negated language count -1 at position 13 (where the first tuple holds its name), the length 22 and the name |
| `Ranking.MisalignedKeysRaise` | rom_duplicate_manager/core/duplicate_logic.py:72-87 | comparing the second tuple with the first reaches the int -1 against the name and raises TypeError |
| `Ranking.MinByPair` | rom_duplicate_manager/core/duplicate_logic.py:87 | `min` of two files compares the second key with the first and keeps the first unless the second is strictly smaller |
| `Ranking.BaseFileRaises` | rom_duplicate_manager/core/duplicate_logic.py:75-87 | `get_base_file` on "a" and "a (SECAM) (v0.0.0).zip" with preference "Japanese" raises TypeError |
| `Ranking.BaseFileRaisesOnNames` | rom_duplicate_manager/core/duplicate_logic.py:75-87 | the same, with the two names written out: `min(["a", "a (SECAM) (v0.0.0).zip"], key=...)` raises TypeError |
| `Ranking.PriorityFlags` | rom_duplicate_manager/core/duplicate_logic.py:32-49 | `not_in_root` is 0 exactly when the slash-normalised directory is the scanned folder; `low_priority` is 1 exactly when the lowercased basename holds a proto/demo/sample/beta marker; "Any" gives no language or format bonus; the language count is 0 exactly when the result is `{'Unknown'}`; a World release counts at least one language |
| `Sorting.BeforeIrreflexive` | rom_duplicate_manager/ui/file_list.py:424-425 | no key sorts strictly before itself, in either direction |
| `Sorting.BeforeAsymmetric` | rom_duplicate_manager/ui/file_list.py:424-425 | two keys never sort strictly before each other |
| `Sorting.BeforeTransitive` | rom_duplicate_manager/ui/file_list.py:424-425 | sorting before is transitive in both directions |
| `Sorting.BeforeNotAfter` | rom_duplicate_manager/ui/file_list.py:424-425 | a key before b sorts before any c that does not sort before b |
| `Sorting.Insert` | rom_duplicate_manager/ui/file_list.py:424-425 | inserting one element adds one to the length |
| `Sorting.SortBy` | rom_duplicate_manager/ui/file_list.py:424-446 | `sorted(..., key, reverse)` keeps the length |
| `Sorting.InsertPermutes` | rom_duplicate_manager/ui/file_list.py:424-425 | inserting adds exactly that element |
| `Sorting.InsertSorted` | rom_duplicate_manager/ui/file_list.py:424-425 | inserting into a sorted list keeps it sorted |
| `Sorting.InsertStable` | rom_duplicate_manager/ui/file_list.py:424-425 | the inserted element lands after all elements with its key |
| `Sorting.SortByCorrect` | rom_duplicate_manager/ui/file_list.py:424-451 | the sort orders its input by key, is a permutation of it, and is stable: elements with equal keys keep their order, also when reversed |
| `Sorting.PartitionSortEffect` | rom_duplicate_manager/ui/file_list.py:436-448 | sorting the rows that satisfy a test and then the others gives a permutation of the input whose first part is exactly the satisfying rows, whose second part has none, and whose two parts are each in key order |
| `Sorting.Keep` | rom_duplicate_manager/ui/file_list.py:441-442 | a list comprehension with a condition keeps only elements that satisfy it, never more than it got |
| `Sorting.KeepMembers` | rom_duplicate_manager/ui/file_list.py:441-442 | an element is kept exactly when it is in the list and satisfies the condition; nothing is kept exactly when no element satisfies it |
| `Sorting.KeepPartition` | rom_duplicate_manager/ui/file_list.py:441-448 | splitting the children into marked and unmarked loses and duplicates nothing |
| `Tags.TagsDistinct` | rom_duplicate_manager/ui/file_list.py:77-87 | the six tag names differ |
| `Tags.Without` | rom_duplicate_manager/ui/file_list.py:195 | `[t for t in tags if t not in drop]` keeps exactly the tags not dropped |
| `Tags.WithoutAppend` | rom_duplicate_manager/ui/file_list.py:195-196 | filtering distributes over concatenation |
| `Tags.WithoutTwice` | rom_duplicate_manager/ui/file_list.py:195 | filtering twice is filtering by both sets |
| `Tags.WithoutNothing` | rom_duplicate_manager/ui/file_list.py:195 | filtering out tags that are absent changes nothing |
| `Tags.CountAppend` | rom_duplicate_manager/ui/file_list.py:372 | occurrences add up over concatenation |
| `Tags.CountMember` | rom_duplicate_manager/ui/file_list.py:369 | a tag occurs exactly when it is present |
| `Tags.RemoveFirst` | rom_duplicate_manager/ui/file_list.py:370 | `list.remove` drops one element when present and changes nothing otherwise |
| `Tags.RemoveFirstCount` | rom_duplicate_manager/ui/file_list.py:370 | `list.remove` removes exactly one occurrence of its argument |
| `Tags.RemoveFirstWithout` | rom_duplicate_manager/ui/file_list.py:370 | removing a tag that is also filtered away does not change the filtered list |
| `Tags.RemoveFirstMultiset` | rom_duplicate_manager/ui/file_list.py:633-636 | `list.remove` takes one copy of the element out of the multiset |
| `Tags.FirstRowTag` | rom_duplicate_manager/ui/file_list.py:77 | `next(...)` finds the first odd/even row tag, or none when there is none |
| `Tags.DisplayTagsEffect` | rom_duplicate_manager/ui/file_list.py:77-93 | the preserved display tags are the row tag and "filtered", nothing else |
| `Tags.ToggleEffect` | rom_duplicate_manager/ui/file_list.py:76-95 | toggling marks the row manual; it becomes kept exactly when it was marked for removal and not kept, else marked for removal; the row colour and the filter tag survive and no other tag appears |
| `Tags.ToggleCycle` | rom_duplicate_manager/ui/file_list.py:80-87 | toggling alternates between two states: three toggles equal one, two differ from one |
| `Tags.MarkedEffect` | rom_duplicate_manager/ui/file_list.py:194-211 | marking ends the tags with the status and "manual", sets the status exactly as asked, and keeps every other tag |
| `Tags.MarkedStatus` | rom_duplicate_manager/ui/file_list.py:195-196 | marking sets the status tag asked for and clears the other |
| `Tags.MarkedKeepsOthers` | rom_duplicate_manager/ui/file_list.py:195 | marking keeps every tag that is not a mark |
| `Tags.Unmarked` | rom_duplicate_manager/ui/file_list.py:338 | reset leaves no base, to_remove or manual tag |
| `Tags.ResetUndoesMarks` | rom_duplicate_manager/ui/file_list.py:188-214 | resetting after marking is resetting alone, and reset is idempotent |
| `Tags.ResetUndoesToggle` | rom_duplicate_manager/ui/file_list.py:76-95 | resetting a toggled row leaves just its display tags |
| `Tags.DisplayTagsAreNotMarks` | rom_duplicate_manager/ui/file_list.py:338 | reset never removes the row colour or the filter tag |
| `Tags.StatusPairGone` | rom_duplicate_manager/ui/file_list.py:338 | the status pair a mark appends is removed entirely by reset |
| `Tags.FilterTagged` | rom_duplicate_manager/ui/file_list.py:368-373 | a matching row gets "filtered" first |
| `Tags.FilterTagEffect` | rom_duplicate_manager/ui/file_list.py:368-373 | with at most one "filtered" tag before, a row carries it exactly when it matches, once at most, and its other tags are unchanged |
| `Tags.FilterRemovesOnlyOne` | rom_duplicate_manager/ui/file_list.py:369-370 | a row with two "filtered" tags keeps one after a non-matching filter |
| `Tags.FilterTaggedIdempotent` | rom_duplicate_manager/ui/file_list.py:368-373 | applying the same filter twice equals applying it once |
| `Tags.SuggestedEffect` | rom_duplicate_manager/core/duplicate_logic.py:101-116 | a manual row is left alone; otherwise its other tags are kept and it is tagged base exactly when smart selection is on and it is the base file, to_remove exactly when smart selection is on and it is not |
| `FileList.FindRow` | rom_duplicate_manager/ui/file_list.py:72-76 | finds the position of the row with an item id among a group's children, or reports that none has it |
| `FileList.Locate` | rom_duplicate_manager/ui/file_list.py:72-76 | `tree.parent(item)` and the item's place: the group and position of the file row with an id, or none when no file row has it |
| `FileList.LocateUnique` | rom_duplicate_manager/ui/file_list.py:72-76 | with unique item ids, locating a row's id finds that very row |
| `FileList.Retagged` | rom_duplicate_manager/ui/file_list.py:335-339 | `tree.item(child, tags=...)` over a group's children changes each row's tags only |
| `FileList.RetagAll` | rom_duplicate_manager/ui/file_list.py:335-339 | a loop over every group and child rewrites the tags of every file row and nothing else |
| `FileList.RetagAllAgree` | rom_duplicate_manager/ui/file_list.py:335-339 | two tag rewrites that agree on every row of the tree give the same tree |
| `FileList.RetagTwice` | rom_duplicate_manager/ui/file_list.py:335-339 | two loops in a row equal one loop with the composed rewrite |
| `FileList.RetagKeepsIds` | rom_duplicate_manager/ui/file_list.py:335-339 | rewriting tags keeps the item ids unique |
| `FileList.SetTagsIsRetag` | rom_duplicate_manager/ui/file_list.py:95 | setting one row's tags is the rewrite that touches only that id |
| `FileList.PlainPatternMatchesName` | rom_duplicate_manager/ui/file_list.py:266-285 | a plain pattern matches a name that contains it, ignoring case |
| `FileList.PlainPatternIgnoresCase` | rom_duplicate_manager/ui/file_list.py:282-285 | a plain pattern matches exactly when its lowercased form does |
| `FileList.CopyRemovalIsCaseSensitive` | rom_duplicate_manager/ui/file_list.py:270-285 | "copy" does not match "a - Copy" (the marker is removed first) but matches "a - COPY" (a differently cased marker stays) |
| `FileList.CopyMarkerRemoved` | rom_duplicate_manager/ui/file_list.py:273 | the text matched for "a - Copy" is "a" |
| `FileList.CapitalMarkerKept` | rom_duplicate_manager/ui/file_list.py:273 | the text matched for "a - COPY" is unchanged |
| `FileList.RetagNothing` | rom_duplicate_manager/ui/file_list.py:335-339 | a rewrite that keeps each row's tags keeps the tree |
| `FileList.ToggleOnlyThatRow` | rom_duplicate_manager/ui/file_list.py:61-95 | toggling an item rewrites the tags of the file row with that id and no other row; an id of a group row or no row changes nothing |
| `FileList.MarkSelectionRetags` | rom_duplicate_manager/ui/file_list.py:188-214 | marking a selection of distinct ids marks exactly the selected file rows, each once, and skips group rows |
| `FileList.FilterAll` | rom_duplicate_manager/ui/file_list.py:356-379 | every group of the tree is filtered |
| `FileList.FilterEffect` | rom_duplicate_manager/ui/file_list.py:353-379 | after the filter, only a row's tags changed; it carries "filtered" exactly when it matches, at the front, at most once, with its other tags unchanged; a group is open exactly when the filter is empty or one of its rows matches |
| `FileList.FilterIdempotent` | rom_duplicate_manager/ui/file_list.py:347-381 | filtering again with the same settings changes nothing |
| `FileList.SuggestGroupEffect` | rom_duplicate_manager/core/duplicate_logic.py:95-116 | only the children's tags change; a group whose text is not a duplicate key and every manual row are left alone; otherwise the base file is a first minimum of the group's list and each row gets the suggested tags for whether its path is the base file |
| `FileList.SuggestComplete` | rom_duplicate_manager/core/duplicate_logic.py:95-116 | a pass without error updates every group |
| `FileList.SuggestNeverFailsWithoutErrors` | rom_duplicate_manager/core/duplicate_logic.py:95-99 | when every duplicate group's minimum is defined, the pass raises nothing |
| `FileList.SortGroups` | rom_duplicate_manager/ui/file_list.py:413-454 | the sorted tree has one group per group of the new order |
| `FileList.SortChildrenEffect` | rom_duplicate_manager/ui/file_list.py:436-451 | the marked children come first, then the unmarked; each part is sorted by text in the requested direction; no child is lost or duplicated |
| `FileList.MoveGroups` | rom_duplicate_manager/ui/file_list.py:430-452 | the loop over the ordered groups yields every group at its new index, in order, with the child sort applied to each and nothing added or dropped |
| `FileList.GroupOrderEffect` | rom_duplicate_manager/ui/file_list.py:413-428 | the new order is a permutation of the groups with all duplicate groups first, each section sorted by lowercased text |
| `FileList.SortGroupsEffect` | rom_duplicate_manager/ui/file_list.py:413-454 | after sorting, all duplicate groups come before the unique groups |
| `FileList.NativePath` | rom_duplicate_manager/ui/file_list.py:614 | `path.replace('/', os.sep)` turns each slash into a backslash |
| `FileList.NativePathRoundTrip` | rom_duplicate_manager/ui/file_list.py:614-630 | a stored path (slashes only) comes back unchanged from the native path, so the map entry to remove is found |
| `FileList.RemoveFile` | rom_duplicate_manager/ui/file_list.py:624-636 | deleting a row removes that one row from its group and leaves every other group and every map key |
| `FileList.RemoveFileLists` | rom_duplicate_manager/ui/file_list.py:629-636 | exactly one copy of the deleted path leaves its group's list in `duplicates`, or in `non_duplicates` when the text is no duplicate key; every other list is unchanged |
| `FileList.RowOf` | rom_duplicate_manager/ui/file_list.py:605 | the file row with an id, present exactly when the tree holds one |
| `FileList.RemoveFileMoves` | rom_duplicate_manager/ui/file_list.py:626 | every row left after `tree.delete(item)` is a row from before, other than the deleted one |
| `FileList.RemoveFileUnique` | rom_duplicate_manager/ui/file_list.py:626 | deleting a row keeps item ids unique |
| `FileList.RemoveFileRows` | rom_duplicate_manager/ui/file_list.py:626 | deleting a row takes away its id and leaves every other id's row |
| `FileList.DeleteOne` | rom_duplicate_manager/ui/file_list.py:604-636 | one pass of the deletion loop counts at most one more deleted file |
| `FileList.DeleteFilesRows` | rom_duplicate_manager/ui/file_list.py:604-636 | after the loop, a row is gone exactly when it was listed, it existed, its native path is non-empty, the file existed and deleting it succeeded; every other row stays; ids stay unique |
| `FileList.DeletedIdsSnoc` | rom_duplicate_manager/ui/file_list.py:604-636 | the deleted ids of a longer item list add the last item when it was deletable |
| `FileList.DeleteOneCount` | rom_duplicate_manager/ui/file_list.py:615-621 | the count goes up exactly when the listed row exists and its file could be deleted |
| `FileList.RemovedIdGone` | rom_duplicate_manager/ui/file_list.py:623-626 | once a row is deleted from the tree, no remaining row carries its id |
| `FileList.OtherIdsKept` | rom_duplicate_manager/ui/file_list.py:623-626 | deleting one row leaves every other id resolving to the same row as before, and an id that was absent stays absent |
| `FileList.DeleteFilesCount` | rom_duplicate_manager/ui/file_list.py:599-636 | for distinct items the count is the number of rows actually deleted |
| `FileList.DeleteFilesShape` | rom_duplicate_manager/ui/file_list.py:599-636 | the loop keeps the groups (only children go), records only group ids as parents to check, and counts at most one per item |
| `FileList.CountRemoved` | rom_duplicate_manager/ui/file_list.py:641-657 | at most one per orphaned image; all of them exactly when each could be deleted; none exactly when none could |
| `FileList.CleanGroup` | rom_duplicate_manager/ui/file_list.py:663-679 | an emptied checked group goes; any other group stays, in order; no other key of either map changes |
| `FileList.Cleanup` | rom_duplicate_manager/ui/file_list.py:663-679 | the cleanup keeps group order and never adds a group |
| `FileList.CleanupOtherKeys` | rom_duplicate_manager/ui/file_list.py:663-679 | a key that names no group is untouched in both maps |
| `FileList.CleanupAppend` | rom_duplicate_manager/ui/file_list.py:663 | cleaning two runs of groups is cleaning one then the other |
| `FileList.CleanupDrops` | rom_duplicate_manager/ui/file_list.py:667-673 | an id whose every group was emptied and checked is in no surviving group |
| `FileList.CleanupAt` | rom_duplicate_manager/ui/file_list.py:663-679 | with distinct group texts, the map entries of one group are decided by that group's own step alone |
| `FileList.CleanupRemovesEmptied` | rom_duplicate_manager/ui/file_list.py:667-673 | a checked group left with no children leaves the tree and both maps |
| `FileList.CleanupConverts` | rom_duplicate_manager/ui/file_list.py:674-679 | a checked duplicate group left with one child moves to `non_duplicates` as a one-path list, is closed and tagged as a unique group |
| `FileList.CleanupKeeps` | rom_duplicate_manager/ui/file_list.py:663-679 | every other group stays, and its entries in both maps are unchanged |
| `FileList.MarkedIn` | rom_duplicate_manager/ui/file_list.py:490-491 | lists exactly the ids of a group's rows tagged to_remove |
| `FileList.MarkedRows` | rom_duplicate_manager/ui/file_list.py:490-491 | `tree.tag_has('to_remove')` lists exactly the ids of file rows tagged to_remove |
| `FileList.ItemsToDelete` | rom_duplicate_manager/ui/file_list.py:486-491 | the items are the selected file rows when there are any, else every row marked to_remove; only file rows are listed |
| `FileList.RetagRows` | rom_duplicate_manager/ui/file_list.py:335-339 | the inner loop rewrites each child's tags |
| `FileList.FileListView.constructor` | rom_duplicate_manager/ui/file_list.py:55-59 | a view starts unfiltered and sorted by filename, ascending, not user-sorted |
| `FileList.FileListView.RetagTree` | rom_duplicate_manager/ui/file_list.py:335-339 | the nested loop over groups and children rewrites every file row's tags |
| `FileList.FileListView.ToggleItemStatus` | rom_duplicate_manager/ui/file_list.py:61-95 | the tree becomes the toggle of the given item; no item or a group row leaves it unchanged |
| `FileList.FileListView.ToggleSelectedStatus` | rom_duplicate_manager/ui/file_list.py:181-186 | each selected item is toggled in turn |
| `FileList.FileListView.MarkSelected` | rom_duplicate_manager/ui/file_list.py:188-214 | the selected file rows are marked kept or for removal, one after the other |
| `FileList.FileListView.MarkFiltered` | rom_duplicate_manager/ui/file_list.py:287-331 | with a filter text, every matching row is marked; with none, nothing changes |
| `FileList.FileListView.ApplyFilter` | rom_duplicate_manager/ui/file_list.py:347-381 | the tree becomes the filtered tree for the current settings |
| `FileList.FileListView.ApplyBaseSuggestions` | rom_duplicate_manager/core/duplicate_logic.py:89-120 | the tree becomes the suggestion pass over it, then filtered; an error from `min` stops the pass and is returned with the groups done so far |
| `FileList.FileListView.ResetMarks` | rom_duplicate_manager/ui/file_list.py:333-345 | every mark is removed; with smart selection on, suggestions are then applied again |
| `FileList.FileListView.SortTree` | rom_duplicate_manager/ui/file_list.py:383-460 | the groups and their children take the sorted order; the sort column and direction are recorded, and a user sort is remembered |
| `FileList.FileListView.DropFile` | rom_duplicate_manager/ui/file_list.py:624-636 | removes the row from the tree and its path from its group's list, as `RemoveFile` states |
| `FileList.FileListView.DeleteListed` | rom_duplicate_manager/ui/file_list.py:599-636 | the first loop leaves the tree, the maps, the parents to check and the count of the deletion fold |
| `FileList.FileListView.CleanUpGroups` | rom_duplicate_manager/ui/file_list.py:663-679 | the cleanup loop leaves the tree and maps of the cleanup fold over the groups |
| `FileList.FileListView.ExecuteDeletion` | rom_duplicate_manager/ui/file_list.py:561-681 | after the deletion the tree and maps are the cleanup of the deletion fold, and the count is the deleted files plus the deleted images |
| `FileList.CountOrphansRemoved` | rom_duplicate_manager/ui/file_list.py:641-657 | the image loop counts the images it could delete |
| `FileList.FilterRows` | rom_duplicate_manager/ui/file_list.py:359-373 | the inner filter loop re-tags each child and reports whether one matched or the filter is empty |
| `FileList.AnyMatchSnoc` | rom_duplicate_manager/ui/file_list.py:364-365 | one more child matches the group exactly when it or an earlier one does |
| `FileList.SuggestInGroup` | rom_duplicate_manager/core/duplicate_logic.py:96-116 | the inner loop computes the group's suggested tags |
| `FileList.SuggestPass` | rom_duplicate_manager/core/duplicate_logic.py:95-116 | the outer loop computes the suggestion pass, stopping at the first error |
| `FileList.SuggestStops` | rom_duplicate_manager/core/duplicate_logic.py:99 | an error in one group ends the pass there |
| `FileList.SuggestAdvances` | rom_duplicate_manager/core/duplicate_logic.py:95-116 | a group without error is updated and the pass goes on with the next |
| `FileList.SuggestEnds` | rom_duplicate_manager/core/duplicate_logic.py:95-116 | a pass that reached the end raised nothing |
| `FileList.KnownAfterRetag` | rom_duplicate_manager/ui/file_list.py:181-186 | re-tagging keeps every id the tree knows, so a selection stays valid |
| `Legacy.CollectLegacyFiles` | rom_duplicate_manager.py:310-332 | the enumeration loop of the earlier `scan_folder` yields the kept paths, links to files included in a flat listing, nothing for a missing folder, and the `PermissionError` of a flat listing that was denied |
| `Legacy.LegacyListingAgrees` | rom_duplicate_manager.py:310-332 | a recursive listing, or a flat one without links, gives the same files as the package scan |
| `Legacy.LinkListedOnlyByLegacy` | rom_duplicate_manager.py:321-332 | a link to a wanted file is scanned by the earlier flat listing and skipped by the package's |
| `Legacy.EveryReport` | rom_duplicate_manager.py:341-343 | one report per file seen |
| `Legacy.EveryReportAt` | rom_duplicate_manager.py:341-343 | the i-th report counts i+1 of the total and names the i-th file |
| `Legacy.LegacyReportsMore` | rom_duplicate_manager.py:341-343 | from 200 files on, the earlier scan reports the second file, which the package's batching skips |
| `Legacy.LegacyNamePass` | rom_duplicate_manager.py:339-345 | the name loop reports every file (when a callback is given) and groups every file by its key |
| `Legacy.LegacySizePass` | rom_duplicate_manager.py:347-358 | the size loop reports every file and buckets each readable file by size |
| `Legacy.AlwaysAccepted` | rom_duplicate_manager.py:373-374 | the earlier scan goes on whatever the callback answers |
| `Legacy.LegacyScanFolder` | rom_duplicate_manager.py:290-387 | the earlier scan raises exactly when its flat listing is denied; otherwise it makes every call and returns the partition of the same groups as the package scan over its own listing, and it is never cancelled |
| `Legacy.LegacyEmptyScan` | rom_duplicate_manager.py:334-337 | no files give two empty maps and no call |
| `Legacy.SettingsFor` | rom_duplicate_manager.py:951-955 | prefix stripping is on exactly when the selected type has no extension set; a selected set becomes the filter with nothing excluded |
| `Legacy.PrefixStrippingOnlyForWildcard` | rom_duplicate_manager.py:581-601 | the window offers the six types Archive, System, Disk, Image, Video and "Wildcard *.*", and of these only "Wildcard *.*" strips catalog prefixes |
| `Legacy.DefaultTypeFiltersArchives` | rom_duplicate_manager.py:544 | on the default type "Archive" the scan keeps only the eight archive extensions, strips no catalog prefix and excludes nothing |
| `Legacy.ImagesNeverExcluded` | rom_duplicate_manager.py:581-601 | the table has "Image" and no "Images", so a wildcard scan never excludes images |
| `Legacy.LegacyOrphanedImages` | rom_duplicate_manager.py:798-835 | nothing without a scanned folder and an images folder; otherwise the package matcher over the image listing, with the kept names defaulting to the stems of every scanned path |
| `Legacy.LegacyNeverOrphans` | rom_duplicate_manager.py:817-825 | with the window's own table no image is ever orphaned |

## Left out

- Regular-expression engine details: `$` matching before a final newline and `.` not matching a newline are not modelled, because Windows file names cannot hold control characters.
- `str.lower` and `re.IGNORECASE` are modelled on ASCII letters only, and `\d` as ASCII digits; Unicode case folding is not modelled.
- `os.path` is modelled with the Windows rules the program runs under (separators `\` and `/`, drive letters); UNC paths are not modelled.
- `AsyncScanner` (the worker thread, the result queue and the throttling of progress messages) is not modelled: concurrency is out of scope; the scan itself is modelled as one sequential call.
- The filesystem is not modelled: directory listings, file sizes, MD5 digests and the outcome of each removal are parameters.
- `format_size` is not modelled, because it works in floating point and only formats text for display.
- `check_match` takes its regular-expression and `fnmatch` matchers as parameters; the pattern languages themselves are not modelled.
- The Tk user interface is not modelled: `populate_tree`, `refresh_row_colors`, `update_tag_colors`, `update_status_label`, message boxes, progress windows and confirmation dialogs; `delete_selected` is modelled from the moment the user has confirmed, and its rescan after deletion is not modelled.
- `delete_selected`'s computation of the file names to keep when looking for orphaned images (file_list.py lines 493-513) is not modelled; the orphan search takes its keep set as a parameter.
- The updater, file operations, configuration and launcher modules are not part of this model.
- Dictionary iteration order is modelled as insertion order, by keeping each group's members in a sequence.
- FileList.FileListView.CleanUpGroups visits the parents to check in tree order rather than in Python's set order; the result is the same when group labels are distinct.
- FileList.FileListView: every row is assumed to have values and a unique item id; a row that is no longer in the tree is skipped instead of raising a Tk error.
- Sorting.SortBy is an insertion sort rather than Timsort; only the result (sorted, a permutation, stable) is claimed to agree.
- Ranking.MinBy returns the `TypeError` that `get_base_file` raises on mismatched priority tuples as an error value rather than raising it.
- The single-file revision's `apply_filter` and `sort_tree` are not modelled; the package versions are.
- The `priority` field of `FileListView` stands for `get_file_priority` bound to the folder and language settings read when the view is built; later changes to those settings are not modelled.
- Legacy.CollectLegacyFiles and Legacy.LegacyScanFolder report the `PermissionError` of the flat listing as a result (`None`, `raised`) instead of raising it; the listing says only whether it was denied, since `os.listdir` returns nothing before it raises.
- Legacy.LegacyOrphanedImages receives a missing listing for the `OSError` branch instead of catching an exception.
