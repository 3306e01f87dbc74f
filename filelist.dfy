/** The result tree of the duplicate manager and the operations that
    rewrite it (rom_duplicate_manager/ui/file_list.py and
    rom_duplicate_manager/core/duplicate_logic.py:89-120).

    The tree has two levels: top-level group rows, one per name key, and
    under each the file rows of that group. Every row has an item id; the
    text of a group row is its key, the text of a file row the file's base
    name and its single value the file's path. */
module FileList {
  import opened Wrappers
  import opened Text
  import opened Tags
  import opened Sorting
  import Ranking

  const DuplicateGroupTag: string := "duplicate_group"
  const UniqueGroupTag: string := "unique_group"
  const CopySuffix: string := " - Copy"

  datatype Row = Row(id: nat, text: string, path: string, tags: seq<string>)

  datatype Group = Group(id: nat, text: string, tags: seq<string>, open: bool, children: seq<Row>)

  /** The two sortable columns: '#0' (the file name) and 'path'. */
  datatype Column = Filename | FullPath

  /** `re.search(pattern, text, re.IGNORECASE)` (None when the pattern is
      not a valid expression, else whether it found a match) and
      `fnmatch.fnmatch(text, pattern)`: library code, given as functions. */
  datatype Matchers = Matchers(regexSearch: (string, string) -> Option<bool>,
                               wildcard: (string, string) -> bool)

  /** The filter entry and its two check boxes. */
  datatype FilterSettings = FilterSettings(pattern: string, searchInPath: bool, useRegex: bool,
                                           matchers: Matchers)

  // ---------------------------------------------------------------------
  // Finding rows
  // ---------------------------------------------------------------------

  predicate HasChild(groups: seq<Group>, id: nat) {
    exists g, c :: 0 <= g < |groups| && 0 <= c < |groups[g].children| && groups[g].children[c].id == id
  }

  predicate IsGroupId(groups: seq<Group>, id: nat) {
    exists g :: 0 <= g < |groups| && groups[g].id == id
  }

  /** An id the tree knows; any other id makes Tk raise an error. */
  predicate Known(groups: seq<Group>, id: nat) {
    HasChild(groups, id) || IsGroupId(groups, id)
  }

  /** Item ids are unique, as Tk makes them. */
  predicate UniqueIds(groups: seq<Group>) {
    forall g1, c1, g2, c2 ::
      0 <= g1 < |groups| && 0 <= c1 < |groups[g1].children| &&
      0 <= g2 < |groups| && 0 <= c2 < |groups[g2].children| &&
      groups[g1].children[c1].id == groups[g2].children[c2].id
      ==> g1 == g2 && c1 == c2
  }

  function FindRow(rows: seq<Row>, id: nat): (r: Option<nat>)
    ensures r.Some? ==> r.value < |rows| && rows[r.value].id == id
    ensures r.None? ==> forall c :: 0 <= c < |rows| ==> rows[c].id != id
  {
    if rows == [] then None
    else if rows[0].id == id then Some(0)
    else match FindRow(rows[1..], id)
      case None => None
      case Some(c) => Some(c + 1)
  }

  /** The group and position of the file row with item id `id`. */
  function Locate(groups: seq<Group>, id: nat): (r: Option<(nat, nat)>)
    ensures r.Some? ==> r.value.0 < |groups| && r.value.1 < |groups[r.value.0].children|
                        && groups[r.value.0].children[r.value.1].id == id
    ensures r.None? ==> !HasChild(groups, id)
  {
    if groups == [] then None
    else match FindRow(groups[0].children, id)
      case Some(c) => Some((0, c))
      case None =>
        match Locate(groups[1..], id)
        case None =>
          assert forall g, c :: 1 <= g < |groups| && 0 <= c < |groups[g].children|
                                ==> groups[g].children[c].id == groups[1..][g - 1].children[c].id;
          None
        case Some(p) => Some((p.0 + 1, p.1))
  }

  /** With unique ids, `Locate` finds the one row that carries the id. */
  lemma LocateUnique(groups: seq<Group>, g: nat, c: nat)
    requires UniqueIds(groups)
    requires g < |groups| && c < |groups[g].children|
    ensures Locate(groups, groups[g].children[c].id) == Some((g, c))
  {
    assert HasChild(groups, groups[g].children[c].id);
  }

  // ---------------------------------------------------------------------
  // Rewriting tags
  // ---------------------------------------------------------------------

  /** Rows with their tags replaced by `f`. */
  function Retagged(rows: seq<Row>, f: Row -> seq<string>): (r: seq<Row>)
    ensures |r| == |rows|
    ensures forall c :: 0 <= c < |rows| ==> r[c] == rows[c].(tags := f(rows[c]))
  {
    seq(|rows|, c requires 0 <= c < |rows| => rows[c].(tags := f(rows[c])))
  }

  /** Every file row of the tree with its tags replaced by `f`. */
  function RetagAll(groups: seq<Group>, f: Row -> seq<string>): (r: seq<Group>)
    ensures |r| == |groups|
    ensures forall g :: 0 <= g < |groups| ==> r[g] == groups[g].(children := Retagged(groups[g].children, f))
  {
    seq(|groups|, g requires 0 <= g < |groups| => groups[g].(children := Retagged(groups[g].children, f)))
  }

  /** Two rewrites that agree on every row of the tree give the same tree. */
  lemma RetagAllAgree(groups: seq<Group>, f1: Row -> seq<string>, f2: Row -> seq<string>)
    requires forall g, c :: 0 <= g < |groups| && 0 <= c < |groups[g].children|
                           ==> f1(groups[g].children[c]) == f2(groups[g].children[c])
    ensures RetagAll(groups, f1) == RetagAll(groups, f2)
  {
    forall g | 0 <= g < |groups|
      ensures Retagged(groups[g].children, f1) == Retagged(groups[g].children, f2)
    {
    }
  }

  /** Rewriting twice is rewriting once with the composition. */
  lemma RetagTwice(groups: seq<Group>, f1: Row -> seq<string>, f2: Row -> seq<string>)
    ensures RetagAll(RetagAll(groups, f1), f2) == RetagAll(groups, (r: Row) => f2(r.(tags := f1(r))))
  {
    var f := (r: Row) => f2(r.(tags := f1(r)));
    forall g | 0 <= g < |groups|
      ensures Retagged(Retagged(groups[g].children, f1), f2) == Retagged(groups[g].children, f)
    {
    }
  }

  lemma RetagKeepsIds(groups: seq<Group>, f: Row -> seq<string>)
    requires UniqueIds(groups)
    ensures UniqueIds(RetagAll(groups, f))
  {
  }

  /** The tree with the tags of the row at (g, c) set to `tags`. */
  function SetTags(groups: seq<Group>, g: nat, c: nat, tags: seq<string>): seq<Group>
    requires g < |groups| && c < |groups[g].children|
  {
    groups[g := groups[g].(children := groups[g].children[c := groups[g].children[c].(tags := tags)])]
  }

  /** The rewrite that applies `f` to the row with id `id` only. */
  function OnlyId(id: nat, f: Row -> seq<string>): Row -> seq<string> {
    (r: Row) => if r.id == id then f(r) else r.tags
  }

  /** With unique ids, setting one row's tags is rewriting that id only. */
  lemma SetTagsIsRetag(groups: seq<Group>, g: nat, c: nat, f: Row -> seq<string>)
    requires UniqueIds(groups)
    requires g < |groups| && c < |groups[g].children|
    ensures SetTags(groups, g, c, f(groups[g].children[c]))
         == RetagAll(groups, OnlyId(groups[g].children[c].id, f))
  {
    var id := groups[g].children[c].id;
    var a := SetTags(groups, g, c, f(groups[g].children[c]));
    var b := RetagAll(groups, OnlyId(id, f));
    forall i | 0 <= i < |groups|
      ensures a[i] == b[i]
    {
      forall j | 0 <= j < |groups[i].children|
        ensures a[i].children[j] == b[i].children[j]
      {
        if i != g || j != c {
          assert groups[i].children[j].id != id;
        }
      }
    }
  }

  // ---------------------------------------------------------------------
  // check_match (file_list.py:253-285)
  // ---------------------------------------------------------------------

  /** The text a pattern is matched against: the path when searching in
      paths and the row has a non-empty path, else the file name, with
      every " - Copy" removed (case-sensitively). */
  function MatchText(filename: string, filepath: Option<string>, searchInPath: bool): string {
    var source := if searchInPath && filepath.Some? && filepath.value != [] then filepath.value else filename;
    ReplaceAll(source, CopySuffix, "")
  }

  function CheckMatch(pattern: string, filename: string, filepath: Option<string>,
                      searchInPath: bool, useRegex: bool, m: Matchers): bool
  {
    if pattern == [] then false
    else
      var text := MatchText(filename, filepath, searchInPath);
      if useRegex then m.regexSearch(pattern, text) == Some(true)
      else if '*' in pattern || '?' in pattern then m.wildcard(LowerStr(text), LowerStr(pattern))
      else Contains(LowerStr(text), LowerStr(pattern))
  }

  /** Whether a file row matches the filter. */
  function Matches(fs: FilterSettings, r: Row): bool {
    CheckMatch(fs.pattern, r.text, Some(r.path), fs.searchInPath, fs.useRegex, fs.matchers)
  }

  /** A plain pattern (no regular expression, no wildcard) matches a file
      name that contains it and no " - Copy", whatever the case of
      either. */
  lemma PlainPatternMatchesName(pattern: string, filename: string, m: Matchers)
    requires pattern != [] && '*' !in pattern && '?' !in pattern
    requires Contains(LowerStr(filename), LowerStr(pattern))
    requires !Contains(filename, CopySuffix)
    ensures CheckMatch(pattern, filename, None, false, false, m)
  {
    ReplaceAllAbsent(filename, CopySuffix, "");
  }

  /** A plain pattern matches exactly when its lower-cased form does. */
  lemma PlainPatternIgnoresCase(pattern: string, filename: string, filepath: Option<string>,
                                searchInPath: bool, m: Matchers)
    requires '*' !in pattern && '?' !in pattern
    ensures CheckMatch(pattern, filename, filepath, searchInPath, false, m)
        == CheckMatch(LowerStr(pattern), filename, filepath, searchInPath, false, m)
  {
    LowerStrIdempotent(pattern);
    assert '*' !in LowerStr(pattern) && '?' !in LowerStr(pattern) by {
      forall i | 0 <= i < |pattern|
        ensures LowerStr(pattern)[i] != '*' && LowerStr(pattern)[i] != '?'
      {
        assert pattern[i] != '*' && pattern[i] != '?';
      }
    }
  }

  /** " - Copy" is removed before lower-casing, so a differently cased
      copy marker stays in the text and can be matched. */
  lemma CopyRemovalIsCaseSensitive(m: Matchers)
    ensures !CheckMatch("copy", "a - Copy", None, false, false, m)
    ensures CheckMatch("copy", "a - COPY", None, false, false, m)
  {
    CopyMarkerRemoved();
    CapitalMarkerKept();
    CopyPatternIsPlain("copy");
    LowerCopyFound();
    assert !Contains(LowerStr("a"), LowerStr("copy"));
  }

  lemma CopyPatternIsPlain(p: string)
    requires p == "copy"
    ensures '*' !in p && '?' !in p && LowerStr(p) == "copy"
  {
  }

  lemma LowerCopyFound()
    ensures Contains(LowerStr("a - COPY"), "copy")
  {
    assert LowerStr("a - COPY")[4..8] == "copy";
    assert OccursAt(LowerStr("a - COPY"), "copy", 4);
  }

  lemma CopyMarkerRemoved()
    ensures MatchText("a - Copy", None, false) == "a"
  {
    var s := "a - Copy";
    assert s[..7] != CopySuffix by {
      assert s[0] != CopySuffix[0];
    }
    assert s[1..] == CopySuffix;
    assert ReplaceAll(CopySuffix, CopySuffix, "") == "" by {
      assert CopySuffix[7..] == [];
    }
  }

  lemma CapitalMarkerKept()
    ensures MatchText("a - COPY", None, false) == "a - COPY"
  {
    var s := "a - COPY";
    assert !Contains(s, CopySuffix) by {
      forall i | 0 <= i <= |s|
        ensures !OccursAt(s, CopySuffix, i)
      {
        if i + 7 <= |s| {
          assert s[i..i + 7][5] != CopySuffix[5];
        }
      }
    }
    ReplaceAllAbsent(s, CopySuffix, "");
  }

  // ---------------------------------------------------------------------
  // toggle_item_status, mark_selected_* (file_list.py:61-96, 188-214)
  // ---------------------------------------------------------------------

  /** The rewrite that applies a tag function to every row. */
  function TagsOf(f: seq<string> -> seq<string>): Row -> seq<string> {
    (r: Row) => f(r.tags)
  }

  /** A rewrite that leaves every row's tags as they are leaves the tree. */
  lemma RetagNothing(groups: seq<Group>, f: Row -> seq<string>)
    requires forall g, c :: 0 <= g < |groups| && 0 <= c < |groups[g].children|
                           ==> f(groups[g].children[c]) == groups[g].children[c].tags
    ensures RetagAll(groups, f) == groups
  {
    forall g | 0 <= g < |groups|
      ensures Retagged(groups[g].children, f) == groups[g].children
    {
    }
  }

  /** The tree after a toggle request: nothing for no item or a group
      row, the toggled tags for a file row. */
  function ToggleAt(groups: seq<Group>, item: Option<nat>): seq<Group> {
    if item.None? then groups
    else match Locate(groups, item.value)
      case None => groups
      case Some(p) => SetTags(groups, p.0, p.1, Toggled(groups[p.0].children[p.1].tags))
  }

  /** Toggling the item `id` toggles the file row with that id, if there is
      one, and changes no other row and no group row. */
  lemma ToggleOnlyThatRow(groups: seq<Group>, id: nat)
    requires UniqueIds(groups)
    ensures ToggleAt(groups, Some(id)) == RetagAll(groups, OnlyId(id, TagsOf(Toggled)))
  {
    match Locate(groups, id)
    case None =>
      RetagNothing(groups, OnlyId(id, TagsOf(Toggled)));
    case Some(p) =>
      SetTagsIsRetag(groups, p.0, p.1, TagsOf(Toggled));
  }

  /** `toggle_selected_status`: each selected item in turn. */
  function ToggleAll(groups: seq<Group>, items: seq<nat>): seq<Group>
    decreases |items|
  {
    if items == [] then groups
    else ToggleAt(ToggleAll(groups, items[..|items| - 1]), Some(items[|items| - 1]))
  }

  function MarkOne(groups: seq<Group>, id: nat, keep: bool): seq<Group> {
    match Locate(groups, id)
    case None => groups
    case Some(p) => SetTags(groups, p.0, p.1, Marked(groups[p.0].children[p.1].tags, keep))
  }

  /** The selected items marked one after the other. */
  function MarkAll(groups: seq<Group>, ids: seq<nat>, keep: bool): seq<Group>
    decreases |ids|
  {
    if ids == [] then groups
    else MarkOne(MarkAll(groups, ids[..|ids| - 1], keep), ids[|ids| - 1], keep)
  }

  /** The rewrite that marks the rows whose id is in `ids`. */
  function MarkIn(ids: seq<nat>, keep: bool): Row -> seq<string> {
    (r: Row) => if r.id in ids then Marked(r.tags, keep) else r.tags
  }

  /** Marking a selection marks exactly the selected file rows, each once,
      and changes nothing else; selected group rows are skipped. */
  lemma {:induction false} MarkSelectionRetags(groups: seq<Group>, ids: seq<nat>, keep: bool)
    requires UniqueIds(groups)
    requires forall i, j :: 0 <= i < j < |ids| ==> ids[i] != ids[j]
    ensures MarkAll(groups, ids, keep) == RetagAll(groups, MarkIn(ids, keep))
    decreases |ids|
  {
    if ids == [] {
      RetagNothing(groups, MarkIn(ids, keep));
    } else {
      var n := |ids| - 1;
      var front := ids[..n];
      MarkSelectionRetags(groups, front, keep);
      assert ids[n] !in front;
      MarkOneRetags(groups, front, ids[n], keep);
      assert ids == front + [ids[n]];
    }
  }

  /** Marking one more row, not marked before, after the rows of `front`. */
  lemma MarkOneRetags(groups: seq<Group>, front: seq<nat>, id: nat, keep: bool)
    requires UniqueIds(groups)
    requires id !in front
    ensures MarkOne(RetagAll(groups, MarkIn(front, keep)), id, keep)
         == RetagAll(groups, MarkIn(front + [id], keep))
  {
    var x := RetagAll(groups, MarkIn(front, keep));
    RetagKeepsIds(groups, MarkIn(front, keep));
    match Locate(x, id)
    case None => MarkOneAbsent(groups, front, id, keep);
    case Some(p) => MarkOnePresent(groups, front, id, keep, p);
  }

  lemma MarkOneAbsent(groups: seq<Group>, front: seq<nat>, id: nat, keep: bool)
    requires UniqueIds(groups)
    requires Locate(RetagAll(groups, MarkIn(front, keep)), id).None?
    ensures MarkOne(RetagAll(groups, MarkIn(front, keep)), id, keep)
         == RetagAll(groups, MarkIn(front + [id], keep))
  {
    var ids := front + [id];
    var x := RetagAll(groups, MarkIn(front, keep));
    RetagKeepsIds(groups, MarkIn(front, keep));
    forall g, c | 0 <= g < |groups| && 0 <= c < |groups[g].children|
      ensures MarkIn(front, keep)(groups[g].children[c]) == MarkIn(ids, keep)(groups[g].children[c])
    {
      assert x[g].children[c].id == groups[g].children[c].id;
      assert groups[g].children[c].id in ids <==> groups[g].children[c].id in front;
    }
    RetagAllAgree(groups, MarkIn(front, keep), MarkIn(ids, keep));
  }

  lemma MarkOnePresent(groups: seq<Group>, front: seq<nat>, id: nat, keep: bool, p: (nat, nat))
    requires UniqueIds(groups)
    requires id !in front
    requires Locate(RetagAll(groups, MarkIn(front, keep)), id) == Some(p)
    ensures MarkOne(RetagAll(groups, MarkIn(front, keep)), id, keep)
         == RetagAll(groups, MarkIn(front + [id], keep))
  {
    var ids := front + [id];
    var x := RetagAll(groups, MarkIn(front, keep));
    RetagKeepsIds(groups, MarkIn(front, keep));
    assert forall k :: k in ids <==> k in front || k == id;
    var mark := (r: Row) => Marked(r.tags, keep);
    SetTagsIsRetag(x, p.0, p.1, mark);
    RetagTwice(groups, MarkIn(front, keep), OnlyId(id, mark));
    var both := (r: Row) => OnlyId(id, mark)(r.(tags := MarkIn(front, keep)(r)));
    RetagAllAgree(groups, both, MarkIn(ids, keep));
  }

  /** `mark_filtered_*`: the rows that match the filter, when there is one. */
  function MarkWhere(fs: FilterSettings, keep: bool): Row -> seq<string> {
    (r: Row) => if Matches(fs, r) then Marked(r.tags, keep) else r.tags
  }

  // ---------------------------------------------------------------------
  // apply_filter (file_list.py:347-381)
  // ---------------------------------------------------------------------

  function FilterRowTags(fs: FilterSettings): Row -> seq<string> {
    (r: Row) => FilterTagged(r.tags, Matches(fs, r))
  }

  function AnyMatch(rows: seq<Row>, fs: FilterSettings): bool {
    exists c :: 0 <= c < |rows| && Matches(fs, rows[c])
  }

  /** A group after filtering: its rows re-tagged, and open when the
      filter is empty or one of its rows matches. */
  function FilterGroup(grp: Group, fs: FilterSettings): Group {
    grp.(children := Retagged(grp.children, FilterRowTags(fs)),
         open := fs.pattern == [] || AnyMatch(grp.children, fs))
  }

  function FilterAll(groups: seq<Group>, fs: FilterSettings): (r: seq<Group>)
    ensures |r| == |groups|
    ensures forall g :: 0 <= g < |groups| ==> r[g] == FilterGroup(groups[g], fs)
  {
    seq(|groups|, g requires 0 <= g < |groups| => FilterGroup(groups[g], fs))
  }

  /** After filtering, a row that carried "filtered" at most once carries
      it exactly when it matches, in front, still at most once, and keeps
      its other tags; a group with an empty filter is open. */
  lemma FilterEffect(groups: seq<Group>, fs: FilterSettings, g: nat, c: nat)
    requires g < |groups| && c < |groups[g].children|
    requires Count(groups[g].children[c].tags, Filtered) <= 1
    ensures var old_ := groups[g].children[c];
      var new_ := FilterAll(groups, fs)[g].children[c];
      && new_.(tags := old_.tags) == old_
      && (Filtered in new_.tags <==> Matches(fs, old_))
      && (Matches(fs, old_) ==> new_.tags[0] == Filtered)
      && Count(new_.tags, Filtered) <= 1
      && Without(new_.tags, {Filtered}) == Without(old_.tags, {Filtered})
    ensures FilterAll(groups, fs)[g].open <==> fs.pattern == [] || AnyMatch(groups[g].children, fs)
  {
    FilterTagEffect(groups[g].children[c].tags, Matches(fs, groups[g].children[c]));
  }

  /** Rows carry "filtered" at most once. */
  predicate FilterTagOnce(groups: seq<Group>) {
    forall g, c :: 0 <= g < |groups| && 0 <= c < |groups[g].children|
                   ==> Count(groups[g].children[c].tags, Filtered) <= 1
  }

  /** Filtering again with the same settings changes nothing. */
  lemma FilterIdempotent(groups: seq<Group>, fs: FilterSettings)
    requires FilterTagOnce(groups)
    ensures FilterAll(FilterAll(groups, fs), fs) == FilterAll(groups, fs)
  {
    var once := FilterAll(groups, fs);
    forall g | 0 <= g < |groups|
      ensures FilterGroup(once[g], fs) == once[g]
    {
      var rows := groups[g].children;
      forall c | 0 <= c < |rows|
        ensures FilterRowTags(fs)(once[g].children[c]) == once[g].children[c].tags
      {
        FilterTaggedIdempotent(rows[c].tags, Matches(fs, rows[c]));
      }
      assert AnyMatch(once[g].children, fs) == AnyMatch(rows, fs) by {
        assert forall c :: 0 <= c < |rows| ==> Matches(fs, once[g].children[c]) == Matches(fs, rows[c]);
      }
    }
  }

  // ---------------------------------------------------------------------
  // apply_base_suggestions (duplicate_logic.py:89-120)
  // ---------------------------------------------------------------------

  function SuggestRowTags(base: string, smartSelect: bool): Row -> seq<string> {
    (r: Row) => Suggested(r.tags, r.path == base, smartSelect)
  }

  /** One group after the suggestion pass: unchanged when its key is not a
      duplicate key, else its rows re-tagged against the file `min` picks,
      or the error `min` raises. */
  function SuggestGroup(grp: Group, duplicates: map<string, seq<string>>,
                        key: string -> seq<Ranking.KeyItem>, smartSelect: bool): Result<Group, Ranking.Failure>
  {
    if grp.text !in duplicates then Ok(grp)
    else match Ranking.MinBy(duplicates[grp.text], key)
      case Err(e) => Err(e)
      case Ok(base) => Ok(grp.(children := Retagged(grp.children, SuggestRowTags(base, smartSelect))))
  }

  /** The pass over all groups, left to right. An error stops it: the
      groups before the failing one are updated, it and the rest are not. */
  function Suggest(groups: seq<Group>, duplicates: map<string, seq<string>>,
                   key: string -> seq<Ranking.KeyItem>, smartSelect: bool): (seq<Group>, Option<Ranking.Failure>)
    decreases |groups|
  {
    if groups == [] then ([], None)
    else match SuggestGroup(groups[0], duplicates, key, smartSelect)
      case Err(e) => (groups, Some(e))
      case Ok(grp) =>
        var rest := Suggest(groups[1..], duplicates, key, smartSelect);
        ([grp] + rest.0, rest.1)
  }

  /** In a duplicate group the pass picks a file of the group's list with
      no smaller key than any other, and re-tags each non-manual row
      against it; a manual row and a unique group are left alone. */
  lemma SuggestGroupEffect(grp: Group, duplicates: map<string, seq<string>>,
                           key: string -> seq<Ranking.KeyItem>, smartSelect: bool, c: nat)
    requires SuggestGroup(grp, duplicates, key, smartSelect).Ok?
    requires c < |grp.children|
    ensures var new_ := SuggestGroup(grp, duplicates, key, smartSelect).value;
      && new_.(children := grp.children) == grp
      && |new_.children| == |grp.children|
      && new_.children[c].(tags := grp.children[c].tags) == grp.children[c]
      && (grp.text !in duplicates ==> new_ == grp)
      && (Manual in grp.children[c].tags ==> new_.children[c] == grp.children[c])
    ensures grp.text in duplicates ==>
      var files := duplicates[grp.text];
      var base := Ranking.MinBy(files, key).value;
      && base in files
      && (forall p :: p in files ==> Ranking.TupleLess(key(p), key(base)) == Ok(false))
      && SuggestGroup(grp, duplicates, key, smartSelect).value.children[c].tags
         == Suggested(grp.children[c].tags, grp.children[c].path == base, smartSelect)
  {
    SuggestedEffect(grp.children[c].tags, false, smartSelect);
    if grp.text in duplicates {
      var files := duplicates[grp.text];
      var j := Ranking.MinByIsFirstMinimum(files, key);
    }
  }

  /** A pass that raised no error updated every group. */
  lemma {:induction false} SuggestComplete(groups: seq<Group>, duplicates: map<string, seq<string>>,
                                           key: string -> seq<Ranking.KeyItem>, smartSelect: bool)
    requires Suggest(groups, duplicates, key, smartSelect).1.None?
    ensures |Suggest(groups, duplicates, key, smartSelect).0| == |groups|
    ensures forall g :: 0 <= g < |groups| ==>
      SuggestGroup(groups[g], duplicates, key, smartSelect).Ok? &&
      Suggest(groups, duplicates, key, smartSelect).0[g] == SuggestGroup(groups[g], duplicates, key, smartSelect).value
    decreases |groups|
  {
    if groups != [] {
      SuggestComplete(groups[1..], duplicates, key, smartSelect);
      forall g | 1 <= g < |groups|
        ensures groups[g] == groups[1..][g - 1]
      {
      }
    }
  }

  /** With the comparison always defined, the pass never stops early. */
  lemma {:induction false} SuggestNeverFailsWithoutErrors(groups: seq<Group>, duplicates: map<string, seq<string>>,
                                                          key: string -> seq<Ranking.KeyItem>, smartSelect: bool)
    requires forall g :: 0 <= g < |groups| && groups[g].text in duplicates ==>
      Ranking.MinBy(duplicates[groups[g].text], key).Ok?
    ensures Suggest(groups, duplicates, key, smartSelect).1.None?
    decreases |groups|
  {
    if groups != [] {
      assert forall g :: 1 <= g < |groups| ==> groups[1..][g - 1] == groups[g];
      SuggestNeverFailsWithoutErrors(groups[1..], duplicates, key, smartSelect);
    }
  }

  // ---------------------------------------------------------------------
  // sort_tree (file_list.py:383-478)
  // ---------------------------------------------------------------------

  /** `get_sort_text`: the lower-cased file name or path. */
  function SortText(col: Column): Row -> string {
    (r: Row) => LowerStr(if col == Filename then r.text else r.path)
  }

  function IsMarked(r: Row): bool {
    ToRemove in r.tags || Base in r.tags
  }

  function IsUnmarked(r: Row): bool {
    !IsMarked(r)
  }

  /** The children of a group in their new order: marked rows first, then
      unmarked ones, each part sorted by its text. Sorting by the pair
      (0 if marked else 1, text), as the ascending case does, gives this
      same order since the sort is stable. */
  function SortChildren(rows: seq<Row>, col: Column, reverse: bool): seq<Row> {
    SortBy(Keep(rows, IsMarked), SortText(col), reverse)
      + SortBy(Keep(rows, IsUnmarked), SortText(col), reverse)
  }

  function IsDuplicateGroup(grp: Group): bool {
    DuplicateGroupTag in grp.tags
  }

  function IsUniqueGroup(grp: Group): bool {
    !IsDuplicateGroup(grp)
  }

  function GroupText(grp: Group): string {
    LowerStr(grp.text)
  }

  /** The groups in their new order: duplicate groups, then the others,
      each section sorted by lower-cased text. */
  function GroupOrder(groups: seq<Group>, reverse: bool): seq<Group> {
    SortBy(Keep(groups, IsDuplicateGroup), GroupText, reverse)
      + SortBy(Keep(groups, IsUniqueGroup), GroupText, reverse)
  }

  function SortGroups(groups: seq<Group>, col: Column, reverse: bool): (r: seq<Group>)
    ensures |r| == |GroupOrder(groups, reverse)|
    ensures forall i :: 0 <= i < |r| ==> r[i].tags == GroupOrder(groups, reverse)[i].tags
  {
    MapGroups(GroupOrder(groups, reverse), ResortBy(col, reverse))
  }

  /** A group with its children sorted. */
  function ResortBy(col: Column, reverse: bool): Group -> Group {
    (g: Group) => g.(children := SortChildren(g.children, col, reverse))
  }

  /** `f` applied to each group, in order. */
  function MapGroups(gs: seq<Group>, f: Group -> Group): (r: seq<Group>)
    ensures |r| == |gs|
    ensures forall i :: 0 <= i < |gs| ==> r[i] == f(gs[i])
  {
    if gs == [] then []
    else MapGroups(gs[..|gs| - 1], f) + [f(gs[|gs| - 1])]
  }

  /** The loop of `sort_tree`: each group moved to its new place, in
      order, and then `f` (the sorting of its children) applied to it. */
  method MoveGroups(allGroups: seq<Group>, f: Group -> Group) returns (moved: seq<Group>)
    ensures moved == MapGroups(allGroups, f)
  {
    moved := [];
    var index := 0;
    while index < |allGroups|
      invariant 0 <= index <= |allGroups|
      invariant moved == MapGroups(allGroups[..index], f)
    {
      assert allGroups[..index + 1][..index] == allGroups[..index];
      moved := moved + [f(allGroups[index])];
      index := index + 1;
    }
    assert allGroups[..index] == allGroups;
  }

  /** Sorted children: the marked rows come first, each part is in order,
      the rows are a permutation of the old ones, and rows with the same
      text keep their relative order. */
  lemma SortChildrenEffect(rows: seq<Row>, col: Column, reverse: bool)
    ensures var r := SortChildren(rows, col, reverse);
      var m := |Keep(rows, IsMarked)|;
      && m <= |r|
      && (forall c :: 0 <= c < m ==> IsMarked(r[c]))
      && (forall c :: m <= c < |r| ==> !IsMarked(r[c]))
      && SortedBy(r[..m], SortText(col), reverse)
      && SortedBy(r[m..], SortText(col), reverse)
      && multiset(r) == multiset(rows)
  {
    PartitionSortEffect(rows, IsMarked, IsUnmarked, SortText(col), reverse);
  }

  /** The new group order: all duplicate groups come first, each section
      is in order of lower-cased text, and the groups are a permutation of
      the old ones. */
  lemma GroupOrderEffect(groups: seq<Group>, reverse: bool)
    ensures var order := GroupOrder(groups, reverse);
      var k := |Keep(groups, IsDuplicateGroup)|;
      && multiset(order) == multiset(groups)
      && |order| == |groups| && k <= |order|
      && (forall i :: 0 <= i < k ==> IsDuplicateGroup(order[i]))
      && (forall i :: k <= i < |order| ==> !IsDuplicateGroup(order[i]))
      && SortedBy(order[..k], GroupText, reverse)
      && SortedBy(order[k..], GroupText, reverse)
  {
    PartitionSortEffect(groups, IsDuplicateGroup, IsUniqueGroup, GroupText, reverse);
  }

  /** Sorted groups keep the new group order's section of duplicate
      groups in front, each group with its children sorted. */
  lemma SortGroupsEffect(groups: seq<Group>, col: Column, reverse: bool)
    ensures var r := SortGroups(groups, col, reverse);
      var k := |Keep(groups, IsDuplicateGroup)|;
      && |r| == |groups| && k <= |r|
      && (forall i :: 0 <= i < k ==> IsDuplicateGroup(r[i]))
      && (forall i :: k <= i < |r| ==> !IsDuplicateGroup(r[i]))
  {
    GroupOrderEffect(groups, reverse);
    var order := GroupOrder(groups, reverse);
    var r := SortGroups(groups, col, reverse);
    assert forall i :: 0 <= i < |r| ==> r[i].tags == order[i].tags;
  }

  // ---------------------------------------------------------------------
  // _execute_deletion (file_list.py:561-681): the bookkeeping
  // ---------------------------------------------------------------------

  /** The tree and the two maps of the view that a deletion keeps in step. */
  datatype Books = Books(groups: seq<Group>, duplicates: map<string, seq<string>>,
                         nonDuplicates: map<string, seq<string>>)

  /** The state of the deletion loop: the books, `parents_to_check` and
      `deleted_count`. */
  datatype Deletion = Deletion(books: Books, parents: set<nat>, count: nat)

  /** The file system as a deletion sees it: `os.path.exists`, and whether
      moving the file to the recycle bin (or `os.remove`) succeeds. Both
      are asked about the native path. */
  datatype Disk = Disk(present: string -> bool, removes: string -> bool)

  /** `path.replace('/', os.sep)`, with the Windows separator. */
  function NativePath(p: string): (r: string)
    ensures |r| == |p|
    ensures forall i :: 0 <= i < |p| ==> r[i] == (if p[i] == '/' then '\\' else p[i])
  {
    ReplaceChar(p, '/', '\\')
  }

  /** Turning a stored path (slashes only, as the scan stores them) into
      its native form and back gives the stored path again, so the map
      entry that is looked for is the row's own path. */
  lemma NativePathRoundTrip(p: string)
    requires forall i :: 0 <= i < |p| ==> p[i] != '\\'
    ensures SlashPath(NativePath(p)) == p
  {
  }

  /** The row `c` of group `g` leaves the tree, and one copy of its path
      leaves the list of the group's key: in `duplicates` when the key is
      there, otherwise in `non_duplicates`. */
  function RemoveFile(b: Books, g: nat, c: nat): (r: Books)
    requires g < |b.groups| && c < |b.groups[g].children|
    ensures |r.groups| == |b.groups|
    ensures forall k :: 0 <= k < |b.groups| && k != g ==> r.groups[k] == b.groups[k]
    ensures r.groups[g].(children := b.groups[g].children) == b.groups[g]
    ensures |r.groups[g].children| == |b.groups[g].children| - 1
    ensures r.duplicates.Keys == b.duplicates.Keys && r.nonDuplicates.Keys == b.nonDuplicates.Keys
  {
    var grp := b.groups[g];
    var path := SlashPath(NativePath(grp.children[c].path));
    var groups := b.groups[g := grp.(children := grp.children[..c] + grp.children[c + 1..])];
    if grp.text in b.duplicates then
      Books(groups, b.duplicates[grp.text := RemoveFirst(b.duplicates[grp.text], path)], b.nonDuplicates)
    else if grp.text in b.nonDuplicates then
      Books(groups, b.duplicates, b.nonDuplicates[grp.text := RemoveFirst(b.nonDuplicates[grp.text], path)])
    else Books(groups, b.duplicates, b.nonDuplicates)
  }

  /** Exactly one copy of the deleted path leaves its group's list, and
      every other list is untouched. */
  lemma RemoveFileLists(b: Books, g: nat, c: nat, key: string)
    requires g < |b.groups| && c < |b.groups[g].children|
    ensures var r := RemoveFile(b, g, c);
      var text := b.groups[g].text;
      var path := SlashPath(NativePath(b.groups[g].children[c].path));
      && (key in b.duplicates ==>
            multiset(r.duplicates[key])
              == multiset(b.duplicates[key]) - (if key == text then multiset{path} else multiset{}))
      && (key in b.nonDuplicates ==>
            multiset(r.nonDuplicates[key])
              == multiset(b.nonDuplicates[key])
                 - (if key == text && text !in b.duplicates then multiset{path} else multiset{}))
  {
    var text := b.groups[g].text;
    var path := SlashPath(NativePath(b.groups[g].children[c].path));
    if key == text && text in b.duplicates {
      RemoveFirstMultiset(b.duplicates[key], path);
    } else if key == text && text in b.nonDuplicates {
      RemoveFirstMultiset(b.nonDuplicates[key], path);
    }
  }

  /** The file row with item id `id`, if the tree has one. */
  function RowOf(groups: seq<Group>, id: nat): (r: Option<Row>)
    ensures r.Some? <==> HasChild(groups, id)
    ensures r.Some? ==> r.value.id == id
  {
    match Locate(groups, id)
    case None => None
    case Some(loc) => Some(groups[loc.0].children[loc.1])
  }

  /** Where a row of the tree after `RemoveFile(b, g, c)` sat before. */
  function OldColumn(g: nat, c: nat, k: nat, j: nat): nat {
    if k == g && j >= c then j + 1 else j
  }

  /** Every row after the removal is the row at its old place. */
  lemma RemoveFileMoves(b: Books, g: nat, c: nat)
    requires g < |b.groups| && c < |b.groups[g].children|
    ensures MovedFrom(RemoveFile(b, g, c).groups, b.groups, g, c)
  {
  }

  /** Removing a row keeps the item ids unique. */
  lemma RemoveFileUnique(b: Books, g: nat, c: nat)
    requires UniqueIds(b.groups)
    requires g < |b.groups| && c < |b.groups[g].children|
    ensures UniqueIds(RemoveFile(b, g, c).groups)
  {
    var r := RemoveFile(b, g, c).groups;
    RemoveFileMoves(b, g, c);
    forall g1, c1, g2, c2 |
      0 <= g1 < |r| && 0 <= c1 < |r[g1].children| &&
      0 <= g2 < |r| && 0 <= c2 < |r[g2].children| &&
      r[g1].children[c1].id == r[g2].children[c2].id
      ensures g1 == g2 && c1 == c2
    {
      assert b.groups[g1].children[OldColumn(g, c, g1, c1)].id
          == b.groups[g2].children[OldColumn(g, c, g2, c2)].id;
    }
  }

  /** Removing a row takes away its id and nothing else: every other id
      still finds the row it found before. */
  lemma RemoveFileRows(b: Books, g: nat, c: nat, id: nat)
    requires UniqueIds(b.groups)
    requires g < |b.groups| && c < |b.groups[g].children|
    ensures RowOf(RemoveFile(b, g, c).groups, id)
         == if id == b.groups[g].children[c].id then None else RowOf(b.groups, id)
  {
    var r := RemoveFile(b, g, c).groups;
    RemoveFileMoves(b, g, c);
    RemoveFileUnique(b, g, c);
    if id == b.groups[g].children[c].id {
      RemovedIdGone(b.groups, r, g, c);
    } else {
      OtherIdsKept(b.groups, r, g, c, id);
    }
  }

  /** `r` is `groups` with the row `c` of group `g` taken out. */
  predicate MovedFrom(r: seq<Group>, groups: seq<Group>, g: nat, c: nat)
    requires g < |groups| && c < |groups[g].children|
  {
    && |r| == |groups|
    && (forall k :: 0 <= k < |r| && k != g ==> |r[k].children| == |groups[k].children|)
    && |r[g].children| == |groups[g].children| - 1
    && forall k, j :: 0 <= k < |r| && 0 <= j < |r[k].children| ==>
         OldColumn(g, c, k, j) < |groups[k].children|
         && r[k].children[j] == groups[k].children[OldColumn(g, c, k, j)]
         && (k, OldColumn(g, c, k, j)) != (g, c)
  }

  lemma RemovedIdGone(groups: seq<Group>, r: seq<Group>, g: nat, c: nat)
    requires UniqueIds(groups)
    requires g < |groups| && c < |groups[g].children|
    requires MovedFrom(r, groups, g, c)
    ensures !HasChild(r, groups[g].children[c].id)
  {
    var id := groups[g].children[c].id;
    forall k, j | 0 <= k < |r| && 0 <= j < |r[k].children|
      ensures r[k].children[j].id != id
    {
      assert (k, OldColumn(g, c, k, j)) != (g, c);
    }
  }

  lemma OtherIdsKept(groups: seq<Group>, r: seq<Group>, g: nat, c: nat, id: nat)
    requires UniqueIds(groups) && UniqueIds(r)
    requires g < |groups| && c < |groups[g].children|
    requires MovedFrom(r, groups, g, c)
    requires id != groups[g].children[c].id
    ensures RowOf(r, id) == RowOf(groups, id)
  {
    if HasChild(groups, id) {
      var k, j :| 0 <= k < |groups| && 0 <= j < |groups[k].children| && groups[k].children[j].id == id;
      KeptRowFound(groups, r, g, c, k, j);
    } else {
      AbsentRowStaysAbsent(groups, r, g, c, id);
    }
  }

  lemma KeptRowFound(groups: seq<Group>, r: seq<Group>, g: nat, c: nat, k: nat, j: nat)
    requires UniqueIds(groups) && UniqueIds(r)
    requires g < |groups| && c < |groups[g].children|
    requires MovedFrom(r, groups, g, c)
    requires k < |groups| && j < |groups[k].children| && (k, j) != (g, c)
    ensures RowOf(r, groups[k].children[j].id) == Some(groups[k].children[j])
  {
    var nj := if k == g && j > c then j - 1 else j;
    assert nj < |r[k].children|;
    assert OldColumn(g, c, k, nj) == j;
    LocateUnique(r, k, nj);
  }

  lemma AbsentRowStaysAbsent(groups: seq<Group>, r: seq<Group>, g: nat, c: nat, id: nat)
    requires g < |groups| && c < |groups[g].children|
    requires MovedFrom(r, groups, g, c)
    requires !HasChild(groups, id)
    ensures !HasChild(r, id)
  {
    forall k, j | 0 <= k < |r| && 0 <= j < |r[k].children|
      ensures r[k].children[j].id != id
    {
      assert r[k].children[j] == groups[k].children[OldColumn(g, c, k, j)];
    }
  }

  /** Deleting a file succeeds when its path is not empty, the file exists
      and removing it does not fail. */
  predicate Removable(row: Row, disk: Disk) {
    var native := NativePath(row.path);
    native != [] && disk.present(native) && disk.removes(native)
  }

  /** One pass of the first deletion loop, for item `id`. */
  function DeleteOne(d: Deletion, id: nat, disk: Disk): (r: Deletion)
    ensures r.count <= d.count + 1
  {
    match Locate(d.books.groups, id)
    case None => d
    case Some(loc) =>
      if Removable(d.books.groups[loc.0].children[loc.1], disk) then
        Deletion(RemoveFile(d.books, loc.0, loc.1), d.parents + {d.books.groups[loc.0].id}, d.count + 1)
      else d
  }

  /** The first deletion loop over `file_items`. */
  function DeleteFiles(d: Deletion, items: seq<nat>, disk: Disk): Deletion
    decreases |items|
  {
    if items == [] then d
    else DeleteOne(DeleteFiles(d, items[..|items| - 1], disk), items[|items| - 1], disk)
  }

  /** After the loop, a listed row is gone exactly when it was in the tree
      and its file could be removed; every other row is where it was. */
  lemma {:induction false} DeleteFilesRows(d: Deletion, items: seq<nat>, disk: Disk, id: nat)
    requires UniqueIds(d.books.groups)
    ensures UniqueIds(DeleteFiles(d, items, disk).books.groups)
    ensures RowOf(DeleteFiles(d, items, disk).books.groups, id)
         == if id in items && RowOf(d.books.groups, id).Some? && Removable(RowOf(d.books.groups, id).value, disk)
            then None else RowOf(d.books.groups, id)
    decreases |items|
  {
    if items != [] {
      var n := |items| - 1;
      var y := items[n];
      DeleteFilesRows(d, items[..n], disk, id);
      DeleteFilesRows(d, items[..n], disk, y);
      var m := DeleteFiles(d, items[..n], disk);
      assert items == items[..n] + [y];
      match Locate(m.books.groups, y)
      case None =>
      case Some(loc) =>
        if Removable(m.books.groups[loc.0].children[loc.1], disk) {
          RemoveFileUnique(m.books, loc.0, loc.1);
          RemoveFileRows(m.books, loc.0, loc.1, id);
        }
    }
  }

  /** The ids among `items` whose rows the loop deletes. */
  function DeletedIds(groups: seq<Group>, items: seq<nat>, disk: Disk): set<nat> {
    set x | x in items && RowOf(groups, x).Some? && Removable(RowOf(groups, x).value, disk)
  }

  lemma DeletedIdsSnoc(groups: seq<Group>, items: seq<nat>, y: nat, disk: Disk)
    ensures DeletedIds(groups, items + [y], disk)
         == DeletedIds(groups, items, disk)
            + (if RowOf(groups, y).Some? && Removable(RowOf(groups, y).value, disk) then {y} else {})
  {
  }

  /** One pass counts one exactly when the row is found and removable. */
  lemma DeleteOneCount(d: Deletion, id: nat, disk: Disk)
    ensures var row := RowOf(d.books.groups, id);
      DeleteOne(d, id, disk).count == d.count + (if row.Some? && Removable(row.value, disk) then 1 else 0)
  {
  }

  /** With distinct items, `deleted_count` after the loop counts exactly
      the listed rows that were in the tree and whose files could be
      removed. */
  lemma {:induction false} DeleteFilesCount(d: Deletion, items: seq<nat>, disk: Disk)
    requires UniqueIds(d.books.groups)
    requires forall i, j :: 0 <= i < j < |items| ==> items[i] != items[j]
    ensures DeleteFiles(d, items, disk).count == d.count + |DeletedIds(d.books.groups, items, disk)|
    decreases |items|
  {
    if items == [] {
      assert DeletedIds(d.books.groups, items, disk) == {};
    } else {
      var n := |items| - 1;
      var y := items[n];
      var groups := d.books.groups;
      DeleteFilesCount(d, items[..n], disk);
      DeleteFilesRows(d, items[..n], disk, y);
      var m := DeleteFiles(d, items[..n], disk);
      assert y !in items[..n];
      DeleteOneCount(m, y, disk);
      assert items == items[..n] + [y];
      DeletedIdsSnoc(groups, items[..n], y, disk);
      assert y !in DeletedIds(groups, items[..n], disk);
    }
  }

  /** Group rows with the same ids and texts, in the same order. */
  predicate SameGroups(a: seq<Group>, b: seq<Group>) {
    |a| == |b| && forall k :: 0 <= k < |a| ==> a[k].id == b[k].id && a[k].text == b[k].text
  }

  /** The loop deletes file rows only: the group rows stay, every group
      it notes is one of them, and it counts at most one per item. */
  lemma {:induction false} DeleteFilesShape(d: Deletion, items: seq<nat>, disk: Disk)
    ensures var r := DeleteFiles(d, items, disk);
      && SameGroups(d.books.groups, r.books.groups)
      && d.parents <= r.parents
      && (forall p :: p in r.parents ==> p in d.parents || IsGroupId(d.books.groups, p))
      && d.count <= r.count <= d.count + |items|
    decreases |items|
  {
    if items != [] {
      var n := |items| - 1;
      DeleteFilesShape(d, items[..n], disk);
      var m := DeleteFiles(d, items[..n], disk);
      match Locate(m.books.groups, items[n])
      case None =>
      case Some(loc) =>
        assert m.books.groups[loc.0].id == d.books.groups[loc.0].id;
    }
  }

  /** The second deletion loop: how many orphaned images were removed. */
  function CountRemoved(orphans: seq<string>, disk: Disk): (n: nat)
    ensures n <= |orphans|
    ensures n == |orphans| <==> forall i :: 0 <= i < |orphans| ==> disk.removes(NativePath(orphans[i]))
    ensures n == 0 <==> forall i :: 0 <= i < |orphans| ==> !disk.removes(NativePath(orphans[i]))
    decreases |orphans|
  {
    if orphans == [] then 0
    else
      var k := |orphans| - 1;
      var rest := CountRemoved(orphans[..k], disk);
      assert forall i :: 0 <= i < k ==> orphans[..k][i] == orphans[i];
      rest + (if disk.removes(NativePath(orphans[k])) then 1 else 0)
  }

  /** Group rows have distinct ids and distinct texts: one group per key. */
  predicate DistinctGroups(groups: seq<Group>) {
    forall i, j :: 0 <= i < j < |groups| ==> groups[i].id != groups[j].id && groups[i].text != groups[j].text
  }

  /** The clean-up of one group row, appended to the tree built so far: a
      noted group with no rows left goes, with both its map entries; a
      noted group with one row left whose key is in `duplicates` becomes a
      closed unique group and its key moves to `non_duplicates` with that
      row's path; any other group stays as it is. */
  function CleanGroup(b: Books, grp: Group, parents: set<nat>): (r: Books)
    ensures b.groups <= r.groups && |r.groups| <= |b.groups| + 1
    ensures |r.groups| == |b.groups| <==> grp.id in parents && grp.children == []
    ensures |r.groups| > |b.groups| ==> r.groups[|b.groups|].id == grp.id
    ensures forall k :: k != grp.text ==> (k in r.duplicates <==> k in b.duplicates)
                                          && (k in r.nonDuplicates <==> k in b.nonDuplicates)
    ensures forall k :: k != grp.text && k in b.duplicates ==> r.duplicates[k] == b.duplicates[k]
    ensures forall k :: k != grp.text && k in b.nonDuplicates ==> r.nonDuplicates[k] == b.nonDuplicates[k]
  {
    if grp.id in parents && grp.children == [] then
      Books(b.groups, b.duplicates - {grp.text}, b.nonDuplicates - {grp.text})
    else if grp.id in parents && |grp.children| == 1 && grp.text in b.duplicates then
      Books(b.groups + [grp.(open := false, tags := [UniqueGroupTag])],
            b.duplicates - {grp.text}, b.nonDuplicates[grp.text := [grp.children[0].path]])
    else Books(b.groups + [grp], b.duplicates, b.nonDuplicates)
  }

  /** The clean-up loop over the noted groups, taken in tree order. */
  function Cleanup(start: Books, groups: seq<Group>, parents: set<nat>): (r: Books)
    ensures start.groups <= r.groups
    ensures |r.groups| <= |start.groups| + |groups|
    decreases |groups|
  {
    if groups == [] then start
    else CleanGroup(Cleanup(start, groups[..|groups| - 1], parents), groups[|groups| - 1], parents)
  }

  /** Cleaning groups of other keys leaves a key's map entries alone. */
  lemma {:induction false} CleanupOtherKeys(start: Books, groups: seq<Group>, parents: set<nat>, key: string)
    requires forall k :: 0 <= k < |groups| ==> groups[k].text != key
    ensures var r := Cleanup(start, groups, parents);
      && (key in r.duplicates <==> key in start.duplicates)
      && (key in start.duplicates ==> r.duplicates[key] == start.duplicates[key])
      && (key in r.nonDuplicates <==> key in start.nonDuplicates)
      && (key in start.nonDuplicates ==> r.nonDuplicates[key] == start.nonDuplicates[key])
    decreases |groups|
  {
    if groups != [] {
      CleanupOtherKeys(start, groups[..|groups| - 1], parents, key);
    }
  }

  lemma {:induction false} CleanupAppend(start: Books, a: seq<Group>, b: seq<Group>, parents: set<nat>)
    ensures Cleanup(start, a + b, parents) == Cleanup(Cleanup(start, a, parents), b, parents)
    decreases |b|
  {
    if b == [] {
      assert a + b == a;
    } else {
      var n := |b| - 1;
      assert (a + b)[..|a + b| - 1] == a + b[..n];
      CleanupAppend(start, a, b[..n], parents);
    }
  }

  /** A group row whose every copy among the input groups was emptied
      does not come out of the clean-up. */
  lemma {:induction false} CleanupDrops(start: Books, groups: seq<Group>, parents: set<nat>, id: nat)
    requires forall i :: 0 <= i < |start.groups| ==> start.groups[i].id != id
    requires forall k :: 0 <= k < |groups| && groups[k].id == id ==> id in parents && groups[k].children == []
    ensures var r := Cleanup(start, groups, parents);
      forall i :: 0 <= i < |r.groups| ==> r.groups[i].id != id
    decreases |groups|
  {
    if groups != [] {
      var n := |groups| - 1;
      assert forall k :: 0 <= k < n ==> groups[..n][k] == groups[k];
      CleanupDrops(start, groups[..n], parents, id);
      assert var r := Cleanup(start, groups[..n], parents);
        forall i :: 0 <= i < |r.groups| ==> r.groups[i].id != id;
      var pre := Cleanup(start, groups[..n], parents);
      var r := Cleanup(start, groups, parents);
      assert r == CleanGroup(pre, groups[n], parents);
      forall i | 0 <= i < |r.groups|
        ensures r.groups[i].id != id
      {
        if i < |pre.groups| {
          assert r.groups[i] == pre.groups[i];
        } else {
          assert r.groups[i].id == groups[n].id;
        }
      }
    }
  }

  /** How the clean-up meets group `g`: the map entries of its key are
      the starting ones until then, and are not touched after it. */
  lemma CleanupAt(start: Books, groups: seq<Group>, parents: set<nat>, g: nat)
    requires DistinctGroups(groups) && g < |groups|
    ensures var grp := groups[g];
      var pre := Cleanup(start, groups[..g], parents);
      var mid := CleanGroup(pre, grp, parents);
      var r := Cleanup(start, groups, parents);
      && mid.groups <= r.groups
      && (grp.text in pre.duplicates <==> grp.text in start.duplicates)
      && (grp.text in start.duplicates ==> pre.duplicates[grp.text] == start.duplicates[grp.text])
      && (grp.text in pre.nonDuplicates <==> grp.text in start.nonDuplicates)
      && (grp.text in start.nonDuplicates ==> pre.nonDuplicates[grp.text] == start.nonDuplicates[grp.text])
      && (grp.text in r.duplicates <==> grp.text in mid.duplicates)
      && (grp.text in mid.duplicates ==> r.duplicates[grp.text] == mid.duplicates[grp.text])
      && (grp.text in r.nonDuplicates <==> grp.text in mid.nonDuplicates)
      && (grp.text in mid.nonDuplicates ==> r.nonDuplicates[grp.text] == mid.nonDuplicates[grp.text])
  {
    var grp := groups[g];
    var pre := Cleanup(start, groups[..g], parents);
    var mid := CleanGroup(pre, grp, parents);
    var rest := groups[g + 1..];
    assert groups[..g + 1][..g] == groups[..g];
    assert Cleanup(start, groups[..g + 1], parents) == mid;
    assert groups == groups[..g + 1] + rest;
    CleanupAppend(start, groups[..g + 1], rest, parents);
    assert forall k :: 0 <= k < g ==> groups[..g][k].text != grp.text;
    CleanupOtherKeys(start, groups[..g], parents, grp.text);
    assert forall k :: 0 <= k < |rest| ==> rest[k].text != grp.text by {
      forall k | 0 <= k < |rest| ensures rest[k].text != grp.text {
        assert rest[k] == groups[g + 1 + k];
      }
    }
    CleanupOtherKeys(mid, rest, parents, grp.text);
  }

  /** A noted group left with no rows is gone from the tree and from both
      maps. */
  lemma CleanupRemovesEmptied(groups: seq<Group>, dups: map<string, seq<string>>,
                              nondups: map<string, seq<string>>, parents: set<nat>, g: nat)
    requires DistinctGroups(groups) && g < |groups|
    requires groups[g].id in parents && groups[g].children == []
    ensures var r := Cleanup(Books([], dups, nondups), groups, parents);
      && groups[g].text !in r.duplicates && groups[g].text !in r.nonDuplicates
      && forall i :: 0 <= i < |r.groups| ==> r.groups[i].id != groups[g].id
  {
    var start := Books([], dups, nondups);
    CleanupAt(start, groups, parents, g);
    CleanupDrops(start, groups, parents, groups[g].id);
  }

  /** A noted duplicate group left with one row becomes a closed unique
      group, and its key moves to `non_duplicates` with that row's path. */
  lemma CleanupConverts(groups: seq<Group>, dups: map<string, seq<string>>,
                        nondups: map<string, seq<string>>, parents: set<nat>, g: nat)
    requires DistinctGroups(groups) && g < |groups|
    requires groups[g].id in parents && |groups[g].children| == 1 && groups[g].text in dups
    ensures var r := Cleanup(Books([], dups, nondups), groups, parents);
      && groups[g].text !in r.duplicates
      && groups[g].text in r.nonDuplicates
      && r.nonDuplicates[groups[g].text] == [groups[g].children[0].path]
      && groups[g].(open := false, tags := [UniqueGroupTag]) in r.groups
  {
    var start := Books([], dups, nondups);
    CleanupAt(start, groups, parents, g);
    var pre := Cleanup(start, groups[..g], parents);
    var mid := CleanGroup(pre, groups[g], parents);
    assert mid.groups[|pre.groups|] == groups[g].(open := false, tags := [UniqueGroupTag]);
  }

  /** Any other group stays in the tree unchanged, with its map entries. */
  lemma CleanupKeeps(groups: seq<Group>, dups: map<string, seq<string>>,
                     nondups: map<string, seq<string>>, parents: set<nat>, g: nat)
    requires DistinctGroups(groups) && g < |groups|
    requires groups[g].id !in parents
          || (groups[g].children != [] && !(|groups[g].children| == 1 && groups[g].text in dups))
    ensures var r := Cleanup(Books([], dups, nondups), groups, parents);
      var text := groups[g].text;
      && groups[g] in r.groups
      && (text in r.duplicates <==> text in dups)
      && (text in dups ==> r.duplicates[text] == dups[text])
      && (text in r.nonDuplicates <==> text in nondups)
      && (text in nondups ==> r.nonDuplicates[text] == nondups[text])
  {
    var start := Books([], dups, nondups);
    CleanupAt(start, groups, parents, g);
    var pre := Cleanup(start, groups[..g], parents);
    var mid := CleanGroup(pre, groups[g], parents);
    assert mid.groups[|pre.groups|] == groups[g];
  }

  /** The ids of the rows tagged "to_remove", in order. */
  function MarkedIn(rows: seq<Row>): (r: seq<nat>)
    ensures forall id :: id in r <==> exists c :: 0 <= c < |rows| && rows[c].id == id && ToRemove in rows[c].tags
    decreases |rows|
  {
    if rows == [] then []
    else
      var n := |rows| - 1;
      var rest := MarkedIn(rows[..n]);
      assert forall c :: 0 <= c < n ==> rows[..n][c] == rows[c];
      rest + (if ToRemove in rows[n].tags then [rows[n].id] else [])
  }

  /** `tree.tag_has('to_remove')`, taken in tree order. */
  function MarkedRows(groups: seq<Group>): (r: seq<nat>)
    ensures forall id :: id in r <==>
      exists g, c :: 0 <= g < |groups| && 0 <= c < |groups[g].children|
                     && groups[g].children[c].id == id && ToRemove in groups[g].children[c].tags
    decreases |groups|
  {
    if groups == [] then []
    else
      var n := |groups| - 1;
      var rest := MarkedRows(groups[..n]);
      assert forall g :: 0 <= g < n ==> groups[..n][g] == groups[g];
      rest + MarkedIn(groups[n].children)
  }

  /** The rows `delete_selected` hands to the deletion: the selected file
      rows (group rows are skipped) or, when there are none, every row
      marked "to_remove". */
  function ItemsToDelete(groups: seq<Group>, selection: seq<nat>): (r: seq<nat>)
    ensures forall id :: id in r ==> HasChild(groups, id)
    ensures (exists i :: 0 <= i < |selection| && HasChild(groups, selection[i])) ==>
              forall id :: id in r <==> id in selection && HasChild(groups, id)
    ensures (forall i :: 0 <= i < |selection| ==> !HasChild(groups, selection[i])) ==>
              forall id :: id in r <==> id in MarkedRows(groups)
  {
    var picked := Keep(selection, (id: nat) => HasChild(groups, id));
    KeepMembers(selection, (id: nat) => HasChild(groups, id));
    if picked != [] then picked else MarkedRows(groups)
  }

  // ---------------------------------------------------------------------
  // The view: the tree, the scan results and the settings it reads
  // ---------------------------------------------------------------------

  /** The inner loop of the tag rewrites: each row of one group in turn. */
  method RetagRows(rows: seq<Row>, f: Row -> seq<string>) returns (out: seq<Row>)
    ensures out == Retagged(rows, f)
  {
    out := rows;
    for c := 0 to |rows|
      invariant |out| == |rows|
      invariant forall k :: 0 <= k < c ==> out[k] == rows[k].(tags := f(rows[k]))
      invariant forall k :: c <= k < |rows| ==> out[k] == rows[k]
    {
      out := out[c := rows[c].(tags := f(rows[c]))];
    }
  }

  class FileListView {
    var groups: seq<Group>
    var duplicates: map<string, seq<string>>
    var nonDuplicates: map<string, seq<string>>
    var filterText: string
    var searchInPath: bool
    var useRegex: bool
    var smartSelect: bool
    /** `get_file_priority` under the scanned folder and the language
        filter in force. */
    var priority: string -> Ranking.Priority
    var sortColumn: Column
    var sortReverse: bool
    var userSorted: bool
    const matchers: Matchers

    constructor(groups: seq<Group>, duplicates: map<string, seq<string>>,
                nonDuplicates: map<string, seq<string>>, folder: string, languageFilter: string,
                smartSelect: bool, matchers: Matchers)
      ensures this.groups == groups && this.duplicates == duplicates && this.nonDuplicates == nonDuplicates
      ensures priority == Ranking.PriorityFn(folder, languageFilter)
      ensures this.smartSelect == smartSelect && this.matchers == matchers
      ensures filterText == [] && !searchInPath && !useRegex
      ensures sortColumn == Filename && !sortReverse && !userSorted
    {
      this.groups := groups;
      this.duplicates := duplicates;
      this.nonDuplicates := nonDuplicates;
      priority := Ranking.PriorityFn(folder, languageFilter);
      this.smartSelect := smartSelect;
      this.matchers := matchers;
      filterText := [];
      searchInPath := false;
      useRegex := false;
      sortColumn := Filename;
      sortReverse := false;
      userSorted := false;
    }

    function Settings(): FilterSettings
      reads this
    {
      FilterSettings(filterText, searchInPath, useRegex, matchers)
    }

    /** The key `get_base_file` hands to `min`. */
    function BaseKey(): string -> seq<Ranking.KeyItem>
      reads this
    {
      Ranking.KeyBy(priority)
    }

    /** Rewrites the tags of every file row with `f`. */
    method RetagTree(f: Row -> seq<string>)
      modifies this`groups
      ensures groups == RetagAll(old(groups), f)
    {
      ghost var before := groups;
      for g := 0 to |groups|
        invariant |groups| == |before|
        invariant forall k :: 0 <= k < g ==> groups[k] == before[k].(children := Retagged(before[k].children, f))
        invariant forall k :: g <= k < |groups| ==> groups[k] == before[k]
      {
        var rows := RetagRows(groups[g].children, f);
        groups := groups[g := groups[g].(children := rows)];
      }
    }

    /** `toggle_item_status(item)`, `None` standing for the empty id. */
    method ToggleItemStatus(item: Option<nat>)
      requires item.Some? ==> Known(groups, item.value)
      modifies this`groups
      ensures groups == ToggleAt(old(groups), item)
    {
      if item.None? {
        return;
      }
      var loc := Locate(groups, item.value);
      if loc.None? {
        return;
      }
      var (g, c) := loc.value;
      var tags := Toggled(groups[g].children[c].tags);
      groups := groups[g := groups[g].(children := groups[g].children[c := groups[g].children[c].(tags := tags)])];
    }

    /** `toggle_selected_status`. */
    method ToggleSelectedStatus(selection: seq<nat>)
      requires forall i :: 0 <= i < |selection| ==> Known(groups, selection[i])
      modifies this`groups
      ensures groups == ToggleAll(old(groups), selection)
    {
      ghost var before := groups;
      for i := 0 to |selection|
        invariant groups == ToggleAll(before, selection[..i])
        invariant forall k :: 0 <= k < |selection| ==> Known(groups, selection[k])
      {
        assert selection[..i + 1][..i] == selection[..i];
        ghost var prev := groups;
        ToggleItemStatus(Some(selection[i]));
        KnownAfterRetag(prev, groups);
      }
      assert selection[..|selection|] == selection;
    }

    /** `mark_selected_keep` (`keep`) and `mark_selected_delete`. */
    method MarkSelected(selection: seq<nat>, keep: bool)
      requires forall i :: 0 <= i < |selection| ==> Known(groups, selection[i])
      modifies this`groups
      ensures groups == MarkAll(old(groups), selection, keep)
    {
      ghost var before := groups;
      for i := 0 to |selection|
        invariant groups == MarkAll(before, selection[..i], keep)
      {
        assert selection[..i + 1][..i] == selection[..i];
        var loc := Locate(groups, selection[i]);
        if loc.None? {
          continue;
        }
        var (g, c) := loc.value;
        var tags := Marked(groups[g].children[c].tags, keep);
        groups := groups[g := groups[g].(children := groups[g].children[c := groups[g].children[c].(tags := tags)])];
      }
      assert selection[..|selection|] == selection;
    }

    /** `mark_filtered_keep` (`keep`) and `mark_filtered_delete`. */
    method MarkFiltered(keep: bool)
      modifies this`groups
      ensures groups == if filterText == [] then old(groups) else RetagAll(old(groups), MarkWhere(Settings(), keep))
    {
      if filterText == [] {
        return;
      }
      RetagTree(MarkWhere(Settings(), keep));
    }

    /** `apply_filter`. */
    method ApplyFilter()
      modifies this`groups
      ensures groups == FilterAll(old(groups), Settings())
    {
      var fs := Settings();
      var isEmpty := filterText == [];
      ghost var before := groups;
      for g := 0 to |groups|
        invariant |groups| == |before|
        invariant forall k :: 0 <= k < g ==> groups[k] == FilterGroup(before[k], fs)
        invariant forall k :: g <= k < |groups| ==> groups[k] == before[k]
      {
        var rows, hasMatchingChild := FilterRows(groups[g].children, fs);
        var open := !(!isEmpty && !hasMatchingChild);
        groups := groups[g := groups[g].(children := rows, open := open)];
      }
    }

    /** `apply_base_suggestions`: `None` when it ran to the end (and then
        re-applied the filter), else the error `get_base_file` raised,
        which leaves the groups before the failing one updated. */
    method ApplyBaseSuggestions() returns (failure: Option<Ranking.Failure>)
      modifies this`groups
      ensures failure == Suggest(old(groups), duplicates, BaseKey(), smartSelect).1
      ensures groups == if failure.None? then FilterAll(Suggest(old(groups), duplicates, BaseKey(), smartSelect).0, Settings())
                        else Suggest(old(groups), duplicates, BaseKey(), smartSelect).0
    {
      var updated;
      updated, failure := SuggestPass(groups, duplicates, BaseKey(), smartSelect);
      groups := updated;
      if failure.None? {
        ApplyFilter();
      }
    }

    /** `reset_marks`: clears the marks of every file row, then runs the
        suggestion pass when smart selection is on. */
    method ResetMarks() returns (failure: Option<Ranking.Failure>)
      modifies this`groups
        ensures !smartSelect ==> failure.None? && groups == RetagAll(old(groups), TagsOf(Unmarked))
      ensures smartSelect ==>
        var suggested := Suggest(RetagAll(old(groups), TagsOf(Unmarked)), duplicates, BaseKey(), smartSelect);
        && failure == suggested.1
        && groups == if failure.None? then FilterAll(suggested.0, Settings()) else suggested.0
    {
      RetagTree(TagsOf(Unmarked));
      failure := None;
      if smartSelect {
        failure := ApplyBaseSuggestions();
      }
    }

    /** `sort_tree(col, reverse, user_initiated)`. */
    method SortTree(col: Column, reverse: bool, userInitiated: bool)
      modifies this`groups, this`sortColumn, this`sortReverse, this`userSorted
      ensures groups == SortGroups(old(groups), col, reverse)
      ensures sortColumn == col && sortReverse == reverse
      ensures userSorted == (old(userSorted) || userInitiated)
    {
      groups := MoveGroups(GroupOrder(groups, reverse), ResortBy(col, reverse));
      sortColumn := col;
      sortReverse := reverse;
      if userInitiated {
        userSorted := true;
      }
    }

    /** The bookkeeping after the row `c` of group `g` has been deleted. */
    method DropFile(g: nat, c: nat)
      requires g < |groups| && c < |groups[g].children|
      modifies this`groups, this`duplicates, this`nonDuplicates
      ensures Books(groups, duplicates, nonDuplicates)
           == RemoveFile(old(Books(groups, duplicates, nonDuplicates)), g, c)
    {
      var grp := groups[g];
      groups := groups[g := grp.(children := grp.children[..c] + grp.children[c + 1..])];
      var path := SlashPath(NativePath(grp.children[c].path));
      if grp.text in duplicates {
        if path in duplicates[grp.text] {
          duplicates := duplicates[grp.text := RemoveFirst(duplicates[grp.text], path)];
        }
      } else if grp.text in nonDuplicates {
        if path in nonDuplicates[grp.text] {
          nonDuplicates := nonDuplicates[grp.text := RemoveFirst(nonDuplicates[grp.text], path)];
        }
      }
    }

    /** The first loop of `_execute_deletion`: each listed row whose file
        can be removed leaves the tree and its group's list; returns the
        groups it took rows from and how many files went. */
    method DeleteListed(items: seq<nat>, disk: Disk) returns (parents: set<nat>, count: nat)
      modifies this`groups, this`duplicates, this`nonDuplicates
      ensures Deletion(Books(groups, duplicates, nonDuplicates), parents, count)
           == DeleteFiles(Deletion(old(Books(groups, duplicates, nonDuplicates)), {}, 0), items, disk)
    {
      ghost var start := Deletion(Books(groups, duplicates, nonDuplicates), {}, 0);
      parents := {};
      count := 0;
      for i := 0 to |items|
        invariant Deletion(Books(groups, duplicates, nonDuplicates), parents, count)
               == DeleteFiles(start, items[..i], disk)
      {
        assert items[..i + 1][..i] == items[..i];
        var loc := Locate(groups, items[i]);
        if loc.Some? {
          var g := loc.value.0;
          var c := loc.value.1;
          if Removable(groups[g].children[c], disk) {
            count := count + 1;
            parents := parents + {groups[g].id};
            DropFile(g, c);
          }
        }
      }
      assert items[..|items|] == items;
    }

    /** The clean-up loop of `_execute_deletion` over the noted groups. */
    method CleanUpGroups(parents: set<nat>)
      modifies this`groups, this`duplicates, this`nonDuplicates
      ensures Books(groups, duplicates, nonDuplicates)
           == Cleanup(Books([], old(duplicates), old(nonDuplicates)), old(groups), parents)
    {
      var tree := groups;
      ghost var cleared := Books([], duplicates, nonDuplicates);
      groups := [];
      for k := 0 to |tree|
        invariant Books(groups, duplicates, nonDuplicates) == Cleanup(cleared, tree[..k], parents)
      {
        assert tree[..k + 1][..k] == tree[..k];
        var grp := tree[k];
        if grp.id in parents && grp.children == [] {
          duplicates := duplicates - {grp.text};
          nonDuplicates := nonDuplicates - {grp.text};
        } else if grp.id in parents && |grp.children| == 1 && grp.text in duplicates {
          nonDuplicates := nonDuplicates[grp.text := [grp.children[0].path]];
          duplicates := duplicates - {grp.text};
          groups := groups + [grp.(open := false, tags := [UniqueGroupTag])];
        } else {
          groups := groups + [grp];
        }
      }
      assert tree[..|tree|] == tree;
    }

    /** `_execute_deletion(file_items, orphaned_images, is_perm)`: deletes
        the files of the listed rows and the orphaned images, keeps the
        tree and the maps in step, then cleans up the groups it took rows
        from; returns how many files went. */
    method ExecuteDeletion(items: seq<nat>, orphans: seq<string>, disk: Disk) returns (count: nat)
      modifies this`groups, this`duplicates, this`nonDuplicates
      ensures var d := DeleteFiles(Deletion(old(Books(groups, duplicates, nonDuplicates)), {}, 0), items, disk);
        && Books(groups, duplicates, nonDuplicates)
           == Cleanup(Books([], d.books.duplicates, d.books.nonDuplicates), d.books.groups, d.parents)
        && count == d.count + CountRemoved(orphans, disk)
    {
      var parents, fileCount := DeleteListed(items, disk);
      var imageCount := CountOrphansRemoved(orphans, disk);
      count := fileCount + imageCount;
      CleanUpGroups(parents);
    }
  }

  /** The second loop of `_execute_deletion`: how many orphaned images
      were removed. */
  method CountOrphansRemoved(orphans: seq<string>, disk: Disk) returns (count: nat)
    ensures count == CountRemoved(orphans, disk)
  {
    count := 0;
    for i := 0 to |orphans|
      invariant count == CountRemoved(orphans[..i], disk)
    {
      assert orphans[..i + 1][..i] == orphans[..i];
      if disk.removes(NativePath(orphans[i])) {
        count := count + 1;
      }
    }
    assert orphans[..|orphans|] == orphans;
  }

  /** The inner loop of `apply_filter` over the rows of one group: the
      re-tagged rows, and whether some row matched or the filter is empty. */
  method FilterRows(rows: seq<Row>, fs: FilterSettings) returns (out: seq<Row>, hasMatchingChild: bool)
    ensures out == Retagged(rows, FilterRowTags(fs))
    ensures hasMatchingChild <==> (rows != [] && fs.pattern == []) || AnyMatch(rows, fs)
  {
    var isEmpty := fs.pattern == [];
    out := rows;
    hasMatchingChild := false;
    for c := 0 to |rows|
      invariant |out| == |rows|
      invariant forall k :: 0 <= k < c ==> out[k] == rows[k].(tags := FilterRowTags(fs)(rows[k]))
      invariant forall k :: c <= k < |rows| ==> out[k] == rows[k]
      invariant hasMatchingChild <==> (c > 0 && isEmpty) || AnyMatch(rows[..c], fs)
    {
      var matchesFilter := CheckMatch(fs.pattern, rows[c].text, Some(rows[c].path),
                                      fs.searchInPath, fs.useRegex, fs.matchers);
      if matchesFilter || isEmpty {
        hasMatchingChild := true;
      }
      var tags := rows[c].tags;
      if Filtered in tags {
        tags := RemoveFirst(tags, Filtered);
      }
      if matchesFilter {
        tags := [Filtered] + tags;
      }
      assert tags == FilterRowTags(fs)(rows[c]) by {
        assert matchesFilter == Matches(fs, rows[c]);
      }
      out := out[c := rows[c].(tags := tags)];
      AnyMatchSnoc(rows, c, fs);
    }
    assert rows[..|rows|] == rows;
  }

  lemma AnyMatchSnoc(rows: seq<Row>, c: nat, fs: FilterSettings)
    requires c < |rows|
    ensures AnyMatch(rows[..c + 1], fs) <==> AnyMatch(rows[..c], fs) || Matches(fs, rows[c])
  {
    assert forall k :: 0 <= k < c ==> rows[..c + 1][k] == rows[..c][k];
    assert rows[..c + 1][c] == rows[c];
  }

  /** One step of the suggestion pass: `get_base_file` on the group's list,
      then the rows re-tagged against its result. */
  method SuggestInGroup(grp: Group, duplicates: map<string, seq<string>>,
                        key: string -> seq<Ranking.KeyItem>, smartSelect: bool)
    returns (r: Result<Group, Ranking.Failure>)
    ensures r == SuggestGroup(grp, duplicates, key, smartSelect)
  {
    if grp.text !in duplicates {
      return Ok(grp);
    }
    var files := duplicates[grp.text];
    var base := Ranking.MinBy(files, key);
    if base.Err? {
      return Err(base.error);
    }
    var rows := RetagRows(grp.children, SuggestRowTags(base.value, smartSelect));
    return Ok(grp.(children := rows));
  }

  /** The loop of `apply_base_suggestions` over the groups, stopping at
      the first error. */
  method SuggestPass(groups: seq<Group>, duplicates: map<string, seq<string>>,
                     key: string -> seq<Ranking.KeyItem>, smartSelect: bool)
    returns (updated: seq<Group>, failure: Option<Ranking.Failure>)
    ensures (updated, failure) == Suggest(groups, duplicates, key, smartSelect)
  {
    updated := groups;
    failure := None;
    assert groups[0..] == groups && updated[..0] == [];
    for g := 0 to |groups|
      invariant |updated| == |groups| && failure.None?
      invariant updated[g..] == groups[g..]
      invariant Suggest(groups, duplicates, key, smartSelect).0
             == updated[..g] + Suggest(groups[g..], duplicates, key, smartSelect).0
      invariant Suggest(groups, duplicates, key, smartSelect).1
             == Suggest(groups[g..], duplicates, key, smartSelect).1
    {
      var r := SuggestInGroup(groups[g], duplicates, key, smartSelect);
      if r.Err? {
        SuggestFails(groups, updated, g, duplicates, key, smartSelect);
        failure := Some(r.error);
        return;
      }
      SuggestStep(groups, updated, g, duplicates, key, smartSelect);
      updated := updated[g := r.value];
    }
    SuggestEnds(groups, updated, duplicates, key, smartSelect);
  }

  /** The loop invariant of `SuggestPass` after a group that fails. */
  lemma SuggestFails(groups: seq<Group>, updated: seq<Group>, g: nat,
                     duplicates: map<string, seq<string>>,
                     key: string -> seq<Ranking.KeyItem>, smartSelect: bool)
    requires g < |groups| && |updated| == |groups| && updated[g..] == groups[g..]
    requires SuggestGroup(groups[g], duplicates, key, smartSelect).Err?
    requires Suggest(groups, duplicates, key, smartSelect).0
          == updated[..g] + Suggest(groups[g..], duplicates, key, smartSelect).0
    requires Suggest(groups, duplicates, key, smartSelect).1
          == Suggest(groups[g..], duplicates, key, smartSelect).1
    ensures (updated, Some(SuggestGroup(groups[g], duplicates, key, smartSelect).error))
         == Suggest(groups, duplicates, key, smartSelect)
  {
    SuggestStops(groups, g, duplicates, key, smartSelect);
    assert updated == updated[..g] + updated[g..];
  }

  /** The loop invariant of `SuggestPass` is kept by a group that succeeds. */
  lemma SuggestStep(groups: seq<Group>, updated: seq<Group>, g: nat,
                    duplicates: map<string, seq<string>>,
                    key: string -> seq<Ranking.KeyItem>, smartSelect: bool)
    requires g < |groups| && |updated| == |groups| && updated[g..] == groups[g..]
    requires SuggestGroup(groups[g], duplicates, key, smartSelect).Ok?
    requires Suggest(groups, duplicates, key, smartSelect).0
          == updated[..g] + Suggest(groups[g..], duplicates, key, smartSelect).0
    requires Suggest(groups, duplicates, key, smartSelect).1
          == Suggest(groups[g..], duplicates, key, smartSelect).1
    ensures var u := updated[g := SuggestGroup(groups[g], duplicates, key, smartSelect).value];
      && u[g + 1..] == groups[g + 1..]
      && Suggest(groups, duplicates, key, smartSelect).0
         == u[..g + 1] + Suggest(groups[g + 1..], duplicates, key, smartSelect).0
      && Suggest(groups, duplicates, key, smartSelect).1
         == Suggest(groups[g + 1..], duplicates, key, smartSelect).1
  {
    var v := SuggestGroup(groups[g], duplicates, key, smartSelect).value;
    SuggestAdvances(groups, updated[..g], g, duplicates, key, smartSelect);
    var u := updated[g := v];
    assert u[..g + 1] == updated[..g] + [v];
    assert u[g + 1..] == updated[g + 1..] == groups[g + 1..] by {
      assert updated[g + 1..] == updated[g..][1..];
    }
  }

  /** A group that fails ends the pass over `groups[g..]`. */
  lemma SuggestStops(groups: seq<Group>, g: nat, duplicates: map<string, seq<string>>,
                     key: string -> seq<Ranking.KeyItem>, smartSelect: bool)
    requires g < |groups|
    requires SuggestGroup(groups[g], duplicates, key, smartSelect).Err?
    ensures Suggest(groups[g..], duplicates, key, smartSelect)
         == (groups[g..], Some(SuggestGroup(groups[g], duplicates, key, smartSelect).error))
  {
    assert groups[g..][0] == groups[g];
  }

  /** A group that succeeds moves its re-tagged copy into the prefix. */
  lemma SuggestAdvances(groups: seq<Group>, prefix: seq<Group>, g: nat,
                        duplicates: map<string, seq<string>>,
                        key: string -> seq<Ranking.KeyItem>, smartSelect: bool)
    requires g < |groups|
    requires SuggestGroup(groups[g], duplicates, key, smartSelect).Ok?
    ensures prefix + Suggest(groups[g..], duplicates, key, smartSelect).0
         == prefix + [SuggestGroup(groups[g], duplicates, key, smartSelect).value]
            + Suggest(groups[g + 1..], duplicates, key, smartSelect).0
    ensures Suggest(groups[g..], duplicates, key, smartSelect).1
         == Suggest(groups[g + 1..], duplicates, key, smartSelect).1
  {
    assert groups[g..][0] == groups[g] && groups[g..][1..] == groups[g + 1..];
  }

  /** With nothing left to visit, the prefix is the whole result. */
  lemma SuggestEnds(groups: seq<Group>, updated: seq<Group>, duplicates: map<string, seq<string>>,
                    key: string -> seq<Ranking.KeyItem>, smartSelect: bool)
    requires |updated| == |groups|
    requires Suggest(groups, duplicates, key, smartSelect).0
          == updated[..|groups|] + Suggest(groups[|groups|..], duplicates, key, smartSelect).0
    requires Suggest(groups, duplicates, key, smartSelect).1
          == Suggest(groups[|groups|..], duplicates, key, smartSelect).1
    ensures (updated, None) == Suggest(groups, duplicates, key, smartSelect)
  {
    assert groups[|groups|..] == [];
    assert updated[..|groups|] + [] == updated;
  }

  /** Tag rewrites keep every id known. */
  lemma KnownAfterRetag(a: seq<Group>, b: seq<Group>)
    requires |a| == |b|
    requires forall g :: 0 <= g < |a| ==> a[g].id == b[g].id && |a[g].children| == |b[g].children|
    requires forall g, c :: 0 <= g < |a| && 0 <= c < |a[g].children| ==> a[g].children[c].id == b[g].children[c].id
    ensures forall id :: Known(a, id) ==> Known(b, id)
  {
  }
}
