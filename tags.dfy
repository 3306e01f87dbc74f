/** The tag lists of the file rows of the result tree
    (rom_duplicate_manager/ui/file_list.py, duplicate_logic.py:89-120 and
    the same methods in rom_duplicate_manager.py). A row's status is
    carried by the tags "base" (keep) and "to_remove" (delete); "manual"
    marks a status set by hand; "oddrow"/"evenrow" stripe the rows and
    "filtered" highlights rows matching the filter. */
module Tags {
  import opened Wrappers

  const Base: string := "base"
  const ToRemove: string := "to_remove"
  const Manual: string := "manual"
  const Filtered: string := "filtered"
  const OddRow: string := "oddrow"
  const EvenRow: string := "evenrow"

  /** The status tags and, with "manual", the marks `reset_marks` clears. */
  const StatusTags: set<string> := {Base, ToRemove}
  const MarkTags: set<string> := {Base, ToRemove, Manual}

  /** The six tags are different strings. */
  lemma TagsDistinct()
    ensures Base != ToRemove && Base != Manual && Base != Filtered && Base != OddRow && Base != EvenRow
    ensures ToRemove != Manual && ToRemove != Filtered && ToRemove != OddRow && ToRemove != EvenRow
    ensures Manual != Filtered && Manual != OddRow && Manual != EvenRow
    ensures Filtered != OddRow && Filtered != EvenRow && OddRow != EvenRow
  {
    assert |Base| == 4 && |ToRemove| == 9 && |Manual| == 6;
    assert |Filtered| == 8 && |OddRow| == 6 && |EvenRow| == 7;
    assert Manual[0] == 'm' && OddRow[0] == 'o';
  }

  // ---------------------------------------------------------------------
  // List helpers: [t for t in tags if t not in drop], list.remove
  // ---------------------------------------------------------------------

  /** `[t for t in tags if t not in drop]`. */
  function Without(tags: seq<string>, drop: set<string>): (r: seq<string>)
    ensures |r| <= |tags|
    ensures forall t :: t in r <==> t in tags && t !in drop
  {
    if tags == [] then []
    else
      var last := tags[|tags| - 1];
      Without(tags[..|tags| - 1], drop) + (if last in drop then [] else [last])
  }

  lemma {:induction false} WithoutAppend(a: seq<string>, b: seq<string>, drop: set<string>)
    ensures Without(a + b, drop) == Without(a, drop) + Without(b, drop)
    decreases |b|
  {
    if b == [] {
      assert a + b == a;
    } else {
      var n := |b| - 1;
      assert (a + b)[..|a + b| - 1] == a + b[..n];
      WithoutAppend(a, b[..n], drop);
    }
  }

  /** Filtering twice is filtering once by both sets. */
  lemma {:induction false} WithoutTwice(tags: seq<string>, d1: set<string>, d2: set<string>)
    ensures Without(Without(tags, d1), d2) == Without(tags, d1 + d2)
  {
    if tags != [] {
      var n := |tags| - 1;
      WithoutTwice(tags[..n], d1, d2);
      var last := tags[n];
      WithoutAppend(Without(tags[..n], d1), if last in d1 then [] else [last], d2);
    }
  }

  /** Filtering out tags a list does not hold leaves it as it is. */
  lemma {:induction false} WithoutNothing(tags: seq<string>, drop: set<string>)
    requires forall t :: t in tags ==> t !in drop
    ensures Without(tags, drop) == tags
  {
    if tags != [] {
      var n := |tags| - 1;
      var front := tags[..n];
      assert tags[n] in tags;
      assert forall t :: t in front ==> t in tags;
      WithoutNothing(front, drop);
      assert tags == front + [tags[n]];
    }
  }

  function Count(tags: seq<string>, t: string): nat {
    if tags == [] then 0 else Count(tags[..|tags| - 1], t) + (if tags[|tags| - 1] == t then 1 else 0)
  }

  lemma {:induction false} CountAppend(a: seq<string>, b: seq<string>, t: string)
    ensures Count(a + b, t) == Count(a, t) + Count(b, t)
    decreases |b|
  {
    if b == [] {
      assert a + b == a;
    } else {
      var n := |b| - 1;
      assert (a + b)[..|a + b| - 1] == a + b[..n];
      CountAppend(a, b[..n], t);
    }
  }

  lemma {:induction false} CountMember(tags: seq<string>, t: string)
    ensures Count(tags, t) > 0 <==> t in tags
  {
    if tags != [] {
      CountMember(tags[..|tags| - 1], t);
      assert tags == tags[..|tags| - 1] + [tags[|tags| - 1]];
    }
  }

  /** `list.remove(t)`: drops the first occurrence only. */
  function RemoveFirst(tags: seq<string>, t: string): (r: seq<string>)
    ensures t in tags ==> |r| == |tags| - 1
    ensures t !in tags ==> r == tags
  {
    if tags == [] then []
    else if tags[0] == t then tags[1..]
    else [tags[0]] + RemoveFirst(tags[1..], t)
  }

  lemma {:induction false} RemoveFirstCount(tags: seq<string>, t: string, u: string)
    ensures Count(RemoveFirst(tags, t), u) == Count(tags, u) - (if u == t && t in tags then 1 else 0)
  {
    if tags != [] {
      CountAppend([tags[0]], tags[1..], u);
      assert [tags[0]] + tags[1..] == tags;
      if tags[0] != t {
        RemoveFirstCount(tags[1..], t, u);
        CountAppend([tags[0]], RemoveFirst(tags[1..], t), u);
        assert Count([tags[0]], u) == (if tags[0] == u then 1 else 0) by {
          assert [tags[0]][..0] == [];
        }
      } else {
        assert Count([tags[0]], u) == (if tags[0] == u then 1 else 0) by {
          assert [tags[0]][..0] == [];
        }
      }
    }
  }

  /** Removing one occurrence of `t` keeps every other tag, in order. */
  lemma {:induction false} RemoveFirstWithout(tags: seq<string>, t: string, drop: set<string>)
    requires t in drop
    ensures Without(RemoveFirst(tags, t), drop) == Without(tags, drop)
  {
    if tags != [] {
      assert tags == [tags[0]] + tags[1..];
      WithoutAppend([tags[0]], tags[1..], drop);
      assert Without([tags[0]], drop) == (if tags[0] in drop then [] else [tags[0]]) by {
        assert [tags[0]][..0] == [];
      }
      if tags[0] != t {
        RemoveFirstWithout(tags[1..], t, drop);
        WithoutAppend([tags[0]], RemoveFirst(tags[1..], t), drop);
      }
    }
  }

  // ---------------------------------------------------------------------
  // toggle_item_status (file_list.py:76-95)
  // ---------------------------------------------------------------------

  /** `next((t for t in tags if t in ('oddrow', 'evenrow')), None)`. */
  function FirstRowTag(tags: seq<string>): (r: Option<string>)
    ensures r.Some? ==> r.value in tags && (r.value == OddRow || r.value == EvenRow)
    ensures r.None? ==> OddRow !in tags && EvenRow !in tags
  {
    if tags == [] then None
    else if tags[0] == OddRow || tags[0] == EvenRow then Some(tags[0])
    else FirstRowTag(tags[1..])
  }

  /** The new tags of a toggled row: "base" becomes "to_remove",
      "to_remove" becomes "base" and a row with no status becomes
      "to_remove"; "manual" is added, the first stripe tag and "filtered"
      are kept, and every other tag is dropped. */
  function Toggled(tags: seq<string>): seq<string> {
    var status := if Base in tags then [ToRemove, Manual]
                  else if ToRemove in tags then [Base, Manual]
                  else [ToRemove, Manual];
    status + DisplayTags(tags)
  }

  /** The first stripe tag and "filtered", the tags a toggle keeps. */
  function DisplayTags(tags: seq<string>): seq<string> {
    var row := FirstRowTag(tags);
    (if row.Some? then [row.value] else []) + (if Filtered in tags then [Filtered] else [])
  }

  lemma DisplayTagsEffect(tags: seq<string>)
    ensures var d := DisplayTags(tags);
      && FirstRowTag(d) == FirstRowTag(tags)
      && (Filtered in d <==> Filtered in tags)
      && (forall t :: t in d ==> t == OddRow || t == EvenRow || t == Filtered)
  {
    TagsDistinct();
  }

  /** What a toggle keeps and what it sets: a "base" row becomes
      "to_remove", a "to_remove" row "base", an unmarked row "to_remove";
      the result is always manual, with exactly one status; the first
      stripe tag and "filtered" survive and nothing else does. */
  lemma ToggleEffect(tags: seq<string>)
    ensures var r := Toggled(tags);
      && Manual in r
      && (Base in r <==> Base !in tags && ToRemove in tags)
      && (ToRemove in r <==> !(Base !in tags && ToRemove in tags))
      && FirstRowTag(r) == FirstRowTag(tags)
      && (Filtered in r <==> Filtered in tags)
      && (forall t :: t in r ==> t in {Base, ToRemove, Manual, OddRow, EvenRow, Filtered})
  {
    ToggleStatusEffect(tags);
    ToggleDisplayEffect(tags);
  }

  lemma ToggleStatusEffect(tags: seq<string>)
    ensures var r := Toggled(tags);
      && Manual in r
      && (Base in r <==> Base !in tags && ToRemove in tags)
      && (ToRemove in r <==> !(Base !in tags && ToRemove in tags))
  {
    TagsDistinct();
    DisplayTagsEffect(tags);
    var d := DisplayTags(tags);
    var r := Toggled(tags);
    assert r == [r[0], r[1]] + d;
  }

  lemma ToggleDisplayEffect(tags: seq<string>)
    ensures var r := Toggled(tags);
      && FirstRowTag(r) == FirstRowTag(tags)
      && (Filtered in r <==> Filtered in tags)
      && (forall t :: t in r ==> t in {Base, ToRemove, Manual, OddRow, EvenRow, Filtered})
  {
    TagsDistinct();
    DisplayTagsEffect(tags);
    var d := DisplayTags(tags);
    var r := Toggled(tags);
    assert r[2..] == d;
    assert r == [r[0], r[1]] + d;
    assert FirstRowTag(r) == FirstRowTag(r[1..]) == FirstRowTag(r[2..]);
  }

  /** Toggling twice flips the status twice: a third toggle gives what the
      first one gave, and the second always differs from the first. */
  lemma ToggleCycle(tags: seq<string>)
    ensures Toggled(Toggled(Toggled(tags))) == Toggled(tags)
    ensures Toggled(Toggled(tags)) != Toggled(tags)
  {
    ToggleEffect(tags);
    ToggleEffect(Toggled(tags));
    ToggleEffect(Toggled(Toggled(tags)));
  }

  // ---------------------------------------------------------------------
  // mark_selected_* / mark_filtered_* (file_list.py:188-214, 287-331)
  // ---------------------------------------------------------------------

  function StatusTag(keep: bool): string {
    if keep then Base else ToRemove
  }

  /** The new tags of a row marked by hand. */
  function Marked(tags: seq<string>, keep: bool): seq<string> {
    Without(tags, StatusTags) + [StatusTag(keep), Manual]
  }

  /** A marked row ends with its status and "manual", holds exactly one
      status, and keeps every tag other than the marks, in order. */
  lemma MarkedEffect(tags: seq<string>, keep: bool)
    ensures var r := Marked(tags, keep);
      && |r| >= 2 && r[|r| - 2..] == [StatusTag(keep), Manual]
      && (Base in r <==> keep) && (ToRemove in r <==> !keep)
      && Without(r, MarkTags) == Without(tags, MarkTags)
  {
    MarkedStatus(tags, keep);
    MarkedKeepsOthers(tags, keep);
  }

  lemma MarkedStatus(tags: seq<string>, keep: bool)
    ensures var r := Marked(tags, keep);
      && |r| >= 2 && r[|r| - 2..] == [StatusTag(keep), Manual]
      && (Base in r <==> keep) && (ToRemove in r <==> !keep)
  {
    TagsDistinct();
    var w := Without(tags, StatusTags);
    var r := Marked(tags, keep);
    assert r == w + [StatusTag(keep), Manual];
    assert Base !in w && ToRemove !in w;
    assert r[|r| - 2..] == [StatusTag(keep), Manual];
  }

  lemma MarkedKeepsOthers(tags: seq<string>, keep: bool)
    ensures Without(Marked(tags, keep), MarkTags) == Without(tags, MarkTags)
  {
    WithoutAppend(Without(tags, StatusTags), [StatusTag(keep), Manual], MarkTags);
    WithoutTwice(tags, StatusTags, MarkTags);
    assert StatusTags + MarkTags == MarkTags;
    StatusPairGone([StatusTag(keep), Manual]);
  }

  // ---------------------------------------------------------------------
  // reset_marks (file_list.py:333-345)
  // ---------------------------------------------------------------------

  function Unmarked(tags: seq<string>): (r: seq<string>)
    ensures Base !in r && ToRemove !in r && Manual !in r
  {
    Without(tags, MarkTags)
  }

  /** Resetting undoes any hand marking and is idempotent. */
  lemma ResetUndoesMarks(tags: seq<string>, keep: bool)
    ensures Unmarked(Marked(tags, keep)) == Unmarked(tags)
    ensures Unmarked(Unmarked(tags)) == Unmarked(tags)
  {
    MarkedEffect(tags, keep);
    WithoutNothing(Unmarked(tags), MarkTags);
  }

  /** Resetting a toggled row leaves only its stripe and filter tags. */
  lemma ResetUndoesToggle(tags: seq<string>)
    ensures Unmarked(Toggled(tags)) == DisplayTags(tags)
  {
    var status := if Base in tags then [ToRemove, Manual] else if ToRemove in tags then [Base, Manual] else [ToRemove, Manual];
    var rest := DisplayTags(tags);
    assert Toggled(tags) == status + rest;
    WithoutAppend(status, rest, MarkTags);
    StatusPairGone(status);
    DisplayTagsEffect(tags);
    DisplayTagsAreNotMarks();
    assert forall t :: t in rest ==> t !in MarkTags;
    WithoutNothing(rest, MarkTags);
  }

  /** The stripe and filter tags are none of the marks. */
  lemma DisplayTagsAreNotMarks()
    ensures OddRow !in MarkTags && EvenRow !in MarkTags && Filtered !in MarkTags
  {
    TagsDistinct();
  }

  lemma StatusPairGone(status: seq<string>)
    requires |status| == 2 && status[0] in StatusTags && status[1] == Manual
    ensures Without(status, MarkTags) == []
  {
    assert status[..1][..0] == [];
    assert status[..1] == [status[0]];
  }

  // ---------------------------------------------------------------------
  // apply_filter (file_list.py:347-381)
  // ---------------------------------------------------------------------

  /** One "filtered" is removed (the first), and "filtered" is put in front
      when the row matches. */
  function FilterTagged(tags: seq<string>, matches: bool): (r: seq<string>)
    ensures matches ==> |r| > 0 && r[0] == Filtered
  {
    (if matches then [Filtered] else []) + RemoveFirst(tags, Filtered)
  }

  /** On a row that carries "filtered" at most once (as every operation
      here leaves it), the row carries it after filtering exactly when it
      matches, still at most once, and its other tags are unchanged. */
  lemma FilterTagEffect(tags: seq<string>, matches: bool)
    requires Count(tags, Filtered) <= 1
    ensures var r := FilterTagged(tags, matches);
      && (Filtered in r <==> matches)
      && Count(r, Filtered) <= 1
      && Without(r, {Filtered}) == Without(tags, {Filtered})
  {
    var r := FilterTagged(tags, matches);
    var m: seq<string> := if matches then [Filtered] else [];
    var rest := RemoveFirst(tags, Filtered);
    RemoveFirstCount(tags, Filtered, Filtered);
    CountMember(tags, Filtered);
    CountMember(rest, Filtered);
    CountAppend(m, rest, Filtered);
    assert Count(m, Filtered) == (if matches then 1 else 0) by {
      if matches {
        assert m[..0] == [];
      }
    }
    CountMember(r, Filtered);
    WithoutAppend(m, rest, {Filtered});
    assert Without(m, {Filtered}) == [] by {
      if matches {
        assert m[..0] == [];
      }
    }
    RemoveFirstWithout(tags, Filtered, {Filtered});
  }

  /** Only the first "filtered" is removed: a row that somehow carried it
      twice keeps one even when it no longer matches. */
  lemma FilterRemovesOnlyOne()
    ensures FilterTagged([Filtered, Filtered], false) == [Filtered]
  {
  }

  /** Filtering again with the same outcome changes nothing. */
  lemma FilterTaggedIdempotent(tags: seq<string>, matches: bool)
    requires Count(tags, Filtered) <= 1
    ensures FilterTagged(FilterTagged(tags, matches), matches) == FilterTagged(tags, matches)
  {
    var rest := RemoveFirst(tags, Filtered);
    RemoveFirstCount(tags, Filtered, Filtered);
    CountMember(tags, Filtered);
    CountMember(rest, Filtered);
    if matches {
      assert ([Filtered] + rest)[0] == Filtered;
      assert ([Filtered] + rest)[1..] == rest;
    }
  }

  /** `list.remove` takes away exactly one copy of a value the list holds. */
  lemma {:induction false} RemoveFirstMultiset(xs: seq<string>, x: string)
    ensures multiset(RemoveFirst(xs, x)) == multiset(xs) - multiset{x}
  {
    if xs != [] {
      assert xs == [xs[0]] + xs[1..];
      if xs[0] != x {
        RemoveFirstMultiset(xs[1..], x);
      }
    }
  }

  // ---------------------------------------------------------------------
  // apply_base_suggestions (duplicate_logic.py:101-116)
  // ---------------------------------------------------------------------

  /** The new tags of a row of a duplicate group whose base file is known:
      a manually marked row is skipped; otherwise the status tags are
      removed and, with smart selection on, "base" is appended to the base
      file's row and "to_remove" to every other row. */
  function Suggested(tags: seq<string>, isBase: bool, smartSelect: bool): seq<string> {
    if Manual in tags then tags
    else Without(tags, StatusTags) + (if smartSelect then [StatusTag(isBase)] else [])
  }

  /** A suggestion never touches a manual row; on any other row it keeps
      the other tags in order and, with smart selection on, leaves exactly
      one status: "base" on the base file's row, "to_remove" elsewhere;
      with it off, no status. */
  lemma SuggestedEffect(tags: seq<string>, isBase: bool, smartSelect: bool)
    ensures Manual in tags ==> Suggested(tags, isBase, smartSelect) == tags
    ensures Manual !in tags ==>
      var r := Suggested(tags, isBase, smartSelect);
      && Without(r, StatusTags) == Without(tags, StatusTags)
      && (Base in r <==> smartSelect && isBase)
      && (ToRemove in r <==> smartSelect && !isBase)
  {
    if Manual !in tags {
      var s: seq<string> := if smartSelect then [StatusTag(isBase)] else [];
      WithoutAppend(Without(tags, StatusTags), s, StatusTags);
      WithoutTwice(tags, StatusTags, StatusTags);
      assert StatusTags + StatusTags == StatusTags;
      assert Without(s, StatusTags) == [] by {
        if smartSelect {
          assert s[..0] == [];
        }
      }
    }
  }
}
