/**
 What the notes of an exclusion say (backend/internal/k8s/exclusions.go:56-156): each number is read off the manifest
 before and after, without the counters that the source keeps.
 */
module ExclusionNotes {
  import opened Option
  import opened Json
  import opened Exclusions
  import Laws = ExclusionLaws
  import Meaning = ExclusionMeaning

  // ----- counting selectors in a manifest

  function SelectorsIn(hooks: seq<Json>): nat {
    if hooks == [] then 0
    else SelectorsIn(hooks[..|hooks| - 1]) + |Items(Field(hooks[|hooks| - 1], "selectors"))|
  }

  /** All selectors of all hooks. */
  function SelectorCount(spec: Fields): nat {
    SelectorsIn(Items(Get(spec, "kprobes"))) + SelectorsIn(Items(Get(spec, "tracepoints"))) +
    SelectorsIn(Items(Get(spec, "uprobes"))) + SelectorsIn(Items(Get(spec, "lsmhooks")))
  }

  predicate NoHooks(spec: Fields) {
    && Items(Get(spec, "kprobes")) == [] && Items(Get(spec, "tracepoints")) == []
    && Items(Get(spec, "uprobes")) == [] && Items(Get(spec, "lsmhooks")) == []
  }

  /** The first clause on the argument refuses prefixes. */
  predicate RefusesPrefixes(args: Json, index: int) {
    exists i :: 0 <= i < |Items(args)| && Meaning.FirstOn(Items(args), index, i) &&
      Field(Items(args)[i], "operator") == Str("NotPrefix")
  }

  /**
   A selector of the source that counts as filtered on its path: afterwards it refuses prefixes on the argument, or
   it was not a map, when the filter went to a scratch map that was dropped.
   */
  predicate PathFiltered(before: Json, after: Json, index: Option<int>) {
    index.Some? && (before.Obj? ==> RefusesPrefixes(Field(after, "matchArgs"), index.value))
  }

  function FilteredAmong(before: seq<Json>, after: seq<Json>, index: Option<int>): nat
    requires |before| == |after|
  {
    if before == [] then 0
    else
      var n := |before| - 1;
      FilteredAmong(before[..n], after[..n], index) + if PathFiltered(before[n], after[n], index) then 1 else 0
  }

  /** Over hooks: a missing list of selectors counts as one that is empty. */
  function FilteredIn(before: seq<Json>, after: seq<Json>, ex: Exclusions): nat
    requires |before| == |after|
  {
    if before == [] then 0
    else
      var n := |before| - 1;
      var hook := AsMap(before[n]);
      var old_, new_ := SelectorsOf(hook), Items(Field(after[n], "selectors"));
      FilteredIn(before[..n], after[..n], ex)
      + if |old_| == |new_| then FilteredAmong(old_, new_, IndexFor(hook, ex)) else 0
  }

  function FilteredGroup(before: Fields, after: Fields, group: string, ex: Exclusions): nat {
    var b, a := Items(Get(before, group)), Items(Get(after, group));
    if |b| == |a| then FilteredIn(b, a, ex) else 0
  }

  function FilteredCount(before: Fields, after: Fields, ex: Exclusions): nat {
    FilteredGroup(before, after, "kprobes", ex) + FilteredGroup(before, after, "tracepoints", ex) +
    FilteredGroup(before, after, "uprobes", ex) + FilteredGroup(before, after, "lsmhooks", ex)
  }

  // ----- the counters agree

  lemma FilteredExactly(raw: Json, ex: Exclusions, index: Option<int>)
    requires ex.paths != []
    ensures PathFiltered(raw, FilterRaw(raw, ex, index), index) <==> PathApplies(AsMap(raw), ex, index)
  {
    if index.Some? {
      var i := index.value;
      if raw.Obj? {
        hide Merge, PathLands, RefusesPrefixes, FilterSelector;
        Laws.FilterSelectorAt(raw.fields, ex, index);
        var args := Get(raw.fields, "matchArgs");
        if PathApplies(raw.fields, ex, index) {
          Laws.PathStillLands(args, i, ex.paths);
          MergedHasClause(args, i, ex.paths);
          LandsOnClause(Merge(AtIndex(i), args, ex.paths), i);
        } else {
          RefusedElsewhere(args, i);
        }
      } else {
        NothingConstrains(i);
      }
    }
  }

  lemma NothingConstrains(index: int)
    ensures PathLands(Null, index)
  {
  }

  predicate HasClause(args: Json, index: int) {
    exists item :: item in Items(args) && IntOf(Field(item, "index")) == index
  }

  lemma MergedHasClause(args: Json, index: int, paths: seq<string>)
    ensures HasClause(Merge(AtIndex(index), args, paths), index)
  {
    hide WithValues, Merge;
    Laws.MergeLandsAt(AtIndex(index), args, paths);
    var merged := Items(Merge(AtIndex(index), args, paths));
    var i := FirstFit(AtIndex(index), Items(args));
    assert Fits(AtIndex(index), merged[i]) && merged[i] in merged;
  }

  lemma LandsOnClause(args: Json, index: int)
    requires PathLands(args, index) && HasClause(args, index)
    ensures RefusesPrefixes(args, index)
  {
    var items := Items(args);
    var i := FirstFit(AtIndex(index), items);
    assert i < |items|;
    assert Meaning.FirstOn(items, index, i);
  }

  lemma RefusedElsewhere(args: Json, index: int)
    requires !PathLands(args, index)
    ensures !RefusesPrefixes(args, index)
  {
    Meaning.PathLandsExactly(args, index);
  }

  lemma OneTally(raw: Json, ex: Exclusions, index: Option<int>)
    ensures SelectorTally(raw, ex, index) ==
            if ex.paths == [] then Tally(1, 0, 0)
            else if PathFiltered(raw, FilterRaw(raw, ex, index), index) then Tally(1, 1, 0) else Tally(1, 0, 1)
  {
    hide FilterRaw, PathApplies, PathFiltered;
    if ex.paths != [] {
      FilteredExactly(raw, ex, index);
    }
  }

  lemma {:induction false} TallyIs(sels: seq<Json>, ex: Exclusions, index: Option<int>)
    ensures SelectorsTally(sels, ex, index).selectors == |sels|
    ensures ex.paths != [] ==>
              var filtered := FilteredAmong(sels, FilterSelectors(sels, ex, index), index);
              filtered <= |sels| && SelectorsTally(sels, ex, index) == Tally(|sels|, filtered, |sels| - filtered)
  {
    hide FilterRaw, PathFiltered, SelectorTally;
    if sels != [] {
      var n := |sels| - 1;
      TallyIs(sels[..n], ex, index);
      assert FilterSelectors(sels, ex, index)[..n] == FilterSelectors(sels[..n], ex, index);
      OneTally(sels[n], ex, index);
    }
  }

  lemma {:induction false} HooksTallyIs(hooks: seq<Json>, ex: Exclusions)
    ensures HooksTally(hooks, ex).selectors == SelectorsIn(FilterHooks(hooks, ex))
    ensures ex.paths != [] ==>
              var n, filtered := SelectorsIn(FilterHooks(hooks, ex)), FilteredIn(hooks, FilterHooks(hooks, ex), ex);
              filtered <= n && HooksTally(hooks, ex) == Tally(n, filtered, n - filtered)
  {
    hide FilterSelectors, SelectorsTally, FilteredAmong, IndexFor, SelectorsOf;
    if hooks != [] {
      var n := |hooks| - 1;
      HooksTallyIs(hooks[..n], ex);
      assert FilterHooks(hooks, ex)[..n] == FilterHooks(hooks[..n], ex);
      var hook := AsMap(hooks[n]);
      OneHookTally(hook, ex);
      assert Field(FilterHooks(hooks, ex)[n], "selectors") == Get(FilterHook(hook, ex), "selectors");
    }
  }

  lemma OneHookTally(hook: Fields, ex: Exclusions)
    ensures var sels, after := SelectorsOf(hook), Items(Get(FilterHook(hook, ex), "selectors"));
            && |after| == |sels| && HookTally(hook, ex).selectors == |sels|
            && (ex.paths != [] ==>
                  var filtered := FilteredAmong(sels, after, IndexFor(hook, ex));
                  filtered <= |sels| && HookTally(hook, ex) == Tally(|sels|, filtered, |sels| - filtered))
  {
    hide SelectorsTally, FilteredAmong, IndexFor, SelectorsOf, FilterRaw;
    TallyIs(SelectorsOf(hook), ex, IndexFor(hook, ex));
  }

  lemma GroupIs(spec: Fields, ex: Exclusions, group: string)
    requires group in GROUPS
    ensures var t, after := HooksTally(Items(Get(spec, group)), ex), Items(Get(SpecAfter(spec, ex), group));
            && t.selectors == SelectorsIn(after)
            && (ex.paths != [] ==>
                  t.landed == FilteredGroup(spec, SpecAfter(spec, ex), group, ex) && t.landed + t.missed == t.selectors)
  {
    hide FilterHooks, HooksTally, FilteredIn, SelectorsIn, SpecAfter;
    Laws.SpecAfterAt(spec, ex, group);
    var hooks := Items(Get(spec, group));
    assert group != "podSelector" && group != "containerSelector";
    HooksTallyIs(hooks, ex);
    if Get(spec, group).Arr? {
      assert Items(Get(SpecAfter(spec, ex), group)) == FilterHooks(hooks, ex);
      HooksKept(hooks, ex);
    } else {
      assert Items(Get(SpecAfter(spec, ex), group)) == [] == hooks;
      NoHooksNoTally(ex);
    }
  }

  lemma HooksKept(hooks: seq<Json>, ex: Exclusions)
    ensures |FilterHooks(hooks, ex)| == |hooks|
  {
  }

  lemma NoHooksNoTally(ex: Exclusions)
    ensures FilterHooks([], ex) == []
  {
  }

  lemma AllGroups(spec: Fields, ex: Exclusions)
    ensures GroupsTally(spec, GROUPS, ex) ==
            HooksTally(Items(Get(spec, "kprobes")), ex).Plus(HooksTally(Items(Get(spec, "tracepoints")), ex))
            .Plus(HooksTally(Items(Get(spec, "uprobes")), ex)).Plus(HooksTally(Items(Get(spec, "lsmhooks")), ex))
    ensures forall g :: g in {"kprobes", "tracepoints", "uprobes", "lsmhooks"} ==> g in GROUPS
  {
    hide HooksTally, GroupsTally;
    GroupsGrow(spec, [], "kprobes", ex);
    GroupsGrow(spec, ["kprobes"], "tracepoints", ex);
    GroupsGrow(spec, ["kprobes", "tracepoints"], "uprobes", ex);
    GroupsGrow(spec, ["kprobes", "tracepoints", "uprobes"], "lsmhooks", ex);
    NoGroups(spec, ex);
    assert [] + ["kprobes"] == ["kprobes"] && ["kprobes"] + ["tracepoints"] == ["kprobes", "tracepoints"];
    assert ["kprobes", "tracepoints"] + ["uprobes"] == ["kprobes", "tracepoints", "uprobes"];
    assert ["kprobes", "tracepoints", "uprobes"] + ["lsmhooks"] == GROUPS;
  }

  lemma NoHooksCount(spec: Fields)
    ensures HookCount(spec) == 0 <==> NoHooks(spec)
  {
  }

  lemma GroupsGrow(spec: Fields, groups: seq<string>, group: string, ex: Exclusions)
    ensures GroupsTally(spec, groups + [group], ex) ==
            GroupsTally(spec, groups, ex).Plus(HooksTally(Items(Get(spec, group)), ex))
  {
    hide HooksTally;
    assert (groups + [group])[..|groups|] == groups;
  }

  lemma TotalIs(spec: Fields, ex: Exclusions)
    ensures var after := SpecAfter(spec, ex);
            var t, n, filtered := GroupsTally(spec, GROUPS, ex), SelectorCount(after), FilteredCount(spec, after, ex);
            t.selectors == n && (ex.paths != [] ==> filtered <= n && t.landed == filtered && t.missed == n - filtered)
  {
    hide HooksTally, SelectorsIn, FilteredGroup, SpecAfter, GroupsTally, HookCount, NoHooks;
    AllGroups(spec, ex);
    GroupIs(spec, ex, "kprobes");
    GroupIs(spec, ex, "tracepoints");
    GroupIs(spec, ex, "uprobes");
    GroupIs(spec, ex, "lsmhooks");
  }

  // ----- what the notes say

  function LabelExprs(spec: Fields): nat {
    |Items(Field(Get(spec, "podSelector"), "matchExpressions"))|
  }

  /**
   The notes: how many labels are excluded that were not, how many names were asked for, how many selectors there
   are afterwards, each with the binaries and parents merged, and how many of them filter paths and how many do not.
   A policy without hooks is told so, once.
   */
  lemma NotesMean(spec: Fields, ex: Exclusions, note: Note)
    ensures var after := SpecAfter(spec, ex);
            var labels := LabelExprs(after) - LabelExprs(spec);
            var n, filtered := SelectorCount(after), FilteredCount(spec, after, ex);
            && labels >= 0 && (ex.paths != [] ==> filtered <= n)
            && (note in NotesFor(spec, ex) <==>
                || (ex.podLabels != [] && note == Note("podLabels", labels > 0, labels, 0))
                || (ex.containers != [] && note == Note("containers", true, |ex.containers|, 0))
                || if NoHooks(spec) && (ex.binaries != [] || ex.parentBinaries != [] || ex.paths != [])
                   then note == Note("binaries", false, 0, 0)
                   else
                     || (ex.binaries != [] && note == Note("binaries", n > 0, n, 0))
                     || (ex.parentBinaries != [] && note == Note("parentBinaries", n > 0, n, 0))
                     || (ex.paths != [] && note == Note("paths", filtered > 0, filtered, n - filtered)))
  {
    hide SelectorCount, FilteredCount, SpecAfter, GroupsTally, HookCount, LabelExprs, NoHooks, HookNotes, SelectorNotes,
         Tally.Plus;
    var after := SpecAfter(spec, ex);
    NoHooksCount(spec);
    TotalIs(spec, ex);
    HookNotesMean(GroupsTally(spec, GROUPS, ex), ex, SelectorCount(after), FilteredCount(spec, after, ex), note);
    SelectorNotesMean(spec, ex, note);
  }

  lemma HookNotesMean(t: Tally, ex: Exclusions, n: nat, filtered: nat, note: Note)
    requires t.selectors == n && (ex.paths != [] ==> t.landed == filtered <= n && t.missed == n - filtered)
    ensures note in HookNotes(t, ex) <==>
            || (ex.binaries != [] && note == Note("binaries", n > 0, n, 0))
            || (ex.parentBinaries != [] && note == Note("parentBinaries", n > 0, n, 0))
            || (ex.paths != [] && note == Note("paths", filtered > 0, filtered, n - filtered))
  {
  }

  lemma SelectorNotesMean(spec: Fields, ex: Exclusions, note: Note)
    ensures var labels := LabelExprs(SpecAfter(spec, ex)) - LabelExprs(spec);
            && labels >= 0
            && (note in SelectorNotes(spec, ex) <==>
                || (ex.podLabels != [] && note == Note("podLabels", labels > 0, labels, 0))
                || (ex.containers != [] && note == Note("containers", true, |ex.containers|, 0)))
  {
    hide SpecAfter, LabelExprs, LabelsAdded;
    LabelsMean(spec, ex);
  }

  lemma LabelsMean(spec: Fields, ex: Exclusions)
    ensures LabelExprs(SpecAfter(spec, ex)) >= LabelExprs(spec)
    ensures ex.podLabels != [] ==>
              LabelsAdded(ExprsOf(Get(spec, "podSelector")), ex.podLabels) ==
                  LabelExprs(SpecAfter(spec, ex)) - LabelExprs(spec)
  {
    hide SpecAfter, AddPairs;
    Laws.SpecAfterAt(spec, ex, "podSelector");
    var selector := Get(spec, "podSelector");
    AddPairsGrows(ExprsOf(selector), ex.podLabels);
    Laws.AddPairsIsExprs(ExprsOf(selector), ex.podLabels);
    assert Items(ExprsOf(selector)) == Items(Field(selector, "matchExpressions"));
  }

  /** A null selector counts as filtered on its path, and matches everything afterwards. */
  lemma NoteOverstates(ex: Exclusions)
    requires ex.paths != [] && ex.pathArgIndex == Some(0)
    ensures var hook: Fields := map["selectors" := Arr([Null])];
            HookTally(hook, ex) == Tally(1, 1, 0) && Get(FilterHook(hook, ex), "selectors") == Arr([Obj(map[])])
  {
    hide FilterSelector, PathLands, PathIndexIn, SelectorsTally, FilterSelectors;
    var hook: Fields := map["selectors" := Arr([Null])];
    assert SelectorsOf(hook) == [Null] && IndexFor(hook, ex) == Some(0);
    OneNoMap(Null, ex, Some(0));
  }

  lemma OneNoMap(raw: Json, ex: Exclusions, index: Option<int>)
    requires !raw.Obj? && index.Some? && ex.paths != []
    ensures SelectorsTally([raw], ex, index) == Tally(1, 1, 0) && FilterSelectors([raw], ex, index) == [Obj(map[])]
  {
    hide FilterSelector, PathLands, SelectorTally;
    OneTally(raw, ex, index);
    assert [raw][..0] == [];
    NoTally(ex, index);
  }

  lemma NoTally(ex: Exclusions, index: Option<int>)
    ensures SelectorsTally([], ex, index) == Tally(0, 0, 0)
  {
  }
}
