/**
 What the notes of a built policy say (frontend/src/lib/libraryYaml.ts:307-371): each number is read off the spec
 before and after, without the counters that the source keeps.
 */
module LibraryNotes {
  import opened Json
  import opened Library
  import opened Option

  // ----- counting selectors that changed

  /** The selectors whose filters under a key are other ones afterwards. */
  function ChangedAmong(before: seq<Json>, after: seq<Json>, key: string): nat
    requires |before| == |after|
  {
    if before == [] then 0
    else
      var n := |before| - 1;
      ChangedAmong(before[..n], after[..n], key) + if Field(after[n], key) != Field(before[n], key) then 1 else 0
  }

  /** The selectors of a hook, where a missing list stands for one that is empty. */
  function SelectorsOf(hook: Json): seq<Json> {
    if Field(hook, "selectors").Arr? then Field(hook, "selectors").items else [Obj(map[])]
  }

  function ChangedInHooks(before: seq<Json>, after: seq<Json>, key: string): nat
    requires |before| == |after|
  {
    if before == [] then 0
    else
      var n := |before| - 1;
      var b, a := SelectorsOf(before[n]), SelectorsOf(after[n]);
      ChangedInHooks(before[..n], after[..n], key) + if |b| == |a| then ChangedAmong(b, a, key) else 0
  }

  function ChangedInGroup(before: Fields, after: Fields, group: string, key: string): nat {
    var b, a := Items(Get(before, group)), Items(Get(after, group));
    if |b| == |a| then ChangedInHooks(b, a, key) else 0
  }

  /** All selectors of all hooks whose filters under the key changed. */
  function Changed(before: Fields, after: Fields, key: string): nat {
    ChangedInGroup(before, after, "kprobes", key) + ChangedInGroup(before, after, "tracepoints", key) +
    ChangedInGroup(before, after, "uprobes", key) + ChangedInGroup(before, after, "lsmhooks", key) +
    ChangedInGroup(before, after, "usdts", key)
  }

  function SelectorsIn(hooks: seq<Json>): nat {
    if hooks == [] then 0 else SelectorsIn(hooks[..|hooks| - 1]) + |SelectorsOf(hooks[|hooks| - 1])|
  }

  function SelectorCount(spec: Fields): nat {
    SelectorsIn(Items(Get(spec, "kprobes"))) + SelectorsIn(Items(Get(spec, "tracepoints"))) +
    SelectorsIn(Items(Get(spec, "uprobes"))) + SelectorsIn(Items(Get(spec, "lsmhooks"))) +
    SelectorsIn(Items(Get(spec, "usdts")))
  }

  // ----- the counters agree

  /** Selectors seen, and those that changed under each key. */
  datatype Seen = Seen(selectors: nat, binaries: nat, parents: nat, paths: nat) {
    function Plus(o: Seen): Seen {
      Seen(selectors + o.selectors, binaries + o.binaries, parents + o.parents, paths + o.paths)
    }
  }

  /** The hits are about selectors that changed, and the misses about those that did not. */
  predicate Agrees(hits: Hits, seen: Seen, ex: Excluded) {
    && hits.binaries == seen.binaries && hits.parents == seen.parents && hits.paths == seen.paths
    && seen.paths <= seen.selectors && hits.misses == if ex.paths == [] then 0 else seen.selectors - seen.paths
  }

  lemma Together(ex: Excluded)
    ensures forall h: Hits, s, h': Hits, s' :: Agrees(h, s, ex) && Agrees(h', s', ex) ==>
              Agrees(h.Plus(h'), s.Plus(s'), ex)
  {
  }

  function SeenAmong(before: seq<Json>, after: seq<Json>): Seen
    requires |before| == |after|
  {
    Seen(|before|, ChangedAmong(before, after, "matchBinaries"), ChangedAmong(before, after, "matchParentBinaries"),
         ChangedAmong(before, after, "matchArgs"))
  }

  function SeenInHooks(before: seq<Json>, after: seq<Json>): Seen
    requires |before| == |after|
  {
    Seen(SelectorsIn(after), ChangedInHooks(before, after, "matchBinaries"),
         ChangedInHooks(before, after, "matchParentBinaries"), ChangedInHooks(before, after, "matchArgs"))
  }

  function SeenInGroup(before: Fields, after: Fields, group: string): Seen {
    Seen(SelectorsIn(Items(Get(after, group))), ChangedInGroup(before, after, group, "matchBinaries"),
         ChangedInGroup(before, after, group, "matchParentBinaries"), ChangedInGroup(before, after, group, "matchArgs"))
  }

  lemma OneSelector(sel: Json, ex: Excluded, index: Option<int>)
    ensures var after := Obj(SelectorAfter(AsMap(sel), ex, index));
            Agrees(SelectorHits(AsMap(sel), ex, index),
                   Seen(1, if Field(after, "matchBinaries") != Field(sel, "matchBinaries") then 1 else 0,
                        if Field(after, "matchParentBinaries") != Field(sel, "matchParentBinaries") then 1 else 0,
                        if Field(after, "matchArgs") != Field(sel, "matchArgs") then 1 else 0), ex)
  {
    hide BinaryClause, ParentClause, PathClause, Constrains;
    var args := Field(sel, "matchArgs");
    assert TakesPaths(AsMap(sel), ex, index) ==>
        var more := Append(args, PathClause(index.value, ex.paths)); |Items(more)| == |Items(args)| + 1;
  }

  lemma {:induction false} Selectors(sels: seq<Json>, ex: Excluded, index: Option<int>)
    ensures Agrees(SelectorsHits(sels, ex, index), SeenAmong(sels, SelectorsAfter(sels, ex, index)), ex)
  {
    hide SelectorAfter, SelectorHits;
    if sels != [] {
      var n := |sels| - 1;
      Selectors(sels[..n], ex, index);
      OneSelector(sels[n], ex, index);
      assert SelectorsAfter(sels, ex, index)[..n] == SelectorsAfter(sels[..n], ex, index);
    }
  }

  lemma OneHook(hook: Json, ex: Excluded)
    requires ex.FiltersHooks()
    ensures var before, after := SelectorsOf(hook), SelectorsOf(Obj(HookAfter(AsMap(hook), ex)));
            |before| == |after| && Agrees(HookHits(AsMap(hook), ex), SeenAmong(before, after), ex)
  {
    hide SelectorAfter, SelectorsHits, ChangedAmong, PathIndexIn, Agrees;
    Selectors(Filtered(AsMap(hook)), ex, PathIndexIn(Items(Field(hook, "args"))));
  }

  lemma {:induction false} Hooks(hooks: seq<Json>, ex: Excluded)
    requires ex.FiltersHooks()
    ensures Agrees(HooksHits(hooks, ex), SeenInHooks(hooks, HooksAfter(hooks, ex)), ex)
  {
    hide HookAfter, HookHits, ChangedAmong, SelectorsOf;
    if hooks != [] {
      var n := |hooks| - 1;
      Hooks(hooks[..n], ex);
      OneHook(hooks[n], ex);
      assert HooksAfter(hooks, ex)[..n] == HooksAfter(hooks[..n], ex);
    }
  }

  lemma Group(spec: Fields, ex: Excluded, group: string)
    requires ex.FiltersHooks() && group in HOOK_GROUPS
    ensures Agrees(HooksHits(Items(Get(spec, group)), ex), SeenInGroup(spec, SpecAfter(spec, ex), group), ex)
  {
    hide HooksAfter, HooksHits, SelectorsIn, ChangedInHooks, Agrees, Library.SelectorsIn;
    var hooks, after := Items(Get(spec, group)), Items(Get(SpecAfter(spec, ex), group));
    SelectorsKeepGroups(spec, ex);
    Hooks(hooks, ex);
    HooksKept(hooks, ex);
    HooksKept([], ex);
    assert after == HooksAfter(hooks, ex);
  }

  lemma HooksKept(hooks: seq<Json>, ex: Excluded)
    ensures |HooksAfter(hooks, ex)| == |hooks|
  {
  }

  lemma GroupsGrow(spec: Fields, groups: seq<string>, group: string, ex: Excluded)
    ensures GroupsHits(spec, groups + [group], ex) ==
            GroupsHits(spec, groups, ex).Plus(HooksHits(Items(Get(spec, group)), ex))
  {
    hide HooksHits;
    assert (groups + [group])[..|groups|] == groups;
  }

  lemma AllGroups(spec: Fields, ex: Excluded)
    ensures GroupsHits(spec, HOOK_GROUPS, ex) ==
            HooksHits(Items(Get(spec, "kprobes")), ex).Plus(HooksHits(Items(Get(spec, "tracepoints")), ex))
            .Plus(HooksHits(Items(Get(spec, "uprobes")), ex)).Plus(HooksHits(Items(Get(spec, "lsmhooks")), ex))
            .Plus(HooksHits(Items(Get(spec, "usdts")), ex))
  {
    hide HooksHits, GroupsHits;
    GroupsGrow(spec, [], "kprobes", ex);
    GroupsGrow(spec, ["kprobes"], "tracepoints", ex);
    GroupsGrow(spec, ["kprobes", "tracepoints"], "uprobes", ex);
    GroupsGrow(spec, ["kprobes", "tracepoints", "uprobes"], "lsmhooks", ex);
    GroupsGrow(spec, ["kprobes", "tracepoints", "uprobes", "lsmhooks"], "usdts", ex);
    NoGroups(spec, ex);
    assert [] + ["kprobes"] == ["kprobes"] && ["kprobes"] + ["tracepoints"] == ["kprobes", "tracepoints"];
    assert ["kprobes", "tracepoints"] + ["uprobes"] == ["kprobes", "tracepoints", "uprobes"];
    assert ["kprobes", "tracepoints", "uprobes"] + ["lsmhooks"] == ["kprobes", "tracepoints", "uprobes", "lsmhooks"];
    assert ["kprobes", "tracepoints", "uprobes", "lsmhooks"] + ["usdts"] == HOOK_GROUPS;
  }

  lemma NoGroups(spec: Fields, ex: Excluded)
    ensures GroupsHits(spec, [], ex) == NO_HITS
  {
  }

  function SeenInAll(before: Fields, after: Fields): Seen {
    SeenInGroup(before, after, "kprobes").Plus(SeenInGroup(before, after, "tracepoints"))
    .Plus(SeenInGroup(before, after, "uprobes")).Plus(SeenInGroup(before, after, "lsmhooks"))
    .Plus(SeenInGroup(before, after, "usdts"))
  }

  lemma SeenInAllIs(before: Fields, after: Fields)
    ensures SeenInAll(before, after) ==
            Seen(SelectorCount(after), Changed(before, after, "matchBinaries"),
                 Changed(before, after, "matchParentBinaries"), Changed(before, after, "matchArgs"))
  {
    hide SelectorsIn, ChangedInGroup;
  }

  lemma Total(spec: Fields, ex: Excluded)
    requires ex.FiltersHooks()
    ensures Agrees(GroupsHits(spec, HOOK_GROUPS, ex), SeenInAll(spec, SpecAfter(spec, ex)), ex)
  {
    hide HooksHits, SeenInGroup, SpecAfter, GroupsHits, Agrees, Hits.Plus, Seen.Plus;
    AllGroups(spec, ex);
    Group(spec, ex, "kprobes");
    Group(spec, ex, "tracepoints");
    Group(spec, ex, "uprobes");
    Group(spec, ex, "lsmhooks");
    Group(spec, ex, "usdts");
    Together(ex);
  }

  // ----- what the notes say

  /**
   The notes: labels and names as many as were asked for; binaries, parents and paths applied exactly when a selector
   has other filters for them afterwards, with the number of those selectors, and for paths that of the others.
   */
  lemma NotesMean(spec: Fields, ex: Excluded, note: Note)
    ensures var after := SpecAfter(spec, ex);
            var binaries, parents := Changed(spec, after, "matchBinaries"), Changed(spec, after, "matchParentBinaries");
            var paths, n := Changed(spec, after, "matchArgs"), SelectorCount(after);
            && (ex.paths != [] ==> paths <= n)
            && (note in NotesFor(spec, ex) <==>
                || (ex.podLabels != [] && note == Note("podLabels", true, |ex.podLabels|, 0))
                || (ex.containers != [] && note == Note("containers", true, |ex.containers|, 0))
                || (ex.binaries != [] && note == Note("binaries", binaries > 0, binaries, 0))
                || (ex.parentBinaries != [] && note == Note("parentBinaries", parents > 0, parents, 0))
                || (ex.paths != [] && note == Note("paths", paths > 0, paths, n - paths)))
  {
    hide Changed, SelectorCount, SpecAfter, GroupsHits, SelectorNotes, HookNotes, SeenInAll;
    SelectorNotesMean(ex, note);
    HookNotesMean(GroupsHits(spec, HOOK_GROUPS, ex), ex, note);
    if ex.FiltersHooks() {
      Total(spec, ex);
      SeenInAllIs(spec, SpecAfter(spec, ex));
    }
  }

  lemma SelectorNotesMean(ex: Excluded, note: Note)
    ensures note in SelectorNotes(ex) <==>
            || (ex.podLabels != [] && note == Note("podLabels", true, |ex.podLabels|, 0))
            || (ex.containers != [] && note == Note("containers", true, |ex.containers|, 0))
  {
  }

  lemma HookNotesMean(hits: Hits, ex: Excluded, note: Note)
    ensures note in HookNotes(hits, ex) <==>
            || (ex.binaries != [] && note == Note("binaries", hits.binaries > 0, hits.binaries, 0))
            || (ex.parentBinaries != [] && note == Note("parentBinaries", hits.parents > 0, hits.parents, 0))
            || (ex.paths != [] && note == Note("paths", hits.paths > 0, hits.paths, hits.misses))
  {
  }
}
