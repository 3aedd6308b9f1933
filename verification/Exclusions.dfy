/**
 Injecting exclusions into a TracingPolicy manifest (backend/internal/k8s/exclusions.go). The methods follow the
 source's loops and are proved equal to functions; ExclusionLaws and ExclusionMeaning say what these promise.
 */
module Exclusions {
  import opened Option
  import opened Json
  import Text

  type Fields = map<string, Json>

  datatype Exclusions = Exclusions(
    binaries: seq<string>,
    parentBinaries: seq<string>,
    paths: seq<string>,
    pathArgIndex: Option<int>,
    podLabels: seq<string>,
    containers: seq<string>)
  {
    /** Asks for a filter inside hook selectors. */
    predicate FiltersHooks() {
      binaries != [] || parentBinaries != [] || paths != []
    }
  }

  /** What landed (`count`) and what did not (`skipped`), per dimension. */
  datatype Note = Note(dimension: string, applied: bool, count: nat, skipped: nat)

  datatype Error = ParseError | NoSpec

  const GROUPS: seq<string> := ["kprobes", "tracepoints", "uprobes", "lsmhooks"]

  // ----- merging into the first clause that fits

  /** The clause a merge looks for. */
  datatype Target = NotIn | NotInOn(key: string) | AtIndex(index: int)

  predicate Fits(t: Target, item: Json) {
    match t
    case NotIn => Field(item, "operator") == Str("NotIn")
    case NotInOn(key) => Field(item, "key") == Str(key) && Field(item, "operator") == Str("NotIn")
    case AtIndex(index) => IntOf(Field(item, "index")) == index
  }

  /** The clause that is added when nothing fits, before it is given its values. */
  function Blank(t: Target): Json {
    match t
    case NotIn => Obj(map["operator" := Str("NotIn"), "followChildren" := Bool(false)])
    case NotInOn(key) => Obj(map["key" := Str(key), "operator" := Str("NotIn")])
    case AtIndex(index) => Obj(map["index" := Num(index), "operator" := Str("NotPrefix")])
  }

  /** Position of the first fitting clause, or the length when there is none. */
  function FirstFit(t: Target, items: seq<Json>): (i: nat)
    ensures i <= |items|
    ensures i < |items| ==> Fits(t, items[i])
    ensures forall j :: 0 <= j < i ==> !Fits(t, items[j])
  {
    if items == [] || Fits(t, items[0]) then 0 else 1 + FirstFit(t, items[1..])
  }

  /** A clause whose value list is merged with `values`. */
  function WithValues(item: Json, values: seq<string>): Json {
    Obj(AsMap(item)["values" := ToAny(Text.UnionOf(ToStrings(Field(item, "values")), values))])
  }

  /** Merge `values` into the first fitting clause, or append a new clause. */
  function Merge(t: Target, existing: Json, values: seq<string>): Json {
    var items := Items(existing);
    var i := FirstFit(t, items);
    if i < |items| then Arr(items[i := WithValues(items[i], values)])
    else Arr(items + [WithValues(Blank(t), values)])
  }

  method MergeClause(t: Target, existing: Json, values: seq<string>) returns (r: Json)
    ensures r == Merge(t, existing, values)
  {
    var items := Items(existing);
    for i := 0 to |items|
      invariant forall j :: 0 <= j < i ==> !Fits(t, items[j])
    {
      if Fits(t, items[i]) {
        var merged := Text.Union(ToStrings(Field(items[i], "values")), values);
        return Arr(items[i := Obj(AsMap(items[i])["values" := ToAny(merged)])]);
      }
    }
    var merged := Text.Union([], values);
    r := Arr(items + [Obj(AsMap(Blank(t))["values" := ToAny(merged)])]);
  }

  // ----- one selector

  /** Whether a path filter may go in: the index is free, or its first clause is already a NotPrefix. */
  predicate PathLands(args: Json, index: int) {
    var items := Items(args);
    var i := FirstFit(AtIndex(index), items);
    i == |items| || Field(items[i], "operator") == Str("NotPrefix")
  }

  predicate PathApplies(sel: Fields, ex: Exclusions, index: Option<int>) {
    ex.paths != [] && index.Some? && PathLands(Get(sel, "matchArgs"), index.value)
  }

  function FilterSelector(sel: Fields, ex: Exclusions, index: Option<int>): Fields {
    var s := if ex.binaries == [] then sel
             else sel["matchBinaries" := Merge(NotIn, Get(sel, "matchBinaries"), ex.binaries)];
    var s := if ex.parentBinaries == [] then s
             else s["matchParentBinaries" := Merge(NotIn, Get(sel, "matchParentBinaries"), ex.parentBinaries)];
    if PathApplies(sel, ex, index)
    then s["matchArgs" := Merge(AtIndex(index.value), Get(sel, "matchArgs"), ex.paths)]
    else s
  }

  method ApplyPathFilter(sel: Fields, index: int, paths: seq<string>) returns (r: Fields, landed: bool)
    ensures landed == PathLands(Get(sel, "matchArgs"), index)
    ensures r == if landed then sel["matchArgs" := Merge(AtIndex(index), Get(sel, "matchArgs"), paths)] else sel
  {
    var args := Get(sel, "matchArgs");
    var items := Items(args);
    for i := 0 to |items|
      invariant forall j :: 0 <= j < i ==> !Fits(AtIndex(index), items[j])
    {
      if IntOf(Field(items[i], "index")) == index {
        if Field(items[i], "operator") == Str("NotPrefix") {
          var merged := Text.Union(ToStrings(Field(items[i], "values")), paths);
          var item := Obj(AsMap(items[i])["values" := ToAny(merged)]);
          return sel["matchArgs" := Arr(items[i := item])], true;
        }
        return sel, false;
      }
    }
    var merged := Text.Union([], paths);
    var item := Obj(AsMap(Blank(AtIndex(index)))["values" := ToAny(merged)]);
    return sel["matchArgs" := Append(args, item)], true;
  }

  // ----- one hook

  predicate IsPathType(t: Json) {
    t in {Str("file"), Str("path"), Str("string"), Str("fd"), Str("dentry")}
  }

  /** Index of the first argument a NotPrefix can filter, or -1. */
  function PathIndexIn(args: seq<Json>): int {
    if args == [] then -1
    else if IsPathType(Field(args[0], "type")) then IntOf(Field(args[0], "index"))
    else PathIndexIn(args[1..])
  }

  /** Argument `i` is the first one of a path type. */
  predicate FirstPathArg(args: seq<Json>, i: nat) {
    i < |args| && IsPathType(Field(args[i], "type")) && forall j :: 0 <= j < i ==> !IsPathType(Field(args[j], "type"))
  }

  /** The recursion finds the index that the first argument of a path type declares, and -1 only without one. */
  lemma {:induction false} PathIndexIsFirst(args: seq<Json>)
    ensures forall i: nat :: FirstPathArg(args, i) ==> PathIndexIn(args) == IntOf(Field(args[i], "index"))
    ensures (forall i: nat :: !FirstPathArg(args, i)) ==> PathIndexIn(args) == -1
  {
    hide IsPathType;
    if args != [] {
      PathIndexIsFirst(args[1..]);
      if IsPathType(Field(args[0], "type")) {
        assert FirstPathArg(args, 0);
      } else {
        forall i: nat | FirstPathArg(args, i) ensures i > 0 && FirstPathArg(args[1..], i - 1) {
          assert args[1..][i - 1] == args[i];
        }
        forall i: nat | FirstPathArg(args[1..], i) ensures FirstPathArg(args, i + 1) {
          assert forall j :: 0 < j <= i ==> args[j] == args[1..][j - 1];
        }
      }
    }
  }

  /** The argument index path exclusions use: the caller's, else the one guessed from the hook. */
  function IndexFor(hook: Fields, ex: Exclusions): Option<int> {
    if ex.pathArgIndex.Some? then ex.pathArgIndex
    else
      var guessed := PathIndexIn(Items(Get(hook, "args")));
      if guessed >= 0 then Some(guessed) else None
  }

  /** A hook without selectors is given one that is empty. */
  function SelectorsOf(hook: Fields): (sels: seq<Json>)
    ensures sels != []
  {
    var sels := Items(Get(hook, "selectors"));
    if sels == [] then [Obj(map[])] else sels
  }

  /** A selector that is not a map is replaced by an empty one, which stays unfiltered. */
  function FilterRaw(raw: Json, ex: Exclusions, index: Option<int>): Json {
    if raw.Obj? then Obj(FilterSelector(raw.fields, ex, index)) else Obj(map[])
  }

  function FilterSelectors(sels: seq<Json>, ex: Exclusions, index: Option<int>): seq<Json> {
    seq(|sels|, i requires 0 <= i < |sels| => FilterRaw(sels[i], ex, index))
  }

  function FilterHook(hook: Fields, ex: Exclusions): Fields {
    hook["selectors" := Arr(FilterSelectors(SelectorsOf(hook), ex, IndexFor(hook, ex)))]
  }

  /** Selectors met, and how many of them took or refused the path filter. */
  datatype Tally = Tally(selectors: nat, landed: nat, missed: nat) {
    function Plus(o: Tally): Tally {
      Tally(selectors + o.selectors, landed + o.landed, missed + o.missed)
    }
  }

  function SelectorTally(raw: Json, ex: Exclusions, index: Option<int>): Tally {
    if ex.paths == [] then Tally(1, 0, 0)
    else if PathApplies(AsMap(raw), ex, index) then Tally(1, 1, 0)
    else Tally(1, 0, 1)
  }

  function SelectorsTally(sels: seq<Json>, ex: Exclusions, index: Option<int>): Tally {
    if sels == [] then Tally(0, 0, 0)
    else SelectorsTally(sels[..|sels| - 1], ex, index).Plus(SelectorTally(sels[|sels| - 1], ex, index))
  }

  function HookTally(hook: Fields, ex: Exclusions): Tally {
    SelectorsTally(SelectorsOf(hook), ex, IndexFor(hook, ex))
  }

  method PathArgIndex(hook: Fields) returns (index: int)
    ensures forall i: nat :: FirstPathArg(Items(Get(hook, "args")), i) ==>
              index == IntOf(Field(Items(Get(hook, "args"))[i], "index"))
    ensures (forall i: nat :: !FirstPathArg(Items(Get(hook, "args")), i)) ==> index == -1
    ensures index == PathIndexIn(Items(Get(hook, "args")))
  {
    hide IsPathType, PathIndexIn;
    var args := Items(Get(hook, "args"));
    PathIndexIsFirst(args);
    for i := 0 to |args|
      invariant forall j :: 0 <= j < i ==> !IsPathType(Field(args[j], "type"))
    {
      if IsPathType(Field(args[i], "type")) {
        assert FirstPathArg(args, i);
        return IntOf(Field(args[i], "index"));
      }
    }
    return -1;
  }

  method FilterSelectorInPlace(raw: Json, ex: Exclusions, index: Option<int>) returns (r: Json, tally: Tally)
    ensures r == FilterRaw(raw, ex, index)
    ensures tally == SelectorTally(raw, ex, index)
  {
    hide Merge, PathLands;
    var sel := AsMap(raw);
    tally := Tally(1, 0, 0);
    if ex.binaries != [] {
      var merged := MergeClause(NotIn, Get(sel, "matchBinaries"), ex.binaries);
      sel := sel["matchBinaries" := merged];
    }
    if ex.parentBinaries != [] {
      var merged := MergeClause(NotIn, Get(sel, "matchParentBinaries"), ex.parentBinaries);
      sel := sel["matchParentBinaries" := merged];
    }
    if ex.paths != [] {
      var landed := false;
      if index.Some? {
        sel, landed := ApplyPathFilter(sel, index.value, ex.paths);
      }
      tally := if landed then Tally(1, 1, 0) else Tally(1, 0, 1);
    }
    // A raw selector that is no map was only read through a scratch map, which is dropped here.
    r := if raw.Obj? then Obj(sel) else Obj(map[]);
  }

  method FilterSelectorsInPlace(sels: seq<Json>, ex: Exclusions, index: Option<int>)
    returns (selectors: seq<Json>, tally: Tally)
    ensures selectors == FilterSelectors(sels, ex, index)
    ensures tally == SelectorsTally(sels, ex, index)
  {
    hide FilterRaw, SelectorTally;
    selectors := sels;
    tally := Tally(0, 0, 0);
    for i := 0 to |selectors|
      invariant |selectors| == |sels|
      invariant forall j :: 0 <= j < i ==> selectors[j] == FilterRaw(sels[j], ex, index)
      invariant forall j :: i <= j < |sels| ==> selectors[j] == sels[j]
      invariant tally == SelectorsTally(sels[..i], ex, index)
    {
      var sel, t := FilterSelectorInPlace(selectors[i], ex, index);
      selectors := selectors[i := sel];
      tally := tally.Plus(t);
      assert sels[..i + 1][..i] == sels[..i];
    }
    assert sels[..|sels|] == sels;
  }

  method FilterHookInPlace(hook: Fields, ex: Exclusions) returns (r: Fields, tally: Tally)
    ensures r == FilterHook(hook, ex)
    ensures tally == HookTally(hook, ex)
  {
    hide PathIndexIn, FilterSelectors, SelectorsTally;
    var selectors := Items(Get(hook, "selectors"));
    if selectors == [] {
      selectors := [Obj(map[])];
    }
    var index := ex.pathArgIndex;
    if index == None {
      var guessed := PathArgIndex(hook);
      if guessed >= 0 {
        index := Some(guessed);
      }
    }
    assert selectors == SelectorsOf(hook);
    assert index == IndexFor(hook, ex);
    selectors, tally := FilterSelectorsInPlace(selectors, ex, index);
    r := hook["selectors" := Arr(selectors)];
  }

  // ----- one hook group, all groups

  function FilterHooks(items: seq<Json>, ex: Exclusions): seq<Json> {
    seq(|items|, i requires 0 <= i < |items| => Obj(FilterHook(AsMap(items[i]), ex)))
  }

  function GroupAfter(group: Json, ex: Exclusions): Json {
    if group.Arr? then Arr(FilterHooks(group.items, ex)) else group
  }

  function GroupsAfter(spec: Fields, groups: seq<string>, ex: Exclusions): Fields {
    map k | k in spec :: if k in groups then GroupAfter(spec[k], ex) else spec[k]
  }

  function HooksTally(items: seq<Json>, ex: Exclusions): Tally {
    if items == [] then Tally(0, 0, 0)
    else HooksTally(items[..|items| - 1], ex).Plus(HookTally(AsMap(items[|items| - 1]), ex))
  }

  function GroupsTally(spec: Fields, groups: seq<string>, ex: Exclusions): Tally {
    if groups == [] then Tally(0, 0, 0)
    else GroupsTally(spec, groups[..|groups| - 1], ex).Plus(HooksTally(Items(Get(spec, groups[|groups| - 1])), ex))
  }

  method FilterGroupInPlace(items: seq<Json>, ex: Exclusions) returns (r: seq<Json>, tally: Tally)
    ensures r == FilterHooks(items, ex)
    ensures tally == HooksTally(items, ex)
  {
    hide FilterHook, HookTally;
    r := items;
    tally := Tally(0, 0, 0);
    for i := 0 to |items|
      invariant |r| == |items|
      invariant forall j :: 0 <= j < i ==> r[j] == Obj(FilterHook(AsMap(items[j]), ex))
      invariant forall j :: i <= j < |items| ==> r[j] == items[j]
      invariant tally == HooksTally(items[..i], ex)
    {
      var hook, t := FilterHookInPlace(AsMap(r[i]), ex);
      r := r[i := Obj(hook)];
      tally := tally.Plus(t);
      assert items[..i + 1][..i] == items[..i];
    }
    assert items[..|items|] == items;
  }

  // ----- the pod and container selectors

  function HasExpr(exprs: seq<Json>, key: string, op: string, value: string): bool {
    exprs != [] &&
    ((Field(exprs[0], "key") == Str(key) && Field(exprs[0], "operator") == Str(op) &&
      value in ToStrings(Field(exprs[0], "values"))) ||
     HasExpr(exprs[1..], key, op, value))
  }

  function NotInExpr(key: string, value: string): Json {
    Obj(map["key" := Str(key), "operator" := Str("NotIn"), "values" := Arr([Str(value)])])
  }

  function AddPair(exprs: Json, pair: string): Json {
    match SplitPair(pair)
    case None => exprs
    case Some((k, v)) => if HasExpr(Items(exprs), k, "NotIn", v) then exprs else Append(exprs, NotInExpr(k, v))
  }

  function AddPairs(exprs: Json, pairs: seq<string>): Json {
    if pairs == [] then exprs else AddPair(AddPairs(exprs, pairs[..|pairs| - 1]), pairs[|pairs| - 1])
  }

  /** The expressions of a selector, where anything but a list reads as the nil list. */
  function ExprsOf(selector: Json): Json {
    var exprs := Field(selector, "matchExpressions");
    if exprs.Arr? then exprs else Null
  }

  function PodSelectorAfter(selector: Json, ex: Exclusions): Json {
    Obj(AsMap(selector)["matchExpressions" := AddPairs(ExprsOf(selector), ex.podLabels)])
  }

  function ContainerSelectorAfter(selector: Json, ex: Exclusions): Json {
    Obj(AsMap(selector)["matchExpressions" := Merge(NotInOn("name"), ExprsOf(selector), ex.containers)])
  }

  // ----- the whole manifest

  function SelectorsAfter(spec: Fields, ex: Exclusions): Fields {
    var s := if ex.podLabels == [] then spec
             else spec["podSelector" := PodSelectorAfter(Get(spec, "podSelector"), ex)];
    if ex.containers == [] then s
    else s["containerSelector" := ContainerSelectorAfter(Get(spec, "containerSelector"), ex)]
  }

  function SpecAfter(spec: Fields, ex: Exclusions): Fields {
    GroupsAfter(SelectorsAfter(spec, ex), GROUPS, ex)
  }

  function DocAfter(doc: Fields, ex: Exclusions): Fields
    requires Get(doc, "spec").Obj?
  {
    doc["spec" := Obj(SpecAfter(doc["spec"].fields, ex))]
  }

  function HookCount(spec: Fields): nat {
    |Items(Get(spec, "kprobes"))| + |Items(Get(spec, "tracepoints"))| +
    |Items(Get(spec, "uprobes"))| + |Items(Get(spec, "lsmhooks"))|
  }

  /** How many pod labels were not excluded yet. */
  function LabelsAdded(exprs: Json, pairs: seq<string>): nat {
    AddPairsGrows(exprs, pairs);
    |Items(AddPairs(exprs, pairs))| - |Items(exprs)|
  }

  function SelectorNotes(spec: Fields, ex: Exclusions): seq<Note> {
    var added := LabelsAdded(ExprsOf(Get(spec, "podSelector")), ex.podLabels);
    (if ex.podLabels == [] then [] else [Note("podLabels", added > 0, added, 0)]) +
    (if ex.containers == [] then [] else [Note("containers", true, |ex.containers|, 0)])
  }

  function HookNotes(tally: Tally, ex: Exclusions): seq<Note> {
    (if ex.binaries == [] then [] else [Note("binaries", tally.selectors > 0, tally.selectors, 0)]) +
    (if ex.parentBinaries == [] then [] else [Note("parentBinaries", tally.selectors > 0, tally.selectors, 0)]) +
    (if ex.paths == [] then [] else [Note("paths", tally.landed > 0, tally.landed, tally.missed)])
  }

  function NotesFor(spec: Fields, ex: Exclusions): seq<Note> {
    SelectorNotes(spec, ex) +
    (if HookCount(spec) == 0 && ex.FiltersHooks() then [Note("binaries", false, 0, 0)]
     else HookNotes(GroupsTally(spec, GROUPS, ex), ex))
  }

  lemma {:induction false} AddPairsGrows(exprs: Json, pairs: seq<string>)
    ensures |Items(AddPairs(exprs, pairs))| >= |Items(exprs)|
  {
    if pairs != [] {
      AddPairsGrows(exprs, pairs[..|pairs| - 1]);
    }
  }

  method AddPodLabels(selector: Json, podLabels: seq<string>) returns (r: Json, added: nat)
    ensures r == Obj(AsMap(selector)["matchExpressions" := AddPairs(ExprsOf(selector), podLabels)])
    ensures added == LabelsAdded(ExprsOf(selector), podLabels)
  {
    var exprs := ExprsOf(selector);
    added := 0;
    for i := 0 to |podLabels|
      invariant exprs == AddPairs(ExprsOf(selector), podLabels[..i])
      invariant added == |Items(exprs)| - |Items(ExprsOf(selector))|
    {
      assert podLabels[..i + 1][..i] == podLabels[..i];
      match SplitPair(podLabels[i]) {
        case None =>
        case Some((k, v)) =>
          if !HasExpr(Items(exprs), k, "NotIn", v) {
            exprs := Append(exprs, NotInExpr(k, v));
            added := added + 1;
          }
      }
    }
    assert podLabels[..|podLabels|] == podLabels;
    r := Obj(AsMap(selector)["matchExpressions" := exprs]);
  }

  method ExtendSelectors(spec0: Fields, ex: Exclusions) returns (spec: Fields, notes: seq<Note>)
    ensures spec == SelectorsAfter(spec0, ex)
    ensures notes == SelectorNotes(spec0, ex)
  {
    hide Merge, AddPairs;
    spec, notes := spec0, [];
    if ex.podLabels != [] {
      var sel, added := AddPodLabels(Get(spec, "podSelector"), ex.podLabels);
      spec := spec["podSelector" := sel];
      notes := notes + [Note("podLabels", added > 0, added, 0)];
    }
    if ex.containers != [] {
      var sel := Get(spec, "containerSelector");
      var merged := MergeClause(NotInOn("name"), ExprsOf(sel), ex.containers);
      spec := spec["containerSelector" := Obj(AsMap(sel)["matchExpressions" := merged])];
      notes := notes + [Note("containers", true, |ex.containers|, 0)];
    }
  }

  method FilterOneGroup(spec0: Fields, group: string, ex: Exclusions) returns (spec: Fields, tally: Tally)
    ensures spec == GroupsAfter(spec0, [group], ex)
    ensures tally == HooksTally(Items(Get(spec0, group)), ex)
  {
    spec, tally := spec0, Tally(0, 0, 0);
    if Get(spec, group).Arr? {
      var items, t := FilterGroupInPlace(spec[group].items, ex);
      spec := spec[group := Arr(items)];
      tally := t;
    }
  }

  lemma NoGroups(spec: Fields, ex: Exclusions)
    ensures GroupsAfter(spec, [], ex) == spec
    ensures GroupsTally(spec, [], ex) == Tally(0, 0, 0)
  {
  }

  /** Rewriting one more group on top of others. */
  lemma OneMoreGroup(spec: Fields, groups: seq<string>, group: string, ex: Exclusions)
    requires group !in groups
    ensures GroupsAfter(GroupsAfter(spec, groups, ex), [group], ex) == GroupsAfter(spec, groups + [group], ex)
    ensures Get(GroupsAfter(spec, groups, ex), group) == Get(spec, group)
    ensures GroupsTally(spec, groups + [group], ex)
         == GroupsTally(spec, groups, ex).Plus(HooksTally(Items(Get(spec, group)), ex))
  {
    assert (groups + [group])[..|groups|] == groups;
  }

  method FilterGroupsInPlace(spec0: Fields, groups: seq<string>, ex: Exclusions) returns (spec: Fields, tally: Tally)
    requires forall i, j :: 0 <= i < j < |groups| ==> groups[i] != groups[j]
    ensures spec == GroupsAfter(spec0, groups, ex)
    ensures tally == GroupsTally(spec0, groups, ex)
  {
    hide GroupsAfter, GroupsTally;
    spec, tally := spec0, Tally(0, 0, 0);
    NoGroups(spec0, ex);
    for g := 0 to |groups|
      invariant spec == GroupsAfter(spec0, groups[..g], ex)
      invariant tally == GroupsTally(spec0, groups[..g], ex)
    {
      OneMoreGroup(spec0, groups[..g], groups[g], ex);
      var t;
      spec, t := FilterOneGroup(spec, groups[g], ex);
      tally := tally.Plus(t);
      assert groups[..g + 1] == groups[..g] + [groups[g]];
    }
    assert groups[..|groups|] == groups;
  }

  /** Without hooks the groups stay as they are. */
  lemma NoHooksNoChange(spec: Fields, ex: Exclusions)
    requires HookCount(spec) == 0
    ensures GroupsAfter(spec, GROUPS, ex) == spec
  {
    forall k | k in spec && k in GROUPS ensures GroupAfter(spec[k], ex) == spec[k] {
      assert |Items(Get(spec, k))| == 0;
    }
  }

  method ApplyExclusions(manifest: Json, ex: Exclusions) returns (r: Result<(Json, seq<Note>), Error>)
    ensures r.Err? <==> !Field(manifest, "spec").Obj?
    ensures r.Err? ==> r.error == if manifest.Obj? || manifest.Null? then NoSpec else ParseError
    ensures r.Ok? ==>
              && r.value.0 == Obj(manifest.fields["spec" := Obj(SpecAfter(manifest.fields["spec"].fields, ex))])
              && r.value.1 == NotesFor(manifest.fields["spec"].fields, ex)
  {
    hide SelectorsAfter, GroupsAfter, GroupsTally, HookCount, HookNotes, SelectorNotes;
    if !manifest.Obj? && !manifest.Null? {
      return Err(ParseError);
    }
    var doc := AsMap(manifest);
    if !Get(doc, "spec").Obj? {
      return Err(NoSpec);
    }
    ghost var spec0 := doc["spec"].fields;
    var spec, notes := ExtendSelectors(doc["spec"].fields, ex);
    GroupsUntouched(spec0, ex);
    if HookCount(spec) == 0 && ex.FiltersHooks() {
      NoHooksNoChange(spec, ex);
      return Ok((Obj(doc["spec" := Obj(spec)]), notes + [Note("binaries", false, 0, 0)]));
    }
    var filtered, tally := FilterGroupsInPlace(spec, GROUPS, ex);
    return Ok((Obj(doc["spec" := Obj(filtered)]), notes + HookNotes(tally, ex)));
  }

  lemma {:induction false} TallyOfGroups(a: Fields, b: Fields, groups: seq<string>, ex: Exclusions)
    requires forall g :: g in groups ==> Get(a, g) == Get(b, g)
    ensures GroupsTally(a, groups, ex) == GroupsTally(b, groups, ex)
  {
    hide HooksTally;
    if groups != [] {
      TallyOfGroups(a, b, groups[..|groups| - 1], ex);
      assert groups[|groups| - 1] in groups;
    }
  }

  /** The pod and container selectors are no hook groups. */
  lemma GroupsUntouched(spec: Fields, ex: Exclusions)
    ensures forall g :: g in GROUPS ==> Get(SelectorsAfter(spec, ex), g) == Get(spec, g)
    ensures HookCount(SelectorsAfter(spec, ex)) == HookCount(spec)
    ensures GroupsTally(SelectorsAfter(spec, ex), GROUPS, ex) == GroupsTally(spec, GROUPS, ex)
  {
    TallyOfGroups(SelectorsAfter(spec, ex), spec, GROUPS, ex);
  }
}
