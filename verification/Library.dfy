/**
 Building applyable policies from the policy library (frontend/src/lib/libraryYaml.ts:102-113,
 158-455): a clone of each selected spec, with its mode and its exclusions applied.

 Here is what becomes of the content of a spec; LibraryWrites changes the objects that hold it, LibraryLaws
 says what the content promises, and Builder assembles the policies.
 */
module Library {
  import opened Json
  import opened Option
  import Exclusions
  import Text

  type Fields = Exclusions.Fields

  datatype Mode = Alert | Block

  datatype Excluded = Excluded(
    podLabels: seq<string>, binaries: seq<string>, parentBinaries: seq<string>,
    paths: seq<string>, containers: seq<string>, namespaces: seq<string>)
  {
    predicate FiltersHooks() {
      binaries != [] || parentBinaries != [] || paths != []
    }
  }

  const HOOK_GROUPS: seq<string> := ["kprobes", "tracepoints", "uprobes", "lsmhooks", "usdts"]
  const ENFORCE_ACTIONS: set<string> := {"Sigkill", "Override", "NotifyEnforcer", "Signal"}
  const ACTION_KEYS: seq<string> := ["matchActions", "matchReturnActions"]

  // ----- JavaScript readings of a JSON value

  predicate Truthy(j: Json) {
    match j
    case Null => false
    case Bool(b) => b
    case Num(n) => n != 0
    case Str(s) => s != ""
    case Arr(_) => true
    case Obj(_) => true
  }

  /** `String(j ?? "")`, up to values that are none of the words it is compared with. */
  function Coerced(j: Json): string {
    match j
    case Str(s) => s
    case Arr(items) => if |items| == 1 then Coerced(items[0]) else ""
    case _ => ""
  }

  /** What the source takes for granted about a spec, where anything else throws. */
  predicate WellFormed(spec: Fields) {
    WellFormedHooks(spec) && WellFormedSelector(Get(spec, "podSelector")) &&
      WellFormedSelector(Get(spec, "containerSelector"))
  }

  predicate WellFormedHooks(spec: Fields) {
    forall g :: g in HOOK_GROUPS ==> WellFormedList(Items(Get(spec, g)))
  }

  predicate WellFormedList(hooks: seq<Json>) {
    forall hook :: hook in hooks ==> hook.Obj? && WellFormedHook(hook.fields)
  }

  predicate WellFormedSelector(selector: Json) {
    (selector.Null? || selector.Obj?) &&
      (Field(selector, "matchExpressions").Null? || Field(selector, "matchExpressions").Arr?)
  }

  predicate AllObjects(items: seq<Json>) {
    forall x :: x in items ==> x.Obj?
  }

  predicate WellFormedHook(hook: Fields) {
    && AllObjects(Items(Get(hook, "args")))
    && AllObjects(Items(Get(hook, "selectors")))
    && forall sel :: sel in Items(Get(hook, "selectors")) ==> WellFormedFilter(AsMap(sel))
  }

  predicate WellFormedFilter(sel: Fields) {
    && (Get(sel, "matchArgs").Null? || Get(sel, "matchArgs").Arr?)
    && AllObjects(Items(Get(sel, "matchArgs")))
    && AllObjects(Items(Get(sel, "matchActions")))
    && AllObjects(Items(Get(sel, "matchReturnActions")))
  }

  // ----- exclusions of a draft and of one policy, merged

  function MergeExclusions(a: Excluded, b: Option<Excluded>): Excluded {
    match b
    case None => a
    case Some(x) => Excluded(
      Text.Distinct(a.podLabels + x.podLabels),
      Text.Distinct(a.binaries + x.binaries),
      Text.Distinct(a.parentBinaries + x.parentBinaries),
      Text.Distinct(a.paths + x.paths),
      Text.Distinct(a.containers + x.containers),
      Text.Distinct(a.namespaces + x.namespaces))
  }

  /** A spec with the hooks of every group rewritten. */
  function WithHooks(spec: Fields, rewrite: seq<Json> -> seq<Json>): Fields {
    map k | k in spec :: if k in HOOK_GROUPS && spec[k].Arr? then Arr(rewrite(spec[k].items)) else spec[k]
  }

  // ----- the mode

  function ActionAfter(a: Json, mode: Mode): Json {
    var action := Coerced(Field(a, "action"));
    if mode == Alert && action in ENFORCE_ACTIONS then Obj((AsMap(a) - {"argError", "argSig"})["action" := Str("Post")])
    else if mode == Block && action == "Post" then Obj(AsMap(a)["action" := Str("Sigkill")])
    else a
  }

  function ActionsAfter(actions: seq<Json>, mode: Mode): seq<Json> {
    seq(|actions|, i requires 0 <= i < |actions| => ActionAfter(actions[i], mode))
  }

  function KeyAfter(sel: Fields, key: string, mode: Mode): Fields {
    if Get(sel, key).Arr? then sel[key := Arr(ActionsAfter(Get(sel, key).items, mode))] else sel
  }

  function SelectorMode(sel: Fields, mode: Mode): Fields {
    KeyAfter(KeyAfter(sel, "matchActions", mode), "matchReturnActions", mode)
  }

  predicate HasActions(sel: Json) {
    exists key :: key in ACTION_KEYS && Field(sel, key).Arr?
  }

  function SelectorsMode(sels: seq<Json>, mode: Mode): seq<Json> {
    seq(|sels|, i requires 0 <= i < |sels| => Obj(SelectorMode(AsMap(sels[i]), mode)))
  }

  function HookMode(hook: Fields, mode: Mode): Fields {
    if Get(hook, "selectors").Arr? then hook["selectors" := Arr(SelectorsMode(Get(hook, "selectors").items, mode))]
    else hook
  }

  function HooksMode(hooks: seq<Json>, mode: Mode): seq<Json> {
    seq(|hooks|, i requires 0 <= i < |hooks| => Obj(HookMode(AsMap(hooks[i]), mode)))
  }

  function SpecMode(spec: Fields, mode: Mode): Fields {
    WithHooks(spec, hooks => HooksMode(hooks, mode))
  }

  /** Some selector has a list of actions, be it empty. */
  predicate Enforceable(spec: Fields) {
    exists g, hook :: g in HOOK_GROUPS && hook in Items(Get(spec, g)) && EnforceableHook(hook)
  }

  predicate EnforceableHook(hook: Json) {
    exists sel :: sel in Items(Field(hook, "selectors")) && HasActions(sel)
  }

  // ----- exclusions inside a selector

  predicate IsPathType(t: string) {
    t == "file" || t == "string" || t == "fd" || t == "path"
  }

  /** Index of the first path-like argument whose index is a number. */
  function PathIndexIn(args: seq<Json>): Option<int> {
    if args == [] then None
    else if IsPathType(Coerced(Field(args[0], "type"))) && Field(args[0], "index").Num?
    then Some(Field(args[0], "index").n)
    else PathIndexIn(args[1..])
  }

  /** A path-like argument whose index is a number. */
  predicate PathArg(a: Json) {
    Coerced(Field(a, "type")) in {"file", "string", "fd", "path"} && Field(a, "index").Num?
  }

  predicate FirstPathArg(args: seq<Json>, i: nat) {
    i < |args| && PathArg(args[i]) && forall j :: 0 <= j < i ==> !PathArg(args[j])
  }

  /** The recursion finds the index that the first such argument declares, and nothing only without one. */
  lemma {:induction false} PathIndexIsFirst(args: seq<Json>)
    ensures forall i: nat :: FirstPathArg(args, i) ==> PathIndexIn(args) == Some(Field(args[i], "index").n)
    ensures (forall i: nat :: !FirstPathArg(args, i)) ==> PathIndexIn(args) == None
  {
    hide Coerced;
    if args != [] {
      PathIndexIsFirst(args[1..]);
      if PathArg(args[0]) {
        assert FirstPathArg(args, 0);
      } else {
        forall i: nat | FirstPathArg(args, i) ensures i > 0 && FirstPathArg(args[1..], i - 1) {
          assert args[1..][i - 1] == args[i];
        }
        forall i: nat | FirstPathArg(args[1..], i) ensures FirstPathArg(args, i + 1) {
          assert forall j :: 0 < j <= i ==> args[j] == args[1..][j - 1];
        }
      }
    }
  }

  function BinaryClause(values: seq<string>): Json {
    Obj(map["operator" := Str("NotIn"), "values" := ToAny(Text.Sorted(values)), "followChildren" := Bool(false)])
  }

  function ParentClause(values: seq<string>): Json {
    Obj(map["operator" := Str("NotIn"), "values" := ToAny(Text.Sorted(values))])
  }

  function PathClause(index: int, values: seq<string>): Json {
    Obj(map["index" := Num(index), "operator" := Str("NotPrefix"), "values" := ToAny(Text.Sorted(values))])
  }

  predicate Constrains(args: Json, index: int) {
    exists m :: m in Items(args) && Field(m, "index") == Num(index)
  }

  predicate TakesBinaries(sel: Fields, ex: Excluded) {
    ex.binaries != [] && !Truthy(Get(sel, "matchBinaries"))
  }

  predicate TakesParents(sel: Fields, ex: Excluded) {
    ex.parentBinaries != [] && !Truthy(Get(sel, "matchParentBinaries"))
  }

  predicate TakesPaths(sel: Fields, ex: Excluded, index: Option<int>) {
    ex.paths != [] && index.Some? && !Constrains(Get(sel, "matchArgs"), index.value)
  }

  function SelectorAfter(sel: Fields, ex: Excluded, index: Option<int>): Fields {
    var s := if TakesBinaries(sel, ex) then sel["matchBinaries" := Arr([BinaryClause(ex.binaries)])] else sel;
    var s := if TakesParents(sel, ex) then s["matchParentBinaries" := Arr([ParentClause(ex.parentBinaries)])] else s;
    if TakesPaths(sel, ex, index)
    then s["matchArgs" := Append(Get(sel, "matchArgs"), PathClause(index.value, ex.paths))]
    else s
  }

  function SelectorsAfter(sels: seq<Json>, ex: Excluded, index: Option<int>): seq<Json> {
    seq(|sels|, i requires 0 <= i < |sels| => Obj(SelectorAfter(AsMap(sels[i]), ex, index)))
  }

  /** The selectors that are filtered: a missing list is made into one that matches everything, an empty list is not. */
  function Filtered(hook: Fields): seq<Json> {
    if Get(hook, "selectors").Arr? then Get(hook, "selectors").items else [Obj(map[])]
  }

  function HookAfter(hook: Fields, ex: Excluded): Fields {
    if !Get(hook, "selectors").Arr? && !ex.FiltersHooks() then hook
    else hook["selectors" := Arr(SelectorsAfter(Filtered(hook), ex, PathIndexIn(Items(Get(hook, "args")))))]
  }

  function HooksAfter(hooks: seq<Json>, ex: Excluded): seq<Json> {
    seq(|hooks|, i requires 0 <= i < |hooks| => Obj(HookAfter(AsMap(hooks[i]), ex)))
  }

  function GroupsAfter(spec: Fields, ex: Excluded): Fields {
    WithHooks(spec, hooks => HooksAfter(hooks, ex))
  }

  // ----- pod and container selectors

  /** Key and value of a pair; without an equals sign all of it is the key. */
  function KeyValue(pair: string): (string, string) {
    match SplitPair(pair)
    case None => (pair, "")
    case Some(kv) => kv
  }

  type Grouping = seq<(string, seq<string>)>

  /** Adds a value under its key; a new key goes last, as in a JavaScript Map. */
  function Grouped(entries: Grouping, key: string, value: string): Grouping {
    if entries == [] then [(key, [value])]
    else if entries[0].0 == key then [(key, entries[0].1 + [value])] + entries[1..]
    else [entries[0]] + Grouped(entries[1..], key, value)
  }

  function GroupedPairs(pairs: seq<string>): Grouping {
    if pairs == [] then []
    else
      var (key, value) := KeyValue(pairs[|pairs| - 1]);
      Grouped(GroupedPairs(pairs[..|pairs| - 1]), key, value)
  }

  function LabelExpr(entry: (string, seq<string>)): Json {
    Obj(map["key" := Str(entry.0), "operator" := Str("NotIn"), "values" := ToAny(Text.Distinct(entry.1))])
  }

  function LabelExprs(entries: Grouping): seq<Json> {
    seq(|entries|, i requires 0 <= i < |entries| => LabelExpr(entries[i]))
  }

  function NameExpr(names: seq<string>): Json {
    Obj(map["key" := Str("name"), "operator" := Str("NotIn"), "values" := ToAny(Text.Sorted(names))])
  }

  /** A label selector with more expressions at its end. */
  function WithExprs(selector: Json, exprs: seq<Json>): Json {
    Obj(AsMap(selector)["matchExpressions" := Arr(Items(Field(selector, "matchExpressions")) + exprs)])
  }

  function SelectorsIn(spec: Fields, ex: Excluded): Fields {
    var s := if ex.podLabels == [] then spec
             else spec["podSelector" := WithExprs(Get(spec, "podSelector"), LabelExprs(GroupedPairs(ex.podLabels)))];
    if ex.containers == [] then s
    else s["containerSelector" := WithExprs(Get(spec, "containerSelector"), [NameExpr(ex.containers)])]
  }

  function SpecAfter(spec: Fields, ex: Excluded): Fields {
    GroupsAfter(SelectorsIn(spec, ex), ex)
  }

  lemma SelectorsKeepGroups(spec: Fields, ex: Excluded)
    ensures forall g :: g in HOOK_GROUPS ==> Get(SelectorsIn(spec, ex), g) == Get(spec, g)
    ensures WellFormedHooks(spec) ==> WellFormedHooks(SelectorsIn(spec, ex))
  {
    hide WithExprs, LabelExprs, GroupedPairs, NameExpr, WellFormedHook;
    assert "podSelector" !in HOOK_GROUPS && "containerSelector" !in HOOK_GROUPS;
  }

  // ----- node labels

  function MatchLabels(pairs: seq<string>): Fields {
    if pairs == [] then map[]
    else
      var before := MatchLabels(pairs[..|pairs| - 1]);
      match SplitPair(pairs[|pairs| - 1])
      case None => before
      case Some((key, value)) => before[key := Str(value)]
  }

  function Scoped(spec: Fields, nodeLabels: seq<string>, includeHost: bool): Fields {
    var s := if nodeLabels == [] then spec else spec["nodeSelector" := Obj(MatchLabels(nodeLabels))];
    if includeHost then s["hostSelector" := Obj(map[])] else s
  }

  /** The spec that is built out of an upstream spec. */
  function BuiltSpec(upstream: Fields, mode: Mode, ex: Excluded, nodeLabels: seq<string>, includeHost: bool): Fields {
    Scoped(SpecAfter(SpecMode(upstream, mode), ex), nodeLabels, includeHost)
  }

  // ----- what landed

  datatype Hits = Hits(binaries: nat, parents: nat, paths: nat, misses: nat) {
    function Plus(o: Hits): Hits {
      Hits(binaries + o.binaries, parents + o.parents, paths + o.paths, misses + o.misses)
    }
  }

  const NO_HITS: Hits := Hits(0, 0, 0, 0)

  function SelectorHits(sel: Fields, ex: Excluded, index: Option<int>): Hits {
    Hits(if TakesBinaries(sel, ex) then 1 else 0,
         if TakesParents(sel, ex) then 1 else 0,
         if TakesPaths(sel, ex, index) then 1 else 0,
         if ex.paths != [] && !TakesPaths(sel, ex, index) then 1 else 0)
  }

  function SelectorsHits(sels: seq<Json>, ex: Excluded, index: Option<int>): Hits {
    if sels == [] then NO_HITS
    else SelectorsHits(sels[..|sels| - 1], ex, index).Plus(SelectorHits(AsMap(sels[|sels| - 1]), ex, index))
  }

  function HookHits(hook: Fields, ex: Excluded): Hits {
    if !Get(hook, "selectors").Arr? && !ex.FiltersHooks() then NO_HITS
    else SelectorsHits(Filtered(hook), ex, PathIndexIn(Items(Get(hook, "args"))))
  }

  function HooksHits(hooks: seq<Json>, ex: Excluded): Hits {
    if hooks == [] then NO_HITS else HooksHits(hooks[..|hooks| - 1], ex).Plus(HookHits(AsMap(hooks[|hooks| - 1]), ex))
  }

  function GroupsHits(spec: Fields, groups: seq<string>, ex: Excluded): Hits {
    if groups == [] then NO_HITS
    else GroupsHits(spec, groups[..|groups| - 1], ex).Plus(HooksHits(Items(Get(spec, groups[|groups| - 1])), ex))
  }

  datatype Note = Note(dimension: string, applied: bool, count: nat, skipped: nat)

  function HookNotes(hits: Hits, ex: Excluded): seq<Note> {
    (if ex.binaries == [] then [] else [Note("binaries", hits.binaries > 0, hits.binaries, 0)]) +
    (if ex.parentBinaries == [] then [] else [Note("parentBinaries", hits.parents > 0, hits.parents, 0)]) +
    (if ex.paths == [] then [] else [Note("paths", hits.paths > 0, hits.paths, hits.misses)])
  }

  function SelectorNotes(ex: Excluded): seq<Note> {
    (if ex.podLabels == [] then [] else [Note("podLabels", true, |ex.podLabels|, 0)]) +
    (if ex.containers == [] then [] else [Note("containers", true, |ex.containers|, 0)])
  }

  function NotesFor(spec: Fields, ex: Excluded): seq<Note> {
    SelectorNotes(ex) + HookNotes(GroupsHits(spec, HOOK_GROUPS, ex), ex)
  }

  /** Pairs grouped by key, in order of first mention. */
  method LabelSelector(pairs: seq<string>) returns (exprs: seq<Json>)
    ensures exprs == LabelExprs(GroupedPairs(pairs))
  {
    hide KeyValue, Grouped, LabelExpr;
    var byKey: Grouping := [];
    for i := 0 to |pairs|
      invariant byKey == GroupedPairs(pairs[..i])
    {
      var (key, value) := KeyValue(pairs[i]);
      byKey := Grouped(byKey, key, value);
      assert pairs[..i + 1][..i] == pairs[..i];
    }
    assert pairs[..|pairs|] == pairs;
    exprs := LabelExprs(byKey);
  }

  // ----- form

  lemma ActionsKeepForm(actions: seq<Json>, mode: Mode)
    requires AllObjects(actions)
    ensures AllObjects(ActionsAfter(actions, mode))
  {
    forall a | a in ActionsAfter(actions, mode) ensures a.Obj? {
      var i :| 0 <= i < |actions| && ActionAfter(actions[i], mode) == a;
      assert actions[i] in actions;
    }
  }

  lemma FilterKeepsForm(sel: Fields, mode: Mode)
    requires WellFormedFilter(sel)
    ensures WellFormedFilter(SelectorMode(sel, mode))
  {
    hide AllObjects, ActionsAfter;
    ActionsKeepForm(Items(Get(sel, "matchActions")), mode);
    ActionsKeepForm(Items(Get(sel, "matchReturnActions")), mode);
  }

  lemma HookKeepsForm(hook: Fields, mode: Mode)
    requires WellFormedHook(hook)
    ensures WellFormedHook(HookMode(hook, mode))
  {
    hide WellFormedFilter, SelectorMode;
    var sels, after := Items(Get(hook, "selectors")), Items(Get(HookMode(hook, mode), "selectors"));
    forall sel | sel in after ensures sel.Obj? && WellFormedFilter(AsMap(sel)) {
      var i :| 0 <= i < |after| && after[i] == sel;
      assert sels[i] in sels;
      FilterKeepsForm(AsMap(sels[i]), mode);
    }
  }

  lemma HooksKeepForm(hooks: seq<Json>, mode: Mode)
    requires WellFormedList(hooks)
    ensures WellFormedList(HooksMode(hooks, mode))
  {
    hide WellFormedHook, HookMode;
    var after := HooksMode(hooks, mode);
    forall hook | hook in after ensures hook.Obj? && WellFormedHook(hook.fields) {
      var i :| 0 <= i < |after| && after[i] == hook;
      assert hooks[i] in hooks;
      HookKeepsForm(hooks[i].fields, mode);
    }
  }

  /** A mode leaves a well-formed spec well-formed. */
  lemma ModeKeepsForm(spec: Fields, mode: Mode)
    requires WellFormed(spec)
    ensures WellFormed(SpecMode(spec, mode))
  {
    hide WellFormedHook, HooksMode, WellFormedSelector;
    var after := SpecMode(spec, mode);
    assert "podSelector" !in HOOK_GROUPS && "containerSelector" !in HOOK_GROUPS;
    forall g | g in HOOK_GROUPS ensures WellFormedList(Items(Get(after, g))) {
      assert WellFormedList(Items(Get(spec, g)));
      HooksKeepForm(Items(Get(spec, g)), mode);
    }
    assert WellFormedHooks(after);
  }
}
