/**
 Switching a TracingPolicy between monitoring and enforcing (backend/internal/k8s/tracing.go:81-148).
 */
module Tracing {
  import opened Option
  import opened Json
  import Encoding
  import Text
  import E = Exclusions

  type Fields = map<string, Json>

  datatype Action = Monitor | Enforce

  /** NilMapWrite is the run-time panic of writing to a selector that is no map. */
  datatype Error = ParseError | NoSpec | NothingToToggle | NilMapWrite

  const ANNOTATION := "isovalent-control.io/action"

  function Target(action: Action): Json {
    Str(if action.Enforce? then "Sigkill" else "Post")
  }

  function NameOf(action: Action): Json {
    Str(if action.Enforce? then "enforce" else "monitor")
  }

  /** Detection looks for two quoted words anywhere in the manifest text. */
  predicate DetectsEnforcement(manifest: string) {
    Text.Contains(manifest, "\"Sigkill\"") || Text.Contains(manifest, "\"Override\"")
  }

  function DetectAction(manifest: string): Action {
    if DetectsEnforcement(manifest) then Enforce else Monitor
  }

  /** Some key or string of the tree reads as an enforcing action in the text. */
  ghost predicate ShowsEnforcement(j: Json) {
    Encoding.Shows(j, "Sigkill") || Encoding.Shows(j, "Override")
  }

  /** Detection on written JSON, in terms of the tree. */
  lemma DetectionReadsTokens(j: Json)
    ensures DetectsEnforcement(Encoding.Marshal(j)) <==> ShowsEnforcement(j)
  {
    assert Encoding.Quoted("Sigkill") == "\"Sigkill\"" && Encoding.Quoted("Override") == "\"Override\"";
    Encoding.MarshalContains(j, "Sigkill");
    Encoding.MarshalContains(j, "Override");
  }

  // ----- one action, one selector

  function ToggleAct(act: Json, action: Action): Json {
    if act.Obj? && "action" in act.fields then Obj(act.fields["action" := Target(action)]) else act
  }

  function ToggleActs(acts: seq<Json>, action: Action): seq<Json> {
    seq(|acts|, i requires 0 <= i < |acts| => ToggleAct(acts[i], action))
  }

  predicate ActChanges(act: Json) {
    act.Obj? && "action" in act.fields
  }

  predicate ActsChange(acts: seq<Json>) {
    exists act :: act in acts && ActChanges(act)
  }

  function ToggleSelector(sel: Fields, action: Action): Fields {
    var acts := Items(Get(sel, "matchActions"));
    if acts != [] then sel["matchActions" := Arr(ToggleActs(acts, action))]
    else if action.Enforce? then sel["matchActions" := Arr([Obj(map["action" := Target(action)])])]
    else sel
  }

  predicate SelectorChanges(sel: Fields, action: Action) {
    var acts := Items(Get(sel, "matchActions"));
    ActsChange(acts) || (acts == [] && action.Enforce?)
  }

  method ToggleSelectorInPlace(sel: Fields, action: Action) returns (r: Fields, changed: nat)
    ensures r == ToggleSelector(sel, action)
    ensures changed > 0 <==> SelectorChanges(sel, action)
  {
    r, changed := sel, 0;
    var actions := Items(Get(sel, "matchActions"));
    var acts := actions;
    for i := 0 to |acts|
      invariant |actions| == |acts|
      invariant forall j :: 0 <= j < i ==> actions[j] == ToggleAct(acts[j], action)
      invariant forall j :: i <= j < |acts| ==> actions[j] == acts[j]
      invariant changed > 0 <==> exists j :: 0 <= j < i && ActChanges(acts[j])
    {
      var a := AsMap(actions[i]);
      if "action" in a {
        actions := actions[i := Obj(a["action" := Target(action)])];
        changed := changed + 1;
      }
    }
    if acts != [] {
      assert actions == ToggleActs(acts, action);
      r := sel["matchActions" := Arr(actions)];
    }
    if |actions| == 0 && action.Enforce? {
      r := sel["matchActions" := Arr([Obj(map["action" := Target(action)])])];
      changed := changed + 1;
    }
  }

  // ----- one hook, one group

  function ToggleRaw(raw: Json, action: Action): Json {
    if raw.Obj? then Obj(ToggleSelector(raw.fields, action)) else raw
  }

  function ToggleRaws(sels: seq<Json>, action: Action): seq<Json> {
    seq(|sels|, i requires 0 <= i < |sels| => ToggleRaw(sels[i], action))
  }

  predicate RawChanges(raw: Json, action: Action) {
    raw.Obj? && SelectorChanges(raw.fields, action)
  }

  function ToggleHook(hook: Json, action: Action): Json {
    if Field(hook, "selectors").Arr?
    then Obj(AsMap(hook)["selectors" := Arr(ToggleRaws(Items(Field(hook, "selectors")), action))])
    else hook
  }

  predicate HookChanges(hook: Json, action: Action) {
    exists raw :: raw in Items(Field(hook, "selectors")) && RawChanges(raw, action)
  }

  /** Enforcing writes into every selector, which panics on one that is no map. */
  predicate HookWritable(hook: Json, action: Action) {
    action.Enforce? ==> forall raw :: raw in Items(Field(hook, "selectors")) ==> raw.Obj?
  }

  method ToggleHookInPlace(hook: Json, action: Action) returns (r: Json, changed: nat, ok: bool)
    ensures ok <==> HookWritable(hook, action)
    ensures ok ==> r == ToggleHook(hook, action)
    ensures ok ==> (changed > 0 <==> HookChanges(hook, action))
  {
    r, changed := hook, 0;
    var sels := Items(Field(hook, "selectors"));
    var selectors := sels;
    for i := 0 to |sels|
      invariant |selectors| == |sels|
      invariant action.Enforce? ==> forall j :: 0 <= j < i ==> sels[j].Obj?
      invariant forall j :: 0 <= j < i ==> selectors[j] == ToggleRaw(sels[j], action)
      invariant forall j :: i <= j < |sels| ==> selectors[j] == sels[j]
      invariant changed > 0 <==> exists j :: 0 <= j < i && RawChanges(sels[j], action)
    {
      var s, n := ToggleSelectorInPlace(AsMap(sels[i]), action);
      if sels[i].Obj? {
        selectors := selectors[i := Obj(s)];
        changed := changed + n;
      } else if action.Enforce? {
        assert sels[i] in sels;
        return r, changed, false;
      }
    }
    if Field(hook, "selectors").Arr? {
      assert selectors == ToggleRaws(sels, action);
      r := Obj(AsMap(hook)["selectors" := Arr(selectors)]);
    }
    return r, changed, true;
  }

  function ToggleHooks(hooks: seq<Json>, action: Action): seq<Json> {
    seq(|hooks|, i requires 0 <= i < |hooks| => ToggleHook(hooks[i], action))
  }

  function ToggleGroup(group: Json, action: Action): Json {
    if group.Arr? then Arr(ToggleHooks(group.items, action)) else group
  }

  predicate GroupChanges(group: Json, action: Action) {
    exists hook :: hook in Items(group) && HookChanges(hook, action)
  }

  predicate GroupWritable(group: Json, action: Action) {
    forall hook :: hook in Items(group) ==> HookWritable(hook, action)
  }

  method ToggleGroupInPlace(group: Json, action: Action) returns (r: Json, changed: nat, ok: bool)
    ensures ok <==> GroupWritable(group, action)
    ensures ok ==> r == ToggleGroup(group, action)
    ensures ok ==> (changed > 0 <==> GroupChanges(group, action))
  {
    hide HookChanges, HookWritable, ToggleHook;
    r, changed := group, 0;
    var items := Items(group);
    var hooks := items;
    for i := 0 to |items|
      invariant |hooks| == |items|
      invariant forall j :: 0 <= j < i ==> HookWritable(items[j], action) && hooks[j] == ToggleHook(items[j], action)
      invariant forall j :: i <= j < |items| ==> hooks[j] == items[j]
      invariant changed > 0 <==> exists j :: 0 <= j < i && HookChanges(items[j], action)
    {
      var h, n, fine := ToggleHookInPlace(items[i], action);
      if !fine {
        assert items[i] in items;
        return r, changed, false;
      }
      hooks := hooks[i := h];
      changed := changed + n;
    }
    if group.Arr? {
      assert hooks == ToggleHooks(items, action);
      r := Arr(hooks);
    }
    return r, changed, true;
  }

  // ----- the whole manifest

  function ToggleGroups(spec: Fields, groups: seq<string>, action: Action): Fields {
    map k | k in spec :: if k in groups then ToggleGroup(spec[k], action) else spec[k]
  }

  predicate SpecChanges(spec: Fields, groups: seq<string>, action: Action) {
    exists g :: g in groups && GroupChanges(Get(spec, g), action)
  }

  predicate SpecWritable(spec: Fields, groups: seq<string>, action: Action) {
    forall g :: g in groups ==> GroupWritable(Get(spec, g), action)
  }

  /** The annotation is written when there is metadata to write it into. */
  function Annotate(doc: Fields, action: Action): Fields {
    var meta := Get(doc, "metadata");
    if !meta.Obj? then doc
    else doc["metadata" := Obj(meta.fields["annotations" :=
           Obj(AsMap(Get(meta.fields, "annotations"))[ANNOTATION := NameOf(action)])])]
  }

  function ToggleDoc(doc: Fields, action: Action): Fields
    requires Get(doc, "spec").Obj?
  {
    Annotate(doc["spec" := Obj(ToggleGroups(doc["spec"].fields, E.GROUPS, action))], action)
  }

  method ToggleGroupsInPlace(spec0: Fields, groups: seq<string>, action: Action)
    returns (spec: Fields, changed: nat, ok: bool)
    requires forall i, j :: 0 <= i < j < |groups| ==> groups[i] != groups[j]
    ensures ok <==> SpecWritable(spec0, groups, action)
    ensures ok ==> spec == ToggleGroups(spec0, groups, action)
    ensures ok ==> (changed > 0 <==> SpecChanges(spec0, groups, action))
  {
    hide GroupChanges, GroupWritable, ToggleGroup;
    spec, changed := spec0, 0;
    for i := 0 to |groups|
      invariant forall j :: 0 <= j < i ==> GroupWritable(Get(spec0, groups[j]), action)
      invariant spec == ToggleGroups(spec0, groups[..i], action)
      invariant changed > 0 <==> exists j :: 0 <= j < i && GroupChanges(Get(spec0, groups[j]), action)
    {
      assert groups[..i + 1] == groups[..i] + [groups[i]];
      assert Get(spec, groups[i]) == Get(spec0, groups[i]);
      var g, n, fine := ToggleGroupInPlace(Get(spec, groups[i]), action);
      if !fine {
        assert groups[i] in groups;
        return spec, changed, false;
      }
      if groups[i] in spec {
        spec := spec[groups[i] := g];
      }
      changed := changed + n;
    }
    assert groups[..|groups|] == groups;
    return spec, changed, true;
  }

  /** The error of a toggle that fails, the first of these that applies. */
  function ErrorOf(manifest: Json, action: Action): Error {
    if !manifest.Obj? && !manifest.Null? then ParseError
    else if !Field(manifest, "spec").Obj? then NoSpec
    else if !SpecWritable(manifest.fields["spec"].fields, E.GROUPS, action) then NilMapWrite
    else NothingToToggle
  }

  method SetTracingAction(manifest: Json, action: Action) returns (r: Result<Json, Error>)
    ensures r.Ok? <==> && Field(manifest, "spec").Obj?
                       && SpecWritable(manifest.fields["spec"].fields, E.GROUPS, action)
                       && SpecChanges(manifest.fields["spec"].fields, E.GROUPS, action)
    ensures r.Ok? ==> r.value == Obj(ToggleDoc(manifest.fields, action))
    ensures r.Err? ==> r.error == ErrorOf(manifest, action)
  {
    hide SpecWritable, SpecChanges, ToggleGroups;
    if !manifest.Obj? && !manifest.Null? {
      return Err(ParseError);
    }
    var doc := AsMap(manifest);
    if !Get(doc, "spec").Obj? {
      return Err(NoSpec);
    }
    var spec, changed, ok := ToggleGroupsInPlace(doc["spec"].fields, E.GROUPS, action);
    if !ok {
      return Err(NilMapWrite);
    }
    doc := doc["spec" := Obj(spec)];
    var meta := Get(doc, "metadata");
    if meta.Obj? {
      var ann := AsMap(Get(meta.fields, "annotations"));
      ann := ann[ANNOTATION := NameOf(action)];
      doc := doc["metadata" := Obj(meta.fields["annotations" := Obj(ann)])];
    }
    if changed == 0 {
      return Err(NothingToToggle);
    }
    return Ok(Obj(doc));
  }
}
