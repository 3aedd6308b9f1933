/**
 Laws of the mode switch: what it leaves is what is detected, repeating it changes nothing,
 the last switch wins, and it commutes with exclusions.
 */
module TracingLaws {
  import opened Option
  import opened Json
  import opened Tracing
  import E = Exclusions
  import EL = ExclusionLaws
  import Encoding
  import Text

  // ----- the last switch wins

  /** Switching to `a` forgets an earlier switch to `b`: the same mode again, or monitor before enforce. */
  predicate Forgets(a: Action, b: Action) {
    a == b || (a.Enforce? && b.Monitor?)
  }

  lemma ActsForget(acts: seq<Json>, a: Action, b: Action)
    ensures ToggleActs(ToggleActs(acts, b), a) == ToggleActs(acts, a)
    ensures ActsChange(ToggleActs(acts, b)) <==> ActsChange(acts)
  {
    var once := ToggleActs(acts, b);
    forall i | 0 <= i < |acts|
      ensures once[i] in once && acts[i] in acts
      ensures ActChanges(once[i]) <==> ActChanges(acts[i])
      ensures ToggleAct(once[i], a) == ToggleAct(acts[i], a)
    {
    }
    assert ToggleActs(once, a) == ToggleActs(acts, a);
  }

  lemma SelectorForgets(sel: Fields, a: Action, b: Action)
    requires Forgets(a, b)
    ensures ToggleSelector(ToggleSelector(sel, b), a) == ToggleSelector(sel, a)
    ensures SelectorChanges(ToggleSelector(sel, b), a) <==> SelectorChanges(sel, a)
  {
    var acts := Items(Get(sel, "matchActions"));
    ActsForget(acts, a, b);
    if acts == [] && b.Enforce? {
      var added := [Obj(map["action" := Target(b)])];
      assert added[0] in added && ActChanges(added[0]);
      assert map["action" := Target(b)]["action" := Target(a)] == map["action" := Target(a)];
      assert ToggleActs(added, a) == [Obj(map["action" := Target(a)])];
    }
  }

  lemma HookForgets(hook: Json, a: Action, b: Action)
    requires Forgets(a, b)
    ensures ToggleHook(ToggleHook(hook, b), a) == ToggleHook(hook, a)
    ensures HookChanges(ToggleHook(hook, b), a) <==> HookChanges(hook, a)
    ensures HookWritable(ToggleHook(hook, b), a) <==> HookWritable(hook, a)
  {
    hide ToggleSelector, SelectorChanges;
    var sels := Items(Field(hook, "selectors"));
    var once := ToggleRaws(sels, b);
    forall i | 0 <= i < |sels|
      ensures once[i] in once && sels[i] in sels
      ensures ToggleRaw(once[i], a) == ToggleRaw(sels[i], a)
      ensures RawChanges(once[i], a) <==> RawChanges(sels[i], a)
    {
      if sels[i].Obj? {
        SelectorForgets(sels[i].fields, a, b);
      }
    }
    assert ToggleRaws(once, a) == ToggleRaws(sels, a);
    assert Items(Field(ToggleHook(hook, b), "selectors")) == once;
  }

  lemma GroupForgets(group: Json, a: Action, b: Action)
    requires Forgets(a, b)
    ensures ToggleGroup(ToggleGroup(group, b), a) == ToggleGroup(group, a)
    ensures GroupChanges(ToggleGroup(group, b), a) <==> GroupChanges(group, a)
    ensures GroupWritable(ToggleGroup(group, b), a) <==> GroupWritable(group, a)
  {
    hide ToggleHook, HookChanges, HookWritable;
    var hooks := Items(group);
    var once := ToggleHooks(hooks, b);
    forall i | 0 <= i < |hooks|
      ensures once[i] in once && hooks[i] in hooks
      ensures ToggleHook(once[i], a) == ToggleHook(hooks[i], a)
      ensures HookChanges(once[i], a) <==> HookChanges(hooks[i], a)
      ensures HookWritable(once[i], a) <==> HookWritable(hooks[i], a)
    {
      HookForgets(hooks[i], a, b);
    }
    assert ToggleHooks(once, a) == ToggleHooks(hooks, a);
    assert Items(ToggleGroup(group, b)) == once;
  }

  lemma GroupsForget(spec: Fields, groups: seq<string>, a: Action, b: Action)
    requires Forgets(a, b)
    ensures ToggleGroups(ToggleGroups(spec, groups, b), groups, a) == ToggleGroups(spec, groups, a)
    ensures SpecChanges(ToggleGroups(spec, groups, b), groups, a) <==> SpecChanges(spec, groups, a)
    ensures SpecWritable(ToggleGroups(spec, groups, b), groups, a) <==> SpecWritable(spec, groups, a)
  {
    hide ToggleGroup, GroupChanges, GroupWritable;
    forall g | g in groups && g in spec
      ensures ToggleGroup(ToggleGroup(spec[g], b), a) == ToggleGroup(spec[g], a)
      ensures GroupChanges(ToggleGroup(spec[g], b), a) <==> GroupChanges(spec[g], a)
      ensures GroupWritable(ToggleGroup(spec[g], b), a) <==> GroupWritable(spec[g], a)
    {
      GroupForgets(spec[g], a, b);
    }
    var once := ToggleGroups(spec, groups, b);
    forall g | g in groups
      ensures GroupChanges(Get(once, g), a) <==> GroupChanges(Get(spec, g), a)
      ensures GroupWritable(Get(once, g), a) <==> GroupWritable(Get(spec, g), a)
    {
    }
  }

  /**
   Toggling twice to one mode, or to monitor and then to enforce, leaves the manifest the last toggle
   leaves by itself, and the last toggle succeeds on the one exactly when it does on the other.
   */
  lemma LastToggleWins(doc: Fields, a: Action, b: Action)
    requires Get(doc, "spec").Obj? && Forgets(a, b)
    ensures ToggleDoc(ToggleDoc(doc, b), a) == ToggleDoc(doc, a)
    ensures var spec, once := doc["spec"].fields, ToggleDoc(doc, b)["spec"].fields;
            && (SpecChanges(once, E.GROUPS, a) <==> SpecChanges(spec, E.GROUPS, a))
            && (SpecWritable(once, E.GROUPS, a) <==> SpecWritable(spec, E.GROUPS, a))
  {
    hide SpecChanges, SpecWritable, ToggleGroups;
    var spec := doc["spec"].fields;
    GroupsForget(spec, E.GROUPS, a, b);
    AnnotateForgets(doc, ToggleGroups(spec, E.GROUPS, b), ToggleGroups(spec, E.GROUPS, a), a, b);
  }

  function AnnotateMeta(meta: Fields, action: Action): Fields {
    meta["annotations" := Obj(AsMap(Get(meta, "annotations"))[ANNOTATION := NameOf(action)])]
  }

  lemma AnnotateMetaForgets(meta: Fields, a: Action, b: Action)
    ensures AnnotateMeta(AnnotateMeta(meta, b), a) == AnnotateMeta(meta, a)
  {
    var ann := AsMap(Get(meta, "annotations"));
    assert ann[ANNOTATION := NameOf(b)][ANNOTATION := NameOf(a)] == ann[ANNOTATION := NameOf(a)];
  }

  lemma AnnotateForgets(doc: Fields, first: Fields, second: Fields, a: Action, b: Action)
    ensures Annotate(Annotate(doc["spec" := Obj(first)], b)["spec" := Obj(second)], a)
         == Annotate(doc["spec" := Obj(second)], a)
    ensures Get(Annotate(doc["spec" := Obj(first)], b), "spec") == Obj(first)
  {
    hide AnnotateMeta;
    var meta := Get(doc, "metadata");
    if meta.Obj? {
      AnnotateIs(doc["spec" := Obj(first)], b);
      AnnotateIs(Annotate(doc["spec" := Obj(first)], b)["spec" := Obj(second)], a);
      AnnotateIs(doc["spec" := Obj(second)], a);
      AnnotateMetaForgets(meta.fields, a, b);
    }
  }

  lemma AnnotateIs(doc: Fields, a: Action)
    requires Get(doc, "metadata").Obj?
    ensures Annotate(doc, a) == doc["metadata" := Obj(AnnotateMeta(doc["metadata"].fields, a))]
  {
  }

  // ----- what is detected afterwards

  lemma ShowsAt(j: Json, k: string, w: string)
    requires j.Obj? && k in j.fields && Encoding.Shows(j.fields[k], w)
    ensures Encoding.Shows(j, w)
  {
  }

  lemma ShowsIn(items: seq<Json>, x: Json, w: string)
    requires x in items && Encoding.Shows(x, w)
    ensures Encoding.Shows(Arr(items), w)
  {
  }

  lemma EnforcedSelectorShows(sel: Fields)
    requires SelectorChanges(sel, Enforce)
    ensures Encoding.Shows(Obj(ToggleSelector(sel, Enforce)), "Sigkill")
  {
    var acts := Items(Get(sel, "matchActions"));
    var after := ToggleSelector(sel, Enforce);
    var killed: Json;
    if acts == [] {
      killed := Obj(map["action" := Target(Enforce)]);
    } else {
      var act :| act in acts && ActChanges(act);
      var i :| 0 <= i < |acts| && acts[i] == act;
      killed := ToggleActs(acts, Enforce)[i];
    }
    assert Encoding.Shows(Str("Sigkill"), "Sigkill");
    ShowsAt(killed, "action", "Sigkill");
    ShowsIn(after["matchActions"].items, killed, "Sigkill");
    ShowsAt(Obj(after), "matchActions", "Sigkill");
  }

  lemma EnforcedHookShows(hook: Json)
    requires HookChanges(hook, Enforce)
    ensures Encoding.Shows(ToggleHook(hook, Enforce), "Sigkill")
  {
    hide Encoding.Shows, ToggleSelector, SelectorChanges;
    var sels := Items(Field(hook, "selectors"));
    var raw :| raw in sels && RawChanges(raw, Enforce);
    var i :| 0 <= i < |sels| && sels[i] == raw;
    EnforcedSelectorShows(raw.fields);
    ShowsIn(ToggleRaws(sels, Enforce), ToggleRaws(sels, Enforce)[i], "Sigkill");
    ShowsAt(ToggleHook(hook, Enforce), "selectors", "Sigkill");
  }

  lemma EnforcedSpecShows(spec: Fields, groups: seq<string>)
    requires SpecChanges(spec, groups, Enforce)
    ensures Encoding.Shows(Obj(ToggleGroups(spec, groups, Enforce)), "Sigkill")
  {
    hide Encoding.Shows, ToggleHook, HookChanges;
    var g :| g in groups && GroupChanges(Get(spec, g), Enforce);
    var hook :| hook in Items(Get(spec, g)) && HookChanges(hook, Enforce);
    var hooks := Items(Get(spec, g));
    var i :| 0 <= i < |hooks| && hooks[i] == hook;
    EnforcedHookShows(hook);
    ShowsIn(ToggleHooks(hooks, Enforce), ToggleHooks(hooks, Enforce)[i], "Sigkill");
    ShowsAt(Obj(ToggleGroups(spec, groups, Enforce)), g, "Sigkill");
  }

  /** A successful switch to enforce is always detected as enforce. */
  lemma EnforceIsDetected(doc: Fields)
    requires Get(doc, "spec").Obj? && SpecChanges(doc["spec"].fields, E.GROUPS, Enforce)
    ensures DetectAction(Encoding.Marshal(Obj(ToggleDoc(doc, Enforce)))) == Enforce
  {
    hide Encoding.Shows, Encoding.Marshal, SpecChanges, DetectsEnforcement, ToggleGroups;
    var after := ToggleDoc(doc, Enforce);
    EnforcedSpecShows(doc["spec"].fields, E.GROUPS);
    assert after["spec"] == Obj(ToggleGroups(doc["spec"].fields, E.GROUPS, Enforce));
    ShowsAt(Obj(after), "spec", "Sigkill");
    DetectionReadsTokens(Obj(after));
  }

  // ----- monitor

  function StripAct(act: Json): Json {
    if act.Obj? then Obj(act.fields - {"action"}) else act
  }

  function StripRaw(raw: Json): Json {
    if raw.Obj? && Items(Get(raw.fields, "matchActions")) != []
    then var acts := raw.fields["matchActions"].items;
         Obj(raw.fields["matchActions" := Arr(seq(|acts|, i requires 0 <= i < |acts| => StripAct(acts[i])))])
    else raw
  }

  function StripHook(hook: Json): Json {
    if Field(hook, "selectors").Arr?
    then var sels := Items(Field(hook, "selectors"));
         Obj(AsMap(hook)["selectors" := Arr(seq(|sels|, i requires 0 <= i < |sels| => StripRaw(sels[i])))])
    else hook
  }

  function StripGroup(group: Json): Json {
    if group.Arr?
    then Arr(seq(|group.items|, i requires 0 <= i < |group.items| => StripHook(group.items[i])))
    else group
  }

  function StripSpec(spec: Fields): Fields {
    map k | k in spec :: if k in E.GROUPS then StripGroup(spec[k]) else spec[k]
  }

  function StripMeta(meta: Json): Json {
    if meta.Obj? then Obj(meta.fields["annotations" := Obj(AsMap(Get(meta.fields, "annotations")) - {ANNOTATION})])
    else meta
  }

  /** The manifest without what the switch rewrites: the actions of hook selectors and the mode annotation. */
  function StripDoc(doc: Fields): Fields
    requires Get(doc, "spec").Obj?
  {
    map k | k in doc :: if k == "spec" then Obj(StripSpec(doc[k].fields))
                        else if k == "metadata" then StripMeta(doc[k])
                        else doc[k]
  }

  /** Trees that differ only below keys where they show the same words show the same words. */
  lemma SameShows(m: Fields, n: Fields, w: string)
    requires forall k :: k in m && !(k in n && Encoding.Shows(m[k], w) == Encoding.Shows(n[k], w)) ==>
               !Encoding.Carries(k, w) && !Encoding.Shows(m[k], w)
    requires forall k :: k in n && k !in m ==> !Encoding.Carries(k, w) && !Encoding.Shows(n[k], w)
    requires forall k :: k in m && k in n ==> Encoding.Shows(m[k], w) == Encoding.Shows(n[k], w)
    ensures Encoding.Shows(Obj(m), w) == Encoding.Shows(Obj(n), w)
  {
    hide Encoding.Carries;
    var a, b := Obj(m), Obj(n);
    if k :| k in m && (Encoding.Carries(k, w) || Encoding.Shows(m[k], w)) {
      assert k in b.fields;
      assert Encoding.Shows(b, w);
    }
    if k :| k in n && (Encoding.Carries(k, w) || Encoding.Shows(n[k], w)) {
      assert k in a.fields;
      assert Encoding.Shows(a, w);
    }
  }

  lemma SameShowsInList(xs: seq<Json>, ys: seq<Json>, w: string)
    requires |xs| == |ys| && forall i :: 0 <= i < |xs| ==> Encoding.Shows(xs[i], w) == Encoding.Shows(ys[i], w)
    ensures Encoding.Shows(Arr(xs), w) == Encoding.Shows(Arr(ys), w)
  {
    var a, b := Arr(xs), Arr(ys);
    if i :| 0 <= i < |xs| && Encoding.Shows(xs[i], w) {
      assert Encoding.Shows(b.items[i], w);
    }
    if i :| 0 <= i < |ys| && Encoding.Shows(ys[i], w) {
      assert Encoding.Shows(a.items[i], w);
    }
  }

  predicate Enforcing(w: string) {
    w == "Sigkill" || w == "Override"
  }

  /** Nothing the switch to monitor writes reads as enforcement. */
  lemma MonitorWordsAreQuiet(w: string)
    requires Enforcing(w)
    ensures !Encoding.Carries("action", w) && !Encoding.Shows(Target(Monitor), w)
    ensures !Encoding.Carries(ANNOTATION, w) && !Encoding.Shows(NameOf(Monitor), w)
    ensures !Encoding.Carries("annotations", w)
  {
    OtherEnding("action", w);
    OtherEnding(ANNOTATION, w);
    OtherEnding("annotations", w);
    OtherEnding("Post", w);
    OtherEnding("monitor", w);
  }

  lemma OtherEnding(t: string, w: string)
    requires t != "" && w != "" && t[|t| - 1] != w[|w| - 1]
    ensures !Encoding.Carries(t, w)
  {
    var p := "\"" + w;
    if Text.HasSuffix(t, p) {
      Text.SuffixEnds(t, p);
    }
  }

  lemma MonitoredAct(act: Json, w: string)
    requires Enforcing(w)
    ensures Encoding.Shows(ToggleAct(act, Monitor), w) == Encoding.Shows(StripAct(act), w)
  {
    hide Encoding.Shows, Encoding.Carries;
    MonitorWordsAreQuiet(w);
    if act.Obj? {
      var m := ToggleAct(act, Monitor).fields;
      var n := act.fields - {"action"};
      assert forall k :: k in n ==> m[k] == n[k];
      SameShows(m, n, w);
    }
  }

  lemma MonitoredRaw(raw: Json, w: string)
    requires Enforcing(w)
    ensures Encoding.Shows(ToggleRaw(raw, Monitor), w) == Encoding.Shows(StripRaw(raw), w)
  {
    hide Encoding.Shows, Encoding.Carries, ToggleAct, StripAct;
    if raw.Obj? && Items(Get(raw.fields, "matchActions")) != [] {
      var acts := raw.fields["matchActions"].items;
      var xs := ToggleActs(acts, Monitor);
      var ys := seq(|acts|, i requires 0 <= i < |acts| => StripAct(acts[i]));
      forall i | 0 <= i < |acts| ensures Encoding.Shows(xs[i], w) == Encoding.Shows(ys[i], w) {
        MonitoredAct(acts[i], w);
      }
      SameShowsInList(xs, ys, w);
      SameShows(ToggleRaw(raw, Monitor).fields, StripRaw(raw).fields, w);
    }
  }

  lemma MonitoredHook(hook: Json, w: string)
    requires Enforcing(w)
    ensures Encoding.Shows(ToggleHook(hook, Monitor), w) == Encoding.Shows(StripHook(hook), w)
  {
    hide Encoding.Shows, Encoding.Carries, ToggleRaw, StripRaw;
    if Field(hook, "selectors").Arr? {
      var sels := Items(Field(hook, "selectors"));
      var xs := ToggleRaws(sels, Monitor);
      var ys := seq(|sels|, i requires 0 <= i < |sels| => StripRaw(sels[i]));
      forall i | 0 <= i < |sels| ensures Encoding.Shows(xs[i], w) == Encoding.Shows(ys[i], w) {
        MonitoredRaw(sels[i], w);
      }
      SameShowsInList(xs, ys, w);
      SameShows(ToggleHook(hook, Monitor).fields, StripHook(hook).fields, w);
    }
  }

  lemma MonitoredGroup(group: Json, w: string)
    requires Enforcing(w)
    ensures Encoding.Shows(ToggleGroup(group, Monitor), w) == Encoding.Shows(StripGroup(group), w)
  {
    hide Encoding.Shows, ToggleHook, StripHook;
    if group.Arr? {
      forall i | 0 <= i < |group.items|
        ensures Encoding.Shows(ToggleHook(group.items[i], Monitor), w) == Encoding.Shows(StripHook(group.items[i]), w) {
        MonitoredHook(group.items[i], w);
      }
      SameShowsInList(ToggleHooks(group.items, Monitor), StripGroup(group).items, w);
    }
  }

  lemma MonitoredSpec(spec: Fields, w: string)
    requires Enforcing(w)
    ensures Encoding.Shows(Obj(ToggleGroups(spec, E.GROUPS, Monitor)), w) == Encoding.Shows(Obj(StripSpec(spec)), w)
  {
    hide Encoding.Shows, Encoding.Carries, ToggleGroup, StripGroup;
    forall k | k in spec
      ensures Encoding.Shows(ToggleGroup(spec[k], Monitor), w) == Encoding.Shows(StripGroup(spec[k]), w)
    {
      MonitoredGroup(spec[k], w);
    }
    SameShows(ToggleGroups(spec, E.GROUPS, Monitor), StripSpec(spec), w);
  }

  lemma MonitoredMeta(doc: Fields, w: string)
    requires Enforcing(w) && "metadata" in doc
    ensures Encoding.Shows(Annotate(doc, Monitor)["metadata"], w) == Encoding.Shows(StripMeta(doc["metadata"]), w)
  {
    hide Encoding.Shows, Encoding.Carries;
    MonitorWordsAreQuiet(w);
    var meta := doc["metadata"];
    if meta.Obj? {
      var ann := AsMap(Get(meta.fields, "annotations"));
      var m, n := ann[ANNOTATION := NameOf(Monitor)], ann - {ANNOTATION};
      assert forall k :: k in n ==> m[k] == n[k];
      SameShows(m, n, w);
      SameShows(meta.fields["annotations" := Obj(m)], meta.fields["annotations" := Obj(n)], w);
    }
  }

  lemma MonitoredDoc(doc: Fields, w: string)
    requires Enforcing(w) && Get(doc, "spec").Obj?
    ensures Encoding.Shows(Obj(ToggleDoc(doc, Monitor)), w) == Encoding.Shows(Obj(StripDoc(doc)), w)
  {
    hide Encoding.Shows, Encoding.Carries, StripMeta, StripSpec, ToggleGroups;
    var spec := doc["spec"].fields;
    var after := ToggleDoc(doc, Monitor);
    MonitoredSpec(spec, w);
    if "metadata" in doc {
      MonitoredMeta(doc["spec" := Obj(ToggleGroups(spec, E.GROUPS, Monitor))], w);
    }
    assert after.Keys == doc.Keys;
    SameShows(after, StripDoc(doc), w);
  }

  /** A switch to monitor is detected as monitor exactly when nothing it leaves alone reads as enforcement. */
  lemma MonitorIsDetectedExactly(doc: Fields)
    requires Get(doc, "spec").Obj?
    ensures DetectAction(Encoding.Marshal(Obj(ToggleDoc(doc, Monitor)))) == Monitor <==>
            !ShowsEnforcement(Obj(StripDoc(doc)))
  {
    hide Encoding.Shows, Encoding.Marshal, DetectsEnforcement, StripDoc, ToggleDoc;
    MonitoredDoc(doc, "Sigkill");
    MonitoredDoc(doc, "Override");
    DetectionReadsTokens(Obj(ToggleDoc(doc, Monitor)));
  }

  /** An enforcing matchReturnActions is not rewritten, so the policy still reads as enforcing. */
  lemma ReturnActionsKeepEnforcing()
    ensures var sel := map["matchActions" := Arr([Obj(map["action" := Str("Sigkill")])]),
                           "matchReturnActions" := Arr([Obj(map["action" := Str("Sigkill")])])];
            var doc := map["spec" := Obj(map["kprobes" := Arr([Obj(map["selectors" := Arr([Obj(sel)])])])])];
            SpecChanges(doc["spec"].fields, E.GROUPS, Monitor)
            && DetectAction(Encoding.Marshal(Obj(ToggleDoc(doc, Monitor)))) == Enforce
  {
    hide Encoding.Marshal, DetectsEnforcement;
    var kill := Obj(map["action" := Str("Sigkill")]);
    var sel := map["matchActions" := Arr([kill]), "matchReturnActions" := Arr([kill])];
    var hook := Obj(map["selectors" := Arr([Obj(sel)])]);
    var spec: Fields := map["kprobes" := Arr([hook])];
    var doc := map["spec" := Obj(spec)];
    assert kill in Items(Get(sel, "matchActions")) && ActChanges(kill);
    assert Obj(sel) in Items(Field(hook, "selectors")) && RawChanges(Obj(sel), Monitor);
    assert hook in Items(Get(spec, "kprobes")) && E.GROUPS[0] == "kprobes";
    assert GroupChanges(Get(spec, "kprobes"), Monitor);
    assert Encoding.Shows(Str("Sigkill"), "Sigkill");
    ShowsAt(kill, "action", "Sigkill");
    ShowsIn([kill], kill, "Sigkill");
    var sel' := ToggleSelector(sel, Monitor);
    ShowsAt(Obj(sel'), "matchReturnActions", "Sigkill");
    assert ToggleRaws([Obj(sel)], Monitor)[0] == Obj(sel');
    ShowsIn(ToggleRaws([Obj(sel)], Monitor), Obj(sel'), "Sigkill");
    assert ToggleHooks([hook], Monitor)[0] == ToggleHook(hook, Monitor);
    ShowsAt(ToggleHook(hook, Monitor), "selectors", "Sigkill");
    ShowsIn(ToggleHooks([hook], Monitor), ToggleHook(hook, Monitor), "Sigkill");
    var spec' := ToggleGroups(spec, E.GROUPS, Monitor);
    ShowsAt(Obj(spec'), "kprobes", "Sigkill");
    ShowsAt(Obj(ToggleDoc(doc, Monitor)), "spec", "Sigkill");
    DetectionReadsTokens(Obj(ToggleDoc(doc, Monitor)));
  }

  // ----- exclusions and the switch

  /** The hook has selectors, and each is a map. */
  predicate HookReady(hook: Json) {
    var sels := Items(Field(hook, "selectors"));
    sels != [] && forall raw :: raw in sels ==> raw.Obj?
  }

  predicate SpecReady(spec: Fields) {
    forall g, hook :: g in E.GROUPS && hook in Items(Get(spec, g)) ==> HookReady(hook)
  }

  /** Both writers keep to their own keys of the selector. */
  lemma SelectorCommutes(sel: Fields, ex: E.Exclusions, index: Option<int>, a: Action)
    ensures E.FilterSelector(ToggleSelector(sel, a), ex, index) == ToggleSelector(E.FilterSelector(sel, ex, index), a)
    ensures SelectorChanges(E.FilterSelector(sel, ex, index), a) <==> SelectorChanges(sel, a)
  {
    hide E.Merge, E.PathLands, ToggleActs, ActsChange;
    var filtered := E.FilterSelector(sel, ex, index);
    assert Get(filtered, "matchActions") == Get(sel, "matchActions");
    var toggled := ToggleSelector(sel, a);
    if toggled != sel {
      WrittenOver(sel, ex, index, toggled["matchActions"]);
    }
  }

  lemma WrittenOver(sel: Fields, ex: E.Exclusions, index: Option<int>, acts: Json)
    ensures E.FilterSelector(sel["matchActions" := acts], ex, index)
         == E.FilterSelector(sel, ex, index)["matchActions" := acts]
  {
    hide E.Merge, E.PathLands;
  }

  /** An empty selector is left open by the switch to monitor, and closed by the switch to enforce. */
  lemma RawCommutes(raw: Json, ex: E.Exclusions, index: Option<int>, a: Action)
    ensures E.FilterRaw(ToggleRaw(raw, a), ex, index) == ToggleRaw(E.FilterRaw(raw, ex, index), a)
       <==> raw.Obj? || a.Monitor?
    ensures raw.Obj? ==> (RawChanges(E.FilterRaw(raw, ex, index), a) <==> RawChanges(raw, a))
  {
    hide E.FilterSelector;
    if raw.Obj? {
      SelectorCommutes(raw.fields, ex, index, a);
    } else {
      assert a.Enforce? ==> "matchActions" in ToggleSelector(map[], a);
    }
  }

  lemma AddedSelector(ex: E.Exclusions, index: Option<int>, a: Action)
    ensures ToggleRaw(E.FilterRaw(Obj(map[]), ex, index), a) == E.FilterRaw(Obj(map[]), ex, index) <==> a.Monitor?
  {
    hide E.Merge;
    var s := E.FilterSelector(map[], ex, index);
    assert "matchActions" !in s;
    assert a.Enforce? ==> "matchActions" in ToggleSelector(s, a);
  }

  lemma HookCommutes(hook: Json, ex: E.Exclusions, a: Action)
    ensures Obj(E.FilterHook(AsMap(ToggleHook(hook, a)), ex)) == ToggleHook(Obj(E.FilterHook(AsMap(hook), ex)), a)
       <==> HookReady(hook) || a.Monitor?
    ensures HookReady(hook) ==> (HookChanges(Obj(E.FilterHook(AsMap(hook), ex)), a) <==> HookChanges(hook, a))
  {
    hide E.FilterRaw, ToggleRaw, RawChanges, E.PathIndexIn;
    var sels, index := Items(Field(hook, "selectors")), E.IndexFor(AsMap(hook), ex);
    var given := E.SelectorsOf(AsMap(hook));
    var left := E.FilterSelectors(if sels == [] then given else ToggleRaws(sels, a), ex, index);
    var right := ToggleRaws(E.FilterSelectors(given, ex, index), a);
    assert E.FilterHook(AsMap(ToggleHook(hook, a)), ex) == AsMap(hook)["selectors" := Arr(left)];
    assert ToggleHook(Obj(E.FilterHook(AsMap(hook), ex)), a) == Obj(AsMap(hook)["selectors" := Arr(right)]);
    assert AsMap(hook)["selectors" := Arr(left)]["selectors"] == Arr(left);
    assert AsMap(hook)["selectors" := Arr(right)]["selectors"] == Arr(right);
    if sels == [] {
      AddedSelector(ex, index, a);
      assert left == [left[0]] && right == [right[0]];
    } else {
      forall i | 0 <= i < |sels|
        ensures left[i] == right[i] <==> sels[i].Obj? || a.Monitor?
        ensures sels[i] in sels && E.FilterSelectors(sels, ex, index)[i] in E.FilterSelectors(sels, ex, index)
        ensures sels[i].Obj? ==> (RawChanges(E.FilterRaw(sels[i], ex, index), a) <==> RawChanges(sels[i], a))
      {
        RawCommutes(sels[i], ex, index, a);
      }
      assert left == right <==> forall i :: 0 <= i < |sels| ==> left[i] == right[i];
      assert Items(Field(Obj(E.FilterHook(AsMap(hook), ex)), "selectors")) == E.FilterSelectors(sels, ex, index);
    }
  }

  lemma GroupCommutes(group: Json, ex: E.Exclusions, a: Action)
    ensures E.GroupAfter(ToggleGroup(group, a), ex) == ToggleGroup(E.GroupAfter(group, ex), a)
       <==> a.Monitor? || forall hook :: hook in Items(group) ==> HookReady(hook)
    ensures (forall hook :: hook in Items(group) ==> HookReady(hook)) ==>
              (GroupChanges(E.GroupAfter(group, ex), a) <==> GroupChanges(group, a))
  {
    hide E.FilterHook, ToggleHook, HookReady, HookChanges;
    if group.Arr? {
      var hooks := group.items;
      var left, right := E.FilterHooks(ToggleHooks(hooks, a), ex), ToggleHooks(E.FilterHooks(hooks, ex), a);
      forall i | 0 <= i < |hooks|
        ensures left[i] == right[i] <==> HookReady(hooks[i]) || a.Monitor?
        ensures hooks[i] in hooks && E.FilterHooks(hooks, ex)[i] in E.FilterHooks(hooks, ex)
        ensures HookReady(hooks[i]) ==> (HookChanges(E.FilterHooks(hooks, ex)[i], a) <==> HookChanges(hooks[i], a))
      {
        HookCommutes(hooks[i], ex, a);
      }
      assert left == right <==> forall i :: 0 <= i < |hooks| ==> left[i] == right[i];
    }
  }

  lemma SpecCommutesAt(spec: Fields, ex: E.Exclusions, a: Action, k: string)
    ensures var left := E.SpecAfter(ToggleGroups(spec, E.GROUPS, a), ex);
            var right := ToggleGroups(E.SpecAfter(spec, ex), E.GROUPS, a);
            && (k in left <==> k in right)
            && (k in left && k !in E.GROUPS ==> left[k] == right[k])
            && (k in E.GROUPS ==> (k in left <==> k in spec))
            && (k in left && k in E.GROUPS ==>
                  left[k] == E.GroupAfter(ToggleGroup(spec[k], a), ex) &&
                    right[k] == ToggleGroup(E.GroupAfter(spec[k], ex), a))
  {
    hide E.GroupAfter, ToggleGroup, E.PodSelectorAfter, E.ContainerSelectorAfter, E.SpecAfter;
    EL.SpecAfterAt(ToggleGroups(spec, E.GROUPS, a), ex, k);
    EL.SpecAfterAt(spec, ex, k);
  }

  lemma SpecCommutes(spec: Fields, ex: E.Exclusions, a: Action)
    ensures E.SpecAfter(ToggleGroups(spec, E.GROUPS, a), ex) == ToggleGroups(E.SpecAfter(spec, ex), E.GROUPS, a)
       <==> a.Monitor? || SpecReady(spec)
  {
    hide E.GroupAfter, ToggleGroup, E.SpecAfter, ToggleGroups, HookReady;
    var left := E.SpecAfter(ToggleGroups(spec, E.GROUPS, a), ex);
    var right := ToggleGroups(E.SpecAfter(spec, ex), E.GROUPS, a);
    forall k
      ensures k in left <==> k in right
      ensures k in left && k !in E.GROUPS ==> left[k] == right[k]
      ensures k in E.GROUPS ==> (k in left <==> k in spec)
      ensures k in left && k in E.GROUPS ==>
                (left[k] == right[k] <==> a.Monitor? || forall hook :: hook in Items(Get(spec, k)) ==> HookReady(hook))
    {
      SpecCommutesAt(spec, ex, a, k);
      if k in left && k in E.GROUPS {
        GroupCommutes(spec[k], ex, a);
      }
    }
    if a.Monitor? || SpecReady(spec) {
      assert left == right;
    } else {
      var g, hook :| g in E.GROUPS && hook in Items(Get(spec, g)) && !HookReady(hook);
      assert g in left && left[g] != right[g];
    }
  }

  /**
   Excluding and switching mode in either order gives the same manifest exactly when the switch is
   to monitor, or every hook has selectors and they are maps.
   */
  lemma SwitchCommutesWithExclusions(doc: Fields, ex: E.Exclusions, a: Action)
    requires Get(doc, "spec").Obj?
    ensures E.DocAfter(ToggleDoc(doc, a), ex) == ToggleDoc(E.DocAfter(doc, ex), a)
       <==> a.Monitor? || SpecReady(doc["spec"].fields)
  {
    hide E.SpecAfter, ToggleGroups, SpecReady;
    var spec := doc["spec"].fields;
    SpecCommutes(spec, ex, a);
    var left := E.SpecAfter(ToggleGroups(spec, E.GROUPS, a), ex);
    var right := ToggleGroups(E.SpecAfter(spec, ex), E.GROUPS, a);
    SpecUnderAnnotation(doc, ToggleGroups(spec, E.GROUPS, a), left, a);
    SpecUnderAnnotation(doc, E.SpecAfter(spec, ex), right, a);
    assert E.DocAfter(ToggleDoc(doc, a), ex) == Annotate(doc["spec" := Obj(left)], a);
    assert ToggleDoc(E.DocAfter(doc, ex), a) == Annotate(doc["spec" := Obj(right)], a);
    SpecUnderAnnotation(doc, left, left, a);
    SpecUnderAnnotation(doc, right, right, a);
  }

  lemma SpecUnderAnnotation(doc: Fields, first: Fields, second: Fields, a: Action)
    ensures Annotate(doc["spec" := Obj(first)], a)["spec" := Obj(second)] == Annotate(doc["spec" := Obj(second)], a)
    ensures Get(Annotate(doc["spec" := Obj(first)], a), "spec") == Obj(first)
    ensures Annotate(doc["spec" := Obj(first)]["spec" := Obj(second)], a) == Annotate(doc["spec" := Obj(second)], a)
  {
    hide AnnotateMeta;
    assert doc["spec" := Obj(first)]["spec" := Obj(second)] == doc["spec" := Obj(second)];
    if Get(doc, "metadata").Obj? {
      AnnotateIs(doc["spec" := Obj(first)], a);
      AnnotateIs(doc["spec" := Obj(second)], a);
    }
  }

  /** With a selector in every hook, the switch has something to do after exclusions exactly when it had before. */
  lemma SwitchableAfterExclusions(spec: Fields, ex: E.Exclusions, a: Action)
    requires SpecReady(spec)
    ensures SpecChanges(E.SpecAfter(spec, ex), E.GROUPS, a) <==> SpecChanges(spec, E.GROUPS, a)
  {
    hide E.GroupAfter, GroupChanges, E.SpecAfter, HookReady;
    forall g | g in E.GROUPS
      ensures GroupChanges(Get(E.SpecAfter(spec, ex), g), a) <==> GroupChanges(Get(spec, g), a)
    {
      EL.SpecAfterAt(spec, ex, g);
      GroupCommutes(Get(spec, g), ex, a);
    }
  }

}
