/**
 What a switch writes into a manifest and where (backend/internal/k8s/tracing.go:90-148), word by word: the actions,
 the annotation, and nothing else.
 */
module SwitchLaws {
  import opened Json
  import opened Tracing
  import E = Exclusions

  /** The actions that the source rewrites: those of selectors that are maps, in the hooks of four groups. */
  ghost predicate ActionOf(doc: Json, act: Json) {
    exists g, hook, raw ::
      && g in {"kprobes", "tracepoints", "uprobes", "lsmhooks"} && hook in Items(Field(Field(doc, "spec"), g))
      && raw in Items(Field(hook, "selectors")) && act in Items(Field(raw, "matchActions"))
  }

  /** The list of actions of a selector before and after, when the word is written. */
  predicate Written(before: seq<Json>, after: seq<Json>, word: string, added: bool) {
    if before == [] then after == if added then [Obj(map["action" := Str(word)])] else []
    else
      && |after| == |before|
      && forall k :: 0 <= k < |before| ==>
           after[k] == if before[k].Obj? && "action" in before[k].fields
                       then Obj(before[k].fields["action" := Str(word)]) else before[k]
  }

  lemma SelectorWritten(raw: Json, a: Action)
    requires raw.Obj?
    ensures var after := ToggleRaw(raw, a);
            && after.Obj?
            && Written(Items(Field(raw, "matchActions")), Items(Field(after, "matchActions")),
                       if a.Enforce? then "Sigkill" else "Post", a.Enforce?)
            && after.fields - {"matchActions"} == raw.fields - {"matchActions"}
  {
  }

  lemma HookWritten(hook: Json, a: Action, j: nat)
    requires j < |Items(Field(hook, "selectors"))|
    ensures var before, after := Items(Field(hook, "selectors")), Items(Field(ToggleHook(hook, a), "selectors"));
            && |after| == |before| && after[j] == ToggleRaw(before[j], a)
  {
    hide ToggleRaw;
  }

  lemma GroupWritten(doc: Fields, a: Action, group: string)
    requires Get(doc, "spec").Obj? && group in {"kprobes", "tracepoints", "uprobes", "lsmhooks"}
    ensures Field(Field(Obj(ToggleDoc(doc, a)), "spec"), group) == ToggleGroup(Field(doc["spec"], group), a)
  {
    hide ToggleGroup;
    assert group in E.GROUPS;
    NullGroup(a);
  }

  lemma NullGroup(a: Action)
    ensures ToggleGroup(Null, a) == Null
  {
  }

  lemma HooksWritten(group: Json, a: Action, i: nat)
    requires i < |Items(group)|
    ensures |Items(ToggleGroup(group, a))| == |Items(group)| &&
            Items(ToggleGroup(group, a))[i] == ToggleHook(Items(group)[i], a)
  {
    hide ToggleHook;
  }

  /**
   In the j-th selector of the i-th hook of a group every action becomes Sigkill or Post, nothing else of the
   selector changes, and a selector without actions gets one only to enforce.
   */
  lemma SwitchWrites(doc: Fields, a: Action, group: string, i: nat, j: nat)
    requires Get(doc, "spec").Obj? && group in {"kprobes", "tracepoints", "uprobes", "lsmhooks"}
    requires i < |Items(Field(doc["spec"], group))|
    requires j < |Items(Field(Items(Field(doc["spec"], group))[i], "selectors"))|
    ensures var hooks := Items(Field(Field(Obj(ToggleDoc(doc, a)), "spec"), group));
            && i < |hooks| && j < |Items(Field(hooks[i], "selectors"))|
            && var raw := Items(Field(Items(Field(doc["spec"], group))[i], "selectors"))[j];
               var after := Items(Field(hooks[i], "selectors"))[j];
               if raw.Obj? then
                 && after.Obj?
                 && Written(Items(Field(raw, "matchActions")), Items(Field(after, "matchActions")),
                            if a.Enforce? then "Sigkill" else "Post", a.Enforce?)
                 && after.fields - {"matchActions"} == raw.fields - {"matchActions"}
               else after == raw
  {
    hide ToggleDoc, ToggleGroup, ToggleHook, ToggleRaw, Written;
    var hook := Items(Field(doc["spec"], group))[i];
    GroupWritten(doc, a, group);
    HooksWritten(Field(doc["spec"], group), a, i);
    HookWritten(hook, a, j);
    var raw := Items(Field(hook, "selectors"))[j];
    if raw.Obj? {
      SelectorWritten(raw, a);
    } else {
      NoMapNoChange(raw, a);
    }
  }

  lemma NoMapNoChange(raw: Json, a: Action)
    requires !raw.Obj?
    ensures ToggleRaw(raw, a) == raw
  {
  }

  /** After a switch every action in the list of a selector reads Post, or Sigkill. */
  lemma EveryActionReads(doc: Fields, a: Action, act: Json)
    requires Get(doc, "spec").Obj? && ActionOf(Obj(ToggleDoc(doc, a)), act) && act.Obj? && "action" in act.fields
    ensures act.fields["action"] == Str(if a.Enforce? then "Sigkill" else "Post")
  {
    hide ToggleDoc, ToggleGroup, ToggleHook, ToggleRaw, Written;
    var after := Obj(ToggleDoc(doc, a));
    var g, hook, raw :| && g in {"kprobes", "tracepoints", "uprobes", "lsmhooks"}
                        && hook in Items(Field(Field(after, "spec"), g))
                        && raw in Items(Field(hook, "selectors")) && act in Items(Field(raw, "matchActions"));
    GroupWritten(doc, a, g);
    var group := Field(doc["spec"], g);
    var i :| 0 <= i < |Items(ToggleGroup(group, a))| && Items(ToggleGroup(group, a))[i] == hook;
    SameLength(group, a);
    HooksWritten(group, a, i);
    var j :| 0 <= j < |Items(Field(hook, "selectors"))| && Items(Field(hook, "selectors"))[j] == raw;
    SameSelectors(Items(group)[i], a);
    SwitchWrites(doc, a, g, i, j);
    var before := Items(Field(Items(group)[i], "selectors"))[j];
    assert before.Obj?;
    WrittenReads(Items(Field(before, "matchActions")), Items(Field(raw, "matchActions")),
                 if a.Enforce? then "Sigkill" else "Post", a.Enforce?, act);
  }

  lemma SameLength(group: Json, a: Action)
    ensures |Items(ToggleGroup(group, a))| == |Items(group)|
  {
  }

  lemma SameSelectors(hook: Json, a: Action)
    ensures |Items(Field(ToggleHook(hook, a), "selectors"))| == |Items(Field(hook, "selectors"))|
  {
  }

  lemma WrittenReads(before: seq<Json>, after: seq<Json>, word: string, added: bool, act: Json)
    requires Written(before, after, word, added) && act in after && act.Obj? && "action" in act.fields
    ensures act.fields["action"] == Str(word)
  {
    var k :| 0 <= k < |after| && after[k] == act;
  }

  /** The annotation says which, other annotations and the rest of the metadata stay. */
  lemma AnnotationWritten(doc: Fields, a: Action)
    requires Get(doc, "spec").Obj?
    ensures var before, after := Get(doc, "metadata"), Get(ToggleDoc(doc, a), "metadata");
            if before.Obj? then
              && after.Obj? && after.fields - {"annotations"} == before.fields - {"annotations"}
              && Field(after, "annotations") ==
                 Obj(AsMap(Field(before, "annotations"))["isovalent-control.io/action" :=
                       Str(if a.Enforce? then "enforce" else "monitor")])
            else after == before
  {
    hide ToggleGroups;
  }

  /** Nothing else changes: not in the manifest, not in the spec, not in a hook. */
  lemma RestUntouched(doc: Fields, a: Action)
    requires Get(doc, "spec").Obj?
    ensures ToggleDoc(doc, a) - {"spec", "metadata"} == doc - {"spec", "metadata"}
    ensures var groups := {"kprobes", "tracepoints", "uprobes", "lsmhooks"};
            Get(ToggleDoc(doc, a), "spec").Obj? &&
              ToggleDoc(doc, a)["spec"].fields - groups == doc["spec"].fields - groups
    ensures forall hook: Json :: AsMap(ToggleHook(hook, a)) - {"selectors"} == AsMap(hook) - {"selectors"}
  {
    hide ToggleGroup, ToggleRaws;
  }

  /** A selector of a hook in one of the four groups. */
  ghost predicate SelectorOf(spec: Fields, raw: Json) {
    exists g, hook :: g in {"kprobes", "tracepoints", "uprobes", "lsmhooks"} && hook in Items(Get(spec, g)) &&
      raw in Items(Field(hook, "selectors"))
  }

  lemma GroupsAre()
    ensures forall g :: g in E.GROUPS <==> g in {"kprobes", "tracepoints", "uprobes", "lsmhooks"}
  {
  }

  /** There is something to switch exactly when some action is there, or some map without actions to enforce in. */
  lemma SwitchableExactly(spec: Fields, a: Action)
    ensures SpecChanges(spec, E.GROUPS, a) <==>
            exists raw :: SelectorOf(spec, raw) && raw.Obj? && var acts := Items(Field(raw, "matchActions"));
                          || (acts == [] && a.Enforce?)
                          || exists act :: act in acts && act.Obj? && "action" in act.fields
  {
    hide SelectorChanges, SelectorOf;
    GroupsAre();
    forall raw: Json | raw.Obj?
      ensures SelectorChanges(raw.fields, a) <==> var acts := Items(Field(raw, "matchActions"));
                || (acts == [] && a.Enforce?)
                || exists act :: act in acts && act.Obj? && "action" in act.fields
    {
      SelectorSwitchable(raw, a);
    }
    ChangesAre(spec, a);
  }

  lemma ChangesAre(spec: Fields, a: Action)
    ensures SpecChanges(spec, E.GROUPS, a) <==>
            exists raw :: SelectorOf(spec, raw) && raw.Obj? && SelectorChanges(raw.fields, a)
  {
    hide SelectorChanges;
    GroupsAre();
    if SpecChanges(spec, E.GROUPS, a) {
      var g :| g in E.GROUPS && GroupChanges(Get(spec, g), a);
      var hook :| hook in Items(Get(spec, g)) && HookChanges(hook, a);
      var raw :| raw in Items(Field(hook, "selectors")) && RawChanges(raw, a);
      assert SelectorOf(spec, raw);
    }
    if raw :| SelectorOf(spec, raw) && raw.Obj? && SelectorChanges(raw.fields, a) {
      var g, hook :| g in {"kprobes", "tracepoints", "uprobes", "lsmhooks"} && hook in Items(Get(spec, g)) &&
        raw in Items(Field(hook, "selectors"));
      assert RawChanges(raw, a) && HookChanges(hook, a) && GroupChanges(Get(spec, g), a);
    }
  }

  /** Enforcing fails exactly at a selector that is no map; monitoring never does. */
  lemma WritableExactly(spec: Fields, a: Action)
    ensures SpecWritable(spec, E.GROUPS, a) <==> (a.Enforce? ==> forall raw :: SelectorOf(spec, raw) ==> raw.Obj?)
  {
    GroupsAre();
    if a.Enforce? && forall raw :: SelectorOf(spec, raw) ==> raw.Obj? {
      forall g, hook, raw | g in E.GROUPS && hook in Items(Get(spec, g)) && raw in Items(Field(hook, "selectors"))
        ensures raw.Obj?
      {
        assert SelectorOf(spec, raw);
      }
    }
  }

  lemma SelectorSwitchable(raw: Json, a: Action)
    requires raw.Obj?
    ensures SelectorChanges(raw.fields, a) <==> var acts := Items(Field(raw, "matchActions"));
              || (acts == [] && a.Enforce?)
              || exists act :: act in acts && act.Obj? && "action" in act.fields
  {
    if act :| act in Items(Field(raw, "matchActions")) && act.Obj? && "action" in act.fields {
      assert ActChanges(act);
    }
  }
}
