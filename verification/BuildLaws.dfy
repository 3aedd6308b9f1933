/**
 What a draft builds, word by word (frontend/src/lib/libraryYaml.ts:161-256, 390-422): the actions of every selector,
 the exclusions of draft and policy together, and the match set of each policy.
 */
module BuildLaws {
  import opened Builder
  import opened Json
  import opened Library
  import opened LibraryLaws
  import opened Option
  import S = Selectors
  import Text

  // ----- actions

  /** What a mode makes of one action: what enforces becomes a Post without its arguments, a Post becomes a kill. */
  function Rewritten(act: Json, mode: Mode): Json {
    if mode == Alert && Word(act) in {"Sigkill", "Override", "NotifyEnforcer", "Signal"}
    then Obj((AsMap(act) - {"argError"} - {"argSig"})["action" := Str("Post")])
    else if mode == Block && Word(act) == "Post" then Obj(AsMap(act)["action" := Str("Sigkill")])
    else act
  }

  predicate AllRewritten(before: seq<Json>, after: seq<Json>, mode: Mode) {
    |after| == |before| && forall k :: 0 <= k < |before| ==> after[k] == Rewritten(before[k], mode)
  }

  lemma RewrittenIs(act: Json, mode: Mode)
    ensures ActionAfter(act, mode) == Rewritten(act, mode)
  {
    hide Coerced;
    assert AsMap(act) - {"argError", "argSig"} == AsMap(act) - {"argError"} - {"argSig"};
  }

  lemma SelectorRewritten(sel: Json, mode: Mode, ex: Excluded, index: Option<int>, key: string)
    requires key in {"matchActions", "matchReturnActions"}
    ensures var after := Obj(SelectorAfter(SelectorMode(AsMap(sel), mode), ex, index));
            AllRewritten(Items(Field(sel, key)), Items(Field(after, key)), mode)
  {
    hide ActionAfter, Rewritten, BinaryClause, ParentClause, PathClause, Truthy, Constrains, SelectorMode,
         TakesBinaries, TakesParents, TakesPaths;
    KeysApart(AsMap(sel), mode);
    forall act ensures ActionAfter(act, mode) == Rewritten(act, mode) {
      RewrittenIs(act, mode);
    }
  }

  /** The hook at a place, after everything that is done to it. */
  lemma HookBuilt(upstream: Fields, mode: Mode, ex: Excluded, nodeLabels: seq<string>, includeHost: bool,
                  group: string, i: nat)
    requires group in {"kprobes", "tracepoints", "uprobes", "lsmhooks", "usdts"} && i < |Items(Get(upstream, group))|
    ensures var hooks := Items(Get(upstream, group));
            var built := Items(Get(BuiltSpec(upstream, mode, ex, nodeLabels, includeHost), group));
            |built| == |hooks| && built[i] == Obj(HookAfter(HookMode(AsMap(hooks[i]), mode), ex))
  {
    hide SpecMode, SpecAfter, Scoped, HookMode, HookAfter;
    assert group in HOOK_GROUPS;
    var moded := SpecMode(upstream, mode);
    ScopeKeepsHooks(SpecAfter(moded, ex), nodeLabels, includeHost);
    GroupsAt(moded, ex, group);
    ModeAt(upstream, mode, group);
  }

  lemma SelectorBuilt(hook: Fields, mode: Mode, ex: Excluded, j: nat)
    requires Get(hook, "selectors").Arr? && j < |Get(hook, "selectors").items|
    ensures var sels, index := Get(hook, "selectors").items, PathIndexIn(Items(Get(hook, "args")));
            var built := Items(Get(HookAfter(HookMode(hook, mode), ex), "selectors"));
            |built| == |sels| && built[j] == Obj(SelectorAfter(SelectorMode(AsMap(sels[j]), mode), ex, index))
  {
    hide SelectorMode, SelectorAfter, PathIndexIn;
  }

  /** In every selector of the five groups, in place: each action is rewritten for the mode, none added or lost. */
  lemma ActionsRewritten(upstream: Fields, mode: Mode, ex: Excluded, nodeLabels: seq<string>, includeHost: bool,
                         group: string, i: nat, j: nat, key: string)
    requires group in {"kprobes", "tracepoints", "uprobes", "lsmhooks", "usdts"} && i < |Items(Get(upstream, group))|
    requires var sels := Field(Items(Get(upstream, group))[i], "selectors"); sels.Arr? && j < |sels.items|
    requires key in {"matchActions", "matchReturnActions"}
    ensures var hooks := Items(Get(BuiltSpec(upstream, mode, ex, nodeLabels, includeHost), group));
            && i < |hooks| && j < |Items(Field(hooks[i], "selectors"))|
            && AllRewritten(Items(Field(Field(Items(Get(upstream, group))[i], "selectors").items[j], key)),
                            Items(Field(Items(Field(hooks[i], "selectors"))[j], key)), mode)
  {
    hide BuiltSpec, HookAfter, HookMode, SelectorMode, SelectorAfter, AllRewritten, PathIndexIn;
    var hook := AsMap(Items(Get(upstream, group))[i]);
    HookBuilt(upstream, mode, ex, nodeLabels, includeHost, group, i);
    SelectorBuilt(hook, mode, ex, j);
    SelectorRewritten(Get(hook, "selectors").items[j], mode, ex, PathIndexIn(Items(Get(hook, "args"))), key);
  }

  // ----- exclusions of the draft and of the policy

  function Own(draft: Draft, id: string): Excluded {
    if id in draft.policyExclusions then draft.policyExclusions[id] else Excluded([], [], [], [], [], [])
  }

  lemma Joined(a: seq<string>, b: seq<string>)
    ensures forall x :: x in Text.Distinct(a + b) <==> x in a || x in b
  {
    Text.DistinctMembers(a + b);
  }

  /** A policy is built with what the draft excludes and with what is excluded for it alone. */
  lemma ExclusionsJoin(draft: Draft, id: string, x: string)
    ensures var all, own := EffectiveExclusions(draft, id), Own(draft, id);
            && (x in all.podLabels <==> x in draft.exclusions.podLabels || x in own.podLabels)
            && (x in all.binaries <==> x in draft.exclusions.binaries || x in own.binaries)
            && (x in all.parentBinaries <==> x in draft.exclusions.parentBinaries || x in own.parentBinaries)
            && (x in all.paths <==> x in draft.exclusions.paths || x in own.paths)
            && (x in all.containers <==> x in draft.exclusions.containers || x in own.containers)
            && (x in all.namespaces <==> x in draft.exclusions.namespaces || x in own.namespaces)
  {
    hide Text.Distinct;
    if id in draft.policyExclusions {
      var a, b := draft.exclusions, draft.policyExclusions[id];
      Joined(a.podLabels, b.podLabels);
      Joined(a.binaries, b.binaries);
      Joined(a.parentBinaries, b.parentBinaries);
      Joined(a.paths, b.paths);
      Joined(a.containers, b.containers);
      Joined(a.namespaces, b.namespaces);
    }
  }

  // ----- the built policy

  /** The events on which a policy of the draft fires, from what was shipped, selected, excluded and scoped. */
  lemma PolicyFires(draft: Draft, id: string, upstream: Fields, group: string, i: nat, o: S.Oracle, e: S.Event)
    requires id in draft.selection && o(Obj(map[]), e) && IgnoresActions(o)
    requires group in {"kprobes", "tracepoints", "uprobes", "lsmhooks", "usdts"}
    ensures var ex := EffectiveExclusions(draft, id);
            S.Fires(TreeOf(draft, id, upstream), group, i, o, e) <==>
            && i < |Items(Get(upstream, group))|
            && BuiltNodes(upstream, draft.nodeLabels, o, e) && BuiltProcesses(upstream, ex, draft.includeHost, o, e)
            && HookSpares(HookMode(AsMap(Items(Get(upstream, group))[i]), draft.selection[id]), ex, o, e)
  {
    hide BuiltSpec, EffectiveExclusions, BuiltNodes, BuiltProcesses, HookSpares, HookMode, IgnoresActions, S.Fires;
    BuiltMeaning(upstream, draft.selection[id], EffectiveExclusions(draft, id), draft.nodeLabels, draft.includeHost,
                 group, i, o, e);
  }

  /** A policy selected to alert holds no action that enforces, in any group, under either key. */
  lemma AlertHoldsNoEnforcement(draft: Draft, id: string, upstream: Fields, group: string, hook: Json, sel: Json,
                                key: string, act: Json)
    requires id in draft.selection && draft.selection[id] == Alert
    requires group in {"kprobes", "tracepoints", "uprobes", "lsmhooks", "usdts"} &&
             hook in Items(Get(TreeOf(draft, id, upstream), group))
    requires sel in Items(Field(hook, "selectors")) && key in {"matchActions", "matchReturnActions"} &&
             act in Items(Field(sel, key))
    ensures Word(act) !in {"Sigkill", "Override", "NotifyEnforcer", "Signal"}
  {
    hide BuiltSpec, EffectiveExclusions, Word;
    var ex := EffectiveExclusions(draft, id);
    assert group in HOOK_GROUPS && ActionOf(sel, act) && ActionOfHook(hook, act);
    assert ActionIn(BuiltSpec(upstream, Alert, ex, draft.nodeLabels, draft.includeHost), act);
    AlertNeverEnforces(upstream, ex, draft.nodeLabels, draft.includeHost, act);
  }

  // ----- small readings

  /** A value counts as set exactly when it is none of null, false, zero and the empty string. */
  lemma TruthyExactly(j: Json)
    ensures Truthy(j) <==> j != Null && j != Bool(false) && j != Num(0) && j != Str("")
  {
  }

  /** An excluded label is the text before the first equals sign, with the text after it. */
  lemma LabelReads(pair: string)
    ensures var (key, value) := KeyValue(pair);
            if '=' in pair then '=' !in key && pair == key + "=" + value else key == pair && value == ""
  {
    SplitPairExact(pair);
  }

  predicate Pairs(pair: string, k: string, v: string) {
    '=' !in k && pair == k + "=" + v
  }

  lemma PairsIs(pair: string, k: string, v: string)
    ensures Pairs(pair, k, v) <==> SplitPair(pair) == Some((k, v))
  {
    SplitPairExact(pair);
    if Pairs(pair, k, v) {
      assert pair[|k|] == '=';
      var (k', v') := SplitPair(pair).value;
      assert pair[|k'|] == '=';
      assert |k| == |k'|;
      assert k == pair[..|k|] == k' && v == pair[|k| + 1..] == v';
    }
  }

  /** Node labels are written as a map, the last pair of a key wins, and what has no equals sign is passed over. */
  lemma {:induction false} LabelsWritten(pairs: seq<string>, k: string, v: string)
    ensures k in MatchLabels(pairs) && MatchLabels(pairs)[k] == Str(v) <==>
            exists i :: && 0 <= i < |pairs| && Pairs(pairs[i], k, v)
                        && forall j, w :: i < j < |pairs| ==> !Pairs(pairs[j], k, w)
  {
    hide Pairs;
    if pairs != [] {
      var n := |pairs| - 1;
      LabelsWritten(pairs[..n], k, v);
      forall w ensures Pairs(pairs[n], k, w) <==> SplitPair(pairs[n]) == Some((k, w)) {
        PairsIs(pairs[n], k, w);
      }
      if exists w :: Pairs(pairs[n], k, w) {
        var w :| Pairs(pairs[n], k, w);
        assert MatchLabels(pairs)[k] == Str(w);
      } else {
        assert k in MatchLabels(pairs) <==> k in MatchLabels(pairs[..n]);
        assert k in MatchLabels(pairs) ==> MatchLabels(pairs)[k] == MatchLabels(pairs[..n])[k];
      }
    }
  }
}
