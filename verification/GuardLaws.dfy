/**
 The guard's verdict survives every rewrite the console makes after it, and the self-exemption
 takes exactly the console's own pods out of a policy.
 */
module GuardLaws {
  import opened Option
  import opened Json
  import opened Guard
  import E = Exclusions
  import EL = ExclusionLaws
  import T = Tracing
  import S = Selectors
  import Text

  /** Both manifests get the same verdict from any guard: same metadata namespace, same selected namespaces. */
  ghost predicate SameVerdict(a: Json, b: Json) {
    MetadataOf(a) == MetadataOf(b) && a.Obj? == b.Obj? && forall ns :: Selects(a, ns) <==> Selects(b, ns)
  }

  // ----- edits that select nothing

  /** Keys the walk reads for themselves. */
  predicate IsReadKey(k: string) {
    IsMatchKey(k) || k == "key" || k == "operator" || k == "values"
  }

  /** Writing under an ordinary key selects what the new value selects instead of the old one. */
  lemma OrdinaryKey(m: Fields, k: string, v: Json, ns: string)
    requires !IsReadKey(k) && (Named(v, ns) <==> Named(Get(m, k), ns))
    ensures Named(Obj(m[k := v]), ns) <==> Named(Obj(m), ns)
  {
    hide NamedByExpr, NamedByMatch, Named;
    var n := m[k := v];
    NamedByKeys(m, ns);
    NamedByKeys(n, ns);
    assert NamedByExpr(m, ns) <==> NamedByExpr(n, ns) by {
      SameExpr(m, n, ns);
    }
    NothingNamed(Null, ns);
    forall x | x != k ensures NamedUnder(m, x, ns) <==> NamedUnder(n, x, ns) {
    }
    assert NamedUnder(n, k, ns) <==> NamedUnder(m, k, ns);
  }

  lemma SameExpr(m: Fields, n: Fields, ns: string)
    requires Get(m, "key") == Get(n, "key") && Get(m, "operator") == Get(n, "operator") &&
             Get(m, "values") == Get(n, "values")
    ensures NamedByExpr(m, ns) <==> NamedByExpr(n, ns)
  {
  }

  predicate Scalar(j: Json) {
    !j.Obj? && !j.Arr?
  }

  lemma NothingNamed(j: Json, ns: string)
    requires Scalar(j) || (j.Arr? && forall x :: x in j.items ==> Scalar(x))
    ensures !Named(j, ns)
  {
  }

  /** A clause of scalars with a negative operator names nothing. */
  lemma NegativeClause(m: Fields, ns: string)
    requires !IsPositive(Get(m, "operator"))
    requires forall k :: k in m && !IsMatchKey(k) ==> !Named(m[k], ns)
    requires forall k :: k in m ==> !IsMatchKey(k)
    ensures !Named(Obj(m), ns)
  {
    hide NamedByMatch;
  }

  /** The values of a negative clause select nothing, so replacing them changes nothing. */
  lemma NegativeValues(m: Fields, v: Json, ns: string)
    requires !IsPositive(Get(m, "operator"))
    requires !Named(v, ns) && !Named(Get(m, "values"), ns)
    ensures Named(Obj(m["values" := v]), ns) <==> Named(Obj(m), ns)
  {
    hide NamedByMatch, Named;
    var n := m["values" := v];
    NamedByKeys(m, ns);
    NamedByKeys(n, ns);
    assert !NamedByExpr(m, ns) && !NamedByExpr(n, ns);
    forall x | x != "values" ensures NamedUnder(m, x, ns) <==> NamedUnder(n, x, ns) {
    }
    assert !NamedUnder(m, "values", ns) && !NamedUnder(n, "values", ns);
  }

  lemma ListUpdate(items: seq<Json>, i: nat, x: Json, ns: string)
    requires i < |items| && (Named(x, ns) <==> Named(items[i], ns))
    ensures Named(Arr(items[i := x]), ns) <==> Named(Arr(items), ns)
  {
    var a, b := Arr(items), Arr(items[i := x]);
    assert forall j :: 0 <= j < |items| ==> (Named(a.items[j], ns) <==> Named(b.items[j], ns));
  }

  lemma ListAppend(items: seq<Json>, x: Json, ns: string)
    requires !Named(x, ns)
    ensures Named(Arr(items + [x]), ns) <==> Named(Arr(items), ns)
  {
    var a, b := Arr(items), Arr(items + [x]);
    assert forall j :: 0 <= j < |items| ==> a.items[j] == b.items[j];
    assert b.items[|items|] == x;
  }

  lemma ListPointwise(xs: seq<Json>, ys: seq<Json>, ns: string)
    requires |xs| == |ys| && forall i :: 0 <= i < |xs| ==> (Named(xs[i], ns) <==> Named(ys[i], ns))
    ensures Named(Arr(xs), ns) <==> Named(Arr(ys), ns)
  {
    var a, b := Arr(xs), Arr(ys);
    assert forall j :: 0 <= j < |xs| ==> (Named(a.items[j], ns) <==> Named(b.items[j], ns));
  }

  // ----- well-typed manifests

  predicate ListOrNull(j: Json) {
    j.Arr? || j.Null?
  }

  predicate MapOrNull(j: Json) {
    j.Obj? || j.Null?
  }

  /** The values of a clause are a list of strings, if there are any. */
  predicate ClauseTyped(item: Json) {
    var values := Field(item, "values");
    values.Null? || (values.Arr? && forall v :: v in values.items ==> v.Str?)
  }

  predicate ClausesTyped(clauses: Json) {
    ListOrNull(clauses) && forall item :: item in Items(clauses) ==> ClauseTyped(item)
  }

  predicate LabelSelectorTyped(sel: Json) {
    MapOrNull(sel) && ClausesTyped(Field(sel, "matchExpressions"))
  }

  predicate SelectorTyped(sel: Json) {
    sel.Obj? && forall k :: k in S.FILTERED ==> ClausesTyped(Field(sel, k))
  }

  predicate HookTyped(hook: Json) {
    hook.Obj? && ListOrNull(Field(hook, "selectors"))
    && forall sel :: sel in Items(Field(hook, "selectors")) ==> SelectorTyped(sel)
  }

  predicate SpecTyped(spec: Fields) {
    && LabelSelectorTyped(Get(spec, "podSelector")) && LabelSelectorTyped(Get(spec, "containerSelector"))
    && forall g, hook :: g in E.GROUPS && hook in Items(Get(spec, g)) ==> HookTyped(hook)
  }

  // ----- exclusions

  lemma StringsNameNothing(ss: seq<string>, ns: string)
    ensures !Named(ToAny(ss), ns)
  {
    NothingNamed(ToAny(ss), ns);
  }

  lemma MergedClauseNames(item: Json, values: seq<string>, ns: string)
    requires item.Obj? && ClauseTyped(item) && !IsPositive(Field(item, "operator"))
    ensures Named(E.WithValues(item, values), ns) <==> Named(item, ns)
  {
    hide Named, Strings, IsPositive;
    NothingNamed(Field(item, "values"), ns);
    var merged := Text.UnionOf(ToStrings(Field(item, "values")), values);
    StringsNameNothing(merged, ns);
    NegativeValues(item.fields, ToAny(merged), ns);
  }

  lemma BlankNames(t: E.Target, values: seq<string>, ns: string)
    ensures !Named(E.WithValues(E.Blank(t), values), ns)
  {
    hide Named, Strings;
    var m := AsMap(E.Blank(t));
    forall k | k in m ensures !IsMatchKey(k) && !Named(m[k], ns) {
      NothingNamed(m[k], ns);
    }
    NegativeClause(m, ns);
    MergedClauseNames(E.Blank(t), values, ns);
  }

  /** Merging into a negative clause, or appending one, selects no further namespace. */
  lemma MergeNames(t: E.Target, existing: Json, values: seq<string>, ns: string)
    requires ClausesTyped(existing)
    requires E.FirstFit(t, Items(existing)) < |Items(existing)| ==>
               Items(existing)[E.FirstFit(t, Items(existing))].Obj?
               && !IsPositive(Field(Items(existing)[E.FirstFit(t, Items(existing))], "operator"))
    ensures Named(E.Merge(t, existing, values), ns) <==> Named(existing, ns)
  {
    hide Named, E.WithValues, IsPositive, ClauseTyped;
    var items, i := Items(existing), E.FirstFit(t, Items(existing));
    if i < |items| {
      assert items[i] in items;
      MergedClauseNames(items[i], values, ns);
      ListUpdate(items, i, E.WithValues(items[i], values), ns);
    } else {
      BlankNames(t, values, ns);
      ListAppend(items, E.WithValues(E.Blank(t), values), ns);
      if existing.Null? {
        NothingNamed(existing, ns);
        NothingNamed(Arr(items), ns);
      }
    }
  }

  lemma NegativeLanding(t: E.Target, item: Json)
    requires E.Fits(t, item)
    requires t.AtIndex? ==> Field(item, "operator") == Str("NotPrefix")
    ensures item.Obj? && !IsPositive(Field(item, "operator"))
  {
  }

  lemma FilteredSelectorNames(sel: Json, ex: E.Exclusions, index: Option<int>, ns: string)
    requires SelectorTyped(sel)
    ensures Named(Obj(E.FilterSelector(sel.fields, ex, index)), ns) <==> Named(sel, ns)
  {
    hide Named, E.Merge, ClausesTyped, E.Fits, IsPositive;
    var m := sel.fields;
    FilterLandsNegative(m, ex, index);
    assert forall k :: k in S.FILTERED ==> Field(sel, k) == Get(m, k);
    assert ClausesTyped(Get(m, "matchBinaries")) && ClausesTyped(Get(m, "matchParentBinaries")) &&
      ClausesTyped(Get(m, "matchArgs"));
    var s1 := if ex.binaries == [] then m
              else m["matchBinaries" := E.Merge(E.NotIn, Get(m, "matchBinaries"), ex.binaries)];
    MergeNames(E.NotIn, Get(m, "matchBinaries"), ex.binaries, ns);
    OrdinaryKey(m, "matchBinaries", E.Merge(E.NotIn, Get(m, "matchBinaries"), ex.binaries), ns);
    var merged := E.Merge(E.NotIn, Get(m, "matchParentBinaries"), ex.parentBinaries);
    var s2 := if ex.parentBinaries == [] then s1 else s1["matchParentBinaries" := merged];
    MergeNames(E.NotIn, Get(m, "matchParentBinaries"), ex.parentBinaries, ns);
    OrdinaryKey(s1, "matchParentBinaries", merged, ns);
    if E.PathApplies(m, ex, index) {
      MergeNames(E.AtIndex(index.value), Get(m, "matchArgs"), ex.paths, ns);
      OrdinaryKey(s2, "matchArgs", E.Merge(E.AtIndex(index.value), Get(m, "matchArgs"), ex.paths), ns);
    }
  }

  predicate LandsNegative(t: E.Target, existing: Json) {
    var items, i := Items(existing), E.FirstFit(t, Items(existing));
    i < |items| ==> items[i].Obj? && !IsPositive(Field(items[i], "operator"))
  }

  lemma FilterLandsNegative(m: Fields, ex: E.Exclusions, index: Option<int>)
    ensures LandsNegative(E.NotIn, Get(m, "matchBinaries")) && LandsNegative(E.NotIn, Get(m, "matchParentBinaries"))
    ensures E.PathApplies(m, ex, index) ==> LandsNegative(E.AtIndex(index.value), Get(m, "matchArgs"))
  {
    forall k | k == "matchBinaries" || k == "matchParentBinaries" ensures LandsNegative(E.NotIn, Get(m, k)) {
      var items, i := Items(Get(m, k)), E.FirstFit(E.NotIn, Items(Get(m, k)));
      if i < |items| {
        NegativeLanding(E.NotIn, items[i]);
      }
    }
    if E.PathApplies(m, ex, index) {
      var t := E.AtIndex(index.value);
      var items, i := Items(Get(m, "matchArgs")), E.FirstFit(t, Items(Get(m, "matchArgs")));
      if i < |items| {
        NegativeLanding(t, items[i]);
      }
    }
  }

  lemma EmptyFilteredNames(ex: E.Exclusions, index: Option<int>, ns: string)
    ensures !Named(Obj(E.FilterSelector(map[], ex, index)), ns)
  {
    hide E.FilterSelector;
    var empty := Obj(map[]);
    assert forall k :: k in S.FILTERED ==> Field(empty, k) == Null;
    FilteredSelectorNames(empty, ex, index, ns);
  }

  lemma FilteredHookNames(hook: Json, ex: E.Exclusions, ns: string)
    requires HookTyped(hook)
    ensures Named(Obj(E.FilterHook(AsMap(hook), ex)), ns) <==> Named(hook, ns)
  {
    hide Named, E.FilterSelector, SelectorTyped, E.IndexFor;
    var m, sels := hook.fields, Items(Field(hook, "selectors"));
    var given, index := E.SelectorsOf(m), E.IndexFor(m, ex);
    var after := E.FilterSelectors(given, ex, index);
    if sels == [] {
      EmptyFilteredNames(ex, index, ns);
      assert after == [Obj(E.FilterSelector(map[], ex, index))];
      NamedListOf(after, ns);
      NamedListOf([], ns);
      NothingNamed(Null, ns);
      assert Get(m, "selectors") == Null || Get(m, "selectors") == Arr([]);
    } else {
      forall i | 0 <= i < |sels| ensures Named(after[i], ns) <==> Named(sels[i], ns) {
        assert sels[i] in sels;
        SelectorIsMap(sels[i]);
        FilteredSelectorNames(sels[i], ex, index, ns);
      }
      ListPointwise(after, sels, ns);
      assert Get(m, "selectors") == Arr(sels);
    }
    OrdinaryKey(m, "selectors", Arr(after), ns);
  }

  lemma SelectorIsMap(sel: Json)
    requires SelectorTyped(sel)
    ensures sel.Obj?
  {
  }

  lemma NamedListOf(items: seq<Json>, ns: string)
    ensures Named(Arr(items), ns) <==> exists x :: x in items && Named(x, ns)
  {
    var j := Arr(items);
    if x :| x in items && Named(x, ns) {
      var i :| 0 <= i < |items| && items[i] == x;
      assert Named(j.items[i], ns);
    }
    if i :| 0 <= i < |items| && Named(j.items[i], ns) {
      assert items[i] in items;
    }
  }

  lemma GroupNames(group: Json, ex: E.Exclusions, ns: string)
    requires forall hook :: hook in Items(group) ==> HookTyped(hook)
    ensures Named(E.GroupAfter(group, ex), ns) <==> Named(group, ns)
  {
    hide Named, E.FilterHook, HookTyped;
    if group.Arr? {
      var hooks := group.items;
      forall i | 0 <= i < |hooks| ensures Named(E.FilterHooks(hooks, ex)[i], ns) <==> Named(hooks[i], ns) {
        assert hooks[i] in hooks;
        FilteredHookNames(hooks[i], ex, ns);
      }
      ListPointwise(E.FilterHooks(hooks, ex), hooks, ns);
    }
  }

  lemma {:induction false} AddPairsNames(exprs: Json, pairs: seq<string>, ns: string)
    requires ListOrNull(exprs)
    ensures ListOrNull(E.AddPairs(exprs, pairs))
    ensures Named(E.AddPairs(exprs, pairs), ns) <==> Named(exprs, ns)
  {
    hide Named, E.HasExpr, SplitPair;
    if pairs != [] {
      var before := E.AddPairs(exprs, pairs[..|pairs| - 1]);
      AddPairsNames(exprs, pairs[..|pairs| - 1], ns);
      match SplitPair(pairs[|pairs| - 1]) {
        case None =>
        case Some((k, v)) =>
          NotInExprNames(k, v, ns);
          ListAppend(Items(before), E.NotInExpr(k, v), ns);
          if before.Null? {
            NothingNamed(Null, ns);
            NamedListOf([], ns);
          }
      }
    }
  }

  lemma NotInExprNames(k: string, v: string, ns: string)
    ensures !Named(E.NotInExpr(k, v), ns)
  {
    hide Named;
    var m := E.NotInExpr(k, v).fields;
    forall x | x in m ensures !IsMatchKey(x) && !Named(m[x], ns) {
      NothingNamed(m[x], ns);
    }
    NegativeClause(m, ns);
  }

  lemma LabelSelectorNames(sel: Json, exprs: Json, ns: string)
    requires MapOrNull(sel) && (Named(exprs, ns) <==> Named(Field(sel, "matchExpressions"), ns))
    ensures Named(Obj(AsMap(sel)["matchExpressions" := exprs]), ns) <==> Named(sel, ns)
  {
    hide Named;
    OrdinaryKey(AsMap(sel), "matchExpressions", exprs, ns);
    if sel.Null? {
      NothingNamed(Null, ns);
      EmptyNames(ns);
    }
  }

  lemma EmptyNames(ns: string)
    ensures !Named(Obj(map[]), ns)
  {
  }

  lemma PodSelectorNames(sel: Json, ex: E.Exclusions, ns: string)
    requires LabelSelectorTyped(sel)
    ensures Named(E.PodSelectorAfter(sel, ex), ns) <==> Named(sel, ns)
  {
    hide Named, E.AddPairs, ClauseTyped;
    assert E.ExprsOf(sel) == Field(sel, "matchExpressions");
    AddPairsNames(E.ExprsOf(sel), ex.podLabels, ns);
    LabelSelectorNames(sel, E.AddPairs(E.ExprsOf(sel), ex.podLabels), ns);
  }

  lemma ContainerSelectorNames(sel: Json, ex: E.Exclusions, ns: string)
    requires LabelSelectorTyped(sel)
    ensures Named(E.ContainerSelectorAfter(sel, ex), ns) <==> Named(sel, ns)
  {
    hide Named, E.Merge, ClauseTyped, IsPositive, E.Fits;
    var t, exprs := E.NotInOn("name"), E.ExprsOf(sel);
    assert exprs == Field(sel, "matchExpressions");
    if E.FirstFit(t, Items(exprs)) < |Items(exprs)| {
      NegativeLanding(t, Items(exprs)[E.FirstFit(t, Items(exprs))]);
    }
    MergeNames(t, exprs, ex.containers, ns);
    LabelSelectorNames(sel, E.Merge(t, exprs, ex.containers), ns);
  }

  lemma SpecKeysAreOrdinary(k: string)
    requires k in E.GROUPS || k == "podSelector" || k == "containerSelector" || k == "spec" || k == "metadata" ||
             k == "annotations"
    ensures !IsReadKey(k)
  {
  }

  /** Maps that name the same under every key name the same. */
  lemma SameByKeys(m: Fields, n: Fields, ns: string)
    requires forall k :: IsReadKey(k) ==> (k in m <==> k in n) && Get(m, k) == Get(n, k)
    requires forall k :: !IsReadKey(k) ==> (Named(Get(m, k), ns) <==> Named(Get(n, k), ns))
    ensures Named(Obj(m), ns) <==> Named(Obj(n), ns)
  {
    hide NamedByExpr, NamedByMatch, Named;
    NamedByKeys(m, ns);
    NamedByKeys(n, ns);
    SameExpr(m, n, ns);
    NothingNamed(Null, ns);
    forall k ensures NamedUnder(m, k, ns) <==> NamedUnder(n, k, ns) {
    }
  }

  lemma ExcludedSpecNames(spec: Fields, ex: E.Exclusions, ns: string)
    requires SpecTyped(spec)
    ensures Named(Obj(E.SpecAfter(spec, ex)), ns) <==> Named(Obj(spec), ns)
  {
    hide Named, E.SpecAfter, E.GroupAfter, E.PodSelectorAfter, E.ContainerSelectorAfter, HookTyped, LabelSelectorTyped,
         IsReadKey;
    var after := E.SpecAfter(spec, ex);
    NothingNamed(Null, ns);
    forall k
      ensures IsReadKey(k) ==> (k in after <==> k in spec) && Get(after, k) == Get(spec, k)
      ensures Named(Get(after, k), ns) <==> Named(Get(spec, k), ns)
    {
      EL.SpecAfterAt(spec, ex, k);
      if k in E.GROUPS || k == "podSelector" || k == "containerSelector" {
        SpecKeysAreOrdinary(k);
      }
      if k == "podSelector" {
        PodSelectorNames(Get(spec, k), ex, ns);
      } else if k == "containerSelector" {
        ContainerSelectorNames(Get(spec, k), ex, ns);
      } else if k in E.GROUPS {
        GroupNames(Get(spec, k), ex, ns);
      }
    }
    SameByKeys(after, spec, ns);
  }

  lemma SpecReplaced(doc: Fields, spec: Fields, ns: string)
    requires Get(doc, "spec").Obj? && (Named(Obj(spec), ns) <==> Named(doc["spec"], ns))
    ensures Named(Obj(doc["spec" := Obj(spec)]), ns) <==> Named(Obj(doc), ns)
  {
    hide Named;
    SpecKeysAreOrdinary("spec");
    OrdinaryKey(doc, "spec", Obj(spec), ns);
  }

  /** Excluding never changes what the guard says about a well-typed manifest. */
  lemma ExclusionsKeepVerdict(doc: Fields, ex: E.Exclusions)
    requires Get(doc, "spec").Obj? && SpecTyped(doc["spec"].fields)
    ensures SameVerdict(Obj(E.DocAfter(doc, ex)), Obj(doc))
  {
    hide Named, Selects, E.SpecAfter, SpecTyped;
    forall ns ensures Selects(Obj(E.DocAfter(doc, ex)), ns) <==> Selects(Obj(doc), ns) {
      NamedExactly(Obj(doc), ns);
      NamedExactly(Obj(E.DocAfter(doc, ex)), ns);
      ExcludedSpecNames(doc["spec"].fields, ex, ns);
      SpecReplaced(doc, E.SpecAfter(doc["spec"].fields, ex), ns);
    }
  }

  // ----- the mode switch

  predicate ActTyped(act: Json) {
    Scalar(Field(act, "action"))
  }

  /** Selectors whose actions are lists of maps with a plain action name. */
  predicate ActionsTyped(sel: Json) {
    ListOrNull(Field(sel, "matchActions")) && forall act :: act in Items(Field(sel, "matchActions")) ==> ActTyped(act)
  }

  predicate SwitchTyped(doc: Fields) {
    && (forall g, hook, sel ::
          g in E.GROUPS && hook in Items(Field(Get(doc, "spec"), g)) && sel in Items(Field(hook, "selectors")) ==>
          ActionsTyped(sel))
    && MapOrNull(Field(Get(doc, "metadata"), "annotations"))
    && Scalar(Field(Field(Get(doc, "metadata"), "annotations"), T.ANNOTATION))
  }

  lemma ToggledActNames(act: Json, a: T.Action, ns: string)
    requires ActTyped(act)
    ensures Named(T.ToggleAct(act, a), ns) <==> Named(act, ns)
  {
    hide Named;
    if T.ActChanges(act) {
      NothingNamed(T.Target(a), ns);
      NothingNamed(act.fields["action"], ns);
      OrdinaryKey(act.fields, "action", T.Target(a), ns);
    }
  }

  lemma AddedActNames(a: T.Action, ns: string)
    ensures !Named(Arr([Obj(map["action" := T.Target(a)])]), ns)
  {
    hide Named;
    var m := map["action" := T.Target(a)];
    EmptyNames(ns);
    NothingNamed(T.Target(a), ns);
    NothingNamed(Null, ns);
    var empty: Fields := map[];
    OrdinaryKey(empty, "action", T.Target(a), ns);
    assert empty["action" := T.Target(a)] == m;
    NamedListOf([Obj(m)], ns);
  }

  lemma ToggledRawNames(raw: Json, a: T.Action, ns: string)
    requires ActionsTyped(raw)
    ensures Named(T.ToggleRaw(raw, a), ns) <==> Named(raw, ns)
  {
    hide Named, T.ToggleAct, ActTyped;
    if raw.Obj? {
      var m, acts := raw.fields, Items(Field(raw, "matchActions"));
      NothingNamed(Null, ns);
      NamedListOf([], ns);
      if acts != [] {
        forall i | 0 <= i < |acts| ensures Named(T.ToggleActs(acts, a)[i], ns) <==> Named(acts[i], ns) {
          assert acts[i] in acts;
          ToggledActNames(acts[i], a, ns);
        }
        ListPointwise(T.ToggleActs(acts, a), acts, ns);
        OrdinaryKey(m, "matchActions", Arr(T.ToggleActs(acts, a)), ns);
      } else if a.Enforce? {
        AddedActNames(a, ns);
        assert Get(m, "matchActions") == Null || Get(m, "matchActions") == Arr([]);
        OrdinaryKey(m, "matchActions", Arr([Obj(map["action" := T.Target(a)])]), ns);
      }
    }
  }

  lemma ToggledHookNames(hook: Json, a: T.Action, ns: string)
    requires forall sel :: sel in Items(Field(hook, "selectors")) ==> ActionsTyped(sel)
    ensures Named(T.ToggleHook(hook, a), ns) <==> Named(hook, ns)
  {
    hide Named, T.ToggleRaw, ActionsTyped;
    if Field(hook, "selectors").Arr? {
      var sels := Items(Field(hook, "selectors"));
      forall i | 0 <= i < |sels| ensures Named(T.ToggleRaws(sels, a)[i], ns) <==> Named(sels[i], ns) {
        assert sels[i] in sels;
        ToggledRawNames(sels[i], a, ns);
      }
      ListPointwise(T.ToggleRaws(sels, a), sels, ns);
      OrdinaryKey(hook.fields, "selectors", Arr(T.ToggleRaws(sels, a)), ns);
    }
  }

  lemma ToggledGroupNames(group: Json, a: T.Action, ns: string)
    requires forall hook, sel :: hook in Items(group) && sel in Items(Field(hook, "selectors")) ==> ActionsTyped(sel)
    ensures Named(T.ToggleGroup(group, a), ns) <==> Named(group, ns)
  {
    hide Named, T.ToggleHook, ActionsTyped;
    if group.Arr? {
      var hooks := group.items;
      forall i | 0 <= i < |hooks| ensures Named(T.ToggleHooks(hooks, a)[i], ns) <==> Named(hooks[i], ns) {
        assert hooks[i] in hooks;
        ToggledHookNames(hooks[i], a, ns);
      }
      ListPointwise(T.ToggleHooks(hooks, a), hooks, ns);
    }
  }

  lemma ToggledSpecNames(doc: Fields, a: T.Action, ns: string)
    requires Get(doc, "spec").Obj? && SwitchTyped(doc)
    ensures var spec := doc["spec"].fields;
            Named(Obj(T.ToggleGroups(spec, E.GROUPS, a)), ns) <==> Named(Obj(spec), ns)
  {
    hide Named, T.ToggleGroup, ActionsTyped, IsReadKey;
    var spec := doc["spec"].fields;
    var after := T.ToggleGroups(spec, E.GROUPS, a);
    forall k
      ensures IsReadKey(k) ==> (k in after <==> k in spec) && Get(after, k) == Get(spec, k)
      ensures Named(Get(after, k), ns) <==> Named(Get(spec, k), ns)
    {
      if k in E.GROUPS && k in spec {
        SpecKeysAreOrdinary(k);
        ToggledGroupNames(spec[k], a, ns);
      }
    }
    SameByKeys(after, spec, ns);
  }

  lemma AnnotatedNames(doc: Fields, a: T.Action, ns: string)
    requires MapOrNull(Field(Get(doc, "metadata"), "annotations"))
    requires Scalar(Field(Field(Get(doc, "metadata"), "annotations"), T.ANNOTATION))
    ensures Named(Obj(T.Annotate(doc, a)), ns) <==> Named(Obj(doc), ns)
    ensures MetadataOf(Obj(T.Annotate(doc, a))) == MetadataOf(Obj(doc))
  {
    hide Named;
    var meta := Get(doc, "metadata");
    if meta.Obj? {
      var before := Get(meta.fields, "annotations");
      var ann := AsMap(before);
      NothingNamed(T.NameOf(a), ns);
      NothingNamed(Get(ann, T.ANNOTATION), ns);
      OrdinaryKey(ann, T.ANNOTATION, T.NameOf(a), ns);
      NothingNamed(Null, ns);
      EmptyNames(ns);
      var ann' := Obj(ann[T.ANNOTATION := T.NameOf(a)]);
      OrdinaryKey(meta.fields, "annotations", ann', ns);
      OrdinaryKey(doc, "metadata", Obj(meta.fields["annotations" := ann']), ns);
    }
  }

  /** Switching the mode never changes what the guard says about a well-typed manifest. */
  lemma SwitchKeepsVerdict(doc: Fields, a: T.Action)
    requires Get(doc, "spec").Obj? && SwitchTyped(doc)
    ensures SameVerdict(Obj(T.ToggleDoc(doc, a)), Obj(doc))
  {
    hide Named, Selects, T.ToggleGroups, T.Annotate;
    var spec' := T.ToggleGroups(doc["spec"].fields, E.GROUPS, a);
    var mid := doc["spec" := Obj(spec')];
    assert Get(mid, "metadata") == Get(doc, "metadata");
    assert MetadataOf(Obj(mid)) == MetadataOf(Obj(doc));
    AnnotatedNames(mid, a, "");
    forall ns ensures Selects(Obj(T.ToggleDoc(doc, a)), ns) <==> Selects(Obj(doc), ns) {
      NamedExactly(Obj(doc), ns);
      NamedExactly(Obj(T.ToggleDoc(doc, a)), ns);
      ToggledSpecNames(doc, a, ns);
      SpecReplaced(doc, spec', ns);
      AnnotatedNames(mid, a, ns);
    }
  }

  // ----- the self-exemption

  lemma SelfExprNames(ns: string)
    ensures !Named(SelfExpr(), ns)
  {
    hide Named;
    var m := SelfExpr().fields;
    forall x | x in m ensures !IsMatchKey(x) && !Named(m[x], ns) {
      NothingNamed(m[x], ns);
    }
    NegativeClause(m, ns);
  }

  /** Exempting the console never changes what the guard says about a well-typed manifest. */
  lemma ExemptKeepsVerdict(doc: Json)
    requires Exempts(doc) && LabelSelectorTyped(Field(Field(doc, "spec"), "podSelector"))
    ensures SameVerdict(ExemptDoc(doc), doc)
  {
    hide Named, Selects, ClauseTyped;
    var spec := doc.fields["spec"].fields;
    var sel := Get(spec, "podSelector");
    var exprs := Field(sel, "matchExpressions");
    forall ns ensures Selects(ExemptDoc(doc), ns) <==> Selects(doc, ns) {
      NamedExactly(doc, ns);
      NamedExactly(ExemptDoc(doc), ns);
      SelfExprNames(ns);
      ListAppend(Items(exprs), SelfExpr(), ns);
      NothingNamed(Null, ns);
      NamedListOf([], ns);
      LabelSelectorNames(sel, Append(exprs, SelfExpr()), ns);
      SpecKeysAreOrdinary("podSelector");
      OrdinaryKey(spec, "podSelector", ExemptSelector(sel), ns);
      SpecReplaced(doc.fields, spec["podSelector" := ExemptSelector(sel)], ns);
    }
  }

  /** Exempting twice is exempting once. */
  lemma ExemptIdempotent(doc: Json)
    requires Exempts(doc)
    ensures !Exempts(ExemptDoc(doc))
  {
    var exprs := Field(Field(Field(ExemptDoc(doc), "spec"), "podSelector"), "matchExpressions");
    var before := Field(Field(Field(doc, "spec"), "podSelector"), "matchExpressions");
    assert exprs == Append(before, SelfExpr());
    assert Items(exprs)[|Items(before)|] == SelfExpr();
    assert SelfExpr() in Items(exprs) && IsSelfExpr(SelfExpr());
  }

  predicate IsConsolePod(labels: map<string, string>) {
    SELF_LABEL in labels && labels[SELF_LABEL] == SELF_VALUE
  }

  function PodSelectorOf(doc: Json): Json {
    Field(Field(doc, "spec"), "podSelector")
  }

  /** An exempted policy selects the pods it selected, except the console's own. */
  lemma ExemptMeaning(doc: Json, labels: map<string, string>, o: S.Oracle, e: S.Event)
    requires Exempts(doc)
    ensures S.Admits(PodSelectorOf(ExemptDoc(doc)), labels, o, e) <==>
            S.Admits(PodSelectorOf(doc), labels, o, e) && !IsConsolePod(labels)
  {
    hide S.ExprHolds;
    var sel := PodSelectorOf(doc);
    var exprs := Field(sel, "matchExpressions");
    SelfExprMeaning(labels, o, e);
    assert PodSelectorOf(ExemptDoc(doc)) == ExemptSelector(sel);
    assert Field(ExemptSelector(sel), "matchExpressions") == Append(exprs, SelfExpr());
    assert Field(ExemptSelector(sel), "matchLabels") == Field(sel, "matchLabels");
  }

  lemma SelfExprMeaning(labels: map<string, string>, o: S.Oracle, e: S.Event)
    ensures S.ExprHolds(SelfExpr(), labels, o, e) <==> !IsConsolePod(labels)
  {
    ToStringsToAny([SELF_VALUE]);
    assert Field(SelfExpr(), "values") == ToAny([SELF_VALUE]);
    assert StrOf(Field(SelfExpr(), "operator")) == "NotIn" && StrOf(Field(SelfExpr(), "key")) == SELF_LABEL;
  }

  /** No pod of the console is selected, whatever its other labels. */
  ghost predicate Shielded(doc: Json, o: S.Oracle, e: S.Event) {
    forall labels: map<string, string> :: IsConsolePod(labels) ==> !S.Admits(PodSelectorOf(doc), labels, o, e)
  }

  function ExemptResult(doc: Json): Json {
    if Exempts(doc) then ExemptDoc(doc) else doc
  }

  function WithoutSelfExprs(exprs: seq<Json>): seq<Json> {
    if exprs == [] then []
    else WithoutSelfExprs(exprs[..|exprs| - 1]) + if IsSelfExpr(exprs[|exprs| - 1]) then [] else [exprs[|exprs| - 1]]
  }

  /** The selector without what it says about the self label in NotIn clauses. */
  function RestOf(sel: Json): Json {
    Obj(AsMap(sel)["matchExpressions" := Arr(WithoutSelfExprs(Items(Field(sel, "matchExpressions"))))])
  }

  /** Some NotIn clause on the self label lists the console. */
  predicate ListsConsole(sel: Json) {
    exists e :: e in Items(Field(sel, "matchExpressions")) && IsSelfExpr(e) &&
      SELF_VALUE in ToStrings(Field(e, "values"))
  }

  lemma {:induction false} WithoutSelfMembers(exprs: seq<Json>)
    ensures forall x :: x in WithoutSelfExprs(exprs) <==> x in exprs && !IsSelfExpr(x)
    ensures (forall x :: x in exprs ==> IsSelfExpr(x)) ==> WithoutSelfExprs(exprs) == []
  {
    if exprs != [] {
      var n := |exprs| - 1;
      WithoutSelfMembers(exprs[..n]);
      assert exprs == exprs[..n] + [exprs[n]];
    }
  }

  /** A clause on the self label refuses a pod of the console exactly when it lists the console. */
  lemma SelfClauseOnConsole(item: Json, labels: map<string, string>, o: S.Oracle, e: S.Event)
    requires IsSelfExpr(item) && IsConsolePod(labels)
    ensures S.ExprHolds(item, labels, o, e) <==> SELF_VALUE !in ToStrings(Field(item, "values"))
  {
    hide Strings;
    assert StrOf(Field(item, "operator")) == "NotIn" && StrOf(Field(item, "key")) == SELF_LABEL;
  }

  /** On a pod of the console, a selector is its other clauses, and a refusal if a self clause lists the console. */
  lemma SelectorOnConsole(sel: Json, labels: map<string, string>, o: S.Oracle, e: S.Event)
    requires IsConsolePod(labels)
    ensures S.Admits(sel, labels, o, e) <==> S.Admits(RestOf(sel), labels, o, e) && !ListsConsole(sel)
  {
    hide S.ExprHolds, IsSelfExpr, IsConsolePod, Strings;
    var exprs := Items(Field(sel, "matchExpressions"));
    WithoutSelfMembers(exprs);
    assert Items(Field(RestOf(sel), "matchExpressions")) == WithoutSelfExprs(exprs);
    assert Field(RestOf(sel), "matchLabels") == Field(sel, "matchLabels");
    forall x | x in exprs && IsSelfExpr(x)
      ensures S.ExprHolds(x, labels, o, e) <==> SELF_VALUE !in ToStrings(Field(x, "values"))
    {
      SelfClauseOnConsole(x, labels, o, e);
    }
  }

  /** What is left without the NotIn clauses on the self label already keeps every pod of the console out. */
  ghost predicate RestRefusesConsole(sel: Json, o: S.Oracle, e: S.Event) {
    forall labels: map<string, string> :: IsConsolePod(labels) ==> !S.Admits(RestOf(sel), labels, o, e)
  }

  /**
   The result shields the console exactly when the exemption was written, when a clause on the self label
   lists the console, or when all but the NotIn clauses on the self label refuse it anyway.
   */
  lemma ExemptShieldsExactly(doc: Json, o: S.Oracle, e: S.Event)
    ensures Shielded(ExemptResult(doc), o, e) <==>
            Exempts(doc) || ListsConsole(PodSelectorOf(doc)) || RestRefusesConsole(PodSelectorOf(doc), o, e)
  {
    hide S.Admits, Exempts, ListsConsole, IsConsolePod, RestOf;
    var sel := PodSelectorOf(doc);
    forall labels: map<string, string> | IsConsolePod(labels)
      ensures S.Admits(sel, labels, o, e) <==> S.Admits(RestOf(sel), labels, o, e) && !ListsConsole(sel)
    {
      SelectorOnConsole(sel, labels, o, e);
    }
    if Exempts(doc) {
      forall labels: map<string, string> | IsConsolePod(labels)
        ensures !S.Admits(PodSelectorOf(ExemptDoc(doc)), labels, o, e) {
        ExemptMeaning(doc, labels, o, e);
      }
    }
  }

  /** For a policy that selects all pods but for what it says about the self label, reading its clauses decides. */
  lemma ShieldIsRead(doc: Json, o: S.Oracle, e: S.Event)
    requires AsMap(Field(PodSelectorOf(doc), "matchLabels")) == map[]
    requires forall x :: x in Items(Field(PodSelectorOf(doc), "matchExpressions")) ==> IsSelfExpr(x)
    ensures Shielded(ExemptResult(doc), o, e) <==> Exempts(doc) || ListsConsole(PodSelectorOf(doc))
  {
    hide Exempts, ListsConsole, IsSelfExpr, Shielded;
    var sel := PodSelectorOf(doc);
    ExemptShieldsExactly(doc, o, e);
    WithoutSelfMembers(Items(Field(sel, "matchExpressions")));
    var rest := WithoutSelfExprs(Items(Field(sel, "matchExpressions")));
    assert Items(Field(RestOf(sel), "matchExpressions")) == rest == [];
    assert Field(RestOf(sel), "matchLabels") == Field(sel, "matchLabels");
    var labels := map[SELF_LABEL := SELF_VALUE];
    assert IsConsolePod(labels) && S.Admits(RestOf(sel), labels, o, e);
  }

  /** A NotIn on the self label that lists another value stops the exemption and shields nothing. */
  lemma OtherNotInStopsExemption(o: S.Oracle, e: S.Event)
    ensures var expr := Obj(map["key" := Str(SELF_LABEL), "operator" := Str("NotIn"), "values" := Arr([Str("other")])]);
            var doc := Obj(map["kind" := Str("TracingPolicy"),
              "spec" := Obj(map["podSelector" := Obj(map["matchExpressions" := Arr([expr])])])]);
            !Exempts(doc) && !Shielded(ExemptResult(doc), o, e)
  {
    var expr := Obj(map["key" := Str(SELF_LABEL), "operator" := Str("NotIn"), "values" := Arr([Str("other")])]);
    var sel := Obj(map["matchExpressions" := Arr([expr])]);
    var doc := Obj(map["kind" := Str("TracingPolicy"), "spec" := Obj(map["podSelector" := sel])]);
    assert PodSelectorOf(doc) == sel;
    assert Items(Field(sel, "matchExpressions")) == [expr];
    assert expr in Items(Field(Field(Field(doc, "spec"), "podSelector"), "matchExpressions")) && IsSelfExpr(expr);
    ToStringsToAny(["other"]);
    assert Field(expr, "values") == ToAny(["other"]);
    var labels := map[SELF_LABEL := SELF_VALUE];
    assert S.ExprHolds(expr, labels, o, e);
    assert IsConsolePod(labels) && S.Admits(PodSelectorOf(doc), labels, o, e);
  }
}
