/**
 Approving exclusions twice, and approving them one after the other
 (exclusions.go:46-48: "approving the same exclusion twice is a no-op").
 */
module ExclusionLaws {
  import opened Option
  import opened Json
  import opened Exclusions
  import opened Selectors
  import Text

  /** Both requests in one, keeping the first one's argument index. */
  function Both(a: Exclusions, b: Exclusions): Exclusions {
    Exclusions(a.binaries + b.binaries, a.parentBinaries + b.parentBinaries, a.paths + b.paths,
               a.pathArgIndex, a.podLabels + b.podLabels, a.containers + b.containers)
  }

  // ----- merged clauses

  lemma WithValuesFuses(item: Json, a: seq<string>, b: seq<string>)
    ensures WithValues(WithValues(item, a), b) == WithValues(item, a + b)
  {
    var x := ToStrings(Field(item, "values"));
    ToStringsToAny(Text.UnionOf(x, a));
    Text.UnionFuses(x, a, b);
  }

  lemma MergedClauseFits(t: Target, item: Json, values: seq<string>)
    ensures Fits(t, WithValues(item, values)) == Fits(t, item)
    ensures Fits(t, Blank(t))
  {
  }

  lemma FirstFitIs(t: Target, items: seq<Json>, i: nat)
    requires i <= |items|
    requires forall j :: 0 <= j < i ==> !Fits(t, items[j])
    requires i < |items| ==> Fits(t, items[i])
    ensures FirstFit(t, items) == i
  {
    hide Fits;
    var f := FirstFit(t, items);
    assert !(f < i) && !(i < f);
  }

  /** The clause a merge leaves its values in, and where. */
  lemma MergeLandsAt(t: Target, existing: Json, values: seq<string>)
    ensures var i := FirstFit(t, Items(existing));
            var merged := Items(Merge(t, existing, values));
            && FirstFit(t, merged) == i < |merged|
            && merged[i] == WithValues(if i < |Items(existing)| then Items(existing)[i] else Blank(t), values)
            && |merged| == (if i < |Items(existing)| then |Items(existing)| else i + 1)
            && forall j :: 0 <= j < |Items(existing)| && j != i ==> merged[j] == Items(existing)[j]
  {
    hide WithValues, Fits, Blank, FirstFit;
    var items := Items(existing);
    var i := FirstFit(t, items);
    MergedClauseFits(t, if i < |items| then items[i] else Blank(t), values);
    FirstFitIs(t, Items(Merge(t, existing, values)), i);
  }

  /** Merging twice into the first fitting clause is merging once with both lists. */
  lemma MergeFuses(t: Target, existing: Json, a: seq<string>, b: seq<string>)
    ensures Merge(t, Merge(t, existing, a), b) == Merge(t, existing, a + b)
  {
    hide FirstFit, WithValues;
    var i := FirstFit(t, Items(existing));
    MergeLandsAt(t, existing, a);
    MergeLandsAt(t, existing, a + b);
    MergeLandsAt(t, Merge(t, existing, a), b);
    WithValuesFuses(if i < |Items(existing)| then Items(existing)[i] else Blank(t), a, b);
    assert Items(Merge(t, Merge(t, existing, a), b)) == Items(Merge(t, existing, a + b));
  }

  lemma MergeAbsorbs(t: Target, existing: Json, a: seq<string>)
    ensures Merge(t, existing, a + a) == Merge(t, existing, a)
  {
    var item := if FirstFit(t, Items(existing)) < |Items(existing)|
                then Items(existing)[FirstFit(t, Items(existing))] else Blank(t);
    Text.UnionAbsorbs(ToStrings(Field(item, "values")), a);
  }

  /** Where a path filter landed, the next one lands too; where it was refused, so is the next. */
  lemma PathStillLands(args: Json, index: int, paths: seq<string>)
    requires PathLands(args, index)
    ensures PathLands(Merge(AtIndex(index), args, paths), index)
  {
    MergeLandsAt(AtIndex(index), args, paths);
  }

  // ----- one selector

  /** The value list a merge would be given, when it is given one at all. */
  function MergeIf(t: Target, existing: Json, values: seq<string>): Json {
    if values == [] then existing else Merge(t, existing, values)
  }

  lemma MergeIfFuses(t: Target, existing: Json, a: seq<string>, b: seq<string>)
    ensures MergeIf(t, MergeIf(t, existing, a), b) == MergeIf(t, existing, a + b)
  {
    hide Merge;
    MergeFuses(t, existing, a, b);
    EmptyListsConcatenate(a, b);
  }

  /** The filtered selector, clause list by clause list. */
  lemma FilterSelectorAt(sel: Fields, ex: Exclusions, index: Option<int>)
    ensures var s := FilterSelector(sel, ex, index);
            && Get(s, "matchBinaries") == MergeIf(NotIn, Get(sel, "matchBinaries"), ex.binaries)
            && ("matchBinaries" in s <==> "matchBinaries" in sel || ex.binaries != [])
            && Get(s, "matchParentBinaries") == MergeIf(NotIn, Get(sel, "matchParentBinaries"), ex.parentBinaries)
            && ("matchParentBinaries" in s <==> "matchParentBinaries" in sel || ex.parentBinaries != [])
            && Get(s, "matchArgs") == (if PathApplies(sel, ex, index)
                 then Merge(AtIndex(index.value), Get(sel, "matchArgs"), ex.paths) else Get(sel, "matchArgs"))
            && ("matchArgs" in s <==> "matchArgs" in sel || PathApplies(sel, ex, index))
            && s - FILTERED == sel - FILTERED
  {
    hide Merge, PathApplies;
  }

  lemma EqualByKey(s: Fields, t: Fields)
    requires s - FILTERED == t - FILTERED
    requires forall k :: k in FILTERED ==> Get(s, k) == Get(t, k) && (k in s <==> k in t)
    ensures s == t
  {
    forall k ensures (k in s <==> k in t) && (k in s ==> s[k] == t[k]) {
      if k !in FILTERED {
        assert k in s <==> k in s - FILTERED;
        assert k in t <==> k in t - FILTERED;
        assert k in s ==> s[k] == (s - FILTERED)[k];
        assert k in t ==> t[k] == (t - FILTERED)[k];
      }
    }
  }

  lemma PathFuses(sel: Fields, a: Exclusions, b: Exclusions, index: Option<int>)
    ensures var s := FilterSelector(sel, a, index);
            && (PathApplies(s, b, index) <==>
                b.paths != [] && index.Some? && PathLands(Get(sel, "matchArgs"), index.value))
            && Get(FilterSelector(s, b, index), "matchArgs") == Get(FilterSelector(sel, Both(a, b), index), "matchArgs")
  {
    hide Merge, PathLands, FilterSelector;
    var s, args := FilterSelector(sel, a, index), Get(sel, "matchArgs");
    FilterSelectorAt(sel, a, index);
    FilterSelectorAt(s, b, index);
    FilterSelectorAt(sel, Both(a, b), index);
    EmptyListsConcatenate(a.paths, b.paths);
    if index.Some? {
      MergeFuses(AtIndex(index.value), args, a.paths, b.paths);
      if PathLands(args, index.value) {
        PathStillLands(args, index.value, a.paths);
      }
    }
  }

  lemma FilterSelectorFuses(sel: Fields, a: Exclusions, b: Exclusions, index: Option<int>)
    ensures FilterSelector(FilterSelector(sel, a, index), b, index) == FilterSelector(sel, Both(a, b), index)
  {
    hide MergeIf, Merge, PathLands, FilterSelector;
    var s := FilterSelector(sel, a, index);
    FilterSelectorAt(sel, a, index);
    FilterSelectorAt(s, b, index);
    FilterSelectorAt(sel, Both(a, b), index);
    MergeIfFuses(NotIn, Get(sel, "matchBinaries"), a.binaries, b.binaries);
    MergeIfFuses(NotIn, Get(sel, "matchParentBinaries"), a.parentBinaries, b.parentBinaries);
    PathFuses(sel, a, b, index);
    EqualByKey(FilterSelector(s, b, index), FilterSelector(sel, Both(a, b), index));
  }

  /** Some filter goes into an empty selector. */
  predicate FiltersAnything(ex: Exclusions, index: Option<int>) {
    ex.binaries != [] || ex.parentBinaries != [] || (ex.paths != [] && index.Some?)
  }

  lemma FilterRawFuses(raw: Json, a: Exclusions, b: Exclusions, index: Option<int>)
    ensures FilterRaw(FilterRaw(raw, a, index), b, index) == FilterRaw(raw, Both(a, b), index)
       <==> raw.Obj? || !FiltersAnything(b, index)
  {
    if raw.Obj? {
      FilterSelectorFuses(raw.fields, a, b, index);
    }
  }

  // ----- one hook

  /** Every selector of the hook is a map, or the request leaves an empty selector alone. */
  predicate HookSettles(hook: Fields, ex: Exclusions) {
    (forall raw :: raw in SelectorsOf(hook) ==> raw.Obj?) || !FiltersAnything(ex, IndexFor(hook, ex))
  }

  lemma FilteredHook(hook: Fields, a: Exclusions, b: Exclusions)
    requires a.pathArgIndex == b.pathArgIndex
    ensures SelectorsOf(FilterHook(hook, a)) == FilterSelectors(SelectorsOf(hook), a, IndexFor(hook, b))
    ensures IndexFor(FilterHook(hook, a), b) == IndexFor(hook, b) == IndexFor(hook, Both(a, b))
  {
    hide PathIndexIn;
  }

  lemma FilterHookFuses(hook: Fields, a: Exclusions, b: Exclusions)
    requires a.pathArgIndex == b.pathArgIndex
    ensures FilterHook(FilterHook(hook, a), b) == FilterHook(hook, Both(a, b)) <==> HookSettles(hook, b)
  {
    hide FilterRaw, IndexFor;
    FilteredHook(hook, a, b);
    var sels := SelectorsOf(hook);
    var index := IndexFor(hook, b);
    forall i | 0 <= i < |sels|
      ensures FilterRaw(FilterRaw(sels[i], a, index), b, index) == FilterRaw(sels[i], Both(a, b), index)
         <==> sels[i].Obj? || !FiltersAnything(b, index)
    {
      FilterRawFuses(sels[i], a, b, index);
    }
    var left := FilterSelectors(FilterSelectors(sels, a, index), b, index);
    var right := FilterSelectors(sels, Both(a, b), index);
    assert forall i :: 0 <= i < |sels| ==> left[i] == FilterRaw(FilterRaw(sels[i], a, index), b, index);
    assert forall i :: 0 <= i < |sels| ==> right[i] == FilterRaw(sels[i], Both(a, b), index);
    assert left == right <==> HookSettles(hook, b);
    assert FilterHook(FilterHook(hook, a), b)["selectors"] == Arr(left);
    assert FilterHook(hook, Both(a, b))["selectors"] == Arr(right);
    assert FilterHook(FilterHook(hook, a), b) == hook["selectors" := Arr(left)];
  }

  // ----- all hooks of a spec

  predicate GroupSettles(group: Json, ex: Exclusions) {
    forall hook :: hook in Items(group) ==> HookSettles(AsMap(hook), ex)
  }

  predicate Settles(spec: Fields, ex: Exclusions) {
    forall g :: g in GROUPS ==> GroupSettles(Get(spec, g), ex)
  }

  lemma GroupFuses(group: Json, a: Exclusions, b: Exclusions)
    requires a.pathArgIndex == b.pathArgIndex
    ensures GroupAfter(GroupAfter(group, a), b) == GroupAfter(group, Both(a, b)) <==> GroupSettles(group, b)
  {
    hide FilterHook, HookSettles;
    if group.Arr? {
      var hooks := group.items;
      forall i | 0 <= i < |hooks|
        ensures FilterHook(FilterHook(AsMap(hooks[i]), a), b) == FilterHook(AsMap(hooks[i]), Both(a, b))
           <==> HookSettles(AsMap(hooks[i]), b)
      {
        FilterHookFuses(AsMap(hooks[i]), a, b);
      }
      var left := FilterHooks(FilterHooks(hooks, a), b);
      var right := FilterHooks(hooks, Both(a, b));
      assert forall i :: 0 <= i < |hooks| ==> left[i] == Obj(FilterHook(FilterHook(AsMap(hooks[i]), a), b));
      assert forall i :: 0 <= i < |hooks| ==> right[i] == Obj(FilterHook(AsMap(hooks[i]), Both(a, b)));
      assert left == right <==> GroupSettles(group, b);
    }
  }

  // ----- pod and container selectors

  lemma {:induction false} AddPairsFuses(exprs: Json, a: seq<string>, b: seq<string>)
    ensures AddPairs(AddPairs(exprs, a), b) == AddPairs(exprs, a + b)
  {
    if b == [] {
      assert a + b == a;
    } else {
      AddPairsFuses(exprs, a, b[..|b| - 1]);
      assert (a + b)[..|a + b| - 1] == a + b[..|b| - 1];
    }
  }

  lemma {:induction false} HasExprIff(exprs: seq<Json>, key: string, op: string, value: string)
    ensures HasExpr(exprs, key, op, value) <==>
            exists e :: e in exprs && Field(e, "key") == Str(key) && Field(e, "operator") == Str(op)
                        && value in ToStrings(Field(e, "values"))
  {
    if exprs != [] {
      HasExprIff(exprs[1..], key, op, value);
      assert exprs == [exprs[0]] + exprs[1..];
    }
  }

  /** The pair is already excluded, or names no label at all. */
  predicate PairSettled(exprs: Json, pair: string) {
    var split := SplitPair(pair);
    split.Some? ==> HasExpr(Items(exprs), split.value.0, "NotIn", split.value.1)
  }

  lemma AddPairSettles(exprs: Json, pair: string, other: string)
    ensures PairSettled(AddPair(exprs, pair), pair)
    ensures PairSettled(exprs, other) ==> PairSettled(AddPair(exprs, pair), other)
    ensures PairSettled(exprs, pair) ==> AddPair(exprs, pair) == exprs
  {
    hide HasExpr, SplitPair;
    var (after, split, osplit) := (Items(AddPair(exprs, pair)), SplitPair(pair), SplitPair(other));
    if split.Some? {
      var (k, v) := split.value;
      assert AddPair(exprs, pair) == exprs || NotInExpr(k, v) in after;
      ToStringsToAny([v]);
      assert Field(NotInExpr(k, v), "values") == ToAny([v]);
      HasExprIff(Items(exprs), k, "NotIn", v);
      HasExprIff(after, k, "NotIn", v);
    }
    if osplit.Some? {
      HasExprIff(Items(exprs), osplit.value.0, "NotIn", osplit.value.1);
      HasExprIff(after, osplit.value.0, "NotIn", osplit.value.1);
    }
  }

  lemma {:induction false} AddPairsSettles(exprs: Json, pairs: seq<string>)
    ensures forall p :: p in pairs ==> PairSettled(AddPairs(exprs, pairs), p)
  {
    hide PairSettled, AddPair;
    if pairs != [] {
      var n := |pairs| - 1;
      AddPairsSettles(exprs, pairs[..n]);
      forall p | p in pairs ensures PairSettled(AddPairs(exprs, pairs), p) {
        AddPairSettles(AddPairs(exprs, pairs[..n]), pairs[n], p);
        assert p in pairs[..n] || p == pairs[n];
      }
    }
  }

  lemma {:induction false} AddSettledPairs(exprs: Json, pairs: seq<string>)
    requires forall p :: p in pairs ==> PairSettled(exprs, p)
    ensures AddPairs(exprs, pairs) == exprs
  {
    if pairs != [] {
      AddSettledPairs(exprs, pairs[..|pairs| - 1]);
      AddPairSettles(exprs, pairs[|pairs| - 1], pairs[|pairs| - 1]);
    }
  }

  lemma AddPairsAbsorbs(exprs: Json, pairs: seq<string>)
    ensures AddPairs(exprs, pairs + pairs) == AddPairs(exprs, pairs)
  {
    AddPairsFuses(exprs, pairs, pairs);
    AddPairsSettles(exprs, pairs);
    AddSettledPairs(AddPairs(exprs, pairs), pairs);
  }

  lemma {:induction false} AddPairsIsExprs(exprs: Json, pairs: seq<string>)
    requires exprs.Arr? || exprs.Null?
    ensures AddPairs(exprs, pairs).Arr? || AddPairs(exprs, pairs).Null?
  {
    if pairs != [] {
      AddPairsIsExprs(exprs, pairs[..|pairs| - 1]);
    }
  }

  lemma PodSelectorFuses(sel: Json, a: Exclusions, b: Exclusions)
    ensures PodSelectorAfter(PodSelectorAfter(sel, a), b) == PodSelectorAfter(sel, Both(a, b))
  {
    hide AddPairs;
    AddPairsIsExprs(ExprsOf(sel), a.podLabels);
    AddPairsFuses(ExprsOf(sel), a.podLabels, b.podLabels);
  }

  lemma ContainerSelectorFuses(sel: Json, a: Exclusions, b: Exclusions)
    ensures ContainerSelectorAfter(ContainerSelectorAfter(sel, a), b) == ContainerSelectorAfter(sel, Both(a, b))
  {
    MergeFuses(NotInOn("name"), ExprsOf(sel), a.containers, b.containers);
  }

  // ----- the whole manifest

  /** What the rewrite makes of the value under one key of the spec. */
  function ValueAfter(value: Json, ex: Exclusions, k: string): Json {
    if k == "podSelector" && ex.podLabels != [] then PodSelectorAfter(value, ex)
    else if k == "containerSelector" && ex.containers != [] then ContainerSelectorAfter(value, ex)
    else if k in GROUPS then GroupAfter(value, ex)
    else value
  }

  /** The rewrite works key by key. */
  lemma SpecAfterAt(spec: Fields, ex: Exclusions, k: string)
    ensures k in SpecAfter(spec, ex) <==>
            k in spec || (k == "podSelector" && ex.podLabels != []) || (k == "containerSelector" && ex.containers != [])
    ensures k in SpecAfter(spec, ex) ==> SpecAfter(spec, ex)[k] == ValueAfter(Get(spec, k), ex, k)
  {
    hide GroupAfter, PodSelectorAfter, ContainerSelectorAfter;
  }

  lemma EmptyListsConcatenate<T>(a: seq<T>, b: seq<T>)
    ensures a == [] ==> a + b == b
    ensures b == [] ==> a + b == a
  {
  }

  lemma SpecFusesAt(spec: Fields, a: Exclusions, b: Exclusions, k: string)
    requires a.pathArgIndex == b.pathArgIndex
    ensures var twice, once := SpecAfter(SpecAfter(spec, a), b), SpecAfter(spec, Both(a, b));
            && (k in twice <==> k in once)
            && (k in once ==> (twice[k] == once[k] <==> (k in GROUPS ==> GroupSettles(Get(spec, k), b))))
  {
    hide GroupAfter, GroupSettles, PodSelectorAfter, ContainerSelectorAfter, SpecAfter;
    SpecAfterAt(spec, a, k);
    SpecAfterAt(SpecAfter(spec, a), b, k);
    SpecAfterAt(spec, Both(a, b), k);
    if k == "podSelector" {
      PodSelectorFuses(Get(spec, k), a, b);
      PodSelectorOf(Get(spec, k), a, b);
    } else if k == "containerSelector" {
      ContainerSelectorFuses(Get(spec, k), a, b);
      ContainerSelectorOf(Get(spec, k), a, b);
    } else if k in GROUPS && k in spec {
      GroupFuses(spec[k], a, b);
    }
  }

  /** A one-sided request is what the joint request does to that selector. */
  lemma PodSelectorOf(sel: Json, a: Exclusions, b: Exclusions)
    ensures a.podLabels == [] ==> PodSelectorAfter(sel, Both(a, b)) == PodSelectorAfter(sel, b)
    ensures b.podLabels == [] ==> PodSelectorAfter(sel, Both(a, b)) == PodSelectorAfter(sel, a)
  {
    EmptyListsConcatenate(a.podLabels, b.podLabels);
  }

  lemma ContainerSelectorOf(sel: Json, a: Exclusions, b: Exclusions)
    ensures a.containers == [] ==> ContainerSelectorAfter(sel, Both(a, b)) == ContainerSelectorAfter(sel, b)
    ensures b.containers == [] ==> ContainerSelectorAfter(sel, Both(a, b)) == ContainerSelectorAfter(sel, a)
  {
    EmptyListsConcatenate(a.containers, b.containers);
  }

  /**
   Applying `a` and then `b` gives the manifest that their concatenation gives,
   exactly when `b` meets no selector that is not a map.
   */
  lemma ApplyFuses(doc: Fields, a: Exclusions, b: Exclusions)
    requires Get(doc, "spec").Obj?
    requires a.pathArgIndex == b.pathArgIndex
    ensures DocAfter(DocAfter(doc, a), b) == DocAfter(doc, Both(a, b)) <==> Settles(doc["spec"].fields, b)
  {
    hide SpecAfter, GroupSettles;
    var spec := doc["spec"].fields;
    var twice, once := SpecAfter(SpecAfter(spec, a), b), SpecAfter(spec, Both(a, b));
    forall k
      ensures (k in twice <==> k in once)
           && (k in once ==> (twice[k] == once[k] <==> (k in GROUPS ==> GroupSettles(Get(spec, k), b))))
           && (k in GROUPS ==> (k in once <==> k in spec))
           && (k !in spec ==> GroupSettles(Get(spec, k), b))
    {
      SpecFusesAt(spec, a, b, k);
      SpecAfterAt(spec, Both(a, b), k);
      NothingSettles(b);
    }
    assert twice.Keys == once.Keys;
    if Settles(spec, b) {
      assert forall k :: k in once ==> twice[k] == once[k];
      assert twice == once;
    }
    assert twice == once <==> Settles(spec, b);
    assert DocAfter(DocAfter(doc, a), b)["spec"] == Obj(twice);
    assert DocAfter(doc, Both(a, b))["spec"] == Obj(once);
    assert DocAfter(DocAfter(doc, a), b) == doc["spec" := Obj(twice)];
  }

  lemma NothingSettles(ex: Exclusions)
    ensures GroupSettles(Null, ex)
  {
  }

  // ----- idempotence

  lemma FilterSelectorAbsorbs(sel: Fields, ex: Exclusions, index: Option<int>)
    ensures FilterSelector(sel, Both(ex, ex), index) == FilterSelector(sel, ex, index)
  {
    hide Merge, PathLands;
    MergeAbsorbs(NotIn, Get(sel, "matchBinaries"), ex.binaries);
    MergeAbsorbs(NotIn, Get(sel, "matchParentBinaries"), ex.parentBinaries);
    if index.Some? {
      MergeAbsorbs(AtIndex(index.value), Get(sel, "matchArgs"), ex.paths);
    }
  }

  lemma FilterHookAbsorbs(hook: Fields, ex: Exclusions)
    ensures FilterHook(hook, Both(ex, ex)) == FilterHook(hook, ex)
  {
    hide FilterSelector, PathIndexIn;
    var index := IndexFor(hook, ex);
    forall raw: Json | raw.Obj? ensures FilterRaw(raw, Both(ex, ex), index) == FilterRaw(raw, ex, index) {
      FilterSelectorAbsorbs(raw.fields, ex, index);
    }
    var sels := SelectorsOf(hook);
    assert FilterSelectors(sels, Both(ex, ex), index) == FilterSelectors(sels, ex, index);
  }

  lemma GroupAbsorbs(group: Json, ex: Exclusions)
    ensures GroupAfter(group, Both(ex, ex)) == GroupAfter(group, ex)
  {
    hide FilterHook;
    forall hook ensures FilterHook(hook, Both(ex, ex)) == FilterHook(hook, ex) {
      FilterHookAbsorbs(hook, ex);
    }
    assert group.Arr? ==> FilterHooks(group.items, Both(ex, ex)) == FilterHooks(group.items, ex);
  }

  lemma SpecAbsorbs(spec: Fields, ex: Exclusions)
    ensures SpecAfter(spec, Both(ex, ex)) == SpecAfter(spec, ex)
  {
    hide GroupAfter, AddPairs, Merge, SpecAfter;
    var twice, once := SpecAfter(spec, Both(ex, ex)), SpecAfter(spec, ex);
    forall k ensures (k in twice <==> k in once) && (k in once ==> twice[k] == once[k]) {
      SpecAfterAt(spec, Both(ex, ex), k);
      SpecAfterAt(spec, ex, k);
      AddPairsAbsorbs(ExprsOf(Get(spec, k)), ex.podLabels);
      MergeAbsorbs(NotInOn("name"), ExprsOf(Get(spec, k)), ex.containers);
      GroupAbsorbs(Get(spec, k), ex);
    }
  }

  /** Approving the same exclusions again changes nothing, exactly when every filtered selector is a map. */
  lemma ApplyIdempotent(doc: Fields, ex: Exclusions)
    requires Get(doc, "spec").Obj?
    ensures DocAfter(DocAfter(doc, ex), ex) == DocAfter(doc, ex) <==> Settles(doc["spec"].fields, ex)
  {
    hide SpecAfter;
    ApplyFuses(doc, ex, ex);
    SpecAbsorbs(doc["spec"].fields, ex);
  }

  /** A selector list holding null: the first approval leaves that selector open, the second closes it. */
  lemma NullSelectorBreaksIdempotence()
    ensures var hook := map["selectors" := Arr([Null])];
            var doc := map["spec" := Obj(map["kprobes" := Arr([Obj(hook)])])];
            var ex := Exclusions(["/bin/cat"], [], [], None, [], []);
            DocAfter(DocAfter(doc, ex), ex) != DocAfter(doc, ex)
  {
    var hook := map["selectors" := Arr([Null])];
    var spec := map["kprobes" := Arr([Obj(hook)])];
    var doc := map["spec" := Obj(spec)];
    var ex := Exclusions(["/bin/cat"], [], [], None, [], []);
    ApplyIdempotent(doc, ex);
    assert SelectorsOf(hook) == [Null];
    assert Null in SelectorsOf(hook);
    assert !HookSettles(hook, ex);
    assert Obj(hook) in Items(Get(spec, "kprobes"));
    assert !GroupSettles(Get(spec, "kprobes"), ex);
    assert GROUPS[0] == "kprobes";
  }
}
