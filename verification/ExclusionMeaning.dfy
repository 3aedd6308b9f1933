/**
 What exclusions do to the match set: each selector, each hook and each policy matches what it
 matched before, minus what was excluded, and nothing else (exclusions.go:9-31).
 */
module ExclusionMeaning {
  import opened Option
  import opened Json
  import opened Exclusions
  import opened Selectors
  import Laws = ExclusionLaws
  import Text

  // ----- one clause

  /** The clause whose value list a merge extends. */
  function Landing(t: Target, existing: Json): Json {
    var i := FirstFit(t, Items(existing));
    if i < |Items(existing)| then Items(existing)[i] else Blank(t)
  }

  /** No value of the clause is the empty string, which a merge would drop. */
  predicate Plain(item: Json) {
    "" !in ToStrings(Field(item, "values"))
  }

  /** None of the non-empty values hits a candidate. */
  ghost predicate Spared(op: string, values: seq<string>, candidates: set<string>) {
    forall v, c :: v in values && v != "" && c in candidates ==> !Hits(op, v, c)
  }

  lemma MergedValues(item: Json, values: seq<string>)
    ensures ToStrings(Field(WithValues(item, values), "values")) ==
            Text.UnionOf(ToStrings(Field(item, "values")), values)
    ensures forall s :: s in ToStrings(Field(WithValues(item, values), "values")) <==>
                        s != "" && (s in ToStrings(Field(item, "values")) || s in values)
    ensures forall k :: k != "values" ==> Field(WithValues(item, values), k) == Field(item, k)
  {
    ToStringsToAny(Text.UnionOf(ToStrings(Field(item, "values")), values));
    Text.UnionMembers(ToStrings(Field(item, "values")), values);
  }

  /** A negative clause given more values holds when it held before and none of them hits. */
  lemma ClauseMeaning(item: Json, values: seq<string>, candidates: set<string>, o: Oracle, e: Event)
    requires ReadingOf(StrOf(Field(item, "operator"))) == NoneOf
    requires Plain(item)
    ensures ClauseHolds(WithValues(item, values), candidates, o, e) <==>
            ClauseHolds(item, candidates, o, e) && Spared(StrOf(Field(item, "operator")), values, candidates)
  {
    hide WithValues, Hits, ReadingOf, Strings;
    MergedValues(item, values);
  }

  /**
   An empty string among the values of the clause is dropped by the merge, and with it everything
   that string excluded: the clause keeps its meaning for every candidate exactly when it has none.
   */
  lemma ClauseMeaningExact(item: Json, values: seq<string>, o: Oracle, e: Event)
    requires ReadingOf(StrOf(Field(item, "operator"))) == NoneOf
    ensures (forall c: string :: ClauseHolds(WithValues(item, values), {c}, o, e) <==>
               ClauseHolds(item, {c}, o, e) && Spared(StrOf(Field(item, "operator")), values, {c}))
       <==> Plain(item)
  {
    var op := StrOf(Field(item, "operator"));
    MergedValues(item, values);
    if Plain(item) {
      forall c: string ensures ClauseHolds(WithValues(item, values), {c}, o, e) <==>
                               ClauseHolds(item, {c}, o, e) && Spared(op, values, {c}) {
        ClauseMeaning(item, values, {c}, o, e);
      }
    } else {
      assert Hits(op, "", "");
      assert !ClauseHolds(item, {""}, o, e);
      assert ClauseHolds(WithValues(item, values), {""}, o, e);
    }
  }

  /**
   A clause that lists the empty string and another value stops refusing empty candidates once anything is
   merged in.
   */
  lemma EmptyStringDropped(o: Oracle, e: Event)
    ensures var item := Obj(map["operator" := Str("NotIn"), "values" := Arr([Str(""), Str("/bin/a")])]);
            !ClauseHolds(item, {""}, o, e) && ClauseHolds(WithValues(item, ["/bin/b"]), {""}, o, e)
  {
    var item := Obj(map["operator" := Str("NotIn"), "values" := Arr([Str(""), Str("/bin/a")])]);
    hide WithValues, Strings;
    StringsMembers([Str(""), Str("/bin/a")]);
    MergedValues(item, ["/bin/b"]);
    assert Str("") in [Str(""), Str("/bin/a")];
    assert ReadingOf("NotIn") == NoneOf && Hits("NotIn", "", "");
  }

  // ----- one clause list

  /** All clauses of a list hold after a merge when they held before and the one extended still does. */
  lemma MergedListHolds(t: Target, existing: Json, values: seq<string>, holds: Json -> bool)
    ensures (forall item :: item in Items(Merge(t, existing, values)) ==> holds(item)) <==>
            && holds(WithValues(Landing(t, existing), values))
            && (forall j :: 0 <= j < |Items(existing)| && j != FirstFit(t, Items(existing)) ==>
                holds(Items(existing)[j]))
  {
    hide WithValues;
    Laws.MergeLandsAt(t, existing, values);
    var i, items, merged := FirstFit(t, Items(existing)), Items(existing), Items(Merge(t, existing, values));
    if forall item :: item in merged ==> holds(item) {
      assert merged[i] in merged;
      forall j | 0 <= j < |items| && j != i ensures holds(items[j]) {
        assert merged[j] in merged;
      }
    }
  }

  /** Extending the landing clause is, for the whole list, the same as adding a conjunct. */
  lemma ListMeaning(t: Target, existing: Json, values: seq<string>, holds: Json -> bool, spared: bool)
    requires holds(WithValues(Landing(t, existing), values)) <==> holds(Landing(t, existing)) && spared
    requires holds(Blank(t))
    ensures (forall item :: item in Items(Merge(t, existing, values)) ==> holds(item)) <==>
            (forall item :: item in Items(existing) ==> holds(item)) && spared
  {
    hide WithValues, Merge, Blank;
    MergedListHolds(t, existing, values, holds);
    var i, items := FirstFit(t, Items(existing)), Items(existing);
    if i < |items| {
      assert items[i] in items;
    }
    if forall item :: item in items ==> holds(item) {
      assert forall j :: 0 <= j < |items| ==> items[j] in items;
    }
  }

  lemma BlankIsOpen(t: Target, candidates: set<string>, o: Oracle, e: Event)
    ensures ClauseHolds(Blank(t), candidates, o, e)
  {
    var item := Blank(t);
    assert StrOf(Field(item, "operator")) in {"NotIn", "NotPrefix"};
    assert ToStrings(Field(item, "values")) == [];
  }

  lemma LandingIsNotIn(existing: Json)
    ensures StrOf(Field(Landing(NotIn, existing), "operator")) == "NotIn" && ReadingOf("NotIn") == NoneOf
  {
  }

  lemma LandingPath(args: Json, index: int)
    requires PathLands(args, index)
    ensures StrOf(Field(Landing(AtIndex(index), args), "operator")) == "NotPrefix" && ReadingOf("NotPrefix") == NoneOf
    ensures IntOf(Field(Landing(AtIndex(index), args), "index")) == index
  {
  }

  lemma LandingName(existing: Json)
    ensures var item := Landing(NotInOn("name"), existing);
            StrOf(Field(item, "key")) == "name" && StrOf(Field(item, "operator")) == "NotIn"
  {
  }

  /** The i-th clause is the first that refuses what it lists, and it looks at what those processes started as well. */
  predicate FollowsAt(clauses: seq<Json>, i: nat) {
    && i < |clauses|
    && StrOf(Field(clauses[i], "operator")) == "NotIn" && Field(clauses[i], "followChildren") == Bool(true)
    && forall j :: 0 <= j < i ==> StrOf(Field(clauses[j], "operator")) != "NotIn"
  }

  predicate Follows(clauses: Json) {
    exists i :: 0 <= i < |Items(clauses)| && FollowsAt(Items(clauses), i)
  }

  /** The processes an exclusion covers: the ancestors count only for a list that follows children already. */
  function ExcludedProcesses(clauses: Json, binary: string, lineage: set<string>): set<string> {
    {binary} + if Follows(clauses) then lineage else {}
  }

  lemma FollowsIsLanding(clauses: Json)
    ensures Follows(clauses) <==> Field(Landing(NotIn, clauses), "followChildren") == Bool(true)
  {
    var items := Items(clauses);
    var i := FirstFit(NotIn, items);
    if i < |items| && Field(items[i], "followChildren") == Bool(true) {
      assert FollowsAt(items, i);
    }
    if k :| 0 <= k < |items| && FollowsAt(items, k) {
      assert Fits(NotIn, items[k]);
    }
  }

  lemma MergedLooksAt(clauses: Json, values: seq<string>, binary: string, lineage: set<string>)
    ensures Processes(Landing(NotIn, clauses), binary, lineage) == ExcludedProcesses(clauses, binary, lineage)
  {
    hide Follows, Landing;
    FollowsIsLanding(clauses);
  }

  ghost predicate BinaryHolds(item: Json, binary: string, lineage: set<string>, o: Oracle, e: Event) {
    ClauseHolds(item, Processes(item, binary, lineage), o, e)
  }

  lemma BinaryLanding(clauses: Json, values: seq<string>, binary: string, lineage: set<string>, o: Oracle, e: Event)
    requires Plain(Landing(NotIn, clauses))
    ensures var landing := Landing(NotIn, clauses);
            BinaryHolds(WithValues(landing, values), binary, lineage, o, e) <==>
            BinaryHolds(landing, binary, lineage, o, e)
            && Spared("NotIn", values, ExcludedProcesses(clauses, binary, lineage))
    ensures BinaryHolds(Blank(NotIn), binary, lineage, o, e)
  {
    hide WithValues, ClauseHolds, Landing, ReadingOf, Spared, Strings, Text.UnionOf, Blank, Plain, Follows;
    var landing := Landing(NotIn, clauses);
    LandingIsNotIn(clauses);
    MergedLooksAt(clauses, values, binary, lineage);
    MergedValues(landing, values);
    ClauseMeaning(landing, values, Processes(landing, binary, lineage), o, e);
    BlankIsOpen(NotIn, Processes(Blank(NotIn), binary, lineage), o, e);
  }

  lemma BinariesMeaning(clauses: Json, values: seq<string>, binary: string, lineage: set<string>, o: Oracle, e: Event)
    requires Plain(Landing(NotIn, clauses))
    ensures BinariesHold(Merge(NotIn, clauses, values), binary, lineage, o, e) <==>
            BinariesHold(clauses, binary, lineage, o, e)
            && Spared("NotIn", values, ExcludedProcesses(clauses, binary, lineage))
  {
    hide WithValues, Merge, ClauseHolds, Landing, Spared, Plain, Processes, Blank, ExcludedProcesses;
    var holds := item => BinaryHolds(item, binary, lineage, o, e);
    BinaryLanding(clauses, values, binary, lineage, o, e);
    ListMeaning(NotIn, clauses, values, holds, Spared("NotIn", values, ExcludedProcesses(clauses, binary, lineage)));
  }

  /** The argument a path exclusion filters. */
  function ArgumentAt(index: int, e: Event): set<string> {
    if 0 <= index < |e.args| then {e.args[index]} else {}
  }

  ghost predicate ArgHolds(item: Json, o: Oracle, e: Event) {
    ClauseHolds(item, Argument(item, e.args), o, e)
  }

  lemma ArgLanding(args: Json, index: int, paths: seq<string>, o: Oracle, e: Event)
    requires PathLands(args, index)
    requires Plain(Landing(AtIndex(index), args))
    ensures var landing := Landing(AtIndex(index), args);
            ArgHolds(WithValues(landing, paths), o, e) <==>
            ArgHolds(landing, o, e) && Spared("NotPrefix", paths, ArgumentAt(index, e))
    ensures ArgHolds(Blank(AtIndex(index)), o, e)
  {
    hide WithValues, ClauseHolds, Landing, ReadingOf, Spared, Strings, Text.UnionOf, Blank, Plain, PathLands;
    var landing := Landing(AtIndex(index), args);
    LandingPath(args, index);
    MergedValues(landing, paths);
    ClauseMeaning(landing, paths, Argument(landing, e.args), o, e);
    BlankIsOpen(AtIndex(index), Argument(Blank(AtIndex(index)), e.args), o, e);
  }

  lemma ArgsMeaning(args: Json, index: int, paths: seq<string>, o: Oracle, e: Event)
    requires PathLands(args, index)
    requires Plain(Landing(AtIndex(index), args))
    ensures ArgsHold(Merge(AtIndex(index), args, paths), o, e) <==>
            ArgsHold(args, o, e) && Spared("NotPrefix", paths, ArgumentAt(index, e))
  {
    hide WithValues, Merge, ClauseHolds, Landing, Spared, Plain, PathLands, Argument, ArgumentAt, Blank;
    var holds := item => ArgHolds(item, o, e);
    ArgLanding(args, index, paths, o, e);
    ListMeaning(AtIndex(index), args, paths, holds, Spared("NotPrefix", paths, ArgumentAt(index, e)));
  }

  // ----- one selector

  /** No clause that this request is merged into lists the empty string. */
  predicate PlainSelector(sel: Fields, ex: Exclusions, index: Option<int>) {
    && (ex.binaries != [] ==> Plain(Landing(NotIn, Get(sel, "matchBinaries"))))
    && (ex.parentBinaries != [] ==> Plain(Landing(NotIn, Get(sel, "matchParentBinaries"))))
    && (PathApplies(sel, ex, index) ==> Plain(Landing(AtIndex(index.value), Get(sel, "matchArgs"))))
  }

  /** The event is none of the things excluded from this selector. */
  ghost predicate NotExcluded(sel: Fields, ex: Exclusions, index: Option<int>, e: Event) {
    && Spared("NotIn", ex.binaries, ExcludedProcesses(Get(sel, "matchBinaries"), e.binary, e.lineage))
    && Spared("NotIn", ex.parentBinaries, ExcludedProcesses(Get(sel, "matchParentBinaries"), e.parent, e.parentLineage))
    && (PathApplies(sel, ex, index) ==> Spared("NotPrefix", ex.paths, ArgumentAt(index.value, e)))
  }

  lemma SelectorMeaning(sel: Fields, ex: Exclusions, index: Option<int>, o: Oracle, e: Event)
    requires PlainSelector(sel, ex, index)
    ensures SelectorHolds(FilterSelector(sel, ex, index), o, e) <==>
            SelectorHolds(sel, o, e) && NotExcluded(sel, ex, index, e)
  {
    hide Merge, PathLands, BinariesHold, ArgsHold, FilterSelector, ExcludedProcesses, ArgumentAt, Landing, Plain;
    Laws.FilterSelectorAt(sel, ex, index);
    if ex.binaries != [] {
      BinariesMeaning(Get(sel, "matchBinaries"), ex.binaries, e.binary, e.lineage, o, e);
    }
    if ex.parentBinaries != [] {
      BinariesMeaning(Get(sel, "matchParentBinaries"), ex.parentBinaries, e.parent, e.parentLineage, o, e);
    }
    if PathApplies(sel, ex, index) {
      ArgsMeaning(Get(sel, "matchArgs"), index.value, ex.paths, o, e);
    }
  }

  /**
   Where the list does not follow children, as where it refuses nothing yet, exactly the named binaries are
   excluded.
   */
  lemma NamedBinaryExcluded(clauses: Json, values: seq<string>, binary: string, lineage: set<string>)
    requires !Follows(clauses)
    ensures Spared("NotIn", values, ExcludedProcesses(clauses, binary, lineage)) <==> binary == "" || binary !in values
  {
  }

  /** Merged into a clause that follows children, the exclusion also covers everything the binary spawned. */
  lemma FollowedBinaryExcluded(clauses: Json, values: seq<string>, binary: string, lineage: set<string>)
    requires Follows(clauses)
    ensures Spared("NotIn", values, ExcludedProcesses(clauses, binary, lineage)) <==>
            forall v :: v in values && v != "" ==> v != binary && v !in lineage
  {
    assert forall v, c :: v in values && v != "" && c in {binary} + lineage ==> (Hits("NotIn", v, c) <==> c == v);
  }

  /**
   Merged into a clause that follows children, the exclusion of one binary also takes what it started, which
   nobody named.
   */
  lemma FollowedChildExcluded(o: Oracle, e: Event)
    ensures var item := Obj(map["operator" := Str("NotIn"), "values" := Arr([Str("/bin/a")]),
                                "followChildren" := Bool(true)]);
            && BinariesHold(Arr([item]), "/bin/child", {"/bin/b"}, o, e)
            && !BinariesHold(Merge(NotIn, Arr([item]), ["/bin/b"]), "/bin/child", {"/bin/b"}, o, e)
  {
    var item := Obj(map["operator" := Str("NotIn"), "values" := Arr([Str("/bin/a")]), "followChildren" := Bool(true)]);
    var clauses := Arr([item]);
    hide Merge, Strings;
    StringsMembers([Str("/bin/a")]);
    assert Fits(NotIn, item) && Landing(NotIn, clauses) == item && FollowsAt(Items(clauses), 0);
    assert Plain(item) && ReadingOf("NotIn") == NoneOf;
    BinariesMeaning(clauses, ["/bin/b"], "/bin/child", {"/bin/b"}, o, e);
    FollowedBinaryExcluded(clauses, ["/bin/b"], "/bin/child", {"/bin/b"});
    assert "/bin/b" in ["/bin/b"];
  }

  /** A list that refuses nothing yet is given a clause of its own, for the named binaries alone. */
  lemma NewClauseNamesBinaries(clauses: Json, values: seq<string>, binary: string, lineage: set<string>, o: Oracle,
                               e: Event)
    requires forall item :: item in Items(clauses) ==> StrOf(Field(item, "operator")) != "NotIn"
    ensures BinariesHold(Merge(NotIn, clauses, values), binary, lineage, o, e) <==>
            BinariesHold(clauses, binary, lineage, o, e) && (binary == "" || binary !in values)
  {
    hide BinariesHold, Merge, Spared, ExcludedProcesses;
    assert !Follows(clauses) by {
      if i :| 0 <= i < |Items(clauses)| && FollowsAt(Items(clauses), i) {
        assert Items(clauses)[i] in Items(clauses);
      }
    }
    NewClausePlain(clauses);
    BinariesMeaning(clauses, values, binary, lineage, o, e);
    NamedBinaryExcluded(clauses, values, binary, lineage);
  }

  lemma NewClausePlain(clauses: Json)
    requires forall item :: item in Items(clauses) ==> StrOf(Field(item, "operator")) != "NotIn"
    ensures Plain(Landing(NotIn, clauses))
  {
    var items := Items(clauses);
    if FirstFit(NotIn, items) < |items| {
      assert items[FirstFit(NotIn, items)] in items;
    }
  }

  // ----- where a path filter goes

  /** The i-th clause is the first on the argument at `index`. */
  predicate FirstOn(args: seq<Json>, index: int, i: nat) {
    && i < |args| && IntOf(Field(args[i], "index")) == index
    && forall j :: 0 <= j < i ==> IntOf(Field(args[j], "index")) != index
  }

  /** A path filter lands exactly where the first clause on its argument, if any, refuses prefixes already. */
  lemma PathLandsExactly(args: Json, index: int)
    ensures PathLands(args, index) <==>
            forall i: nat :: FirstOn(Items(args), index, i) ==> Field(Items(args)[i], "operator") == Str("NotPrefix")
  {
    var items := Items(args);
    var i := FirstFit(AtIndex(index), items);
    assert i < |items| ==> FirstOn(items, index, i);
  }

  const PATH_TYPES: set<string> := {"file", "path", "string", "fd", "dentry"}

  predicate TakesPath(arg: Json) {
    exists t :: t in PATH_TYPES && Field(arg, "type") == Str(t)
  }

  /** The argument is the caller's choice, or the index that the hook's first argument of a path type declares. */
  lemma IndexChosen(hook: Fields, ex: Exclusions, i: nat)
    ensures ex.pathArgIndex.Some? ==> IndexFor(hook, ex) == ex.pathArgIndex
    ensures var args := Items(Get(hook, "args"));
            var first := i < |args| && TakesPath(args[i]) && forall j :: 0 <= j < i ==> !TakesPath(args[j]);
            && (ex.pathArgIndex.None? && first ==>
                  var declared := IntOf(Field(args[i], "index"));
                  IndexFor(hook, ex) == if declared >= 0 then Some(declared) else None)
            && (ex.pathArgIndex.None? && (forall arg :: arg in args ==> !TakesPath(arg)) ==> IndexFor(hook, ex) == None)
  {
    var args := Items(Get(hook, "args"));
    hide IntOf, IsPathType, TakesPath, PathIndexIn;
    forall arg ensures TakesPath(arg) <==> IsPathType(Field(arg, "type")) {
      TakesPathIs(arg);
    }
    PathIndexIsFirst(args);
    if i < |args| && TakesPath(args[i]) && forall j :: 0 <= j < i ==> !TakesPath(args[j]) {
      assert FirstPathArg(args, i);
    }
    if forall arg :: arg in args ==> !TakesPath(arg) {
      forall k: nat ensures !FirstPathArg(args, k) {
        assert k < |args| ==> args[k] in args;
      }
    }
  }

  lemma TakesPathIs(arg: Json)
    ensures TakesPath(arg) <==> IsPathType(Field(arg, "type"))
  {
    if IsPathType(Field(arg, "type")) {
      assert Field(arg, "type").s in PATH_TYPES;
    }
  }

  // ----- one hook

  /** Every selector of the hook is a map whose exclusion clauses do not list the empty string. */
  predicate PlainHook(hook: Fields, ex: Exclusions) {
    forall raw :: raw in SelectorsOf(hook) ==> raw.Obj? && PlainSelector(raw.fields, ex, IndexFor(hook, ex))
  }

  /** A missing selector list, given one empty selector, still matches everything. */
  lemma MissingSelectors(hook: Fields, o: Oracle, e: Event)
    requires o(Obj(map[]), e)
    ensures HookHolds(hook, o, e) <==> exists raw :: raw in SelectorsOf(hook) && SelectorHolds(AsMap(raw), o, e)
  {
    if Items(Get(hook, "selectors")) == [] {
      var empty: Fields := map[];
      assert empty - FILTERED == empty;
      assert SelectorHolds(map[], o, e);
      assert Obj(map[]) in SelectorsOf(hook);
    }
  }

  /** A filtered hook matches when a selector matched that spares the event. */
  lemma HookMeaning(hook: Fields, ex: Exclusions, o: Oracle, e: Event)
    requires o(Obj(map[]), e)
    requires PlainHook(hook, ex)
    ensures HookHolds(FilterHook(hook, ex), o, e) <==>
            exists raw :: raw in SelectorsOf(hook) && SelectorHolds(AsMap(raw), o, e)
                          && NotExcluded(AsMap(raw), ex, IndexFor(hook, ex), e)
  {
    hide SelectorHolds, NotExcluded, FilterSelector, PlainSelector, IndexFor;
    var sels, index := SelectorsOf(hook), IndexFor(hook, ex);
    var after := FilterSelectors(sels, ex, index);
    assert Items(Get(FilterHook(hook, ex), "selectors")) == after;
    forall j | 0 <= j < |sels|
      ensures SelectorHolds(AsMap(after[j]), o, e) <==>
              SelectorHolds(AsMap(sels[j]), o, e) && NotExcluded(AsMap(sels[j]), ex, index, e)
    {
      assert sels[j] in sels;
      SelectorMeaning(sels[j].fields, ex, index, o, e);
    }
    if raw :| raw in sels && SelectorHolds(AsMap(raw), o, e) && NotExcluded(AsMap(raw), ex, index, e) {
      var j :| 0 <= j < |sels| && sels[j] == raw;
      assert after[j] in after;
    }
    if raw :| raw in after && SelectorHolds(AsMap(raw), o, e) {
      var j :| 0 <= j < |after| && after[j] == raw;
      assert sels[j] in sels;
    }
  }

  /** No binary filter of the hook follows children. */
  predicate FollowsNobody(hook: Fields) {
    forall raw :: raw in SelectorsOf(hook) ==>
      !Follows(Field(raw, "matchBinaries")) && !Follows(Field(raw, "matchParentBinaries"))
  }

  /** Where the path filter landed, the argument it filters starts with no excluded path. */
  ghost predicate PathSpared(sel: Fields, ex: Exclusions, index: Option<int>, e: Event) {
    PathApplies(sel, ex, index) ==> Spared("NotPrefix", ex.paths, ArgumentAt(index.value, e))
  }

  /** Without followed children a hook matches what it matched, minus the excluded binaries, parents and paths. */
  lemma HookMinusExcluded(hook: Fields, ex: Exclusions, o: Oracle, e: Event)
    requires o(Obj(map[]), e)
    requires PlainHook(hook, ex) && FollowsNobody(hook)
    ensures HookHolds(FilterHook(hook, ex), o, e) <==>
            && (e.binary == "" || e.binary !in ex.binaries)
            && (e.parent == "" || e.parent !in ex.parentBinaries)
            && exists raw :: raw in SelectorsOf(hook) && SelectorHolds(AsMap(raw), o, e) &&
                          PathSpared(AsMap(raw), ex, IndexFor(hook, ex), e)
    ensures ex.paths == [] ==>
              (HookHolds(FilterHook(hook, ex), o, e) <==>
               && HookHolds(hook, o, e)
               && (e.binary == "" || e.binary !in ex.binaries)
               && (e.parent == "" || e.parent !in ex.parentBinaries))
  {
    hide SelectorHolds, FilterHook, HookHolds, Landing, Spared, ExcludedProcesses, PlainHook, IndexFor, Follows;
    HookMeaning(hook, ex, o, e);
    MissingSelectors(hook, o, e);
    forall raw | raw in SelectorsOf(hook)
      ensures NotExcluded(AsMap(raw), ex, IndexFor(hook, ex), e) <==>
              && (e.binary == "" || e.binary !in ex.binaries)
              && (e.parent == "" || e.parent !in ex.parentBinaries)
              && PathSpared(AsMap(raw), ex, IndexFor(hook, ex), e)
    {
      NamedBinaryExcluded(Field(raw, "matchBinaries"), ex.binaries, e.binary, e.lineage);
      NamedBinaryExcluded(Field(raw, "matchParentBinaries"), ex.parentBinaries, e.parent, e.parentLineage);
    }
  }

  // ----- pod and container selectors

  /** The pod carries none of the excluded labels. Entries without an equals sign name no label. */
  predicate LabelsSpared(pairs: seq<string>, labels: map<string, string>) {
    forall p :: p in pairs ==>
      match SplitPair(p)
      case None => true
      case Some((k, v)) => !(k in labels && labels[k] == v)
  }

  ghost predicate ExprsHold(exprs: Json, labels: map<string, string>, o: Oracle, e: Event) {
    forall item :: item in Items(exprs) ==> ExprHolds(item, labels, o, e)
  }

  lemma AddPairMeaning(exprs: Json, pair: string, labels: map<string, string>, o: Oracle, e: Event)
    ensures ExprsHold(AddPair(exprs, pair), labels, o, e) <==>
            ExprsHold(exprs, labels, o, e) && LabelsSpared([pair], labels)
  {
    hide HasExpr, SplitPair;
    match SplitPair(pair) {
      case None =>
      case Some((k, v)) =>
        assert pair in [pair];
        var item := NotInExpr(k, v);
        ToStringsToAny([v]);
        assert Field(item, "values") == ToAny([v]);
        assert ExprHolds(item, labels, o, e) <==> !(k in labels && labels[k] == v);
        Laws.HasExprIff(Items(exprs), k, "NotIn", v);
        if !HasExpr(Items(exprs), k, "NotIn", v) {
        } else {
          var x :| x in Items(exprs) && Field(x, "key") == Str(k) && Field(x, "operator") == Str("NotIn")
                   && v in ToStrings(Field(x, "values"));
          assert ExprHolds(x, labels, o, e) ==> !(k in labels && labels[k] == v);
        }
    }
  }

  lemma {:induction false} AddPairsMeaning(exprs: Json, pairs: seq<string>, labels: map<string, string>, o: Oracle,
                                           e: Event)
    ensures ExprsHold(AddPairs(exprs, pairs), labels, o, e) <==>
            ExprsHold(exprs, labels, o, e) && LabelsSpared(pairs, labels)
  {
    hide AddPair, ExprsHold, SplitPair;
    if pairs != [] {
      var n := |pairs| - 1;
      AddPairsMeaning(exprs, pairs[..n], labels, o, e);
      AddPairMeaning(AddPairs(exprs, pairs[..n]), pairs[n], labels, o, e);
      assert pairs == pairs[..n] + [pairs[n]];
      assert forall p :: p in pairs <==> p in pairs[..n] || p in [pairs[n]];
    }
  }

  /** The pod selector admits the pods it admitted, minus those with an excluded label. */
  lemma PodSelectorMeaning(selector: Json, ex: Exclusions, labels: map<string, string>, o: Oracle, e: Event)
    ensures Admits(PodSelectorAfter(selector, ex), labels, o, e) <==>
            Admits(selector, labels, o, e) && LabelsSpared(ex.podLabels, labels)
  {
    hide AddPairs, ExprHolds, LabelsSpared;
    AddPairsMeaning(ExprsOf(selector), ex.podLabels, labels, o, e);
    Laws.AddPairsIsExprs(ExprsOf(selector), ex.podLabels);
    assert Items(ExprsOf(selector)) == Items(Field(selector, "matchExpressions"));
    assert Field(PodSelectorAfter(selector, ex), "matchLabels") == Field(selector, "matchLabels");
  }

  lemma ContainerClauseMeaning(item: Json, names: seq<string>, container: string, o: Oracle, e: Event)
    requires StrOf(Field(item, "key")) == "name" && StrOf(Field(item, "operator")) == "NotIn"
    requires Plain(item)
    ensures ExprHolds(WithValues(item, names), map["name" := container], o, e) <==>
            ExprHolds(item, map["name" := container], o, e) && (container == "" || container !in names)
  {
    hide WithValues;
    MergedValues(item, names);
  }

  /** The container selector admits the containers it admitted, minus the excluded names. */
  lemma ContainerSelectorMeaning(selector: Json, ex: Exclusions, container: string, o: Oracle, e: Event)
    requires Plain(Landing(NotInOn("name"), ExprsOf(selector)))
    ensures Admits(ContainerSelectorAfter(selector, ex), map["name" := container], o, e) <==>
            Admits(selector, map["name" := container], o, e) && (container == "" || container !in ex.containers)
  {
    hide WithValues, Merge, ExprHolds, Landing, Blank, Strings, Text.UnionOf;
    LandingName(ExprsOf(selector));
    var t, exprs, labels := NotInOn("name"), ExprsOf(selector), map["name" := container];
    var holds := item => ExprHolds(item, labels, o, e);
    ContainerClauseMeaning(Landing(t, exprs), ex.containers, container, o, e);
    NameBlankIsOpen(labels, o, e);
    ListMeaning(t, exprs, ex.containers, holds, container == "" || container !in ex.containers);
    assert Items(exprs) == Items(Field(selector, "matchExpressions"));
    assert Field(ContainerSelectorAfter(selector, ex), "matchLabels") == Field(selector, "matchLabels");
    assert Field(ContainerSelectorAfter(selector, ex), "matchExpressions") == Merge(t, exprs, ex.containers);
  }

  lemma NameBlankIsOpen(labels: map<string, string>, o: Oracle, e: Event)
    ensures ExprHolds(Blank(NotInOn("name")), labels, o, e)
  {
    var item := Blank(NotInOn("name"));
    assert StrOf(Field(item, "operator")) == "NotIn";
    assert ToStrings(Field(item, "values")) == [];
  }

  // ----- the policy

  predicate PlainSpec(spec: Fields, ex: Exclusions) {
    && (ex.containers != [] ==> Plain(Landing(NotInOn("name"), ExprsOf(Get(spec, "containerSelector")))))
    && forall g, hook :: g in {"kprobes", "tracepoints", "uprobes", "lsmhooks"} && hook in Items(Get(spec, g)) ==>
         PlainHook(AsMap(hook), ex)
  }

  /**
   A rewritten policy fires from the same hooks for the same events, except that excluded pods and
   containers are not selected and each selector spares what was excluded from it.
   */
  lemma PolicyMeaning(spec: Fields, ex: Exclusions, group: string, i: nat, o: Oracle, e: Event)
    requires o(Obj(map[]), e)
    requires PlainSpec(spec, ex) && group in {"kprobes", "tracepoints", "uprobes", "lsmhooks"}
    ensures Fires(SpecAfter(spec, ex), group, i, o, e) <==>
      && i < |Items(Get(spec, group))|
      && ProcessSelected(spec, o, e)
      && (!e.host ==> LabelsSpared(ex.podLabels, e.labels) && (e.container == "" || e.container !in ex.containers))
      && var hook := AsMap(Items(Get(spec, group))[i]);
         exists raw :: raw in SelectorsOf(hook) && SelectorHolds(AsMap(raw), o, e)
                       && NotExcluded(AsMap(raw), ex, IndexFor(hook, ex), e)
  {
    hide SelectorHolds, Admits, NodeSelected, HostSelected, PlainHook, FilterHook, SpecAfter, HookHolds,
         PodSelectorAfter, ContainerSelectorAfter, NotExcluded, IndexFor, SelectorsOf, LabelsSpared, Landing, Plain;
    SelectorsMeaning(spec, ex, o, e);
    Laws.SpecAfterAt(spec, ex, group);
    OthersKept(spec, ex);
    assert Get(SpecAfter(spec, ex), group) == GroupAfter(Get(spec, group), ex);
    if i < |Items(Get(spec, group))| {
      assert Items(Get(spec, group))[i] in Items(Get(spec, group));
      HookMeaning(AsMap(Items(Get(spec, group))[i]), ex, o, e);
    }
  }

  lemma OthersKept(spec: Fields, ex: Exclusions)
    ensures Get(SpecAfter(spec, ex), "nodeSelector") == Get(spec, "nodeSelector")
    ensures Get(SpecAfter(spec, ex), "hostSelector") == Get(spec, "hostSelector")
  {
    hide SpecAfter;
    Laws.SpecAfterAt(spec, ex, "nodeSelector");
    Laws.SpecAfterAt(spec, ex, "hostSelector");
    assert "nodeSelector" !in GROUPS && "hostSelector" !in GROUPS;
  }

  lemma SelectorsMeaning(spec: Fields, ex: Exclusions, o: Oracle, e: Event)
    requires PlainSpec(spec, ex)
    ensures Admits(Get(SpecAfter(spec, ex), "podSelector"), e.labels, o, e) <==>
            Admits(Get(spec, "podSelector"), e.labels, o, e) && LabelsSpared(ex.podLabels, e.labels)
    ensures Admits(Get(SpecAfter(spec, ex), "containerSelector"), map["name" := e.container], o, e) <==>
            Admits(Get(spec, "containerSelector"), map["name" := e.container], o, e)
            && (e.container == "" || e.container !in ex.containers)
  {
    hide Admits, SpecAfter, PodSelectorAfter, ContainerSelectorAfter, PlainHook;
    Laws.SpecAfterAt(spec, ex, "podSelector");
    Laws.SpecAfterAt(spec, ex, "containerSelector");
    PodSelectorMeaning(Get(spec, "podSelector"), ex, e.labels, o, e);
    if ex.containers != [] {
      ContainerSelectorMeaning(Get(spec, "containerSelector"), ex, e.container, o, e);
    }
  }
}
