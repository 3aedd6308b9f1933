/**
 What a policy built from the library promises (frontend/src/lib/libraryYaml.ts:1-15, 181-215, 264-373, 390-403):
 its mode changes what happens and never when, alert leaves nothing enforcing, block never touches an override,
 exclusions take events away, and only the scope of a draft can add some.

 The meaning of a spec is that of Selectors.
 */
module LibraryLaws {
  import opened Json
  import opened Library
  import opened Option
  import opened Selectors
  import Text

  // ----- actions of a spec

  ghost predicate ActionOf(sel: Json, a: Json) {
    a in Items(Field(sel, "matchActions")) || a in Items(Field(sel, "matchReturnActions"))
  }

  ghost predicate ActionOfHook(hook: Json, a: Json) {
    exists sel :: sel in Items(Field(hook, "selectors")) && ActionOf(sel, a)
  }

  /** `a` is an action of some hook of the spec. */
  ghost predicate ActionIn(spec: Fields, a: Json) {
    exists g, hook :: g in HOOK_GROUPS && hook in Items(Get(spec, g)) && ActionOfHook(hook, a)
  }

  function Word(a: Json): string {
    Coerced(Field(a, "action"))
  }

  lemma ActionsMapped(actions: seq<Json>, mode: Mode, a: Json)
    ensures a in ActionsAfter(actions, mode) <==> exists b :: b in actions && a == ActionAfter(b, mode)
  {
    hide ActionAfter;
    var after := ActionsAfter(actions, mode);
    if a in after {
      var i :| 0 <= i < |after| && after[i] == a;
      assert actions[i] in actions;
    }
    if b :| b in actions && a == ActionAfter(b, mode) {
      var i :| 0 <= i < |actions| && actions[i] == b;
      assert after[i] in after;
    }
  }

  lemma KeysApart(sel: Fields, mode: Mode)
    ensures Items(Get(SelectorMode(sel, mode), "matchActions")) == ActionsAfter(Items(Get(sel, "matchActions")), mode)
    ensures Items(Get(SelectorMode(sel, mode), "matchReturnActions")) ==
            ActionsAfter(Items(Get(sel, "matchReturnActions")), mode)
    ensures forall k :: k != "matchActions" && k != "matchReturnActions" ==>
              Get(SelectorMode(sel, mode), k) == Get(sel, k)
  {
    assert ActionsAfter([], mode) == [];
  }

  lemma SelectorActions(sel: Fields, mode: Mode, a: Json)
    ensures ActionOf(Obj(SelectorMode(sel, mode)), a) <==>
            exists b :: ActionOf(Obj(sel), b) && a == ActionAfter(b, mode)
  {
    hide SelectorMode, ActionsAfter, ActionAfter;
    KeysApart(sel, mode);
    ActionsMapped(Items(Get(sel, "matchActions")), mode, a);
    ActionsMapped(Items(Get(sel, "matchReturnActions")), mode, a);
    if b :| b in Items(Get(sel, "matchActions")) && a == ActionAfter(b, mode) {
      assert ActionOf(Obj(sel), b);
    }
    if b :| b in Items(Get(sel, "matchReturnActions")) && a == ActionAfter(b, mode) {
      assert ActionOf(Obj(sel), b);
    }
  }

  lemma HookActions(hook: Fields, mode: Mode, a: Json)
    ensures ActionOfHook(Obj(HookMode(hook, mode)), a) <==>
            exists b :: ActionOfHook(Obj(hook), b) && a == ActionAfter(b, mode)
  {
    hide SelectorMode, ActionAfter, ActionOf;
    var sels, after := Items(Get(hook, "selectors")), Items(Get(HookMode(hook, mode), "selectors"));
    assert after == SelectorsMode(sels, mode);
    if ActionOfHook(Obj(HookMode(hook, mode)), a) {
      var sel :| sel in after && ActionOf(sel, a);
      var i :| 0 <= i < |after| && after[i] == sel;
      SelectorActions(AsMap(sels[i]), mode, a);
      var b :| ActionOf(Obj(AsMap(sels[i])), b) && a == ActionAfter(b, mode);
      SameActions(sels[i], b);
      assert sels[i] in sels;
      assert ActionOfHook(Obj(hook), b);
    }
    if b :| ActionOfHook(Obj(hook), b) && a == ActionAfter(b, mode) {
      var sel :| sel in sels && ActionOf(sel, b);
      var i :| 0 <= i < |sels| && sels[i] == sel;
      SelectorActions(AsMap(sel), mode, a);
      SameActions(sel, b);
      assert after[i] in after;
    }
  }

  lemma SameActions(sel: Json, a: Json)
    ensures ActionOf(Obj(AsMap(sel)), a) <==> ActionOf(sel, a)
  {
  }

  lemma SameHookActions(hook: Json, a: Json)
    ensures ActionOfHook(Obj(AsMap(hook)), a) <==> ActionOfHook(hook, a)
  {
  }

  lemma ModeAt(spec: Fields, mode: Mode, g: string)
    requires g in HOOK_GROUPS
    ensures Items(Get(SpecMode(spec, mode), g)) == HooksMode(Items(Get(spec, g)), mode)
  {
    assert HooksMode([], mode) == [];
  }

  /** The actions of a spec after a mode are the actions before it, each rewritten on its own. */
  lemma ModeActions(spec: Fields, mode: Mode, a: Json)
    ensures ActionIn(SpecMode(spec, mode), a) <==> exists b :: ActionIn(spec, b) && a == ActionAfter(b, mode)
  {
    hide SpecMode, HookMode, ActionAfter, ActionOfHook;
    var after := SpecMode(spec, mode);
    if ActionIn(after, a) {
      var g, hook :| g in HOOK_GROUPS && hook in Items(Get(after, g)) && ActionOfHook(hook, a);
      ModeAt(spec, mode, g);
      var hooks := Items(Get(spec, g));
      var i :| 0 <= i < |hooks| && hook == Obj(HookMode(AsMap(hooks[i]), mode));
      HookActions(AsMap(hooks[i]), mode, a);
      var b :| ActionOfHook(Obj(AsMap(hooks[i])), b) && a == ActionAfter(b, mode);
      SameHookActions(hooks[i], b);
      assert hooks[i] in hooks;
      assert ActionIn(spec, b);
    }
    if b :| ActionIn(spec, b) && a == ActionAfter(b, mode) {
      var g, hook :| g in HOOK_GROUPS && hook in Items(Get(spec, g)) && ActionOfHook(hook, b);
      ModeAt(spec, mode, g);
      var hooks := Items(Get(spec, g));
      var i :| 0 <= i < |hooks| && hooks[i] == hook;
      HookActions(AsMap(hook), mode, a);
      SameHookActions(hook, b);
      assert HooksMode(hooks, mode)[i] in Items(Get(after, g));
    }
  }

  // ----- exclusions leave actions alone

  lemma SelectorAfterAt(sel: Fields, ex: Excluded, index: Option<int>)
    ensures var after := SelectorAfter(sel, ex, index);
            && Get(after, "matchBinaries") ==
                (if TakesBinaries(sel, ex) then Arr([BinaryClause(ex.binaries)]) else Get(sel, "matchBinaries"))
            && Get(after, "matchParentBinaries") ==
                (if TakesParents(sel, ex) then Arr([ParentClause(ex.parentBinaries)])
                 else Get(sel, "matchParentBinaries"))
            && Get(after, "matchArgs") ==
                (if TakesPaths(sel, ex, index) then Append(Get(sel, "matchArgs"), PathClause(index.value, ex.paths))
                 else Get(sel, "matchArgs"))
            && after - FILTERED == sel - FILTERED
            && (forall k :: k !in FILTERED ==> Get(after, k) == Get(sel, k))
  {
    hide BinaryClause, ParentClause, PathClause, TakesBinaries, TakesParents, TakesPaths;
  }

  lemma FilteredActions(sel: Fields, ex: Excluded, index: Option<int>, a: Json)
    ensures ActionOf(Obj(SelectorAfter(sel, ex, index)), a) <==> ActionOf(Obj(sel), a)
  {
    hide SelectorAfter, TakesBinaries, TakesParents, TakesPaths;
    SelectorAfterAt(sel, ex, index);
    assert "matchActions" !in FILTERED && "matchReturnActions" !in FILTERED;
  }

  lemma HookKeepsActions(hook: Fields, ex: Excluded, a: Json)
    ensures ActionOfHook(Obj(HookAfter(hook, ex)), a) <==> ActionOfHook(Obj(hook), a)
  {
    hide SelectorAfter, ActionOf, PathIndexIn;
    var index := PathIndexIn(Items(Get(hook, "args")));
    var sels, after := Filtered(hook), Items(Get(HookAfter(hook, ex), "selectors"));
    forall i | 0 <= i < |sels|
      ensures ActionOf(Obj(SelectorAfter(AsMap(sels[i]), ex, index)), a) <==> ActionOf(sels[i], a)
    {
      FilteredActions(AsMap(sels[i]), ex, index, a);
      SameActions(sels[i], a);
    }
    NoActionsIn(a);
    if HookAfter(hook, ex) != hook {
      assert after == SelectorsAfter(sels, ex, index);
      if sel :| sel in after && ActionOf(sel, a) {
        var i :| 0 <= i < |after| && after[i] == sel;
        assert sels[i] in sels;
      }
      if sel :| sel in sels && ActionOf(sel, a) {
        var i :| 0 <= i < |sels| && sels[i] == sel;
        assert after[i] in after;
      }
    }
  }

  lemma NoActionsIn(a: Json)
    ensures !ActionOf(Obj(map[]), a)
  {
  }

  lemma GroupsAt(spec: Fields, ex: Excluded, g: string)
    requires g in HOOK_GROUPS
    ensures Items(Get(SpecAfter(spec, ex), g)) == HooksAfter(Items(Get(spec, g)), ex)
  {
    hide HooksAfter, SelectorsIn;
    SelectorsKeepGroups(spec, ex);
    NoHooks(ex);
  }

  lemma NoHooks(ex: Excluded)
    ensures HooksAfter([], ex) == []
  {
  }

  lemma ExclusionsKeepActions(spec: Fields, ex: Excluded, a: Json)
    ensures ActionIn(SpecAfter(spec, ex), a) <==> ActionIn(spec, a)
  {
    hide SpecAfter, HookAfter, ActionOfHook;
    var after := SpecAfter(spec, ex);
    if g, hook :| g in HOOK_GROUPS && hook in Items(Get(after, g)) && ActionOfHook(hook, a) {
      GroupsAt(spec, ex, g);
      var hooks := Items(Get(spec, g));
      var i :| 0 <= i < |hooks| && hook == Obj(HookAfter(AsMap(hooks[i]), ex));
      HookKeepsActions(AsMap(hooks[i]), ex, a);
      SameHookActions(hooks[i], a);
      assert hooks[i] in hooks;
    }
    if g, hook :| g in HOOK_GROUPS && hook in Items(Get(spec, g)) && ActionOfHook(hook, a) {
      GroupsAt(spec, ex, g);
      var hooks := Items(Get(spec, g));
      var i :| 0 <= i < |hooks| && hooks[i] == hook;
      HookKeepsActions(AsMap(hook), ex, a);
      SameHookActions(hook, a);
      assert HooksAfter(hooks, ex)[i] in Items(Get(after, g));
    }
  }

  lemma ScopeKeepsHooks(spec: Fields, nodeLabels: seq<string>, includeHost: bool)
    ensures forall g :: g in HOOK_GROUPS ==> Get(Scoped(spec, nodeLabels, includeHost), g) == Get(spec, g)
    ensures forall k :: k in {"podSelector", "containerSelector"} ==>
              Get(Scoped(spec, nodeLabels, includeHost), k) == Get(spec, k)
  {
    hide MatchLabels;
    assert "nodeSelector" !in HOOK_GROUPS && "hostSelector" !in HOOK_GROUPS;
  }

  /** The actions of a built spec are the upstream actions, each rewritten for the mode. */
  lemma BuiltActions(upstream: Fields, mode: Mode, ex: Excluded, nodeLabels: seq<string>, includeHost: bool, a: Json)
    ensures ActionIn(BuiltSpec(upstream, mode, ex, nodeLabels, includeHost), a) <==>
            exists b :: ActionIn(upstream, b) && a == ActionAfter(b, mode)
  {
    hide SpecMode, SpecAfter, Scoped, ActionOfHook, ActionAfter;
    ModeActions(upstream, mode, a);
    ExclusionsKeepActions(SpecMode(upstream, mode), ex, a);
    ScopeKeepsHooks(SpecAfter(SpecMode(upstream, mode), ex), nodeLabels, includeHost);
  }

  // ----- the modes

  lemma RewrittenWord(a: Json, mode: Mode)
    ensures mode == Alert ==> Word(ActionAfter(a, mode)) == if Word(a) in ENFORCE_ACTIONS then "Post" else Word(a)
    ensures mode == Block ==> Word(ActionAfter(a, mode)) == if Word(a) == "Post" then "Sigkill" else Word(a)
    ensures Word(ActionAfter(a, mode)) == Word(a) ==> ActionAfter(a, mode) == a
  {
  }

  /** In alert mode nothing enforces, in any group, whatever else was asked for. */
  lemma AlertNeverEnforces(upstream: Fields, ex: Excluded, nodeLabels: seq<string>, includeHost: bool, a: Json)
    requires ActionIn(BuiltSpec(upstream, Alert, ex, nodeLabels, includeHost), a)
    ensures Word(a) !in ENFORCE_ACTIONS
  {
    hide BuiltSpec, ActionIn, ActionAfter;
    BuiltActions(upstream, Alert, ex, nodeLabels, includeHost, a);
    var b :| ActionIn(upstream, b) && a == ActionAfter(b, Alert);
    RewrittenWord(b, Alert);
  }

  /** Block mode keeps every action as it is but Post: an override stays an override, with its error. */
  lemma BlockKeepsOthers(upstream: Fields, ex: Excluded, nodeLabels: seq<string>, includeHost: bool, a: Json)
    requires Word(a) != "Post" && Word(a) != "Sigkill"
    ensures ActionIn(BuiltSpec(upstream, Block, ex, nodeLabels, includeHost), a) <==> ActionIn(upstream, a)
  {
    hide BuiltSpec, ActionIn, ActionAfter, Word;
    BuiltActions(upstream, Block, ex, nodeLabels, includeHost, a);
    RewrittenWord(a, Block);
    forall b | a == ActionAfter(b, Block) ensures a == b {
      RewrittenWord(b, Block);
    }
  }

  /** A policy built to block enforces somewhere exactly when upstream enforces or posts somewhere. */
  lemma BlockEnforcesExactly(upstream: Fields, ex: Excluded, nodeLabels: seq<string>, includeHost: bool)
    ensures var built := BuiltSpec(upstream, Block, ex, nodeLabels, includeHost);
            (exists a :: ActionIn(built, a) && Word(a) in ENFORCE_ACTIONS) <==>
            (exists b :: ActionIn(upstream, b) && (Word(b) in ENFORCE_ACTIONS || Word(b) == "Post"))
  {
    hide BuiltSpec, ActionIn, ActionAfter, Word;
    var built := BuiltSpec(upstream, Block, ex, nodeLabels, includeHost);
    if a :| ActionIn(built, a) && Word(a) in ENFORCE_ACTIONS {
      BuiltActions(upstream, Block, ex, nodeLabels, includeHost, a);
      var b :| ActionIn(upstream, b) && a == ActionAfter(b, Block);
      RewrittenWord(b, Block);
    }
    if b :| ActionIn(upstream, b) && (Word(b) in ENFORCE_ACTIONS || Word(b) == "Post") {
      var a := ActionAfter(b, Block);
      BuiltActions(upstream, Block, ex, nodeLabels, includeHost, a);
      RewrittenWord(b, Block);
    }
  }

  /** A policy flagged as not enforceable has no action at all. */
  lemma FlaggedHasNoAction(upstream: Fields, a: Json)
    requires !Enforceable(upstream)
    ensures !ActionIn(upstream, a)
  {
    if g, hook :| g in HOOK_GROUPS && hook in Items(Get(upstream, g)) && ActionOfHook(hook, a) {
      var sel :| sel in Items(Field(hook, "selectors")) && ActionOf(sel, a);
      assert "matchActions" in ACTION_KEYS && "matchReturnActions" in ACTION_KEYS;
      assert HasActions(sel);
      assert EnforceableHook(hook);
    }
  }

  ghost predicate Blocks(spec: Fields) {
    exists a :: ActionIn(spec, a) && Word(a) in ENFORCE_ACTIONS
  }

  /** Some action enforces already, or is a Post that block mode makes enforce. */
  ghost predicate CanBlock(upstream: Fields) {
    exists a :: ActionIn(upstream, a) && (Word(a) in ENFORCE_ACTIONS || Word(a) == "Post")
  }

  /**
   The flag says whether a policy built to block blocks nothing, exactly when an upstream policy with a
   list of actions has one among them that enforces or posts.
   */
  lemma FlagExactly(upstream: Fields, ex: Excluded, nodeLabels: seq<string>, includeHost: bool)
    ensures (!Enforceable(upstream) <==> !Blocks(BuiltSpec(upstream, Block, ex, nodeLabels, includeHost))) <==>
            (Enforceable(upstream) ==> CanBlock(upstream))
  {
    hide BuiltSpec, ActionIn, Enforceable, Word;
    BlockEnforcesExactly(upstream, ex, nodeLabels, includeHost);
    if !Enforceable(upstream) {
      forall a ensures !ActionIn(upstream, a) {
        FlaggedHasNoAction(upstream, a);
      }
    }
  }

  function SelectorWith(actions: seq<Json>): Json {
    Obj(map["matchActions" := Arr(actions)])
  }

  /** One hook with one selector with these actions. */
  function OneSelector(actions: seq<Json>): Fields {
    map["kprobes" := Arr([Obj(map["selectors" := Arr([SelectorWith(actions)])])])]
  }

  lemma OneSelectorActions(actions: seq<Json>, a: Json)
    ensures ActionIn(OneSelector(actions), a) <==> a in actions
    ensures Enforceable(OneSelector(actions))
  {
    hide ActionOf, HasActions, SelectorWith;
    var sel := SelectorWith(actions);
    var hook := Obj(map["selectors" := Arr([sel])]);
    SelectorWithActions(actions, a);
    assert "kprobes" in HOOK_GROUPS;
    assert Items(Field(hook, "selectors")) == [sel] && Items(Get(OneSelector(actions), "kprobes")) == [hook];
    assert sel in [sel] && hook in [hook];
    assert ActionOfHook(hook, a) <==> ActionOf(sel, a);
    assert EnforceableHook(hook);
  }

  lemma SelectorWithActions(actions: seq<Json>, a: Json)
    ensures ActionOf(SelectorWith(actions), a) <==> a in actions
    ensures HasActions(SelectorWith(actions))
  {
    assert "matchActions" in ACTION_KEYS;
  }

  /** A policy whose only action fetches a URL, as several in the library: not flagged, and blocking nothing. */
  lemma OtherActionIsNotFlagged(ex: Excluded, nodeLabels: seq<string>, includeHost: bool)
    ensures var spec := OneSelector([Obj(map["action" := Str("GetUrl")])]);
            Enforceable(spec) && !Blocks(BuiltSpec(spec, Block, ex, nodeLabels, includeHost))
  {
    hide BuiltSpec, ActionIn, OneSelector, Enforceable;
    var act := Obj(map["action" := Str("GetUrl")]);
    forall a ensures (ActionIn(OneSelector([act]), a) <==> a in [act]) && Enforceable(OneSelector([act])) {
      OneSelectorActions([act], a);
    }
    assert Word(act) == "GetUrl";
    BlockEnforcesExactly(OneSelector([act]), ex, nodeLabels, includeHost);
  }

  /** So with an empty list of actions. */
  lemma EmptyActionListIsNotFlagged()
    ensures Enforceable(OneSelector([])) && forall a :: !ActionIn(OneSelector([]), a)
  {
    hide ActionIn, OneSelector, Enforceable;
    OneSelectorActions([], Null);
    forall a ensures !ActionIn(OneSelector([]), a) {
      OneSelectorActions([], a);
    }
  }

  /** Applying a mode again changes nothing. */
  lemma ModeIdempotent(spec: Fields, mode: Mode)
    ensures SpecMode(SpecMode(spec, mode), mode) == SpecMode(spec, mode)
  {
    hide HooksMode;
    forall hooks ensures HooksMode(HooksMode(hooks, mode), mode) == HooksMode(hooks, mode) {
      HooksModeTwice(hooks, mode);
    }
  }

  lemma HooksModeTwice(hooks: seq<Json>, mode: Mode)
    ensures HooksMode(HooksMode(hooks, mode), mode) == HooksMode(hooks, mode)
  {
    hide HookMode;
    var once := HooksMode(hooks, mode);
    forall i | 0 <= i < |hooks| ensures HooksMode(once, mode)[i] == once[i] {
      HookModeTwice(AsMap(hooks[i]), mode);
    }
  }

  lemma HookModeTwice(hook: Fields, mode: Mode)
    ensures HookMode(HookMode(hook, mode), mode) == HookMode(hook, mode)
  {
    hide SelectorsMode;
    SelectorsModeTwice(Items(Get(hook, "selectors")), mode);
  }

  lemma SelectorsModeTwice(sels: seq<Json>, mode: Mode)
    ensures SelectorsMode(SelectorsMode(sels, mode), mode) == SelectorsMode(sels, mode)
  {
    hide SelectorMode;
    var once := SelectorsMode(sels, mode);
    forall i | 0 <= i < |sels| ensures SelectorsMode(once, mode)[i] == once[i] {
      SelectorModeTwice(AsMap(sels[i]), mode);
    }
  }

  lemma SelectorModeTwice(sel: Fields, mode: Mode)
    ensures SelectorMode(SelectorMode(sel, mode), mode) == SelectorMode(sel, mode)
  {
    hide ActionAfter;
    forall a: Json ensures ActionAfter(ActionAfter(a, mode), mode) == ActionAfter(a, mode) {
      ActionTwice(a, mode);
    }
    forall actions ensures ActionsAfter(ActionsAfter(actions, mode), mode) == ActionsAfter(actions, mode) {
    }
  }

  lemma ActionTwice(a: Json, mode: Mode)
    ensures ActionAfter(ActionAfter(a, mode), mode) == ActionAfter(a, mode)
  {
    RewrittenWord(a, mode);
    assert "Post" !in ENFORCE_ACTIONS;
  }

  // ----- what exclusions take away

  /** The event is none of the things a selector was given a filter for. */
  predicate Spares(sel: Fields, ex: Excluded, index: Option<int>, e: Event) {
    && (TakesBinaries(sel, ex) ==> e.binary !in ex.binaries)
    && (TakesParents(sel, ex) ==> e.parent !in ex.parentBinaries)
    && (TakesPaths(sel, ex, index) && 0 <= index.value < |e.args| ==>
          forall p :: p in ex.paths ==> !Text.HasPrefix(e.args[index.value], p))
  }

  lemma SortedValues(values: seq<string>)
    ensures forall v :: v in ToStrings(ToAny(Text.Sorted(values))) <==> v in values
  {
    ToStringsToAny(Text.Sorted(values));
    Text.SortedIsSorted(values);
  }

  lemma BinaryClauseMeaning(values: seq<string>, binary: string, lineage: set<string>, o: Oracle, e: Event)
    ensures BinariesHold(Arr([BinaryClause(values)]), binary, lineage, o, e) <==> binary !in values
    ensures BinariesHold(Arr([ParentClause(values)]), binary, lineage, o, e) <==> binary !in values
  {
    hide Text.Sorted, Strings, ToAny;
    SortedValues(values);
    var x, y := BinaryClause(values), ParentClause(values);
    assert ReadingOf("NotIn") == NoneOf;
    assert Processes(x, binary, lineage) == {binary} && Processes(y, binary, lineage) == {binary};
    assert Items(Arr([x])) == [x] && Items(Arr([y])) == [y];
  }

  lemma PathClauseMeaning(index: int, paths: seq<string>, o: Oracle, e: Event)
    ensures ClauseHolds(PathClause(index, paths), Argument(PathClause(index, paths), e.args), o, e) <==>
            (0 <= index < |e.args| ==> forall p :: p in paths ==> !Text.HasPrefix(e.args[index], p))
  {
    hide Text.Sorted, Strings, ToAny, Text.HasPrefix;
    SortedValues(paths);
    var x := PathClause(index, paths);
    assert ReadingOf("NotPrefix") == NoneOf;
    assert StrOf(Field(x, "operator")) == "NotPrefix" && IntOf(Field(x, "index")) == index;
  }

  lemma AppendedArgs(args: Json, item: Json, o: Oracle, e: Event)
    ensures ArgsHold(Append(args, item), o, e) <==>
            ArgsHold(args, o, e) && ClauseHolds(item, Argument(item, e.args), o, e)
  {
    hide ClauseHolds, Argument;
    assert forall x :: x in Items(Append(args, item)) <==> x in Items(args) || x == item;
  }

  lemma FalsyIsOpen(clauses: Json, binary: string, lineage: set<string>, o: Oracle, e: Event)
    requires !Truthy(clauses)
    ensures BinariesHold(clauses, binary, lineage, o, e)
  {
  }

  /** A selector matches what it matched, minus what it was given filters for. */
  lemma SelectorMeaning(sel: Fields, ex: Excluded, index: Option<int>, o: Oracle, e: Event)
    ensures SelectorHolds(Obj(SelectorAfter(sel, ex, index)).fields, o, e) <==>
            SelectorHolds(sel, o, e) && Spares(sel, ex, index, e)
  {
    hide SelectorAfter, BinariesHold, ArgsHold, BinaryClause, ParentClause, PathClause, Truthy, Constrains,
         Text.HasPrefix;
    SelectorAfterAt(sel, ex, index);
    if TakesBinaries(sel, ex) {
      BinaryClauseMeaning(ex.binaries, e.binary, e.lineage, o, e);
      FalsyIsOpen(Get(sel, "matchBinaries"), e.binary, e.lineage, o, e);
    }
    if TakesParents(sel, ex) {
      BinaryClauseMeaning(ex.parentBinaries, e.parent, e.parentLineage, o, e);
      FalsyIsOpen(Get(sel, "matchParentBinaries"), e.parent, e.parentLineage, o, e);
    }
    if TakesPaths(sel, ex, index) {
      PathClauseMeaning(index.value, ex.paths, o, e);
      AppendedArgs(Get(sel, "matchArgs"), PathClause(index.value, ex.paths), o, e);
    }
  }

  ghost predicate SomeSelectorSpares(sels: seq<Json>, ex: Excluded, index: Option<int>, o: Oracle, e: Event) {
    exists raw :: raw in sels && SelectorHolds(AsMap(raw), o, e) && Spares(AsMap(raw), ex, index, e)
  }

  lemma EmptySelectorHolds(o: Oracle, e: Event)
    requires o(Obj(map[]), e)
    ensures SelectorHolds(map[], o, e)
  {
    var empty: Fields := map[];
    assert empty - FILTERED == empty;
  }

  /**
   A hook with an empty list of selectors keeps matching everything; any other hook matches what one of
   its selectors matched and spares.
   */
  lemma HookMeaning(hook: Fields, ex: Excluded, o: Oracle, e: Event)
    requires o(Obj(map[]), e)
    ensures HookHolds(HookAfter(hook, ex), o, e) <==>
            Get(hook, "selectors") == Arr([]) ||
              SomeSelectorSpares(Filtered(hook), ex, PathIndexIn(Items(Get(hook, "args"))), o, e)
  {
    hide SelectorHolds, SelectorAfter, Spares, PathIndexIn;
    var index := PathIndexIn(Items(Get(hook, "args")));
    var sels := Filtered(hook);
    EmptySelectorHolds(o, e);
    if !Get(hook, "selectors").Arr? && !ex.FiltersHooks() {
      SparesAll(ex, index, e);
      assert Obj(map[]) in sels;
    } else {
      var after := SelectorsAfter(sels, ex, index);
      assert Items(Get(HookAfter(hook, ex), "selectors")) == after;
      SelectorsMeaning(sels, ex, index, o, e);
    }
  }

  lemma SparesAll(ex: Excluded, index: Option<int>, e: Event)
    requires !ex.FiltersHooks()
    ensures forall sel :: Spares(sel, ex, index, e)
  {
  }

  lemma SelectorsMeaning(sels: seq<Json>, ex: Excluded, index: Option<int>, o: Oracle, e: Event)
    ensures (exists raw :: raw in SelectorsAfter(sels, ex, index) && SelectorHolds(AsMap(raw), o, e)) <==>
            SomeSelectorSpares(sels, ex, index, o, e)
  {
    hide SelectorHolds, SelectorAfter, Spares;
    var after := SelectorsAfter(sels, ex, index);
    forall j | 0 <= j < |sels|
      ensures SelectorHolds(AsMap(after[j]), o, e) <==>
              SelectorHolds(AsMap(sels[j]), o, e) && Spares(AsMap(sels[j]), ex, index, e)
    {
      SelectorMeaning(AsMap(sels[j]), ex, index, o, e);
    }
    if raw :| raw in after && SelectorHolds(AsMap(raw), o, e) {
      var j :| 0 <= j < |after| && after[j] == raw;
      assert sels[j] in sels;
    }
    if raw :| raw in sels && SelectorHolds(AsMap(raw), o, e) && Spares(AsMap(raw), ex, index, e) {
      var j :| 0 <= j < |sels| && sels[j] == raw;
      assert after[j] in after;
    }
  }

  // ----- exclusions that do not land

  /** A selector that matches the event after exclusions, without having been given the filter in question. */
  ghost predicate SomeSelectorKeeps(hook: Fields, ex: Excluded, takes: Fields -> bool, o: Oracle, e: Event) {
    exists raw :: raw in Filtered(hook) && !takes(AsMap(raw)) && SelectorHolds(AsMap(raw), o, e)
                  && Spares(AsMap(raw), ex, PathIndexIn(Items(Get(hook, "args"))), e)
  }

  /**
   An excluded binary still fires a hook exactly when its list of selectors is empty, or some selector has
   a binary filter of its own, which is left as it is, and matches.
   */
  lemma ExcludedBinaryStillFires(hook: Fields, ex: Excluded, o: Oracle, e: Event)
    requires o(Obj(map[]), e) && e.binary in ex.binaries
    ensures HookHolds(HookAfter(hook, ex), o, e) <==>
            || Get(hook, "selectors") == Arr([])
            || SomeSelectorKeeps(hook, ex, sel => !Truthy(Get(sel, "matchBinaries")), o, e)
  {
    hide SelectorHolds, HookAfter, HookHolds, Filtered, PathIndexIn, Truthy, TakesParents, TakesPaths;
    HookMeaning(hook, ex, o, e);
  }

  /** So does a child of an excluded parent, by a parent filter of the selector's own. */
  lemma ExcludedParentStillFires(hook: Fields, ex: Excluded, o: Oracle, e: Event)
    requires o(Obj(map[]), e) && e.parent in ex.parentBinaries
    ensures HookHolds(HookAfter(hook, ex), o, e) <==>
            || Get(hook, "selectors") == Arr([])
            || SomeSelectorKeeps(hook, ex, sel => !Truthy(Get(sel, "matchParentBinaries")), o, e)
  {
    hide SelectorHolds, HookAfter, HookHolds, Filtered, PathIndexIn, Truthy, TakesBinaries, TakesPaths;
    HookMeaning(hook, ex, o, e);
  }

  /** And an excluded path, by a hook without a path argument or a clause of the selector's own on it. */
  lemma ExcludedPathStillFires(hook: Fields, ex: Excluded, p: string, o: Oracle, e: Event)
    requires o(Obj(map[]), e) && p in ex.paths
    requires var index := PathIndexIn(Items(Get(hook, "args")));
             index.Some? ==> 0 <= index.value < |e.args| && Text.HasPrefix(e.args[index.value], p)
    ensures var index := PathIndexIn(Items(Get(hook, "args")));
            HookHolds(HookAfter(hook, ex), o, e) <==>
            || Get(hook, "selectors") == Arr([])
            || SomeSelectorKeeps(hook, ex, sel => index.Some? && !Constrains(Get(sel, "matchArgs"), index.value), o, e)
  {
    hide SelectorHolds, HookAfter, HookHolds, Filtered, PathIndexIn, TakesBinaries, TakesParents, Constrains,
         Text.HasPrefix;
    HookMeaning(hook, ex, o, e);
  }

  /** For an empty list of selectors, no exclusion lands. */
  lemma EmptyListIgnoresExclusions(hook: Fields, ex: Excluded, o: Oracle, e: Event)
    requires Get(hook, "selectors") == Arr([])
    ensures HookHolds(hook, o, e) && HookHolds(HookAfter(hook, ex), o, e)
  {
    assert SelectorsAfter([], ex, PathIndexIn(Items(Get(hook, "args")))) == [];
  }

  const OWN_FILTER: Fields :=
    map["matchBinaries" := Arr([Obj(map["operator" := Str("In"), "values" := Arr([Str("/bin/b")])])])]

  /** Two selectors, one of which has a binary filter. */
  function TwoSelectors(): Fields {
    map["selectors" := Arr([Obj(map[]), Obj(OWN_FILTER)])]
  }

  const ONE_BINARY: Excluded := Excluded([], ["/bin/b"], [], [], [], [])

  /** The note reads applied, for the first selector, and the excluded binary still fires the hook, by the second. */
  lemma AppliedYetStillFires(o: Oracle, e: Event)
    requires o(Obj(map[]), e) && e.binary == "/bin/b"
    ensures HookNotes(HookHits(TwoSelectors(), ONE_BINARY), ONE_BINARY) == [Note("binaries", true, 1, 0)]
    ensures HookHolds(HookAfter(TwoSelectors(), ONE_BINARY), o, e)
  {
    hide SelectorHolds, HookAfter, HookHolds, HookHits, HookNotes, PathIndexIn, Truthy, TwoSelectors, Filtered, Spares;
    TwoSelectorsNoted();
    HookMeaning(TwoSelectors(), ONE_BINARY, o, e);
    SecondSpares(o, e);
  }

  lemma SecondSpares(o: Oracle, e: Event)
    requires o(Obj(map[]), e) && e.binary == "/bin/b"
    ensures var index := PathIndexIn(Items(Get(TwoSelectors(), "args")));
            SomeSelectorSpares(Filtered(TwoSelectors()), ONE_BINARY, index, o, e)
  {
    hide SelectorHolds, PathIndexIn, Truthy;
    OwnFilterHolds(o, e);
    OwnFilterIsTruthy();
    assert Obj(OWN_FILTER) in Filtered(TwoSelectors());
  }

  lemma OwnFilterIsTruthy()
    ensures Truthy(Get(OWN_FILTER, "matchBinaries"))
  {
  }

  lemma TwoSelectorsNoted()
    ensures HookHits(TwoSelectors(), ONE_BINARY) == Hits(1, 0, 0, 0)
    ensures HookNotes(Hits(1, 0, 0, 0), ONE_BINARY) == [Note("binaries", true, 1, 0)]
  {
    var sels := [Obj(map[]), Obj(OWN_FILTER)];
    var none: Fields := map[];
    assert Filtered(TwoSelectors()) == sels;
    assert sels[..1] == [Obj(map[])] && sels[..1][..0] == [];
    OwnFilterIsTruthy();
    assert SelectorHits(none, ONE_BINARY, None) == Hits(1, 0, 0, 0);
    assert SelectorHits(OWN_FILTER, ONE_BINARY, None) == NO_HITS;
    assert PathIndexIn(Items(Get(TwoSelectors(), "args"))) == None;
    assert SelectorsHits(sels[..1], ONE_BINARY, None) == Hits(1, 0, 0, 0);
  }

  lemma OwnFilterHolds(o: Oracle, e: Event)
    requires o(Obj(map[]), e) && e.binary == "/bin/b"
    ensures SelectorHolds(OWN_FILTER, o, e)
  {
    var item := Obj(map["operator" := Str("In"), "values" := Arr([Str("/bin/b")])]);
    StringsMembers([Str("/bin/b")]);
    assert Items(Get(OWN_FILTER, "matchBinaries")) == [item];
    assert ReadingOf("In") == OneOf && Selectors.Hits("In", "/bin/b", e.binary);
    assert "/bin/b" in ToStrings(Field(item, "values")) && e.binary in Processes(item, e.binary, e.lineage);
    assert ClauseHolds(item, Processes(item, e.binary, e.lineage), o, e);
    assert OWN_FILTER - FILTERED == map[];
  }

  // ----- labels and containers

  predicate Apart(labels: map<string, string>, key: string, value: string) {
    key in labels ==> labels[key] != value
  }

  /** The labels carry none of the pairs. */
  predicate LabelsApart(pairs: seq<string>, labels: map<string, string>) {
    forall p :: p in pairs ==> Apart(labels, KeyValue(p).0, KeyValue(p).1)
  }

  predicate GroupsApart(entries: Grouping, labels: map<string, string>) {
    forall entry :: entry in entries ==> entry.0 in labels ==> labels[entry.0] !in entry.1
  }

  lemma {:induction false} GroupedMeaning(entries: Grouping, key: string, value: string, labels: map<string, string>)
    ensures GroupsApart(Grouped(entries, key, value), labels) <==>
            GroupsApart(entries, labels) && Apart(labels, key, value)
  {
    var after := Grouped(entries, key, value);
    if entries == [] {
      assert after == [(key, [value])];
    } else {
      var head, rest := entries[0], entries[1..];
      assert entries == [head] + rest;
      if head.0 == key {
      } else {
        GroupedMeaning(rest, key, value, labels);
      }
    }
  }

  lemma {:induction false} GroupedPairsMeaning(pairs: seq<string>, labels: map<string, string>)
    ensures GroupsApart(GroupedPairs(pairs), labels) <==> LabelsApart(pairs, labels)
  {
    hide Grouped, KeyValue;
    if pairs != [] {
      var n := |pairs| - 1;
      GroupedPairsMeaning(pairs[..n], labels);
      GroupedMeaning(GroupedPairs(pairs[..n]), KeyValue(pairs[n]).0, KeyValue(pairs[n]).1, labels);
      assert pairs == pairs[..n] + [pairs[n]];
      assert forall p :: p in pairs <==> p in pairs[..n] || p == pairs[n];
    }
  }

  ghost predicate AllHold(exprs: seq<Json>, labels: map<string, string>, o: Oracle, e: Event) {
    forall item :: item in exprs ==> ExprHolds(item, labels, o, e)
  }

  lemma LabelExprMeaning(entry: (string, seq<string>), labels: map<string, string>, o: Oracle, e: Event)
    ensures ExprHolds(LabelExpr(entry), labels, o, e) <==> (entry.0 in labels ==> labels[entry.0] !in entry.1)
  {
    hide Text.Distinct, Strings, ToAny;
    ToStringsToAny(Text.Distinct(entry.1));
    Text.DistinctMembers(entry.1);
    var item := LabelExpr(entry);
    assert StrOf(Field(item, "key")) == entry.0 && StrOf(Field(item, "operator")) == "NotIn";
  }

  lemma LabelExprsMeaning(pairs: seq<string>, labels: map<string, string>, o: Oracle, e: Event)
    ensures AllHold(LabelExprs(GroupedPairs(pairs)), labels, o, e) <==> LabelsApart(pairs, labels)
  {
    hide LabelExpr, ExprHolds, GroupedPairs, LabelsApart;
    var entries := GroupedPairs(pairs);
    var exprs := LabelExprs(entries);
    GroupedPairsMeaning(pairs, labels);
    forall i | 0 <= i < |entries|
      ensures ExprHolds(exprs[i], labels, o, e) <==> (entries[i].0 in labels ==> labels[entries[i].0] !in entries[i].1)
    {
      LabelExprMeaning(entries[i], labels, o, e);
    }
    forall i | 0 <= i < |entries| ensures exprs[i] in exprs && entries[i] in entries {
    }
    if AllHold(exprs, labels, o, e) {
      forall entry | entry in entries ensures entry.0 in labels ==> labels[entry.0] !in entry.1 {
        var i :| 0 <= i < |entries| && entries[i] == entry;
        assert exprs[i] in exprs;
      }
    }
  }

  /** A selector with more expressions admits what it admitted, where those hold too. */
  lemma WithExprsMeaning(selector: Json, exprs: seq<Json>, labels: map<string, string>, o: Oracle, e: Event)
    ensures Admits(WithExprs(selector, exprs), labels, o, e) <==>
            Admits(selector, labels, o, e) && AllHold(exprs, labels, o, e)
  {
    hide ExprHolds;
    var before := Items(Field(selector, "matchExpressions"));
    var after := Items(Field(WithExprs(selector, exprs), "matchExpressions"));
    assert after == before + exprs;
    assert forall x :: x in after <==> x in before || x in exprs;
    assert Field(WithExprs(selector, exprs), "matchLabels") == Field(selector, "matchLabels");
  }

  lemma NameExprMeaning(names: seq<string>, container: string, o: Oracle, e: Event)
    ensures AllHold([NameExpr(names)], map["name" := container], o, e) <==> container !in names
  {
    hide Text.Sorted, Strings, ToAny;
    SortedValues(names);
    var item := NameExpr(names);
    assert StrOf(Field(item, "key")) == "name" && StrOf(Field(item, "operator")) == "NotIn";
    assert item in [item];
  }

  lemma SelectorsAt(spec: Fields, ex: Excluded)
    ensures Get(SpecAfter(spec, ex), "podSelector") ==
            if ex.podLabels == [] then Get(spec, "podSelector")
            else WithExprs(Get(spec, "podSelector"), LabelExprs(GroupedPairs(ex.podLabels)))
    ensures Get(SpecAfter(spec, ex), "containerSelector") ==
            if ex.containers == [] then Get(spec, "containerSelector")
            else WithExprs(Get(spec, "containerSelector"), [NameExpr(ex.containers)])
  {
    hide WithExprs, LabelExprs, GroupedPairs, NameExpr, HooksAfter;
    assert "podSelector" !in HOOK_GROUPS && "containerSelector" !in HOOK_GROUPS;
  }

  /** Pods and containers are selected as before, without those excluded. */
  lemma SelectionMeaning(spec: Fields, ex: Excluded, o: Oracle, e: Event)
    ensures Admits(Get(SpecAfter(spec, ex), "podSelector"), e.labels, o, e) <==>
            Admits(Get(spec, "podSelector"), e.labels, o, e) && LabelsApart(ex.podLabels, e.labels)
    ensures Admits(Get(SpecAfter(spec, ex), "containerSelector"), map["name" := e.container], o, e) <==>
            Admits(Get(spec, "containerSelector"), map["name" := e.container], o, e) && e.container !in ex.containers
  {
    hide Admits, SpecAfter, WithExprs, LabelExprs, GroupedPairs, NameExpr, AllHold, KeyValue;
    SelectorsAt(spec, ex);
    var exprs := LabelExprs(GroupedPairs(ex.podLabels));
    WithExprsMeaning(Get(spec, "podSelector"), exprs, e.labels, o, e);
    LabelExprsMeaning(ex.podLabels, e.labels, o, e);
    WithExprsMeaning(Get(spec, "containerSelector"), [NameExpr(ex.containers)], map["name" := e.container], o, e);
    NameExprMeaning(ex.containers, e.container, o, e);
  }

  lemma ExclusionsKeepScope(spec: Fields, ex: Excluded)
    ensures Get(SpecAfter(spec, ex), "nodeSelector") == Get(spec, "nodeSelector")
    ensures Get(SpecAfter(spec, ex), "hostSelector") == Get(spec, "hostSelector")
  {
    hide WithExprs, LabelExprs, GroupedPairs, NameExpr, HooksAfter;
    assert "nodeSelector" !in HOOK_GROUPS && "hostSelector" !in HOOK_GROUPS;
  }

  /**
   What is left of a hook: everything if its list of selectors is empty, else what some selector matched and
   spares.
   */
  ghost predicate HookSpares(hook: Fields, ex: Excluded, o: Oracle, e: Event) {
    Get(hook, "selectors") == Arr([]) ||
      SomeSelectorSpares(Filtered(hook), ex, PathIndexIn(Items(Get(hook, "args"))), o, e)
  }

  /** The exact match set after exclusions: nothing is added, and what goes is what was excluded. */
  lemma ExclusionsMeaning(spec: Fields, ex: Excluded, group: string, i: nat, o: Oracle, e: Event)
    requires o(Obj(map[]), e) && group in {"kprobes", "tracepoints", "uprobes", "lsmhooks", "usdts"}
    ensures Fires(SpecAfter(spec, ex), group, i, o, e) <==>
      && i < |Items(Get(spec, group))|
      && ProcessSelected(spec, o, e)
      && (!e.host ==> LabelsApart(ex.podLabels, e.labels) && e.container !in ex.containers)
      && HookSpares(AsMap(Items(Get(spec, group))[i]), ex, o, e)
  {
    hide Admits, NodeSelected, HostSelected, SpecAfter, HookAfter, HookHolds, LabelsApart, SomeSelectorSpares,
         PathIndexIn;
    SelectionMeaning(spec, ex, o, e);
    ExclusionsKeepScope(spec, ex);
    GroupsAt(spec, ex, group);
    if i < |Items(Get(spec, group))| {
      HookMeaning(AsMap(Items(Get(spec, group))[i]), ex, o, e);
    }
  }

  // ----- modes and the match set

  const ACTIONS: set<string> := {"matchActions", "matchReturnActions"}

  /** A meaning of selectors that does not look at their actions. */
  ghost predicate IgnoresActions(o: Oracle) {
    forall sel: Fields, e :: o(Obj(sel), e) <==> o(Obj(sel - ACTIONS), e)
  }

  lemma SelectorModeMeaning(sel: Fields, mode: Mode, o: Oracle, e: Event)
    requires IgnoresActions(o)
    ensures SelectorHolds(SelectorMode(sel, mode), o, e) <==> SelectorHolds(sel, o, e)
  {
    hide SelectorMode, BinariesHold, ArgsHold, ActionsAfter;
    KeysApart(sel, mode);
    var after := SelectorMode(sel, mode);
    RestOfSelector(sel, mode);
    assert o(Obj(after - FILTERED), e) <==> o(Obj(after - FILTERED - ACTIONS), e);
    assert o(Obj(sel - FILTERED), e) <==> o(Obj(sel - FILTERED - ACTIONS), e);
  }

  lemma RestOfSelector(sel: Fields, mode: Mode)
    ensures SelectorMode(sel, mode) - FILTERED - ACTIONS == sel - FILTERED - ACTIONS
  {
    hide ActionsAfter;
  }

  lemma HookModeMeaning(hook: Fields, mode: Mode, o: Oracle, e: Event)
    requires IgnoresActions(o)
    ensures HookHolds(HookMode(hook, mode), o, e) <==> HookHolds(hook, o, e)
  {
    hide SelectorMode, SelectorHolds, IgnoresActions;
    var sels := Items(Get(hook, "selectors"));
    var after := SelectorsMode(sels, mode);
    if Get(hook, "selectors").Arr? {
      assert Items(Get(HookMode(hook, mode), "selectors")) == after;
      forall j | 0 <= j < |sels| ensures SelectorHolds(AsMap(after[j]), o, e) <==> SelectorHolds(AsMap(sels[j]), o, e) {
        SelectorModeMeaning(AsMap(sels[j]), mode, o, e);
      }
      if raw :| raw in after && SelectorHolds(AsMap(raw), o, e) {
        var j :| 0 <= j < |after| && after[j] == raw;
        assert sels[j] in sels;
      }
      if raw :| raw in sels && SelectorHolds(AsMap(raw), o, e) {
        var j :| 0 <= j < |sels| && sels[j] == raw;
        assert after[j] in after;
      }
    }
  }

  /** A mode changes what happens on a match, never what matches. */
  lemma ModeKeepsMatches(spec: Fields, mode: Mode, group: string, i: nat, o: Oracle, e: Event)
    requires IgnoresActions(o) && group in {"kprobes", "tracepoints", "uprobes", "lsmhooks", "usdts"}
    ensures Fires(SpecMode(spec, mode), group, i, o, e) <==> Fires(spec, group, i, o, e)
  {
    hide SpecMode, HookMode, HookHolds, Admits, NodeSelected, HostSelected, IgnoresActions;
    ModeAt(spec, mode, group);
    ModeKeepsSelection(spec, mode);
    if i < |Items(Get(spec, group))| {
      HookModeMeaning(AsMap(Items(Get(spec, group))[i]), mode, o, e);
    }
  }

  lemma ModeKeepsSelection(spec: Fields, mode: Mode)
    ensures Get(SpecMode(spec, mode), "podSelector") == Get(spec, "podSelector")
    ensures Get(SpecMode(spec, mode), "containerSelector") == Get(spec, "containerSelector")
    ensures Get(SpecMode(spec, mode), "nodeSelector") == Get(spec, "nodeSelector")
    ensures Get(SpecMode(spec, mode), "hostSelector") == Get(spec, "hostSelector")
  {
    hide HooksMode;
    assert "podSelector" !in HOOK_GROUPS && "containerSelector" !in HOOK_GROUPS;
    assert "nodeSelector" !in HOOK_GROUPS && "hostSelector" !in HOOK_GROUPS;
  }

  /** Exclusions only take events away. */
  lemma ExclusionsShrink(spec: Fields, ex: Excluded, group: string, i: nat, o: Oracle, e: Event)
    requires o(Obj(map[]), e) && group in {"kprobes", "tracepoints", "uprobes", "lsmhooks", "usdts"}
    ensures Fires(SpecAfter(spec, ex), group, i, o, e) ==> Fires(spec, group, i, o, e)
  {
    hide ProcessSelected, SpecAfter, SelectorHolds, Spares, LabelsApart, PathIndexIn;
    ExclusionsMeaning(spec, ex, group, i, o, e);
    if Fires(SpecAfter(spec, ex), group, i, o, e) {
      var hook := AsMap(Items(Get(spec, group))[i]);
      assert Get(hook, "selectors").Arr? ==> Filtered(hook) == Items(Get(hook, "selectors"));
    }
  }

  // ----- nodes and the host

  lemma ScopedSelectors(spec: Fields, nodeLabels: seq<string>, includeHost: bool)
    ensures Get(Scoped(spec, nodeLabels, includeHost), "nodeSelector") ==
            if nodeLabels == [] then Get(spec, "nodeSelector") else Obj(MatchLabels(nodeLabels))
    ensures Get(Scoped(spec, nodeLabels, includeHost), "hostSelector") ==
            if includeHost then Obj(map[]) else Get(spec, "hostSelector")
  {
    hide MatchLabels;
  }

  /** The label selector that the draft's comment speaks of: the named labels under `matchLabels`. */
  function Promised(nodeLabels: seq<string>): Json {
    Obj(map["matchLabels" := Obj(MatchLabels(nodeLabels))])
  }

  lemma {:induction false} LabelsAreText(pairs: seq<string>)
    ensures forall k :: k in MatchLabels(pairs) ==> MatchLabels(pairs)[k].Str?
  {
    if pairs != [] {
      LabelsAreText(pairs[..|pairs| - 1]);
    }
  }

  lemma {:induction false} LabelsNamed(pairs: seq<string>)
    ensures MatchLabels(pairs) == map[] <==> forall p :: p in pairs ==> '=' !in p
  {
    if pairs != [] {
      var n := |pairs| - 1;
      LabelsNamed(pairs[..n]);
      SplitPairExact(pairs[n]);
      assert pairs == pairs[..n] + [pairs[n]];
      if '=' in pairs[n] {
        assert SplitPair(pairs[n]).value.0 in MatchLabels(pairs);
        assert pairs[n] in pairs;
      }
    }
  }

  /** Labels written directly under `nodeSelector` admit every node. */
  lemma NamedNodesAdmitAll(pairs: seq<string>, labels: map<string, string>, o: Oracle, e: Event)
    ensures Admits(Obj(MatchLabels(pairs)), labels, o, e)
  {
    hide MatchLabels;
    LabelsAreText(pairs);
  }

  /** Naming nodes restricts a policy to nodes that carry the labels exactly when no label is named at all. */
  lemma NodesRestrictedExactly(pairs: seq<string>, o: Oracle, e: Event)
    ensures (forall labels :: Admits(Obj(MatchLabels(pairs)), labels, o, e) ==> Admits(Promised(pairs), labels, o, e))
       <==> forall p :: p in pairs ==> '=' !in p
  {
    hide MatchLabels;
    LabelsNamed(pairs);
    var promised := MatchLabels(pairs);
    assert AsMap(Field(Promised(pairs), "matchLabels")) == promised;
    if promised == map[] {
      assert Items(Field(Promised(pairs), "matchExpressions")) == [];
      assert forall labels :: Admits(Promised(pairs), labels, o, e);
    } else {
      NamedNodesAdmitAll(pairs, map[], o, e);
      PromisedRefuses(pairs, o, e);
    }
  }

  /** A selector that asks for nothing: no labels, and no expressions but a NotIn of no values. */
  predicate AsksNothing(selector: Json) {
    && AsMap(Field(selector, "matchLabels")) == map[]
    && forall x :: x in Items(Field(selector, "matchExpressions")) ==>
         StrOf(Field(x, "operator")) == "NotIn" && ToStrings(Field(x, "values")) == []
  }

  /** Labels that an expression does not hold of. */
  lemma RefusedLabels(x: Json, e: Event) returns (labels: map<string, string>)
    requires !(StrOf(Field(x, "operator")) == "NotIn" && ToStrings(Field(x, "values")) == [])
    ensures !ExprHolds(x, labels, (_, _) => false, e)
  {
    var key, op, values := StrOf(Field(x, "key")), StrOf(Field(x, "operator")), ToStrings(Field(x, "values"));
    if op == "NotIn" {
      labels := map[key := values[0]];
    } else if op == "DoesNotExist" {
      labels := map[key := ""];
    } else {
      labels := map[];
    }
  }

  /** These are the selectors that admit all labels, whatever the unknown operators mean. */
  lemma AdmitsAllExactly(selector: Json, e: Event)
    ensures (forall labels, o :: Admits(selector, labels, o, e)) <==> AsksNothing(selector)
  {
    hide ExprHolds;
    if AsksNothing(selector) {
      forall labels, o ensures Admits(selector, labels, o, e) {
        AsksNothingAdmits(selector, labels, o, e);
      }
    } else if AsMap(Field(selector, "matchLabels")) != map[] {
      var k :| k in AsMap(Field(selector, "matchLabels"));
      assert !Admits(selector, map[], (_, _) => false, e);
    } else {
      var x :| x in Items(Field(selector, "matchExpressions"))
        && !(StrOf(Field(x, "operator")) == "NotIn" && ToStrings(Field(x, "values")) == []);
      var labels := RefusedLabels(x, e);
      assert !Admits(selector, labels, (_, _) => false, e);
    }
  }

  lemma AsksNothingAdmits(selector: Json, labels: map<string, string>, o: Oracle, e: Event)
    requires AsksNothing(selector)
    ensures Admits(selector, labels, o, e)
  {
  }

  /** The nodes a built policy runs on: all of them once the draft names any, else upstream's. */
  ghost predicate BuiltNodes(upstream: Fields, nodeLabels: seq<string>, o: Oracle, e: Event) {
    nodeLabels != [] || NodeSelected(Get(upstream, "nodeSelector"), o, e)
  }

  /**
   Where a built policy looks, given the nodes: all of the host if that is included, and pods and containers
   not excluded.
   */
  ghost predicate BuiltProcesses(upstream: Fields, ex: Excluded, includeHost: bool, o: Oracle, e: Event) {
    && (e.host ==> includeHost || HostSelected(Get(upstream, "hostSelector"), o, e))
    && (!e.host ==>
          && Admits(Get(upstream, "podSelector"), e.labels, o, e) && LabelsApart(ex.podLabels, e.labels)
          && Admits(Get(upstream, "containerSelector"), map["name" := e.container], o, e) &&
             e.container !in ex.containers)
  }

  lemma BuiltProcess(upstream: Fields, mode: Mode, ex: Excluded, nodeLabels: seq<string>, includeHost: bool, o: Oracle,
                     e: Event)
    ensures ProcessSelected(BuiltSpec(upstream, mode, ex, nodeLabels, includeHost), o, e) <==>
            BuiltNodes(upstream, nodeLabels, o, e) && BuiltProcesses(upstream, ex, includeHost, o, e)
  {
    hide SpecMode, SpecAfter, Scoped, Admits, LabelsApart, MatchLabels;
    var moded := SpecMode(upstream, mode);
    var spared := SpecAfter(moded, ex);
    ModeKeepsSelection(upstream, mode);
    ExclusionsKeepScope(moded, ex);
    SelectionMeaning(moded, ex, o, e);
    ScopeKeepsHooks(spared, nodeLabels, includeHost);
    ScopedSelectors(spared, nodeLabels, includeHost);
    NamedNodesAdmitAll(nodeLabels, e.nodeLabels, o, e);
  }

  lemma BuiltHook(upstream: Fields, mode: Mode, ex: Excluded, nodeLabels: seq<string>, includeHost: bool,
                  group: string, i: nat, o: Oracle, e: Event)
    requires o(Obj(map[]), e) && IgnoresActions(o) &&
             group in {"kprobes", "tracepoints", "uprobes", "lsmhooks", "usdts"}
    ensures var hooks := Items(Get(upstream, group));
            var built := Items(Get(BuiltSpec(upstream, mode, ex, nodeLabels, includeHost), group));
            && |built| == |hooks|
            && (i < |hooks| ==>
                (HookHolds(AsMap(built[i]), o, e) <==> HookSpares(HookMode(AsMap(hooks[i]), mode), ex, o, e)))
            && (i < |hooks| && HookHolds(AsMap(built[i]), o, e) ==> HookHolds(AsMap(hooks[i]), o, e))
  {
    hide SpecMode, SpecAfter, Scoped, HookHolds, IgnoresActions, HookMode, HookAfter, HookSpares;
    var moded := SpecMode(upstream, mode);
    ScopeKeepsHooks(SpecAfter(moded, ex), nodeLabels, includeHost);
    GroupsAt(moded, ex, group);
    ModeAt(upstream, mode, group);
    var hooks := Items(Get(upstream, group));
    if i < |hooks| {
      HookMeaningSpares(HookMode(AsMap(hooks[i]), mode), ex, o, e);
      HookModeMeaning(AsMap(hooks[i]), mode, o, e);
    }
  }

  lemma HookMeaningSpares(hook: Fields, ex: Excluded, o: Oracle, e: Event)
    requires o(Obj(map[]), e)
    ensures HookHolds(HookAfter(hook, ex), o, e) <==> HookSpares(hook, ex, o, e)
    ensures HookSpares(hook, ex, o, e) ==> HookHolds(hook, o, e)
  {
    hide SelectorHolds, Spares, PathIndexIn, HookAfter;
    HookMeaning(hook, ex, o, e);
    assert Get(hook, "selectors").Arr? ==> Filtered(hook) == Items(Get(hook, "selectors"));
  }

  /** The exact match set of a built policy. */
  lemma BuiltMeaning(upstream: Fields, mode: Mode, ex: Excluded, nodeLabels: seq<string>, includeHost: bool,
                     group: string, i: nat, o: Oracle, e: Event)
    requires o(Obj(map[]), e) && IgnoresActions(o) &&
             group in {"kprobes", "tracepoints", "uprobes", "lsmhooks", "usdts"}
    ensures Fires(BuiltSpec(upstream, mode, ex, nodeLabels, includeHost), group, i, o, e) <==>
            && i < |Items(Get(upstream, group))|
            && BuiltNodes(upstream, nodeLabels, o, e) && BuiltProcesses(upstream, ex, includeHost, o, e)
            && HookSpares(HookMode(AsMap(Items(Get(upstream, group))[i]), mode), ex, o, e)
  {
    hide BuiltSpec, ProcessSelected, BuiltNodes, BuiltProcesses, HookSpares, HookHolds, HookMode, IgnoresActions;
    BuiltProcess(upstream, mode, ex, nodeLabels, includeHost, o, e);
    BuiltHook(upstream, mode, ex, nodeLabels, includeHost, group, i, o, e);
  }

  /**
   Where a built policy fires, upstream would fire exactly when the event is not there only for the host or
   the nodes that the draft brought in.
   */
  lemma BuiltShrinksExactly(upstream: Fields, mode: Mode, ex: Excluded, nodeLabels: seq<string>, includeHost: bool,
                            group: string, i: nat, o: Oracle, e: Event)
    requires o(Obj(map[]), e) && IgnoresActions(o) &&
             group in {"kprobes", "tracepoints", "uprobes", "lsmhooks", "usdts"}
    requires Fires(BuiltSpec(upstream, mode, ex, nodeLabels, includeHost), group, i, o, e)
    ensures Fires(upstream, group, i, o, e) <==>
            && (e.host && includeHost ==> HostSelected(Get(upstream, "hostSelector"), o, e))
            && (nodeLabels != [] ==> NodeSelected(Get(upstream, "nodeSelector"), o, e))
  {
    hide BuiltSpec, HookHolds, HookSpares, HookMode, IgnoresActions, Admits, NodeSelected, HostSelected, LabelsApart;
    BuiltProcess(upstream, mode, ex, nodeLabels, includeHost, o, e);
    BuiltHook(upstream, mode, ex, nodeLabels, includeHost, group, i, o, e);
  }

  /** The draft leaves the host and the nodes to upstream, or upstream had all of the host and every node. */
  predicate WidensNothing(upstream: Fields, nodeLabels: seq<string>, includeHost: bool) {
    && (includeHost ==> Get(upstream, "hostSelector") == Obj(map[]))
    && (nodeLabels != [] ==> AsksNothing(Get(upstream, "nodeSelector")))
  }

  /** Such a built policy fires only where the upstream policy would. */
  lemma BuiltOnlyShrinks(upstream: Fields, mode: Mode, ex: Excluded, nodeLabels: seq<string>, includeHost: bool,
                         group: string, i: nat, o: Oracle, e: Event)
    requires o(Obj(map[]), e) && IgnoresActions(o) &&
             group in {"kprobes", "tracepoints", "uprobes", "lsmhooks", "usdts"}
    requires WidensNothing(upstream, nodeLabels, includeHost)
    ensures Fires(BuiltSpec(upstream, mode, ex, nodeLabels, includeHost), group, i, o, e) ==>
              Fires(upstream, group, i, o, e)
  {
    hide BuiltSpec, Fires, IgnoresActions, Admits, AsksNothing;
    if Fires(BuiltSpec(upstream, mode, ex, nodeLabels, includeHost), group, i, o, e) {
      BuiltShrinksExactly(upstream, mode, ex, nodeLabels, includeHost, group, i, o, e);
      if nodeLabels != [] {
        AsksNothingAdmits(Get(upstream, "nodeSelector"), e.nodeLabels, o, e);
      }
    }
  }

  /** Naming nodes has one effect: it drops the node selector that upstream had. */
  lemma NamingNodesDropsSelector(upstream: Fields, mode: Mode, ex: Excluded, nodeLabels: seq<string>, includeHost: bool,
                                 group: string, i: nat, o: Oracle, e: Event)
    requires o(Obj(map[]), e) && IgnoresActions(o) &&
             group in {"kprobes", "tracepoints", "uprobes", "lsmhooks", "usdts"} && nodeLabels != []
    ensures Fires(BuiltSpec(upstream, mode, ex, nodeLabels, includeHost), group, i, o, e) <==>
            Fires(BuiltSpec(upstream - {"nodeSelector"}, mode, ex, [], includeHost), group, i, o, e)
  {
    hide BuiltSpec, Fires, IgnoresActions, HookSpares, HookMode, Admits, LabelsApart;
    var without := upstream - {"nodeSelector"};
    BuiltMeaning(upstream, mode, ex, nodeLabels, includeHost, group, i, o, e);
    BuiltMeaning(without, mode, ex, [], includeHost, group, i, o, e);
    assert "nodeSelector" !in HOOK_GROUPS;
    assert Get(without, group) == Get(upstream, group);
    AsksNothingAdmits(Null, e.nodeLabels, o, e);
  }

  const ONE_HOOK: Fields := map["kprobes" := Arr([Obj(map[])])]

  const NOTHING_EXCLUDED: Excluded := Excluded([], [], [], [], [], [])

  /**
   Including the host makes a policy fire for host processes, if upstream did not see them without a host
   selector.
   */
  lemma HostWidens(mode: Mode, o: Oracle, e: Event)
    requires o(Obj(map[]), e) && IgnoresActions(o) && e.host && !HostSelected(Null, o, e)
    ensures Fires(BuiltSpec(ONE_HOOK, mode, NOTHING_EXCLUDED, [], true), "kprobes", 0, o, e)
    ensures !Fires(ONE_HOOK, "kprobes", 0, o, e)
  {
    hide IgnoresActions, BuiltSpec, HookSpares;
    assert "kprobes" in HOOK_GROUPS;
    EmptyHookSpares(mode, o, e);
    BuiltMeaning(ONE_HOOK, mode, NOTHING_EXCLUDED, [], true, "kprobes", 0, o, e);
  }

  lemma EmptyHookSpares(mode: Mode, o: Oracle, e: Event)
    requires o(Obj(map[]), e)
    ensures HookSpares(HookMode(map[], mode), NOTHING_EXCLUDED, o, e)
  {
    hide SelectorHolds, PathIndexIn;
    var hook: Fields := map[];
    EmptySelectorHolds(o, e);
    SparesAll(NOTHING_EXCLUDED, PathIndexIn(Items(Get(hook, "args"))), e);
    assert HookMode(hook, mode) == hook && Obj(map[]) in Filtered(hook);
  }

  /** A draft for the nodes with `disk=ssd` builds a policy that fires on a node that carries no label. */
  lemma NamedNodesIgnored(mode: Mode, o: Oracle, e: Event)
    requires o(Obj(map[]), e) && IgnoresActions(o) && !e.host && e.nodeLabels == map[]
    ensures Fires(BuiltSpec(ONE_HOOK, mode, NOTHING_EXCLUDED, ["disk=ssd"], false), "kprobes", 0, o, e)
    ensures !Admits(Promised(["disk=ssd"]), e.nodeLabels, o, e)
  {
    hide *;
    NamesDisk();
    PromisedRefuses(["disk=ssd"], o, e);
    OneHookFires(mode, ["disk=ssd"], o, e);
  }

  lemma NamesDisk()
    ensures "disk=ssd" in ["disk=ssd"] && '=' in "disk=ssd" && ["disk=ssd"] != []
  {
    assert "disk=ssd"[4] == '=';
  }

  lemma PromisedRefuses(pairs: seq<string>, o: Oracle, e: Event)
    requires exists p :: p in pairs && '=' in p
    ensures !Admits(Promised(pairs), map[], o, e)
  {
    hide MatchLabels;
    LabelsNamed(pairs);
    var promised := MatchLabels(pairs);
    assert AsMap(Field(Promised(pairs), "matchLabels")) == promised;
    var k :| k in promised;
  }

  /** One hook without selectors fires for all containers on any node, if nodes are named. */
  lemma OneHookFires(mode: Mode, nodeLabels: seq<string>, o: Oracle, e: Event)
    requires o(Obj(map[]), e) && IgnoresActions(o) && !e.host && nodeLabels != []
    ensures Fires(BuiltSpec(ONE_HOOK, mode, NOTHING_EXCLUDED, nodeLabels, false), "kprobes", 0, o, e)
  {
    hide IgnoresActions, BuiltSpec, HookSpares;
    assert "kprobes" in HOOK_GROUPS;
    EmptyHookSpares(mode, o, e);
    BuiltMeaning(ONE_HOOK, mode, NOTHING_EXCLUDED, nodeLabels, false, "kprobes", 0, o, e);
  }

  /** Naming nodes replaces what upstream said about them: the policy fires on a node that upstream left out. */
  lemma NodesWiden(shipped: Json, mode: Mode, nodeLabels: seq<string>, o: Oracle, e: Event)
    requires o(Obj(map[]), e) && IgnoresActions(o) && !e.host
    requires nodeLabels != [] && !NodeSelected(shipped, o, e)
    ensures var upstream := ONE_HOOK["nodeSelector" := shipped];
            && Fires(BuiltSpec(upstream, mode, NOTHING_EXCLUDED, nodeLabels, false), "kprobes", 0, o, e)
            && !Fires(upstream, "kprobes", 0, o, e)
  {
    hide IgnoresActions, BuiltSpec, HookSpares, NodeSelected;
    var upstream := ONE_HOOK["nodeSelector" := shipped];
    assert "kprobes" in HOOK_GROUPS;
    EmptyHookSpares(mode, o, e);
    BuiltMeaning(upstream, mode, NOTHING_EXCLUDED, nodeLabels, false, "kprobes", 0, o, e);
  }

  // ----- merged exclusions

  ghost predicate UnionOf(u: seq<string>, a: seq<string>, b: seq<string>) {
    Text.StrictlySorted(u) && forall x :: x in u <==> x in a || x in b
  }

  /** Merging joins each dimension into a strictly sorted list of both, in either order. */
  lemma MergeJoins(a: Excluded, b: Excluded)
    ensures var m := MergeExclusions(a, Some(b));
            && m == MergeExclusions(b, Some(a))
            && UnionOf(m.podLabels, a.podLabels, b.podLabels) && UnionOf(m.binaries, a.binaries, b.binaries)
            && UnionOf(m.parentBinaries, a.parentBinaries, b.parentBinaries) && UnionOf(m.paths, a.paths, b.paths)
            && UnionOf(m.containers, a.containers, b.containers) && UnionOf(m.namespaces, a.namespaces, b.namespaces)
  {
    hide UnionOf, Text.Distinct;
    JoinsEitherWay(a.podLabels, b.podLabels);
    JoinsEitherWay(a.binaries, b.binaries);
    JoinsEitherWay(a.parentBinaries, b.parentBinaries);
    JoinsEitherWay(a.paths, b.paths);
    JoinsEitherWay(a.containers, b.containers);
    JoinsEitherWay(a.namespaces, b.namespaces);
  }

  lemma JoinsEitherWay(a: seq<string>, b: seq<string>)
    ensures UnionOf(Text.Distinct(a + b), a, b) && Text.Distinct(a + b) == Text.Distinct(b + a)
  {
    Text.DistinctMembers(a + b);
    Text.DistinctMembers(b + a);
    Text.MembersAgree(Text.Distinct(a + b), Text.Distinct(b + a));
    Text.StrictlySortedUnique(Text.Distinct(a + b), Text.Distinct(b + a));
  }
}
