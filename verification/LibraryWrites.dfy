/**
 Changing the objects of a cloned spec in place (libraryYaml.ts:187-215, 218-229, 271-373).

 Each method follows the source's loops over the heap. It turns the tree that a reference holds into the tree
 that the functions of Library say, and touches nothing beside it. `Rewrites` is carried from an element to its
 list and from a field to its object; the ghost parameters are the trees held on entry.

 The groups of hooks are walked as the source lists them, one after the other.
 */
module LibraryWrites {
  import opened Json
  import opened JsHeap
  import opened Library
  import opened Option

  // ----- reading an object

  function Read(h: Cells, v: Value, key: string): Value {
    Target(h, v, Key(key))
  }

  /** `Array.isArray`. */
  predicate IsList(h: Cells, v: Value) {
    v.Ref? && v.addr in h && h[v.addr].List?
  }

  function Elements(h: Cells, v: Value): seq<Value> {
    if IsList(h, v) then h[v.addr].items else []
  }

  predicate IsTruthy(v: Value) {
    v.Ref? || Truthy(v.j)
  }

  function AsText(h: Cells, v: Value, ghost j: Json): (s: string)
    requires Holds(h, v, j)
    ensures s == Coerced(j)
    decreases j
  {
    match v
    case Prim(Str(s)) => s
    case Prim(_) => ""
    case Ref(a) =>
      if IsList(h, v) && |h[a].items| == 1 then
        assert Target(h, v, At(0)) == h[a].items[0] && HasStep(j, At(0)) && Part(j, At(0)) == j.items[0];
        AsText(h, h[a].items[0], Part(j, At(0)))
      else ""
  }

  lemma ReadsAs(h: Cells, v: Value, j: Json)
    requires Holds(h, v, j)
    ensures IsList(h, v) <==> j.Arr?
    ensures |Elements(h, v)| == |Items(j)| && forall i :: 0 <= i < |Items(j)| ==>
              Elements(h, v)[i] == Target(h, v, At(i))
    ensures IsTruthy(v) <==> Truthy(j)
    ensures v.Prim? ==> v.j == j
  {
    hide Owns, PartsApart;
  }

  lemma ReadHeld(h: Cells, v: Value, m: Fields, key: string)
    requires Holds(h, v, Obj(m))
    ensures Holds(h, Read(h, v, key), Get(m, key))
  {
    hide Holds, Owns;
    PartHeld(h, v, Obj(m), Key(key));
  }

  lemma ElementHeld(h: Cells, v: Value, items: seq<Json>, i: nat)
    requires Holds(h, v, Arr(items)) && i < |items|
    ensures |Elements(h, v)| == |items| && Elements(h, v)[i] == Target(h, v, At(i)) &&
            Holds(h, Elements(h, v)[i], items[i])
  {
    hide Holds, Owns;
    PartHeld(h, v, Arr(items), At(i));
    ReadsAs(h, v, Arr(items));
  }

  // ----- writing one level down

  /** An element of a list was rewritten. */
  lemma ElementRewritten(h: Cells, g: Cells, f: Cells, v: Value, i: Json, items: seq<Json>, n: nat, c: Json)
    requires Rewrites(h, g, v, i, v, Arr(items)) && n < |items|
    requires Rewrites(g, f, Target(g, v, At(n)), items[n], Target(g, v, At(n)), c)
    ensures Rewrites(h, f, v, i, v, Arr(items[n := c]))
  {
    hide Holds, Owns, Rewrites;
    Ascend(h, g, f, v, i, Arr(items), At(n), c);
  }

  /** What a key leads to was rewritten. */
  lemma FieldRewritten(h: Cells, g: Cells, f: Cells, v: Value, i: Json, m: Fields, key: string, c: Json)
    requires Rewrites(h, g, v, i, v, Obj(m)) && key in m
    requires Rewrites(g, f, Read(g, v, key), m[key], Read(g, v, key), c)
    ensures Rewrites(h, f, v, i, v, Obj(m[key := c])) && v.Ref? && Kept(g, f, v.addr)
  {
    hide Holds, Owns, Rewrites;
    Ascend(h, g, f, v, i, Obj(m), Key(key), c);
  }

  // ----- the mode

  method ActionInPlace(heap: Heap, v: Value, ghost a: Fields, mode: Mode) returns (changed: bool)
    requires heap.Valid() && Holds(heap.cells, v, Obj(a))
    modifies heap
    ensures heap.Valid() && Rewrites(old(heap.cells), heap.cells, v, Obj(a), v, ActionAfter(Obj(a), mode))
    ensures changed <==> ActionAfter(Obj(a), mode) != Obj(a)
  {
    hide Holds, Owns, Rewrites;
    ReadHeld(heap.cells, v, a, "action");
    var action := AsText(heap.cells, Read(heap.cells, v, "action"), Get(a, "action"));
    changed := false;
    NothingRewritten(heap.cells, v, Obj(a));
    if mode == Alert && action in ENFORCE_ACTIONS {
      PostInstead(heap, v, a);
      changed := true;
    }
    if mode == Block && action == "Post" {
      heap.Put(v, Obj(a), Key("action"), Str("Sigkill"));
      changed := true;
    }
  }

  /** The action is set to Post and loses its arguments. */
  method PostInstead(heap: Heap, v: Value, ghost a: Fields)
    requires heap.Valid() && Holds(heap.cells, v, Obj(a))
    modifies heap
    ensures heap.Valid()
    ensures Rewrites(old(heap.cells), heap.cells, v, Obj(a), v,
                     Obj((a - {"argError", "argSig"})["action" := Str("Post")]))
  {
    hide Holds, Owns, Rewrites;
    ghost var b := a["action" := Str("Post")];
    heap.Put(v, Obj(a), Key("action"), Str("Post"));
    ghost var one := heap.cells;
    RewrittenIsHeld(old(heap.cells), one, v, Obj(a), v, Obj(b));
    heap.Remove(v, b, "argError");
    ghost var two := heap.cells;
    RewrittenIsHeld(one, two, v, Obj(b), v, Obj(b - {"argError"}));
    heap.Remove(v, b - {"argError"}, "argSig");
    RewritesTwice(old(heap.cells), one, two, v, Obj(a), v, Obj(b), v, Obj(b - {"argError"}));
    RewritesTwice(old(heap.cells), two, heap.cells, v, Obj(a), v, Obj(b - {"argError"}), v,
                  Obj(b - {"argError"} - {"argSig"}));
    assert b - {"argError"} - {"argSig"} == (a - {"argError", "argSig"})["action" := Str("Post")];
  }

  method ActionsInPlace(heap: Heap, v: Value, ghost actions: seq<Json>, mode: Mode) returns (changed: bool)
    requires heap.Valid() && Holds(heap.cells, v, Arr(actions)) && AllObjects(actions)
    modifies heap
    ensures heap.Valid() && Rewrites(old(heap.cells), heap.cells, v, Arr(actions), v, Arr(ActionsAfter(actions, mode)))
    ensures changed <==> ActionsAfter(actions, mode) != actions
  {
    hide Holds, Owns, Rewrites, ActionAfter, AllObjects;
    changed := false;
    NothingRewritten(heap.cells, v, Arr(actions));
    ReadsAs(heap.cells, v, Arr(actions));
    ghost var after := actions;
    for i := 0 to |Elements(heap.cells, v)|
      invariant |after| == |actions|
      invariant forall j :: 0 <= j < i ==> after[j] == ActionAfter(actions[j], mode)
      invariant forall j :: i <= j < |actions| ==> after[j] == actions[j]
      invariant heap.Valid() && Rewrites(old(heap.cells), heap.cells, v, Arr(actions), v, Arr(after))
      invariant changed <==> after != actions
    {
      ghost var before := heap.cells;
      ObjectAt(actions, i);
      RewrittenIsHeld(old(heap.cells), before, v, Arr(actions), v, Arr(after));
      ElementHeld(before, v, after, i);
      var c := ActionInPlace(heap, Elements(heap.cells, v)[i], actions[i].fields, mode);
      ElementRewritten(old(heap.cells), before, heap.cells, v, Arr(actions), after, i, ActionAfter(actions[i], mode));
      after := after[i := ActionAfter(actions[i], mode)];
      changed := changed || c;
    }
    assert after == ActionsAfter(actions, mode);
  }

  lemma HasActionsIs(sel: Fields)
    ensures HasActions(Obj(sel)) <==> Get(sel, "matchActions").Arr? || Get(sel, "matchReturnActions").Arr?
  {
    assert ACTION_KEYS == ["matchActions", "matchReturnActions"];
    assert "matchActions" in ACTION_KEYS && "matchReturnActions" in ACTION_KEYS;
    assert Field(Obj(sel), "matchActions") == Get(sel, "matchActions");
    assert Field(Obj(sel), "matchReturnActions") == Get(sel, "matchReturnActions");
  }

  lemma KeyElsewhere(sel: Fields, mode: Mode)
    ensures var one := KeyAfter(sel, "matchActions", mode);
            && Get(one, "matchReturnActions") == Get(sel, "matchReturnActions")
            && Get(KeyAfter(one, "matchReturnActions", mode), "matchActions") == Get(one, "matchActions")
  {
  }

  lemma ObjectAt(items: seq<Json>, i: nat)
    requires AllObjects(items) && i < |items|
    ensures items[i].Obj?
  {
    assert items[i] in items;
  }

  method KeyInPlace(heap: Heap, v: Value, ghost sel: Fields, key: string, mode: Mode)
    returns (changed: bool, enforceable: bool)
    requires heap.Valid() && Holds(heap.cells, v, Obj(sel)) && AllObjects(Items(Get(sel, key)))
    modifies heap
    ensures heap.Valid() && Rewrites(old(heap.cells), heap.cells, v, Obj(sel), v, Obj(KeyAfter(sel, key, mode)))
    ensures changed <==> Get(KeyAfter(sel, key, mode), key) != Get(sel, key)
    ensures changed <==> KeyAfter(sel, key, mode) != sel
    ensures enforceable <==> Get(sel, key).Arr?
  {
    hide Holds, Owns, Rewrites, ActionsAfter, AllObjects;
    changed, enforceable := false, false;
    NothingRewritten(heap.cells, v, Obj(sel));
    ReadHeld(heap.cells, v, sel, key);
    var actions := Read(heap.cells, v, key);
    ReadsAs(heap.cells, actions, Get(sel, key));
    if IsList(heap.cells, actions) {
      enforceable := true;
      changed := ActionsInPlace(heap, actions, sel[key].items, mode);
      FieldRewritten(old(heap.cells), old(heap.cells), heap.cells, v, Obj(sel), sel, key,
                     Arr(ActionsAfter(sel[key].items, mode)));
    }
  }

  method SelectorModeInPlace(heap: Heap, v: Value, ghost sel: Fields, mode: Mode)
    returns (changed: bool, enforceable: bool)
    requires heap.Valid() && Holds(heap.cells, v, Obj(sel))
    requires AllObjects(Items(Get(sel, "matchActions"))) && AllObjects(Items(Get(sel, "matchReturnActions")))
    modifies heap
    ensures heap.Valid() && Rewrites(old(heap.cells), heap.cells, v, Obj(sel), v, Obj(SelectorMode(sel, mode)))
    ensures changed <==> SelectorMode(sel, mode) != sel
    ensures enforceable <==> HasActions(Obj(sel))
  {
    hide Holds, Owns, Rewrites, HasActions, AllObjects, KeyAfter;
    KeyElsewhere(sel, mode);
    HasActionsIs(sel);
    ghost var one, two := KeyAfter(sel, "matchActions", mode), SelectorMode(sel, mode);
    var changedOne, hasOne := KeyInPlace(heap, v, sel, "matchActions", mode);
    ghost var between := heap.cells;
    RewrittenIsHeld(old(heap.cells), between, v, Obj(sel), v, Obj(one));
    var changedTwo, hasTwo := KeyInPlace(heap, v, one, "matchReturnActions", mode);
    RewritesTwice(old(heap.cells), between, heap.cells, v, Obj(sel), v, Obj(one), v, Obj(two));
    changed, enforceable := changedOne || changedTwo, hasOne || hasTwo;
  }

  method SelectorsModeInPlace(heap: Heap, v: Value, ghost sels: seq<Json>, mode: Mode)
    returns (changed: bool, enforceable: bool)
    requires heap.Valid() && Holds(heap.cells, v, Arr(sels)) && AllObjects(sels)
    requires forall sel :: sel in sels ==> WellFormedFilter(AsMap(sel))
    modifies heap
    ensures heap.Valid() && Rewrites(old(heap.cells), heap.cells, v, Arr(sels), v, Arr(SelectorsMode(sels, mode)))
    ensures changed <==> SelectorsMode(sels, mode) != sels
    ensures enforceable <==> exists sel :: sel in sels && HasActions(sel)
  {
    hide Holds, Owns, Rewrites, SelectorMode, HasActions, AllObjects;
    changed, enforceable := false, false;
    NothingRewritten(heap.cells, v, Arr(sels));
    ReadsAs(heap.cells, v, Arr(sels));
    ghost var after := sels;
    for i := 0 to |Elements(heap.cells, v)|
      invariant |after| == |sels|
      invariant forall j :: 0 <= j < i ==> after[j] == Obj(SelectorMode(AsMap(sels[j]), mode))
      invariant forall j :: i <= j < |sels| ==> after[j] == sels[j]
      invariant heap.Valid() && Rewrites(old(heap.cells), heap.cells, v, Arr(sels), v, Arr(after))
      invariant changed <==> after != sels
      invariant enforceable <==> exists j :: 0 <= j < i && HasActions(sels[j])
    {
      ghost var before := heap.cells;
      assert sels[i] in sels && WellFormedFilter(AsMap(sels[i]));
      ObjectAt(sels, i);
      RewrittenIsHeld(old(heap.cells), before, v, Arr(sels), v, Arr(after));
      ElementHeld(before, v, after, i);
      var c, e := SelectorModeInPlace(heap, Elements(heap.cells, v)[i], sels[i].fields, mode);
      ElementRewritten(old(heap.cells), before, heap.cells, v, Arr(sels), after, i,
                       Obj(SelectorMode(sels[i].fields, mode)));
      after := after[i := Obj(SelectorMode(sels[i].fields, mode))];
      changed, enforceable := changed || c, enforceable || e;
    }
    assert after == SelectorsMode(sels, mode);
  }

  method HookModeInPlace(heap: Heap, v: Value, ghost hook: Fields, mode: Mode)
    returns (changed: bool, enforceable: bool)
    requires heap.Valid() && Holds(heap.cells, v, Obj(hook)) && WellFormedHook(hook)
    modifies heap
    ensures heap.Valid() && Rewrites(old(heap.cells), heap.cells, v, Obj(hook), v, Obj(HookMode(hook, mode)))
    ensures changed <==> HookMode(hook, mode) != hook
    ensures enforceable <==> EnforceableHook(Obj(hook))
  {
    hide Holds, Owns, Rewrites, HasActions, AllObjects, WellFormedFilter, SelectorsMode;
    changed, enforceable := false, false;
    NothingRewritten(heap.cells, v, Obj(hook));
    ReadHeld(heap.cells, v, hook, "selectors");
    var selectors := Read(heap.cells, v, "selectors");
    ReadsAs(heap.cells, selectors, Get(hook, "selectors"));
    if !IsList(heap.cells, selectors) {
      return;
    }
    ghost var sels := hook["selectors"].items;
    changed, enforceable := SelectorsModeInPlace(heap, selectors, sels, mode);
    FieldRewritten(old(heap.cells), old(heap.cells), heap.cells, v, Obj(hook), hook, "selectors",
                   Arr(SelectorsMode(sels, mode)));
  }

  method HooksModeInPlace(heap: Heap, v: Value, ghost hooks: seq<Json>, mode: Mode)
    returns (changed: bool, enforceable: bool)
    requires heap.Valid() && Holds(heap.cells, v, Arr(hooks)) && WellFormedList(hooks)
    modifies heap
    ensures heap.Valid() && Rewrites(old(heap.cells), heap.cells, v, Arr(hooks), v, Arr(HooksMode(hooks, mode)))
    ensures changed <==> HooksMode(hooks, mode) != hooks
    ensures enforceable <==> exists hook :: hook in hooks && EnforceableHook(hook)
  {
    hide Holds, Owns, Rewrites, HookMode, EnforceableHook, WellFormedHook;
    changed, enforceable := false, false;
    NothingRewritten(heap.cells, v, Arr(hooks));
    ReadsAs(heap.cells, v, Arr(hooks));
    ghost var after := hooks;
    for i := 0 to |Elements(heap.cells, v)|
      invariant |after| == |hooks|
      invariant forall j :: 0 <= j < i ==> after[j] == Obj(HookMode(AsMap(hooks[j]), mode))
      invariant forall j :: i <= j < |hooks| ==> after[j] == hooks[j]
      invariant heap.Valid() && Rewrites(old(heap.cells), heap.cells, v, Arr(hooks), v, Arr(after))
      invariant changed <==> after != hooks
      invariant enforceable <==> exists j :: 0 <= j < i && EnforceableHook(hooks[j])
    {
      ghost var before := heap.cells;
      assert hooks[i] in hooks;
      RewrittenIsHeld(old(heap.cells), before, v, Arr(hooks), v, Arr(after));
      ElementHeld(before, v, after, i);
      var c, e := HookModeInPlace(heap, Elements(heap.cells, v)[i], hooks[i].fields, mode);
      ElementRewritten(old(heap.cells), before, heap.cells, v, Arr(hooks), after, i,
                       Obj(HookMode(hooks[i].fields, mode)));
      after := after[i := Obj(HookMode(hooks[i].fields, mode))];
      changed, enforceable := changed || c, enforceable || e;
    }
    assert after == HooksMode(hooks, mode);
  }

  // ----- group by group

  /** The groups seen so far are rewritten, the rest of the spec is not. */
  ghost predicate UpTo(after: Fields, before: Fields, rewrite: seq<Json> -> seq<Json>, n: nat)
    requires n <= |HOOK_GROUPS|
  {
    && after.Keys == before.Keys
    && forall k :: k in before ==>
         after[k] == if k in HOOK_GROUPS[..n] && before[k].Arr? then Arr(rewrite(before[k].items)) else before[k]
  }

  lemma UpToNone(before: Fields, rewrite: seq<Json> -> seq<Json>)
    ensures UpTo(before, before, rewrite, 0)
  {
  }

  lemma UpToAll(after: Fields, before: Fields, rewrite: seq<Json> -> seq<Json>)
    requires UpTo(after, before, rewrite, |HOOK_GROUPS|)
    ensures after == WithHooks(before, rewrite)
  {
    assert HOOK_GROUPS[..|HOOK_GROUPS|] == HOOK_GROUPS;
  }

  lemma UpToOneMore(after: Fields, before: Fields, rewrite: seq<Json> -> seq<Json>, n: nat)
    requires n < |HOOK_GROUPS| && UpTo(after, before, rewrite, n)
    ensures var g := HOOK_GROUPS[n];
            && Get(after, g) == Get(before, g)
            && UpTo(if Get(before, g).Arr? then after[g := Arr(rewrite(Get(before, g).items))] else after,
                    before, rewrite, n + 1)
  {
  }

  ghost predicate EnforceableUpTo(spec: Fields, n: nat)
    requires n <= |HOOK_GROUPS|
  {
    exists m, hook :: 0 <= m < n && hook in Items(Get(spec, HOOK_GROUPS[m])) && EnforceableHook(hook)
  }

  lemma EnforceableOneMore(spec: Fields, n: nat)
    requires n < |HOOK_GROUPS|
    ensures EnforceableUpTo(spec, n + 1) <==>
            EnforceableUpTo(spec, n) || exists hook :: hook in Items(Get(spec, HOOK_GROUPS[n])) && EnforceableHook(hook)
  {
    hide EnforceableHook;
  }

  lemma EnforceableNone(spec: Fields)
    ensures !EnforceableUpTo(spec, 0)
  {
    hide EnforceableHook;
  }

  lemma EnforceableAll(spec: Fields)
    ensures EnforceableUpTo(spec, |HOOK_GROUPS|) <==> Enforceable(spec)
  {
    hide EnforceableHook;
    if g, hook :| g in HOOK_GROUPS && hook in Items(Get(spec, g)) && EnforceableHook(hook) {
      var m :| 0 <= m < |HOOK_GROUPS| && HOOK_GROUPS[m] == g;
      assert hook in Items(Get(spec, HOOK_GROUPS[m]));
    }
  }

  method ApplyMode(heap: Heap, v: Value, ghost spec: Fields, mode: Mode) returns (changed: bool, enforceable: bool)
    requires heap.Valid() && Holds(heap.cells, v, Obj(spec)) && WellFormed(spec)
    modifies heap
    ensures heap.Valid() && Rewrites(old(heap.cells), heap.cells, v, Obj(spec), v, Obj(SpecMode(spec, mode)))
    ensures v.Ref? && Kept(old(heap.cells), heap.cells, v.addr)
    ensures changed <==> SpecMode(spec, mode) != spec
    ensures enforceable <==> Enforceable(spec)
  {
    hide Holds, Owns, Rewrites, HooksMode, WellFormedList, EnforceableHook, EnforceableUpTo, UpTo, WellFormedSelector,
         WithHooks;
    changed, enforceable := false, false;
    ghost var rewrite := hooks => HooksMode(hooks, mode);
    ghost var after := spec;
    HeldIsShaped(heap.cells, v, Obj(spec));
    NothingRewritten(heap.cells, v, Obj(spec));
    UpToNone(spec, rewrite);
    EnforceableNone(spec);
    for n := 0 to |HOOK_GROUPS|
      invariant UpTo(after, spec, rewrite, n)
      invariant heap.Valid() && Rewrites(old(heap.cells), heap.cells, v, Obj(spec), v, Obj(after))
      invariant Kept(old(heap.cells), heap.cells, v.addr)
      invariant changed <==> after != spec
      invariant enforceable <==> EnforceableUpTo(spec, n)
    {
      ghost var before := heap.cells;
      var g := HOOK_GROUPS[n];
      UpToOneMore(after, spec, rewrite, n);
      EnforceableOneMore(spec, n);
      RewrittenIsHeld(old(heap.cells), before, v, Obj(spec), v, Obj(after));
      ReadHeld(before, v, after, g);
      var list := Read(heap.cells, v, g);
      ReadsAs(before, list, Get(after, g));
      if IsList(heap.cells, list) {
        assert g in HOOK_GROUPS && WellFormedList(Items(Get(spec, g)));
        var c, e := HooksModeInPlace(heap, list, after[g].items, mode);
        FieldRewritten(old(heap.cells), before, heap.cells, v, Obj(spec), after, g,
                       Arr(HooksMode(after[g].items, mode)));
        after := after[g := Arr(HooksMode(after[g].items, mode))];
        changed, enforceable := changed || c, enforceable || e;
      }
    }
    UpToAll(after, spec, rewrite);
    EnforceableAll(spec);
  }

  // ----- the exclusions

  method PathArgIndex(h: Cells, v: Value, ghost args: Json) returns (index: Option<int>)
    requires Holds(h, v, args) && AllObjects(Items(args))
    ensures forall i: nat :: FirstPathArg(Items(args), i) ==> index == Some(Field(Items(args)[i], "index").n)
    ensures (forall i: nat :: !FirstPathArg(Items(args), i)) ==> index == None
    ensures index == PathIndexIn(Items(args))
  {
    hide Coerced, PathIndexIn, Holds, Owns, AllObjects;
    PathIndexIsFirst(Items(args));
    ReadsAs(h, v, args);
    for i := 0 to |Elements(h, v)|
      invariant forall j :: 0 <= j < i ==> !PathArg(Items(args)[j])
    {
      ElementHeld(h, v, args.items, i);
      ObjectAt(args.items, i);
      var a := Elements(h, v)[i];
      ReadHeld(h, a, args.items[i].fields, "type");
      ReadHeld(h, a, args.items[i].fields, "index");
      var t := AsText(h, Read(h, a, "type"), Field(args.items[i], "type"));
      if t == "file" || t == "string" || t == "fd" || t == "path" {
        var idx := Read(h, a, "index");
        ReadsAs(h, idx, Field(args.items[i], "index"));
        if idx.Prim? && idx.j.Num? {
          assert FirstPathArg(Items(args), i);
          return Some(idx.j.n);
        }
        NumberIsPrim(h, idx, Field(args.items[i], "index"));
      }
    }
    return None;
  }

  lemma NumberIsPrim(h: Cells, v: Value, j: Json)
    requires Holds(h, v, j)
    ensures v.Prim? && v.j.Num? <==> j.Num?
  {
  }

  /** `existing.some((m) => m.index === idx)`. */
  method ConstrainsIndex(h: Cells, v: Value, ghost args: Json, index: int) returns (found: bool)
    requires Holds(h, v, args) && AllObjects(Items(args))
    ensures found <==> Constrains(args, index)
  {
    hide Holds, Owns, AllObjects;
    ReadsAs(h, v, args);
    for i := 0 to |Elements(h, v)|
      invariant forall j :: 0 <= j < i ==> Field(Items(args)[j], "index") != Num(index)
    {
      ElementHeld(h, v, args.items, i);
      ObjectAt(args.items, i);
      var a := Elements(h, v)[i];
      ReadHeld(h, a, args.items[i].fields, "index");
      HeldIsShaped(h, Read(h, a, "index"), Field(args.items[i], "index"));
      if Read(h, a, "index") == Prim(Num(index)) {
        ReadsAs(h, Read(h, a, "index"), Field(args.items[i], "index"));
        assert args.items[i] in Items(args);
        return true;
      }
    }
    return false;
  }

  /** A literal is assigned to a key. */
  method FieldPut(heap: Heap, v: Value, ghost h: Cells, ghost before: Fields, ghost sel: Fields, key: string,
                  literal: Json)
    requires heap.Valid() && Rewrites(h, heap.cells, v, Obj(before), v, Obj(sel))
    modifies heap
    ensures heap.Valid() && Rewrites(h, heap.cells, v, Obj(before), v, Obj(sel[key := literal]))
  {
    hide Holds, Owns, Rewrites;
    ghost var now := heap.cells;
    RewrittenIsHeld(h, now, v, Obj(before), v, Obj(sel));
    heap.Put(v, Obj(sel), Key(key), literal);
    RewritesTwice(h, now, heap.cells, v, Obj(before), v, Obj(sel), v, Obj(sel[key := literal]));
  }

  /** A list of a selector is replaced by its elements and one more. */
  method ListExtended(heap: Heap, v: Value, ghost h: Cells, ghost before: Fields, ghost sel: Fields, key: string,
                      x: Json)
    requires heap.Valid() && Rewrites(h, heap.cells, v, Obj(before), v, Obj(sel))
    requires Get(sel, key).Null? || Get(sel, key).Arr?
    modifies heap
    ensures heap.Valid() && Rewrites(h, heap.cells, v, Obj(before), v, Obj(sel[key := Append(Get(sel, key), x)]))
  {
    hide Holds, Owns, Rewrites;
    ghost var now, list := heap.cells, Append(Get(sel, key), x);
    RewrittenIsHeld(h, now, v, Obj(before), v, Obj(sel));
    ReadHeld(now, v, sel, key);
    var w := heap.Extended(Read(heap.cells, v, key), Get(sel, key), [x]);
    heap.Assign(now, v, Obj(sel), Key(key), w, list);
    RewritesTwice(h, now, heap.cells, v, Obj(before), v, Obj(sel), v, Obj(sel[key := list]));
  }

  method SelectorInPlace(heap: Heap, v: Value, ghost sel: Fields, ex: Excluded, index: Option<int>) returns (hits: Hits)
    requires heap.Valid() && Holds(heap.cells, v, Obj(sel)) && WellFormedFilter(sel)
    modifies heap
    ensures heap.Valid() && Rewrites(old(heap.cells), heap.cells, v, Obj(sel), v, Obj(SelectorAfter(sel, ex, index)))
    ensures hits == SelectorHits(sel, ex, index)
  {
    hide Holds, Owns, Rewrites, Truthy, BinaryClause, ParentClause, PathClause, Constrains, AllObjects;
    ghost var h, r := heap.cells, sel;
    hits := NO_HITS;
    NothingRewritten(h, v, Obj(sel));
    if ex.binaries != [] && !TruthyAt(heap.cells, v, sel, "matchBinaries") {
      FieldPut(heap, v, h, sel, r, "matchBinaries", Arr([BinaryClause(ex.binaries)]));
      r := r["matchBinaries" := Arr([BinaryClause(ex.binaries)])];
      hits := hits.(binaries := 1);
    }
    RewrittenIsHeld(h, heap.cells, v, Obj(sel), v, Obj(r));
    if ex.parentBinaries != [] && !TruthyAt(heap.cells, v, r, "matchParentBinaries") {
      FieldPut(heap, v, h, sel, r, "matchParentBinaries", Arr([ParentClause(ex.parentBinaries)]));
      r := r["matchParentBinaries" := Arr([ParentClause(ex.parentBinaries)])];
      hits := hits.(parents := 1);
    }
    RewrittenIsHeld(h, heap.cells, v, Obj(sel), v, Obj(r));
    if ex.paths != [] {
      if index == None {
        hits := hits.(misses := 1);
      } else {
        ReadHeld(heap.cells, v, r, "matchArgs");
        var constrained := ConstrainsIndex(heap.cells, Read(heap.cells, v, "matchArgs"), Get(r, "matchArgs"),
                                           index.value);
        if constrained {
          hits := hits.(misses := 1);
        } else {
          ListExtended(heap, v, h, sel, r, "matchArgs", PathClause(index.value, ex.paths));
          hits := hits.(paths := 1);
        }
      }
    }
  }

  /** What the key leads to is truthy. */
  function TruthyAt(h: Cells, v: Value, ghost m: Fields, key: string): (b: bool)
    requires Holds(h, v, Obj(m))
    ensures b <==> Truthy(Get(m, key))
  {
    hide Holds, Truthy;
    ReadHeld(h, v, m, key);
    ReadsAs(h, Read(h, v, key), Get(m, key));
    IsTruthy(Read(h, v, key))
  }

  method SelectorsInPlace(heap: Heap, v: Value, ghost sels: seq<Json>, ex: Excluded, index: Option<int>)
    returns (hits: Hits)
    requires heap.Valid() && Holds(heap.cells, v, Arr(sels)) && AllObjects(sels)
    requires forall sel :: sel in sels ==> WellFormedFilter(AsMap(sel))
    modifies heap
    ensures heap.Valid() && Rewrites(old(heap.cells), heap.cells, v, Arr(sels), v, Arr(SelectorsAfter(sels, ex, index)))
    ensures hits == SelectorsHits(sels, ex, index)
  {
    hide Holds, Owns, Rewrites, SelectorAfter, SelectorHits, AllObjects, WellFormedFilter;
    hits := NO_HITS;
    NothingRewritten(heap.cells, v, Arr(sels));
    ReadsAs(heap.cells, v, Arr(sels));
    ghost var after := sels;
    for i := 0 to |Elements(heap.cells, v)|
      invariant |after| == |sels|
      invariant forall j :: 0 <= j < i ==> after[j] == Obj(SelectorAfter(AsMap(sels[j]), ex, index))
      invariant forall j :: i <= j < |sels| ==> after[j] == sels[j]
      invariant heap.Valid() && Rewrites(old(heap.cells), heap.cells, v, Arr(sels), v, Arr(after))
      invariant hits == SelectorsHits(sels[..i], ex, index)
    {
      ghost var before := heap.cells;
      assert sels[i] in sels && WellFormedFilter(AsMap(sels[i]));
      ObjectAt(sels, i);
      RewrittenIsHeld(old(heap.cells), before, v, Arr(sels), v, Arr(after));
      ElementHeld(before, v, after, i);
      var h := SelectorInPlace(heap, Elements(heap.cells, v)[i], sels[i].fields, ex, index);
      ElementRewritten(old(heap.cells), before, heap.cells, v, Arr(sels), after, i,
                       Obj(SelectorAfter(sels[i].fields, ex, index)));
      after := after[i := Obj(SelectorAfter(sels[i].fields, ex, index))];
      hits := hits.Plus(h);
      assert sels[..i + 1][..i] == sels[..i];
    }
    assert sels[..|sels|] == sels;
    assert after == SelectorsAfter(sels, ex, index);
  }

  method HookInPlace(heap: Heap, v: Value, ghost hook: Fields, ex: Excluded) returns (hits: Hits)
    requires heap.Valid() && Holds(heap.cells, v, Obj(hook)) && WellFormedHook(hook)
    modifies heap
    ensures heap.Valid() && Rewrites(old(heap.cells), heap.cells, v, Obj(hook), v, Obj(HookAfter(hook, ex)))
    ensures hits == HookHits(hook, ex)
  {
    hide Holds, Owns, Rewrites, SelectorsAfter, SelectorsHits, PathIndexIn, WellFormedFilter, AllObjects;
    ghost var h, r := heap.cells, hook;
    NothingRewritten(h, v, Obj(hook));
    ReadHeld(h, v, hook, "selectors");
    ReadsAs(h, Read(h, v, "selectors"), Get(hook, "selectors"));
    EmptySelectorFits();
    if !IsList(heap.cells, Read(heap.cells, v, "selectors")) {
      if ex.binaries == [] && ex.parentBinaries == [] && ex.paths == [] {
        return NO_HITS;
      }
      FieldPut(heap, v, h, hook, hook, "selectors", Arr([Obj(map[])]));
      r := hook["selectors" := Arr([Obj(map[])])];
    }
    ghost var now := heap.cells;
    RewrittenIsHeld(h, now, v, Obj(hook), v, Obj(r));
    ReadHeld(now, v, r, "args");
    var index := PathArgIndex(heap.cells, Read(heap.cells, v, "args"), Get(r, "args"));
    ReadHeld(now, v, r, "selectors");
    hits := SelectorsInPlace(heap, Read(heap.cells, v, "selectors"), r["selectors"].items, ex, index);
    FieldRewritten(h, now, heap.cells, v, Obj(hook), r, "selectors",
                   Arr(SelectorsAfter(r["selectors"].items, ex, index)));
    assert r["selectors" := Arr(SelectorsAfter(Filtered(hook), ex, index))] ==
        hook["selectors" := Arr(SelectorsAfter(Filtered(hook), ex, index))];
  }

  lemma EmptySelectorFits()
    ensures AllObjects([Obj(map[])]) && WellFormedFilter(AsMap(Obj(map[])))
  {
  }

  method HooksInPlace(heap: Heap, v: Value, ghost hooks: seq<Json>, ex: Excluded) returns (hits: Hits)
    requires heap.Valid() && Holds(heap.cells, v, Arr(hooks)) && WellFormedList(hooks)
    modifies heap
    ensures heap.Valid() && Rewrites(old(heap.cells), heap.cells, v, Arr(hooks), v, Arr(HooksAfter(hooks, ex)))
    ensures hits == HooksHits(hooks, ex)
  {
    hide Holds, Owns, Rewrites, HookAfter, HookHits, WellFormedHook;
    hits := NO_HITS;
    NothingRewritten(heap.cells, v, Arr(hooks));
    ReadsAs(heap.cells, v, Arr(hooks));
    ghost var after := hooks;
    for i := 0 to |Elements(heap.cells, v)|
      invariant |after| == |hooks|
      invariant forall j :: 0 <= j < i ==> after[j] == Obj(HookAfter(AsMap(hooks[j]), ex))
      invariant forall j :: i <= j < |hooks| ==> after[j] == hooks[j]
      invariant heap.Valid() && Rewrites(old(heap.cells), heap.cells, v, Arr(hooks), v, Arr(after))
      invariant hits == HooksHits(hooks[..i], ex)
    {
      ghost var before := heap.cells;
      assert hooks[i] in hooks;
      RewrittenIsHeld(old(heap.cells), before, v, Arr(hooks), v, Arr(after));
      ElementHeld(before, v, after, i);
      var h := HookInPlace(heap, Elements(heap.cells, v)[i], hooks[i].fields, ex);
      ElementRewritten(old(heap.cells), before, heap.cells, v, Arr(hooks), after, i,
                       Obj(HookAfter(hooks[i].fields, ex)));
      after := after[i := Obj(HookAfter(hooks[i].fields, ex))];
      hits := hits.Plus(h);
      assert hooks[..i + 1][..i] == hooks[..i];
    }
    assert hooks[..|hooks|] == hooks;
    assert after == HooksAfter(hooks, ex);
  }

  lemma {:induction false} SameGroupsSameHits(a: Fields, b: Fields, groups: seq<string>, ex: Excluded)
    requires forall g :: g in groups ==> Get(a, g) == Get(b, g)
    ensures GroupsHits(a, groups, ex) == GroupsHits(b, groups, ex)
  {
    hide HooksHits;
    if groups != [] {
      assert groups[|groups| - 1] in groups;
      SameGroupsSameHits(a, b, groups[..|groups| - 1], ex);
    }
  }

  lemma GroupsHitsGrow(spec: Fields, groups: seq<string>, n: nat, ex: Excluded)
    requires n < |groups|
    ensures GroupsHits(spec, groups[..n + 1], ex) ==
            if Get(spec, groups[n]).Arr?
            then GroupsHits(spec, groups[..n], ex).Plus(HooksHits(Get(spec, groups[n]).items, ex))
            else GroupsHits(spec, groups[..n], ex)
  {
    hide HooksHits;
    assert groups[..n + 1][..n] == groups[..n];
    NothingHit(ex);
  }

  lemma NothingHit(ex: Excluded)
    ensures HooksHits([], ex) == NO_HITS && forall h: Hits :: h.Plus(NO_HITS) == h
  {
  }

  /** `spec[key] = {...existing, matchExpressions: [...old, ...exprs]}`. */
  method SelectorExtended(heap: Heap, v: Value, ghost spec: Fields, key: string, exprs: seq<Json>)
    requires heap.Valid() && Holds(heap.cells, v, Obj(spec)) && WellFormedSelector(Get(spec, key))
    modifies heap
    ensures heap.Valid()
    ensures Rewrites(old(heap.cells), heap.cells, v, Obj(spec), v, Obj(spec[key := WithExprs(Get(spec, key), exprs)]))
  {
    hide Holds, Owns, Rewrites;
    ghost var sel, h := Get(spec, key), heap.cells;
    ghost var m, list := Obj(AsMap(sel)), Arr(Items(Field(sel, "matchExpressions")) + exprs);
    var existing := Read(heap.cells, v, key);
    ReadHeld(h, v, spec, key);
    HeldIsShaped(h, existing, sel);
    var c;
    if existing == Prim(Null) {
      c := heap.New(Obj(map[]));
      CreatedInPlaceOf(h, heap.cells, existing, sel, c, m);
    } else {
      c := heap.Spread(existing, sel);
    }
    ghost var g := heap.cells;
    RewrittenIsHeld(h, g, existing, sel, c, m);
    ReadHeld(g, c, AsMap(sel), "matchExpressions");
    var exprsNow := heap.Extended(Read(heap.cells, c, "matchExpressions"), Field(sel, "matchExpressions"), exprs);
    heap.Assign(g, c, m, Key("matchExpressions"), exprsNow, list);
    RewritesTwice(h, g, heap.cells, existing, sel, c, m, c, WithExprs(sel, exprs));
    heap.Assign(h, v, Obj(spec), Key(key), c, WithExprs(sel, exprs));
  }

  /** The pod and container selectors. */
  method SelectInPlace(heap: Heap, v: Value, ghost spec: Fields, ex: Excluded) returns (notes: seq<Note>)
    requires heap.Valid() && Holds(heap.cells, v, Obj(spec))
    requires WellFormedSelector(Get(spec, "podSelector")) && WellFormedSelector(Get(spec, "containerSelector"))
    modifies heap
    ensures heap.Valid() && Rewrites(old(heap.cells), heap.cells, v, Obj(spec), v, Obj(SelectorsIn(spec, ex)))
    ensures notes == SelectorNotes(ex)
  {
    hide Holds, Owns, Rewrites, WithExprs, LabelExprs, GroupedPairs, NameExpr;
    ghost var h, r := heap.cells, spec;
    notes := [];
    NothingRewritten(h, v, Obj(spec));
    if ex.podLabels != [] {
      var exprs := LabelSelector(ex.podLabels);
      SelectorExtended(heap, v, spec, "podSelector", exprs);
      r := spec["podSelector" := WithExprs(Get(spec, "podSelector"), exprs)];
      notes := notes + [Note("podLabels", true, |ex.podLabels|, 0)];
    }
    if ex.containers != [] {
      ghost var now := heap.cells;
      RewrittenIsHeld(h, now, v, Obj(spec), v, Obj(r));
      SelectorExtended(heap, v, r, "containerSelector", [NameExpr(ex.containers)]);
      RewritesTwice(h, now, heap.cells, v, Obj(spec), v, Obj(r), v, Obj(SelectorsIn(spec, ex)));
      notes := notes + [Note("containers", true, |ex.containers|, 0)];
    }
  }

  /** The hooks of every group. */
  method FilterInPlace(heap: Heap, v: Value, ghost spec: Fields, ex: Excluded) returns (hits: Hits)
    requires heap.Valid() && Holds(heap.cells, v, Obj(spec)) && WellFormedHooks(spec)
    modifies heap
    ensures heap.Valid() && Rewrites(old(heap.cells), heap.cells, v, Obj(spec), v, Obj(GroupsAfter(spec, ex)))
    ensures hits == GroupsHits(spec, HOOK_GROUPS, ex)
  {
    hide Holds, Owns, Rewrites, HooksAfter, HooksHits, WellFormedHook, UpTo, WithHooks;
    ghost var rewrite := hooks => HooksAfter(hooks, ex);
    ghost var after := spec;
    NothingRewritten(heap.cells, v, Obj(spec));
    UpToNone(spec, rewrite);
    hits := NO_HITS;
    for n := 0 to |HOOK_GROUPS|
      invariant UpTo(after, spec, rewrite, n)
      invariant heap.Valid() && Rewrites(old(heap.cells), heap.cells, v, Obj(spec), v, Obj(after))
      invariant hits == GroupsHits(spec, HOOK_GROUPS[..n], ex)
    {
      ghost var before := heap.cells;
      var g := HOOK_GROUPS[n];
      UpToOneMore(after, spec, rewrite, n);
      GroupsHitsGrow(spec, HOOK_GROUPS, n, ex);
      RewrittenIsHeld(old(heap.cells), before, v, Obj(spec), v, Obj(after));
      ReadHeld(before, v, after, g);
      var list := Read(heap.cells, v, g);
      ReadsAs(before, list, Get(after, g));
      if IsList(heap.cells, list) {
        assert g in HOOK_GROUPS;
        var h := HooksInPlace(heap, list, after[g].items, ex);
        FieldRewritten(old(heap.cells), before, heap.cells, v, Obj(spec), after, g,
                       Arr(HooksAfter(after[g].items, ex)));
        after := after[g := Arr(HooksAfter(after[g].items, ex))];
        hits := hits.Plus(h);
      }
    }
    UpToAll(after, spec, rewrite);
    assert HOOK_GROUPS[..|HOOK_GROUPS|] == HOOK_GROUPS;
  }

  method ApplyExclusions(heap: Heap, v: Value, ghost spec: Fields, ex: Excluded) returns (notes: seq<Note>)
    requires heap.Valid() && Holds(heap.cells, v, Obj(spec)) && WellFormed(spec)
    modifies heap
    ensures heap.Valid() && Rewrites(old(heap.cells), heap.cells, v, Obj(spec), v, Obj(SpecAfter(spec, ex)))
    ensures notes == NotesFor(spec, ex)
  {
    hide Holds, Owns, Rewrites, GroupsAfter, SelectorsIn, GroupsHits, WellFormedHooks, HookNotes, WellFormedSelector;
    ghost var h, r := heap.cells, SelectorsIn(spec, ex);
    SelectorsKeepGroups(spec, ex);
    SameGroupsSameHits(r, spec, HOOK_GROUPS, ex);
    notes := SelectInPlace(heap, v, spec, ex);
    ghost var now := heap.cells;
    RewrittenIsHeld(h, now, v, Obj(spec), v, Obj(r));
    var hits := FilterInPlace(heap, v, r, ex);
    RewritesTwice(h, now, heap.cells, v, Obj(spec), v, Obj(r), v, Obj(SpecAfter(spec, ex)));
    notes := notes + HookNotes(hits, ex);
  }
}
