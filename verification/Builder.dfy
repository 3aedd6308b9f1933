/**
 Assembling the selected policies into objects (frontend/src/lib/libraryYaml.ts:120-163, 376-455):
 a name of its own for each, and a spec of its own for each namespace.
 */
module Builder {
  import opened Json
  import opened JsHeap
  import opened Library
  import opened LibraryWrites
  import opened Option
  import Sorting
  import Text

  /** The spec is a reference into the heap. */
  datatype LibraryPolicy = LibraryPolicy(
    id: string, name: string, section: string, source: string, summary: string, url: string, spec: Value)

  /** `ids` are the keys of the selection in the order the program lists them. */
  datatype Draft = Draft(
    scopeNamespaces: seq<string>, includeHost: bool, nodeLabels: seq<string>, ids: seq<string>,
    selection: map<string, Mode>, exclusions: Excluded, policyExclusions: map<string, Excluded>)
  {
    /** The keys of a record are listed once each. */
    ghost predicate Valid() {
      && (forall id :: id in ids <==> id in selection)
      && (forall i, j :: 0 <= i < j < |ids| ==> ids[i] != ids[j])
    }
  }

  type Catalogue = map<string, LibraryPolicy>

  datatype Meta = Meta(
    name: string, category: string, source: string, action: string, description: string, upstream: Option<string>)

  datatype ApiObject = ApiObject(kind: string, meta: Meta, namespace_: Option<string>, spec: Value)

  datatype Built = Built(
    policy: LibraryPolicy, mode: Mode, objects: seq<ApiObject>, notes: seq<Note>,
    modeChanged: bool, notEnforceable: bool, renamedFrom: Option<string>)

  function EffectiveExclusions(draft: Draft, id: string): Excluded {
    MergeExclusions(draft.exclusions, if id in draft.policyExclusions then Some(draft.policyExclusions[id]) else None)
  }

  // ----- names

  /** The name of the i-th policy: its own, or its own and how many have had it so far. */
  function NameAt(names: seq<string>, i: nat): string
    requires i < |names|
  {
    var seen := multiset(names[..i])[names[i]];
    if seen == 0 then names[i] else names[i] + "-" + Text.Digits(seen + 1)
  }

  /** No selected name is another one with a number of its repetitions after it. */
  ghost predicate NoNameIsNumbered(names: seq<string>) {
    forall a, k: nat :: 2 <= k <= multiset(names)[a] ==> a + "-" + Text.Digits(k) !in names
  }

  lemma OneMoreName(names: seq<string>, i: nat)
    requires i < |names|
    ensures multiset(names[..i + 1]) == multiset(names[..i]) + multiset{names[i]}
  {
    assert names[..i + 1] == names[..i] + [names[i]];
  }

  lemma {:induction false} PrefixCounts(names: seq<string>, i: nat, j: nat, a: string)
    requires i <= j <= |names|
    ensures multiset(names[..i])[a] <= multiset(names[..j])[a] <= multiset(names)[a]
    decreases |names| - i
  {
    if i < j {
      PrefixCounts(names, i + 1, j, a);
      OneMoreName(names, i);
    } else if j < |names| {
      PrefixCounts(names, j + 1, j + 1, a);
      OneMoreName(names, j);
    } else {
      assert names[..j] == names;
    }
  }

  /** An earlier policy of the same name has been counted. */
  lemma SeenBefore(names: seq<string>, i: nat, j: nat)
    requires i < j < |names| && names[i] == names[j]
    ensures multiset(names[..i])[names[i]] < multiset(names[..j])[names[j]]
  {
    OneMoreName(names, i);
    PrefixCounts(names, i + 1, j, names[i]);
  }

  lemma SeenNow(names: seq<string>, i: nat)
    requires i < |names|
    ensures multiset(names[..i])[names[i]] < multiset(names)[names[i]]
  {
    OneMoreName(names, i);
    PrefixCounts(names, i + 1, i + 1, names[i]);
  }

  lemma NoDashInDigits(a: string, d: string, i: nat)
    requires Text.AllDigits(d) && |a| < i <= |a| + |d|
    ensures (a + "-" + d)[i] != '-'
  {
    assert (a + "-" + d)[i] == d[i - |a| - 1];
  }

  lemma SplitAtLastDash(a: string, d: string, b: string, e: string)
    requires Text.AllDigits(d) && Text.AllDigits(e) && a + "-" + d == b + "-" + e
    ensures a == b && d == e
  {
    var s := a + "-" + d;
    assert s[|a|] == '-' && s[|b|] == '-';
    if |a| < |b| {
      NoDashInDigits(a, d, |b|);
    } else if |b| < |a| {
      NoDashInDigits(b, e, |a|);
    } else {
      assert a == s[..|a|] == b;
      assert d == s[|a| + 1..] == e;
    }
  }

  lemma SameNumberedName(names: seq<string>, i: nat, j: nat)
    requires i < j < |names| && NoNameIsNumbered(names)
    ensures NameAt(names, i) != NameAt(names, j)
  {
    var a, b := names[i], names[j];
    var s, t := multiset(names[..i])[a], multiset(names[..j])[b];
    SeenNow(names, i);
    SeenNow(names, j);
    if a == b {
      SeenBefore(names, i, j);
      if s > 0 && NameAt(names, i) == NameAt(names, j) {
        SplitAtLastDash(a, Text.Digits(s + 1), b, Text.Digits(t + 1));
        Text.DigitsInjective(s + 1, t + 1);
      }
      if s == 0 {
        assert |NameAt(names, j)| > |b|;
      }
    } else if s > 0 && t > 0 {
      if NameAt(names, i) == NameAt(names, j) {
        SplitAtLastDash(a, Text.Digits(s + 1), b, Text.Digits(t + 1));
      }
    } else if s > 0 {
      assert b in names && a + "-" + Text.Digits(s + 1) !in names;
    } else if t > 0 {
      assert a in names && b + "-" + Text.Digits(t + 1) !in names;
    }
  }

  /** The k-th policy of a name carries the number k. */
  lemma {:induction false} KthOf(names: seq<string>, a: string, k: nat, n: nat) returns (i: nat)
    requires n <= |names| && 1 <= k <= multiset(names[..n])[a]
    ensures i < n && names[i] == a && multiset(names[..i])[a] == k - 1
  {
    OneMoreName(names, n - 1);
    if names[n - 1] == a && multiset(names[..n - 1])[a] == k - 1 {
      i := n - 1;
    } else {
      i := KthOf(names, a, k, n - 1);
    }
  }

  /** The built names are distinct exactly when no selected name is another with one of its numbers after it. */
  lemma NamesDistinctExactly(names: seq<string>)
    ensures (forall i, j :: 0 <= i < j < |names| ==> NameAt(names, i) != NameAt(names, j)) <==> NoNameIsNumbered(names)
  {
    hide NameAt;
    if NoNameIsNumbered(names) {
      forall i, j | 0 <= i < j < |names| ensures NameAt(names, i) != NameAt(names, j) {
        SameNumberedName(names, i, j);
      }
    } else {
      var a, k: nat :| 2 <= k <= multiset(names)[a] && a + "-" + Text.Digits(k) in names;
      NumberedNameCollides(names, a, k);
    }
  }

  lemma NumberedNameCollides(names: seq<string>, a: string, k: nat)
    requires 2 <= k <= multiset(names)[a] && a + "-" + Text.Digits(k) in names
    ensures exists i, j :: 0 <= i < j < |names| && NameAt(names, i) == NameAt(names, j)
  {
    var b := a + "-" + Text.Digits(k);
    assert names[..|names|] == names;
    var i := KthOf(names, a, k, |names|);
    assert b in multiset(names);
    var j := KthOf(names, b, 1, |names|);
    assert NameAt(names, i) == b == NameAt(names, j);
    assert |b| > |a|;
    if i < j {
    } else {
      assert j < i;
    }
  }

  // ----- one policy

  function SpecsOf(objects: seq<ApiObject>): seq<Value> {
    seq(|objects|, i requires 0 <= i < |objects| => objects[i].spec)
  }

  function Times(j: Json, n: nat): seq<Json> {
    seq(n, i => j)
  }

  function MetaOf(policy: LibraryPolicy, mode: Mode, name: string): Meta {
    Meta(name, policy.section, policy.source, if mode == Block then "enforce" else "monitor", policy.summary,
         if policy.url == "" then None else Some(policy.url))
  }

  /** One object for the cluster, or one for each namespace. */
  predicate Scopes(objects: seq<ApiObject>, namespaces: seq<string>, meta: Meta) {
    && (forall k :: 0 <= k < |objects| ==> objects[k].meta == meta)
    && (namespaces == [] ==> |objects| == 1 && objects[0].kind == "TracingPolicy" && objects[0].namespace_ == None)
    && (namespaces != [] ==>
          && |objects| == |namespaces|
          && forall k :: 0 <= k < |objects| ==>
               objects[k].kind == "TracingPolicyNamespaced" &&
                 objects[k].namespace_ == Some(Text.Sorted(namespaces)[k]))
  }

  /** The spec itself for the cluster, or a clone of it for each namespace. */
  method Scope(heap: Heap, spec: Value, ghost tree: Json, namespaces: seq<string>, meta: Meta)
    returns (objects: seq<ApiObject>)
    requires heap.Valid() && Holds(heap.cells, spec, tree)
    modifies heap
    ensures heap.Valid() && Scopes(objects, namespaces, meta)
    ensures namespaces == [] ==> heap.cells == old(heap.cells) && SpecsOf(objects) == [spec]
    ensures namespaces != [] ==> CreatesAll(old(heap.cells), heap.cells, SpecsOf(objects), Times(tree, |objects|))
  {
    hide Holds, Owns, CreatesAll, Creates, Extends, SpecsOf, Times, Text.Sorted;
    objects := [];
    NoSpecs(tree);
    if namespaces == [] {
      var o := ApiObject("TracingPolicy", meta, None, spec);
      OneMoreSpec([], o, tree);
      assert [] + [o] == [o] && [] + [spec] == [spec];
      return [o];
    }
    var sorted := Text.Sorted(namespaces);
    NoneCreated(heap.cells);
    for k := 0 to |sorted|
      invariant |objects| == k && heap.Valid()
      invariant forall i :: 0 <= i < k ==>
                  objects[i] == ApiObject("TracingPolicyNamespaced", meta, Some(sorted[i]), objects[i].spec)
      invariant CreatesAll(old(heap.cells), heap.cells, SpecsOf(objects), Times(tree, k))
    {
      ghost var before := heap.cells;
      StillHeld(old(heap.cells), before, SpecsOf(objects), Times(tree, k), spec, tree);
      var clone := heap.Clone(spec, tree);
      OneCreated(before, heap.cells, clone, tree);
      CreatedTogether(old(heap.cells), before, heap.cells, SpecsOf(objects), Times(tree, k), [clone], [tree]);
      var o := ApiObject("TracingPolicyNamespaced", meta, Some(sorted[k]), clone);
      OneMoreSpec(objects, o, tree);
      objects := objects + [o];
    }
  }

  lemma NoSpecs(tree: Json)
    ensures SpecsOf([]) == [] && Times(tree, 0) == []
  {
  }

  lemma OneMoreSpec(objects: seq<ApiObject>, o: ApiObject, tree: Json)
    ensures SpecsOf(objects + [o]) == SpecsOf(objects) + [o.spec]
    ensures Times(tree, |objects| + 1) == Times(tree, |objects|) + [tree]
  {
  }

  lemma StillHeld(h: Cells, g: Cells, vs: seq<Value>, js: seq<Json>, v: Value, j: Json)
    requires CreatesAll(h, g, vs, js) && Holds(h, v, j)
    ensures Holds(g, v, j)
  {
    hide Holds, Owns;
    FrameExtends(h, g, v, j);
  }

  /** The content of every object built from a policy whose upstream spec is `upstream`. */
  function TreeOf(draft: Draft, id: string, upstream: Fields): Fields
    requires id in draft.selection
  {
    BuiltSpec(upstream, draft.selection[id], EffectiveExclusions(draft, id), draft.nodeLabels, draft.includeHost)
  }

  /** What one policy is built into, under a name of its own, apart from the content of its objects. */
  predicate IsBuilt(b: Built, policy: LibraryPolicy, upstream: Fields, draft: Draft, name: string) {
    && b.policy == policy && policy.id in draft.selection && b.mode == draft.selection[policy.id]
    && Scopes(b.objects, draft.scopeNamespaces,
              Meta(name, policy.section, policy.source, if b.mode == Block then "enforce" else "monitor",
                   policy.summary, if policy.url == "" then None else Some(policy.url)))
    && b.notes == NotesFor(SpecMode(upstream, b.mode), EffectiveExclusions(draft, policy.id))
    && (b.modeChanged <==> SpecMode(upstream, b.mode) != upstream)
    && (b.notEnforceable <==> b.mode == Block && !Enforceable(upstream))
    && b.renamedFrom == if name == policy.name then None else Some(policy.name)
  }

  /** A clone with the mode, the exclusions and the scope of the draft. */
  method BuildSpec(heap: Heap, policy: LibraryPolicy, ghost upstream: Fields, draft: Draft)
    returns (spec: Value, notes: seq<Note>, changed: bool, enforceable: bool)
    requires heap.Valid() && Holds(heap.cells, policy.spec, Obj(upstream)) && WellFormed(upstream) &&
             policy.id in draft.selection
    modifies heap
    ensures heap.Valid() && Creates(old(heap.cells), heap.cells, spec, Obj(TreeOf(draft, policy.id, upstream)))
    ensures notes == NotesFor(SpecMode(upstream, draft.selection[policy.id]), EffectiveExclusions(draft, policy.id))
    ensures changed <==> SpecMode(upstream, draft.selection[policy.id]) != upstream
    ensures enforceable <==> Enforceable(upstream)
  {
    hide Holds, Owns, Rewrites, SpecMode, SpecAfter, Enforceable, WellFormed, NotesFor, MergeExclusions, MatchLabels;
    var mode, ex := draft.selection[policy.id], EffectiveExclusions(draft, policy.id);
    ghost var h := heap.cells;
    spec := heap.Clone(policy.spec, Obj(upstream));
    ghost var g, tree := heap.cells, SpecMode(upstream, mode);
    RewrittenIsHeld(h, g, Prim(Null), Null, spec, Obj(upstream));
    changed, enforceable := ApplyMode(heap, spec, upstream, mode);
    ModeKeepsForm(upstream, mode);
    ghost var f := heap.cells;
    RewrittenIsHeld(g, f, spec, Obj(upstream), spec, Obj(tree));
    notes := ApplyExclusions(heap, spec, tree, ex);
    RewritesTwice(g, f, heap.cells, spec, Obj(upstream), spec, Obj(tree), spec, Obj(SpecAfter(tree, ex)));
    tree := SpecAfter(tree, ex);
    if draft.nodeLabels != [] {
      FieldPut(heap, spec, g, upstream, tree, "nodeSelector", Obj(MatchLabels(draft.nodeLabels)));
      tree := tree["nodeSelector" := Obj(MatchLabels(draft.nodeLabels))];
    }
    if draft.includeHost {
      FieldPut(heap, spec, g, upstream, tree, "hostSelector", Obj(map[]));
      tree := tree["hostSelector" := Obj(map[])];
    }
    RewritesTwice(h, g, heap.cells, Prim(Null), Null, spec, Obj(upstream), spec, Obj(tree));
  }

  method BuildOne(heap: Heap, policy: LibraryPolicy, ghost upstream: Fields, draft: Draft, name: string)
    returns (b: Built)
    requires heap.Valid() && Holds(heap.cells, policy.spec, Obj(upstream)) && WellFormed(upstream) &&
             policy.id in draft.selection
    modifies heap
    ensures heap.Valid() && IsBuilt(b, policy, upstream, draft, name)
    ensures CreatesAll(old(heap.cells), heap.cells, SpecsOf(b.objects),
                       Times(Obj(TreeOf(draft, policy.id, upstream)), |b.objects|))
  {
    hide Holds, Owns, Rewrites, CreatesAll, SpecMode, Enforceable, WellFormed, NotesFor, EffectiveExclusions, TreeOf;
    ghost var h, tree := heap.cells, Obj(TreeOf(draft, policy.id, upstream));
    var mode := draft.selection[policy.id];
    var spec, notes, changed, enforceable := BuildSpec(heap, policy, upstream, draft);
    ghost var g := heap.cells;
    OneCreated(h, g, spec, tree);
    RewrittenIsHeld(h, g, Prim(Null), Null, spec, tree);
    OldKept(h, g, spec, tree);
    var objects := Scope(heap, spec, tree, draft.scopeNamespaces, MetaOf(policy, mode, name));
    if draft.scopeNamespaces != [] {
      CreatedSince(h, g, heap.cells, SpecsOf(objects), Times(tree, |objects|));
    } else {
      assert Times(tree, 1) == [tree];
    }
    b := Built(policy, mode, objects, notes, changed, mode == Block && !enforceable,
               if name == policy.name then None else Some(policy.name));
  }

  // ----- the selection

  function NamesOf(policies: seq<LibraryPolicy>): seq<string> {
    seq(|policies|, i requires 0 <= i < |policies| => policies[i].name)
  }

  /** The selected policies that the library knows, in the order of the selection. */
  function Known(ids: seq<string>, library: Catalogue): seq<LibraryPolicy> {
    if ids == [] then []
    else
      var before, id := Known(ids[..|ids| - 1], library), ids[|ids| - 1];
      if id in library then before + [library[id]] else before
  }

  /** Where a policy was selected. */
  function Place(known: seq<LibraryPolicy>, p: LibraryPolicy): nat {
    if known == [] || known[0] == p then 0 else 1 + Place(known[1..], p)
  }

  /** By name, and between names that compare equal by the place in the selection. */
  function Earlier(known: seq<LibraryPolicy>,
                   collate: (string, string) -> bool): (LibraryPolicy, LibraryPolicy) -> bool {
    (p: LibraryPolicy, q: LibraryPolicy) =>
      collate(p.name, q.name) && (collate(q.name, p.name) ==> Place(known, p) <= Place(known, q))
  }

  ghost predicate Selected(policies: seq<LibraryPolicy>, draft: Draft, library: Catalogue,
                           collate: (string, string) -> bool) {
    var known := Known(draft.ids, library);
    multiset(policies) == multiset(known) && Sorting.SortedBy(Earlier(known, collate), policies)
  }

  /** The library files every policy under its own identifier, with a spec the source can read. */
  ghost predicate ValidLibrary(h: Cells, library: Catalogue, upstream: map<string, Fields>) {
    forall id :: id in library ==>
      library[id].id == id && id in upstream && WellFormed(upstream[id]) &&
        Holds(h, library[id].spec, Obj(upstream[id]))
  }

  lemma EarlierIsTotalPreorder(known: seq<LibraryPolicy>, collate: (string, string) -> bool)
    requires Sorting.TotalPreorder(collate)
    ensures Sorting.TotalPreorder(Earlier(known, collate))
  {
    hide Place;
    var earlier := Earlier(known, collate);
    forall p, q ensures earlier(p, q) || earlier(q, p) {
      assert collate(p.name, q.name) || collate(q.name, p.name);
    }
    forall p, q, r | earlier(p, q) && earlier(q, r) ensures earlier(p, r) {
      assert collate(p.name, q.name) && collate(q.name, r.name);
      if collate(r.name, p.name) {
        assert collate(q.name, p.name) && collate(r.name, q.name);
      }
    }
  }

  lemma {:induction false} PlaceFinds(known: seq<LibraryPolicy>, p: LibraryPolicy)
    requires p in known
    ensures Place(known, p) < |known| && known[Place(known, p)] == p
  {
    if known[0] != p {
      PlaceFinds(known[1..], p);
    }
  }

  lemma {:induction false} KnownAre(ids: seq<string>, library: Catalogue)
    requires forall i, j :: 0 <= i < j < |ids| ==> ids[i] != ids[j]
    requires forall id :: id in library ==> library[id].id == id
    ensures forall p :: p in Known(ids, library) <==> p.id in ids && p.id in library && library[p.id] == p
    ensures forall i, j :: 0 <= i < j < |Known(ids, library)| ==> Known(ids, library)[i] != Known(ids, library)[j]
  {
    if ids != [] {
      KnownAre(ids[..|ids| - 1], library);
      assert ids == ids[..|ids| - 1] + [ids[|ids| - 1]];
    }
  }

  /** The draft and the library leave one arrangement only. */
  lemma OneArrangement(ps: seq<LibraryPolicy>, qs: seq<LibraryPolicy>, draft: Draft, library: Catalogue,
                       collate: (string, string) -> bool)
    requires Selected(ps, draft, library, collate) && Selected(qs, draft, library, collate) && draft.Valid()
    requires forall id :: id in library ==> library[id].id == id
    ensures ps == qs
  {
    var known := Known(draft.ids, library);
    hide Known, Place;
    KnownAre(draft.ids, library);
    Sorting.SameMembers(ps, known);
    Sorting.DistinctStaysDistinct(known, ps);
    forall i, j | 0 <= i < j < |ps| ensures !Earlier(known, collate)(ps[j], ps[i]) {
      PlaceFinds(known, ps[i]);
      PlaceFinds(known, ps[j]);
      assert Earlier(known, collate)(ps[i], ps[j]);
    }
    Sorting.SortedUnique(Earlier(known, collate), ps, qs);
  }

  method SelectedPolicies(draft: Draft, library: Catalogue, collate: (string, string) -> bool)
    returns (policies: seq<LibraryPolicy>)
    requires Sorting.TotalPreorder(collate)
    ensures Selected(policies, draft, library, collate)
  {
    hide Earlier, Sorting.TotalPreorder, Sorting.SortedBy;
    var known: seq<LibraryPolicy> := [];
    for i := 0 to |draft.ids|
      invariant known == Known(draft.ids[..i], library)
    {
      assert draft.ids[..i + 1][..i] == draft.ids[..i];
      var id := draft.ids[i];
      if id in library {
        known := known + [library[id]];
      }
    }
    assert draft.ids[..|draft.ids|] == draft.ids;
    EarlierIsTotalPreorder(known, collate);
    policies := Sorting.Sort(Earlier(known, collate), known);
  }

  // ----- all of them

  ghost function AllObjectsOf(out: seq<Built>): seq<ApiObject> {
    if out == [] then [] else AllObjectsOf(out[..|out| - 1]) + out[|out| - 1].objects
  }

  /** What the spec of each object holds. */
  ghost function TreesOf(out: seq<Built>, draft: Draft, upstream: map<string, Fields>): seq<Json> {
    if out == [] then []
    else
      var b := out[|out| - 1];
      TreesOf(out[..|out| - 1], draft, upstream) +
      if b.policy.id in draft.selection && b.policy.id in upstream
      then Times(Obj(TreeOf(draft, b.policy.id, upstream[b.policy.id])), |b.objects|) else []
  }

  lemma OneMoreBuilt(out: seq<Built>, b: Built, draft: Draft, upstream: map<string, Fields>)
    requires b.policy.id in draft.selection && b.policy.id in upstream
    ensures SpecsOf(AllObjectsOf(out + [b])) == SpecsOf(AllObjectsOf(out)) + SpecsOf(b.objects)
    ensures TreesOf(out + [b], draft, upstream) ==
            TreesOf(out, draft, upstream) + Times(Obj(TreeOf(draft, b.policy.id, upstream[b.policy.id])), |b.objects|)
  {
    hide TreeOf;
    assert (out + [b])[..|out|] == out;
  }

  ghost predicate Tallies(used: map<string, nat>, names: seq<string>) {
    forall n :: multiset(names)[n] == if n in used then used[n] else 0
  }

  /** The next name: a number is added to one that was used before. */
  method TakeName(name: string, used: map<string, nat>, ghost names: seq<string>, ghost i: nat)
    returns (unique: string, after: map<string, nat>)
    requires i < |names| && names[i] == name && Tallies(used, names[..i])
    ensures unique == NameAt(names, i) && Tallies(after, names[..i + 1])
  {
    var seen := if name in used then used[name] else 0;
    after := used[name := seen + 1];
    unique := if seen == 0 then name else name + "-" + Text.Digits(seen + 1);
    OneMoreName(names, i);
  }

  lemma NoneTaken(names: seq<string>)
    ensures Tallies(map[], names[..0])
  {
  }

  lemma SelectedAreKnown(policies: seq<LibraryPolicy>, draft: Draft, library: Catalogue,
                         collate: (string, string) -> bool)
    requires Selected(policies, draft, library, collate) && draft.Valid()
    requires forall id :: id in library ==> library[id].id == id
    ensures forall p :: p in policies <==> p.id in draft.selection && p.id in library && library[p.id] == p
  {
    hide Known;
    KnownAre(draft.ids, library);
    Sorting.SameMembers(policies, Known(draft.ids, library));
  }

  lemma LibraryStays(h: Cells, g: Cells, library: Catalogue, upstream: map<string, Fields>)
    requires ValidLibrary(h, library, upstream) && Extends(h, g)
    ensures ValidLibrary(g, library, upstream)
  {
    hide Holds, Owns, WellFormed;
    forall id | id in library ensures Holds(g, library[id].spec, Obj(upstream[id])) {
      FrameExtends(h, g, library[id].spec, Obj(upstream[id]));
    }
  }

  /**
   Every spec is built out of cells of its own: it shares none with the spec of another object or with
   anything that was there before, the library above all, and nothing that was there has changed.
   */
  method BuildPolicies(heap: Heap, draft: Draft, library: Catalogue, collate: (string, string) -> bool,
                       ghost upstream: map<string, Fields>)
    returns (out: seq<Built>, policies: seq<LibraryPolicy>)
    requires heap.Valid() && ValidLibrary(heap.cells, library, upstream)
    requires Sorting.TotalPreorder(collate) && draft.Valid()
    modifies heap
    ensures heap.Valid() && Selected(policies, draft, library, collate) && |out| == |policies|
    ensures forall i :: 0 <= i < |out| ==>
              policies[i].id in upstream &&
                IsBuilt(out[i], policies[i], upstream[policies[i].id], draft, NameAt(NamesOf(policies), i))
    ensures CreatesAll(old(heap.cells), heap.cells, SpecsOf(AllObjectsOf(out)), TreesOf(out, draft, upstream))
    ensures ValidLibrary(heap.cells, library, upstream)
  {
    hide Selected, Holds, Owns, CreatesAll, WellFormed, AllObjectsOf, TreesOf, NameAt, TreeOf, Tallies, Scopes,
         NotesFor, SpecMode, Enforceable;
    policies := SelectedPolicies(draft, library, collate);
    SelectedAreKnown(policies, draft, library, collate);
    ghost var names := NamesOf(policies);
    var used: map<string, nat> := map[];
    out := [];
    NoneBuilt(draft, upstream);
    NoneCreated(heap.cells);
    NoneTaken(names);
    for i := 0 to |policies|
      invariant |out| == i && heap.Valid() && ValidLibrary(heap.cells, library, upstream)
      invariant Tallies(used, names[..i])
      invariant forall j :: 0 <= j < i ==>
                  policies[j].id in upstream &&
                    IsBuilt(out[j], policies[j], upstream[policies[j].id], draft, NameAt(names, j))
      invariant CreatesAll(old(heap.cells), heap.cells, SpecsOf(AllObjectsOf(out)), TreesOf(out, draft, upstream))
    {
      ghost var before := heap.cells;
      var policy := policies[i];
      assert policy in policies && names[i] == policy.name;
      var name;
      name, used := TakeName(policy.name, used, names, i);
      var b := BuildOne(heap, policy, upstream[policy.id], draft, name);
      ghost var tree := Obj(TreeOf(draft, policy.id, upstream[policy.id]));
      NothingChanged(before, heap.cells, SpecsOf(b.objects), Times(tree, |b.objects|));
      LibraryStays(before, heap.cells, library, upstream);
      CreatedTogether(old(heap.cells), before, heap.cells, SpecsOf(AllObjectsOf(out)), TreesOf(out, draft, upstream),
                      SpecsOf(b.objects), Times(tree, |b.objects|));
      OneMoreBuilt(out, b, draft, upstream);
      out := out + [b];
    }
  }

  lemma NothingChanged(h: Cells, g: Cells, vs: seq<Value>, js: seq<Json>)
    requires CreatesAll(h, g, vs, js)
    ensures Extends(h, g)
  {
  }

  lemma NoneBuilt(draft: Draft, upstream: map<string, Fields>)
    ensures SpecsOf(AllObjectsOf([])) == [] && TreesOf([], draft, upstream) == []
  {
  }
}
