/**
 Keeping policies away from the console's own components (backend/internal/guard/guard.go).
 */
module Guard {
  import opened Json
  import Text
  import Sorting

  type Fields = map<string, Json>

  const SELF_LABEL := "app.kubernetes.io/part-of"
  const SELF_VALUE := "isovalent-control"

  // ----- which namespaces a manifest selects

  predicate IsPositive(op: Json) {
    StrOf(op) !in {"NotIn", "NotEquals", "DoesNotExist", "NotPrefix", "NotPostfix"}
  }

  predicate IsNamespaceKey(k: string) {
    k in {"namespace", "namespaces", "io.kubernetes.pod.namespace", "k8s:io.kubernetes.pod.namespace",
          "kubernetes.io/metadata.name"}
  }

  /** Keys whose value is read in place and not walked into. */
  predicate IsMatchKey(k: string) {
    k == "matchLabels" || k == "matchNames"
  }

  /** `{key, operator, values}` with a namespace key and a positive operator. */
  ghost predicate NamedByExpr(m: Fields, ns: string) {
    Get(m, "key").Str? && IsNamespaceKey(m["key"].s) && IsPositive(Get(m, "operator")) &&
      ns in ToStrings(Get(m, "values"))
  }

  /** A namespace label of a match map, or a member of a match list. */
  ghost predicate NamedByMatch(match_: Json, ns: string) {
    (match_.Obj? && exists k :: k in match_.fields && IsNamespaceKey(k) && match_.fields[k] == Str(ns))
    || ns in ToStrings(match_)
  }

  /** The map itself selects the namespace. */
  ghost predicate NamesHere(m: Fields, ns: string) {
    NamedByExpr(m, ns) || exists k :: k in m && IsMatchKey(k) && NamedByMatch(m[k], ns)
  }

  /**
   A map selects a namespace by an expression on a namespace key whose operator is none of the five negative ones, by
   a namespace label under matchLabels or matchNames, or by a member of such a list.
   */
  lemma NamesHereExactly(m: Fields, ns: string)
    ensures NamesHere(m, ns) <==>
            || (exists k :: k in NAMESPACE_KEYS && Get(m, "key") == Str(k)
                  && StrOf(Get(m, "operator")) !in {"NotIn", "NotEquals", "DoesNotExist", "NotPrefix", "NotPostfix"}
                  && Str(ns) in Items(Get(m, "values")))
            || (exists k, l :: k in {"matchLabels", "matchNames"} && l in NAMESPACE_KEYS
                  && Field(Get(m, k), l) == Str(ns))
            || (exists k :: k in {"matchLabels", "matchNames"} && Str(ns) in Items(Get(m, k)))
  {
    hide NamedByExpr, NamedByMatch, ToStrings;
    ExprReads(m, ns);
    MatchKeys(m, ns);
    forall k ensures NamedByMatch(Get(m, k), ns) <==>
      (exists l :: l in NAMESPACE_KEYS && Field(Get(m, k), l) == Str(ns)) || Str(ns) in Items(Get(m, k))
    {
      MatchReads(Get(m, k), ns);
    }
    assert forall k :: k in {"matchLabels", "matchNames"} ==>
        ((exists l :: l in NAMESPACE_KEYS && Field(Get(m, k), l) == Str(ns)) || Str(ns) in Items(Get(m, k))
         <==> NamedByMatch(Get(m, k), ns));
  }

  lemma MatchKeys(m: Fields, ns: string)
    ensures (exists k :: k in m && IsMatchKey(k) && NamedByMatch(m[k], ns)) <==>
            exists k :: k in {"matchLabels", "matchNames"} && NamedByMatch(Get(m, k), ns)
  {
    if k :| k in m && IsMatchKey(k) && NamedByMatch(m[k], ns) {
      assert k in {"matchLabels", "matchNames"} && NamedByMatch(Get(m, k), ns);
    }
  }

  lemma NamespaceKeys()
    ensures forall k :: IsNamespaceKey(k) <==> k in NAMESPACE_KEYS
  {
  }

  lemma ExprReads(m: Fields, ns: string)
    ensures NamedByExpr(m, ns) <==>
            exists k :: k in NAMESPACE_KEYS && Get(m, "key") == Str(k)
              && StrOf(Get(m, "operator")) !in {"NotIn", "NotEquals", "DoesNotExist", "NotPrefix", "NotPostfix"}
              && Str(ns) in Items(Get(m, "values"))
  {
    hide Strings, IsNamespaceKey;
    NamespaceKeys();
    StringsMembers(Items(Get(m, "values")));
  }

  lemma MatchReads(match_: Json, ns: string)
    ensures NamedByMatch(match_, ns) <==>
            (exists l :: l in NAMESPACE_KEYS && Field(match_, l) == Str(ns)) || Str(ns) in Items(match_)
  {
    hide Strings, IsNamespaceKey;
    NamespaceKeys();
    StringsMembers(Items(match_));
    if l :| l in NAMESPACE_KEYS && Field(match_, l) == Str(ns) {
      assert match_.Obj? && l in match_.fields && IsNamespaceKey(l);
    }
    if match_.Obj? && exists k :: k in match_.fields && IsNamespaceKey(k) && match_.fields[k] == Str(ns) {
      var k :| k in match_.fields && IsNamespaceKey(k) && match_.fields[k] == Str(ns);
      assert Field(match_, k) == Str(ns);
    }
  }

  const NAMESPACE_KEYS: set<string> := {"namespace", "namespaces", "io.kubernetes.pod.namespace",
                                        "k8s:io.kubernetes.pod.namespace", "kubernetes.io/metadata.name"}

  datatype Step = Key(k: string) | Index(i: nat)

  /** A map that can be reached without going through a match key. */
  ghost predicate Reaches(j: Json, path: seq<Step>, m: Fields) {
    if path == [] then j == Obj(m)
    else match path[0]
      case Key(k) => j.Obj? && k in j.fields && !IsMatchKey(k) && Reaches(j.fields[k], path[1..], m)
      case Index(i) => j.Arr? && i < |j.items| && Reaches(j.items[i], path[1..], m)
  }

  /** The namespace is positively selected by some map in the manifest. */
  ghost predicate Selects(j: Json, ns: string) {
    exists path, m :: Reaches(j, path, m) && NamesHere(m, ns)
  }

  /** The same, by recursion on the tree. */
  ghost predicate Named(j: Json, ns: string) {
    match j
    case Obj(m) => NamesHere(m, ns) || exists k :: k in m && !IsMatchKey(k) && Named(m[k], ns)
    case Arr(items) => exists i :: 0 <= i < |items| && Named(items[i], ns)
    case _ => false
  }

  lemma {:induction false} SelectedIsNamed(j: Json, ns: string, path: seq<Step>, m: Fields)
    requires Reaches(j, path, m) && NamesHere(m, ns)
    ensures Named(j, ns)
    decreases |path|
  {
    hide NamesHere;
    if path != [] {
      match path[0] {
        case Key(k) => SelectedIsNamed(j.fields[k], ns, path[1..], m);
        case Index(i) => SelectedIsNamed(j.items[i], ns, path[1..], m);
      }
    }
  }

  lemma {:induction false} NamedIsSelected(j: Json, ns: string)
    requires Named(j, ns)
    ensures Selects(j, ns)
    decreases j
  {
    hide NamesHere;
    match j {
      case Obj(m) =>
        if NamesHere(m, ns) {
          assert Reaches(j, [], m);
        } else {
          var k :| k in m && !IsMatchKey(k) && Named(m[k], ns);
          NamedIsSelected(m[k], ns);
          var path, n :| Reaches(m[k], path, n) && NamesHere(n, ns);
          assert ([Key(k)] + path)[1..] == path;
          assert Reaches(j, [Key(k)] + path, n);
        }
      case Arr(items) =>
        var i :| 0 <= i < |items| && Named(items[i], ns);
        NamedIsSelected(items[i], ns);
        var path, n :| Reaches(items[i], path, n) && NamesHere(n, ns);
        assert ([Index(i)] + path)[1..] == path;
        assert Reaches(j, [Index(i)] + path, n);
    }
  }

  /** The recursive reading finds exactly the namespaces selected by some reachable map. */
  lemma NamedExactly(j: Json, ns: string)
    ensures Named(j, ns) <==> Selects(j, ns)
  {
    if Selects(j, ns) {
      var path, m :| Reaches(j, path, m) && NamesHere(m, ns);
      SelectedIsNamed(j, ns, path, m);
    }
    if Named(j, ns) {
      NamedIsSelected(j, ns);
    }
  }

  ghost predicate Lists(out: seq<string>, j: Json) {
    forall ns :: ns in out <==> Named(j, ns)
  }

  /** The strings of a match map under namespace keys. */
  method NamespaceLabels(m: Fields) returns (out: seq<string>)
    ensures forall ns :: ns in out <==> exists k :: k in m && IsNamespaceKey(k) && m[k] == Str(ns)
  {
    hide IsNamespaceKey;
    out := [];
    var keys := m.Keys;
    while keys != {}
      invariant keys <= m.Keys
      invariant forall ns :: ns in out <==> exists k :: k in m && k !in keys && IsNamespaceKey(k) && m[k] == Str(ns)
      decreases |keys|
    {
      var k :| k in keys;
      keys := keys - {k};
      if IsNamespaceKey(k) && m[k].Str? {
        out := out + [m[k].s];
      }
    }
  }

  method WalkMatch(m: Json) returns (out: seq<string>)
    ensures forall ns :: ns in out <==> NamedByMatch(m, ns)
  {
    if m.Obj? {
      out := NamespaceLabels(m.fields);
    } else {
      out := ToStrings(m);
    }
  }

  /** What one key of a map adds. */
  ghost predicate NamedUnder(m: Fields, k: string, ns: string) {
    k in m && if IsMatchKey(k) then NamedByMatch(m[k], ns) else Named(m[k], ns)
  }

  lemma NamedByKeys(m: Fields, ns: string)
    ensures Named(Obj(m), ns) <==> NamedByExpr(m, ns) || exists k :: NamedUnder(m, k, ns)
  {
    hide NamedByExpr, NamedByMatch;
    var j := Obj(m);
    if k :| NamedUnder(m, k, ns) {
      assert IsMatchKey(k) ==> NamesHere(m, ns);
      assert !IsMatchKey(k) ==> k in j.fields && Named(j.fields[k], ns);
    }
    if Named(j, ns) && !NamedByExpr(m, ns) {
      if NamesHere(m, ns) {
        var k :| k in m && IsMatchKey(k) && NamedByMatch(m[k], ns);
        assert NamedUnder(m, k, ns);
      } else {
        var k :| k in m && !IsMatchKey(k) && Named(m[k], ns);
        assert NamedUnder(m, k, ns);
      }
    }
  }

  method Walk(node: Json) returns (out: seq<string>)
    ensures Lists(out, node)
    decreases node, 1
  {
    match node
    case Obj(m) =>
      out := WalkMap(node);
    case Arr(items) =>
      hide Named;
      out := [];
      for i := 0 to |items|
        invariant forall ns :: ns in out <==> exists j :: 0 <= j < i && Named(items[j], ns)
      {
        var more := Walk(items[i]);
        out := out + more;
      }
    case _ =>
      out := [];
  }

  method WalkMap(node: Json) returns (out: seq<string>)
    requires node.Obj?
    ensures Lists(out, node)
    decreases node, 0
  {
    hide Named, NamedByMatch, Strings, IsPositive, IsNamespaceKey;
    var m := node.fields;
    out := [];
    if Get(m, "key").Str? && IsNamespaceKey(m["key"].s) && IsPositive(Get(m, "operator")) {
      out := out + ToStrings(Get(m, "values"));
    }
    var keys := m.Keys;
    while keys != {}
      invariant keys <= m.Keys
      invariant forall ns :: ns in out <==> NamedByExpr(m, ns) || exists k :: k !in keys && NamedUnder(m, k, ns)
      decreases |keys|
    {
      var k :| k in keys;
      keys := keys - {k};
      var more;
      if IsMatchKey(k) {
        more := WalkMatch(m[k]);
      } else {
        more := Walk(m[k]);
      }
      assert forall ns :: ns in more <==> NamedUnder(m, k, ns);
      out := out + more;
    }
    forall ns ensures ns in out <==> Named(node, ns) {
      NamedByKeys(m, ns);
    }
  }

  method NamespacesNamedIn(doc: Json) returns (out: seq<string>)
    ensures forall ns :: ns in out <==> Selects(doc, ns)
  {
    out := Walk(doc);
    forall ns ensures Named(doc, ns) <==> Selects(doc, ns) {
      NamedExactly(doc, ns);
    }
  }

  // ----- the verdict

  datatype Verdict = Allowed | MetadataNamespace(ns: string) | SpecNamespace(ns: string)

  function MetadataOf(doc: Json): string {
    StrOf(Field(Field(doc, "metadata"), "namespace"))
  }

  class Guard {
    var namespaces: set<string>
    var order: seq<string>

    /** The protected namespaces are the trimmed, non-empty names, listed in order. */
    ghost predicate Valid()
      reads this
    {
      "" !in namespaces && Text.StrictlySorted(order) && Text.Members(order) == namespaces
    }

    constructor (names: seq<string>)
      ensures Valid()
      ensures namespaces == (set ns | ns in names :: Text.TrimSpace(ns)) - {""}
    {
      namespaces, order := {}, [];
      new;
      for i := 0 to |names|
        invariant namespaces == Text.Members(order) == (set ns | ns in names[..i] :: Text.TrimSpace(ns)) - {""}
        invariant forall j, k :: 0 <= j < k < |order| ==> order[j] != order[k]
      {
        assert names[..i + 1] == names[..i] + [names[i]];
        var ns := Text.TrimSpace(names[i]);
        if ns == "" || ns in namespaces {
          continue;
        }
        assert ns !in Text.Members(order);
        assert Text.Members(order + [ns]) == Text.Members(order) + {ns};
        namespaces := namespaces + {ns};
        order := order + [ns];
      }
      assert names[..|names|] == names;
      Text.LeqIsTotalPreorder();
      var sorted := Sorting.Sort(Text.Leq, order);
      Sorting.DistinctStaysDistinct(order, sorted);
      Sorting.SameMembers(order, sorted);
      Text.MembersAgree(order, sorted);
      order := sorted;
    }

    predicate IsProtected(ns: string)
      reads this
    {
      ns in namespaces
    }

    /**
     A manifest is rejected for the namespace in its metadata when that is protected, else for a
     protected namespace that something in it positively selects, else allowed.
     */
    method CheckManifest(manifest: Json) returns (v: Verdict)
      requires Valid()
      ensures var own := StrOf(Field(Field(manifest, "metadata"), "namespace"));
              && (v.MetadataNamespace? <==> own in namespaces) && (v.MetadataNamespace? ==> v.ns == own)
              && (v.SpecNamespace? <==>
                    own !in namespaces && manifest.Obj? && exists ns :: ns in namespaces && Selects(manifest, ns))
      ensures v.SpecNamespace? ==> v.ns in namespaces && Selects(manifest, v.ns)
    {
      hide Selects;
      if !manifest.Obj? {
        return Allowed;
      }
      var ns := MetadataOf(manifest);
      if IsProtected(ns) {
        return MetadataNamespace(ns);
      }
      var named := NamespacesNamedIn(manifest);
      for i := 0 to |named|
        invariant forall j :: 0 <= j < i ==> named[j] !in namespaces
      {
        if IsProtected(named[i]) {
          assert named[i] in named;
          return SpecNamespace(named[i]);
        }
      }
      return Allowed;
    }
  }

  // ----- the self-exemption

  predicate IsSelfExpr(e: Json) {
    Field(e, "key") == Str(SELF_LABEL) && Field(e, "operator") == Str("NotIn")
  }

  function SelfExpr(): Json {
    Obj(map["key" := Str(SELF_LABEL), "operator" := Str("NotIn"), "values" := Arr([Str(SELF_VALUE)])])
  }

  /** Exempt writes into Tetragon policies with a spec, unless the self label has a NotIn already. */
  predicate Exempts(doc: Json) {
    && Field(doc, "kind") in {Str("TracingPolicy"), Str("TracingPolicyNamespaced")}
    && Field(doc, "spec").Obj?
    && forall e :: e in Items(Field(Field(Field(doc, "spec"), "podSelector"), "matchExpressions")) ==> !IsSelfExpr(e)
  }

  function ExemptSelector(sel: Json): Json {
    Obj(AsMap(sel)["matchExpressions" := Append(Field(sel, "matchExpressions"), SelfExpr())])
  }

  function ExemptDoc(doc: Json): Json
    requires Exempts(doc)
  {
    var spec := doc.fields["spec"].fields;
    Obj(doc.fields["spec" := Obj(spec["podSelector" := ExemptSelector(Get(spec, "podSelector"))])])
  }

  method Exempt(manifest: Json) returns (out: Json, modified: bool)
    ensures modified <==> Exempts(manifest)
    ensures out == if modified then ExemptDoc(manifest) else manifest
    ensures modified ==>
              var exprs := Field(Field(Field(manifest, "spec"), "podSelector"), "matchExpressions");
              Field(Field(Field(out, "spec"), "podSelector"), "matchExpressions") ==
              Arr(Items(exprs) + [Obj(map["key" := Str("app.kubernetes.io/part-of"), "operator" := Str("NotIn"),
                                          "values" := Arr([Str("isovalent-control")])])])
    ensures modified <==>
              && Field(manifest, "kind") in {Str("TracingPolicy"), Str("TracingPolicyNamespaced")} &&
                 Field(manifest, "spec").Obj?
              && forall e :: e in Items(Field(Field(Field(manifest, "spec"), "podSelector"), "matchExpressions")) ==>
                   Field(e, "key") != Str("app.kubernetes.io/part-of") || Field(e, "operator") != Str("NotIn")
  {
    hide Strings;
    var kind := Field(manifest, "kind");
    if kind != Str("TracingPolicy") && kind != Str("TracingPolicyNamespaced") {
      return manifest, false;
    }
    if !Field(manifest, "spec").Obj? {
      return manifest, false;
    }
    var spec := manifest.fields["spec"].fields;
    var sel := AsMap(Get(spec, "podSelector"));
    var exprs := Items(Get(sel, "matchExpressions"));
    for i := 0 to |exprs|
      invariant forall j :: 0 <= j < i ==> !IsSelfExpr(exprs[j])
    {
      if IsSelfExpr(exprs[i]) {
        assert exprs[i] in exprs;
        return manifest, false;
      }
    }
    sel := sel["matchExpressions" := Arr(exprs + [SelfExpr()])];
    spec := spec["podSelector" := Obj(sel)];
    return Obj(manifest.fields["spec" := Obj(spec)]), true;
  }
}
