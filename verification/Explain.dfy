/**
 Explaining why an event met a selector (backend/internal/k8s/explain.go:155-270): a conjunction, like in
 Selectors, except that a negative operator holds when *some* listed value differs.
 */
module Explain {
  import opened Option
  import opened Json
  import opened Exclusions
  import opened Selectors
  import ExclusionMeaning
  import Text

  datatype Clause = Clause(
    kind: string, position: nat, operator: string, values: seq<string>,
    matched: string, argIndex: Option<int>, excludable: string)

  // ----- one operator

  /** Whether the operator is satisfied by one value and one candidate. */
  predicate Satisfied(op: string, value: string, candidate: string) {
    match op
    case "" => candidate == value
    case "In" => candidate == value
    case "Equal" => candidate == value
    case "Postfix" => Text.HasSuffix(candidate, value)
    case "Prefix" => Text.HasPrefix(candidate, value)
    case "NotIn" => candidate != value
    case "NotEqual" => candidate != value
    case "NotPrefix" => !Text.HasPrefix(candidate, value)
    case _ => true
  }

  predicate Explained(op: string, values: seq<string>, candidate: string) {
    candidate != "" && exists v :: v in values && Satisfied(op, v, candidate)
  }

  method OpMatches(op: string, values: seq<string>, candidates: seq<string>) returns (hit: bool, matched: string)
    ensures hit <==> exists c :: c in candidates && Explained(op, values, c)
    ensures hit ==> exists i :: 0 <= i < |candidates| && candidates[i] == matched && Explained(op, values, matched)
                                && forall j :: 0 <= j < i ==> !Explained(op, values, candidates[j])
    ensures !hit ==> matched == ""
  {
    for i := 0 to |candidates|
      invariant forall j :: 0 <= j < i ==> !Explained(op, values, candidates[j])
    {
      var c := candidates[i];
      if c == "" {
        continue;
      }
      for k := 0 to |values|
        invariant forall j :: 0 <= j < k ==> !Satisfied(op, values[j], c)
      {
        if Satisfied(op, values[k], c) {
          assert values[k] in values;
          assert Explained(op, values, candidates[i]);
          return true, c;
        }
      }
    }
    return false, "";
  }

  // ----- one selector

  predicate IsPositiveOp(op: string) {
    op !in {"NotIn", "NotEqual", "NotPrefix", "NotPostfix", "NotDPort", "NotSPort"}
  }

  function Dimension(kind: string): string {
    match kind
    case "matchBinaries" => "binaries"
    case "matchParentBinaries" => "parentBinaries"
    case _ => "paths"
  }

  /** What the event offers to a clause of this kind. */
  function Candidates(kind: string, item: Json, e: Event): seq<string> {
    match kind
    case "matchBinaries" => [e.binary]
    case "matchParentBinaries" => [e.parent]
    case _ =>
      var index := IntOf(Field(item, "index"));
      if 0 <= index < |e.args| then [e.args[index]] else []
  }

  predicate Met(kind: string, item: Json, e: Event) {
    exists c :: c in Candidates(kind, item, e)
                && Explained(StrOf(Field(item, "operator")), ToStrings(Field(item, "values")), c)
  }

  function ClauseFor(kind: string, i: nat, item: Json, e: Event): Clause
    requires Met(kind, item, e)
  {
    var op := StrOf(Field(item, "operator"));
    Clause(kind, i, op, ToStrings(Field(item, "values")), Candidates(kind, item, e)[0],
           if kind == "matchArgs" then Some(IntOf(Field(item, "index"))) else None,
           if IsPositiveOp(op) then Dimension(kind) else "")
  }

  /** The clauses of a list that the event met, in order. */
  function MetClauses(kind: string, items: seq<Json>, e: Event): seq<Clause> {
    if items == [] then []
    else
      var n := |items| - 1;
      MetClauses(kind, items[..n], e) + (if Met(kind, items[n], e) then [ClauseFor(kind, n, items[n], e)] else [])
  }

  lemma OneCandidate(kind: string, item: Json, e: Event)
    ensures |Candidates(kind, item, e)| <= 1
  {
  }

  method CheckClause(kind: string, i: nat, item: Json, e: Event) returns (out: seq<Clause>)
    ensures out == if Met(kind, item, e) then [ClauseFor(kind, i, item, e)] else []
  {
    hide Explained, Candidates, Strings, IsPositiveOp;
    OneCandidate(kind, item, e);
    var op, values := StrOf(Field(item, "operator")), ToStrings(Field(item, "values"));
    var hit, matched := OpMatches(op, values, Candidates(kind, item, e));
    if !hit {
      return [];
    }
    var argIndex := if kind == "matchArgs" then Some(IntOf(Field(item, "index"))) else None;
    return [Clause(kind, i, op, values, matched, argIndex, if IsPositiveOp(op) then Dimension(kind) else "")];
  }

  method CheckClauses(kind: string, raw: Json, e: Event) returns (out: seq<Clause>, all: bool)
    ensures out == MetClauses(kind, Items(raw), e)
    ensures all <==> forall item :: item in Items(raw) ==> Met(kind, item, e)
  {
    hide Met, ClauseFor;
    var items := Items(raw);
    out, all := [], true;
    for i := 0 to |items|
      invariant out == MetClauses(kind, items[..i], e)
      invariant all <==> forall j :: 0 <= j < i ==> Met(kind, items[j], e)
    {
      assert items[..i + 1][..i] == items[..i];
      var clause := CheckClause(kind, i, items[i], e);
      if clause == [] {
        all := false;
        continue;
      }
      out := out + clause;
    }
    assert items[..|items|] == items;
  }

  /** Every clause of the three decided kinds is met. */
  predicate SelectorMet(sel: Fields, e: Event) {
    && (forall item :: item in Items(Get(sel, "matchBinaries")) ==> Met("matchBinaries", item, e))
    && (forall item :: item in Items(Get(sel, "matchParentBinaries")) ==> Met("matchParentBinaries", item, e))
    && (forall item :: item in Items(Get(sel, "matchArgs")) ==> Met("matchArgs", item, e))
  }

  method SelectorClauses(sel: Fields, e: Event) returns (out: seq<Clause>, all: bool)
    ensures all <==> SelectorMet(sel, e)
    ensures out == MetClauses("matchBinaries", Items(Get(sel, "matchBinaries")), e)
                 + MetClauses("matchParentBinaries", Items(Get(sel, "matchParentBinaries")), e)
                 + MetClauses("matchArgs", Items(Get(sel, "matchArgs")), e)
                 + (if Items(Get(sel, "matchCapabilities")) == [] then []
                    else [Clause("matchCapabilities", 0, "", [], "", None, "")])
  {
    var binaries, b := CheckClauses("matchBinaries", Get(sel, "matchBinaries"), e);
    var parents, p := CheckClauses("matchParentBinaries", Get(sel, "matchParentBinaries"), e);
    var args, a := CheckClauses("matchArgs", Get(sel, "matchArgs"), e);
    out := binaries + parents + args;
    if Items(Get(sel, "matchCapabilities")) != [] {
      out := out + [Clause("matchCapabilities", 0, "", [], "", None, "")];
    }
    all := b && p && a;
  }

  // ----- how this reading compares with "no listed value hits"

  predicate OneValue(values: seq<string>) {
    values != [] && forall v :: v in values ==> v == values[0]
  }

  /** The denotation of a clause on one candidate. */
  predicate Holds(op: string, values: seq<string>, candidate: string) {
    match ReadingOf(op)
    case OneOf => exists v :: v in values && Hits(op, v, candidate)
    case NoneOf => forall v :: v in values ==> !Hits(op, v, candidate)
    case Undecided => true
  }

  lemma PositiveAgrees(op: string, values: seq<string>, candidate: string)
    requires ReadingOf(op) == OneOf && candidate != ""
    ensures Explained(op, values, candidate) <==> Holds(op, values, candidate)
  {
    assert forall v :: Satisfied(op, v, candidate) <==> Hits(op, v, candidate);
  }

  lemma NegativeIsNotHit(op: string, v: string, c: string)
    requires ReadingOf(op) == NoneOf
    ensures Satisfied(op, v, c) <==> !Hits(op, v, c)
  {
  }

  /** A non-empty string that one of two values hits and the other does not. */
  lemma Separates(op: string, u: string, v: string) returns (c: string)
    requires ReadingOf(op) == NoneOf && u != v
    ensures c != "" && Hits(op, u, c) != Hits(op, v, c)
  {
    if op == "NotPrefix" {
      if u == "" {
        c := [if v[0] == 'a' then 'b' else 'a'];
        assert Text.HasPrefix(c, u);
        assert c[0] != v[0];
      } else if v == "" {
        c := [if u[0] == 'a' then 'b' else 'a'];
        assert Text.HasPrefix(c, v);
        assert c[0] != u[0];
      } else if Text.HasPrefix(u, v) {
        c := v;
      } else {
        c := u;
      }
    } else {
      c := if u == "" then v else u;
    }
  }

  /** The explainer and the denotation agree on every candidate exactly when the clause has one distinct value. */
  lemma NegativeAgreesExactly(op: string, values: seq<string>)
    requires ReadingOf(op) == NoneOf
    ensures (forall c: string :: c != "" ==> (Explained(op, values, c) <==> Holds(op, values, c))) <==> OneValue(values)
  {
    hide Satisfied, Hits, ReadingOf;
    forall v: string, c: string ensures Satisfied(op, v, c) <==> !Hits(op, v, c) {
      NegativeIsNotHit(op, v, c);
    }
    assert ReadingOf(op) == NoneOf;
    if OneValue(values) {
      assert values[0] in values;
    } else if values == [] {
      assert "x" != "" && !Explained(op, values, "x") && Holds(op, values, "x");
    } else {
      var v :| v in values && v != values[0];
      var c := Separates(op, values[0], v);
      assert values[0] in values;
      assert Explained(op, values, c) && !Holds(op, values, c);
    }
  }

  /** The clause is decided the same way by both readings for this event. */
  predicate Comparable(kind: string, item: Json, e: Event) {
    var op, values := StrOf(Field(item, "operator")), ToStrings(Field(item, "values"));
    && ReadingOf(op) != Undecided
    && (ReadingOf(op) == NoneOf ==> OneValue(values))
    && (kind != "matchArgs" ==> Field(item, "followChildren") != Bool(true))
    && |Candidates(kind, item, e)| == 1 && Candidates(kind, item, e)[0] != ""
  }

  lemma ComparableClause(kind: string, item: Json, candidates: set<string>, o: Oracle, e: Event)
    requires Comparable(kind, item, e)
    requires candidates == {Candidates(kind, item, e)[0]}
    ensures Met(kind, item, e) <==> ClauseHolds(item, candidates, o, e)
  {
    hide ReadingOf, Satisfied, Hits, Strings, Candidates;
    var op, values, c := StrOf(Field(item, "operator")), ToStrings(Field(item, "values")), Candidates(kind, item, e)[0];
    assert Met(kind, item, e) <==> Explained(op, values, c);
    if ReadingOf(op) == OneOf {
      PositiveAgrees(op, values, c);
    } else {
      NegativeAgreesExactly(op, values);
    }
  }

  predicate ComparableSelector(sel: Fields, e: Event) {
    && (forall item :: item in Items(Get(sel, "matchBinaries")) ==> Comparable("matchBinaries", item, e))
    && (forall item :: item in Items(Get(sel, "matchParentBinaries")) ==> Comparable("matchParentBinaries", item, e))
    && (forall item :: item in Items(Get(sel, "matchArgs")) ==> Comparable("matchArgs", item, e))
  }

  /** On comparable clauses the explainer reports a selector as the cause exactly when the selector matches. */
  lemma ExplainerMatchesMeaning(sel: Fields, o: Oracle, e: Event)
    requires ComparableSelector(sel, e)
    requires o(Obj(sel - FILTERED), e)
    ensures SelectorMet(sel, e) <==> SelectorHolds(sel, o, e)
  {
    hide ClauseHolds, Met, ReadingOf, Strings, OneValue;
    forall item | item in Items(Get(sel, "matchBinaries"))
      ensures Met("matchBinaries", item, e) <==> ClauseHolds(item, Processes(item, e.binary, e.lineage), o, e) {
      ComparableClause("matchBinaries", item, {e.binary}, o, e);
      assert Processes(item, e.binary, e.lineage) == {e.binary};
    }
    forall item | item in Items(Get(sel, "matchParentBinaries"))
      ensures Met("matchParentBinaries", item, e) <==>
              ClauseHolds(item, Processes(item, e.parent, e.parentLineage), o, e)
    {
      ComparableClause("matchParentBinaries", item, {e.parent}, o, e);
      assert Processes(item, e.parent, e.parentLineage) == {e.parent};
    }
    forall item | item in Items(Get(sel, "matchArgs"))
      ensures Met("matchArgs", item, e) <==> ClauseHolds(item, Argument(item, e.args), o, e) {
      ComparableClause("matchArgs", item, Argument(item, e.args), o, e);
    }
  }

  /** A NotIn clause that lists the binary, and another value besides: met, yet it does not hold. */
  lemma ListedYetMet(item: Json, binary: string, other: string, o: Oracle, e: Event)
    requires StrOf(Field(item, "operator")) == "NotIn"
    requires binary in ToStrings(Field(item, "values")) && other in ToStrings(Field(item, "values"))
    requires e.binary == binary && binary != other && binary != ""
    ensures Met("matchBinaries", item, e)
    ensures !ClauseHolds(item, Processes(item, e.binary, e.lineage), o, e)
  {
    hide Strings;
    assert Satisfied("NotIn", other, binary);
    assert Explained("NotIn", ToStrings(Field(item, "values")), binary);
    assert Candidates("matchBinaries", item, e) == [binary];
    assert binary in Candidates("matchBinaries", item, e);
    assert binary in Processes(item, e.binary, e.lineage) && Hits("NotIn", binary, binary);
  }

  lemma BinariesOnly(values: seq<string>)
    requires values != []
    ensures FilterSelector(map[], Exclusions(values, [], [], None, [], []), None)
         == map["matchBinaries" := Arr([WithValues(Blank(NotIn), values)])]
  {
    hide WithValues;
    var none: seq<Json> := [];
    assert none + [WithValues(Blank(NotIn), values)] == [WithValues(Blank(NotIn), values)];
  }

  /** With two binaries excluded, the explainer still names the selector as the cause for either of them. */
  lemma TwoExclusionsStillExplained(first: string, second: string, o: Oracle, e: Event)
    requires first != "" && second != "" && first != second
    requires e.binary == first || e.binary == second
    ensures var sel := FilterSelector(map[], Exclusions([first, second], [], [], None, [], []), None);
            SelectorMet(sel, e) && !SelectorHolds(sel, o, e)
  {
    hide ClauseHolds, Met, WithValues, FilterSelector, Strings, ArgsHold;
    var values := [first, second];
    var sel := FilterSelector(map[], Exclusions(values, [], [], None, [], []), None);
    BinariesOnly(values);
    var item := WithValues(Blank(NotIn), values);
    ExclusionMeaning.MergedValues(Blank(NotIn), values);
    assert first in values && second in values;
    ListedYetMet(item, e.binary, if e.binary == first then second else first, o, e);
    assert Items(Get(sel, "matchBinaries")) == [item];
    assert item in Items(Get(sel, "matchBinaries"));
  }
}
