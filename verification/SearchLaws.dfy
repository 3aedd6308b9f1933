/**
 What a search returns, condition by condition (backend/internal/investigate/investigate.go:81-108, 173-244,
 324-420): the fields of the filter, the fields a query looks through, and what each facet is about.
 */
module SearchLaws {
  import opened Investigate
  import opened Option
  import Text
  import Timeline

  /** One list of the filter: empty, or it names the value. */
  predicate Names(list: seq<string>, value: string) {
    list == [] || value in list
  }

  /** What the filter asks of a row, besides the two texts. */
  predicate Wanted(r: Row, f: Filter) {
    && (f.hideReplies ==> !r.isReply)
    && (f.blockedOnly ==> r.blocked)
    && Names(f.namespaces, r.namespace_) && Names(f.src, r.src) && Names(f.dst, r.dst) && Names(f.verdicts, r.verdict)
    && Names(f.binaries, r.binary) && Names(f.workloads, r.workload) && Names(f.nodes, r.node)
    && Names(f.l7Types, r.l7Type)
    && (f.l7Methods == [] || exists m :: m in f.l7Methods && ToLower(m) == ToLower(r.l7Method))
    && (f.policies == [] || r.policy in f.policies || (r.policyNS != "" && r.policyNS + "/" + r.policy in f.policies))
  }

  predicate Holds(text: string, part: string) {
    Text.Contains(ToLower(text), ToLower(part))
  }

  lemma MatchesExactly(r: Row, f: Filter)
    ensures Matches(r, f) <==>
            && Wanted(r, f)
            && (f.l7Path != "" ==> Holds(r.l7Path, f.l7Path))
            && (Text.TrimSpace(f.query) != "" ==> Holds(Searchable(r), Text.TrimSpace(f.query)))
  {
    hide ToLower, Text.Contains, Searchable, Text.TrimSpace;
    LowerKeepsLength(Text.TrimSpace(f.query));
    MethodNamed(f.l7Methods, r.l7Method);
  }

  lemma LowerKeepsLength(s: string)
    ensures |ToLower(s)| == |s|
  {
  }

  lemma MethodNamed(methods: seq<string>, method_: string)
    ensures AnyOfFold(methods, method_) <==> methods == [] || exists m :: m in methods && ToLower(m) == ToLower(method_)
  {
    hide ToLower;
    if m :| m in methods && ToLower(m) == ToLower(method_) {
      var i :| 0 <= i < |methods| && methods[i] == m;
      assert EqualFold(methods[i], method_);
    }
  }

  // ----- the text of a row

  /** The fields that a query looks through. */
  function FieldsOf(r: Row): seq<string> {
    [r.src, r.dst, r.namespace_, r.workload, r.pod, r.node, r.binary, r.args, r.user, r.container, r.hook, r.policy,
     r.reason, r.summary, r.l7Method, r.l7Path, r.dnsQuery, r.protocol, r.verdict]
  }

  lemma {:induction false} JoinHolds(parts: seq<string>, sep: string, i: nat) returns (k: nat)
    requires i < |parts|
    ensures k + |parts[i]| <= |Join(parts, sep)| && Join(parts, sep)[k..k + |parts[i]|] == parts[i]
  {
    if |parts| == 1 {
      k := 0;
    } else if i == 0 {
      k := 0;
      assert Join(parts, sep)[..|parts[0]|] == parts[0];
    } else {
      var j := JoinHolds(parts[1..], sep, i - 1);
      k := |parts[0]| + |sep| + j;
      var rest := Join(parts[1..], sep);
      assert Join(parts, sep) == parts[0] + sep + rest;
      assert (parts[0] + sep + rest)[k..k + |parts[i]|] == rest[j..j + |parts[i]|];
    }
  }

  /** A query is found when it is found in any of the fields, whatever the case of letters. */
  lemma QueryFindsField(r: Row, q: string, i: nat)
    requires i < |FieldsOf(r)| && Holds(FieldsOf(r)[i], q)
    ensures Holds(Searchable(r), q)
  {
    var x, all := FieldsOf(r)[i], Searchable(r);
    hide Join;
    assert all == Join(FieldsOf(r), " ");
    var k := JoinHolds(FieldsOf(r), " ", i);
    LowerOfPart(all, x, k);
    PartHolds(ToLower(all), ToLower(x), k, ToLower(q));
  }

  lemma LowerOfPart(all: string, x: string, k: nat)
    requires k + |x| <= |all| && all[k..k + |x|] == x
    ensures |ToLower(all)| == |all| && |ToLower(x)| == |x| && ToLower(all)[k..k + |x|] == ToLower(x)
  {
    forall i | 0 <= i < |x| ensures ToLower(all)[k + i] == ToLower(x)[i] {
      assert all[k..k + |x|][i] == all[k + i];
    }
  }

  lemma PartHolds(all: string, x: string, k: nat, q: string)
    requires k + |x| <= |all| && all[k..k + |x|] == x && Text.Contains(x, q)
    ensures Text.Contains(all, q)
  {
    var i :| 0 <= i <= |x| && Text.OccursAt(x, q, i);
    forall j | 0 <= j < |q| ensures all[k + i + j] == q[j] {
      assert x[i..i + |q|][j] == x[i + j] == all[k..k + |x|][i + j];
    }
    assert all[k + i..k + i + |q|] == q;
    assert Text.OccursAt(all, q, k + i);
  }

  // ----- the whole answer

  /** Every row returned was asked for, the newest come first, and as many as the limit allows. */
  lemma AnswerIsWanted(res: SearchResult, all: seq<Row>, flows: seq<Row>, events: seq<Row>, f: Filter)
    requires Answers(res, all, Searched(flows, events, f), f)
    ensures var limit := if 1 <= f.limit <= 2000 then f.limit else 200;
            |res.rows| == (if res.total <= limit then res.total else limit) && (res.truncated <==> res.total > limit)
    ensures forall r :: r in res.rows ==>
              && Wanted(r, f)
              && ((r in flows && (f.sources == [] || "cilium" in f.sources)) ||
                  (r in events && (f.sources == [] || "tetragon" in f.sources)))
    ensures forall i, j :: 0 <= i < j < |res.rows| ==> res.rows[i].time >= res.rows[j].time
  {
    hide Matches, Wanted, Charts;
    forall r | r in res.rows
      ensures Wanted(r, f) && r in Searched(flows, events, f)
    {
      assert r in all && r in multiset(all);
      MatchingIn(Searched(flows, events, f), f);
      assert r in multiset(Matching(Searched(flows, events, f), f));
      MatchesExactly(r, f);
    }
    forall i, j | 0 <= i < j < |res.rows| ensures res.rows[i].time >= res.rows[j].time {
      assert NewerFirst(all[i], all[j]);
    }
  }

  /** What each facet counts. */
  lemma FacetsAreAbout(r: Row)
    ensures DimValue("namespaces", r) == r.namespace_ && DimValue("sources", r) == r.src
    ensures DimValue("destinations", r) == r.dst && DimValue("verdicts", r) == r.verdict
    ensures DimValue("binaries", r) == r.binary && DimValue("workloads", r) == r.workload
    ensures DimValue("nodes", r) == r.node && DimValue("l7Types", r) == r.l7Type
    ensures DimValue("l7Methods", r) == r.l7Method && DimValue("users", r) == r.user && DimValue("hooks", r) == r.hook
    ensures DimValue("policies", r) ==
            if r.policy != "" && r.policyNS != "" then r.policyNS + "/" + r.policy else r.policy
  {
  }

  /** Facets come by falling count, and by name where the counts are equal. */
  lemma FacetsInOrder(list: seq<Facet>, rows: seq<Row>, dim: string, i: nat, j: nat)
    requires Listed(list, rows, dim) && i < j < |list|
    ensures list[i].count > list[j].count || (list[i].count == list[j].count && Text.Less(list[i].value, list[j].value))
  {
    hide Text.Leq, CountIn;
    assert Louder(list[i], list[j]);
    LessFromLeq(list[i].value, list[j].value);
  }

  lemma LessFromLeq(a: string, b: string)
    requires a != b
    ensures Text.Leq(a, b) ==> Text.Less(a, b)
  {
  }

  // ----- the resolution of the timeline

  /** A point is at the second, counted from 1970, in which the step of its rows begins. */
  lemma SlotBegins(t: nat, step: nat)
    requires step > 0
    ensures Timeline.Slot(t, step) == (t - t % step) / 1_000_000_000 - 62_135_596_800
  {
    assert t - t % step == t / step * step;
  }

  lemma StepIsFine(from: nat, to: nat)
    requires from + 60_000_000_000 <= to <= from + Timeline.LONGEST
    ensures 0 < Timeline.StepOf(from, to) && Timeline.StepOf(from, to) * 60 <= to - from
  {
  }

  /**
   A window of a minute or more, up to 292 years, touches more than 60 steps: they are no coarser than they
   need be.
   */
  lemma AtLeast60(from: nat, to: nat)
    requires from + 60_000_000_000 <= to <= from + Timeline.LONGEST
    ensures Timeline.Steps(from, to) > 60
  {
    hide Timeline.StepOf, Timeline.Multiple;
    StepIsFine(from, to);
    SixtySteps(from, to, Timeline.StepOf(from, to));
  }

  lemma SixtySteps(from: nat, to: nat, step: nat)
    requires step > 0 && step * 60 <= to - from
    ensures to / step - from / step >= 60
  {
    var p := from / step;
    var t := Timeline.Multiple(p + 60, step);
    assert p * step <= from;
    Timeline.StepsAscend(p, p + 60, step);
    Timeline.MultipleDivides(p + 60, step);
    Timeline.DivisionMonotone(t, to, step);
  }
}
