/**
 Searching the history (backend/internal/investigate/investigate.go:81-244, 327-447): filter, facet counts, and what
 clicking a facet returns. The rows, as the store returned them for the window, are a parameter.
 */
module Investigate {
  import opened Option
  import Sorting
  import Text
  import Timeline

  datatype Row = Row(
    time: nat, verdict: string, blocked: bool,
    namespace_: string, src: string, dst: string, node: string, workload: string, pod: string, protocol: string,
    l7Type: string, l7Method: string, l7Path: string, dnsQuery: string,
    binary: string, args: string, user: string, container: string, hook: string,
    policy: string, policyNS: string, reason: string, summary: string, isReply: bool)

  datatype Filter = Filter(
    sources: seq<string>, since: Option<nat>, until: Option<nat>,
    namespaces: seq<string>, src: seq<string>, dst: seq<string>, verdicts: seq<string>, policies: seq<string>,
    binaries: seq<string>, workloads: seq<string>, nodes: seq<string>, l7Types: seq<string>, l7Methods: seq<string>,
    l7Path: string, query: string, blockedOnly: bool, hideReplies: bool, limit: int)

  datatype Facet = Facet(value: string, count: nat)

  datatype SearchResult = SearchResult(
    rows: seq<Row>, total: nat, truncated: bool, facets: map<string, seq<Facet>>, series: seq<Timeline.Bucket>)

  // ----- the filter

  function LowerChar(c: char): char {
    if 'A' <= c <= 'Z' then c - 'A' + 'a' else c
  }

  function ToLower(s: string): string {
    seq(|s|, i requires 0 <= i < |s| => LowerChar(s[i]))
  }

  predicate EqualFold(a: string, b: string) {
    ToLower(a) == ToLower(b)
  }

  predicate AnyOf(want: seq<string>, have: string) {
    want == [] || have in want
  }

  predicate AnyOfFold(want: seq<string>, have: string) {
    want == [] || exists i :: 0 <= i < |want| && EqualFold(want[i], have)
  }

  function Join(parts: seq<string>, sep: string): string {
    if parts == [] then "" else if |parts| == 1 then parts[0] else parts[0] + sep + Join(parts[1..], sep)
  }

  function Searchable(r: Row): string {
    Join([r.src, r.dst, r.namespace_, r.workload, r.pod, r.node, r.binary, r.args,
          r.user, r.container, r.hook, r.policy, r.reason, r.summary,
          r.l7Method, r.l7Path, r.dnsQuery, r.protocol, r.verdict], " ")
  }

  /** The name a policy filter compares besides the bare policy. */
  function PolicyKey(r: Row): string {
    if r.policyNS != "" then r.policyNS + "/" + r.policy else r.policy
  }

  predicate PolicyMatches(r: Row, policies: seq<string>) {
    policies == [] || AnyOf(policies, r.policy) || AnyOf(policies, PolicyKey(r))
  }

  predicate TextMatches(r: Row, f: Filter) {
    && (f.l7Path != "" ==> Text.Contains(ToLower(r.l7Path), ToLower(f.l7Path)))
    && (ToLower(Text.TrimSpace(f.query)) != "" ==>
        Text.Contains(ToLower(Searchable(r)), ToLower(Text.TrimSpace(f.query))))
  }

  predicate Matches(r: Row, f: Filter) {
    && !(f.hideReplies && r.isReply)
    && !(f.blockedOnly && !r.blocked)
    && AnyOf(f.namespaces, r.namespace_) && AnyOf(f.src, r.src) && AnyOf(f.dst, r.dst) && AnyOf(f.verdicts, r.verdict)
    && AnyOf(f.binaries, r.binary) && AnyOf(f.workloads, r.workload) && AnyOf(f.nodes, r.node) &&
       AnyOf(f.l7Types, r.l7Type)
    && AnyOfFold(f.l7Methods, r.l7Method)
    && PolicyMatches(r, f.policies)
    && TextMatches(r, f)
  }

  function Matching(rows: seq<Row>, f: Filter): seq<Row> {
    if rows == [] then []
    else Matching(rows[..|rows| - 1], f) + if Matches(rows[|rows| - 1], f) then [rows[|rows| - 1]] else []
  }

  // ----- facets

  const DIMS: seq<string> := ["namespaces", "sources", "destinations", "verdicts", "policies", "binaries",
                              "workloads", "nodes", "l7Types", "l7Methods", "users", "hooks"]

  /** The value a row shows under a facet dimension. */
  function DimValue(dim: string, r: Row): string {
    match dim
    case "namespaces" => r.namespace_
    case "sources" => r.src
    case "destinations" => r.dst
    case "verdicts" => r.verdict
    case "policies" => if r.policyNS != "" && r.policy != "" then r.policyNS + "/" + r.policy else r.policy
    case "binaries" => r.binary
    case "workloads" => r.workload
    case "nodes" => r.node
    case "l7Types" => r.l7Type
    case "l7Methods" => r.l7Method
    case "users" => r.user
    case "hooks" => r.hook
    case _ => ""
  }

  function CountIn(rows: seq<Row>, dim: string, v: string): nat {
    if rows == [] then 0
    else CountIn(rows[..|rows| - 1], dim, v) + if DimValue(dim, rows[|rows| - 1]) == v then 1 else 0
  }

  lemma OneMoreRow(rows: seq<Row>, r: Row, dim: string, v: string)
    ensures CountIn(rows + [r], dim, v) == CountIn(rows, dim, v) + if DimValue(dim, r) == v then 1 else 0
  {
    assert (rows + [r])[..|rows|] == rows;
  }

  ghost predicate Counted(counts: map<string, nat>, rows: seq<Row>, dim: string) {
    forall v :: (v in counts <==> v != "" && CountIn(rows, dim, v) > 0) &&
      (v in counts ==> counts[v] == CountIn(rows, dim, v))
  }

  method CountDim(rows: seq<Row>, dim: string) returns (counts: map<string, nat>)
    ensures Counted(counts, rows, dim)
  {
    hide DimValue, CountIn;
    counts := map[];
    NothingCounted(dim);
    for i := 0 to |rows|
      invariant Counted(counts, rows[..i], dim)
    {
      assert rows[..i + 1] == rows[..i] + [rows[i]];
      var v := DimValue(dim, rows[i]);
      forall x ensures CountIn(rows[..i + 1], dim, x) == CountIn(rows[..i], dim, x) + if v == x then 1 else 0 {
        OneMoreRow(rows[..i], rows[i], dim, x);
      }
      if v != "" {
        counts := counts[v := (if v in counts then counts[v] else 0) + 1];
      }
    }
    assert rows[..|rows|] == rows;
  }

  lemma NothingCounted(dim: string)
    ensures forall v :: CountIn([], dim, v) == 0
  {
  }

  /** Louder first, then by name. */
  predicate Louder(a: Facet, b: Facet) {
    a.count > b.count || (a.count == b.count && Text.Leq(a.value, b.value))
  }

  lemma LouderIsTotalPreorder()
    ensures Sorting.TotalPreorder(Louder)
  {
    hide Text.Leq;
    Text.LeqIsTotalPreorder();
  }

  const FACET_CAP: nat := 60

  /** The facets of one dimension: true counts, loudest first, and only quieter ones left out. */
  ghost predicate Listed(list: seq<Facet>, rows: seq<Row>, dim: string) {
    && |list| <= 60
    && Sorting.SortedBy(Louder, list)
    && (forall i :: 0 <= i < |list| ==> list[i].value != "" && list[i].count == CountIn(rows, dim, list[i].value) > 0)
    && (forall i, j :: 0 <= i < j < |list| ==> list[i].value != list[j].value)
    && (forall v :: v != "" && CountIn(rows, dim, v) > 0 && (forall i :: 0 <= i < |list| ==> list[i].value != v) ==>
          |list| == 60 && forall i :: 0 <= i < |list| ==> Louder(list[i], Facet(v, CountIn(rows, dim, v))))
  }

  method FacetsOf(rows: seq<Row>, dim: string) returns (list: seq<Facet>)
    ensures Listed(list, rows, dim)
  {
    hide CountIn, Louder;
    var counts := CountDim(rows, dim);
    list := ListCounts(counts);
    LouderIsTotalPreorder();
    var unsorted := list;
    list := Sorting.Sort(Louder, list);
    Sorting.SameMembers(unsorted, list);
    SortedFacets(unsorted, list, counts);
    CutFacets(list, rows, dim, counts);
    if |list| > FACET_CAP {
      list := list[..FACET_CAP];
    }
  }

  method ListCounts(counts: map<string, nat>) returns (list: seq<Facet>)
    ensures forall i :: 0 <= i < |list| ==> list[i].value in counts && list[i].count == counts[list[i].value]
    ensures forall i, j :: 0 <= i < j < |list| ==> list[i].value != list[j].value
    ensures forall v :: v in counts ==> Facet(v, counts[v]) in list
  {
    list := [];
    var keys := counts.Keys;
    while keys != {}
      invariant keys <= counts.Keys
      invariant forall i :: 0 <= i < |list| ==>
                  list[i].value in counts && list[i].value !in keys && list[i].count == counts[list[i].value]
      invariant forall i, j :: 0 <= i < j < |list| ==> list[i].value != list[j].value
      invariant forall v :: v in counts && v !in keys ==> Facet(v, counts[v]) in list
      decreases |keys|
    {
      var v :| v in keys;
      keys := keys - {v};
      list := list + [Facet(v, counts[v])];
    }
  }

  lemma SortedFacets(xs: seq<Facet>, ys: seq<Facet>, counts: map<string, nat>)
    requires multiset(xs) == multiset(ys) && forall x :: x in xs <==> x in ys
    requires forall i :: 0 <= i < |xs| ==> xs[i].value in counts && xs[i].count == counts[xs[i].value]
    requires forall i, j :: 0 <= i < j < |xs| ==> xs[i].value != xs[j].value
    ensures forall i :: 0 <= i < |ys| ==> ys[i].value in counts && ys[i].count == counts[ys[i].value]
    ensures forall i, j :: 0 <= i < j < |ys| ==> ys[i].value != ys[j].value
  {
    forall i | 0 <= i < |ys| ensures ys[i].value in counts && ys[i].count == counts[ys[i].value] {
      assert ys[i] in xs;
    }
    Sorting.DistinctStaysDistinct(xs, ys);
  }

  lemma CutFacets(all: seq<Facet>, rows: seq<Row>, dim: string, counts: map<string, nat>)
    requires Counted(counts, rows, dim) && Sorting.SortedBy(Louder, all)
    requires forall i :: 0 <= i < |all| ==> all[i].value in counts && all[i].count == counts[all[i].value]
    requires forall i, j :: 0 <= i < j < |all| ==> all[i].value != all[j].value
    requires forall v :: v in counts ==> Facet(v, counts[v]) in all
    ensures Listed(if |all| > FACET_CAP then all[..FACET_CAP] else all, rows, dim)
  {
    hide CountIn, Louder;
    var list := if |all| > FACET_CAP then all[..FACET_CAP] else all;
    forall v | v != "" && CountIn(rows, dim, v) > 0 && (forall i :: 0 <= i < |list| ==> list[i].value != v)
      ensures |list| == FACET_CAP && forall i :: 0 <= i < |list| ==> Louder(list[i], Facet(v, CountIn(rows, dim, v)))
    {
      var x := Facet(v, counts[v]);
      assert x in all;
      var k :| 0 <= k < |all| && all[k] == x;
    }
  }

  method Facets(rows: seq<Row>) returns (out: map<string, seq<Facet>>)
    ensures forall d :: d in out <==> d in DIMS
    ensures forall d :: d in DIMS ==> Listed(out[d], rows, d)
  {
    hide Listed;
    out := map[];
    var dims := DIMS;
    for i := 0 to |dims|
      invariant forall d :: d in out <==> d in dims[..i]
      invariant forall d :: d in dims[..i] ==> Listed(out[d], rows, d)
    {
      assert dims[..i + 1] == dims[..i] + [dims[i]];
      var list := FacetsOf(rows, dims[i]);
      out := out[dims[i] := list];
    }
    assert dims[..|dims|] == dims;
  }

  // ----- the search

  predicate NewerFirst(a: Row, b: Row) {
    a.time >= b.time
  }

  function Limit(f: Filter): nat {
    if f.limit <= 0 || f.limit > 2000 then 200 else f.limit
  }

  /** The rows searched: both sources unless the filter names sources. */
  function Searched(flows: seq<Row>, events: seq<Row>, f: Filter): seq<Row> {
    (if f.sources == [] || "cilium" in f.sources then flows else []) +
    (if f.sources == [] || "tetragon" in f.sources then events else [])
  }

  function Points(rows: seq<Row>): seq<Timeline.Point> {
    seq(|rows|, i requires 0 <= i < |rows| => Timeline.Point(rows[i].time, rows[i].blocked))
  }

  /** The timeline has the points of these rows, each with its total and its blocked rows. */
  ghost predicate Charts(series: seq<Timeline.Bucket>, all: seq<Row>, f: Filter) {
    var points := Points(all);
    && Timeline.Totals(series) == |all| && Timeline.Blocks(series) == Timeline.Blocked(points)
    && (all == [] ==> series == [])
    && (all != [] ==>
          Timeline.Drawn(series, points,
                         Timeline.StepOf(Timeline.Since(points, f.since), Timeline.Until(points, f.until))))
  }

  /** The result is about an arrangement of the matching rows, newest first. */
  ghost predicate Answers(res: SearchResult, all: seq<Row>, rows: seq<Row>, f: Filter) {
    && multiset(all) == multiset(Matching(rows, f))
    && Sorting.SortedBy(NewerFirst, all)
    && res.total == |all|
    && res.truncated == (|all| > Limit(f))
    && res.rows == (if res.truncated then all[..Limit(f)] else all)
    && Charts(res.series, all, f)
  }

  method Search(flows: seq<Row>, events: seq<Row>, f: Filter) returns (res: SearchResult)
    ensures exists all :: Answers(res, all, Searched(flows, events, f), f)
    ensures res.total == |Matching(Searched(flows, events, f), f)|
    ensures forall d :: d in res.facets <==> d in DIMS
    ensures forall d :: d in DIMS ==> Listed(res.facets[d], Matching(Searched(flows, events, f), f), d)
    ensures Timeline.Totals(res.series) == res.total
    ensures (forall r :: r in Searched(flows, events, f) ==> InWindow(r, f)) && Short(Searched(flows, events, f), f) ==>
              |res.series| <= 62
  {
    hide Matches, Listed, Timeline.Totals, Timeline.Blocks, Timeline.Drawn;
    var rows := Searched(flows, events, f);
    var kept := Keep(rows, f);
    var all := Sorting.Sort(NewerFirst, kept);
    var facets := Facets(all);
    FacetsOfArrangement(facets, all, kept);
    var series := Timeline.Series(Points(all), f.since, f.until);
    if forall r :: r in rows ==> InWindow(r, f) {
      PointsInWindow(all, kept, rows, f);
    }
    var truncated := |all| > Limit(f);
    res := SearchResult(if truncated then all[..Limit(f)] else all, |all|, truncated, facets, series);
    assert Answers(res, all, rows, f);
  }

  /** The window, drawn from the oldest or to the newest row where a bound is absent, is up to 292 years long. */
  ghost predicate Short(rows: seq<Row>, f: Filter) {
    forall from: nat, to: nat :: Begins(from, rows, f) && Ends(to, rows, f) ==> to <= from + Timeline.LONGEST
  }

  predicate Begins(from: nat, rows: seq<Row>, f: Filter) {
    f.since == Some(from) || (f.since == None && exists r :: r in rows && r.time == from)
  }

  predicate Ends(to: nat, rows: seq<Row>, f: Filter) {
    f.until == Some(to) || (f.until == None && exists r :: r in rows && r.time == to)
  }

  /** Compacting in place: every kept row is written at or before the place it was read from. */
  method Keep(rows: seq<Row>, f: Filter) returns (kept: seq<Row>)
    ensures kept == Matching(rows, f)
  {
    hide Matches;
    var buffer := rows;
    var n := 0;
    for i := 0 to |rows|
      invariant n <= i && |buffer| == |rows|
      invariant buffer[i..] == rows[i..]
      invariant buffer[..n] == Matching(rows[..i], f)
    {
      assert rows[..i + 1][..i] == rows[..i];
      var row := buffer[i];
      assert row == buffer[i..][0] == rows[i];
      if Matches(row, f) {
        buffer := buffer[n := row];
        n := n + 1;
      }
    }
    assert rows[..|rows|] == rows;
    kept := buffer[..n];
  }

  predicate InWindow(r: Row, f: Filter) {
    (f.since.Some? ==> f.since.value <= r.time) && (f.until.Some? ==> r.time <= f.until.value)
  }

  lemma {:induction false} MatchingIn(rows: seq<Row>, f: Filter)
    ensures forall r :: r in Matching(rows, f) <==> r in rows && Matches(r, f)
  {
    hide Matches;
    if rows != [] {
      var n := |rows| - 1;
      MatchingIn(rows[..n], f);
      assert rows == rows[..n] + [rows[n]];
    }
  }

  lemma RowsBetweenEnds(all: seq<Row>, i: nat)
    requires Sorting.SortedBy(NewerFirst, all) && i < |all|
    ensures all[|all| - 1].time <= all[i].time <= all[0].time
  {
    assert i == 0 || NewerFirst(all[0], all[i]);
    assert i == |all| - 1 || NewerFirst(all[i], all[|all| - 1]);
  }

  lemma PointsInWindow(all: seq<Row>, kept: seq<Row>, rows: seq<Row>, f: Filter)
    requires multiset(all) == multiset(kept) && kept == Matching(rows, f) && Sorting.SortedBy(NewerFirst, all)
    requires forall r :: r in rows ==> InWindow(r, f)
    ensures all != [] ==>
              Timeline.RowsWithin(Points(all), Timeline.Since(Points(all), f.since),
                                  Timeline.Until(Points(all), f.until))
    ensures all != [] && Short(rows, f) ==>
              Timeline.Until(Points(all), f.until) <= Timeline.Since(Points(all), f.since) + Timeline.LONGEST
  {
    hide Matches, Matching, NewerFirst;
    Sorting.SameMembers(all, kept);
    MatchingIn(rows, f);
    forall p | p in Points(all)
      ensures Timeline.Since(Points(all), f.since) <= p.time <= Timeline.Until(Points(all), f.until)
    {
      var i :| 0 <= i < |all| && Points(all)[i] == p;
      assert all[i] in kept && InWindow(all[i], f);
      RowsBetweenEnds(all, i);
    }
    if all != [] {
      assert all[0] in kept && all[|all| - 1] in kept;
      assert Begins(Timeline.Since(Points(all), f.since), rows, f) &&
        Ends(Timeline.Until(Points(all), f.until), rows, f);
    }
  }

  function Without(ys: seq<Row>, k: nat): seq<Row>
    requires k < |ys|
  {
    ys[..k] + ys[k + 1..]
  }

  lemma CountWithout(ys: seq<Row>, k: nat, dim: string, v: string)
    requires k < |ys|
    ensures CountIn(ys, dim, v) == CountIn(Without(ys, k), dim, v) + if DimValue(dim, ys[k]) == v then 1 else 0
  {
    hide DimValue;
    OneMoreRow(ys[..k], ys[k], dim, v);
    CountAppend(ys[..k + 1], ys[k + 1..], dim, v);
    CountAppend(ys[..k], ys[k + 1..], dim, v);
    assert ys == ys[..k + 1] + ys[k + 1..] && ys[..k + 1] == ys[..k] + [ys[k]];
  }

  lemma MultisetWithout(ys: seq<Row>, k: nat)
    requires k < |ys|
    ensures multiset(Without(ys, k)) == multiset(ys) - multiset{ys[k]}
  {
    assert ys == ys[..k] + [ys[k]] + ys[k + 1..];
  }

  lemma {:induction false} CountOfArrangement(xs: seq<Row>, ys: seq<Row>, dim: string, v: string)
    requires multiset(xs) == multiset(ys)
    ensures CountIn(xs, dim, v) == CountIn(ys, dim, v)
    decreases |xs|
  {
    hide DimValue, CountIn;
    assert |xs| == |multiset(xs)| == |multiset(ys)| == |ys|;
    if xs != [] {
      Sorting.SameMembers(xs, ys);
      assert xs[0] in ys;
      var k :| 0 <= k < |ys| && ys[k] == xs[0];
      MultisetWithout(xs, 0);
      MultisetWithout(ys, k);
      CountWithout(xs, 0, dim, v);
      CountWithout(ys, k, dim, v);
      CountOfArrangement(Without(xs, 0), Without(ys, k), dim, v);
    }
  }

  lemma {:induction false} CountAppend(a: seq<Row>, b: seq<Row>, dim: string, v: string)
    ensures CountIn(a + b, dim, v) == CountIn(a, dim, v) + CountIn(b, dim, v)
  {
    hide DimValue;
    if b == [] {
      assert a + b == a;
    } else {
      CountAppend(a, b[..|b| - 1], dim, v);
      assert (a + b)[..|a + b| - 1] == a + b[..|b| - 1];
    }
  }

  lemma FacetsOfArrangement(facets: map<string, seq<Facet>>, all: seq<Row>, kept: seq<Row>)
    requires multiset(all) == multiset(kept)
    requires (forall d :: d in facets <==> d in DIMS) && forall d :: d in DIMS ==> Listed(facets[d], all, d)
    ensures forall d :: d in DIMS ==> Listed(facets[d], kept, d)
  {
    hide CountIn, Louder;
    forall d | d in DIMS ensures Listed(facets[d], kept, d) {
      forall v ensures CountIn(all, d, v) == CountIn(kept, d, v) {
        CountOfArrangement(all, kept, d, v);
      }
    }
  }

  // ----- clicking a facet

  /** The filter fields that a facet of each dimension writes, when clicked. */
  predicate FieldEmpty(f: Filter, dim: string) {
    match dim
    case "namespaces" => f.namespaces == []
    case "sources" => f.src == []
    case "destinations" => f.dst == []
    case "verdicts" => f.verdicts == []
    case "policies" => f.policies == []
    case "binaries" => f.binaries == []
    case "workloads" => f.workloads == []
    case "nodes" => f.nodes == []
    case "l7Types" => f.l7Types == []
    case "l7Methods" => f.l7Methods == []
    case _ => false
  }

  function Click(f: Filter, dim: string, v: string): Filter {
    match dim
    case "namespaces" => f.(namespaces := [v])
    case "sources" => f.(src := [v])
    case "destinations" => f.(dst := [v])
    case "verdicts" => f.(verdicts := [v])
    case "policies" => f.(policies := [v])
    case "binaries" => f.(binaries := [v])
    case "workloads" => f.(workloads := [v])
    case "nodes" => f.(nodes := [v])
    case "l7Types" => f.(l7Types := [v])
    case "l7Methods" => f.(l7Methods := [v])
    case _ => f
  }

  /** What the clicked value lets through. */
  predicate Picks(dim: string, v: string, r: Row) {
    match dim
    case "policies" => r.policy == v || PolicyKey(r) == v
    case "l7Methods" => EqualFold(v, r.l7Method)
    case _ => DimValue(dim, r) == v
  }

  /** Narrowing one list from everything to one value. */
  lemma Narrowed(before: seq<string>, after: seq<string>, clicked: bool, v: string, x: string)
    requires if clicked then before == [] && after == [v] else after == before
    ensures AnyOf(after, x) <==> AnyOf(before, x) && (clicked ==> x == v)
    ensures AnyOfFold(after, x) <==> AnyOfFold(before, x) && (clicked ==> EqualFold(v, x))
  {
    hide EqualFold;
    assert clicked ==> after[0] == v;
  }

  lemma NarrowedPolicy(before: seq<string>, after: seq<string>, clicked: bool, v: string, r: Row)
    requires if clicked then before == [] && after == [v] else after == before
    ensures PolicyMatches(r, after) <==> PolicyMatches(r, before) && (clicked ==> r.policy == v || PolicyKey(r) == v)
  {
    hide PolicyKey;
  }

  /** Each field after a click. */
  lemma ClickedFields(f: Filter, dim: string, v: string)
    requires FieldEmpty(f, dim)
    ensures var g := Click(f, dim, v);
      && (if dim == "namespaces" then f.namespaces == [] && g.namespaces == [v] else g.namespaces == f.namespaces)
      && (if dim == "sources" then f.src == [] && g.src == [v] else g.src == f.src)
      && (if dim == "destinations" then f.dst == [] && g.dst == [v] else g.dst == f.dst)
      && (if dim == "verdicts" then f.verdicts == [] && g.verdicts == [v] else g.verdicts == f.verdicts)
      && (if dim == "policies" then f.policies == [] && g.policies == [v] else g.policies == f.policies)
      && (if dim == "binaries" then f.binaries == [] && g.binaries == [v] else g.binaries == f.binaries)
      && (if dim == "workloads" then f.workloads == [] && g.workloads == [v] else g.workloads == f.workloads)
      && (if dim == "nodes" then f.nodes == [] && g.nodes == [v] else g.nodes == f.nodes)
      && (if dim == "l7Types" then f.l7Types == [] && g.l7Types == [v] else g.l7Types == f.l7Types)
      && (if dim == "l7Methods" then f.l7Methods == [] && g.l7Methods == [v] else g.l7Methods == f.l7Methods)
  {
  }

  lemma PicksByField(f: Filter, dim: string, v: string, r: Row)
    requires FieldEmpty(f, dim)
    ensures Picks(dim, v, r) <==>
      && (dim == "namespaces" ==> r.namespace_ == v) && (dim == "sources" ==> r.src == v)
      && (dim == "destinations" ==> r.dst == v) && (dim == "verdicts" ==> r.verdict == v)
      && (dim == "policies" ==> r.policy == v || PolicyKey(r) == v) && (dim == "binaries" ==> r.binary == v)
      && (dim == "workloads" ==> r.workload == v) && (dim == "nodes" ==> r.node == v)
      && (dim == "l7Types" ==> r.l7Type == v) && (dim == "l7Methods" ==> EqualFold(v, r.l7Method))
  {
    hide EqualFold, PolicyKey;
  }

  /** A click narrows an empty field to one value and touches nothing else. */
  lemma ClickNarrows(f: Filter, dim: string, v: string, r: Row)
    requires FieldEmpty(f, dim)
    ensures Matches(r, Click(f, dim, v)) <==> Matches(r, f) && Picks(dim, v, r)
  {
    hide TextMatches, EqualFold, AnyOf, AnyOfFold, PolicyMatches, PolicyKey, Picks, Click, FieldEmpty;
    ClickKeepsText(f, dim, v, r);
    ClickedFields(f, dim, v);
    PicksByField(f, dim, v, r);
    var g := Click(f, dim, v);
    Narrowed(f.namespaces, g.namespaces, dim == "namespaces", v, r.namespace_);
    Narrowed(f.src, g.src, dim == "sources", v, r.src);
    Narrowed(f.dst, g.dst, dim == "destinations", v, r.dst);
    Narrowed(f.verdicts, g.verdicts, dim == "verdicts", v, r.verdict);
    Narrowed(f.binaries, g.binaries, dim == "binaries", v, r.binary);
    Narrowed(f.workloads, g.workloads, dim == "workloads", v, r.workload);
    Narrowed(f.nodes, g.nodes, dim == "nodes", v, r.node);
    Narrowed(f.l7Types, g.l7Types, dim == "l7Types", v, r.l7Type);
    Narrowed(f.l7Methods, g.l7Methods, dim == "l7Methods", v, r.l7Method);
    NarrowedPolicy(f.policies, g.policies, dim == "policies", v, r);
  }

  lemma ClickKeepsText(f: Filter, dim: string, v: string, r: Row)
    ensures TextMatches(r, Click(f, dim, v)) == TextMatches(r, f)
    ensures Click(f, dim, v).hideReplies == f.hideReplies && Click(f, dim, v).blockedOnly == f.blockedOnly
  {
    hide ToLower, Searchable, Text.TrimSpace, Text.Contains;
    assert Click(f, dim, v).l7Path == f.l7Path && Click(f, dim, v).query == f.query;
  }

  /** Rows that the click picks although the facet counted them elsewhere. */
  function Strays(rows: seq<Row>, dim: string, v: string): nat {
    if rows == [] then 0
    else Strays(rows[..|rows| - 1], dim, v)
         + if Picks(dim, v, rows[|rows| - 1]) && DimValue(dim, rows[|rows| - 1]) != v then 1 else 0
  }

  lemma OwnValuePicked(dim: string, v: string, r: Row)
    requires v != "" && DimValue(dim, r) == v
    ensures Picks(dim, v, r)
  {
    hide ToLower;
  }

  /** The clicked search finds the counted rows and the strays. */
  lemma {:induction false} ClickFinds(rows: seq<Row>, f: Filter, dim: string, v: string)
    requires FieldEmpty(f, dim) && v != ""
    ensures |Matching(rows, Click(f, dim, v))| == CountIn(Matching(rows, f), dim, v) + Strays(Matching(rows, f), dim, v)
  {
    hide Matches, Picks, DimValue, FieldEmpty, Click;
    if rows != [] {
      var n := |rows| - 1;
      var r, before := rows[n], Matching(rows[..n], f);
      ClickFinds(rows[..n], f, dim, v);
      ClickNarrows(f, dim, v, r);
      OneMoreStray(before, r, dim, v);
      assert before + [] == before;
    }
  }

  lemma OneMoreStray(rows: seq<Row>, r: Row, dim: string, v: string)
    requires v != ""
    ensures Strays(rows + [r], dim, v) + CountIn(rows + [r], dim, v)
         == Strays(rows, dim, v) + CountIn(rows, dim, v) + if Picks(dim, v, r) then 1 else 0
  {
    hide Picks, DimValue;
    assert (rows + [r])[..|rows|] == rows;
    if DimValue(dim, r) == v {
      OwnValuePicked(dim, v, r);
    }
  }

  predicate Plain(dim: string) {
    dim in {"namespaces", "sources", "destinations", "verdicts", "binaries", "workloads", "nodes", "l7Types"}
  }

  lemma {:induction false} PlainHasNoStrays(rows: seq<Row>, dim: string, v: string)
    requires Plain(dim)
    ensures Strays(rows, dim, v) == 0
  {
    hide DimValue;
    if rows != [] {
      PlainHasNoStrays(rows[..|rows| - 1], dim, v);
      assert dim != "policies" && dim != "l7Methods";
    }
  }

  lemma {:induction false} NoStraysExactly(rows: seq<Row>, dim: string, v: string)
    ensures Strays(rows, dim, v) == 0 <==> forall r :: r in rows && Picks(dim, v, r) ==> DimValue(dim, r) == v
  {
    hide DimValue, Picks;
    if rows != [] {
      var n := |rows| - 1;
      NoStraysExactly(rows[..n], dim, v);
      assert rows == rows[..n] + [rows[n]];
    }
  }

  /**
   A row a clicked policy picks beside the facet: its bare name is the value but the facet showed it with its
   namespace.
   */
  lemma PolicyStray(v: string, r: Row)
    requires v != ""
    ensures Picks("policies", v, r) && DimValue("policies", r) != v <==>
            r.policyNS != "" && ((r.policy == v && PolicyKey(r) != v) || (r.policy == "" && PolicyKey(r) == v))
  {
  }

  /** Clicking a facet of the eight plain dimensions returns exactly the count it showed. */
  lemma ClickReturnsCount(flows: seq<Row>, events: seq<Row>, f: Filter, dim: string, list: seq<Facet>, i: nat)
    requires Plain(dim) && FieldEmpty(f, dim)
    requires Listed(list, Matching(Searched(flows, events, f), f), dim) && i < |list|
    ensures |Matching(Searched(flows, events, Click(f, dim, list[i].value)), Click(f, dim, list[i].value))| ==
            list[i].count
  {
    hide Matches, Click, DimValue, Louder, FieldEmpty;
    var v := list[i].value;
    ClickKeepsSources(f, dim, v);
    ClickFinds(Searched(flows, events, f), f, dim, v);
    PlainHasNoStrays(Matching(Searched(flows, events, f), f), dim, v);
  }

  lemma ClickKeepsSources(f: Filter, dim: string, v: string)
    ensures Click(f, dim, v).sources == f.sources
  {
  }

  /** For policies and methods the count is exact exactly when no matching row is picked under another name. */
  lemma ClickReturnsCountExactly(rows: seq<Row>, f: Filter, dim: string, v: string)
    requires FieldEmpty(f, dim) && v != ""
    ensures |Matching(rows, Click(f, dim, v))| == CountIn(Matching(rows, f), dim, v) <==>
            forall r :: r in Matching(rows, f) && Picks(dim, v, r) ==> DimValue(dim, r) == v
  {
    hide Matches, Click, DimValue, Picks, FieldEmpty;
    ClickFinds(rows, f, dim, v);
    NoStraysExactly(Matching(rows, f), dim, v);
  }

  /**
   One policy name with and without a namespace: the facet of the bare name shows one row, and clicking it
   finds both.
   */
  lemma PolicyFacetFindsMore(f: Filter, a: Row, b: Row)
    requires FieldEmpty(f, "policies") && Matches(a, f) && Matches(b, f)
    requires a.policy == b.policy != "" && a.policyNS == "" && b.policyNS != ""
    ensures CountIn(Matching([a, b], f), "policies", a.policy) == 1
    ensures |Matching([a, b], Click(f, "policies", a.policy))| == 2
  {
    hide Matches;
    var rows := [a, b];
    assert rows[..1] == [a] && rows[..1][..0] == [];
    assert Matching([a], f) == [a];
    assert Matching(rows, f) == [a] + [b] == rows;
    assert |b.policyNS + "/" + b.policy| > |b.policy|;
    assert CountIn([a], "policies", a.policy) == 1;
    assert Strays([a], "policies", a.policy) == 0 && Strays(rows, "policies", a.policy) == 1;
    ClickFinds(rows, f, "policies", a.policy);
  }
}
