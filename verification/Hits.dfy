/**
 Per-policy hit accounting (backend/internal/hits/hits.go): totals, the last samples, and for every
 dimension a bounded table of values that drops the quietest one.
 */
module Hits {
  import opened Recent
  import Sums
  import Text

  const MAX_VALUES: nat := 500
  const SAMPLES: nat := 40

  datatype Event = Event(
    time: nat, policy: string, policyNamespace: string, action: string,
    binary: string, parent: string, user: string, container: string, namespace_: string,
    workload: string, pod: string, node: string, function_: string,
    labels: map<string, string>, argList: seq<string>)

  datatype Value = Value(
    value: string, count: nat, enforced: nat, firstSeen: nat, lastSeen: nat, argIndex: int, excludable: bool)

  type Bucket = map<string, Value>

  /** One call of `record` with a non-empty value. */
  datatype Hit = Hit(value: string, enforced: bool, argIndex: int, at: nat)

  predicate Excludable(dim: string) {
    dim in {"binaries", "parentBinaries", "paths", "podLabels", "containers"}
  }

  // ----- counting in the log

  function Occurrences(log: seq<Hit>, v: string): nat {
    if log == [] then 0
    else Occurrences(log[..|log| - 1], v) + if log[|log| - 1].value == v then 1 else 0
  }

  function Enforcements(log: seq<Hit>, v: string): nat {
    if log == [] then 0
    else Enforcements(log[..|log| - 1], v) + if log[|log| - 1].value == v && log[|log| - 1].enforced then 1 else 0
  }

  /** The hits of one value, in order. */
  function Of(log: seq<Hit>, v: string): seq<Hit> {
    if log == [] then []
    else Of(log[..|log| - 1], v) + if log[|log| - 1].value == v then [log[|log| - 1]] else []
  }

  lemma OfGrows(log: seq<Hit>, h: Hit, v: string)
    ensures Of(log + [h], v) == Of(log, v) + if h.value == v then [h] else []
  {
    assert (log + [h])[..|log|] == log;
  }

  lemma {:induction false} OfCounts(log: seq<Hit>, v: string)
    ensures |Of(log, v)| == Occurrences(log, v) && EnforcedIn(Of(log, v)) == Enforcements(log, v)
  {
    if log != [] {
      var n := |log| - 1;
      OfCounts(log[..n], v);
      if log[n].value == v {
        OneMoreIn(Of(log[..n], v), log[n]);
      } else {
        assert Of(log, v) == Of(log[..n], v);
      }
    }
  }

  function EnforcedIn(hs: seq<Hit>): nat {
    if hs == [] then 0 else EnforcedIn(hs[..|hs| - 1]) + if hs[|hs| - 1].enforced then 1 else 0
  }

  function Latest(hs: seq<Hit>): nat {
    if hs == [] then 0 else Max(Latest(hs[..|hs| - 1]), hs[|hs| - 1].at)
  }

  /** The argument position of the last hit that has one. */
  function LastArg(hs: seq<Hit>): int {
    if hs == [] then -1
    else if hs[|hs| - 1].argIndex >= 0 then hs[|hs| - 1].argIndex
    else LastArg(hs[..|hs| - 1])
  }

  function Max(a: nat, b: nat): nat {
    if a < b then b else a
  }

  lemma OneMoreIn(hs: seq<Hit>, h: Hit)
    ensures EnforcedIn(hs + [h]) == EnforcedIn(hs) + if h.enforced then 1 else 0
    ensures Latest(hs + [h]) == Max(Latest(hs), h.at)
    ensures LastArg(hs + [h]) == if h.argIndex >= 0 then h.argIndex else LastArg(hs)
  {
    assert (hs + [h])[..|hs|] == hs;
  }

  /** What a table says of a value, given the hits it has counted. */
  function EntryOf(d: string, hs: seq<Hit>): Value
    requires hs != []
  {
    Value(hs[0].value, |hs|, EnforcedIn(hs), hs[0].at, Latest(hs), LastArg(hs),
          d in {"binaries", "parentBinaries", "paths", "podLabels", "containers"})
  }

  /** The entry is about the last of these hits: all of them if nothing was dropped. */
  ghost predicate AboutLast(entry: Value, d: string, hs: seq<Hit>, lost: nat) {
    exists n: nat :: n < |hs| && entry == EntryOf(d, hs[n..]) && (lost == 0 ==> n == 0)
  }

  ghost predicate Summarises(b: Bucket, d: string, log: seq<Hit>, lost: nat) {
    forall v :: v in b ==> AboutLast(b[v], d, Of(log, v), lost)
  }

  lemma CountsGrow(log: seq<Hit>, h: Hit, v: string)
    ensures Occurrences(log + [h], v) == Occurrences(log, v) + if h.value == v then 1 else 0
    ensures Enforcements(log + [h], v) == Enforcements(log, v) + if h.value == v && h.enforced then 1 else 0
  {
    assert (log + [h])[..|log|] == log;
  }

  // ----- sums over a table

  function Counts(b: Bucket): map<string, nat> {
    map k | k in b :: b[k].count
  }

  /** All the hits a table has counted. */
  ghost function Sum(b: Bucket): nat {
    Sums.Sum(Counts(b))
  }

  lemma SumWithout(b: Bucket, k: string)
    requires k in b
    ensures Sum(b) == b[k].count + Sum(b - {k})
  {
    Sums.SumWithout(Counts(b), k);
    assert Counts(b - {k}) == Counts(b) - {k};
  }

  lemma SumWith(b: Bucket, k: string, v: Value)
    ensures Sum(b[k := v]) == v.count + Sum(b - {k})
  {
    Sums.SumWith(Counts(b), k, v.count);
    assert Counts(b - {k}) == Counts(b) - {k};
    assert Counts(b[k := v]) == Counts(b)[k := v.count];
  }

  lemma LeastTimesSize(b: Bucket, c: nat)
    requires forall v :: v in b ==> c <= b[v].count
    ensures |b| * c <= Sum(b)
  {
    Sums.LeastTimesSize(Counts(b), c);
    assert |Counts(b)| == |Counts(b).Keys| && Counts(b).Keys == b.Keys && |b| == |b.Keys|;
  }

  lemma SizeWithout(b: Bucket, k: string)
    requires k in b
    ensures |b - {k}| == |b| - 1
  {
    assert (b - {k}).Keys == b.Keys - {k};
    assert |b - {k}| == |(b - {k}).Keys| && |b| == |b.Keys|;
  }

  // ----- what a table means

  ghost predicate Bounded(b: Bucket, log: seq<Hit>) {
    forall v :: v in b ==> && v != "" && b[v].value == v
                           && b[v].count <= Occurrences(log, v)
                           && b[v].enforced <= b[v].count && b[v].enforced <= Enforcements(log, v)
  }

  ghost predicate Exact(b: Bucket, log: seq<Hit>) {
    forall v :: if v in b then b[v].count == Occurrences(log, v) && b[v].enforced == Enforcements(log, v)
                else Occurrences(log, v) == 0
  }

  /** Every count is positive, but for a value that is about to be counted. */
  ghost predicate Positive(b: Bucket, except: string) {
    forall v :: v in b && v != except ==> b[v].count >= 1
  }

  /** `lost` is what the dropped entries had counted: the table and it account for every hit. */
  ghost predicate Balanced(b: Bucket, log: seq<Hit>, lost: nat) {
    && |b| <= MAX_VALUES
    && Bounded(b, log)
    && Sum(b) + lost == |log|
    && (lost == 0 ==> Exact(b, log))
  }

  ghost predicate Accounted(b: Bucket, log: seq<Hit>, lost: nat) {
    Balanced(b, log, lost) && Positive(b, "")
  }

  /** The least count goes; any of the least on a tie. */
  method EvictQuietest(bucket: Bucket) returns (r: Bucket, k: string)
    requires bucket != map[]
    ensures k in bucket && r == bucket - {k}
    ensures forall v :: v in bucket ==> bucket[k].count <= bucket[v].count
  {
    var worstKey, worst := "", -1;
    var keys := bucket.Keys;
    while keys != {}
      invariant keys <= bucket.Keys
      invariant worst < 0 ==> keys == bucket.Keys
      invariant worst >= 0 ==> worstKey in bucket && bucket[worstKey].count == worst
      invariant worst >= 0 ==> forall v :: v in bucket && v !in keys ==> worst <= bucket[v].count
      decreases |keys|
    {
      var key :| key in keys;
      keys := keys - {key};
      if worst < 0 || bucket[key].count < worst {
        worstKey, worst := key, bucket[key].count;
      }
    }
    r := bucket - {worstKey};
    k := worstKey;
  }

  /** The entry a value has, or enters with. */
  function EntryFor(b: Bucket, dim: string, value: string, argIndex: int, at: nat): Value {
    if value in b then b[value] else Value(value, 0, 0, at, 0, argIndex, Excludable(dim))
  }

  /** An entry after one more hit. */
  function AfterHit(v: Value, enforced: bool, argIndex: int, at: nat): Value {
    v.(count := v.count + 1,
       enforced := if enforced then v.enforced + 1 else v.enforced,
       lastSeen := if at > v.lastSeen then at else v.lastSeen,
       argIndex := if argIndex >= 0 then argIndex else v.argIndex)
  }

  /** The value's entry, made if it has none: in a full table the quietest one makes room. */
  method Enter(bucket: Bucket, dim: string, value: string, argIndex: int, at: nat, ghost log: seq<Hit>, ghost lost: nat)
    returns (r: Bucket, ghost lost': nat)
    requires value != "" && Accounted(bucket, log, lost)
    ensures Balanced(r, log, lost') && Positive(r, value)
    ensures value in r && r[value] == EntryFor(bucket, dim, value, argIndex, at)
    ensures forall v :: v in r && v != value ==> v in bucket && r[v] == bucket[v]
    ensures value in bucket || |bucket| < MAX_VALUES ==> bucket.Keys <= r.Keys
    ensures lost <= lost' && MAX_VALUES * (lost' - lost) <= |log|
  {
    hide Balanced, Positive, Sum;
    r, lost' := bucket, lost;
    PositiveBut(bucket, log, lost, value);
    if value !in r {
      if |r| >= MAX_VALUES {
        var k;
        r, k := EvictQuietest(r);
        lost' := lost + bucket[k].count;
        Evicted(bucket, k, log, lost, value);
      }
      SmallEnough(bucket, r, log, lost);
      Entered(r, log, value, Value(value, 0, 0, at, 0, argIndex, Excludable(dim)), lost');
      r := r[value := Value(value, 0, 0, at, 0, argIndex, Excludable(dim))];
    }
  }

  /**
   One hit on the table of its dimension. A dropped entry had counted at most one five-hundredth of
   the hits of the dimension.
   */
  method RecordIn(bucket: Bucket, dim: string, value: string, argIndex: int, enforced: bool, at: nat,
                  ghost log: seq<Hit>, ghost lost: nat)
    returns (r: Bucket, ghost lost': nat)
    requires value != "" && Accounted(bucket, log, lost)
    ensures Accounted(r, log + [Hit(value, enforced, argIndex, at)], lost')
    ensures value in r && r[value] == AfterHit(EntryFor(bucket, dim, value, argIndex, at), enforced, argIndex, at)
    ensures forall v :: v in r && v != value ==> v in bucket && r[v] == bucket[v]
    ensures |r| <= 500 && (value in bucket || |bucket| < 500 ==> bucket.Keys <= r.Keys)
    ensures lost <= lost' && 500 * (lost' - lost) <= |log|
  {
    hide Positive, Sum, Bounded, Exact, EntryFor, Excludable;
    r, lost' := Enter(bucket, dim, value, argIndex, at, log, lost);
    var v := r[value];
    v := v.(count := v.count + 1);
    if enforced {
      v := v.(enforced := v.enforced + 1);
    }
    if at > v.lastSeen {
      v := v.(lastSeen := at);
    }
    if argIndex >= 0 {
      v := v.(argIndex := argIndex);
    }
    EntryValue(r, log, lost', value);
    Counted(r, log, Hit(value, enforced, argIndex, at), v, lost');
    r := r[value := v];
  }

  /** One hit on a table keeps every entry about the hits of its value. */
  lemma StillSummarises(b: Bucket, r: Bucket, d: string, log: seq<Hit>, lost: nat, h: Hit, lost': nat)
    requires Summarises(b, d, log, lost) && Accounted(b, log, lost) && lost <= lost' && h.argIndex >= -1
    requires h.value in r &&
             r[h.value] == AfterHit(EntryFor(b, d, h.value, h.argIndex, h.at), h.enforced, h.argIndex, h.at)
    requires forall v :: v in r && v != h.value ==> v in b && r[v] == b[v]
    ensures Summarises(r, d, log + [h], lost')
  {
    hide Accounted, Of, EntryOf, EntryFor, AfterHit;
    forall v | v in r ensures AboutLast(r[v], d, Of(log + [h], v), lost') {
      OfGrows(log, h, v);
      var hs := Of(log + [h], v);
      if v in b {
        var n: nat :| n < |Of(log, v)| && b[v] == EntryOf(d, Of(log, v)[n..]) && (lost == 0 ==> n == 0);
        if v == h.value {
          EntryGrows(b, d, Of(log, v)[n..], h);
          assert hs[n..] == Of(log, v)[n..] + [h];
        } else {
          assert hs[n..] == Of(log, v)[n..];
        }
      } else {
        var n := |Of(log, v)|;
        EntryBegins(b, d, h);
        assert hs[n..] == [h];
        if lost' == 0 {
          NewIsFirst(b, log, v);
        }
      }
    }
  }

  lemma NewIsFirst(b: Bucket, log: seq<Hit>, v: string)
    requires Accounted(b, log, 0) && v !in b
    ensures Of(log, v) == []
  {
    hide Occurrences, Sum;
    OfCounts(log, v);
  }

  lemma EntryGrows(b: Bucket, d: string, hs: seq<Hit>, h: Hit)
    requires hs != [] && h.value in b && b[h.value] == EntryOf(d, hs)
    ensures AfterHit(EntryFor(b, d, h.value, h.argIndex, h.at), h.enforced, h.argIndex, h.at) == EntryOf(d, hs + [h])
  {
    OneMoreIn(hs, h);
  }

  lemma EntryBegins(b: Bucket, d: string, h: Hit)
    requires h.value !in b && h.argIndex >= -1
    ensures AfterHit(EntryFor(b, d, h.value, h.argIndex, h.at), h.enforced, h.argIndex, h.at) == EntryOf(d, [h])
  {
    OneMoreIn([], h);
    assert [] + [h] == [h];
  }

  lemma PositiveBut(b: Bucket, log: seq<Hit>, lost: nat, v: string)
    requires Accounted(b, log, lost)
    ensures Positive(b, v)
  {
  }

  lemma EntryValue(b: Bucket, log: seq<Hit>, lost: nat, v: string)
    requires Balanced(b, log, lost) && v in b
    ensures b[v].value == v
  {
  }

  lemma SizeWith(b: Bucket, k: string, v: Value)
    ensures |b[k := v]| == |b| + if k in b then 0 else 1
  {
    assert b[k := v].Keys == b.Keys + {k};
    assert |b[k := v]| == |b[k := v].Keys| && |b| == |b.Keys|;
  }

  /** Dropping the quietest entry of a full table moves its count, small against the log, to what is lost. */
  lemma Evicted(b: Bucket, k: string, log: seq<Hit>, lost: nat, value: string)
    requires Balanced(b, log, lost) && Positive(b, value) && |b| >= MAX_VALUES && k in b && value !in b
    requires forall v :: v in b ==> b[k].count <= b[v].count
    ensures b[k].count >= 1 && MAX_VALUES * b[k].count <= |log|
    ensures Balanced(b - {k}, log, lost + b[k].count) && Positive(b - {k}, value)
  {
    hide Sum, Exact;
    LeastTimesSize(b, b[k].count);
    SumWithout(b, k);
    SizeWithout(b, k);
    assert |b| == MAX_VALUES;
  }

  lemma SmallEnough(b: Bucket, r: Bucket, log: seq<Hit>, lost: nat)
    requires Balanced(b, log, lost)
    requires r == b || exists k :: k in b && r == b - {k}
    ensures |r| <= MAX_VALUES && (r != b ==> |r| < MAX_VALUES)
  {
    if k :| k in b && r == b - {k} {
      SizeWithout(b, k);
    }
  }

  lemma Entered(r: Bucket, log: seq<Hit>, value: string, v: Value, lost: nat)
    requires Balanced(r, log, lost) && Positive(r, value) && |r| < MAX_VALUES && value !in r && value != ""
    requires v.value == value && v.count == 0 && v.enforced == 0
    ensures Balanced(r[value := v], log, lost) && Positive(r[value := v], value)
  {
    hide Sum, Occurrences, Enforcements, Bounded, Exact;
    SizeWith(r, value, v);
    SumWith(r, value, v);
    assert r - {value} == r;
    EnteredEntries(r, log, value, v);
  }

  lemma EnteredEntries(r: Bucket, log: seq<Hit>, value: string, v: Value)
    requires value !in r && value != "" && v.value == value && v.count == 0 && v.enforced == 0
    ensures Bounded(r, log) ==> Bounded(r[value := v], log)
    ensures Exact(r, log) ==> Exact(r[value := v], log)
  {
    hide Occurrences, Enforcements;
    EnforcedOccurs(log, value);
  }

  lemma {:induction false} EnforcedOccurs(log: seq<Hit>, v: string)
    ensures Enforcements(log, v) <= Occurrences(log, v)
  {
    if log != [] {
      EnforcedOccurs(log[..|log| - 1], v);
    }
  }

  lemma Counted(r: Bucket, log: seq<Hit>, h: Hit, v: Value, lost: nat)
    requires h.value in r && Balanced(r, log, lost) && Positive(r, h.value)
    requires v.value == h.value && v.count == r[h.value].count + 1
    requires v.enforced == r[h.value].enforced + if h.enforced then 1 else 0
    ensures Accounted(r[h.value := v], log + [h], lost)
  {
    hide Sum, Occurrences, Enforcements;
    SizeWith(r, h.value, v);
    SumWith(r, h.value, v);
    SumWithout(r, h.value);
    forall x
      ensures Occurrences(log + [h], x) == Occurrences(log, x) + if h.value == x then 1 else 0
      ensures Enforcements(log + [h], x) == Enforcements(log, x) + if h.value == x && h.enforced then 1 else 0
    {
      CountsGrow(log, h, x);
    }
  }

  // ----- what an event contributes

  predicate NoisyLabel(k: string) {
    k == "pod-template-hash" || k == "controller-revision-hash" || k == "pod-template-generation"
    || Text.HasPrefix(k, "statefulset.kubernetes.io/")
  }

  /** Position of the last slash, or -1. */
  function LastSlash(s: string): (i: int)
    ensures -1 <= i < |s|
  {
    if s == "" then -1 else if s[|s| - 1] == '/' then |s| - 1 else LastSlash(s[..|s| - 1])
  }

  /** An absolute path and its parent directory. */
  function PathsIn(arg: string): seq<string> {
    var arg := Text.TrimSpace(arg);
    if |arg| < 2 || arg[0] != '/' || ' ' in arg || ':' in arg || ',' in arg then []
    else [arg] + (if LastSlash(arg) > 0 then [arg[..LastSlash(arg) + 1]] else [])
  }

  function CountOf(xs: seq<string>, v: string): nat {
    multiset(xs)[v]
  }

  function PathOccurrences(args: seq<string>, v: string): nat {
    if args == [] then 0 else PathOccurrences(args[..|args| - 1], v) + CountOf(PathsIn(args[|args| - 1]), v)
  }

  /** The labels of the event that render as `v`. */
  function LabelsAs(labels: map<string, string>, v: string): set<string> {
    set k | k in labels && !NoisyLabel(k) && k + "=" + labels[k] == v
  }

  function One(dim: string, v: string, d: string, value: string): nat {
    if d == dim && v == value then 1 else 0
  }

  function LabelShows(labels: map<string, string>, d: string, v: string): nat {
    if d == "podLabels" then |LabelsAs(labels, v)| else 0
  }

  function ListShows(paths: seq<string>, d: string, v: string): nat {
    if d == "paths" then CountOf(paths, v) else 0
  }

  function PathShows(args: seq<string>, d: string, v: string): nat {
    if d == "paths" then PathOccurrences(args, v) else 0
  }

  /** How often an event shows a non-empty value under a dimension. */
  function Shows(e: Event, d: string, v: string): nat {
    Scalars(e, d, v) + LabelShows(e.labels, d, v) + PathShows(e.argList, d, v)
  }

  function Scalars(e: Event, d: string, v: string): nat {
    Who(e, d, v) + Where(e, d, v)
  }

  function Who(e: Event, d: string, v: string): nat {
    One(d, v, "binaries", e.binary) + One(d, v, "parentBinaries", e.parent) + One(d, v, "users", e.user)
    + One(d, v, "containers", e.container)
  }

  function Where(e: Event, d: string, v: string): nat {
    One(d, v, "namespaces", e.namespace_) + One(d, v, "workloads", e.workload) + One(d, v, "pods", e.pod)
    + One(d, v, "nodes", e.node) + One(d, v, "hooks", e.function_)
  }

  /** How often all the events show it. */
  function Shown(events: seq<Event>, d: string, v: string): nat {
    if events == [] then 0 else Shown(events[..|events| - 1], d, v) + Shows(events[|events| - 1], d, v)
  }

  /** The same hit a number of times. */
  function Copies(h: Hit, n: nat): seq<Hit> {
    seq(n, i => h)
  }

  lemma CopiesAdd(h: Hit, m: nat, n: nat)
    ensures Copies(h, m) + Copies(h, n) == Copies(h, m + n)
  {
  }

  /** The hits of `v` by the paths of the arguments, each with the position of its argument. */
  function PathHits(args: seq<string>, d: string, v: string, enforced: bool, at: nat): seq<Hit> {
    if args == [] then []
    else
      var n := |args| - 1;
      PathHits(args[..n], d, v, enforced, at) + Copies(Hit(v, enforced, n, at), ListShows(PathsIn(args[n]), d, v))
  }

  /** The hits of `v` under `d` by one event: fields and labels have no argument position. */
  function EventHits(e: Event, at: nat, d: string, v: string): seq<Hit> {
    var enforced := e.action in {"SIGKILL", "OVERRIDE", "SIGNAL"};
    Copies(Hit(v, enforced, -1, at), Scalars(e, d, v) + LabelShows(e.labels, d, v)) +
        PathHits(e.argList, d, v, enforced, at)
  }

  /** And by all events, each at its time. */
  function HitsShown(events: seq<Event>, times: seq<nat>, d: string, v: string): seq<Hit>
    requires |events| == |times|
  {
    if events == [] then []
    else
      var n := |events| - 1;
      HitsShown(events[..n], times[..n], d, v) + EventHits(events[n], times[n], d, v)
  }

  lemma OneMoreHits(events: seq<Event>, times: seq<nat>, e: Event, at: nat)
    requires |events| == |times|
    ensures forall d, v ::
              HitsShown(events + [e], times + [at], d, v) == HitsShown(events, times, d, v) + EventHits(e, at, d, v)
  {
    assert (events + [e])[..|events|] == events && (times + [at])[..|times|] == times;
  }

  predicate IsEnforced(e: Event) {
    e.action == "SIGKILL" || e.action == "OVERRIDE" || e.action == "SIGNAL"
  }

  function EnforcedEvents(events: seq<Event>): nat {
    if events == [] then 0
    else EnforcedEvents(events[..|events| - 1]) + if IsEnforced(events[|events| - 1]) then 1 else 0
  }

  lemma OneMoreCounted(events: seq<Event>, e: Event)
    ensures EnforcedEvents(events + [e]) == EnforcedEvents(events) + if IsEnforced(e) then 1 else 0
  {
    assert (events + [e])[..|events|] == events;
  }

  lemma OneMoreShown(events: seq<Event>, e: Event)
    ensures forall d, v :: Shown(events + [e], d, v) == Shown(events, d, v) + Shows(e, d, v)
  {
    assert (events + [e])[..|events|] == events;
  }

  class PolicyState {
    const namespace_: string
    var total: nat
    var enforced: nat
    var first: nat
    var last: nat
    var dims: map<string, Bucket>
    var samples: seq<Event>
    /** Every event since the counters were reset, and when it was taken to have happened. */
    ghost var events: seq<Event>
    ghost var times: seq<nat>
    /** Per dimension, the hits recorded and the counts that were dropped. */
    ghost var hits: map<string, seq<Hit>>
    ghost var lost: map<string, nat>

    function BucketOf(d: string): Bucket
      reads this`dims
    {
      if d in dims then dims[d] else map[]
    }

    ghost function HitsOf(d: string): seq<Hit>
      reads this`hits
    {
      if d in hits then hits[d] else []
    }

    ghost function LostOf(d: string): nat
      reads this`lost
    {
      if d in lost then lost[d] else 0
    }

    /** Every table accounts for the hits of its dimension. */
    ghost predicate Tables()
      reads this`dims, this`hits, this`lost
    {
      forall d :: Accounted(BucketOf(d), HitsOf(d), LostOf(d)) && Summarises(BucketOf(d), d, HitsOf(d), LostOf(d))
    }

    ghost predicate Valid()
      reads this
    {
      && Tables()
      && Counters()
      && (forall d, v :: v != "" ==> Of(HitsOf(d), v) == HitsShown(events, times, d, v))
    }

    constructor (ns: string, at: nat)
      ensures Valid() && events == [] && namespace_ == ns && first == at && last == 0
    {
      namespace_ := ns;
      total, enforced, first, last, dims, samples := 0, 0, at, 0, map[], [];
      events, times, hits, lost := [], [], map[], map[];
      new;
      assert Tables() by {
        assert Sum(map[]) == 0;
      }
    }

    method RecordHit(dim: string, value: string, argIndex: int, enforced: bool, at: nat)
      requires Tables() && argIndex >= -1
      modifies this`dims, this`hits, this`lost
      ensures Tables()
      ensures forall d, v :: v != "" ==>
                Of(HitsOf(d), v) ==
                    old(Of(HitsOf(d), v)) + Copies(Hit(v, enforced, argIndex, at), One(d, v, dim, value))
    {
      hide Accounted, Of, Summarises, EntryFor, AfterHit;
      if value == "" {
        return;
      }
      var bucket, gone := RecordIn(BucketOf(dim), dim, value, argIndex, enforced, at, HitsOf(dim), LostOf(dim));
      ghost var h := Hit(value, enforced, argIndex, at);
      forall v ensures Of(HitsOf(dim) + [h], v) == Of(HitsOf(dim), v) + if value == v then [h] else [] {
        OfGrows(HitsOf(dim), h, v);
      }
      StillSummarises(BucketOf(dim), bucket, dim, HitsOf(dim), LostOf(dim), h, gone);
      hits := hits[dim := HitsOf(dim) + [h]];
      lost := lost[dim := gone];
      dims := dims[dim := bucket];
      assert forall d :: d != dim ==>
          BucketOf(d) == old(BucketOf(d)) && HitsOf(d) == old(HitsOf(d)) && LostOf(d) == old(LostOf(d));
    }

    method RecordWho(e: Event, enforced: bool, at: nat)
      requires Tables()
      modifies this`dims, this`hits, this`lost
      ensures Tables()
      ensures forall d, v :: v != "" ==>
                Of(HitsOf(d), v) == old(Of(HitsOf(d), v)) + Copies(Hit(v, enforced, -1, at), Who(e, d, v))
    {
      hide Tables, Of, One, HitsOf;
      RecordHit("binaries", e.binary, -1, enforced, at);
      RecordHit("parentBinaries", e.parent, -1, enforced, at);
      RecordHit("users", e.user, -1, enforced, at);
      RecordHit("containers", e.container, -1, enforced, at);
    }

    method RecordWhere(e: Event, enforced: bool, at: nat)
      requires Tables()
      modifies this`dims, this`hits, this`lost
      ensures Tables()
      ensures forall d, v :: v != "" ==>
                Of(HitsOf(d), v) == old(Of(HitsOf(d), v)) + Copies(Hit(v, enforced, -1, at), Where(e, d, v))
    {
      hide Tables, Of, One, HitsOf;
      RecordHit("namespaces", e.namespace_, -1, enforced, at);
      RecordHit("workloads", e.workload, -1, enforced, at);
      RecordHit("pods", e.pod, -1, enforced, at);
      RecordHit("nodes", e.node, -1, enforced, at);
      RecordHit("hooks", e.function_, -1, enforced, at);
    }

    method RecordScalars(e: Event, enforced: bool, at: nat)
      requires Tables()
      modifies this`dims, this`hits, this`lost
      ensures Tables()
      ensures forall d, v :: v != "" ==>
                Of(HitsOf(d), v) == old(Of(HitsOf(d), v)) + Copies(Hit(v, enforced, -1, at), Scalars(e, d, v))
    {
      hide Tables, Of, Who, Where, HitsOf;
      RecordWho(e, enforced, at);
      RecordWhere(e, enforced, at);
    }

    method RecordLabels(labels: map<string, string>, enforced: bool, at: nat)
      requires Tables()
      modifies this`dims, this`hits, this`lost
      ensures Tables()
      ensures forall d, v :: v != "" ==>
                Of(HitsOf(d), v) == old(Of(HitsOf(d), v)) + Copies(Hit(v, enforced, -1, at), LabelShows(labels, d, v))
    {
      hide Tables, Of, HitsOf, NoisyLabel, LabelShows;
      var keys := labels.Keys;
      NoLabels(labels);
      while keys != {}
        invariant keys <= labels.Keys && Tables()
        invariant forall d, v :: v != "" ==>
          Of(HitsOf(d), v) == old(Of(HitsOf(d), v)) + Copies(Hit(v, enforced, -1, at), LabelShows(labels - keys, d, v))
        decreases |keys|
      {
        var k :| k in keys;
        OneMoreLabel(labels, keys, k);
        keys := keys - {k};
        if NoisyLabel(k) {
          continue;
        }
        RecordHit("podLabels", k + "=" + labels[k], -1, enforced, at);
      }
      assert labels - {} == labels;
    }

    method RecordPaths(args: seq<string>, enforced: bool, at: nat)
      requires Tables()
      modifies this`dims, this`hits, this`lost
      ensures Tables()
      ensures forall d, v :: v != "" ==>
                Of(HitsOf(d), v) == old(Of(HitsOf(d), v)) + PathHits(args, d, v, enforced, at)
    {
      hide Tables, Of, HitsOf, PathsIn, PathHits, ListShows;
      NoPathHits(enforced, at);
      for i := 0 to |args|
        invariant Tables()
        invariant forall d, v :: v != "" ==>
          Of(HitsOf(d), v) == old(Of(HitsOf(d), v)) + PathHits(args[..i], d, v, enforced, at)
      {
        OneMoreArg(args, i, enforced, at);
        RecordPathList(PathsIn(args[i]), i, enforced, at);
      }
      assert args[..|args|] == args;
    }

    method RecordPathList(paths: seq<string>, argIndex: nat, enforced: bool, at: nat)
      requires Tables()
      modifies this`dims, this`hits, this`lost
      ensures Tables()
      ensures forall d, v :: v != "" ==>
                Of(HitsOf(d), v) ==
                    old(Of(HitsOf(d), v)) + Copies(Hit(v, enforced, argIndex, at), ListShows(paths, d, v))
    {
      hide Tables, Of, HitsOf, ListShows;
      NothingShown();
      for j := 0 to |paths|
        invariant Tables()
        invariant forall d, v :: v != "" ==>
          Of(HitsOf(d), v) ==
              old(Of(HitsOf(d), v)) + Copies(Hit(v, enforced, argIndex, at), ListShows(paths[..j], d, v))
      {
        OneMorePath(paths, j);
        RecordHit("paths", paths[j], argIndex, enforced, at);
      }
      assert paths[..|paths|] == paths;
    }

    method RecordTables(e: Event, enforced: bool, at: nat)
      requires Tables() && (enforced <==> e.action in {"SIGKILL", "OVERRIDE", "SIGNAL"})
      modifies this`dims, this`hits, this`lost
      ensures Tables()
      ensures forall d, v :: v != "" ==> Of(HitsOf(d), v) == old(Of(HitsOf(d), v)) + EventHits(e, at, d, v)
    {
      hide Tables, Of, HitsOf, Scalars, LabelShows, PathHits;
      RecordScalars(e, enforced, at);
      RecordLabels(e.labels, enforced, at);
      RecordPaths(e.argList, enforced, at);
    }

    /** The counters and the sample list agree with the events. */
    ghost predicate Counters()
      reads this`total, this`enforced, this`first, this`last, this`samples, this`events, this`times
    {
      && total == |events| == |times| && enforced == EnforcedEvents(events)
      && samples == Suffix(events, SAMPLES)
      && (times != [] ==> first in times && last in times)
      && (forall t :: t in times ==> 0 < first <= t <= last)
    }

    method Count(e: Event, at: nat)
      requires Counters() && at > 0
      requires events == [] ==> first == at && last == 0
      modifies this`total, this`enforced, this`first, this`last, this`samples, this`events, this`times
      ensures Counters() && events == old(events) + [e] && times == old(times) + [at]
    {
      hide EnforcedEvents, Suffix;
      OneMoreCounted(events, e);
      assert forall t :: t in times + [at] <==> t in times || t == at;
      events, times := events + [e], times + [at];
      total := total + 1;
      if IsEnforced(e) {
        enforced := enforced + 1;
      }
      if first == 0 || at < first {
        first := at;
      }
      if at > last {
        last := at;
      }
      samples := Push(samples, SAMPLES, e);
    }

    lemma SameLength()
      requires Counters()
      ensures |events| == |times|
    {
    }

    /** One event: every counter, table and sample follows it. */
    method Ingest(e: Event, at: nat)
      requires Valid() && at > 0
      requires events == [] ==> first == at && last == 0
      modifies this
      ensures Valid() && events == old(events) + [e] && times == old(times) + [at]
    {
      hide Tables, Counters, Of, HitsOf, EventHits, HitsShown;
      SameLength();
      OneMoreHits(events, times, e, at);
      Count(e, at);
      RecordTables(e, IsEnforced(e), at);
    }
  }

  lemma NothingShown()
    ensures forall d, v :: ListShows([], d, v) == 0
  {
  }

  lemma NoPathHits(enforced: bool, at: nat)
    ensures forall d, v :: PathHits([], d, v, enforced, at) == []
  {
  }

  lemma OneMorePath(paths: seq<string>, j: nat)
    requires j < |paths|
    ensures forall d, v :: ListShows(paths[..j + 1], d, v) == ListShows(paths[..j], d, v) + One(d, v, "paths", paths[j])
  {
    assert paths[..j + 1] == paths[..j] + [paths[j]];
  }

  lemma OneMoreArg(args: seq<string>, i: nat, enforced: bool, at: nat)
    requires i < |args|
    ensures forall d, v ::
              PathHits(args[..i + 1], d, v, enforced, at) ==
              PathHits(args[..i], d, v, enforced, at) +
                  Copies(Hit(v, enforced, i, at), ListShows(PathsIn(args[i]), d, v))
  {
    hide PathsIn, CountOf;
    assert args[..i + 1][..i] == args[..i];
  }

  lemma NoLabels(labels: map<string, string>)
    ensures forall d, v :: LabelShows(labels - labels.Keys, d, v) == 0
  {
    assert forall v :: LabelsAs(labels - labels.Keys, v) == {};
  }

  /** What one label adds. */
  function LabelOne(labels: map<string, string>, k: string, d: string, v: string): nat
    requires k in labels
  {
    if NoisyLabel(k) then 0 else One(d, v, "podLabels", k + "=" + labels[k])
  }

  lemma OneMoreLabel(labels: map<string, string>, keys: set<string>, k: string)
    requires k in keys && keys <= labels.Keys
    ensures forall d, v ::
      LabelShows(labels - (keys - {k}), d, v) == LabelShows(labels - keys, d, v) + LabelOne(labels, k, d, v)
  {
    hide NoisyLabel;
    forall d, v ensures
      LabelShows(labels - (keys - {k}), d, v) == LabelShows(labels - keys, d, v) + LabelOne(labels, k, d, v)
    {
      var before, after := LabelsAs(labels - keys, v), LabelsAs(labels - (keys - {k}), v);
      assert after == before + if !NoisyLabel(k) && k + "=" + labels[k] == v then {k} else {};
    }
  }

  // ----- all policies

  function Key(namespace_: string, name: string): string {
    if namespace_ == "" then name else namespace_ + "/" + name
  }

  /** Names hold no slash, as Kubernetes has it: then a key is one namespace and one name. */
  lemma KeyIsPolicy(m: string, a: string, n: string, b: string)
    requires '/' !in a && '/' !in b
    ensures Key(m, a) == Key(n, b) <==> m == n && a == b
  {
    if m != "" && Key(m, a) == Key(n, b) {
      assert Key(m, a)[|m|] == '/';
      if n != "" {
        var s := m + "/" + a;
        assert s[|m|] == '/' && s[|n|] == '/';
        NameIsLast(m, a, |n|);
        NameIsLast(n, b, |m|);
        assert a == s[|m| + 1..] && b == s[|n| + 1..] && m == s[..|m|] && n == s[..|n|];
      }
    }
    if n != "" {
      assert Key(n, b)[|n|] == '/';
    }
  }

  lemma NameIsLast(m: string, a: string, i: nat)
    requires '/' !in a && i < |m + "/" + a|
    ensures i > |m| ==> (m + "/" + a)[i] != '/'
  {
    assert i > |m| ==> (m + "/" + a)[i] == a[i - |m| - 1];
  }

  class Tracker {
    var policies: map<string, PolicyState>

    /** Each policy has a state of its own. */
    ghost predicate Valid()
      reads this, policies.Values
    {
      && (forall k :: k in policies ==> policies[k].Valid() && policies[k].events != [])
      && (forall j, k :: j in policies && k in policies && j != k ==> policies[j] != policies[k])
    }

    /** The events that count for a policy: those since its last reset. */
    ghost function EventsOf(k: string): seq<Event>
      reads this, policies.Values
    {
      if k in policies then policies[k].events else []
    }

    constructor ()
      ensures Valid() && policies == map[]
    {
      policies := map[];
    }

    method Record(e: Event, now: nat)
      requires Valid() && now > 0
      modifies this, policies.Values
      ensures Valid()
      ensures forall k :: k in old(policies) || k in policies ==>
        EventsOf(k) == old(EventsOf(k)) + if e.policy != "" && k == Key(e.policyNamespace, e.policy) then [e] else []
      ensures e.policy != "" ==> Key(e.policyNamespace, e.policy) in policies
      ensures forall k :: k in old(policies) ==> k in policies && policies[k] == old(policies[k])
      ensures fresh(policies.Values - old(policies.Values))
    {
      hide PolicyState.Valid;
      if e.policy == "" {
        return;
      }
      var at := if e.time == 0 then now else e.time;
      var k := Key(e.policyNamespace, e.policy);
      var p;
      if k in policies {
        p := policies[k];
      } else {
        p := new PolicyState(e.policyNamespace, at);
        policies := policies[k := p];
      }
      p.Ingest(e, at);
    }

    /** Forgetting one policy's counters leaves the others alone. */
    method Reset(namespace_: string, name: string)
      requires Valid()
      modifies this
      ensures Valid() && EventsOf(Key(namespace_, name)) == []
      ensures forall k :: k != Key(namespace_, name) ==> EventsOf(k) == old(EventsOf(k))
    {
      policies := policies - {Key(namespace_, name)};
    }
  }

  // ----- what was lost bounds what is missing

  lemma {:induction false} NothingCounted(m: map<string, nat>)
    requires forall u :: u in m ==> m[u] == 0
    ensures Sums.Sum(m) == 0
    decreases |m|
  {
    if m != map[] {
      var u :| u in m;
      Sums.SumWithout(m, u);
      Sums.SizeWithout(m, u);
      NothingCounted(m - {u});
    }
  }

  /** Counts that do not exceed the true ones leave room in the log for every hit of any further value. */
  lemma {:induction false} RoomForOther(m: map<string, nat>, log: seq<Hit>, v: string)
    requires v !in m && forall u :: u in m ==> m[u] <= Occurrences(log, u)
    ensures Sums.Sum(m) + Occurrences(log, v) <= |log|
  {
    hide Sums.Sum;
    if log == [] {
      NothingCounted(m);
    } else {
      var n := |log| - 1;
      var u := log[n].value;
      if u in m && m[u] > 0 {
        Sums.SumWith(m, u, m[u] - 1);
        RoomForOther(m[u := m[u] - 1], log[..n], v);
      } else {
        RoomForOther(m, log[..n], v);
      }
    }
  }

  /** What a table lost is the most that any value's count can fall short. */
  lemma ShortByLost(b: Bucket, log: seq<Hit>, lost: nat, v: string)
    requires Balanced(b, log, lost)
    ensures Occurrences(log, v) <= (if v in b then b[v].count else 0) + lost
  {
    hide Occurrences, Sums.Sum, Exact;
    var rest := Counts(b) - {v};
    RoomForOther(rest, log, v);
    if v in b {
      Sums.SumWithout(Counts(b), v);
    } else {
      assert rest == Counts(b);
    }
  }

  // ----- what the hits of a value are, read off the events

  /** How often the enforced ones among the events show it. */
  function ShownEnforced(events: seq<Event>, d: string, v: string): nat {
    if events == [] then 0
    else
      var e := events[|events| - 1];
      ShownEnforced(events[..|events| - 1], d, v)
      + if e.action in {"SIGKILL", "OVERRIDE", "SIGNAL"} then Shows(e, d, v) else 0
  }

  /** The latest time at which an event shows it. */
  function LastShown(events: seq<Event>, times: seq<nat>, d: string, v: string): nat
    requires |events| == |times|
  {
    if events == [] then 0
    else
      var n := |events| - 1;
      Max(LastShown(events[..n], times[..n], d, v), if Shows(events[n], d, v) > 0 then times[n] else 0)
  }

  /** The last argument that is the path or a file in the directory, or -1. */
  function LastPosition(args: seq<string>, v: string): int {
    if args == [] then -1
    else if v in PathsIn(args[|args| - 1]) then |args| - 1
    else LastPosition(args[..|args| - 1], v)
  }

  lemma {:induction false} LastPositionIs(args: seq<string>, v: string)
    ensures var i := LastPosition(args, v);
            && -1 <= i < |args|
            && (i >= 0 ==> v in PathsIn(args[i]))
            && forall j :: i < j < |args| ==> v !in PathsIn(args[j])
  {
    hide PathsIn;
    if args != [] {
      LastPositionIs(args[..|args| - 1], v);
    }
  }

  /** Its position in the last event that has one. */
  function LastPositionShown(events: seq<Event>, v: string): int {
    if events == [] then -1
    else
      var i := LastPosition(events[|events| - 1].argList, v);
      if i >= 0 then i else LastPositionShown(events[..|events| - 1], v)
  }

  lemma {:induction false} InBoth(a: seq<Hit>, b: seq<Hit>)
    ensures EnforcedIn(a + b) == EnforcedIn(a) + EnforcedIn(b)
    ensures Latest(a + b) == Max(Latest(a), Latest(b))
    ensures LastArg(a + b) == if LastArg(b) >= 0 then LastArg(b) else LastArg(a)
  {
    if b == [] {
      assert a + b == a;
    } else {
      var n := |b| - 1;
      InBoth(a, b[..n]);
      OneMoreIn(a + b[..n], b[n]);
      assert a + b == a + b[..n] + [b[n]];
    }
  }

  lemma {:induction false} InCopies(h: Hit, n: nat)
    ensures EnforcedIn(Copies(h, n)) == if h.enforced then n else 0
    ensures Latest(Copies(h, n)) == if n > 0 then h.at else 0
    ensures LastArg(Copies(h, n)) == if n > 0 && h.argIndex >= 0 then h.argIndex else -1
  {
    if n > 0 {
      InCopies(h, n - 1);
      OneMoreIn(Copies(h, n - 1), h);
      assert Copies(h, n) == Copies(h, n - 1) + [h];
    }
  }

  lemma ListShowsIs(paths: seq<string>, d: string, v: string)
    ensures ListShows(paths, d, v) > 0 <==> d == "paths" && v in paths
  {
    assert v in paths <==> v in multiset(paths);
  }

  lemma {:induction false} PathHitsAre(args: seq<string>, d: string, v: string, enforced: bool, at: nat)
    ensures var hs := PathHits(args, d, v, enforced, at);
            && |hs| == PathShows(args, d, v)
            && EnforcedIn(hs) == (if enforced then |hs| else 0)
            && Latest(hs) == (if hs != [] then at else 0)
            && LastArg(hs) == if d == "paths" then LastPosition(args, v) else -1
  {
    hide PathsIn, ListShows;
    if args != [] {
      var n := |args| - 1;
      PathHitsAre(args[..n], d, v, enforced, at);
      var h, k := Hit(v, enforced, n, at), ListShows(PathsIn(args[n]), d, v);
      InCopies(h, k);
      InBoth(PathHits(args[..n], d, v, enforced, at), Copies(h, k));
      ListShowsIs(PathsIn(args[n]), d, v);
      PathShowsMore(args, d, v);
    }
  }

  lemma PathShowsMore(args: seq<string>, d: string, v: string)
    requires args != []
    ensures var n := |args| - 1; PathShows(args, d, v) == PathShows(args[..n], d, v) + ListShows(PathsIn(args[n]), d, v)
  {
    hide PathsIn;
  }

  lemma EventHitsAre(e: Event, at: nat, d: string, v: string)
    ensures var hs := EventHits(e, at, d, v);
            && |hs| == Shows(e, d, v)
            && EnforcedIn(hs) == (if e.action in {"SIGKILL", "OVERRIDE", "SIGNAL"} then Shows(e, d, v) else 0)
            && Latest(hs) == (if Shows(e, d, v) > 0 then at else 0)
            && LastArg(hs) == if d == "paths" then LastPosition(e.argList, v) else -1
  {
    hide Scalars, LabelShows, PathShows, PathHits, LastPosition, LastArg, Latest, EnforcedIn;
    var enforced := e.action in {"SIGKILL", "OVERRIDE", "SIGNAL"};
    var h, k := Hit(v, enforced, -1, at), Scalars(e, d, v) + LabelShows(e.labels, d, v);
    PathHitsAre(e.argList, d, v, enforced, at);
    LastPositionIs(e.argList, v);
    InCopies(h, k);
    InBoth(Copies(h, k), PathHits(e.argList, d, v, enforced, at));
  }

  /** Number, enforced number, latest time and last argument position of the hits of a value. */
  lemma {:induction false} HitsAre(events: seq<Event>, times: seq<nat>, d: string, v: string)
    requires |events| == |times|
    ensures var hs := HitsShown(events, times, d, v);
            && |hs| == Shown(events, d, v)
            && EnforcedIn(hs) == ShownEnforced(events, d, v)
            && Latest(hs) == LastShown(events, times, d, v)
            && LastArg(hs) == if d == "paths" then LastPositionShown(events, v) else -1
  {
    hide EventHits, Shows;
    if events != [] {
      var n := |events| - 1;
      HitsAre(events[..n], times[..n], d, v);
      EventHitsAre(events[n], times[n], d, v);
      InBoth(HitsShown(events[..n], times[..n], d, v), EventHits(events[n], times[n], d, v));
    }
  }

  lemma {:induction false} EveryPathHitPlaced(args: seq<string>, v: string, enforced: bool, at: nat)
    ensures forall h :: h in PathHits(args, "paths", v, enforced, at) ==> h.argIndex >= 0
  {
    hide PathsIn;
    if args != [] {
      EveryPathHitPlaced(args[..|args| - 1], v, enforced, at);
    }
  }

  lemma {:induction false} EveryHitPlaced(events: seq<Event>, times: seq<nat>, v: string)
    requires |events| == |times|
    ensures forall h :: h in HitsShown(events, times, "paths", v) ==> h.argIndex >= 0
  {
    hide PathHits;
    if events != [] {
      var n := |events| - 1;
      var e := events[n];
      EveryHitPlaced(events[..n], times[..n], v);
      EveryPathHitPlaced(e.argList, v, e.action in {"SIGKILL", "OVERRIDE", "SIGNAL"}, times[n]);
      assert Scalars(e, "paths", v) + LabelShows(e.labels, "paths", v) == 0;
    }
  }

  /** When all hits have a position, the last hits say the same of it as all of them. */
  lemma SameLastArg(hs: seq<Hit>, n: nat)
    requires n < |hs| && forall h :: h in hs ==> h.argIndex >= 0
    ensures LastArg(hs[n..]) == LastArg(hs)
  {
    assert hs[|hs| - 1] in hs;
    assert hs[n..][|hs| - n - 1] == hs[|hs| - 1];
  }

  lemma {:induction false} NonePlaced(hs: seq<Hit>)
    requires LastArg(hs) < 0
    ensures forall h :: h in hs ==> h.argIndex < 0
  {
    if hs != [] && hs[|hs| - 1].argIndex < 0 {
      NonePlaced(hs[..|hs| - 1]);
      assert hs == hs[..|hs| - 1] + [hs[|hs| - 1]];
    }
  }

  lemma {:induction false} NoneLast(hs: seq<Hit>)
    requires forall h :: h in hs ==> h.argIndex < 0
    ensures LastArg(hs) == -1
  {
    if hs != [] {
      assert hs[|hs| - 1] in hs;
      NoneLast(hs[..|hs| - 1]);
    }
  }

  lemma LastHitsMean(hs: seq<Hit>, n: nat)
    requires n <= |hs|
    ensures EnforcedIn(hs[n..]) <= EnforcedIn(hs) && Latest(hs[n..]) <= Latest(hs)
    ensures n == 0 ==> hs[n..] == hs
  {
    InBoth(hs[..n], hs[n..]);
    assert hs == hs[..n] + hs[n..];
  }

  // ----- what the tables promise

  /** An entry is about the last hits of its value by the events: all of them if its table lost nothing. */
  lemma EntryMeaning(p: PolicyState, d: string, v: string)
    requires p.Valid() && v in p.BucketOf(d)
    ensures |p.events| == |p.times|
    ensures var hs := HitsShown(p.events, p.times, d, v);
            AboutLast(p.BucketOf(d)[v], d, hs, p.LostOf(d))
  {
    hide AboutLast, HitsShown, Of, Balanced;
    p.SameLength();
    assert Accounted(p.BucketOf(d), p.HitsOf(d), p.LostOf(d)) && Summarises(p.BucketOf(d), d, p.HitsOf(d), p.LostOf(d));
    NoEmptyValue(p.BucketOf(d), p.HitsOf(d), p.LostOf(d));
    assert Of(p.HitsOf(d), v) == HitsShown(p.events, p.times, d, v);
  }

  lemma NoEmptyValue(b: Bucket, log: seq<Hit>, lost: nat)
    requires Balanced(b, log, lost)
    ensures "" !in b
  {
  }

  /**
   Whatever was recorded, no count exceeds the true one, nor falls short of it by more than was lost, and the
   position of a path is where the last event had it. Enforced counts, latest times and all are exact if
   nothing was lost.
   */
  lemma TableMeaning(p: PolicyState, d: string, v: string)
    requires p.Valid() && v != ""
    ensures |p.BucketOf(d)| <= MAX_VALUES && |p.events| == |p.times|
    ensures v in p.BucketOf(d) ==>
              && p.BucketOf(d)[v].enforced <= p.BucketOf(d)[v].count <= Shown(p.events, d, v)
              && p.BucketOf(d)[v].enforced <= ShownEnforced(p.events, d, v)
              && p.BucketOf(d)[v].lastSeen <= LastShown(p.events, p.times, d, v)
              && p.BucketOf(d)[v].argIndex == (if d == "paths" then LastPositionShown(p.events, v) else -1)
    ensures Shown(p.events, d, v) <= (if v in p.BucketOf(d) then p.BucketOf(d)[v].count else 0) + p.LostOf(d)
    ensures p.LostOf(d) == 0 ==> (v in p.BucketOf(d) <==> Shown(p.events, d, v) > 0)
    ensures p.LostOf(d) == 0 && v in p.BucketOf(d) ==>
              && p.BucketOf(d)[v].count == Shown(p.events, d, v)
              && p.BucketOf(d)[v].enforced == ShownEnforced(p.events, d, v)
              && p.BucketOf(d)[v].lastSeen == LastShown(p.events, p.times, d, v)
  {
    hide Shown, ShownEnforced, LastShown, LastPositionShown, Occurrences, HitsShown, Of, Summarises, Sum;
    p.SameLength();
    var hs := HitsShown(p.events, p.times, d, v);
    assert Accounted(p.BucketOf(d), p.HitsOf(d), p.LostOf(d));
    assert Of(p.HitsOf(d), v) == hs;
    OfCounts(p.HitsOf(d), v);
    HitsAre(p.events, p.times, d, v);
    ShortByLost(p.BucketOf(d), p.HitsOf(d), p.LostOf(d), v);
    if v in p.BucketOf(d) {
      EntryMeaning(p, d, v);
      var n: nat :| n < |hs| && p.BucketOf(d)[v] == EntryOf(d, hs[n..]) && (p.LostOf(d) == 0 ==> n == 0);
      LastHitsMean(hs, n);
      PositionKept(p.events, p.times, d, v, n);
    }
  }

  lemma PositionKept(events: seq<Event>, times: seq<nat>, d: string, v: string, n: nat)
    requires |events| == |times| && n < |HitsShown(events, times, d, v)|
    ensures LastArg(HitsShown(events, times, d, v)[n..]) == if d == "paths" then LastPositionShown(events, v) else -1
  {
    hide HitsShown, LastArg, LastPositionShown;
    var hs := HitsShown(events, times, d, v);
    HitsAre(events, times, d, v);
    if d == "paths" {
      EveryHitPlaced(events, times, v);
      SameLastArg(hs, n);
    } else {
      NonePlaced(hs);
      NoneLast(hs[n..]);
    }
  }

  // ----- what an event shows

  /** Each dimension is about one field, the labels that outlive a pod, or the paths among the arguments. */
  lemma ShowsExactly(e: Event, v: string)
    ensures Shows(e, "binaries", v) == (if v == e.binary then 1 else 0)
    ensures Shows(e, "parentBinaries", v) == (if v == e.parent then 1 else 0)
    ensures Shows(e, "users", v) == (if v == e.user then 1 else 0)
    ensures Shows(e, "containers", v) == (if v == e.container then 1 else 0)
    ensures Shows(e, "namespaces", v) == (if v == e.namespace_ then 1 else 0)
    ensures Shows(e, "workloads", v) == (if v == e.workload then 1 else 0)
    ensures Shows(e, "pods", v) == (if v == e.pod then 1 else 0)
    ensures Shows(e, "nodes", v) == (if v == e.node then 1 else 0)
    ensures Shows(e, "hooks", v) == (if v == e.function_ then 1 else 0)
    ensures Shows(e, "podLabels", v) > 0 <==> exists k :: k in e.labels && v == k + "=" + e.labels[k] && !PerPod(k)
    ensures Shows(e, "paths", v) > 0 <==>
            exists arg :: arg in e.argList && (v == PathOf(arg) || IsDirectoryOf(v, PathOf(arg))) && IsPath(arg)
  {
    hide PathShows, LabelShows, Scalars, PerPod, IsPath, IsDirectoryOf;
    ScalarsAre(e, v);
    LabelShown(e.labels, v);
    PathShown(e.argList, v);
    ElsewhereNone(e, v);
  }

  lemma ScalarsAre(e: Event, v: string)
    ensures Scalars(e, "binaries", v) == (if v == e.binary then 1 else 0)
    ensures Scalars(e, "parentBinaries", v) == (if v == e.parent then 1 else 0)
    ensures Scalars(e, "users", v) == (if v == e.user then 1 else 0)
    ensures Scalars(e, "containers", v) == (if v == e.container then 1 else 0)
    ensures Scalars(e, "namespaces", v) == (if v == e.namespace_ then 1 else 0)
    ensures Scalars(e, "workloads", v) == (if v == e.workload then 1 else 0)
    ensures Scalars(e, "pods", v) == (if v == e.pod then 1 else 0)
    ensures Scalars(e, "nodes", v) == (if v == e.node then 1 else 0)
    ensures Scalars(e, "hooks", v) == (if v == e.function_ then 1 else 0)
    ensures Scalars(e, "podLabels", v) == Scalars(e, "paths", v) == 0
  {
    hide Who, Where;
    WhoIs(e, v);
    WhereIs(e, v);
  }

  lemma WhoIs(e: Event, v: string)
    ensures Who(e, "binaries", v) == One("", v, "", e.binary) && Who(e, "parentBinaries", v) == One("", v, "", e.parent)
    ensures Who(e, "users", v) == One("", v, "", e.user) && Who(e, "containers", v) == One("", v, "", e.container)
    ensures forall d :: d in {"namespaces", "workloads", "pods", "nodes", "hooks", "podLabels", "paths"} ==>
              Who(e, d, v) == 0
  {
  }

  lemma WhereIs(e: Event, v: string)
    ensures Where(e, "namespaces", v) == One("", v, "", e.namespace_) &&
            Where(e, "workloads", v) == One("", v, "", e.workload)
    ensures Where(e, "pods", v) == One("", v, "", e.pod) && Where(e, "nodes", v) == One("", v, "", e.node)
    ensures Where(e, "hooks", v) == One("", v, "", e.function_)
    ensures forall d :: d in {"binaries", "parentBinaries", "users", "containers", "podLabels", "paths"} ==>
              Where(e, d, v) == 0
  {
  }

  lemma ElsewhereNone(e: Event, v: string)
    ensures forall d :: d != "podLabels" ==> LabelShows(e.labels, d, v) == 0
    ensures forall d :: d != "paths" ==> PathShows(e.argList, d, v) == 0
  {
  }

  /** A label that the cluster sets anew for every pod or revision. */
  predicate PerPod(k: string) {
    k in {"pod-template-hash", "controller-revision-hash", "pod-template-generation"}
    || "statefulset.kubernetes.io/" <= k
  }

  function PathOf(arg: string): string {
    Text.TrimSpace(arg)
  }

  predicate IsPath(arg: string) {
    |PathOf(arg)| >= 2 && PathOf(arg)[0] == '/' && forall c :: c in PathOf(arg) ==> c != ' ' && c != ':' && c != ','
  }

  /** What comes up to and with the last slash of a path, unless that is its first character. */
  predicate IsDirectoryOf(v: string, path: string) {
    v <= path && |v| > 1 && v[|v| - 1] == '/' && '/' !in path[|v|..]
  }

  lemma LabelShown(labels: map<string, string>, v: string)
    ensures LabelShows(labels, "podLabels", v) > 0 <==>
            exists k :: k in labels && v == k + "=" + labels[k] && !PerPod(k)
  {
    var ks := LabelsAs(labels, v);
    if ks != {} {
      var k :| k in ks;
      assert k in labels && v == k + "=" + labels[k] && !PerPod(k);
    }
    if k :| k in labels && v == k + "=" + labels[k] && !PerPod(k) {
      assert k in ks;
    }
  }

  lemma {:induction false} LastSlashIs(s: string)
    ensures LastSlash(s) >= 0 ==> s[LastSlash(s)] == '/'
    ensures forall k :: LastSlash(s) < k < |s| ==> s[k] != '/'
  {
    if s != "" && s[|s| - 1] != '/' {
      LastSlashIs(s[..|s| - 1]);
    }
  }

  lemma PathsInAre(arg: string, v: string)
    ensures v in PathsIn(arg) <==> (v == PathOf(arg) || IsDirectoryOf(v, PathOf(arg))) && IsPath(arg)
  {
    hide LastSlash, Text.TrimSpace;
    DirectoryIs(PathOf(arg), v);
    assert IsPath(arg) <==> PathsIn(arg) != [];
  }

  lemma DirectoryIs(path: string, v: string)
    ensures IsDirectoryOf(v, path) <==> LastSlash(path) > 0 && v == path[..LastSlash(path) + 1]
  {
    hide LastSlash;
    var i := LastSlash(path);
    LastSlashIs(path);
    if IsDirectoryOf(v, path) {
      NoSlashFrom(path, |v|);
      assert path[|v| - 1] == '/';
    }
  }

  lemma NoSlashFrom(path: string, n: nat)
    requires n <= |path| && '/' !in path[n..]
    ensures forall k :: n <= k < |path| ==> path[k] != '/'
  {
    forall k | n <= k < |path| ensures path[k] != '/' {
      assert path[n..][k - n] == path[k];
    }
  }

  lemma {:induction false} PathShown(args: seq<string>, v: string)
    ensures PathShows(args, "paths", v) > 0 <==>
            exists arg :: arg in args && (v == PathOf(arg) || IsDirectoryOf(v, PathOf(arg))) && IsPath(arg)
  {
    hide PathsIn, IsPath, PathOf, IsDirectoryOf;
    if args != [] {
      var n := |args| - 1;
      PathShown(args[..n], v);
      PathShowsMore(args, "paths", v);
      ListShowsIs(PathsIn(args[n]), "paths", v);
      PathsInAre(args[n], v);
      assert args == args[..n] + [args[n]];
    }
  }
}
