/**
 The catalogue of values seen per dimension (backend/internal/server/observed.go:35-98): bounded,
 dropping the least recently seen value. It is set against the log of every sighting.
 */
module Observed {
  import opened Option

  const MAX_PER_DIMENSION: nat := 400

  datatype ObservedValue = ObservedValue(value: string, count: nat, lastSeen: int, context: string)

  datatype Sighting = Sighting(value: string, context: string, at: int)

  type Bucket = map<string, ObservedValue>

  // ----- the log

  /** When a value was last seen. */
  function LastAt(log: seq<Sighting>, v: string): Option<int> {
    if log == [] then None
    else if log[|log| - 1].value == v then Some(log[|log| - 1].at)
    else LastAt(log[..|log| - 1], v)
  }

  function Occurrences(log: seq<Sighting>, v: string): nat {
    if log == [] then 0
    else Occurrences(log[..|log| - 1], v) + (if log[|log| - 1].value == v then 1 else 0)
  }

  /** The distinct non-empty values of the log. */
  function Values(log: seq<Sighting>): set<string> {
    set i | 0 <= i < |log| && log[i].value != "" :: log[i].value
  }

  ghost predicate NeverBackwards(log: seq<Sighting>) {
    forall i, j :: 0 <= i < j < |log| ==> log[i].at <= log[j].at
  }

  ghost predicate AlwaysForwards(log: seq<Sighting>) {
    forall i, j :: 0 <= i < j < |log| ==> log[i].at < log[j].at
  }

  // ----- what a bucket means

  /** Entries are values of the log, counted no more often than they occurred, exactly while nothing was dropped. */
  ghost predicate Accounted(b: Bucket, log: seq<Sighting>, cap: nat) {
    && |b| <= cap
    && b.Keys <= Values(log)
    && Counted(b, log)
    && (|Values(log)| <= cap ==> b.Keys == Values(log) && CountedExactly(b, log))
  }

  ghost predicate Counted(b: Bucket, log: seq<Sighting>) {
    forall v :: v in b ==> b[v].value == v && 1 <= b[v].count <= Occurrences(log, v)
  }

  ghost predicate CountedExactly(b: Bucket, log: seq<Sighting>) {
    forall v :: v in b ==> b[v].count == Occurrences(log, v)
  }

  /** Every entry carries its last sighting, and whatever is missing was last seen before all of them. */
  ghost predicate LeastRecentDropped(b: Bucket, log: seq<Sighting>, cap: nat) {
    && (forall v :: v in b ==> LastAt(log, v) == Some(b[v].lastSeen))
    && (forall v, w :: v in Values(log) && v !in b && w in b && LastAt(log, v).Some? ==>
        LastAt(log, v).value <= b[w].lastSeen)
    && (forall v :: v in Values(log) && v !in b ==> |b| == cap)
  }

  ghost predicate BucketOk(b: Bucket, log: seq<Sighting>) {
    Accounted(b, log, MAX_PER_DIMENSION) && (NeverBackwards(log) ==> LeastRecentDropped(b, log, MAX_PER_DIMENSION))
  }

  class ObservedCatalog {
    var dims: map<string, Bucket>
    /** Every call to Record, per dimension. */
    ghost var log: map<string, seq<Sighting>>

    ghost function Sightings(dim: string): seq<Sighting>
      reads this
    {
      if dim in log then log[dim] else []
    }

    function BucketOf(dim: string): Bucket
      reads this
    {
      if dim in dims then dims[dim] else map[]
    }

    ghost predicate Valid()
      reads this
    {
      forall dim :: BucketOk(BucketOf(dim), Sightings(dim))
    }

    constructor ()
      ensures Valid() && dims == map[] && log == map[]
    {
      dims, log := map[], map[];
    }

    method Record(dim: string, value: string, context: string, at: int)
      requires Valid()
      modifies this
      ensures Valid()
      ensures Sightings(dim) == old(Sightings(dim)) + [Sighting(value, context, at)]
      ensures forall d :: d != dim ==> Sightings(d) == old(Sightings(d)) && BucketOf(d) == old(BucketOf(d))
    {
      hide BucketOk;
      var bucket := RecordIn(BucketOf(dim), value, context, at, Sightings(dim));
      log := log[dim := Sightings(dim) + [Sighting(value, context, at)]];
      if value != "" {
        dims := dims[dim := bucket];
      }
      assert BucketOf(dim) == bucket && Sightings(dim) == old(Sightings(dim)) + [Sighting(value, context, at)];
      assert forall d :: d != dim ==> BucketOf(d) == old(BucketOf(d)) && Sightings(d) == old(Sightings(d));
    }
  }

  /** One sighting, on the bucket of its dimension. The first context that says something stays. */
  method RecordIn(bucket: Bucket, value: string, context: string, at: int, ghost log: seq<Sighting>) returns (r: Bucket)
    requires BucketOk(bucket, log)
    ensures BucketOk(r, log + [Sighting(value, context, at)])
    ensures value == "" ==> r == bucket
    ensures forall v :: v in r && v != value ==> v in bucket && r[v] == bucket[v]
    ensures value != "" && value in bucket ==>
              var v := bucket[value];
              r == bucket[value := ObservedValue(value, v.count + 1, if at > v.lastSeen then at else v.lastSeen,
                                                 if v.context == "" then context else v.context)]
    ensures value != "" && value !in bucket ==> value in r && r[value] == ObservedValue(value, 1, at, context)
  {
    hide Accounted, LeastRecentDropped, NeverBackwards;
    ghost var s := Sighting(value, context, at);
    ForwardsBefore(log, s);
    r := bucket;
    if value == "" {
      EmptyIgnored(bucket, log, s);
      return;
    }
    if value in bucket {
      EntryValue(bucket, log, value);
      var v := bucket[value];
      v := v.(count := v.count + 1,
              lastSeen := if at > v.lastSeen then at else v.lastSeen,
              context := if v.context == "" then context else v.context);
      SeenAgain(bucket, log, s, v);
      return bucket[value := v];
    }
    if |bucket| >= MAX_PER_DIMENSION {
      FullBucket(bucket, log, MAX_PER_DIMENSION);
      r := EvictOldest(bucket);
      Dropped(bucket, r, log, s, MAX_PER_DIMENSION);
    } else {
      Inserted(bucket, log, s, MAX_PER_DIMENSION);
    }
    r := r[value := ObservedValue(value, 1, at, context)];
  }

  /** The entry with the earliest last sighting goes; any of them on a tie. */
  method EvictOldest(bucket: Bucket) returns (r: Bucket)
    requires bucket != map[]
    ensures exists k :: && k in bucket && r == bucket - {k}
                        && forall v :: v in bucket ==> bucket[k].lastSeen <= bucket[v].lastSeen
  {
    var oldestKey, oldest, first := "", 0, true;
    var keys := bucket.Keys;
    while keys != {}
      invariant keys <= bucket.Keys
      invariant first ==> keys == bucket.Keys
      invariant !first ==> oldestKey in bucket && bucket[oldestKey].lastSeen == oldest
      invariant !first ==> forall v :: v in bucket && v !in keys ==> oldest <= bucket[v].lastSeen
      decreases |keys|
    {
      var k :| k in keys;
      keys := keys - {k};
      if first || bucket[k].lastSeen < oldest {
        oldestKey, oldest, first := k, bucket[k].lastSeen, false;
      }
    }
    r := bucket - {oldestKey};
  }

  // ----- one more sighting

  lemma LogGrows(log: seq<Sighting>, s: Sighting, v: string)
    ensures LastAt(log + [s], v) == if s.value == v then Some(s.at) else LastAt(log, v)
    ensures Occurrences(log + [s], v) == Occurrences(log, v) + if s.value == v then 1 else 0
    ensures Values(log + [s]) == Values(log) + if s.value == "" then {} else {s.value}
  {
    assert (log + [s])[..|log|] == log;
    var more := log + [s];
    forall x | x in Values(log) ensures x in Values(more) {
      var i :| 0 <= i < |log| && log[i].value != "" && log[i].value == x;
      assert more[i].value == x;
    }
    assert more[|log|] == s;
  }

  lemma {:induction false} LastAtBound(log: seq<Sighting>, v: string)
    ensures LastAt(log, v).Some? ==>
              exists i :: 0 <= i < |log| && log[i].value == v && log[i].at == LastAt(log, v).value
    ensures v in Values(log) ==> LastAt(log, v).Some? && Occurrences(log, v) >= 1
    ensures LastAt(log, v).None? ==> Occurrences(log, v) == 0
  {
    if log != [] {
      var n := |log| - 1;
      LastAtBound(log[..n], v);
      assert log == log[..n] + [log[n]];
      LogGrows(log[..n], log[n], v);
    }
  }

  /** Nothing in the log is later than the sighting that comes next. */
  lemma LaterThanAll(log: seq<Sighting>, s: Sighting, v: string)
    requires NeverBackwards(log + [s])
    ensures LastAt(log, v).Some? ==> LastAt(log, v).value <= s.at
  {
    LastAtBound(log, v);
    if i :| 0 <= i < |log| && log[i].value == v && Some(log[i].at) == LastAt(log, v) {
      assert (log + [s])[i] == log[i] && (log + [s])[|log|] == s;
    }
  }

  lemma ForwardsBefore(log: seq<Sighting>, s: Sighting)
    ensures NeverBackwards(log + [s]) ==> NeverBackwards(log)
  {
    var more := log + [s];
    assert forall i :: 0 <= i < |log| ==> more[i] == log[i];
  }

  /** The log's functions after one more sighting. */
  lemma AllGrow(log: seq<Sighting>, s: Sighting)
    ensures forall x :: LastAt(log + [s], x) == if s.value == x then Some(s.at) else LastAt(log, x)
    ensures forall x :: Occurrences(log + [s], x) == Occurrences(log, x) + if s.value == x then 1 else 0
    ensures Values(log + [s]) == Values(log) + if s.value == "" then {} else {s.value}
    ensures forall x :: x in Values(log) ==> x != "" && LastAt(log, x).Some?
    ensures forall x :: x !in Values(log) && x != "" ==> Occurrences(log, x) == 0
    ensures NeverBackwards(log + [s]) ==> forall x :: LastAt(log, x).Some? ==> LastAt(log, x).value <= s.at
    ensures |Values(log)| <= |Values(log + [s])|
  {
    hide LastAt, Occurrences, NeverBackwards;
    LogGrows(log, s, s.value);
    forall x
      ensures LastAt(log + [s], x) == if s.value == x then Some(s.at) else LastAt(log, x)
      ensures Occurrences(log + [s], x) == Occurrences(log, x) + if s.value == x then 1 else 0
    {
      LogGrows(log, s, x);
    }
    forall x
      ensures x in Values(log) ==> LastAt(log, x).Some?
      ensures NeverBackwards(log + [s]) && LastAt(log, x).Some? ==> LastAt(log, x).value <= s.at
    {
      LastAtBound(log, x);
      if NeverBackwards(log + [s]) {
        LaterThanAll(log, s, x);
      }
    }
    forall x | x !in Values(log) && x != "" ensures Occurrences(log, x) == 0 {
      NeverSeen(log, x);
    }
    SubsetSize(Values(log), Values(log + [s]));
  }

  lemma EmptyIgnored(b: Bucket, log: seq<Sighting>, s: Sighting)
    requires s.value == ""
    requires Accounted(b, log, MAX_PER_DIMENSION)
    ensures Accounted(b, log + [s], MAX_PER_DIMENSION)
    ensures LeastRecentDropped(b, log, MAX_PER_DIMENSION) ==> LeastRecentDropped(b, log + [s], MAX_PER_DIMENSION)
  {
    hide LastAt, Occurrences, Values, NeverBackwards;
    AllGrow(log, s);
    assert Values(log + [s]) == Values(log);
  }

  lemma EntryValue(b: Bucket, log: seq<Sighting>, v: string)
    requires Accounted(b, log, MAX_PER_DIMENSION) && v in b
    ensures b[v].value == v
  {
  }

  lemma SeenAgain(b: Bucket, log: seq<Sighting>, s: Sighting, v: ObservedValue)
    requires s.value in b && s.value != "" && Accounted(b, log, MAX_PER_DIMENSION)
    requires v.value == s.value && v.count == b[s.value].count + 1
    requires v.lastSeen == if s.at > b[s.value].lastSeen then s.at else b[s.value].lastSeen
    ensures Accounted(b[s.value := v], log + [s], MAX_PER_DIMENSION)
    ensures NeverBackwards(log + [s]) && LeastRecentDropped(b, log, MAX_PER_DIMENSION) ==>
              LeastRecentDropped(b[s.value := v], log + [s], MAX_PER_DIMENSION)
  {
    hide LastAt, Occurrences, Values, NeverBackwards, Counted, CountedExactly;
    var c := b[s.value := v];
    assert c.Keys == b.Keys;
    AllGrow(log, s);
    assert Values(log + [s]) == Values(log) by {
      assert s.value in Values(log);
    }
    SeenAgainCounts(b, log, s, v);
  }

  lemma SeenAgainCounts(b: Bucket, log: seq<Sighting>, s: Sighting, v: ObservedValue)
    requires s.value in b && v.value == s.value && v.count == b[s.value].count + 1
    ensures Counted(b, log) ==> Counted(b[s.value := v], log + [s])
    ensures CountedExactly(b, log) ==> CountedExactly(b[s.value := v], log + [s])
  {
    hide LastAt, Occurrences, Values, NeverBackwards;
    AllGrow(log, s);
  }

  lemma JoinedCounts(b: Bucket, rest: Bucket, log: seq<Sighting>, s: Sighting)
    requires s.value !in b && s.value != "" && rest.Keys <= b.Keys && (forall v :: v in rest ==> rest[v] == b[v])
    ensures Counted(b, log) ==> Counted(rest[s.value := Fresh(s)], log + [s])
    ensures CountedExactly(b, log) && s.value !in Values(log) ==> CountedExactly(rest[s.value := Fresh(s)], log + [s])
  {
    hide LastAt, Occurrences, Values, NeverBackwards;
    AllGrow(log, s);
  }

  lemma FullBucket(b: Bucket, log: seq<Sighting>, cap: nat)
    requires Accounted(b, log, cap) && |b| >= cap
    ensures |b| == cap
  {
  }

  function Fresh(s: Sighting): ObservedValue {
    ObservedValue(s.value, 1, s.at, s.context)
  }

  /** A new value joins what stays of the bucket. */
  lemma Joined(b: Bucket, rest: Bucket, log: seq<Sighting>, s: Sighting, cap: nat)
    requires s.value !in b && s.value != "" && Accounted(b, log, cap)
    requires rest.Keys <= b.Keys && (forall v :: v in rest ==> rest[v] == b[v]) && |rest| < cap
    requires rest != b ==> |Values(log + [s])| > cap
    ensures Accounted(rest[s.value := Fresh(s)], log + [s], cap)
  {
    hide LastAt, Occurrences, Values, NeverBackwards, Counted, CountedExactly;
    var c := rest[s.value := Fresh(s)];
    JoinedCounts(b, rest, log, s);
    AllGrow(log, s);
    if |Values(log + [s])| <= cap {
      assert rest == b;
      assert s.value !in Values(log);
    }
  }

  lemma Inserted(b: Bucket, log: seq<Sighting>, s: Sighting, cap: nat)
    requires s.value !in b && s.value != "" && |b| < cap && Accounted(b, log, cap)
    ensures Accounted(b[s.value := Fresh(s)], log + [s], cap)
    ensures NeverBackwards(log + [s]) && LeastRecentDropped(b, log, cap) ==>
              LeastRecentDropped(b[s.value := Fresh(s)], log + [s], cap)
  {
    hide LastAt, Occurrences, Values, NeverBackwards, Accounted;
    Joined(b, b, log, s, cap);
    AllGrow(log, s);
    var c := b[s.value := Fresh(s)];
    if LeastRecentDropped(b, log, cap) {
      assert forall v :: v in Values(log + [s]) && v !in c ==> v in Values(log) && v !in b;
    }
  }

  lemma {:induction false} SubsetSize(a: set<string>, b: set<string>)
    requires a <= b
    ensures |a| <= |b|
    ensures a != b ==> |a| < |b|
    decreases |b|
  {
    if a != b {
      assert exists x :: x in b && x !in a;
      var x :| x in b && x !in a;
      SubsetSize(a, b - {x});
    }
  }

  lemma {:induction false} NeverSeen(log: seq<Sighting>, v: string)
    ensures v != "" && v !in Values(log) ==> Occurrences(log, v) == 0
  {
    if log != [] {
      var n := |log| - 1;
      NeverSeen(log[..n], v);
      assert log == log[..n] + [log[n]];
      LogGrows(log[..n], log[n], v);
    }
  }

  /** A full bucket makes room for a new value. */
  lemma Dropped(b: Bucket, rest: Bucket, log: seq<Sighting>, s: Sighting, cap: nat)
    requires s.value !in b && s.value != "" && |b| == cap > 0 && Accounted(b, log, cap)
    requires exists k :: k in b && rest == b - {k} && forall v :: v in b ==> b[k].lastSeen <= b[v].lastSeen
    ensures Accounted(rest[s.value := Fresh(s)], log + [s], cap)
    ensures NeverBackwards(log + [s]) && LeastRecentDropped(b, log, cap) ==>
              LeastRecentDropped(rest[s.value := Fresh(s)], log + [s], cap)
  {
    hide LastAt, Occurrences, Values, NeverBackwards;
    var k :| k in b && rest == b - {k} && forall v :: v in b ==> b[k].lastSeen <= b[v].lastSeen;
    assert rest.Keys == b.Keys - {k};
    assert |rest| == |rest.Keys| == |b.Keys| - 1 && |b| == |b.Keys|;
    AllGrow(log, s);
    SubsetSize(b.Keys + {s.value}, Values(log + [s]));
    Joined(b, rest, log, s, cap);
    if NeverBackwards(log + [s]) && LeastRecentDropped(b, log, cap) {
      DroppedOrder(b, rest, log, s, cap, k);
    }
  }

  lemma DroppedOrder(b: Bucket, rest: Bucket, log: seq<Sighting>, s: Sighting, cap: nat, k: string)
    requires s.value !in b && s.value != "" && |b| == cap > 0 && b.Keys <= Values(log)
    requires k in b && rest == b - {k} && forall v :: v in b ==> b[k].lastSeen <= b[v].lastSeen
    requires NeverBackwards(log + [s]) && LeastRecentDropped(b, log, cap)
    ensures LeastRecentDropped(rest[s.value := Fresh(s)], log + [s], cap)
  {
    hide LastAt, Occurrences, Values, NeverBackwards;
    var c := rest[s.value := Fresh(s)];
    assert c.Keys == b.Keys - {k} + {s.value};
    assert |c| == |c.Keys| == |b.Keys| == |b|;
    AllGrow(log, s);
    forall v, w | v in Values(log + [s]) && v !in c && w in c && LastAt(log + [s], v).Some?
      ensures LastAt(log + [s], v).value <= c[w].lastSeen
    {
      assert v in Values(log) && LastAt(log, v) == LastAt(log + [s], v);
      assert v in b ==> v == k;
    }
  }

  // ----- exactly the most recently seen

  /** The values seen after `v` was last seen. */
  ghost function SeenAfter(log: seq<Sighting>, v: string): set<string> {
    set w | w in Values(log) && LastAt(log, v).Some? && LastAt(log, w).Some? &&
      LastAt(log, v).value < LastAt(log, w).value
  }

  /** With no two sightings at one time, distinct values were last seen at distinct times. */
  lemma DistinctTimes(log: seq<Sighting>, v: string, w: string)
    requires AlwaysForwards(log) && v != w && LastAt(log, v).Some? && LastAt(log, w).Some?
    ensures LastAt(log, v) != LastAt(log, w)
  {
    LastAtBound(log, v);
    LastAtBound(log, w);
  }

  /**
   While times strictly increase, a bucket holds exactly the values with fewer than `cap` others seen
   after them, each with its last sighting.
   */
  lemma ExactlyMostRecent(b: Bucket, log: seq<Sighting>, cap: nat, v: string)
    requires Accounted(b, log, cap) && LeastRecentDropped(b, log, cap) && AlwaysForwards(log)
    ensures v in b <==> v in Values(log) && |SeenAfter(log, v)| < cap
    ensures v in b ==> LastAt(log, v) == Some(b[v].lastSeen)
  {
    hide LastAt, Occurrences, Values, AlwaysForwards;
    if v in b {
      LaterAreKept(b, log, cap, v);
    } else if v in Values(log) {
      KeptAreLater(b, log, cap, v);
    }
  }

  lemma LaterAreKept(b: Bucket, log: seq<Sighting>, cap: nat, v: string)
    requires Accounted(b, log, cap) && LeastRecentDropped(b, log, cap) && v in b
    ensures |SeenAfter(log, v)| < cap
  {
    hide LastAt, Occurrences, Values;
    var after := SeenAfter(log, v);
    assert |b| == |b.Keys|;
    forall w | w in after ensures w in b.Keys - {v} {
    }
    SubsetSize(after, b.Keys - {v});
  }

  lemma KeptAreLater(b: Bucket, log: seq<Sighting>, cap: nat, v: string)
    requires Accounted(b, log, cap) && LeastRecentDropped(b, log, cap) && AlwaysForwards(log)
    requires v in Values(log) && v !in b
    ensures |SeenAfter(log, v)| >= cap
  {
    hide LastAt, Occurrences, Values, AlwaysForwards;
    var after := SeenAfter(log, v);
    assert |b| == |b.Keys|;
    LastAtBound(log, v);
    forall w | w in b ensures w in after {
      DistinctTimes(log, v, w);
    }
    SubsetSize(b.Keys, after);
  }

  /** The catalogue at any moment: exactly the 400 most recently seen values of each dimension. */
  lemma CatalogueIsExact(c: ObservedCatalog, dim: string, v: string)
    requires c.Valid() && AlwaysForwards(c.Sightings(dim))
    ensures v in c.BucketOf(dim) <==>
            v in Values(c.Sightings(dim)) && |SeenAfter(c.Sightings(dim), v)| < MAX_PER_DIMENSION
    ensures v in c.BucketOf(dim) ==> LastAt(c.Sightings(dim), v) == Some(c.BucketOf(dim)[v].lastSeen)
  {
    ExactlyMostRecent(c.BucketOf(dim), c.Sightings(dim), MAX_PER_DIMENSION, v);
  }
}
