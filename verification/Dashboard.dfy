/**
 The time series of the overview (backend/internal/server/aggregator.go:435-490): the ring read back
 over its last ninety slots, against the unbounded counts.
 */
module Dashboard {
  import opened Recent
  import Ring
  import Runs
  import ServiceMap

  datatype TimePoint = TimePoint(time: nat, counters: Ring.Counters)

  const NANOSECONDS: nat := 1_000_000_000
  const LAST: nat := Ring.BUCKET_COUNT - 1

  function SlotOf(now: nat): nat {
    now / NANOSECONDS / Ring.BUCKET_SECONDS
  }

  /** The ninety points up to a slot, oldest first. */
  function Points(ring: seq<Ring.Bucket>, slot: nat): (r: seq<TimePoint>)
    requires |ring| == Ring.BUCKET_COUNT && slot >= LAST
    ensures |r| == Ring.BUCKET_COUNT
    ensures forall k :: 0 <= k < Ring.BUCKET_COUNT ==> r[k] == PointAt(ring, slot - LAST + k)
  {
    seq(Ring.BUCKET_COUNT, k requires 0 <= k < Ring.BUCKET_COUNT => PointAt(ring, slot - LAST + k))
  }

  function PointAt(ring: seq<Ring.Bucket>, slot: nat): TimePoint
    requires |ring| == Ring.BUCKET_COUNT
  {
    TimePoint(slot * Ring.BUCKET_SECONDS, Ring.Shown(ring, slot))
  }

  /** The points are ten seconds apart, and the last one is the present. */
  lemma PointTimes(ring: seq<Ring.Bucket>, now: nat)
    requires |ring| == Ring.BUCKET_COUNT && SlotOf(now) >= LAST
    ensures SlotOf(now) == now / 10_000_000_000
    ensures forall k :: 0 <= k < 90 ==> Points(ring, SlotOf(now))[k].time == (now / 10_000_000_000 - 89 + k) * 10
  {
    hide Ring.Shown;
    assert now / 1_000_000_000 / 10 == now / 10_000_000_000;
  }

  function SumOf(points: seq<TimePoint>): Ring.Counters {
    if points == [] then Ring.ZERO else SumOf(points[..|points| - 1]).Plus(points[|points| - 1].counters)
  }

  lemma SumGrows(points: seq<TimePoint>, p: TimePoint)
    ensures SumOf(points + [p]) == SumOf(points).Plus(p.counters)
  {
    assert (points + [p])[..|points|] == points;
  }

  predicate AllSane(points: seq<TimePoint>) {
    forall k :: 0 <= k < |points| ==> Ring.Sane(points[k].counters)
  }

  lemma {:induction false} SumIsSane(points: seq<TimePoint>)
    requires AllSane(points)
    ensures Ring.Sane(SumOf(points))
  {
    if points != [] {
      SumIsSane(points[..|points| - 1]);
    }
  }

  /**
   Points of a ring whose buckets have no more drops than flows, and no more HTTP errors than requests, have
   neither.
   */
  lemma PointsAreSane(ring: seq<Ring.Bucket>, slot: nat)
    requires |ring| == Ring.BUCKET_COUNT && slot >= LAST
    requires forall i :: 0 <= i < Ring.BUCKET_COUNT ==> Ring.Sane(ring[i].counters)
    ensures AllSane(Points(ring, slot))
  {
    var points := Points(ring, slot);
    forall k | 0 <= k < |points| ensures Ring.Sane(points[k].counters) {
      assert points[k] == PointAt(ring, slot - LAST + k);
    }
  }

  /** In any run, a point is the true count of its ten seconds exactly when no later mark took the bucket from them. */
  lemma PointsExactly(log: seq<Runs.Entry>, slot: nat, k: nat)
    requires slot >= LAST && k < Ring.BUCKET_COUNT
    ensures Points(Ring.RingOf(Runs.MarksOf(log)), slot)[k].counters == Ring.CountIn(Runs.MarksOf(log), slot - LAST + k)
       <==> !Ring.Erased(Runs.MarksOf(log), slot - LAST + k)
  {
    hide Ring.RingOf, Ring.CountIn, Ring.Erased, Runs.MarksOf;
    var marks := Runs.MarksOf(log);
    Runs.MarksCount(log);
    Ring.RingExactly(marks, slot - LAST + k);
    assert Points(Ring.RingOf(marks), slot)[k] == PointAt(Ring.RingOf(marks), slot - LAST + k);
  }

  /** When no mark came more than 89 slots late, each point is the true count of its ten seconds. */
  lemma PointsAreExact(marks: seq<Ring.Mark>, slot: nat, k: nat)
    requires slot >= LAST && k < Ring.BUCKET_COUNT
    requires Ring.InWindow(marks) && Ring.UpTo(marks, slot)
    ensures Points(Ring.RingOf(marks), slot)[k] ==
            TimePoint((slot - LAST + k) * Ring.BUCKET_SECONDS, Ring.CountIn(marks, slot - LAST + k))
  {
    hide Ring.RingOf, Ring.CountIn, Ring.InWindow, Ring.UpTo;
    Ring.RingIsExact(marks, slot, slot - LAST + k);
  }

  lemma {:induction false} SumBetween(points: seq<TimePoint>, marks: seq<Ring.Mark>, lo: nat)
    requires forall k :: 0 <= k < |points| ==> points[k].counters == Ring.CountIn(marks, lo + k)
    ensures SumOf(points) == Runs.CountBetween(marks, lo, lo + |points|)
  {
    hide Ring.CountIn, Ring.Counters.Plus;
    if points != [] {
      SumBetween(points[..|points| - 1], marks, lo);
    }
  }

  /** And when everything fell within the last ninety slots, the points add up to the totals. */
  lemma PointsConserve(log: seq<Runs.Entry>, slot: nat)
    requires slot >= LAST
    requires Ring.InWindow(Runs.MarksOf(log)) && Ring.UpTo(Runs.MarksOf(log), slot)
    requires forall m :: m in Runs.MarksOf(log) ==> slot - LAST <= m.slot
    ensures var sum := SumOf(Points(Ring.RingOf(Runs.MarksOf(log)), slot));
            && sum.flows == |Runs.FlowsOf(log)|
            && sum.drops == ServiceMap.Drops(Runs.FlowsOf(log))
            && sum.kills == Runs.Kills(log)
  {
    hide Ring.RingOf, Ring.CountIn, Ring.InWindow, Runs.MarksOf, Points, SumOf, Runs.CountBetween, Runs.CountAll;
    var marks := Runs.MarksOf(log);
    var points := Points(Ring.RingOf(marks), slot);
    forall k | 0 <= k < |points| ensures points[k].counters == Ring.CountIn(marks, slot - LAST + k) {
      PointsAreExact(marks, slot, k);
    }
    SumBetween(points, marks, slot - LAST);
    Runs.CountsMeet(marks, slot - LAST, slot + 1);
    Runs.TotalsAreCounted(log);
  }

  // ----- the walk over the points

  const LAST_MINUTE: nat := 6

  /** Those of the first `k` points that fall in the last minute. */
  function MinuteOf(points: seq<TimePoint>, k: nat): seq<TimePoint>
    requires k <= |points| == Ring.BUCKET_COUNT
  {
    if k <= Ring.BUCKET_COUNT - LAST_MINUTE then [] else points[Ring.BUCKET_COUNT - LAST_MINUTE..k]
  }

  lemma WalkStarts(points: seq<TimePoint>)
    requires |points| == Ring.BUCKET_COUNT
    ensures points[..0] == [] && SumOf(points[..0]) == SumOf(MinuteOf(points, 0)) == Ring.ZERO
  {
  }

  lemma WalkSteps(points: seq<TimePoint>, k: nat)
    requires k < |points| == Ring.BUCKET_COUNT
    ensures points[..k + 1] == points[..k] + [points[k]]
    ensures SumOf(points[..k + 1]) == SumOf(points[..k]).Plus(points[k].counters)
    ensures SumOf(MinuteOf(points, k + 1)) ==
            if k < Ring.BUCKET_COUNT - LAST_MINUTE then SumOf(MinuteOf(points, k))
            else SumOf(MinuteOf(points, k)).Plus(points[k].counters)
  {
    hide SumOf, Ring.Counters.Plus;
    assert points[..k + 1] == points[..k] + [points[k]];
    SumGrows(points[..k], points[k]);
    if k >= Ring.BUCKET_COUNT - LAST_MINUTE {
      assert MinuteOf(points, k + 1) == MinuteOf(points, k) + [points[k]];
      SumGrows(MinuteOf(points, k), points[k]);
    }
  }

  lemma WalkEnds(points: seq<TimePoint>)
    requires |points| == Ring.BUCKET_COUNT
    ensures points[..Ring.BUCKET_COUNT] == points && MinuteOf(points, Ring.BUCKET_COUNT) == Suffix(points, LAST_MINUTE)
  {
  }

  // ----- the summary

  datatype Summary = Summary(
    totalFlows: nat, totalDrops: nat, totalEvents: nat, totalKills: nat,
    flowRate: real, dropRate: real, httpErrPct: real, dnsErrors: nat, series: seq<TimePoint>)

  /** Rates over the last six points, errors over all of them. */
  ghost predicate Summarizes(o: Summary) {
    && |o.series| == 90
    && var all, minute := SumOf(o.series), SumOf(Suffix(o.series, 6));
    && o.flowRate == minute.flows as real / 60.0
    && o.dropRate == minute.drops as real / 60.0
    && o.dnsErrors == all.dnsErr
    && (all.httpReq == 0 ==> o.httpErrPct == 0.0)
    && (all.httpReq > 0 ==> o.httpErrPct == 100.0 * all.httpErr as real / all.httpReq as real)
  }

  lemma PercentIsOne(err: nat, req: nat)
    requires err <= req && req > 0
    ensures 0.0 <= 100.0 * err as real / req as real <= 100.0
  {
  }

  /** A rate of drops never exceeds the rate of flows, and a percentage is one. */
  lemma SummaryIsSane(o: Summary)
    requires Summarizes(o) && AllSane(o.series)
    ensures 0.0 <= o.dropRate <= o.flowRate && 0.0 <= o.httpErrPct <= 100.0
  {
    hide SumOf;
    var minute := Suffix(o.series, LAST_MINUTE);
    SumIsSane(o.series);
    SumIsSane(minute);
    if SumOf(o.series).httpReq > 0 {
      PercentIsOne(SumOf(o.series).httpErr, SumOf(o.series).httpReq);
    }
  }
}
