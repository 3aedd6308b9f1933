/**
 The result timeline (`series`, backend/internal/investigate/investigate.go:449-492).
 Times are nanoseconds since Go's zero time; an absent bound stands for the zero time itself.
 */
module Timeline {
  import opened Option
  import Sorting

  const SECOND: nat := 1_000_000_000
  const UNIX_EPOCH: nat := 62_135_596_800 // seconds from the zero time to 1970
  const BUCKETS: nat := 60

  datatype Point = Point(time: nat, blocked: bool)

  datatype Bucket = Bucket(time: int, total: nat, blocked: nat)

  /** `t.Truncate(step).Unix()`. */
  function Slot(t: nat, step: nat): int
    requires step > 0
  {
    StepSecond(t / step, step)
  }

  /** The second in which the k-th step begins. */
  function StepSecond(k: nat, step: nat): int {
    k * step / SECOND - UNIX_EPOCH
  }

  /** The longest duration, about 292 years: longer differences of times are cut to it. */
  const LONGEST: nat := 0x7FFF_FFFF_FFFF_FFFF

  function Span(since: nat, until: nat): nat {
    if until <= since then 60 * SECOND else if until - since > LONGEST then LONGEST else until - since
  }

  function StepOf(since: nat, until: nat): (step: nat)
    ensures step >= SECOND
  {
    var step := Span(since, until) / BUCKETS;
    if step < SECOND then SECOND else step
  }

  /** The window the timeline is drawn over; rows come newest first. */
  function Since(rows: seq<Point>, since: Option<nat>): nat
    requires rows != []
  {
    if since.Some? then since.value else rows[|rows| - 1].time
  }

  function Until(rows: seq<Point>, until: Option<nat>): nat
    requires rows != []
  {
    if until.Some? then until.value else rows[0].time
  }

  // ----- counting

  function InSlot(rows: seq<Point>, slot: int, step: nat): nat
    requires step > 0
  {
    if rows == [] then 0
    else InSlot(rows[..|rows| - 1], slot, step) + if Slot(rows[|rows| - 1].time, step) == slot then 1 else 0
  }

  function BlockedInSlot(rows: seq<Point>, slot: int, step: nat): nat
    requires step > 0
  {
    if rows == [] then 0
    else BlockedInSlot(rows[..|rows| - 1], slot, step)
         + if Slot(rows[|rows| - 1].time, step) == slot && rows[|rows| - 1].blocked then 1 else 0
  }

  function Blocked(rows: seq<Point>): nat {
    if rows == [] then 0 else Blocked(rows[..|rows| - 1]) + if rows[|rows| - 1].blocked then 1 else 0
  }

  function Totals(bs: seq<Bucket>): nat {
    if bs == [] then 0 else Totals(bs[..|bs| - 1]) + bs[|bs| - 1].total
  }

  function Blocks(bs: seq<Bucket>): nat {
    if bs == [] then 0 else Blocks(bs[..|bs| - 1]) + bs[|bs| - 1].blocked
  }

  lemma OneMoreRow(rows: seq<Point>, r: Point, slot: int, step: nat)
    requires step > 0
    ensures InSlot(rows + [r], slot, step) == InSlot(rows, slot, step) + if Slot(r.time, step) == slot then 1 else 0
    ensures BlockedInSlot(rows + [r], slot, step)
         == BlockedInSlot(rows, slot, step) + if Slot(r.time, step) == slot && r.blocked then 1 else 0
    ensures Blocked(rows + [r]) == Blocked(rows) + if r.blocked then 1 else 0
  {
    assert (rows + [r])[..|rows|] == rows;
  }

  /** The buckets of the slots listed so far. */
  ghost predicate Tallied(idx: map<int, Bucket>, order: seq<int>, rows: seq<Point>, step: nat)
    requires step > 0
  {
    && (forall s :: s in order <==> s in idx)
    && (forall i, j :: 0 <= i < j < |order| ==> order[i] != order[j])
    && (forall s :: s in idx ==> idx[s] == Bucket(s, InSlot(rows, s, step), BlockedInSlot(rows, s, step)))
    && (forall s :: s in idx <==> InSlot(rows, s, step) > 0)
  }

  method Tally(rows: seq<Point>, step: nat) returns (idx: map<int, Bucket>, order: seq<int>)
    requires step > 0
    ensures Tallied(idx, order, rows, step)
  {
    hide InSlot, BlockedInSlot, Slot;
    idx, order := map[], [];
    NoRows(step);
    for i := 0 to |rows|
      invariant Tallied(idx, order, rows[..i], step)
    {
      var r := rows[i];
      assert rows[..i + 1] == rows[..i] + [r];
      forall s
        ensures InSlot(rows[..i + 1], s, step) == InSlot(rows[..i], s, step) + if Slot(r.time, step) == s then 1 else 0
        ensures BlockedInSlot(rows[..i + 1], s, step)
             == BlockedInSlot(rows[..i], s, step) + if Slot(r.time, step) == s && r.blocked then 1 else 0
      {
        OneMoreRow(rows[..i], r, s, step);
      }
      var slot := Slot(r.time, step);
      if slot !in idx {
        BlockedIsInSlot(rows[..i], slot, step);
        idx := idx[slot := Bucket(slot, 0, 0)];
        order := order + [slot];
      }
      var b := idx[slot];
      b := b.(total := b.total + 1);
      if r.blocked {
        b := b.(blocked := b.blocked + 1);
      }
      idx := idx[slot := b];
    }
    assert rows[..|rows|] == rows;
  }

  lemma NoRows(step: nat)
    requires step > 0
    ensures forall s :: InSlot([], s, step) == 0 && BlockedInSlot([], s, step) == 0
  {
  }

  lemma {:induction false} BlockedIsInSlot(rows: seq<Point>, slot: int, step: nat)
    requires step > 0
    ensures BlockedInSlot(rows, slot, step) <= InSlot(rows, slot, step)
  {
    if rows != [] {
      BlockedIsInSlot(rows[..|rows| - 1], slot, step);
    }
  }

  predicate Ascending(a: int, b: int) {
    a <= b
  }

  /** One bucket for every slot that has rows, in order, each with exactly its rows. */
  ghost predicate Drawn(out: seq<Bucket>, rows: seq<Point>, step: nat)
    requires step > 0
  {
    && (forall i, j :: 0 <= i < j < |out| ==> out[i].time < out[j].time)
    && (forall i :: 0 <= i < |out| ==>
          out[i] == Bucket(out[i].time, InSlot(rows, out[i].time, step), BlockedInSlot(rows, out[i].time, step)) &&
            out[i].total > 0)
    && (forall r :: r in rows ==> exists i :: 0 <= i < |out| && out[i].time == Slot(r.time, step))
  }

  method StepBetween(from: nat, to: nat) returns (step: nat)
    ensures step == StepOf(from, to)
  {
    var span: int := if to - from > LONGEST then LONGEST else to - from;
    if span <= 0 {
      span := 60 * SECOND;
    }
    step := span / BUCKETS;
    if step < SECOND {
      step := SECOND;
    }
  }

  /** The buckets of the slots, in that order. */
  method InOrder(idx: map<int, Bucket>, order: seq<int>) returns (out: seq<Bucket>)
    requires forall j :: 0 <= j < |order| ==> order[j] in idx
    ensures |out| == |order| && forall j :: 0 <= j < |order| ==> out[j] == idx[order[j]]
  {
    out := [];
    for i := 0 to |order|
      invariant |out| == i
      invariant forall j :: 0 <= j < i ==> out[j] == idx[order[j]]
    {
      out := out + [idx[order[i]]];
    }
  }

  /**
   The timeline conserves the rows and is in order. With the rows in the window it has no more points than
   steps: at most 62 in a window of up to 292 years.
   */
  method Series(rows: seq<Point>, since: Option<nat>, until: Option<nat>) returns (out: seq<Bucket>)
    ensures rows == [] ==> out == []
    ensures rows != [] ==> Drawn(out, rows, StepOf(Since(rows, since), Until(rows, until)))
    ensures Totals(out) == |rows| && Blocks(out) == Blocked(rows)
    ensures rows != [] && RowsWithin(rows, Since(rows, since), Until(rows, until)) ==>
              |out| <= Steps(Since(rows, since), Until(rows, until))
    ensures rows != [] && RowsWithin(rows, Since(rows, since), Until(rows, until)) ==>
              Until(rows, until) <= Since(rows, since) + LONGEST ==> |out| <= 62
  {
    hide InSlot, BlockedInSlot, Slot, Blocked, Drawn, Steps, StepOf;
    if rows == [] {
      NoneBlocked();
      return [];
    }
    var from, to := Since(rows, since), Until(rows, until);
    var step := StepBetween(from, to);
    var idx, order := Tally(rows, step);
    var unsorted := order;
    order := Sorting.Sort(Ascending, order);
    Sorting.SameMembers(unsorted, order);
    Sorting.DistinctStaysDistinct(unsorted, order);
    OrderedHaveBuckets(idx, unsorted, order);
    out := InOrder(idx, order);
    BucketsDrawn(out, idx, order, rows, step);
    DrawnConserves(out, rows, step);
    if RowsWithin(rows, from, to) {
      PointPerStep(out, rows, from, to);
      assert rows[0] in rows;
      if to <= from + LONGEST {
        WindowSteps(from, to);
      }
    }
  }

  /** The buckets of the slots in ascending order are the timeline. */
  lemma BucketsDrawn(out: seq<Bucket>, idx: map<int, Bucket>, order: seq<int>, rows: seq<Point>, step: nat)
    requires step > 0 && |out| == |order| && (forall s :: s in idx <==> s in order)
    requires forall s :: s in idx ==> idx[s] == Bucket(s, InSlot(rows, s, step), BlockedInSlot(rows, s, step))
    requires forall s :: s in idx <==> InSlot(rows, s, step) > 0
    requires forall j :: 0 <= j < |order| ==> order[j] in idx && out[j] == idx[order[j]]
    requires Sorting.SortedBy(Ascending, order) && forall i, j :: 0 <= i < j < |order| ==> order[i] != order[j]
    ensures Drawn(out, rows, step)
  {
    hide InSlot, BlockedInSlot, Slot;
    forall i | 0 <= i < |out| ensures out[i].time == order[i] && order[i] in idx {
      assert order[i] in order;
    }
    forall i, j | 0 <= i < j < |out| ensures out[i].time < out[j].time {
      assert Ascending(order[i], order[j]);
    }
    forall r | r in rows ensures exists i :: 0 <= i < |out| && out[i].time == Slot(r.time, step) {
      RowHasSlot(rows, r, step);
      assert Slot(r.time, step) in order;
    }
  }

  lemma OrderedHaveBuckets(idx: map<int, Bucket>, unsorted: seq<int>, order: seq<int>)
    requires forall s :: s in unsorted <==> s in idx
    requires forall s :: s in unsorted <==> s in order
    ensures forall j :: 0 <= j < |order| ==> order[j] in idx
  {
    forall j | 0 <= j < |order| ensures order[j] in idx {
      var s := order[j];
      assert s in order;
      assert s in unsorted;
    }
  }

  lemma NoneBlocked()
    ensures Blocked([]) == 0
  {
  }

  lemma {:induction false} RowHasSlot(rows: seq<Point>, r: Point, step: nat)
    requires step > 0 && r in rows
    ensures InSlot(rows, Slot(r.time, step), step) > 0
  {
    hide Slot;
    var n := |rows| - 1;
    assert rows == rows[..n] + [rows[n]];
    if r != rows[n] {
      RowHasSlot(rows[..n], r, step);
    }
  }

  lemma {:induction false} SlotHasRow(rows: seq<Point>, slot: int, step: nat) returns (r: Point)
    requires step > 0 && InSlot(rows, slot, step) > 0
    ensures r in rows && Slot(r.time, step) == slot
  {
    hide Slot;
    var n := |rows| - 1;
    if Slot(rows[n].time, step) == slot {
      r := rows[n];
    } else {
      r := SlotHasRow(rows[..n], slot, step);
    }
  }

  // ----- conservation

  /** The rows of the slots that have a bucket. */
  function Covered(rows: seq<Point>, times: seq<int>, step: nat): nat
    requires step > 0
  {
    if times == [] then 0 else Covered(rows, times[..|times| - 1], step) + InSlot(rows, times[|times| - 1], step)
  }

  function BlockedCovered(rows: seq<Point>, times: seq<int>, step: nat): nat
    requires step > 0
  {
    if times == [] then 0
    else BlockedCovered(rows, times[..|times| - 1], step) + BlockedInSlot(rows, times[|times| - 1], step)
  }

  function Times(bs: seq<Bucket>): seq<int> {
    seq(|bs|, i requires 0 <= i < |bs| => bs[i].time)
  }

  lemma {:induction false} SumsAreCovered(out: seq<Bucket>, rows: seq<Point>, step: nat)
    requires step > 0
    requires forall i :: 0 <= i < |out| ==> out[i].total == InSlot(rows, out[i].time, step)
    requires forall i :: 0 <= i < |out| ==> out[i].blocked == BlockedInSlot(rows, out[i].time, step)
    ensures Totals(out) == Covered(rows, Times(out), step)
    ensures Blocks(out) == BlockedCovered(rows, Times(out), step)
  {
    if out != [] {
      SumsAreCovered(out[..|out| - 1], rows, step);
      assert Times(out)[..|out| - 1] == Times(out[..|out| - 1]);
    }
  }

  /** A further row is counted once, in the one slot it falls into. */
  lemma {:induction false} CoveredGrows(rows: seq<Point>, r: Point, times: seq<int>, step: nat)
    requires step > 0
    requires forall i, j :: 0 <= i < j < |times| ==> times[i] != times[j]
    ensures Covered(rows + [r], times, step) ==
            Covered(rows, times, step) + if Slot(r.time, step) in times then 1 else 0
    ensures BlockedCovered(rows + [r], times, step)
         == BlockedCovered(rows, times, step) + if Slot(r.time, step) in times && r.blocked then 1 else 0
  {
    hide Slot;
    if times != [] {
      var n := |times| - 1;
      CoveredGrows(rows, r, times[..n], step);
      OneMoreRow(rows, r, times[n], step);
      assert times == times[..n] + [times[n]];
    }
  }

  lemma {:induction false} CoveredNothing(times: seq<int>, step: nat)
    requires step > 0
    ensures Covered([], times, step) == 0 && BlockedCovered([], times, step) == 0
  {
    if times != [] {
      CoveredNothing(times[..|times| - 1], step);
    }
  }

  lemma {:induction false} AllCovered(rows: seq<Point>, times: seq<int>, step: nat)
    requires step > 0
    requires forall i, j :: 0 <= i < j < |times| ==> times[i] != times[j]
    requires forall r :: r in rows ==> Slot(r.time, step) in times
    ensures Covered(rows, times, step) == |rows| && BlockedCovered(rows, times, step) == Blocked(rows)
  {
    hide Slot;
    if rows == [] {
      CoveredNothing(times, step);
    } else {
      var n := |rows| - 1;
      assert rows == rows[..n] + [rows[n]];
      assert forall r :: r in rows[..n] ==> r in rows;
      AllCovered(rows[..n], times, step);
      CoveredGrows(rows[..n], rows[n], times, step);
      OneMoreRow(rows[..n], rows[n], 0, step);
    }
  }

  /** Bucket totals add up to the rows, blocked counts to the blocked rows. */
  lemma DrawnConserves(out: seq<Bucket>, rows: seq<Point>, step: nat)
    requires step > 0 && Drawn(out, rows, step)
    ensures Totals(out) == |rows| && Blocks(out) == Blocked(rows)
  {
    hide Slot, InSlot, BlockedInSlot;
    SumsAreCovered(out, rows, step);
    forall r | r in rows ensures Slot(r.time, step) in Times(out) {
      var i :| 0 <= i < |out| && out[i].time == Slot(r.time, step);
      assert Times(out)[i] == Slot(r.time, step);
    }
    AllCovered(rows, Times(out), step);
  }

  // ----- how many points

  lemma StepsAscend(j: nat, k: nat, step: nat)
    requires j <= k
    ensures j * step <= k * step
    ensures k * step == j * step + (k - j) * step
  {
  }

  /** Steps of at least a second begin in different seconds. */
  lemma StepsApart(j: nat, k: nat, step: nat)
    requires step >= SECOND && j < k
    ensures StepSecond(j, step) < StepSecond(k, step)
  {
    StepsAscend(j, k, step);
    StepsAscend(1, k - j, step);
    assert k * step >= j * step + SECOND;
    assert (j * step + SECOND) / SECOND == j * step / SECOND + 1;
  }

  /** Truncated times fall into one slot exactly when they are the same step. */
  lemma SameSlotSameStep(s: nat, t: nat, step: nat)
    requires step >= SECOND
    ensures Slot(s, step) == Slot(t, step) <==> s / step == t / step
    ensures Slot(s, step) < Slot(t, step) ==> s / step < t / step
  {
    hide StepSecond;
    if s / step < t / step {
      StepsApart(s / step, t / step, step);
    } else if t / step < s / step {
      StepsApart(t / step, s / step, step);
    }
  }

  lemma {:induction false} AscendingFit(ks: seq<int>, lo: int, hi: int)
    requires forall i, j :: 0 <= i < j < |ks| ==> ks[i] < ks[j]
    requires forall i :: 0 <= i < |ks| ==> lo <= ks[i] <= hi
    ensures |ks| > 0 ==> |ks| <= hi - lo + 1
  {
    if |ks| > 1 {
      AscendingFit(ks[..|ks| - 1], lo, ks[|ks| - 1] - 1);
    }
  }

  /** The steps that a window touches. */
  function Steps(from: nat, to: nat): int {
    to / StepOf(from, to) - from / StepOf(from, to) + 1
  }

  predicate RowsWithin(rows: seq<Point>, from: nat, to: nat) {
    forall r :: r in rows ==> from <= r.time <= to
  }

  /** A window of up to 292 years touches at most 62 steps. */
  lemma WindowSteps(from: nat, to: nat)
    requires from <= to <= from + LONGEST
    ensures Steps(from, to) <= 62
  {
    var step := StepOf(from, to);
    var q, p := to / step, from / step;
    assert to - from <= 61 * step by {
    }
    assert q * step <= to && from < p * step + step by {
    }
    assert (p + 62) * step == p * step + 62 * step;
    if q - p >= 62 {
      StepsAscend(p + 62, q, step);
    }
  }

  /** Rows within the window give no more points than it touches steps. */
  lemma PointPerStep(out: seq<Bucket>, rows: seq<Point>, from: nat, to: nat)
    requires rows != [] && Drawn(out, rows, StepOf(from, to)) && RowsWithin(rows, from, to)
    ensures |out| <= Steps(from, to)
  {
    hide InSlot, BlockedInSlot, Slot, StepOf;
    var step := StepOf(from, to);
    var ks := StepsOfBuckets(out, rows, step);
    assert rows[0] in rows;
    DivisionMonotone(from, to, step);
    forall i | 0 <= i < |ks| ensures from / step <= ks[i] <= to / step {
      var r :| r in rows && ks[i] == r.time / step;
      DivisionMonotone(from, r.time, step);
      DivisionMonotone(r.time, to, step);
    }
    AscendingFit(ks, from / step, to / step);
  }

  function Multiple(k: nat, step: nat): nat {
    StepsAscend(0, k, step);
    k * step
  }

  lemma MultipleDivides(k: nat, step: nat)
    requires step > 0
    ensures Multiple(k, step) / step == k
  {
    var q := Multiple(k, step) / step;
    assert q * step <= k * step < q * step + step;
    if q < k {
      StepsAscend(q, k, step);
      StepsAscend(1, k - q, step);
    } else if k < q {
      StepsAscend(k, q, step);
      StepsAscend(1, q - k, step);
    }
  }

  /** A row in the k-th step that a window touches. */
  function RowIn(from: nat, step: nat, k: nat): Point
    requires step > 0
  {
    Point(if k == 0 then from else Multiple(from / step + k, step), false)
  }

  /** One row in each of the first `n` steps. */
  function OneEach(from: nat, to: nat, n: nat): seq<Point> {
    seq(n, k requires 0 <= k < n => RowIn(from, StepOf(from, to), k))
  }

  lemma RowInStep(from: nat, to: nat, k: nat)
    requires from <= to && k < Steps(from, to)
    ensures from <= RowIn(from, StepOf(from, to), k).time <= to
    ensures RowIn(from, StepOf(from, to), k).time / StepOf(from, to) == from / StepOf(from, to) + k
  {
    hide StepOf;
    var step := StepOf(from, to);
    var p := from / step;
    if k > 0 {
      assert from < p * step + step && to / step * step <= to;
      StepsAscend(p + 1, p + k, step);
      StepsAscend(p + k, to / step, step);
      assert (p + 1) * step == p * step + step;
      MultipleDivides(p + k, step);
    }
  }

  /** The timeline of these rows: a point for each. */
  lemma DrawnOneEach(from: nat, to: nat, n: nat) returns (out: seq<Bucket>)
    requires from <= to && n <= Steps(from, to)
    ensures Drawn(out, OneEach(from, to, n), StepOf(from, to)) && |out| == n
  {
    hide InSlot, BlockedInSlot, Slot, StepOf, RowIn, Steps;
    var step, rows := StepOf(from, to), OneEach(from, to, n);
    out := seq(n, k requires 0 <= k < n =>
      var t := Slot(rows[k].time, step); Bucket(t, InSlot(rows, t, step), BlockedInSlot(rows, t, step)));
    forall i, j | 0 <= i < j < n ensures out[i].time < out[j].time {
      RowInStep(from, to, i);
      RowInStep(from, to, j);
      SameSlotSameStep(rows[i].time, rows[j].time, step);
      SameSlotSameStep(rows[j].time, rows[i].time, step);
    }
    forall i | 0 <= i < n ensures out[i].total > 0 {
      RowHasSlot(rows, rows[i], step);
    }
    forall r | r in rows ensures exists i :: 0 <= i < |out| && out[i].time == Slot(r.time, step) {
      var k :| 0 <= k < n && rows[k] == r;
      assert out[k].time == Slot(r.time, step);
    }
  }

  /**
   Rows within a window always give at most 62 points exactly when it touches at most 62 steps, as every
   window of up to 292 years does.
   */
  lemma AtMost62(from: nat, to: nat)
    requires from <= to
    ensures to <= from + LONGEST ==> Steps(from, to) <= 62
    ensures Steps(from, to) <= 62 <==>
            forall rows, out :: rows != [] && RowsWithin(rows, from, to) && Drawn(out, rows, StepOf(from, to)) ==>
                |out| <= 62
  {
    hide Drawn, RowIn, StepOf, Steps;
    if to <= from + LONGEST {
      WindowSteps(from, to);
    }
    if Steps(from, to) <= 62 {
      forall rows, out | rows != [] && RowsWithin(rows, from, to) && Drawn(out, rows, StepOf(from, to))
        ensures |out| <= 62
      {
        PointPerStep(out, rows, from, to);
      }
    } else {
      var rows := OneEach(from, to, 63);
      forall r | r in rows ensures from <= r.time <= to {
        var k :| 0 <= k < 63 && rows[k] == r;
        RowInStep(from, to, k);
      }
      var out := DrawnOneEach(from, to, 63);
    }
  }
  lemma DivisionMonotone(s: nat, t: nat, step: nat)
    requires step > 0 && s <= t
    ensures s / step <= t / step
  {
    if s / step > t / step {
      StepsAscend(t / step + 1, s / step, step);
    }
  }

  /** The step behind each bucket, in ascending order. */
  lemma {:induction false} StepsOfBuckets(out: seq<Bucket>, rows: seq<Point>, step: nat) returns (ks: seq<int>)
    requires step >= SECOND
    requires forall i, j :: 0 <= i < j < |out| ==> out[i].time < out[j].time
    requires forall i :: 0 <= i < |out| ==> InSlot(rows, out[i].time, step) > 0
    ensures |ks| == |out|
    ensures forall i :: 0 <= i < |ks| ==>
              exists r :: r in rows && ks[i] == r.time / step && out[i].time == Slot(r.time, step)
    ensures forall i, j :: 0 <= i < j < |ks| ==> ks[i] < ks[j]
  {
    hide InSlot, Slot;
    ks := [];
    if out != [] {
      var n := |out| - 1;
      var init := StepsOfBuckets(out[..n], rows, step);
      var last := SlotHasRow(rows, out[n].time, step);
      ks := init + [last.time / step];
      forall i | 0 <= i < n ensures ks[i] < ks[n] {
        var r :| r in rows && init[i] == r.time / step && out[i].time == Slot(r.time, step);
        SameSlotSameStep(r.time, last.time, step);
      }
    }
  }
}
