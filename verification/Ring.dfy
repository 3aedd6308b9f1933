/**
 The time ring behind the overview (backend/internal/server/aggregator.go:19-48, 350-360, 459-483):
 ninety ten-second buckets, reused in turn, set against the log of everything counted.
 */
module Ring {

  const BUCKET_SECONDS: nat := 10
  const BUCKET_COUNT: nat := 90

  datatype Counters = Counters(flows: nat, drops: nat, httpReq: nat, httpErr: nat, dnsErr: nat, kills: nat) {
    function Plus(o: Counters): Counters {
      Counters(flows + o.flows, drops + o.drops, httpReq + o.httpReq, httpErr + o.httpErr, dnsErr + o.dnsErr,
               kills + o.kills)
    }
  }

  const ZERO: Counters := Counters(0, 0, 0, 0, 0, 0)

  datatype Bucket = Bucket(start: nat, counters: Counters)

  /** Something counted into a slot of ten seconds. */
  datatype Mark = Mark(slot: nat, counted: Counters)

  // ----- the ring as a function of the log

  function Reset(ring: seq<Bucket>, slot: nat): seq<Bucket>
    requires |ring| == BUCKET_COUNT
  {
    if ring[slot % BUCKET_COUNT].start != slot * BUCKET_SECONDS
    then ring[slot % BUCKET_COUNT := Bucket(slot * BUCKET_SECONDS, ZERO)]
    else ring
  }

  function Step(ring: seq<Bucket>, m: Mark): (r: seq<Bucket>)
    requires |ring| == BUCKET_COUNT
    ensures |r| == BUCKET_COUNT
  {
    var i, reset := m.slot % BUCKET_COUNT, Reset(ring, m.slot);
    reset[i := Bucket(reset[i].start, reset[i].counters.Plus(m.counted))]
  }

  function EmptyRing(): (r: seq<Bucket>)
    ensures |r| == BUCKET_COUNT
  {
    seq(BUCKET_COUNT, i => Bucket(0, ZERO))
  }

  function RingOf(marks: seq<Mark>): (r: seq<Bucket>)
    ensures |r| == BUCKET_COUNT
  {
    if marks == [] then EmptyRing() else Step(RingOf(marks[..|marks| - 1]), marks[|marks| - 1])
  }

  // ----- the unbounded counts

  function CountIn(marks: seq<Mark>, slot: nat): Counters {
    if marks == [] then ZERO
    else
      var m := marks[|marks| - 1];
      if m.slot == slot then CountIn(marks[..|marks| - 1], slot).Plus(m.counted)
      else CountIn(marks[..|marks| - 1], slot)
  }

  /** No mark is more than 89 slots behind one that came before it. */
  ghost predicate InWindow(marks: seq<Mark>) {
    forall i, j :: 0 <= i < j < |marks| ==> marks[i].slot <= marks[j].slot + (BUCKET_COUNT - 1)
  }

  /** `now` is at or after every mark. */
  ghost predicate UpTo(marks: seq<Mark>, now: nat) {
    forall m :: m in marks ==> m.slot <= now
  }

  /** What the overview reads for a slot. */
  function Shown(ring: seq<Bucket>, slot: nat): Counters
    requires |ring| == BUCKET_COUNT
  {
    var b := ring[slot % BUCKET_COUNT];
    if b.start == slot * BUCKET_SECONDS then b.counters else ZERO
  }

  lemma CountGrows(marks: seq<Mark>, m: Mark, slot: nat)
    ensures CountIn(marks + [m], slot) ==
            if m.slot == slot then CountIn(marks, slot).Plus(m.counted) else CountIn(marks, slot)
    ensures RingOf(marks + [m]) == Step(RingOf(marks), m)
  {
    assert (marks + [m])[..|marks|] == marks;
  }

  lemma {:induction false} CountNothing(marks: seq<Mark>, slot: nat)
    requires forall m :: m in marks ==> m.slot != slot
    ensures CountIn(marks, slot) == ZERO
  {
    if marks != [] {
      var n := |marks| - 1;
      assert marks[n] in marks && forall m :: m in marks[..n] ==> m in marks;
      CountNothing(marks[..n], slot);
    }
  }

  // ----- what the ring shows of any log

  predicate SharesBucket(s: nat, t: nat) {
    s != t && s % BUCKET_COUNT == t % BUCKET_COUNT
  }

  /** Everything counted into a slot since another slot last took its bucket. */
  function CountSince(marks: seq<Mark>, slot: nat): Counters {
    if marks == [] then ZERO
    else
      var m, before := marks[|marks| - 1], marks[..|marks| - 1];
      if m.slot == slot then CountSince(before, slot).Plus(m.counted)
      else if SharesBucket(m.slot, slot) then ZERO
      else CountSince(before, slot)
  }

  lemma ShownAfter(ring: seq<Bucket>, m: Mark, slot: nat)
    requires |ring| == BUCKET_COUNT
    ensures Shown(Step(ring, m), slot) ==
            if m.slot == slot then Shown(ring, slot).Plus(m.counted)
            else if SharesBucket(m.slot, slot) then ZERO
            else Shown(ring, slot)
  {
  }

  /**
   Whatever was marked, in whatever order, the ring shows of a slot what was counted since its bucket was last
   taken.
   */
  lemma {:induction false} RingShows(marks: seq<Mark>, slot: nat)
    ensures Shown(RingOf(marks), slot) == CountSince(marks, slot)
  {
    hide Step, Shown, SharesBucket;
    if marks == [] {
      EmptyRingShows(slot);
    } else {
      RingShows(marks[..|marks| - 1], slot);
      ShownAfter(RingOf(marks[..|marks| - 1]), marks[|marks| - 1], slot);
    }
  }

  lemma EmptyRingShows(slot: nat)
    ensures Shown(EmptyRing(), slot) == ZERO
  {
  }

  // ----- when that is the true count

  /** Something counted into the slot was followed by another slot taking its bucket. */
  ghost predicate Erased(marks: seq<Mark>, slot: nat) {
    exists i, j :: 0 <= i < j < |marks| && marks[i].slot == slot && SharesBucket(marks[j].slot, slot)
  }

  lemma ErasedGrows(marks: seq<Mark>, m: Mark, slot: nat)
    ensures Erased(marks + [m], slot) <==>
            Erased(marks, slot) || (SharesBucket(m.slot, slot) && exists x :: x in marks && x.slot == slot)
  {
    hide SharesBucket;
    var all := marks + [m];
    if i, j :| 0 <= i < j < |marks| && marks[i].slot == slot && SharesBucket(marks[j].slot, slot) {
      assert all[i] == marks[i] && all[j] == marks[j];
    }
    if SharesBucket(m.slot, slot) && exists x :: x in marks && x.slot == slot {
      var x :| x in marks && x.slot == slot;
      var i :| 0 <= i < |marks| && marks[i] == x;
      assert all[i] == x && all[|marks|] == m;
    }
    if Erased(all, slot) && !Erased(marks, slot) {
      var i, j :| 0 <= i < j < |all| && all[i].slot == slot && SharesBucket(all[j].slot, slot);
      assert all[i] == marks[i];
    }
  }

  /** Whatever is not erased is counted in full. */
  lemma {:induction false} KeptIsExact(marks: seq<Mark>, slot: nat)
    requires !Erased(marks, slot)
    ensures CountSince(marks, slot) == CountIn(marks, slot)
  {
    hide Erased, SharesBucket, Counters.Plus;
    if marks != [] {
      var before, m := marks[..|marks| - 1], marks[|marks| - 1];
      assert marks == before + [m];
      ErasedGrows(before, m, slot);
      KeptIsExact(before, slot);
      if m.slot != slot && SharesBucket(m.slot, slot) {
        CountNothing(before, slot);
      }
    }
  }

  function Size(c: Counters): nat {
    c.flows + c.drops + c.httpReq + c.httpErr + c.dnsErr + c.kills
  }

  lemma SizePlus(a: Counters, b: Counters)
    ensures Size(a.Plus(b)) == Size(a) + Size(b)
  {
    var c := a.Plus(b);
    assert c.flows == a.flows + b.flows && c.drops == a.drops + b.drops && c.httpReq == a.httpReq + b.httpReq;
  }

  lemma SizePositive(a: Counters)
    ensures a != ZERO ==> Size(a) > 0
  {
    hide Counters.Plus, Step, Shown, Reset, RingOf;
    assert a == Counters(a.flows, a.drops, a.httpReq, a.httpErr, a.dnsErr, a.kills);
  }

  lemma SizeOfNothing()
    ensures Size(ZERO) == 0
  {
    var z := ZERO;
    assert z.flows == 0 && z.drops == 0 && z.httpReq == 0 && z.httpErr == 0 && z.dnsErr == 0 && z.kills == 0;
  }

  lemma {:induction false} CountsSomething(marks: seq<Mark>, slot: nat)
    requires forall m :: m in marks ==> m.counted != ZERO
    requires exists m :: m in marks && m.slot == slot
    ensures Size(CountIn(marks, slot)) > 0
  {
    hide Size, Counters.Plus;
    var n := |marks| - 1;
    assert marks == marks[..n] + [marks[n]];
    SizePositive(marks[n].counted);
    SizePlus(CountIn(marks[..n], slot), marks[n].counted);
    if marks[n].slot != slot {
      CountsSomething(marks[..n], slot);
    }
  }

  /** Whatever is erased is lost for good. */
  lemma {:induction false} ErasedIsLost(marks: seq<Mark>, slot: nat)
    requires forall m :: m in marks ==> m.counted != ZERO
    requires Erased(marks, slot)
    ensures Size(CountSince(marks, slot)) < Size(CountIn(marks, slot))
  {
    hide Erased, SharesBucket, Size, Counters.Plus;
    if marks == [] {
      NothingErased(slot);
    } else {
      var before, m := marks[..|marks| - 1], marks[|marks| - 1];
      assert marks == before + [m];
      ErasedGrows(before, m, slot);
      SizePlus(CountIn(before, slot), m.counted);
      SizePlus(CountSince(before, slot), m.counted);
      if m.slot != slot && SharesBucket(m.slot, slot) {
        ErasedWasMarked(before, slot);
        SizeOfNothing();
        CountsSomething(before, slot);
      } else {
        NoBucketTaken(m, slot);
        ErasedIsLost(before, slot);
      }
    }
  }

  lemma ErasedWasMarked(marks: seq<Mark>, slot: nat)
    ensures Erased(marks, slot) ==> exists x :: x in marks && x.slot == slot
  {
    if i, j :| 0 <= i < j < |marks| && marks[i].slot == slot && SharesBucket(marks[j].slot, slot) {
      assert marks[i] in marks;
    }
  }

  lemma NothingErased(slot: nat)
    ensures !Erased([], slot)
  {
  }

  lemma NoBucketTaken(m: Mark, slot: nat)
    ensures m.slot == slot ==> !SharesBucket(m.slot, slot)
  {
  }

  // ----- the main results

  /**
   The ring shows the true count of a slot exactly when nothing counted into it was followed by another
   slot a multiple of ninety away, whatever the present and however late anything came.
   */
  lemma RingExactly(marks: seq<Mark>, slot: nat)
    requires forall m :: m in marks ==> m.counted != ZERO
    ensures Shown(RingOf(marks), slot) == CountIn(marks, slot) <==> !Erased(marks, slot)
  {
    hide RingOf, Shown, Erased, CountSince, CountIn;
    RingShows(marks, slot);
    if Erased(marks, slot) {
      ErasedIsLost(marks, slot);
    } else {
      KeptIsExact(marks, slot);
    }
  }

  /**
   While no mark is more than 89 slots behind the newest, nothing among the last ninety slots is erased,
   for any `now` not before the newest mark.
   */
  lemma WindowErasesNothing(marks: seq<Mark>, now: nat, slot: nat)
    requires InWindow(marks) && UpTo(marks, now)
    requires slot <= now < slot + BUCKET_COUNT
    ensures !Erased(marks, slot)
  {
    if i, j :| 0 <= i < j < |marks| && marks[i].slot == slot && SharesBucket(marks[j].slot, slot) {
      assert marks[j] in marks && marks[i].slot <= marks[j].slot + (BUCKET_COUNT - 1);
      NinetyApart(marks[j].slot, slot);
    }
  }

  /** Two slots on one bucket are at least ninety apart. */
  lemma NinetyApart(s: nat, t: nat)
    requires SharesBucket(s, t)
    ensures s + BUCKET_COUNT <= t || t + BUCKET_COUNT <= s
  {
  }

  /** So the ring then shows the true count of each of the last ninety slots. */
  lemma RingIsExact(marks: seq<Mark>, now: nat, slot: nat)
    requires InWindow(marks) && UpTo(marks, now)
    requires slot <= now < slot + BUCKET_COUNT
    ensures Shown(RingOf(marks), slot) == CountIn(marks, slot)
  {
    hide RingOf, Shown, Erased, CountSince, CountIn, InWindow, UpTo;
    WindowErasesNothing(marks, now, slot);
    KeptIsExact(marks, slot);
    RingShows(marks, slot);
  }

  /** A mark a multiple of ninety slots away takes a slot's bucket: that slot reads as empty, whatever it counted. */
  lemma LateMarkLoses(marks: seq<Mark>, m: Mark, slot: nat)
    requires SharesBucket(m.slot, slot)
    ensures Shown(RingOf(marks + [m]), slot) == ZERO && CountIn(marks + [m], slot) == CountIn(marks, slot)
  {
    hide RingOf;
    RingShows(marks + [m], slot);
    CountGrows(marks, m, slot);
  }

  /** A bucket is for the slot last marked on it, if any was. */
  lemma {:induction false} BucketIsOfLast(marks: seq<Mark>, i: nat)
    requires i < BUCKET_COUNT
    ensures (forall m :: m in marks ==> m.slot % BUCKET_COUNT != i)
            || exists m :: m in marks && m.slot % BUCKET_COUNT == i && RingOf(marks)[i].start == m.slot * BUCKET_SECONDS
  {
    if marks != [] {
      var before, m := marks[..|marks| - 1], marks[|marks| - 1];
      assert marks == before + [m];
      BucketIsOfLast(before, i);
      if m.slot % BUCKET_COUNT == i {
        assert m in marks;
      } else if x :| x in before && x.slot % BUCKET_COUNT == i && RingOf(before)[i].start == x.slot * BUCKET_SECONDS {
        assert x in marks;
      }
    }
  }

  /** In the window, a mark overwrites another slot's bucket only when it is at least ninety slots newer. */
  lemma OverwritesOnlyOld(marks: seq<Mark>, m: Mark)
    requires InWindow(marks + [m])
    ensures var i := m.slot % BUCKET_COUNT;
            var b := RingOf(marks)[i];
            b.start != m.slot * BUCKET_SECONDS ==>
              || (forall x :: x in marks ==> x.slot % BUCKET_COUNT != i)
              || b.start + BUCKET_COUNT * BUCKET_SECONDS <= m.slot * BUCKET_SECONDS
  {
    hide RingOf;
    var i := m.slot % BUCKET_COUNT;
    var b := RingOf(marks)[i];
    BucketIsOfLast(marks, i);
    if x :| x in marks && x.slot % BUCKET_COUNT == i && b.start == x.slot * BUCKET_SECONDS && x.slot != m.slot {
      var k :| 0 <= k < |marks| && marks[k] == x;
      assert (marks + [m])[k] == x && (marks + [m])[|marks|] == m;
      NinetyApart(x.slot, m.slot);
    }
  }

  /** What is counted never has more drops than flows, nor more HTTP errors than requests. */
  predicate Sane(c: Counters) {
    c.drops <= c.flows && c.httpErr <= c.httpReq
  }

  /** Nor does any bucket, whatever the times. */
  lemma {:induction false} BucketsAreSane(marks: seq<Mark>)
    requires forall m :: m in marks ==> Sane(m.counted)
    ensures forall i :: 0 <= i < BUCKET_COUNT ==> Sane(RingOf(marks)[i].counters)
  {
    if marks != [] {
      var n := |marks| - 1;
      assert marks[n] in marks && forall m :: m in marks[..n] ==> m in marks;
      BucketsAreSane(marks[..n]);
    }
  }
}
