/**
 Whole runs of the aggregator (backend/internal/server/aggregator.go:154-294): what a log of flows and
 events, each with the clock at its arrival, should have produced, and what any such run keeps.
 */
module Runs {
  import opened Option
  import opened ServiceMap
  import Alerts
  import Ring
  import Syslog

  datatype Event = Event(
    time: Option<nat>, namespace_: string, workload: string, binary: string,
    function_: string, action: string, policy: string, details: string)
  {
    predicate Enforced() {
      action == "SIGKILL" || action == "OVERRIDE"
    }
  }

  datatype Entry = FlowIn(flow: Flow, now: nat) | EventIn(event: Event, now: nat) {
    function At(): Option<nat> {
      match this
      case FlowIn(f, _) => f.time
      case EventIn(e, _) => e.time
    }
  }

  // ----- what one entry counts and raises

  /** The ten-second slot of a time; the zero time counts as the present. */
  function Slot(t: Option<nat>, now: nat): nat {
    (if t.Some? then t.value else now) / 1_000_000_000 / Ring.BUCKET_SECONDS
  }

  function FlowCounts(f: Flow): Ring.Counters {
    Ring.Counters(
      1,
      if f.Dropped() then 1 else 0,
      if f.Speaks("http") then 1 else 0,
      if f.Speaks("http") && f.l7.value.status >= 500 then 1 else 0,
      if f.Speaks("dns") && f.l7.value.dnsRcode != "" && f.l7.value.dnsRcode != "NoError" then 1 else 0,
      0)
  }

  const ONE_KILL: Ring.Counters := Ring.Counters(0, 0, 0, 0, 0, 1)

  function MarksIn(x: Entry): seq<Ring.Mark> {
    match x
    case FlowIn(f, now) => [Ring.Mark(Slot(f.time, now), FlowCounts(f))]
    case EventIn(e, now) => if e.Enforced() then [Ring.Mark(Slot(e.time, now), ONE_KILL)] else []
  }

  /** Go's zero time, in nanoseconds from 1970. */
  const ZERO_TIME: int := -62_135_596_800 * Alerts.SECOND

  function AlertTime(t: Option<nat>): int {
    if t.Some? then t.value else ZERO_TIME
  }

  function PolicyKey(p: PolicyRef): string {
    if p.namespace_ == "" then p.name else p.namespace_ + "/" + p.name
  }

  function DropTitle(f: Flow): string {
    "Traffic dropped: " + EndpointID(f.source) + " \U{2192} " + EndpointID(f.destination)
  }

  function DropAlert(f: Flow): Alerts.Alert {
    Alerts.Alert(AlertTime(f.time), "warning", "network_drop", DropTitle(f), f.dropReason,
                 f.source.namespace_, f.source.workload, if f.policies == [] then "" else PolicyKey(f.policies[0]))
  }

  function KillTitle(e: Event): string {
    "Tetragon " + e.action + ": " + e.binary
  }

  function KillAlert(e: Event): Alerts.Alert {
    Alerts.Alert(AlertTime(e.time), "critical", "runtime_enforcement", KillTitle(e), e.function_ + " " + e.details,
                 e.namespace_, e.workload, e.policy)
  }

  function AlertsIn(x: Entry): seq<Alerts.Alert> {
    match x
    case FlowIn(f, _) => if f.Dropped() then [DropAlert(f)] else []
    case EventIn(e, _) => if e.Enforced() then [KillAlert(e)] else []
  }

  // ----- what a log amounts to

  function FlowsOf(log: seq<Entry>): seq<Flow> {
    if log == [] then []
    else
      var x := log[|log| - 1];
      FlowsOf(log[..|log| - 1]) + if x.FlowIn? then [x.flow] else []
  }

  function EventsOf(log: seq<Entry>): seq<Event> {
    if log == [] then []
    else
      var x := log[|log| - 1];
      EventsOf(log[..|log| - 1]) + if x.EventIn? then [x.event] else []
  }

  function Kills(log: seq<Entry>): nat {
    if log == [] then 0
    else
      var x := log[|log| - 1];
      Kills(log[..|log| - 1]) + if x.EventIn? && x.event.Enforced() then 1 else 0
  }

  function MarksOf(log: seq<Entry>): seq<Ring.Mark> {
    if log == [] then [] else MarksOf(log[..|log| - 1]) + MarksIn(log[|log| - 1])
  }

  function AlertsOf(log: seq<Entry>): seq<Alerts.Alert> {
    if log == [] then [] else AlertsOf(log[..|log| - 1]) + AlertsIn(log[|log| - 1])
  }

  function NodesStep(nodes: map<string, NodeStat>, x: Entry): map<string, NodeStat> {
    match x
    case FlowIn(f, _) => NodesAfter(nodes, f)
    case EventIn(e, _) => if e.Enforced() then NodesAfterKill(nodes, e.namespace_, e.workload) else nodes
  }

  function NodesOf(log: seq<Entry>): map<string, NodeStat> {
    if log == [] then map[] else NodesStep(NodesOf(log[..|log| - 1]), log[|log| - 1])
  }

  function EdgesStep(edges: map<string, EdgeStat>, x: Entry): map<string, EdgeStat> {
    match x
    case FlowIn(f, _) => EdgesAfter(edges, f)
    case EventIn(_, _) => edges
  }

  function EdgesOf(log: seq<Entry>): map<string, EdgeStat> {
    if log == [] then map[] else EdgesStep(EdgesOf(log[..|log| - 1]), log[|log| - 1])
  }

  lemma OneMore(log: seq<Entry>, x: Entry)
    ensures FlowsOf(log + [x]) == FlowsOf(log) + if x.FlowIn? then [x.flow] else []
    ensures EventsOf(log + [x]) == EventsOf(log) + if x.EventIn? then [x.event] else []
    ensures Kills(log + [x]) == Kills(log) + if x.EventIn? && x.event.Enforced() then 1 else 0
    ensures MarksOf(log + [x]) == MarksOf(log) + MarksIn(x)
    ensures AlertsOf(log + [x]) == AlertsOf(log) + AlertsIn(x)
    ensures NodesOf(log + [x]) == NodesStep(NodesOf(log), x)
    ensures EdgesOf(log + [x]) == EdgesStep(EdgesOf(log), x)
  {
    hide MarksIn, AlertsIn, NodesStep, EdgesStep;
    assert (log + [x])[..|log|] == log;
  }

  // ----- the dependency graph of any run

  /**
   Whatever arrived, in whatever order: every edge and node counts exactly its own flows, the traffic on
   the edges adds up to the flows, the drops on edges and on nodes to the drops, and the kills on nodes
   to no more than the kills.
   */
  lemma {:induction false} GraphIsFaithful(log: seq<Entry>)
    ensures Faithful(EdgesOf(log), NodesOf(log), FlowsOf(log), Kills(log))
  {
    hide Faithful, NodesAfter, EdgesAfter, NodesAfterKill;
    if log == [] {
      NothingYet();
    } else {
      var before, x := log[..|log| - 1], log[|log| - 1];
      var edges, nodes := EdgesOf(before), NodesOf(before);
      GraphIsFaithful(before);
      match x {
        case FlowIn(f, _) =>
          FlowKeepsFaithful(edges, nodes, FlowsOf(before), Kills(before), f);
        case EventIn(e, _) =>
          assert FlowsOf(before) + [] == FlowsOf(before);
          if e.Enforced() {
            KillKeepsFaithful(edges, nodes, FlowsOf(before), Kills(before), e.namespace_, e.workload);
          }
      }
    }
  }

  // ----- the time series of any run

  /** Everything counted in the slots from `lo` up to, not including, `hi`. */
  function CountBetween(marks: seq<Ring.Mark>, lo: nat, hi: nat): Ring.Counters
    decreases hi - lo
  {
    if hi <= lo then Ring.ZERO else CountBetween(marks, lo, hi - 1).Plus(Ring.CountIn(marks, hi - 1))
  }

  function CountAll(marks: seq<Ring.Mark>): Ring.Counters {
    if marks == [] then Ring.ZERO else CountAll(marks[..|marks| - 1]).Plus(marks[|marks| - 1].counted)
  }

  lemma {:induction false} OneMoreBetween(marks: seq<Ring.Mark>, m: Ring.Mark, lo: nat, hi: nat)
    ensures CountBetween(marks + [m], lo, hi) ==
            CountBetween(marks, lo, hi).Plus(if lo <= m.slot < hi then m.counted else Ring.ZERO)
    decreases hi - lo
  {
    hide Ring.CountIn, Ring.RingOf, Ring.Step, Ring.Counters.Plus;
    PlusZero(Ring.ZERO);
    if lo < hi {
      var below, top := CountBetween(marks, lo, hi - 1), Ring.CountIn(marks, hi - 1);
      OneMoreBetween(marks, m, lo, hi - 1);
      Ring.CountGrows(marks, m, hi - 1);
      PlusMoves(below, top, m.counted);
      PlusZero(below);
      PlusZero(below.Plus(top));
    }
  }

  lemma PlusMoves(a: Ring.Counters, b: Ring.Counters, c: Ring.Counters)
    ensures a.Plus(c).Plus(b) == a.Plus(b).Plus(c) && a.Plus(b.Plus(c)) == a.Plus(b).Plus(c)
  {
  }

  lemma PlusZero(a: Ring.Counters)
    ensures a.Plus(Ring.ZERO) == a
  {
  }

  lemma {:induction false} NothingBetween(marks: seq<Ring.Mark>, lo: nat, hi: nat)
    requires forall m :: m in marks ==> !(lo <= m.slot < hi)
    ensures CountBetween(marks, lo, hi) == Ring.ZERO
    decreases hi - lo
  {
    hide Ring.CountIn, Ring.Counters.Plus;
    PlusZero(Ring.ZERO);
    if lo < hi {
      forall m | m in marks ensures m.slot != hi - 1 {
      }
      Ring.CountNothing(marks, hi - 1);
      NothingBetween(marks, lo, hi - 1);
    }
  }

  /** Marks that all fall between two slots are all counted between them. */
  lemma {:induction false} CountsMeet(marks: seq<Ring.Mark>, lo: nat, hi: nat)
    requires forall m :: m in marks ==> lo <= m.slot < hi
    ensures CountBetween(marks, lo, hi) == CountAll(marks)
  {
    hide CountBetween;
    if marks == [] {
      NothingBetween(marks, lo, hi);
    } else {
      var before, m := marks[..|marks| - 1], marks[|marks| - 1];
      assert marks == before + [m];
      CountsMeet(before, lo, hi);
      OneMoreBetween(before, m, lo, hi);
    }
  }

  lemma CountAllGrows(marks: seq<Ring.Mark>, m: Ring.Mark)
    ensures CountAll(marks + [m]) == CountAll(marks).Plus(m.counted)
  {
    assert (marks + [m])[..|marks|] == marks;
  }

  lemma DropsGrow(flows: seq<Flow>, f: Flow)
    ensures Drops(flows + [f]) == Drops(flows) + if f.Dropped() then 1 else 0
  {
    assert (flows + [f])[..|flows|] == flows;
  }

  lemma OneFlowCounts(f: Flow)
    ensures FlowCounts(f).flows == 1 && FlowCounts(f).drops == (if f.Dropped() then 1 else 0) &&
            FlowCounts(f).kills == 0
  {
  }

  ghost predicate TotalsAgree(marks: seq<Ring.Mark>, flows: seq<Flow>, kills: nat) {
    && CountAll(marks).flows == |flows|
    && CountAll(marks).drops == Drops(flows)
    && CountAll(marks).kills == kills
  }

  lemma TotalsKeepAgreeing(marks: seq<Ring.Mark>, flows: seq<Flow>, kills: nat, x: Entry)
    requires TotalsAgree(marks, flows, kills)
    ensures TotalsAgree(marks + MarksIn(x), flows + (if x.FlowIn? then [x.flow] else []),
                        kills + if x.EventIn? && x.event.Enforced() then 1 else 0)
  {
    hide Slot, CountAll, Drops, FlowCounts;
    assert marks + [] == marks && flows + [] == flows;
    match x {
      case FlowIn(f, now) =>
        CountAllGrows(marks, Ring.Mark(Slot(f.time, now), FlowCounts(f)));
        DropsGrow(flows, f);
        OneFlowCounts(f);
      case EventIn(e, now) =>
        if e.Enforced() {
          CountAllGrows(marks, Ring.Mark(Slot(e.time, now), ONE_KILL));
        }
    }
  }

  /** In any run, the totals are what was counted into the slots. */
  lemma {:induction false} TotalsAreCounted(log: seq<Entry>)
    ensures TotalsAgree(MarksOf(log), FlowsOf(log), Kills(log))
  {
    hide MarksIn;
    if log != [] {
      var before, x := log[..|log| - 1], log[|log| - 1];
      TotalsAreCounted(before);
      TotalsKeepAgreeing(MarksOf(before), FlowsOf(before), Kills(before), x);
    }
  }

  lemma {:induction false} MarksAreSane(log: seq<Entry>)
    ensures forall m :: m in MarksOf(log) ==> Ring.Sane(m.counted)
  {
    hide Slot;
    if log != [] {
      MarksAreSane(log[..|log| - 1]);
    }
  }

  lemma MarkCounts(x: Entry)
    ensures forall m :: m in MarksIn(x) ==> m.counted != Ring.ZERO
  {
    hide Slot;
  }

  /** Every mark counts something. */
  lemma {:induction false} MarksCount(log: seq<Entry>)
    ensures forall m :: m in MarksOf(log) ==> m.counted != Ring.ZERO
  {
    hide MarksIn;
    if log != [] {
      MarksCount(log[..|log| - 1]);
      MarkCounts(log[|log| - 1]);
    }
  }

  // ----- the alerts of any run

  predicate InOrder(log: seq<Entry>) {
    forall i, j :: 0 <= i < j < |log| ==> AlertTime(log[i].At()) <= AlertTime(log[j].At())
  }

  lemma KindsAreIds()
    ensures Syslog.MessageId("network_drop") && Syslog.MessageId("runtime_enforcement")
  {
  }

  lemma AlertsInAre(x: Entry)
    ensures forall a :: a in AlertsIn(x) ==>
              Alerts.PlainKind(a) && Syslog.MessageId(a.kind) && a.time == AlertTime(x.At())
    ensures |AlertsIn(x)| <= 1
  {
    hide DropTitle, KillTitle, PolicyKey, AlertTime, Syslog.MessageId;
    KindsAreIds();
    assert '/' !in "network_drop" && '|' !in "network_drop";
    assert '/' !in "runtime_enforcement" && '|' !in "runtime_enforcement";
  }

  /** Alerts are raised under plain kinds that are message identifiers, and in the order of the log. */
  lemma {:induction false} AlertsAreOfTheLog(log: seq<Entry>)
    ensures forall a :: a in AlertsOf(log) ==> Syslog.MessageId(a.kind)
    ensures forall a :: a in AlertsOf(log) ==>
              Alerts.PlainKind(a) && exists x :: x in log && a.time == AlertTime(x.At())
    ensures InOrder(log) ==> Alerts.NeverBackwards(AlertsOf(log))
  {
    hide AlertsIn, AlertTime, Alerts.PlainKind, Syslog.MessageId;
    if log != [] {
      var n := |log| - 1;
      var before, x := log[..n], log[n];
      AlertsAreOfTheLog(before);
      AlertsInAre(x);
      assert log == before + [x];
      forall a | a in AlertsOf(before) ensures exists y :: y in log && a.time == AlertTime(y.At()) {
        var y :| y in before && a.time == AlertTime(y.At());
        assert y in log;
      }
      assert x in log;
      if InOrder(log) {
        LastIsLatest(log);
      }
    }
  }

  lemma LastIsLatest(log: seq<Entry>)
    requires log != [] && InOrder(log)
    ensures InOrder(log[..|log| - 1])
    ensures forall y :: y in log[..|log| - 1] ==> AlertTime(y.At()) <= AlertTime(log[|log| - 1].At())
  {
    hide AlertTime;
    var before := log[..|log| - 1];
    forall y | y in before ensures AlertTime(y.At()) <= AlertTime(log[|log| - 1].At()) {
      var i :| 0 <= i < |before| && before[i] == y;
      assert log[i] == y;
    }
  }

  lemma {:induction false} RaisedIsInTheLog(log: seq<Entry>, x: Entry)
    requires x in log
    ensures forall a :: a in AlertsIn(x) ==> a in AlertsOf(log)
  {
    hide AlertsIn;
    var n := |log| - 1;
    assert log == log[..n] + [log[n]];
    if x in log[..n] {
      RaisedIsInTheLog(log[..n], x);
    }
  }

  /** So the keys of both stages tell the subjects of a run apart. */
  lemma RunKeysAreSubjects(log: seq<Entry>, a: Alerts.Alert, b: Alerts.Alert)
    requires a in AlertsOf(log) && b in AlertsOf(log)
    ensures Alerts.Key(a, '/') == Alerts.Key(b, '/') <==> Alerts.SameSubject(a, b)
    ensures Alerts.Key(a, '|') == Alerts.Key(b, '|') <==> Alerts.SameSubject(a, b)
  {
    AlertsAreOfTheLog(log);
    Alerts.KeyIsKindAndTitle(a, b, '/');
    Alerts.KeyIsKindAndTitle(a, b, '|');
  }

  /** And the syslog line of every alert of a run reads back field by field. */
  lemma RunLinesReadBack(log: seq<Entry>, a: Alerts.Alert, target: string, ts: string)
    requires a in AlertsOf(log) && ' ' !in ts
    ensures Syslog.ReadLine(Syslog.RenderSyslog(target, ts, a)) == Some(Syslog.Intended(target, ts, a))
  {
    hide Syslog.ReadLine, Syslog.RenderSyslog, Syslog.Intended, Syslog.MessageId;
    AlertsAreOfTheLog(log);
    Syslog.LineReadsBackExactly(target, ts, a);
  }

  /** In any run, what is sent about one subject is at least a minute apart. */
  lemma RunPacks(log: seq<Entry>)
    ensures var sent := Alerts.Dispatched(AlertsOf(log));
            forall i, j :: 0 <= i < j < |sent| && Alerts.SameSubject(sent[i], sent[j]) ==>
              sent[j].time - sent[i].time >= 60_000_000_000
  {
    AlertsAreOfTheLog(log);
    Alerts.DispatchPacks(AlertsOf(log));
  }

  /** While times never go backwards, every dropped flow is reported by an alert less than 65 seconds older. */
  lemma DroppedFlowIsReported(log: seq<Entry>, f: Flow, now: nat)
    requires InOrder(log) && FlowIn(f, now) in log && f.Dropped()
    ensures exists p :: && p in Alerts.Dispatched(AlertsOf(log)) && p.kind == "network_drop" && p.title == DropTitle(f)
                        && AlertTime(f.time) - 65 * Alerts.SECOND < p.time <= AlertTime(f.time)
  {
    hide DropTitle, AlertTime, Alerts.Dispatched, InOrder;
    AlertsAreOfTheLog(log);
    RaisedIsInTheLog(log, FlowIn(f, now));
    assert DropAlert(f) in AlertsIn(FlowIn(f, now));
    Alerts.DispatchCovers(AlertsOf(log), DropAlert(f));
    var p :| && p in Alerts.Dispatched(AlertsOf(log)) && Alerts.SameSubject(p, DropAlert(f))
             && AlertTime(f.time) - 65 * Alerts.SECOND < p.time <= AlertTime(f.time);
  }

  /** So is every enforcement. */
  lemma EnforcementIsReported(log: seq<Entry>, e: Event, now: nat)
    requires InOrder(log) && EventIn(e, now) in log && e.Enforced()
    ensures exists p :: && p in Alerts.Dispatched(AlertsOf(log)) && p.kind == "runtime_enforcement"
                        && p.title == KillTitle(e)
                        && AlertTime(e.time) - 65 * Alerts.SECOND < p.time <= AlertTime(e.time)
  {
    hide KillTitle, AlertTime, Alerts.Dispatched, InOrder;
    AlertsAreOfTheLog(log);
    RaisedIsInTheLog(log, EventIn(e, now));
    assert KillAlert(e) in AlertsIn(EventIn(e, now));
    Alerts.DispatchCovers(AlertsOf(log), KillAlert(e));
    var p :| && p in Alerts.Dispatched(AlertsOf(log)) && Alerts.SameSubject(p, KillAlert(e))
             && AlertTime(e.time) - 65 * Alerts.SECOND < p.time <= AlertTime(e.time);
  }
}
