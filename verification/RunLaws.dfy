/**
 What any run of the aggregator counts and raises, read off the entries of its log one by one
 (backend/internal/server/aggregator.go:154-270): slots of ten seconds, kills and names of nodes, alerts.
 */
module RunLaws {
  import opened Option
  import opened ServiceMap
  import opened Runs
  import Alerts
  import Ring
  import Sums

  // ----- the slots

  /** An entry happened at its own time, or when it arrived if it has none. */
  function TimeOf(x: Entry): nat {
    match x
    case FlowIn(f, now) => if f.time.Some? then f.time.value else now
    case EventIn(e, now) => if e.time.Some? then e.time.value else now
  }

  /** Within the ten seconds that begin at the `s`-th multiple of ten seconds from 1970. */
  predicate InSlot(x: Entry, s: nat) {
    s * 10_000_000_000 <= TimeOf(x) < (s + 1) * 10_000_000_000
  }

  function Number(log: seq<Entry>, s: nat, p: Entry -> bool): nat {
    if log == [] then 0
    else Number(log[..|log| - 1], s, p) + if InSlot(log[|log| - 1], s) && p(log[|log| - 1]) then 1 else 0
  }

  predicate IsHttp(x: Entry) {
    x.FlowIn? && x.flow.l7.Some? && x.flow.l7.value.kind == "http"
  }

  predicate IsFailedLookup(x: Entry) {
    && x.FlowIn? && x.flow.l7.Some? && x.flow.l7.value.kind == "dns"
    && x.flow.l7.value.dnsRcode != "" && x.flow.l7.value.dnsRcode != "NoError"
  }

  predicate IsKill(x: Entry) {
    x.EventIn? && (x.event.action == "SIGKILL" || x.event.action == "OVERRIDE")
  }

  lemma SlotIs(x: Entry, s: nat)
    ensures InSlot(x, s) <==> Slot(x.At(), x.now) == s
  {
    var t := TimeOf(x);
    assert t / 1_000_000_000 / 10 == t / 10_000_000_000;
  }

  /** What the marks of one entry add to a slot. */
  function Adds(x: Entry, s: nat): Ring.Counters {
    if !InSlot(x, s) then Ring.ZERO
    else Ring.Counters(
      if x.FlowIn? then 1 else 0,
      if x.FlowIn? && x.flow.verdict == "DROPPED" then 1 else 0,
      if IsHttp(x) then 1 else 0,
      if IsHttp(x) && x.flow.l7.value.status >= 500 then 1 else 0,
      if IsFailedLookup(x) then 1 else 0,
      if IsKill(x) then 1 else 0)
  }

  lemma EntryAdds(marks: seq<Ring.Mark>, x: Entry, s: nat)
    ensures Ring.CountIn(marks + MarksIn(x), s) == Ring.CountIn(marks, s).Plus(Adds(x, s))
  {
    hide InSlot, Slot, Ring.CountIn, Adds, FlowCounts, IsKill, Ring.Counters.Plus, Ring.RingOf, Ring.Step;
    SlotIs(x, s);
    AddsAre(x, s);
    PlusZero(Ring.CountIn(marks, s));
    match x {
      case FlowIn(f, now) =>
        Ring.CountGrows(marks, Ring.Mark(Slot(f.time, now), FlowCounts(f)), s);
      case EventIn(e, now) =>
        if e.Enforced() {
          Ring.CountGrows(marks, Ring.Mark(Slot(e.time, now), ONE_KILL), s);
        } else {
          assert marks + [] == marks;
        }
    }
  }

  lemma AddsAre(x: Entry, s: nat)
    ensures !InSlot(x, s) ==> Adds(x, s) == Ring.ZERO
    ensures InSlot(x, s) && x.FlowIn? ==> Adds(x, s) == FlowCounts(x.flow)
    ensures InSlot(x, s) && x.EventIn? ==> Adds(x, s) == if x.event.Enforced() then ONE_KILL else Ring.ZERO
  {
    hide InSlot;
  }

  /**
   A slot counts exactly the flows of its ten seconds, and among them the dropped ones, HTTP requests, HTTP errors
   from status 500, and failed lookups, and the kills.
   */
  lemma {:induction false} SlotCounts(log: seq<Entry>, s: nat)
    ensures Ring.CountIn(MarksOf(log), s) == Ring.Counters(
              Number(log, s, (x: Entry) => x.FlowIn?),
              Number(log, s, (x: Entry) => x.FlowIn? && x.flow.verdict == "DROPPED"),
              Number(log, s, IsHttp),
              Number(log, s, (x: Entry) => IsHttp(x) && x.flow.l7.value.status >= 500),
              Number(log, s, IsFailedLookup),
              Number(log, s, IsKill))
  {
    hide MarksIn, InSlot, IsHttp, IsFailedLookup, IsKill;
    if log != [] {
      var before, x := log[..|log| - 1], log[|log| - 1];
      SlotCounts(before, s);
      EntryAdds(MarksOf(before), x, s);
    }
  }

  // ----- kills on nodes

  /** The kill is of a workload that goes by this name. */
  predicate KillAt(x: Entry, id: string) {
    IsKill(x) && x.event.namespace_ != "" && x.event.workload != "" && x.event.namespace_ + "/" + x.event.workload == id
  }

  /** The kills of a workload that arrived after a flow had named it. */
  function KilledAt(log: seq<Entry>, id: string): nat {
    if log == [] then 0
    else
      var before, x := log[..|log| - 1], log[|log| - 1];
      KilledAt(before, id) + if KillAt(x, id) && Named(FlowsOf(before), id) then 1 else 0
  }

  /** All kills of workloads that a flow had named. */
  function KillsPlaced(log: seq<Entry>): nat {
    if log == [] then 0
    else
      var before, x := log[..|log| - 1], log[|log| - 1];
      KillsPlaced(before) + if x.EventIn? && KillAt(x, x.event.namespace_ + "/" + x.event.workload)
                            && Named(FlowsOf(before), x.event.namespace_ + "/" + x.event.workload) then 1 else 0
  }

  lemma KnownIsNamed(log: seq<Entry>, id: string)
    ensures id in NodesOf(log) <==> Named(FlowsOf(log), id)
  {
    hide Named, NodesOf;
    GraphIsFaithful(log);
    assert NodeExact(NodesOf(log), FlowsOf(log), id);
  }

  lemma {:induction false} NewNodeNoKills(log: seq<Entry>, id: string)
    requires !Named(FlowsOf(log), id)
    ensures KilledAt(log, id) == 0
  {
    hide KillAt, EndpointID;
    if log != [] {
      var before, x := log[..|log| - 1], log[|log| - 1];
      assert forall f :: f in FlowsOf(before) ==> f in FlowsOf(log);
      assert !Named(FlowsOf(before), id);
      NewNodeNoKills(before, id);
    }
  }

  /** In any run, a node has exactly the kills of its workload since it was known. */
  lemma {:induction false} KillsAreExact(log: seq<Entry>, id: string)
    requires id in NodesOf(log)
    ensures NodesOf(log)[id].kills == KilledAt(log, id)
  {
    hide EndpointID, Named;
    var before, x := log[..|log| - 1], log[|log| - 1];
    KnownIsNamed(before, id);
    if id in NodesOf(before) {
      KillsAreExact(before, id);
    } else {
      NewNodeNoKills(before, id);
    }
  }

  /** And the kills on nodes add up to the kills of named workloads. */
  lemma {:induction false} KillsAddUp(log: seq<Entry>)
    ensures Sums.Sum(NodeKills(NodesOf(log))) == KillsPlaced(log) <= Kills(log)
  {
    hide NodeKills, NodesAfter, Named;
    if log == [] {
      NoKills();
    } else {
      var before, x := log[..|log| - 1], log[|log| - 1];
      KillsAddUp(before);
      match x {
        case FlowIn(f, _) => NodesKeepSums(NodesOf(before), f);
        case EventIn(e, _) =>
          var id := e.namespace_ + "/" + e.workload;
          KnownIsNamed(before, id);
          if id in NodesOf(before) {
            KillsUpdate(NodesOf(before), id, NodesOf(before)[id].(kills := NodesOf(before)[id].kills + 1));
          }
      }
    }
  }

  lemma NoKills()
    ensures Sums.Sum(NodeKills(map[])) == 0
  {
    assert NodeKills(map[]) == map[];
  }

  // ----- names of nodes

  /** The endpoint that first goes by this name; of a flow whose ends both do, the source. */
  function FirstNamed(flows: seq<Flow>, id: string): Option<Endpoint> {
    if flows == [] then None
    else
      var f, before := flows[|flows| - 1], FirstNamed(flows[..|flows| - 1], id);
      if before.Some? then before
      else if EndpointID(f.source) == id then Some(f.source)
      else if EndpointID(f.destination) == id then Some(f.destination) else None
  }

  /** A node says what the endpoint that was first named so says, and is external exactly outside any namespace. */
  predicate AsFirstNamed(nodes: map<string, NodeStat>, flows: seq<Flow>, id: string) {
    var first := FirstNamed(flows, id);
    && (id in nodes <==> first.Some?)
    && (id in nodes ==>
          && nodes[id].id == id && nodes[id].namespace_ == first.value.namespace_
          && nodes[id].workload == first.value.workload && (nodes[id].external <==> first.value.namespace_ == ""))
  }

  lemma FlowKeepsFirst(nodes: map<string, NodeStat>, flows: seq<Flow>, f: Flow, id: string)
    requires AsFirstNamed(nodes, flows, id)
    ensures AsFirstNamed(NodesAfter(nodes, f), flows + [f], id)
  {
    hide EndpointID;
    assert (flows + [f])[..|flows|] == flows;
  }

  lemma KillKeepsFirst(nodes: map<string, NodeStat>, flows: seq<Flow>, namespace_: string, workload: string, id: string)
    requires AsFirstNamed(nodes, flows, id)
    ensures AsFirstNamed(NodesAfterKill(nodes, namespace_, workload), flows, id)
  {
    hide FirstNamed;
  }

  /** In any run, a node is described as it was first named. */
  lemma {:induction false} NodesAreFirstNamed(log: seq<Entry>, id: string)
    ensures AsFirstNamed(NodesOf(log), FlowsOf(log), id)
  {
    hide NodesAfter, NodesAfterKill, AsFirstNamed;
    if log == [] {
      NobodyNamed(id);
    } else {
      var before, x := log[..|log| - 1], log[|log| - 1];
      NodesAreFirstNamed(before, id);
      match x {
        case FlowIn(f, _) => FlowKeepsFirst(NodesOf(before), FlowsOf(before), f, id);
        case EventIn(e, _) =>
          assert FlowsOf(before) + [] == FlowsOf(before);
          KillKeepsFirst(NodesOf(before), FlowsOf(before), e.namespace_, e.workload, id);
      }
    }
  }

  lemma NobodyNamed(id: string)
    ensures AsFirstNamed(map[], [], id)
  {
  }

  // ----- the alerts

  predicate DropSays(f: Flow, a: Alerts.Alert) {
    && f.verdict == "DROPPED" && a.severity == "warning" && a.kind == "network_drop"
    && a.title == "Traffic dropped: " + EndpointID(f.source) + " \U{2192} " + EndpointID(f.destination)
    && a.detail == f.dropReason && a.namespace_ == f.source.namespace_ && a.workload == f.source.workload
    && (f.policies == [] ==> a.policy == "")
    && (f.policies != [] ==>
        var p := f.policies[0]; a.policy == if p.namespace_ == "" then p.name else p.namespace_ + "/" + p.name)
  }

  predicate KillSays(e: Event, a: Alerts.Alert) {
    && (e.action == "SIGKILL" || e.action == "OVERRIDE") && a.severity == "critical" && a.kind == "runtime_enforcement"
    && a.title == "Tetragon " + e.action + ": " + e.binary && a.detail == e.function_ + " " + e.details
    && a.namespace_ == e.namespace_ && a.workload == e.workload && a.policy == e.policy
  }

  /** An alert of the entry, at its own time, or at Go's zero time if it has none. */
  predicate Says(x: Entry, a: Alerts.Alert) {
    && (if x.FlowIn? then DropSays(x.flow, a) else KillSays(x.event, a))
    && a.time == if x.At().Some? then x.At().value else -62_135_596_800_000_000_000
  }

  lemma EntrySays(x: Entry, a: Alerts.Alert)
    ensures a in AlertsIn(x) <==> Says(x, a)
  {
    hide EndpointID;
  }

  /** In any run, what is raised is one alert for every dropped flow and every kill, which says what happened. */
  lemma {:induction false} AlertsExactly(log: seq<Entry>, a: Alerts.Alert)
    ensures a in AlertsOf(log) <==> exists x :: x in log && Says(x, a)
  {
    hide AlertsIn, Says;
    if log != [] {
      var before, x := log[..|log| - 1], log[|log| - 1];
      AlertsExactly(before, a);
      EntrySays(x, a);
      assert log == before + [x];
    }
  }
}
