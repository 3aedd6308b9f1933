/**
 The aggregator (backend/internal/server/aggregator.go:65-294, 341-490). Its recent lists, totals, graph,
 time ring and alerts are, after any calls, exactly what the log of arrivals amounts to.
 */
module Aggregator {
  import opened Option
  import opened Recent
  import opened Runs
  import opened ServiceMap
  import Alerts
  import Dashboard
  import GraphView
  import Ring
  import Sorting

  const FLOW_RING_SIZE: nat := 500
  const EVENT_RING_SIZE: nat := 300
  const ALERT_RING_SIZE: nat := 200

  // ----- names of policies on a flow

  ghost function PolicyKeys(policies: seq<PolicyRef>): set<string> {
    set p | p in policies :: PolicyKey(p)
  }

  /** The distinct policies of a flow, in order of first mention (backend/internal/hubble/types.go:71-86). */
  method PolicyNames(policies: seq<PolicyRef>) returns (names: seq<string>)
    ensures forall n :: n in names <==> n in PolicyKeys(policies)
    ensures forall i, j :: 0 <= i < j < |names| ==> names[i] != names[j]
    ensures policies != [] ==> names != [] && names[0] == PolicyKey(policies[0])
  {
    hide PolicyKey;
    var seen: set<string> := {};
    names := [];
    for i := 0 to |policies|
      invariant seen == PolicyKeys(policies[..i])
      invariant forall n :: n in names <==> n in seen
      invariant forall i, j :: 0 <= i < j < |names| ==> names[i] != names[j]
      invariant i == 0 ==> names == []
      invariant i > 0 ==> names != [] && names[0] == PolicyKey(policies[0])
    {
      var key := PolicyKey(policies[i]);
      assert policies[..i + 1] == policies[..i] + [policies[i]];
      assert PolicyKeys(policies[..i + 1]) == PolicyKeys(policies[..i]) + {key};
      if key !in seen {
        seen := seen + {key};
        names := names + [key];
      }
    }
    assert policies[..|policies|] == policies;
  }

  // ----- the aggregator

  class Aggregator {
    var flows: seq<Flow>
    var events: seq<Event>
    var alerts: seq<Alerts.Alert>
    var edges: map<string, EdgeStat>
    var nodes: map<string, NodeStat>
    const buckets: array<Ring.Bucket>

    var totalFlows: nat
    var totalDrops: nat
    var totalEvents: nat
    var totalKills: nat

    var lastAlert: map<string, int>
    const router: Alerts.Router?

    /** Everything that arrived. */
    ghost var log: seq<Entry>

    /** The recent lists and the totals are those of a log. */
    ghost predicate Lists(log: seq<Entry>)
      reads `flows, `events, `totalFlows, `totalDrops, `totalEvents, `totalKills
    {
      && flows == Suffix(FlowsOf(log), FLOW_RING_SIZE)
      && events == Suffix(EventsOf(log), EVENT_RING_SIZE)
      && totalFlows == |FlowsOf(log)|
      && totalDrops == Drops(FlowsOf(log))
      && totalEvents == |EventsOf(log)|
      && totalKills == Kills(log)
    }

    ghost predicate Graph(log: seq<Entry>)
      reads `edges, `nodes
    {
      edges == EdgesOf(log) && nodes == NodesOf(log)
    }

    ghost predicate Buckets(log: seq<Entry>)
      reads buckets
    {
      buckets.Length == Ring.BUCKET_COUNT && buckets[..] == Ring.RingOf(MarksOf(log))
    }

    /** Both suppression stages have seen exactly these alerts. */
    ghost predicate Published(raised: seq<Alerts.Alert>)
      reads `alerts, `lastAlert, router
    {
      var stored := Alerts.Passed(raised, '/', Alerts.AGGREGATOR_WINDOW);
      && Alerts.Remembers(lastAlert, stored, '/')
      && alerts == Suffix(stored, ALERT_RING_SIZE)
      && (router != null ==> router.Valid() && router.log == stored)
    }

    ghost predicate Valid()
      reads this, buckets, router
    {
      Lists(log) && Graph(log) && Buckets(log) && Published(AlertsOf(log))
    }

    constructor (router: Alerts.Router?)
      requires router != null ==> router.Valid() && router.log == []
      ensures Valid() && log == [] && fresh(buckets) && this.router == router
    {
      flows, events, alerts := [], [], [];
      edges, nodes, lastAlert := map[], map[], map[];
      totalFlows, totalDrops, totalEvents, totalKills := 0, 0, 0, 0;
      buckets := new Ring.Bucket[Ring.BUCKET_COUNT](_ => Ring.Bucket(0, Ring.ZERO));
      this.router := router;
      log := [];
    }

    /** The node for an endpoint, made at its first mention. */
    method TouchNode(id: string, e: Endpoint)
      requires id == EndpointID(e)
      modifies `nodes
      ensures nodes == Touch(old(nodes), e)
    {
      hide EndpointID;
      if id !in nodes {
        nodes := nodes[id := NodeStat(id, e.namespace_, e.workload, e.namespace_ == "", 0, 0)];
      }
    }

    /** The bucket of a time, taken over from an older slot if need be. */
    method BucketLocked(t: Option<nat>, now: nat) returns (idx: nat)
      requires buckets.Length == Ring.BUCKET_COUNT
      modifies buckets
      ensures idx == Slot(t, now) % Ring.BUCKET_COUNT
      ensures buckets[..] == Ring.Reset(old(buckets[..]), Slot(t, now))
    {
      var at := if t.None? then now else t.value;
      var start := at / 1_000_000_000 / Ring.BUCKET_SECONDS * Ring.BUCKET_SECONDS;
      idx := start / Ring.BUCKET_SECONDS % Ring.BUCKET_COUNT;
      if buckets[idx].start != start {
        buckets[idx] := Ring.Bucket(start, Ring.ZERO);
      }
    }

    /** Counts into the bucket of a time. */
    method Count(t: Option<nat>, now: nat, counted: Ring.Counters, ghost marks: seq<Ring.Mark>)
      requires buckets.Length == Ring.BUCKET_COUNT && buckets[..] == Ring.RingOf(marks)
      modifies buckets
      ensures buckets[..] == Ring.RingOf(marks + [Ring.Mark(Slot(t, now), counted)])
    {
      hide Ring.RingOf, Ring.CountIn, Slot;
      Ring.CountGrows(marks, Ring.Mark(Slot(t, now), counted), 0);
      var idx := BucketLocked(t, now);
      var b := buckets[idx];
      buckets[idx] := Ring.Bucket(b.start, b.counters.Plus(counted));
    }

    /** Stores and routes an alert, unless one like it was stored less than five seconds before. */
    method PublishAlert(al: Alerts.Alert, ghost raised: seq<Alerts.Alert>)
      requires Published(raised)
      modifies `alerts, `lastAlert
      modifies if router == null then {} else {router}
      ensures Published(raised + [al])
      ensures Alerts.Fresh(al, Alerts.Passed(raised, '/', 5_000_000_000), '/', 5_000_000_000) ==>
                alerts == Suffix(old(alerts) + [al], 200)
      ensures !Alerts.Fresh(al, Alerts.Passed(raised, '/', 5_000_000_000), '/', 5_000_000_000) ==> alerts == old(alerts)
      ensures router != null ==> router.routes == old(router.routes)
    {
      hide Alerts.Passed, Alerts.Key, Alerts.LastTime;
      ghost var stored := Alerts.Passed(raised, '/', Alerts.AGGREGATOR_WINDOW);
      Alerts.PassedOneMore(raised, al, '/', Alerts.AGGREGATOR_WINDOW);
      Alerts.RemembersOneMore(lastAlert, stored, '/', al);
      assert stored + [] == stored;
      var key := Alerts.Key(al, '/');
      assert Alerts.LastTime(stored, '/', key) == if key in lastAlert then Some(lastAlert[key]) else None;
      if key in lastAlert && al.time - lastAlert[key] < 5 * Alerts.SECOND {
        return;
      }
      lastAlert := lastAlert[key := al.time];
      alerts := Push(alerts, ALERT_RING_SIZE, al);
      if router != null {
        var _, _ := router.Dispatch(al);
      }
    }

    /** Counts a flow into its edge. */
    method CountEdge(f: Flow, src: string, dst: string)
      requires src == EndpointID(f.source) && dst == EndpointID(f.destination)
      modifies `edges
      ensures edges == EdgesAfter(old(edges), f)
    {
      hide EndpointID;
      var ek := src + "->" + dst;
      var es := if ek in edges then edges[ek] else EdgeStat(src, dst, 0, 0, false, false, {});
      es := es.(ports := es.ports + {f.dstPort});
      if f.verdict == "DROPPED" {
        es := es.(dropped := es.dropped + 1);
      } else {
        es := es.(forwarded := es.forwarded + 1);
      }
      if f.l7.Some? {
        if f.l7.value.kind == "http" {
          es := es.(http := true);
        }
        if f.l7.value.kind == "dns" {
          es := es.(dns := true);
        }
      }
      edges := edges[ek := es];
    }

    /** Makes the nodes of a flow and counts a drop at its destination. */
    method CountNodes(f: Flow, src: string, dst: string)
      requires src == EndpointID(f.source) && dst == EndpointID(f.destination)
      modifies `nodes
      ensures nodes == NodesAfter(old(nodes), f)
    {
      hide EndpointID;
      TouchNode(src, f.source);
      TouchNode(dst, f.destination);
      if f.verdict == "DROPPED" {
        nodes := nodes[dst := nodes[dst].(drops := nodes[dst].drops + 1)];
      }
    }

    /** What a flow adds to its bucket. */
    method CountsOf(f: Flow) returns (c: Ring.Counters)
      ensures c == FlowCounts(f)
    {
      c := Ring.ZERO.(flows := 1);
      if f.verdict == "DROPPED" {
        c := c.(drops := 1);
      }
      if f.l7.Some? {
        if f.l7.value.kind == "http" {
          c := c.(httpReq := 1);
          if f.l7.value.status >= 500 {
            c := c.(httpErr := 1);
          }
        } else if f.l7.value.kind == "dns" {
          if f.l7.value.dnsRcode != "" && f.l7.value.dnsRcode != "NoError" {
            c := c.(dnsErr := 1);
          }
        }
      }
    }

    /** Keeps a flow among the recent ones and in the totals. */
    method ListFlow(f: Flow, now: nat, ghost log: seq<Entry>)
      requires Lists(log)
      modifies `flows, `totalFlows, `totalDrops
      ensures Lists(log + [FlowIn(f, now)])
    {
      hide FlowsOf, EventsOf, Kills, MarksOf, AlertsOf, NodesOf, EdgesOf, NodesStep, EdgesStep, Drops, Suffix;
      OneMore(log, FlowIn(f, now));
      DropsGrow(FlowsOf(log), f);
      assert EventsOf(log) + [] == EventsOf(log);
      totalFlows := totalFlows + 1;
      flows := Push(flows, FLOW_RING_SIZE, f);
      if f.verdict == "DROPPED" {
        totalDrops := totalDrops + 1;
      }
    }

    /** Draws a flow into the graph. */
    method DrawFlow(f: Flow, now: nat, ghost log: seq<Entry>)
      requires Graph(log)
      modifies `edges, `nodes
      ensures Graph(log + [FlowIn(f, now)])
    {
      hide FlowsOf, EventsOf, Kills, MarksOf, AlertsOf, NodesOf, EdgesOf, NodesAfter, EdgesAfter, EndpointID;
      OneMore(log, FlowIn(f, now));
      var src, dst := EndpointID(f.source), EndpointID(f.destination);
      CountNodes(f, src, dst);
      CountEdge(f, src, dst);
    }

    method IngestFlow(f: Flow, now: nat)
      requires Valid()
      modifies this, buckets
      modifies if router == null then {} else {router}
      ensures Valid() && log == old(log) + [FlowIn(f, now)]
    {
      hide FlowsOf, EventsOf, Kills, MarksOf, AlertsOf, NodesOf, EdgesOf, NodesStep, EdgesStep, Ring.RingOf, FlowCounts,
           Slot, EndpointID;
      hide Lists, Graph, Published;
      ghost var raised := AlertsOf(log);
      OneMore(log, FlowIn(f, now));
      ListFlow(f, now, log);
      var counted := CountsOf(f);
      Count(f.time, now, counted, MarksOf(log));
      DrawFlow(f, now, log);
      log := log + [FlowIn(f, now)];
      if f.verdict == "DROPPED" {
        var alert := NewDropAlert(f, EndpointID(f.source), EndpointID(f.destination));
        PublishAlert(alert, raised);
      } else {
        assert raised + [] == raised;
      }
    }

    /** The alert for a dropped flow, naming its first policy if there is one. */
    method NewDropAlert(f: Flow, src: string, dst: string) returns (alert: Alerts.Alert)
      requires src == EndpointID(f.source) && dst == EndpointID(f.destination)
      ensures alert == DropAlert(f)
    {
      hide EndpointID, PolicyKey;
      alert := Alerts.Alert(
        AlertTime(f.time), "warning", "network_drop", "Traffic dropped: " + src + " \U{2192} " + dst, f.dropReason,
        f.source.namespace_, f.source.workload, "");
      var names := PolicyNames(f.policies);
      assert f.policies == [] ==> PolicyKeys(f.policies) == {};
      if |names| > 0 {
        assert names[0] in PolicyKeys(f.policies);
        alert := alert.(policy := names[0]);
      }
    }

    /** Keeps an event among the recent ones and in the totals. */
    method ListEvent(e: Event, now: nat, ghost log: seq<Entry>)
      requires Lists(log)
      modifies `events, `totalEvents, `totalKills
      ensures Lists(log + [EventIn(e, now)])
    {
      hide FlowsOf, EventsOf, Kills, MarksOf, AlertsOf, NodesOf, EdgesOf, NodesStep, EdgesStep, Drops, Suffix;
      OneMore(log, EventIn(e, now));
      assert FlowsOf(log) + [] == FlowsOf(log);
      totalEvents := totalEvents + 1;
      events := Push(events, EVENT_RING_SIZE, e);
      if e.Enforced() {
        totalKills := totalKills + 1;
      }
    }

    /** Marks a kill on the node of its workload, if that is in the graph. */
    method DrawKill(e: Event, now: nat, ghost log: seq<Entry>)
      requires Graph(log) && e.Enforced()
      modifies `nodes
      ensures Graph(log + [EventIn(e, now)])
    {
      hide FlowsOf, EventsOf, Kills, MarksOf, AlertsOf, NodesOf, EdgesOf;
      OneMore(log, EventIn(e, now));
      if e.namespace_ != "" && e.workload != "" {
        var id := e.namespace_ + "/" + e.workload;
        if id in nodes {
          nodes := nodes[id := nodes[id].(kills := nodes[id].kills + 1)];
        }
      }
    }

    method IngestEvent(e: Event, now: nat)
      requires Valid()
      modifies this, buckets
      modifies if router == null then {} else {router}
      ensures Valid() && log == old(log) + [EventIn(e, now)]
    {
      hide FlowsOf, EventsOf, Kills, MarksOf, AlertsOf, NodesOf, EdgesOf, Ring.RingOf, Slot;
      hide Lists, Published;
      ghost var raised := AlertsOf(log);
      OneMore(log, EventIn(e, now));
      ListEvent(e, now, log);
      var enforced := e.action == "SIGKILL" || e.action == "OVERRIDE";
      if enforced {
        Count(e.time, now, ONE_KILL, MarksOf(log));
        DrawKill(e, now, log);
        log := log + [EventIn(e, now)];
        PublishAlert(KillAlert(e), raised);
      } else {
        assert raised + [] == raised && MarksOf(log) + [] == MarksOf(log);
        log := log + [EventIn(e, now)];
      }
    }

    // ----- reading

    method RecentFlows(limit: int) returns (r: seq<Flow>)
      requires Lists(log)
      ensures r == Suffix(FlowsOf(log), if 0 < limit < 500 then limit else 500)
    {
      hide FlowsOf, EventsOf;
      r := Tail(flows, limit);
    }

    method RecentEvents(limit: int) returns (r: seq<Event>)
      requires Lists(log)
      ensures r == Suffix(EventsOf(log), if 0 < limit < 300 then limit else 300)
    {
      hide FlowsOf, EventsOf;
      r := Tail(events, limit);
    }

    method RecentAlerts(limit: int) returns (r: seq<Alerts.Alert>)
      requires Published(AlertsOf(log))
      ensures r == Suffix(Alerts.Passed(AlertsOf(log), '/', 5_000_000_000), if 0 < limit < 200 then limit else 200)
    {
      hide AlertsOf, Alerts.Passed, Alerts.Remembers;
      r := Tail(alerts, limit);
    }

    method ServiceMap() returns (ns: seq<NodeStat>, es: seq<GraphView.EdgeView>)
      requires Graph(log)
      ensures GraphView.ListsNodes(ns, NodesOf(log)) && Sorting.SortedBy(GraphView.NodeLeq, ns)
      ensures GraphView.ListsEdges(es, EdgesOf(log)) && Sorting.SortedBy(GraphView.EdgeLeq, es)
    {
      hide NodesOf, EdgesOf, FlowsOf, Kills;
      GraphIsFaithful(log);
      forall id | id in nodes ensures nodes[id].id == id {
        assert NodeExact(nodes, FlowsOf(log), id);
      }
      forall k | k in edges ensures k == edges[k].source + "->" + edges[k].target {
        assert EdgeExact(edges, nodes, FlowsOf(log), k);
      }
      ns := GraphView.ListNodes(nodes);
      es := GraphView.ListEdges(edges);
    }

    /**
     The dashboard summary. The count shown for ten seconds is true exactly when nothing erased it, and so
     for all of them while nothing came more than 89 slots late.
     */
    method Overview(now: nat) returns (o: Dashboard.Summary)
      requires Lists(log) && Buckets(log)
      requires Dashboard.SlotOf(now) >= Dashboard.LAST
      ensures o.totalFlows == |FlowsOf(log)| && o.totalDrops == Drops(FlowsOf(log))
      ensures o.totalEvents == |EventsOf(log)| && o.totalKills == Kills(log)
      ensures Dashboard.Summarizes(o) && o.series == Dashboard.Points(Ring.RingOf(MarksOf(log)), Dashboard.SlotOf(now))
      ensures 0.0 <= o.dropRate <= o.flowRate && 0.0 <= o.httpErrPct <= 100.0
      ensures |o.series| == 90 && forall k :: 0 <= k < 90 ==> o.series[k].time == (now / 10_000_000_000 - 89 + k) * 10
      ensures forall k :: 0 <= k < Ring.BUCKET_COUNT ==>
                (o.series[k].counters == Ring.CountIn(MarksOf(log), Dashboard.SlotOf(now) - Dashboard.LAST + k)
                 <==> !Ring.Erased(MarksOf(log), Dashboard.SlotOf(now) - Dashboard.LAST + k))
      ensures Ring.InWindow(MarksOf(log)) && Ring.UpTo(MarksOf(log), Dashboard.SlotOf(now)) ==>
                forall k :: 0 <= k < Ring.BUCKET_COUNT ==>
                  o.series[k].counters == Ring.CountIn(MarksOf(log), Dashboard.SlotOf(now) - Dashboard.LAST + k)
    {
      hide FlowsOf, EventsOf, Kills, MarksOf, AlertsOf, NodesOf, EdgesOf, Drops, Ring.RingOf, Ring.CountIn,
           Ring.InWindow, Ring.UpTo, Ring.Erased;
      hide Published, Graph, Dashboard.SumOf, Dashboard.Points;
      var slot := Dashboard.SlotOf(now);
      var series, all, minute := Series(slot);
      o := Dashboard.Summary(
        totalFlows, totalDrops, totalEvents, totalKills,
        minute.flows as real / 60.0, minute.drops as real / 60.0,
        if all.httpReq > 0 then 100.0 * all.httpErr as real / all.httpReq as real else 0.0,
        all.dnsErr, series);
      MarksAreSane(log);
      Ring.BucketsAreSane(MarksOf(log));
      Dashboard.PointsAreSane(Ring.RingOf(MarksOf(log)), slot);
      Dashboard.SummaryIsSane(o);
      Dashboard.PointTimes(Ring.RingOf(MarksOf(log)), now);
      forall k | 0 <= k < Ring.BUCKET_COUNT
        ensures series[k].counters == Ring.CountIn(MarksOf(log), slot - Dashboard.LAST + k)
           <==> !Ring.Erased(MarksOf(log), slot - Dashboard.LAST + k)
      {
        Dashboard.PointsExactly(log, slot, k);
      }
      if Ring.InWindow(MarksOf(log)) && Ring.UpTo(MarksOf(log), slot) {
        forall k | 0 <= k < Ring.BUCKET_COUNT
          ensures series[k].counters == Ring.CountIn(MarksOf(log), slot - Dashboard.LAST + k)
        {
          Dashboard.PointsAreExact(MarksOf(log), slot, k);
        }
      }
    }

    /** Walks the last ninety slots, adding up all of them and the last six. */
    method Series(slot: nat) returns (series: seq<Dashboard.TimePoint>, all: Ring.Counters, minute: Ring.Counters)
      requires buckets.Length == Ring.BUCKET_COUNT && slot >= Dashboard.LAST
      ensures series == Dashboard.Points(buckets[..], slot)
      ensures all == Dashboard.SumOf(series) && minute == Dashboard.SumOf(Suffix(series, Dashboard.LAST_MINUTE))
    {
      hide Dashboard.SumOf, Dashboard.MinuteOf, Dashboard.Points, Ring.Counters.Plus;
      ghost var points := Dashboard.Points(buckets[..], slot);
      Dashboard.WalkStarts(points);
      var now := slot * Ring.BUCKET_SECONDS;
      var start := now - Dashboard.LAST * Ring.BUCKET_SECONDS;
      series, all, minute := [], Ring.ZERO, Ring.ZERO;
      ghost var k := 0;
      while start <= now
        invariant k <= Ring.BUCKET_COUNT && start == (slot - Dashboard.LAST + k) * Ring.BUCKET_SECONDS
        invariant series == points[..k]
        invariant all == Dashboard.SumOf(points[..k]) && minute == Dashboard.SumOf(Dashboard.MinuteOf(points, k))
      {
        Dashboard.WalkSteps(points, k);
        var tp := Point(start, slot - Dashboard.LAST + k);
        all := all.Plus(tp.counters);
        if start + 60 > now {
          minute := minute.Plus(tp.counters);
        }
        series := series + [tp];
        start := start + Ring.BUCKET_SECONDS;
        k := k + 1;
      }
      assert k == Ring.BUCKET_COUNT;
      Dashboard.WalkEnds(points);
    }

    /** The point of one slot: its bucket, unless that is for another slot. */
    method Point(start: nat, ghost slot: nat) returns (tp: Dashboard.TimePoint)
      requires buckets.Length == Ring.BUCKET_COUNT && start == slot * Ring.BUCKET_SECONDS
      ensures tp == Dashboard.PointAt(buckets[..], slot)
    {
      var b := buckets[start / Ring.BUCKET_SECONDS % Ring.BUCKET_COUNT];
      tp := Dashboard.TimePoint(start, Ring.ZERO);
      if b.start == start {
        tp := Dashboard.TimePoint(start, b.counters);
      }
    }
  }
}
