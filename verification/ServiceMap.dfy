/**
 The dependency graph the aggregator accumulates (backend/internal/server/aggregator.go:144-251,
 341-348), as a function of one more flow or kill, and what it conserves over any log of flows.
 */
module ServiceMap {
  import opened Option
  import Sums

  datatype Endpoint = Endpoint(namespace_: string, workload: string)

  datatype L7 = L7(kind: string, status: nat, dnsRcode: string)

  datatype PolicyRef = PolicyRef(name: string, namespace_: string)

  /** Times are nanoseconds since 1970; an absent time is Go's zero time. */
  datatype Flow = Flow(
    time: Option<nat>, verdict: string, dropReason: string, source: Endpoint, destination: Endpoint,
    dstPort: nat, l7: Option<L7>, policies: seq<PolicyRef>)
  {
    predicate Dropped() {
      verdict == "DROPPED"
    }

    predicate Speaks(kind: string) {
      l7.Some? && l7.value.kind == kind
    }
  }

  datatype EdgeStat = EdgeStat(
    source: string, target: string, forwarded: nat, dropped: nat, http: bool, dns: bool, ports: set<nat>)

  datatype NodeStat = NodeStat(id: string, namespace_: string, workload: string, external: bool, drops: nat, kills: nat)

  function EndpointID(e: Endpoint): string {
    if e.namespace_ != "" then e.namespace_ + "/" + e.workload
    else if e.workload != "" then "external/" + e.workload
    else "external/world"
  }

  function EdgeKey(f: Flow): string {
    EndpointID(f.source) + "->" + EndpointID(f.destination)
  }

  // ----- which endpoints share a node, which flows an edge

  /** Outside every namespace, or in one that is called like the outside. */
  predicate Outside(e: Endpoint) {
    e.namespace_ == "" || e.namespace_ == "external"
  }

  function Called(e: Endpoint): string {
    if e.namespace_ == "" && e.workload == "" then "world" else e.workload
  }

  lemma SplitAtSlash(n: string, w: string, m: string, x: string)
    requires '/' !in n && '/' !in m && n + "/" + w == m + "/" + x
    ensures n == m && w == x
  {
    var s := n + "/" + w;
    assert s[|n|] == '/' && s[|m|] == '/';
    assert |n| == |m|;
    assert n == s[..|n|] == m && w == s[|n| + 1..] == x;
  }

  /**
   Endpoints share a node exactly when they are the same, or both are outside or in the namespace `external`
   and are called the same. Namespaces hold no slash, as Kubernetes has it.
   */
  lemma EndpointsMeetExactly(a: Endpoint, b: Endpoint)
    requires '/' !in a.namespace_ && '/' !in b.namespace_
    ensures EndpointID(a) == EndpointID(b) <==> a == b || (Outside(a) && Outside(b) && Called(a) == Called(b))
  {
    OutsideID(a);
    OutsideID(b);
    if EndpointID(a) == EndpointID(b) {
      SplitAtSlash(Home(a), Called(a), Home(b), Called(b));
    }
  }

  function Home(e: Endpoint): string {
    if e.namespace_ == "" then "external" else e.namespace_
  }

  lemma OutsideID(e: Endpoint)
    requires '/' !in e.namespace_
    ensures EndpointID(e) == Home(e) + "/" + Called(e) && '/' !in Home(e)
  {
  }

  /** A workload in a namespace called `external` has the node of the external endpoint of that name. */
  lemma ExternalNamespaceMerges(w: string)
    requires w != ""
    ensures EndpointID(Endpoint("external", w)) == EndpointID(Endpoint("", w))
  {
  }

  lemma NoBracketYet(source: string, destination: string, i: nat)
    requires '>' !in source && i <= |source|
    ensures (source + "->" + destination)[i] != '>'
  {
    assert i < |source| ==> (source + "->" + destination)[i] == source[i];
  }

  /** Without an angle bracket in the source, flows share an edge exactly when they share both nodes. */
  lemma EdgesMeetExactly(f: Flow, g: Flow)
    requires '>' !in EndpointID(f.source) && '>' !in EndpointID(g.source)
    ensures EdgeKey(f) == EdgeKey(g) <==>
            EndpointID(f.source) == EndpointID(g.source) && EndpointID(f.destination) == EndpointID(g.destination)
  {
    hide EndpointID;
    var s, t, k := EndpointID(f.source), EndpointID(g.source), EdgeKey(f);
    if k == EdgeKey(g) {
      assert k[|s| + 1] == '>' && k[|t| + 1] == '>';
      if |s| < |t| {
        NoBracketYet(t, EndpointID(g.destination), |s| + 1);
      } else if |t| < |s| {
        NoBracketYet(s, EndpointID(f.destination), |t| + 1);
      } else {
        assert s == k[..|s|] == t;
        assert EndpointID(f.destination) == k[|s| + 2..] == EndpointID(g.destination);
      }
    }
  }

  // ----- one step

  function Touch(nodes: map<string, NodeStat>, e: Endpoint): map<string, NodeStat> {
    var id := EndpointID(e);
    if id in nodes then nodes
    else nodes[id := NodeStat(id, e.namespace_, e.workload, e.namespace_ == "", 0, 0)]
  }

  function NodesAfter(nodes: map<string, NodeStat>, f: Flow): map<string, NodeStat> {
    var dst := EndpointID(f.destination);
    var touched := Touch(Touch(nodes, f.source), f.destination);
    if f.Dropped() then touched[dst := touched[dst].(drops := touched[dst].drops + 1)] else touched
  }

  function EdgeBefore(edges: map<string, EdgeStat>, f: Flow): EdgeStat {
    var k := EdgeKey(f);
    if k in edges then edges[k] else EdgeStat(EndpointID(f.source), EndpointID(f.destination), 0, 0, false, false, {})
  }

  function EdgeAfter(e: EdgeStat, f: Flow): EdgeStat {
    e.(forwarded := e.forwarded + (if f.Dropped() then 0 else 1),
       dropped := e.dropped + (if f.Dropped() then 1 else 0),
       http := e.http || f.Speaks("http"),
       dns := e.dns || f.Speaks("dns"),
       ports := e.ports + {f.dstPort})
  }

  function EdgesAfter(edges: map<string, EdgeStat>, f: Flow): map<string, EdgeStat> {
    edges[EdgeKey(f) := EdgeAfter(EdgeBefore(edges, f), f)]
  }

  /** A kill counts on its workload's node, if that is known. */
  function NodesAfterKill(nodes: map<string, NodeStat>, namespace_: string, workload: string): map<string, NodeStat> {
    var id := namespace_ + "/" + workload;
    if namespace_ != "" && workload != "" && id in nodes then nodes[id := nodes[id].(kills := nodes[id].kills + 1)]
    else nodes
  }

  // ----- counting in the log

  function Drops(log: seq<Flow>): nat {
    if log == [] then 0 else Drops(log[..|log| - 1]) + if log[|log| - 1].Dropped() then 1 else 0
  }

  function Forwarded(log: seq<Flow>, k: string): nat {
    if log == [] then 0
    else Forwarded(log[..|log| - 1], k) + if EdgeKey(log[|log| - 1]) == k && !log[|log| - 1].Dropped() then 1 else 0
  }

  function DroppedOn(log: seq<Flow>, k: string): nat {
    if log == [] then 0
    else DroppedOn(log[..|log| - 1], k) + if EdgeKey(log[|log| - 1]) == k && log[|log| - 1].Dropped() then 1 else 0
  }

  function DroppedAt(log: seq<Flow>, id: string): nat {
    if log == [] then 0
    else DroppedAt(log[..|log| - 1], id)
         + if EndpointID(log[|log| - 1].destination) == id && log[|log| - 1].Dropped() then 1 else 0
  }

  function Ports(log: seq<Flow>, k: string): set<nat> {
    set f | f in log && EdgeKey(f) == k :: f.dstPort
  }

  /** Whether a flow between these endpoints spoke a layer-7 protocol. */
  predicate Spoken(log: seq<Flow>, k: string, kind: string) {
    exists f :: f in log && EdgeKey(f) == k && f.Speaks(kind)
  }

  /** Whether a flow came from or went to this endpoint. */
  predicate Named(log: seq<Flow>, id: string) {
    exists f :: f in log && (EndpointID(f.source) == id || EndpointID(f.destination) == id)
  }

  lemma OneMoreOn(log: seq<Flow>, f: Flow, k: string)
    ensures Forwarded(log + [f], k) == Forwarded(log, k) + if EdgeKey(f) == k && !f.Dropped() then 1 else 0
    ensures DroppedOn(log + [f], k) == DroppedOn(log, k) + if EdgeKey(f) == k && f.Dropped() then 1 else 0
    ensures Ports(log + [f], k) == Ports(log, k) + if EdgeKey(f) == k then {f.dstPort} else {}
    ensures forall kind :: Spoken(log + [f], k, kind) <==> Spoken(log, k, kind) || (EdgeKey(f) == k && f.Speaks(kind))
  {
    hide EdgeKey, EndpointID;
    assert (log + [f])[..|log|] == log;
    assert forall x :: x in log + [f] <==> x in log || x == f;
    assert f in log + [f];
  }

  lemma OneMoreAt(log: seq<Flow>, f: Flow, id: string)
    ensures DroppedAt(log + [f], id) ==
            DroppedAt(log, id) + if EndpointID(f.destination) == id && f.Dropped() then 1 else 0
    ensures Named(log + [f], id) <==> Named(log, id) || EndpointID(f.source) == id || EndpointID(f.destination) == id
  {
    hide EndpointID;
    assert (log + [f])[..|log|] == log;
    assert forall x :: x in log + [f] <==> x in log || x == f;
    assert f in log + [f];
  }

  // ----- what the graph means

  function Traffic(edges: map<string, EdgeStat>): map<string, nat> {
    map k | k in edges :: edges[k].forwarded + edges[k].dropped
  }

  function EdgeDrops(edges: map<string, EdgeStat>): map<string, nat> {
    map k | k in edges :: edges[k].dropped
  }

  function NodeDrops(nodes: map<string, NodeStat>): map<string, nat> {
    map k | k in nodes :: nodes[k].drops
  }

  function NodeKills(nodes: map<string, NodeStat>): map<string, nat> {
    map k | k in nodes :: nodes[k].kills
  }

  /** An edge joins two known nodes and counts exactly the flows of its key; without one, there was no such flow. */
  ghost predicate EdgeExact(edges: map<string, EdgeStat>, nodes: map<string, NodeStat>, log: seq<Flow>, k: string) {
    if k in edges then
      var e := edges[k];
      && k == e.source + "->" + e.target && e.source in nodes && e.target in nodes
      && e.forwarded == Forwarded(log, k) && e.dropped == DroppedOn(log, k) && e.ports == Ports(log, k)
      && (e.http <==> Spoken(log, k, "http")) && (e.dns <==> Spoken(log, k, "dns"))
    else forall f :: f in log ==> EdgeKey(f) != k
  }

  /** There is a node for each endpoint named in a flow: it counts exactly the flows dropped on the way to it. */
  ghost predicate NodeExact(nodes: map<string, NodeStat>, log: seq<Flow>, id: string) {
    && (id in nodes <==> Named(log, id))
    && (id in nodes ==> nodes[id].drops == DroppedAt(log, id) && Describes(nodes[id], id))
  }

  ghost predicate EdgesExact(edges: map<string, EdgeStat>, nodes: map<string, NodeStat>, log: seq<Flow>) {
    forall k :: EdgeExact(edges, nodes, log, k)
  }

  ghost predicate NodesExact(nodes: map<string, NodeStat>, log: seq<Flow>) {
    forall id :: NodeExact(nodes, log, id)
  }

  /** The node's own fields agree with its name. */
  predicate Describes(n: NodeStat, id: string) {
    n.id == id && EndpointID(Endpoint(n.namespace_, n.workload)) == id && (n.external <==> n.namespace_ == "")
  }

  /** Nothing is lost between the totals and the graph. */
  ghost predicate Conserved(edges: map<string, EdgeStat>, nodes: map<string, NodeStat>, log: seq<Flow>, kills: nat) {
    && Sums.Sum(Traffic(edges)) == |log|
    && Sums.Sum(EdgeDrops(edges)) == Drops(log)
    && Sums.Sum(NodeDrops(nodes)) == Drops(log)
    && Sums.Sum(NodeKills(nodes)) <= kills
  }

  ghost predicate Faithful(edges: map<string, EdgeStat>, nodes: map<string, NodeStat>, log: seq<Flow>, kills: nat) {
    EdgesExact(edges, nodes, log) && NodesExact(nodes, log) && Conserved(edges, nodes, log, kills)
  }

  lemma NothingYet()
    ensures Faithful(map[], map[], [], 0)
  {
    assert Traffic(map[]) == map[] && EdgeDrops(map[]) == map[] && NodeDrops(map[]) == map[] &&
      NodeKills(map[]) == map[];
    assert forall k :: Ports([], k) == {};
  }

  // ----- one entry more or other

  lemma DropsUpdate(nodes: map<string, NodeStat>, id: string, n: NodeStat)
    ensures Sums.Sum(NodeDrops(nodes[id := n])) ==
            Sums.Sum(NodeDrops(nodes)) + n.drops - if id in nodes then nodes[id].drops else 0
  {
    assert NodeDrops(nodes[id := n]) == NodeDrops(nodes)[id := n.drops];
    Sums.SumWith(NodeDrops(nodes), id, n.drops);
  }

  lemma KillsUpdate(nodes: map<string, NodeStat>, id: string, n: NodeStat)
    ensures Sums.Sum(NodeKills(nodes[id := n])) ==
            Sums.Sum(NodeKills(nodes)) + n.kills - if id in nodes then nodes[id].kills else 0
  {
    assert NodeKills(nodes[id := n]) == NodeKills(nodes)[id := n.kills];
    Sums.SumWith(NodeKills(nodes), id, n.kills);
  }

  lemma TrafficUpdate(edges: map<string, EdgeStat>, k: string, e: EdgeStat)
    ensures Sums.Sum(Traffic(edges[k := e])) ==
            Sums.Sum(Traffic(edges)) + e.forwarded + e.dropped
            - if k in edges then edges[k].forwarded + edges[k].dropped else 0
  {
    assert Traffic(edges[k := e]) == Traffic(edges)[k := e.forwarded + e.dropped];
    Sums.SumWith(Traffic(edges), k, e.forwarded + e.dropped);
  }

  lemma EdgeDropsUpdate(edges: map<string, EdgeStat>, k: string, e: EdgeStat)
    ensures Sums.Sum(EdgeDrops(edges[k := e])) ==
            Sums.Sum(EdgeDrops(edges)) + e.dropped - if k in edges then edges[k].dropped else 0
  {
    assert EdgeDrops(edges[k := e]) == EdgeDrops(edges)[k := e.dropped];
    Sums.SumWith(EdgeDrops(edges), k, e.dropped);
  }

  // ----- one flow more

  lemma TouchKnows(nodes: map<string, NodeStat>, e: Endpoint)
    ensures EndpointID(e) in Touch(nodes, e)
    ensures forall id :: id in nodes ==> id in Touch(nodes, e) && Touch(nodes, e)[id] == nodes[id]
    ensures Sums.Sum(NodeDrops(Touch(nodes, e))) == Sums.Sum(NodeDrops(nodes))
    ensures Sums.Sum(NodeKills(Touch(nodes, e))) == Sums.Sum(NodeKills(nodes))
  {
    hide EndpointID, NodeDrops, NodeKills;
    var id := EndpointID(e);
    if id !in nodes {
      var n := NodeStat(id, e.namespace_, e.workload, e.namespace_ == "", 0, 0);
      DropsUpdate(nodes, id, n);
      KillsUpdate(nodes, id, n);
    }
  }

  lemma {:induction false} NoSuchFlow(log: seq<Flow>, k: string)
    requires forall f :: f in log ==> EdgeKey(f) != k
    ensures Forwarded(log, k) == DroppedOn(log, k) == 0 && Ports(log, k) == {} && forall kind :: !Spoken(log, k, kind)
  {
    hide EdgeKey, EndpointID;
    if log != [] {
      assert forall f :: f in log[..|log| - 1] ==> f in log;
      NoSuchFlow(log[..|log| - 1], k);
      assert log[|log| - 1] in log;
    }
  }

  lemma {:induction false} NotNamed(log: seq<Flow>, id: string)
    requires !Named(log, id)
    ensures DroppedAt(log, id) == 0
  {
    hide EndpointID;
    if log != [] {
      assert forall f :: f in log[..|log| - 1] ==> f in log;
      NotNamed(log[..|log| - 1], id);
      assert log[|log| - 1] in log;
    }
  }

  lemma NodeKeepsExact(nodes: map<string, NodeStat>, f: Flow, log: seq<Flow>, id: string)
    requires NodeExact(nodes, log, id)
    ensures NodeExact(NodesAfter(nodes, f), log + [f], id)
  {
    hide EndpointID, DroppedAt, Named;
    OneMoreAt(log, f, id);
    if id !in nodes {
      NotNamed(log, id);
    }
  }

  lemma NodesKeepSums(nodes: map<string, NodeStat>, f: Flow)
    ensures Sums.Sum(NodeDrops(NodesAfter(nodes, f))) == Sums.Sum(NodeDrops(nodes)) + if f.Dropped() then 1 else 0
    ensures Sums.Sum(NodeKills(NodesAfter(nodes, f))) == Sums.Sum(NodeKills(nodes))
    ensures EndpointID(f.source) in NodesAfter(nodes, f) && EndpointID(f.destination) in NodesAfter(nodes, f)
    ensures nodes.Keys <= NodesAfter(nodes, f).Keys
  {
    hide EndpointID, Touch, NodeDrops, NodeKills;
    var one := Touch(nodes, f.source);
    var two := Touch(one, f.destination);
    TouchKnows(nodes, f.source);
    TouchKnows(one, f.destination);
    if f.Dropped() {
      var id := EndpointID(f.destination);
      var n := two[id].(drops := two[id].drops + 1);
      DropsUpdate(two, id, n);
      KillsUpdate(two, id, n);
    }
  }

  lemma EdgeKeepsExact(edges: map<string, EdgeStat>, nodes: map<string, NodeStat>, f: Flow, log: seq<Flow>, k: string)
    requires EdgeExact(edges, nodes, log, k)
    ensures EdgeExact(EdgesAfter(edges, f), NodesAfter(nodes, f), log + [f], k)
  {
    hide EndpointID, Forwarded, DroppedOn, Ports, NodesAfter, Spoken;
    NodesKeepSums(nodes, f);
    OneMoreOn(log, f, k);
    if k !in edges {
      NoSuchFlow(log, k);
    }
  }

  lemma EdgesKeepSums(edges: map<string, EdgeStat>, f: Flow)
    ensures Sums.Sum(Traffic(EdgesAfter(edges, f))) == Sums.Sum(Traffic(edges)) + 1
    ensures Sums.Sum(EdgeDrops(EdgesAfter(edges, f))) == Sums.Sum(EdgeDrops(edges)) + if f.Dropped() then 1 else 0
  {
    hide EdgeKey, EndpointID, Traffic, EdgeDrops;
    var k, e := EdgeKey(f), EdgeAfter(EdgeBefore(edges, f), f);
    TrafficUpdate(edges, k, e);
    EdgeDropsUpdate(edges, k, e);
  }

  /** One more flow keeps the graph exact and conserving. */
  lemma FlowKeepsFaithful(edges: map<string, EdgeStat>, nodes: map<string, NodeStat>, log: seq<Flow>, kills: nat,
                          f: Flow)
    requires Faithful(edges, nodes, log, kills)
    ensures Faithful(EdgesAfter(edges, f), NodesAfter(nodes, f), log + [f], kills)
  {
    hide EdgeExact, NodeExact, EdgesAfter, NodesAfter;
    forall k ensures EdgeExact(EdgesAfter(edges, f), NodesAfter(nodes, f), log + [f], k) {
      EdgeKeepsExact(edges, nodes, f, log, k);
    }
    forall id ensures NodeExact(NodesAfter(nodes, f), log + [f], id) {
      NodeKeepsExact(nodes, f, log, id);
    }
    EdgesKeepSums(edges, f);
    NodesKeepSums(nodes, f);
    assert (log + [f])[..|log|] == log;
  }

  lemma StillDescribes(n: NodeStat, id: string)
    ensures Describes(n.(kills := n.kills + 1), id) <==> Describes(n, id)
  {
  }

  lemma OneKillExact(edges: map<string, EdgeStat>, nodes: map<string, NodeStat>, log: seq<Flow>, id: string)
    requires id in nodes && EdgesExact(edges, nodes, log) && NodesExact(nodes, log)
    ensures var after := nodes[id := nodes[id].(kills := nodes[id].kills + 1)];
            EdgesExact(edges, after, log) && NodesExact(after, log)
  {
    hide Forwarded, DroppedOn, DroppedAt, Ports, Spoken, Named, Describes, EdgeKey;
    var after := nodes[id := nodes[id].(kills := nodes[id].kills + 1)];
    forall k ensures EdgeExact(edges, after, log, k) {
      assert EdgeExact(edges, nodes, log, k);
    }
    forall i ensures NodeExact(after, log, i) {
      assert NodeExact(nodes, log, i);
      StillDescribes(nodes[id], id);
    }
  }

  /** So does one more kill, whose node may be unknown. */
  lemma KillKeepsFaithful(edges: map<string, EdgeStat>, nodes: map<string, NodeStat>, log: seq<Flow>, kills: nat,
                          namespace_: string, workload: string)
    requires Faithful(edges, nodes, log, kills)
    ensures Faithful(edges, NodesAfterKill(nodes, namespace_, workload), log, kills + 1)
  {
    hide EdgesExact, NodesExact, Drops, NodeDrops, NodeKills, Traffic, EdgeDrops;
    var id := namespace_ + "/" + workload;
    if NodesAfterKill(nodes, namespace_, workload) != nodes {
      OneKillExact(edges, nodes, log, id);
      var n := nodes[id].(kills := nodes[id].kills + 1);
      DropsUpdate(nodes, id, n);
      KillsUpdate(nodes, id, n);
    }
  }
}
