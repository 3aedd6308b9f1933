/**
 The service map as it is listed (backend/internal/server/aggregator.go:383-432).

 The maps of the aggregator are walked in any order and the lists sorted afterwards, so the listing is
 known by what is in it: each node and each edge once, with everything they hold, in ascending order of
 identifiers, or of source and target put together. Two edges can tie under that order without being the
 same, so their keys are compared by the arrow between the names.
 */
module GraphView {
  import opened ServiceMap
  import Sorting
  import Text

  datatype EdgeView = EdgeView(
    source: string, target: string, forwarded: nat, dropped: nat, http: bool, dns: bool, ports: seq<nat>)

  predicate PortLeq(a: nat, b: nat) {
    a <= b
  }

  predicate NodeLeq(a: NodeStat, b: NodeStat) {
    Text.Leq(a.id, b.id)
  }

  predicate EdgeLeq(a: EdgeView, b: EdgeView) {
    Text.Leq(a.source + a.target, b.source + b.target)
  }

  /** The view has all of the edge, with its ports once each in ascending order. */
  ghost predicate Shows(v: EdgeView, e: EdgeStat) {
    && v == EdgeView(e.source, e.target, e.forwarded, e.dropped, e.http, e.dns, v.ports)
    && (forall p :: p in v.ports <==> p in e.ports)
    && (forall i, j :: 0 <= i < j < |v.ports| ==> v.ports[i] < v.ports[j])
  }

  /** The list has one entry for each key, and no other. */
  ghost predicate ListsNodes(ns: seq<NodeStat>, nodes: map<string, NodeStat>) {
    && (forall id :: id in nodes ==> nodes[id] in ns)
    && (forall n :: n in ns ==> n.id in nodes && nodes[n.id] == n)
    && (forall i, j :: 0 <= i < j < |ns| ==> ns[i].id != ns[j].id)
  }

  ghost predicate ListsEdges(es: seq<EdgeView>, edges: map<string, EdgeStat>) {
    && (forall k :: k in edges ==> ShownIn(es, edges[k]))
    && (forall v :: v in es ==> KeyOf(v) in edges && Shows(v, edges[KeyOf(v)]))
    && (forall i, j :: 0 <= i < j < |es| ==> KeyOf(es[i]) != KeyOf(es[j]))
  }

  ghost predicate ShownIn(es: seq<EdgeView>, e: EdgeStat) {
    exists v :: v in es && Shows(v, e)
  }

  function KeyOf(v: EdgeView): string {
    v.source + "->" + v.target
  }

  method SortedPorts(ports: set<nat>) returns (r: seq<nat>)
    ensures forall p :: p in r <==> p in ports
    ensures forall i, j :: 0 <= i < j < |r| ==> r[i] < r[j]
  {
    var list: seq<nat> := [];
    var left := ports;
    while left != {}
      invariant left <= ports
      invariant forall p :: p in list <==> p in ports && p !in left
      invariant forall i, j :: 0 <= i < j < |list| ==> list[i] != list[j]
      decreases |left|
    {
      var p :| p in left;
      left := left - {p};
      list := list + [p];
    }
    r := Sorting.Sort(PortLeq, list);
    Sorting.SameMembers(list, r);
    Sorting.DistinctStaysDistinct(list, r);
    assert forall i, j :: 0 <= i < j < |r| ==> PortLeq(r[i], r[j]);
  }

  method ListNodes(nodes: map<string, NodeStat>) returns (ns: seq<NodeStat>)
    requires forall id :: id in nodes ==> nodes[id].id == id
    ensures ListsNodes(ns, nodes) && Sorting.SortedBy(NodeLeq, ns)
  {
    hide Text.Leq;
    var list: seq<NodeStat> := [];
    var left := nodes.Keys;
    while left != {}
      invariant left <= nodes.Keys
      invariant forall id :: id in nodes && id !in left ==> nodes[id] in list
      invariant forall n :: n in list ==> n.id in nodes && n.id !in left && nodes[n.id] == n
      invariant forall i, j :: 0 <= i < j < |list| ==> list[i].id != list[j].id
      decreases |left|
    {
      var id :| id in left;
      left := left - {id};
      list := list + [nodes[id]];
    }
    NodesCompare();
    ns := Sorting.Sort(NodeLeq, list);
    Sorting.SameMembers(list, ns);
    NodesStayDistinct(list, ns, nodes);
  }

  lemma NodesCompare()
    ensures Sorting.TotalPreorder(NodeLeq)
  {
    Text.LeqIsTotalPreorder();
    hide Text.Leq;
  }

  lemma NodesStayDistinct(xs: seq<NodeStat>, ys: seq<NodeStat>, nodes: map<string, NodeStat>)
    requires multiset(xs) == multiset(ys) && forall n :: n in xs <==> n in ys
    requires forall n :: n in xs ==> n.id in nodes && nodes[n.id] == n
    requires forall i, j :: 0 <= i < j < |xs| ==> xs[i].id != xs[j].id
    ensures forall i, j :: 0 <= i < j < |ys| ==> ys[i].id != ys[j].id
  {
    Sorting.DistinctStaysDistinct(xs, ys);
    forall i, j | 0 <= i < j < |ys| ensures ys[i].id != ys[j].id {
      assert ys[i] in xs && ys[j] in xs;
    }
  }

  method ListEdges(edges: map<string, EdgeStat>) returns (es: seq<EdgeView>)
    requires forall k :: k in edges ==> k == edges[k].source + "->" + edges[k].target
    ensures ListsEdges(es, edges) && Sorting.SortedBy(EdgeLeq, es)
  {
    hide Text.Leq, Shows, ShownIn;
    var list: seq<EdgeView> := [];
    var left := edges.Keys;
    while left != {}
      invariant left <= edges.Keys
      invariant forall k :: k in edges && k !in left ==> ShownIn(list, edges[k])
      invariant forall v :: v in list ==> KeyOf(v) in edges && KeyOf(v) !in left && Shows(v, edges[KeyOf(v)])
      invariant forall i, j :: 0 <= i < j < |list| ==> KeyOf(list[i]) != KeyOf(list[j])
      decreases |left|
    {
      var k :| k in left;
      left := left - {k};
      var v := View(edges[k]);
      OneMoreShown(list, v, edges[k]);
      list := list + [v];
    }
    EdgesCompare();
    es := Sorting.Sort(EdgeLeq, list);
    EdgesStayListed(list, es, edges);
  }

  method View(e: EdgeStat) returns (v: EdgeView)
    ensures Shows(v, e) && KeyOf(v) == e.source + "->" + e.target
  {
    var ports := SortedPorts(e.ports);
    v := EdgeView(e.source, e.target, e.forwarded, e.dropped, e.http, e.dns, ports);
  }

  lemma OneMoreShown(es: seq<EdgeView>, v: EdgeView, e: EdgeStat)
    requires Shows(v, e)
    ensures ShownIn(es + [v], e)
    ensures forall x :: ShownIn(es, x) ==> ShownIn(es + [v], x)
  {
    hide Shows;
    assert v in es + [v];
    forall x | ShownIn(es, x) ensures ShownIn(es + [v], x) {
      var y :| y in es && Shows(y, x);
      assert y in es + [v];
    }
  }

  lemma EdgesCompare()
    ensures Sorting.TotalPreorder(EdgeLeq)
  {
    Text.LeqIsTotalPreorder();
    hide Text.Leq;
  }

  lemma KeysStayDistinct(xs: seq<EdgeView>, ys: seq<EdgeView>)
    requires multiset(xs) == multiset(ys)
    requires forall i, j :: 0 <= i < j < |xs| ==> KeyOf(xs[i]) != KeyOf(xs[j])
    ensures forall i, j :: 0 <= i < j < |ys| ==> KeyOf(ys[i]) != KeyOf(ys[j])
  {
    hide KeyOf;
    Sorting.SameMembers(xs, ys);
    Sorting.DistinctStaysDistinct(xs, ys);
    forall i, j | 0 <= i < j < |ys| ensures KeyOf(ys[i]) != KeyOf(ys[j]) {
      assert ys[i] in xs && ys[j] in xs;
      var a :| 0 <= a < |xs| && xs[a] == ys[i];
      var b :| 0 <= b < |xs| && xs[b] == ys[j];
      assert a < b || b < a;
    }
  }

  lemma EdgesStayListed(xs: seq<EdgeView>, ys: seq<EdgeView>, edges: map<string, EdgeStat>)
    requires multiset(xs) == multiset(ys) && ListsEdges(xs, edges)
    ensures ListsEdges(ys, edges)
  {
    hide KeyOf, Shows;
    Sorting.SameMembers(xs, ys);
    KeysStayDistinct(xs, ys);
  }
}
