/**
 Alert routing with suppression (backend/internal/alerts/alerts.go:103-225), and the two suppression
 stages as one machine: 5 s in the aggregator (aggregator.go:271-294), then 60 s in the router.
 Times are in nanoseconds.
 */
module Alerts {
  import opened Option

  const SECOND: int := 1_000_000_000

  datatype Alert = Alert(
    time: int, severity: string, kind: string, title: string, detail: string,
    namespace_: string, workload: string, policy: string)

  function Key(a: Alert, sep: char): string {
    a.kind + [sep] + a.title
  }

  // ----- one suppression stage

  /** Time of the last accepted alert with this key. */
  function LastTime(accepted: seq<Alert>, sep: char, key: string): Option<int> {
    if accepted == [] then None
    else if Key(accepted[|accepted| - 1], sep) == key then Some(accepted[|accepted| - 1].time)
    else LastTime(accepted[..|accepted| - 1], sep, key)
  }

  predicate Fresh(a: Alert, accepted: seq<Alert>, sep: char, window: int) {
    var last := LastTime(accepted, sep, Key(a, sep));
    last.None? || a.time - last.value >= window
  }

  /** The alerts a stage lets through, in order. */
  function Passed(alerts: seq<Alert>, sep: char, window: int): seq<Alert> {
    if alerts == [] then []
    else
      var n := |alerts| - 1;
      var before := Passed(alerts[..n], sep, window);
      if Fresh(alerts[n], before, sep, window) then before + [alerts[n]] else before
  }

  /** The table of last acceptances a stage keeps. */
  ghost predicate Remembers(table: map<string, int>, accepted: seq<Alert>, sep: char) {
    forall key :: LastTime(accepted, sep, key) == if key in table then Some(table[key]) else None
  }

  lemma RemembersOneMore(table: map<string, int>, accepted: seq<Alert>, sep: char, a: Alert)
    requires Remembers(table, accepted, sep)
    ensures Remembers(table[Key(a, sep) := a.time], accepted + [a], sep)
  {
    hide Key;
    assert (accepted + [a])[..|accepted|] == accepted;
  }

  lemma PassedOneMore(alerts: seq<Alert>, a: Alert, sep: char, window: int)
    ensures Passed(alerts + [a], sep, window) ==
            Passed(alerts, sep, window) + if Fresh(a, Passed(alerts, sep, window), sep, window) then [a] else []
  {
    assert (alerts + [a])[..|alerts|] == alerts;
    assert Passed(alerts, sep, window) + [] == Passed(alerts, sep, window);
  }

  // ----- packing

  /** Of each key, each acceptance is at least a window after the one before it. */
  ghost predicate Packed(accepted: seq<Alert>, sep: char, window: int) {
    forall i, j :: 0 <= i < j < |accepted| && Key(accepted[i], sep) == Key(accepted[j], sep) ==>
      accepted[j].time - accepted[i].time >= window
  }

  lemma {:induction false} LastTimeIsLast(accepted: seq<Alert>, sep: char, key: string)
    ensures LastTime(accepted, sep, key).Some? <==> exists i :: 0 <= i < |accepted| && Key(accepted[i], sep) == key
    ensures LastTime(accepted, sep, key).Some? ==>
              exists i :: && 0 <= i < |accepted| && Key(accepted[i], sep) == key
                          && accepted[i].time == LastTime(accepted, sep, key).value
                          && forall j :: i < j < |accepted| ==> Key(accepted[j], sep) != key
  {
    hide Key;
    if accepted != [] {
      var n := |accepted| - 1;
      LastTimeIsLast(accepted[..n], sep, key);
      if Key(accepted[n], sep) != key && LastTime(accepted[..n], sep, key).Some? {
        var i :| && 0 <= i < n && Key(accepted[..n][i], sep) == key
                 && accepted[..n][i].time == LastTime(accepted[..n], sep, key).value
                 && forall j :: i < j < n ==> Key(accepted[..n][j], sep) != key;
        assert accepted[i] == accepted[..n][i];
        assert forall j :: i < j < n ==> accepted[..n][j] == accepted[j];
      }
    }
  }

  /** Whatever order alerts arrive in, a stage packs what it lets through. */
  lemma {:induction false} StagePacks(alerts: seq<Alert>, sep: char, window: int)
    requires window >= 0
    ensures Packed(Passed(alerts, sep, window), sep, window)
  {
    hide Key;
    if alerts != [] {
      var n := |alerts| - 1;
      var before := Passed(alerts[..n], sep, window);
      StagePacks(alerts[..n], sep, window);
      if Fresh(alerts[n], before, sep, window) {
        FreshPacks(before, alerts[n], sep, window);
      }
    }
  }

  lemma FreshPacks(before: seq<Alert>, a: Alert, sep: char, window: int)
    requires window >= 0 && Packed(before, sep, window) && Fresh(a, before, sep, window)
    ensures Packed(before + [a], sep, window)
  {
    hide Key;
    var key := Key(a, sep);
    LastTimeIsLast(before, sep, key);
    forall i | 0 <= i < |before| && Key(before[i], sep) == key ensures a.time - before[i].time >= window {
      var k :| 0 <= k < |before| && Key(before[k], sep) == key && before[k].time == LastTime(before, sep, key).value
               && forall j :: k < j < |before| ==> Key(before[j], sep) != key;
      assert i <= k;
    }
  }

  // ----- covering

  ghost predicate NeverBackwards(alerts: seq<Alert>) {
    forall i, j :: 0 <= i < j < |alerts| ==> alerts[i].time <= alerts[j].time
  }

  lemma {:induction false} PassedIsIn(alerts: seq<Alert>, sep: char, window: int)
    ensures forall a :: a in Passed(alerts, sep, window) ==> a in alerts
    ensures NeverBackwards(alerts) ==> NeverBackwards(Passed(alerts, sep, window))
  {
    hide Fresh;
    if alerts != [] {
      var n := |alerts| - 1;
      var before := Passed(alerts[..n], sep, window);
      PassedIsIn(alerts[..n], sep, window);
      assert alerts == alerts[..n] + [alerts[n]];
      if NeverBackwards(alerts) {
        forall i | 0 <= i < |before| ensures before[i].time <= alerts[n].time {
          assert before[i] in before;
        }
      }
    }
  }

  /** Every alert has an accepted alert of its key less than a window before it. */
  lemma {:induction false} StageCovers(alerts: seq<Alert>, sep: char, window: int, a: Alert)
    requires window > 0 && NeverBackwards(alerts) && a in alerts
    ensures exists p :: p in Passed(alerts, sep, window) && Key(p, sep) == Key(a, sep) &&
                        a.time - window < p.time <= a.time
  {
    hide Key;
    var n := |alerts| - 1;
    var before, all := Passed(alerts[..n], sep, window), Passed(alerts, sep, window);
    assert alerts == alerts[..n] + [alerts[n]];
    if a in alerts[..n] {
      StageCovers(alerts[..n], sep, window, a);
      var p :| p in before && Key(p, sep) == Key(a, sep) && a.time - window < p.time <= a.time;
      assert p in all;
    } else if Fresh(alerts[n], before, sep, window) {
      assert all[|all| - 1] == a;
      assert a in all;
    } else {
      LastTimeIsLast(before, sep, Key(a, sep));
      var i :| 0 <= i < |before| && Key(before[i], sep) == Key(a, sep)
               && before[i].time == LastTime(before, sep, Key(a, sep)).value;
      PassedIsIn(alerts[..n], sep, window);
      assert before[i] in before && before[i] in alerts[..n];
      var k :| 0 <= k < n && alerts[..n][k] == before[i];
      assert alerts[k].time <= alerts[n].time;
    }
  }

  // ----- keys

  lemma StartsWithSeparator(a: string, x: string, sep: char)
    requires sep !in a
    ensures (a + [sep] + x)[0] == sep <==> a == ""
    ensures a == "" ==> (a + [sep] + x)[1..] == x
  {
  }

  lemma {:induction false} SplitAtSeparator(a: string, x: string, b: string, y: string, sep: char)
    requires sep !in a && sep !in b && a + [sep] + x == b + [sep] + y
    ensures a == b && x == y
  {
    var s := a + [sep] + x;
    if a == "" || b == "" {
      StartsWithSeparator(a, x, sep);
      StartsWithSeparator(b, y, sep);
    } else {
      assert a[0] == s[0] == (b + [sep] + y)[0] == b[0];
      assert s[1..] == a[1..] + [sep] + x;
      assert (b + [sep] + y)[1..] == b[1..] + [sep] + y;
      SplitAtSeparator(a[1..], x, b[1..], y, sep);
      assert a == [a[0]] + a[1..] && b == [b[0]] + b[1..];
    }
  }

  /** For kinds without the separator, alerts share a key exactly when they share kind and title. */
  lemma KeyIsKindAndTitle(a: Alert, b: Alert, sep: char)
    requires sep !in a.kind && sep !in b.kind
    ensures Key(a, sep) == Key(b, sep) <==> a.kind == b.kind && a.title == b.title
  {
    if Key(a, sep) == Key(b, sep) {
      SplitAtSeparator(a.kind, a.title, b.kind, b.title, sep);
    }
  }

  /** A key of the one kind can be a key of the other. */
  ghost predicate KeysMeet(k: string, l: string, sep: char) {
    exists x, y :: k + [sep] + x == l + [sep] + y
  }

  /** Different kinds share keys exactly when one of them, with the separator after it, begins the other. */
  lemma KeysMeetExactly(k: string, l: string, sep: char)
    requires k != l
    ensures KeysMeet(k, l, sep) <==> k + [sep] <= l || l + [sep] <= k
  {
    if x, y :| k + [sep] + x == l + [sep] + y {
      Overlap(k, x, l, y, sep);
    }
    if k + [sep] <= l {
      BeginsMeets(k, l, sep);
    }
    if l + [sep] <= k {
      BeginsMeets(l, k, sep);
      var x, y :| l + [sep] + x == k + [sep] + y;
      assert k + [sep] + y == l + [sep] + x;
    }
  }

  lemma BeginsMeets(k: string, l: string, sep: char)
    requires k + [sep] <= l
    ensures KeysMeet(k, l, sep)
  {
    var x := l[|k| + 1..] + [sep];
    assert l == k + [sep] + l[|k| + 1..];
    assert k + [sep] + x == l + [sep] + "";
  }

  lemma Overlap(k: string, x: string, l: string, y: string, sep: char)
    requires k != l && k + [sep] + x == l + [sep] + y
    ensures k + [sep] <= l || l + [sep] <= k
  {
    var s := k + [sep] + x;
    assert s[..|k|] == k && s[..|l|] == l && s[|k|] == sep && s[|l|] == sep;
    assert |k| < |l| ==> s[..|l|][..|k| + 1] == s[..|k| + 1] == k + [sep];
    assert |l| < |k| ==> s[..|k|][..|l| + 1] == s[..|l| + 1] == l + [sep];
  }

  // ----- both stages

  const AGGREGATOR_WINDOW: int := 5 * SECOND
  const ROUTER_WINDOW: int := 60 * SECOND

  /** What the router sends out of what is raised. */
  function Dispatched(raised: seq<Alert>): seq<Alert> {
    Passed(Passed(raised, '/', AGGREGATOR_WINDOW), '|', ROUTER_WINDOW)
  }

  /** Kinds, as the console names them, hold neither separator. */
  predicate PlainKind(a: Alert) {
    '/' !in a.kind && '|' !in a.kind
  }

  predicate SameSubject(a: Alert, b: Alert) {
    a.kind == b.kind && a.title == b.title
  }

  /** What is sent about one subject is at least a minute apart, in any order of arrival. */
  lemma DispatchPacks(raised: seq<Alert>)
    requires forall a :: a in raised ==> PlainKind(a)
    ensures var sent := Dispatched(raised);
            forall i, j :: 0 <= i < j < |sent| && SameSubject(sent[i], sent[j]) ==>
              sent[j].time - sent[i].time >= 60_000_000_000
  {
    StagePacks(Passed(raised, '/', AGGREGATOR_WINDOW), '|', ROUTER_WINDOW);
  }

  /** Whatever is raised, something about it was sent less than 65 seconds before, or at that very time. */
  lemma DispatchCovers(raised: seq<Alert>, a: Alert)
    requires NeverBackwards(raised) && a in raised && forall x :: x in raised ==> PlainKind(x)
    ensures exists p :: p in Dispatched(raised) && SameSubject(p, a) && a.time - 65_000_000_000 < p.time <= a.time
  {
    hide Key, Passed;
    var stored := Passed(raised, '/', AGGREGATOR_WINDOW);
    PassedIsIn(raised, '/', AGGREGATOR_WINDOW);
    PassedIsIn(stored, '|', ROUTER_WINDOW);
    StageCovers(raised, '/', AGGREGATOR_WINDOW, a);
    var s :| s in stored && Key(s, '/') == Key(a, '/') && a.time - AGGREGATOR_WINDOW < s.time <= a.time;
    StageCovers(stored, '|', ROUTER_WINDOW, s);
    var p :| p in Passed(stored, '|', ROUTER_WINDOW) && Key(p, '|') == Key(s, '|') &&
      s.time - ROUTER_WINDOW < p.time <= s.time;
    KeyIsKindAndTitle(s, a, '/');
    KeyIsKindAndTitle(p, s, '|');
  }

  // ----- the router

  datatype Route = Route(
    id: string, sink: string, url: string, target: string, format: string,
    minSeverity: string, kinds: seq<string>, enabled: bool, namespaces: seq<string>)
  {
    predicate Takes(a: Alert) {
      && enabled
      && SeverityRank(a.severity) >= SeverityRank(minSeverity)
      && (kinds != [] ==> a.kind in kinds)
      && (namespaces != [] && a.namespace_ != "" ==> a.namespace_ in namespaces)
    }
  }

  function SeverityRank(s: string): nat {
    if s == "critical" then 2 else 1
  }

  /** The routes that take an alert, in the order of the table. */
  function Taking(routes: seq<Route>, a: Alert): seq<Route> {
    if routes == [] then []
    else Taking(routes[..|routes| - 1], a) + if routes[|routes| - 1].Takes(a) then [routes[|routes| - 1]] else []
  }

  /**
   A route takes an alert exactly when it is enabled, the alert is critical if only such are wanted, and its kind and
   namespace are listed where a list is given; an alert without namespace passes any list of those.
   */
  lemma {:induction false} TakingExactly(routes: seq<Route>, a: Alert, r: Route)
    ensures r in Taking(routes, a) <==>
            && r in routes && r.enabled
            && (r.minSeverity == "critical" ==> a.severity == "critical")
            && (r.kinds == [] || a.kind in r.kinds)
            && (r.namespaces == [] || a.namespace_ == "" || a.namespace_ in r.namespaces)
  {
    if routes != [] {
      TakingExactly(routes[..|routes| - 1], a, r);
      assert routes == routes[..|routes| - 1] + [routes[|routes| - 1]];
    }
  }

  class Router {
    var routes: seq<Route>
    var lastSent: map<string, int>
    var suppressed: nat
    /** Every alert that was dispatched. */
    ghost var log: seq<Alert>

    ghost predicate Valid()
      reads this
    {
      && Remembers(lastSent, Passed(log, '|', ROUTER_WINDOW), '|')
      && suppressed + |Passed(log, '|', ROUTER_WINDOW)| == |log|
    }

    constructor ()
      ensures Valid() && log == [] && routes == []
    {
      routes, lastSent, suppressed, log := [], map[], 0, [];
    }

    method SetRoutes(rs: seq<Route>)
      requires Valid()
      modifies this`routes
      ensures Valid() && routes == rs
    {
      routes := rs;
    }

    /** The routes an alert is delivered on: those that take it, unless its key was sent within the window. */
    method Dispatch(a: Alert) returns (targets: seq<Route>, sent: bool)
      requires Valid()
      modifies this`lastSent, this`suppressed, this`log
      ensures Valid() && log == old(log) + [a]
      ensures sent <==> Fresh(a, old(Passed(log, '|', ROUTER_WINDOW)), '|', 60_000_000_000)
      ensures Passed(log, '|', ROUTER_WINDOW) == old(Passed(log, '|', ROUTER_WINDOW)) + if sent then [a] else []
      ensures targets == if sent then Taking(routes, a) else []
    {
      hide LastTime, Key, Passed;
      PassedOneMore(log, a, '|', ROUTER_WINDOW);
      RemembersOneMore(lastSent, Passed(log, '|', ROUTER_WINDOW), '|', a);
      ghost var before := Passed(log, '|', ROUTER_WINDOW);
      assert before + [] == before;
      log := log + [a];
      targets := [];
      var key := Key(a, '|');
      assert LastTime(before, '|', key) == if key in lastSent then Some(lastSent[key]) else None;
      if key in lastSent && a.time - lastSent[key] < ROUTER_WINDOW {
        suppressed := suppressed + 1;
        return [], false;
      }
      lastSent := lastSent[key := a.time];
      for i := 0 to |routes|
        invariant targets == Taking(routes[..i], a)
      {
        assert routes[..i + 1][..i] == routes[..i];
        if !routes[i].Takes(a) {
          continue;
        }
        targets := targets + [routes[i]];
      }
      assert routes[..|routes|] == routes;
      return targets, true;
    }
  }
}
