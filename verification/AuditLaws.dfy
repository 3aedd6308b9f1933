/**
 What the difference of two manifests reports (backend/internal/audit/audit.go:168-251): every leaf that differs,
 under its dotted path, with what it was and what it is.
 */
module AuditLaws {
  import opened Audit
  import opened Json
  import Encoding
  import Text

  datatype Step = Key(k: string) | Index(i: nat)

  /** A path that exists on both sides up to its last step, where a missing member reads as null. */
  ghost predicate Leads(a: Json, b: Json, path: seq<Step>, x: Json, y: Json)
    decreases |path|
  {
    if path == [] then x == a && y == b
    else match path[0]
      case Key(k) =>
        && a.Obj? && b.Obj? && (k in a.fields || k in b.fields)
        && k !in {"resourceVersion", "generation", "managedFields", "uid"}
        && Leads(Get(a.fields, k), Get(b.fields, k), path[1..], x, y)
      case Index(i) =>
        a.Arr? && b.Arr? && i < |a.items| && |a.items| == |b.items| && Leads(a.items[i], b.items[i], path[1..], x, y)
  }

  /** Keys are joined by dots, positions stand in brackets. */
  function Dotted(prefix: string, path: seq<Step>): string
    decreases |path|
  {
    if path == [] then prefix
    else match path[0]
      case Key(k) => Dotted(if prefix == "" then k else prefix + "." + k, path[1..])
      case Index(i) => Dotted(prefix + "[" + Text.Digits(i) + "]", path[1..])
  }

  /** A value as it is shown: absent, or its text, cut after eighty characters. */
  function Shown(v: Json): string {
    var text := Encoding.Marshal(v);
    if v == Null then "(absent)" else if |text| <= 80 then text else text[..80] + "\U{2026}"
  }

  /** What is reported of two values under a path, if anything is. */
  predicate Reports(line: string, path: string, x: Json, y: Json) {
    match x
    case Obj(_) => !y.Obj? && line == path + ": replaced"
    case Arr(_) => (!y.Arr? || |x.items| != |y.items|) && line == path + ": list changed"
    case _ => Encoding.Marshal(x) != Encoding.Marshal(y) && line == path + ": " + Shown(x) + " \U{2192} " + Shown(y)
  }

  ghost predicate ReportedBelow(line: string, prefix: string, a: Json, b: Json) {
    exists path, x, y :: Leads(a, b, path, x, y) && Reports(line, Dotted(prefix, path), x, y)
  }

  lemma LeafReports(line: string, path: string, x: Json, y: Json)
    requires !x.Obj? && !x.Arr?
    ensures line in LeafLines(path, x, y) <==> Reports(line, path, x, y)
  {
    hide Encoding.Marshal;
  }

  /** Through a member. */
  lemma BelowMember(line: string, prefix: string, a: Json, b: Json, k: string)
    requires a.Obj? && b.Obj? && (k in a.fields || k in b.fields)
    requires k !in {"resourceVersion", "generation", "managedFields", "uid"}
    requires ReportedBelow(line, if prefix == "" then k else prefix + "." + k, Get(a.fields, k), Get(b.fields, k))
    ensures ReportedBelow(line, prefix, a, b)
  {
    hide Reports;
    var at := if prefix == "" then k else prefix + "." + k;
    var path, x, y :| Leads(Get(a.fields, k), Get(b.fields, k), path, x, y) && Reports(line, Dotted(at, path), x, y);
    var longer := [Key(k)] + path;
    assert longer[1..] == path;
    assert Leads(a, b, longer, x, y) && Dotted(prefix, longer) == Dotted(at, path);
  }

  lemma BelowItem(line: string, prefix: string, a: Json, b: Json, i: nat)
    requires a.Arr? && b.Arr? && i < |a.items| && |a.items| == |b.items|
    requires ReportedBelow(line, prefix + "[" + Text.Digits(i) + "]", a.items[i], b.items[i])
    ensures ReportedBelow(line, prefix, a, b)
  {
    hide Reports;
    var at := prefix + "[" + Text.Digits(i) + "]";
    var path, x, y :| Leads(a.items[i], b.items[i], path, x, y) && Reports(line, Dotted(at, path), x, y);
    var longer := [Index(i)] + path;
    assert longer[1..] == path;
    assert Leads(a, b, longer, x, y) && Dotted(prefix, longer) == Dotted(at, path);
  }

  lemma Here(line: string, prefix: string, a: Json, b: Json)
    requires Reports(line, prefix, a, b)
    ensures ReportedBelow(line, prefix, a, b)
  {
    hide Reports;
    assert Leads(a, b, [], a, b) && Dotted(prefix, []) == prefix;
  }

  /** Every line is about a path. */
  lemma {:induction false} LineHasPath(line: string, prefix: string, a: Json, b: Json)
    requires line in Lines(prefix, a, b)
    ensures ReportedBelow(line, prefix, a, b)
    decreases a
  {
    hide ReportedBelow, Encoding.Marshal;
    if a.Obj? && b.Obj? {
      var k :| k in a.fields.Keys + b.fields.Keys && line in MemberLines(prefix, a, b, k);
      MemberLinesIs(prefix, a, b, k);
      if k in a.fields {
        LineHasPath(line, Join(prefix, k), a.fields[k], Get(b.fields, k));
      } else {
        LeafReports(line, Join(prefix, k), Null, Get(b.fields, k));
        Here(line, Join(prefix, k), Null, Get(b.fields, k));
      }
      BelowMember(line, prefix, a, b, k);
    } else if a.Arr? && b.Arr? && |a.items| == |b.items| {
      var i :| 0 <= i < |a.items| && line in Lines(At(prefix, i), a.items[i], b.items[i]);
      LineHasPath(line, At(prefix, i), a.items[i], b.items[i]);
      BelowItem(line, prefix, a, b, i);
    } else {
      OneLine(line, prefix, a, b);
      Here(line, prefix, a, b);
    }
  }

  lemma OneLine(line: string, prefix: string, a: Json, b: Json)
    requires !(a.Obj? && b.Obj?) && !(a.Arr? && b.Arr? && |a.items| == |b.items|)
    ensures line in Lines(prefix, a, b) <==> Reports(line, prefix, a, b)
  {
    hide Encoding.Marshal;
  }

  /** What is to be reported at a path has its line. */
  lemma {:induction false} PathHasLine(line: string, prefix: string, a: Json, b: Json, path: seq<Step>, x: Json,
                                       y: Json)
    requires Leads(a, b, path, x, y) && Reports(line, Dotted(prefix, path), x, y)
    ensures line in Lines(prefix, a, b)
    decreases |path|
  {
    hide Encoding.Marshal;
    if path == [] {
      OneLine(line, prefix, a, b);
    } else {
      match path[0] {
        case Key(k) =>
          MemberLinesIs(prefix, a, b, k);
          if k in a.fields {
            PathHasLine(line, Join(prefix, k), a.fields[k], Get(b.fields, k), path[1..], x, y);
          } else {
            NullLeadsNowhere(b.fields[k], path[1..], x, y);
            LeafReports(line, Join(prefix, k), x, y);
          }
          assert line in MemberLines(prefix, a, b, k);
        case Index(i) =>
          PathHasLine(line, At(prefix, i), a.items[i], b.items[i], path[1..], x, y);
      }
    }
  }

  lemma NullLeadsNowhere(b: Json, path: seq<Step>, x: Json, y: Json)
    requires Leads(Null, b, path, x, y)
    ensures path == [] && x == Null && y == b
  {
  }

  /** The lines are exactly those of the paths at which the manifests differ. */
  lemma LinesExactly(line: string, prefix: string, a: Json, b: Json)
    ensures line in Lines(prefix, a, b) <==> ReportedBelow(line, prefix, a, b)
  {
    hide Lines, Leads, Reports;
    if line in Lines(prefix, a, b) {
      LineHasPath(line, prefix, a, b);
    }
    if path, x, y :| Leads(a, b, path, x, y) && Reports(line, Dotted(prefix, path), x, y) {
      PathHasLine(line, prefix, a, b, path, x, y);
    }
  }
}
