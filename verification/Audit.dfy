/**
 The readable difference of two manifests (`DiffManifests`, backend/internal/audit/audit.go:168-265).
 */
module Audit {
  import opened Json
  import Encoding
  import Sorting
  import Text

  /** Fields the API server manages say nothing about intent. */
  predicate Managed(k: string) {
    k == "resourceVersion" || k == "generation" || k == "managedFields" || k == "uid"
  }

  // ----- what counts as equal

  /** The manifest without managed fields and without null members. */
  function Normal(j: Json): Json {
    match j
    case Arr(items) => Arr(seq(|items|, i requires 0 <= i < |items| => Normal(items[i])))
    case Obj(m) => Obj(map k | k in m && !Managed(k) && m[k] != Null :: Normal(m[k]))
    case _ => j
  }

  // ----- the lines

  predicate EqualScalar(a: Json, b: Json) {
    Encoding.Marshal(a) == Encoding.Marshal(b)
  }

  function Render(v: Json): string {
    var s := Encoding.Marshal(v);
    if v.Null? then "(absent)" else if |s| > 80 then s[..80] + "\U{2026}" else s
  }

  function Join(p: string, k: string): string {
    if p == "" then k else p + "." + k
  }

  /** `itoa`: the digits are written from the last one backwards. */
  method Itoa(n: nat) returns (s: string)
    ensures s == Text.Digits(n)
  {
    if n == 0 {
      assert Text.Digit(0) == '0';
      return "0";
    }
    s := "";
    var i := n;
    while i > 0
      invariant i >= 0
      invariant i > 0 ==> Text.Digits(n) == Text.Digits(i) + s
      invariant i == 0 ==> Text.Digits(n) == s
    {
      s := [Text.Digit(i % 10)] + s;
      i := i / 10;
    }
  }

  function LeafLines(path: string, a: Json, b: Json): set<string> {
    if EqualScalar(a, b) then {} else {path + ": " + Render(a) + " \U{2192} " + Render(b)}
  }

  /** The lines reported below one key; a missing member reads as null. */
  ghost function MemberLines(path: string, a: Json, b: Json, k: string): set<string>
    requires a.Obj? && b.Obj?
    decreases a, 0
  {
    if Managed(k) then {}
    else if k in a.fields then Lines(Join(path, k), a.fields[k], Get(b.fields, k))
    else LeafLines(Join(path, k), Null, Get(b.fields, k))
  }

  ghost function MembersLines(path: string, a: Json, b: Json, ks: set<string>): set<string>
    requires a.Obj? && b.Obj?
    decreases a, 1
  {
    set k, l | k in ks && l in MemberLines(path, a, b, k) :: l
  }

  function At(path: string, i: nat): string {
    path + "[" + Text.Digits(i) + "]"
  }

  /** The lines of the first `n` items of two lists of the same length. */
  ghost function ItemsLines(path: string, a: Json, b: Json, n: nat): set<string>
    requires a.Arr? && b.Arr? && n <= |a.items| == |b.items|
    decreases a, 0
  {
    set i, l | 0 <= i < n && l in Lines(At(path, i), a.items[i], b.items[i]) :: l
  }

  ghost function Lines(path: string, a: Json, b: Json): set<string>
    decreases a, 2
  {
    match a
    case Obj(m) =>
      if !b.Obj? then {path + ": replaced"}
      else MembersLines(path, a, b, m.Keys + b.fields.Keys)
    case Arr(items) =>
      if !b.Arr? || |items| != |b.items| then {path + ": list changed"}
      else ItemsLines(path, a, b, |items|)
    case _ => LeafLines(path, a, b)
  }

  lemma NoMembers(path: string, a: Json, b: Json)
    requires a.Obj? && b.Obj?
    ensures MembersLines(path, a, b, {}) == {}
  {
  }

  lemma OneMoreMember(path: string, a: Json, b: Json, ks: set<string>, k: string)
    requires a.Obj? && b.Obj?
    ensures MembersLines(path, a, b, ks + {k}) == MembersLines(path, a, b, ks) + MemberLines(path, a, b, k)
  {
    hide MemberLines;
  }

  lemma MemberLinesIs(path: string, a: Json, b: Json, k: string)
    requires a.Obj? && b.Obj?
    ensures MemberLines(path, a, b, k) ==
            if Managed(k) then {}
            else if k in a.fields then Lines(Join(path, k), a.fields[k], Get(b.fields, k))
            else LeafLines(Join(path, k), Null, Get(b.fields, k))
  {
  }

  lemma NoItems(path: string, a: Json, b: Json)
    requires a.Arr? && b.Arr? && |a.items| == |b.items|
    ensures ItemsLines(path, a, b, 0) == {}
  {
  }

  lemma OneMoreItem(path: string, a: Json, b: Json, n: nat)
    requires a.Arr? && b.Arr? && n < |a.items| == |b.items|
    ensures ItemsLines(path, a, b, n + 1) == ItemsLines(path, a, b, n) + Lines(At(path, n), a.items[n], b.items[n])
  {
    hide Lines;
  }

  method DiffMembers(path: string, a: Json, b: Json) returns (out: seq<string>)
    requires a.Obj? && b.Obj?
    ensures Text.Members(out) == MembersLines(path, a, b, a.fields.Keys + b.fields.Keys)
    decreases a, 0
  {
    hide LeafLines, MembersLines, MemberLines;
    out := [];
    NoMembers(path, a, b);
    var all := a.fields.Keys + b.fields.Keys;
    var keys := all;
    assert all - keys == {};
    while keys != {}
      invariant keys <= all
      invariant Text.Members(out) == MembersLines(path, a, b, all - keys)
      decreases |keys|
    {
      var k :| k in keys;
      assert all - (keys - {k}) == (all - keys) + {k};
      OneMoreMember(path, a, b, all - keys, k);
      keys := keys - {k};
      var more: seq<string> := [];
      if !Managed(k) {
        if k in a.fields {
          more := DiffValue(Join(path, k), a.fields[k], Get(b.fields, k));
        } else {
          more := DiffLeaf(Join(path, k), Null, Get(b.fields, k));
        }
      }
      MemberLinesIs(path, a, b, k);
      out := out + more;
    }
    assert all - {} == all;
  }

  method DiffItems(path: string, a: Json, b: Json) returns (out: seq<string>)
    requires a.Arr? && b.Arr? && |a.items| == |b.items|
    ensures Text.Members(out) == ItemsLines(path, a, b, |a.items|)
    decreases a, 0
  {
    hide Lines, ItemsLines;
    out := [];
    NoItems(path, a, b);
    for i := 0 to |a.items|
      invariant Text.Members(out) == ItemsLines(path, a, b, i)
    {
      var index := Itoa(i);
      var more := DiffValue(path + "[" + index + "]", a.items[i], b.items[i]);
      OneMoreItem(path, a, b, i);
      out := out + more;
    }
  }

  method DiffLeaf(path: string, a: Json, b: Json) returns (out: seq<string>)
    ensures Text.Members(out) == LeafLines(path, a, b)
  {
    if !EqualScalar(a, b) {
      return [path + ": " + Render(a) + " \U{2192} " + Render(b)];
    }
    return [];
  }

  method DiffValue(path: string, a: Json, b: Json) returns (out: seq<string>)
    ensures Text.Members(out) == Lines(path, a, b)
    decreases a, 1
  {
    match a
    case Obj(m) =>
      if !b.Obj? {
        return [path + ": replaced"];
      }
      out := DiffMembers(path, a, b);
    case Arr(items) =>
      if !b.Arr? || |items| != |b.items| {
        return [path + ": list changed"];
      }
      out := DiffItems(path, a, b);
    case _ =>
      out := DiffLeaf(path, a, b);
  }

  /** The report is sorted, and cut after sixty lines with a line that says so. */
  method DiffManifests(before: Json, after: Json) returns (out: seq<string>)
    ensures out == [] <==> Normal(before) == Normal(after)
    ensures |out| <= 61
    ensures |out| <= 60 ==> Text.Members(out) == Lines("", before, after) && Sorting.SortedBy(Text.Leq, out)
    ensures |out| == 61 ==> out[60] == "\U{2026} and more" && Text.Members(out[..60]) <= Lines("", before, after)
                            && Sorting.SortedBy(Text.Leq, out[..60])
  {
    hide Lines, Normal;
    var lines := DiffValue("", before, after);
    Text.LeqIsTotalPreorder();
    out := Sorting.Sort(Text.Leq, lines);
    Sorting.SameMembers(out, lines);
    Text.MembersAgree(out, lines);
    NoLinesExactly("", before, after);
    assert out == [] || out[0] in Text.Members(out);
    if |out| > 60 {
      out := out[..60] + ["\U{2026} and more"];
    }
  }

  // ----- no lines exactly when equal after normalising

  lemma NormalOfLists(xs: seq<Json>, ys: seq<Json>)
    requires |xs| == |ys|
    ensures Normal(Arr(xs)) == Normal(Arr(ys)) <==> forall i :: 0 <= i < |xs| ==> Normal(xs[i]) == Normal(ys[i])
  {
    var a, b := Normal(Arr(xs)).items, Normal(Arr(ys)).items;
    assert forall i :: 0 <= i < |xs| ==> a[i] == Normal(xs[i]) && b[i] == Normal(ys[i]);
    assert a == b <==> forall i :: 0 <= i < |xs| ==> a[i] == b[i];
  }

  lemma NormalOfMaps(m: map<string, Json>, n: map<string, Json>)
    ensures Normal(Obj(m)) == Normal(Obj(n)) <==>
            forall k :: k in m.Keys + n.Keys && !Managed(k) ==> Normal(Get(m, k)) == Normal(Get(n, k))
  {
    var a, b := Normal(Obj(m)).fields, Normal(Obj(n)).fields;
    forall k ensures !Managed(k) ==> (Get(a, k) == Normal(Get(m, k)) && (k in a <==> Get(a, k) != Null)) {
    }
    forall k ensures !Managed(k) ==> (Get(b, k) == Normal(Get(n, k)) && (k in b <==> Get(b, k) != Null)) {
    }
    if forall k :: k in m.Keys + n.Keys && !Managed(k) ==> Normal(Get(m, k)) == Normal(Get(n, k)) {
      forall k ensures (k in a <==> k in b) && (k in a ==> a[k] == b[k]) {
        if k in m.Keys + n.Keys && !Managed(k) {
          assert Get(a, k) == Get(b, k);
        }
      }
      assert a == b;
    }
  }

  lemma LeafExactly(path: string, a: Json, b: Json)
    requires !a.Obj? && !a.Arr?
    ensures LeafLines(path, a, b) == {} <==> Normal(a) == Normal(b)
  {
    hide Encoding.Marshal, Render;
    Encoding.MarshalScalarInjective(a, b);
  }

  /** Nothing is reported exactly when both sides are equal without managed fields and nulls. */
  lemma {:induction false} NoLinesExactly(path: string, a: Json, b: Json)
    ensures Lines(path, a, b) == {} <==> Normal(a) == Normal(b)
    decreases a
  {
    hide Normal, LeafLines;
    match a {
      case Obj(m) =>
        if b.Obj? {
          var n := b.fields;
          forall k | k in m.Keys + n.Keys && !Managed(k)
            ensures MemberLines(path, a, b, k) == {} <==> Normal(Get(m, k)) == Normal(Get(n, k))
          {
            if k in m {
              NoLinesExactly(Join(path, k), m[k], Get(n, k));
            } else {
              LeafExactly(Join(path, k), Null, Get(n, k));
            }
          }
          NormalOfMaps(m, n);
          LinesOfMembers(path, a, b);
        } else {
          NormalShape(a, b);
        }
      case Arr(items) =>
        if b.Arr? && |items| == |b.items| {
          forall i | 0 <= i < |items|
            ensures Lines(At(path, i), items[i], b.items[i]) == {} <==> Normal(items[i]) == Normal(b.items[i])
          {
            NoLinesExactly(At(path, i), items[i], b.items[i]);
          }
          NormalOfLists(items, b.items);
        } else {
          NormalShape(a, b);
        }
      case _ => LeafExactly(path, a, b);
    }
  }

  lemma LinesOfMembers(path: string, a: Json, b: Json)
    requires a.Obj? && b.Obj?
    ensures Lines(path, a, b) == {} <==>
            forall k :: k in a.fields.Keys + b.fields.Keys ==> MemberLines(path, a, b, k) == {}
  {
    hide MemberLines;
    var ls := MembersLines(path, a, b, a.fields.Keys + b.fields.Keys);
    assert Lines(path, a, b) == ls;
    forall k, l | k in a.fields.Keys + b.fields.Keys && l in MemberLines(path, a, b, k) ensures l in ls {
    }
  }

  lemma NormalShape(a: Json, b: Json)
    ensures a.Obj? != b.Obj? ==> Normal(a) != Normal(b)
    ensures a.Arr? != b.Arr? ==> Normal(a) != Normal(b)
    ensures a.Arr? && b.Arr? && |a.items| != |b.items| ==> Normal(a) != Normal(b)
  {
    assert a.Arr? ==> |Normal(a).items| == |a.items|;
    assert b.Arr? ==> |Normal(b).items| == |b.items|;
  }
}
