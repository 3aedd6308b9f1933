/**
 The bounded in-memory history (backend/internal/store/store.go:35-85), set against the log of
 everything that was ever saved. Absent time bounds stand for Go's zero time.
 */
module Store {
  import opened Option
  import opened Recent
  import Sorting

  datatype Record = Record(time: int, payload: string)

  // ----- queries as functions of a list of records

  predicate InRange(r: Record, since: Option<int>, until: Option<int>) {
    !(since.Some? && r.time < since.value) && !(until.Some? && r.time > until.value)
  }

  function Filter(rs: seq<Record>, since: Option<int>, until: Option<int>): seq<Record> {
    if rs == [] then []
    else
      var n := |rs| - 1;
      Filter(rs[..n], since, until) + (if InRange(rs[n], since, until) then [rs[n]] else [])
  }

  /** Both bounds count as inside. */
  lemma {:induction false} FilterExactly(rs: seq<Record>, since: Option<int>, until: Option<int>, r: Record)
    ensures r in Filter(rs, since, until) <==>
            r in rs && (since.Some? ==> since.value <= r.time) && (until.Some? ==> r.time <= until.value)
  {
    if rs != [] {
      FilterExactly(rs[..|rs| - 1], since, until, r);
      assert rs == rs[..|rs| - 1] + [rs[|rs| - 1]];
    }
  }

  predicate NewerFirst(a: Record, b: Record) {
    a.time >= b.time
  }

  function Cut(rs: seq<Record>, limit: int): seq<Record> {
    if 0 < limit < |rs| then rs[..limit] else rs
  }

  /** Some arrangement of the matching records, newest first, cut to the limit. */
  ghost predicate Answers(out: seq<Record>, rs: seq<Record>, since: Option<int>, until: Option<int>, limit: int) {
    exists all :: && multiset(all) == multiset(Filter(rs, since, until))
                  && Sorting.SortedBy(NewerFirst, all)
                  && out == Cut(all, limit)
  }

  method Matching(rs: seq<Record>, since: Option<int>, until: Option<int>) returns (out: seq<Record>)
    ensures out == Filter(rs, since, until)
  {
    out := [];
    for i := 0 to |rs|
      invariant out == Filter(rs[..i], since, until)
    {
      assert rs[..i + 1][..i] == rs[..i];
      var r := rs[i];
      if (since.Some? && r.time < since.value) || (until.Some? && r.time > until.value) {
        continue;
      }
      out := out + [r];
    }
    assert rs[..|rs|] == rs;
  }

  class MemoryStore {
    const cap: nat
    var data: map<string, seq<Record>>
    /** Everything saved since the store was made. */
    ghost var log: map<string, seq<Record>>

    ghost predicate Valid()
      reads this
    {
      cap > 0 && data.Keys == log.Keys && forall k :: k in data ==> data[k] == Suffix(log[k], cap)
    }

    constructor (capPerKind: int)
      ensures Valid() && data == map[] && log == map[]
      ensures cap == if capPerKind <= 0 then 5000 else capPerKind
    {
      cap := if capPerKind <= 0 then 5000 else capPerKind;
      data, log := map[], map[];
    }

    function Stored(kind: string): seq<Record>
      reads this
    {
      if kind in data then data[kind] else []
    }

    ghost function Logged(kind: string): seq<Record>
      reads this
    {
      if kind in log then log[kind] else []
    }

    method Save(kind: string, t: int, payload: string)
      requires Valid()
      modifies this
      ensures Valid()
      ensures Logged(kind) == old(Logged(kind)) + [Record(t, payload)]
      ensures forall k :: k != kind ==> Logged(k) == old(Logged(k)) && Stored(k) == old(Stored(k))
    {
      assert Stored(kind) == Suffix(Logged(kind), cap);
      var s := Push(Stored(kind), cap, Record(t, payload));
      log := log[kind := Logged(kind) + [Record(t, payload)]];
      data := data[kind := s];
    }

    lemma StoredIsSuffix(kind: string)
      requires Valid()
      ensures Stored(kind) == Suffix(Logged(kind), cap)
    {
    }

    /**
     The answer over what is kept. When the times of this kind strictly increase it is also the answer
     over the whole log, exactly if nothing that was dropped matches or the limit is used up.
     */
    method Query(kind: string, since: Option<int>, until: Option<int>, limit: int) returns (out: seq<Record>)
      requires Valid()
      ensures Answers(out, Stored(kind), since, until, limit)
      ensures Increasing(Logged(kind)) ==>
                (Answers(out, Logged(kind), since, until, limit) <==>
                 KeepsAnswer(Logged(kind), cap, since, until, limit))
      ensures Increasing(Logged(kind)) && until.None? && 1 <= limit <= cap ==>
                Answers(out, Logged(kind), since, until, limit)
    {
      hide Filter, KeepsAnswer, Suffix;
      var rs := Stored(kind);
      out := Matching(rs, since, until);
      out := Sorting.Sort(NewerFirst, out);
      if limit > 0 && |out| > limit {
        out := out[..limit];
      }
      assert rs == Suffix(Logged(kind), cap) by {
        StoredIsSuffix(kind);
      }
      if Increasing(Logged(kind)) {
        KeptAnswerAgrees(Logged(kind), cap, since, until, limit, out);
        if until.None? && 1 <= limit <= cap {
          OpenEndedAnswerKept(Logged(kind), cap, since, limit);
        }
      }
    }
  }

  // ----- bounded and unbounded answers

  predicate Increasing(rs: seq<Record>) {
    forall i, j :: 0 <= i < j < |rs| ==> rs[i].time < rs[j].time
  }

  /** No dropped record matches, or the limit is reached within what is kept. */
  predicate KeepsAnswer(log: seq<Record>, cap: nat, since: Option<int>, until: Option<int>, limit: int) {
    Filter(log[..|log| - |Suffix(log, cap)|], since, until) == []
    || 0 < limit <= |Filter(Suffix(log, cap), since, until)|
  }

  function Reverse(rs: seq<Record>): seq<Record> {
    if rs == [] then [] else [rs[|rs| - 1]] + Reverse(rs[..|rs| - 1])
  }

  lemma {:induction false} ReverseIs(rs: seq<Record>)
    ensures |Reverse(rs)| == |rs|
    ensures forall i :: 0 <= i < |rs| ==> Reverse(rs)[i] == rs[|rs| - 1 - i]
  {
    if rs != [] {
      ReverseIs(rs[..|rs| - 1]);
    }
  }

  lemma {:induction false} ReversePermutes(rs: seq<Record>)
    ensures multiset(Reverse(rs)) == multiset(rs)
  {
    if rs != [] {
      ReversePermutes(rs[..|rs| - 1]);
      assert rs == rs[..|rs| - 1] + [rs[|rs| - 1]];
    }
  }

  lemma ReverseAppend(a: seq<Record>, b: seq<Record>)
    ensures Reverse(a + b) == Reverse(b) + Reverse(a)
  {
    ReverseIs(a);
    ReverseIs(b);
    ReverseIs(a + b);
  }

  lemma {:induction false} FilterAppend(a: seq<Record>, b: seq<Record>, since: Option<int>, until: Option<int>)
    ensures Filter(a + b, since, until) == Filter(a, since, until) + Filter(b, since, until)
  {
    if b == [] {
      assert a + b == a;
    } else {
      FilterAppend(a, b[..|b| - 1], since, until);
      assert (a + b)[..|a + b| - 1] == a + b[..|b| - 1];
    }
  }

  lemma {:induction false} FilterIncreasing(rs: seq<Record>, since: Option<int>, until: Option<int>)
    requires Increasing(rs)
    ensures Increasing(Filter(rs, since, until))
    ensures forall r :: r in Filter(rs, since, until) <==> r in rs && InRange(r, since, until)
  {
    if rs != [] {
      var n := |rs| - 1;
      FilterIncreasing(rs[..n], since, until);
      assert rs == rs[..n] + [rs[n]];
      var f := Filter(rs[..n], since, until);
      forall i | 0 <= i < |f| ensures f[i].time < rs[n].time {
        assert f[i] in f;
      }
    }
  }

  /** Over strictly increasing times there is one answer: the matches backwards, cut. */
  lemma OneAnswer(rs: seq<Record>, since: Option<int>, until: Option<int>, limit: int)
    requires Increasing(rs)
    ensures forall out :: Answers(out, rs, since, until, limit) <==>
            out == Cut(Reverse(Filter(rs, since, until)), limit)
  {
    var f := Filter(rs, since, until);
    var newest := Reverse(f);
    FilterIncreasing(rs, since, until);
    ReverseIs(f);
    ReversePermutes(f);
    forall all | multiset(all) == multiset(f) && Sorting.SortedBy(NewerFirst, all) ensures all == newest {
      Sorting.SortedUnique(NewerFirst, newest, all);
    }
    assert Sorting.SortedBy(NewerFirst, newest);
  }

  lemma CutOfPrefix(a: seq<Record>, b: seq<Record>, limit: int)
    ensures Cut(a + b, limit) == Cut(a, limit) <==> b == [] || 0 < limit <= |a|
  {
    if 0 < limit <= |a| {
      assert (a + b)[..limit] == a[..limit];
    } else if b == [] {
      assert a + b == a;
    } else {
      assert |Cut(a, limit)| == |a| && |Cut(a + b, limit)| > |a|;
    }
  }

  lemma KeptAnswerAgrees(log: seq<Record>, cap: nat, since: Option<int>, until: Option<int>, limit: int,
                         out: seq<Record>)
    requires cap > 0 && Increasing(log)
    requires Answers(out, Suffix(log, cap), since, until, limit)
    ensures Answers(out, log, since, until, limit) <==> KeepsAnswer(log, cap, since, until, limit)
  {
    hide Filter, Cut, Answers;
    var kept := Suffix(log, cap);
    var dropped := log[..|log| - |kept|];
    assert log == dropped + kept;
    OneAnswer(log, since, until, limit);
    OneAnswer(kept, since, until, limit);
    FilterAppend(dropped, kept, since, until);
    var fd, fk := Filter(dropped, since, until), Filter(kept, since, until);
    ReverseAppend(fd, fk);
    ReverseIs(fd);
    ReverseIs(fk);
    CutOfPrefix(Reverse(fk), Reverse(fd), limit);
  }

  /** Without an upper time bound, a limit within the capacity is always used up before anything dropped matches. */
  lemma OpenEndedAnswerKept(log: seq<Record>, cap: nat, since: Option<int>, limit: int)
    requires Increasing(log) && 1 <= limit <= cap
    ensures KeepsAnswer(log, cap, since, None, limit)
  {
    hide Filter;
    var kept := Suffix(log, cap);
    var dropped := log[..|log| - |kept|];
    FilterIncreasing(dropped, since, None);
    var fd := Filter(dropped, since, None);
    if fd != [] {
      assert fd[0] in dropped;
      var i :| 0 <= i < |dropped| && dropped[i] == fd[0];
      forall j | 0 <= j < |kept| ensures InRange(kept[j], since, None) {
        assert kept[j] == log[|dropped| + j] && log[i] == fd[0];
      }
      FilterAll(kept, since, None);
    }
  }

  lemma {:induction false} FilterAll(rs: seq<Record>, since: Option<int>, until: Option<int>)
    requires forall i :: 0 <= i < |rs| ==> InRange(rs[i], since, until)
    ensures Filter(rs, since, until) == rs
  {
    if rs != [] {
      FilterAll(rs[..|rs| - 1], since, until);
    }
  }

  /** With an upper time bound the kept records can miss what the log would answer. */
  lemma UpperBoundCanMiss()
    ensures var log := [Record(1, "a"), Record(2, "b")];
            Increasing(log) && !KeepsAnswer(log, 1, None, Some(1), 1)
  {
    var log := [Record(1, "a"), Record(2, "b")];
    assert Suffix(log, 1) == [Record(2, "b")];
    assert log[..1] == [Record(1, "a")];
    assert Filter([Record(1, "a")], None, Some(1)) == [Record(1, "a")];
    assert Filter([Record(2, "b")], None, Some(1)) == [];
  }
}
