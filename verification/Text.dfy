/**
 Strings as the repository uses them.

 - The byte-wise order of `sort.Strings` and of JavaScript's default sort, and listings of sets of strings
   in that order: every set has exactly one strictly sorted listing, which is what makes unions fuse and absorb.
 - `union` of exclusions.go:308-320, which drops the empty string, as a loop and as a function.
 - `[...xs].sort()` and `[...new Set(xs)].sort()` of the front end, which keep it.
 - Prefixes, suffixes and occurrences, as `strings.HasPrefix`, `strings.HasSuffix` and `strings.Contains` find
   them, and why an occurrence cannot run across a character it does not have.
 - White space as `strings.TrimSpace` sees it, for ASCII.
 - Decimal numerals as `%d` prints them, and the numbers they denote.
 */
module Text {
  import Sorting

  /** Lexicographic order, the order of `sort.Strings`. */
  predicate Leq(a: string, b: string) {
    a == "" || (b != "" && (a[0] < b[0] || (a[0] == b[0] && Leq(a[1..], b[1..]))))
  }

  predicate Less(a: string, b: string) {
    a != b && Leq(a, b)
  }

  lemma {:induction false} LeqTotal(a: string, b: string)
    ensures Leq(a, b) || Leq(b, a)
    ensures Leq(a, b) && Leq(b, a) ==> a == b
  {
    if a != "" && b != "" && a[0] == b[0] {
      LeqTotal(a[1..], b[1..]);
      assert a == [a[0]] + a[1..] && b == [b[0]] + b[1..];
    }
  }

  lemma {:induction false} LeqTransitive(a: string, b: string, c: string)
    requires Leq(a, b) && Leq(b, c)
    ensures Leq(a, c)
  {
    if a != "" && b != "" && c != "" && a[0] == b[0] && b[0] == c[0] {
      LeqTransitive(a[1..], b[1..], c[1..]);
    }
  }

  lemma LeqIsTotalPreorder()
    ensures Sorting.TotalPreorder(Leq)
  {
    forall x: string, y: string ensures Leq(x, y) || Leq(y, x) {
      LeqTotal(x, y);
    }
    forall x: string, y: string, z: string | Leq(x, y) && Leq(y, z) ensures Leq(x, z) {
      LeqTransitive(x, y, z);
    }
  }

  /** Sorted without repetition. */
  ghost predicate StrictlySorted(xs: seq<string>) {
    forall i, j :: 0 <= i < j < |xs| ==> Less(xs[i], xs[j])
  }

  ghost function Members(xs: seq<string>): set<string> {
    set x | x in xs
  }

  lemma MembersAgree(xs: seq<string>, ys: seq<string>)
    ensures Members(xs) == Members(ys) <==> (forall x :: x in xs <==> x in ys)
  {
    forall x ensures (x in xs <==> x in Members(xs)) && (x in ys <==> x in Members(ys)) {
    }
  }

  /** A set of strings has one strictly sorted listing. */
  lemma {:induction false} StrictlySortedUnique(xs: seq<string>, ys: seq<string>)
    requires StrictlySorted(xs) && StrictlySorted(ys)
    requires Members(xs) == Members(ys)
    ensures xs == ys
  {
    MembersAgree(xs, ys);
    assert (xs != [] ==> xs[0] in ys) && (ys != [] ==> ys[0] in xs);
    if xs != [] && ys != [] {
      LeqTotal(xs[0], ys[0]);
      assert xs[0] == ys[0];
      assert Members(xs[1..]) == Members(xs) - {xs[0]};
      assert Members(ys[1..]) == Members(ys) - {ys[0]};
      StrictlySortedUnique(xs[1..], ys[1..]);
      assert xs == [xs[0]] + xs[1..] && ys == [ys[0]] + ys[1..];
    }
  }

  /** `x` put into its place in a strictly sorted list, unless it is there already. */
  function Insert(x: string, xs: seq<string>): (r: seq<string>)
  {
    if xs == [] then [x]
    else if x == xs[0] then xs
    else if Leq(x, xs[0]) then [x] + xs
    else [xs[0]] + Insert(x, xs[1..])
  }

  lemma LessTransitive(a: string, b: string, c: string)
    requires Less(a, b) && Less(b, c)
    ensures Less(a, c)
  {
    LeqTransitive(a, b, c);
    LeqTotal(a, b);
  }

  /** A strictly sorted list stays so below a smaller head. */
  lemma StrictlySortedCons(x: string, xs: seq<string>)
    requires StrictlySorted(xs)
    requires xs != [] ==> Less(x, xs[0])
    ensures StrictlySorted([x] + xs)
    ensures Members([x] + xs) == Members(xs) + {x}
  {
    forall j | 0 < j < |xs| ensures Less(x, xs[j]) {
      LessTransitive(x, xs[0], xs[j]);
    }
  }

  lemma {:induction false} InsertSorted(x: string, xs: seq<string>)
    requires StrictlySorted(xs)
    ensures StrictlySorted(Insert(x, xs))
    ensures Members(Insert(x, xs)) == Members(xs) + {x}
    ensures Insert(x, xs) != [] && Insert(x, xs)[0] == if xs == [] || Leq(x, xs[0]) then x else xs[0]
  {
    if xs == [] {
    } else if x == xs[0] {
      LeqTotal(x, x);
    } else if Leq(x, xs[0]) {
      StrictlySortedCons(x, xs);
    } else {
      InsertSorted(x, xs[1..]);
      LeqTotal(x, xs[0]);
      StrictlySortedCons(xs[0], Insert(x, xs[1..]));
      assert Members(xs) == Members(xs[1..]) + {xs[0]};
    }
  }

  /** The strictly sorted listing of the non-empty members of `xs`. */
  function SortedSet(xs: seq<string>): (r: seq<string>)
  {
    if xs == [] then []
    else if xs[0] == "" then SortedSet(xs[1..])
    else Insert(xs[0], SortedSet(xs[1..]))
  }

  lemma {:induction false} SortedSetMembers(xs: seq<string>)
    ensures StrictlySorted(SortedSet(xs))
    ensures Members(SortedSet(xs)) == Members(xs) - {""}
  {
    if xs != [] {
      SortedSetMembers(xs[1..]);
      assert Members(xs) == Members(xs[1..]) + {xs[0]};
      if xs[0] != "" {
        InsertSorted(xs[0], SortedSet(xs[1..]));
      }
    }
  }

  /** The strictly sorted listing of all members, as `[...new Set(xs)].sort()` gives it. */
  function Distinct(xs: seq<string>): seq<string> {
    if xs == [] then [] else Insert(xs[0], Distinct(xs[1..]))
  }

  lemma {:induction false} DistinctMembers(xs: seq<string>)
    ensures StrictlySorted(Distinct(xs)) && Members(Distinct(xs)) == Members(xs)
    ensures forall x :: x in Distinct(xs) <==> x in xs
  {
    if xs != [] {
      DistinctMembers(xs[1..]);
      assert Members(xs) == Members(xs[1..]) + {xs[0]};
      InsertSorted(xs[0], Distinct(xs[1..]));
    }
    MembersAgree(Distinct(xs), xs);
  }

  /** `[...xs].sort()`: sorted, with repetitions kept. */
  function Sorted(xs: seq<string>): (r: seq<string>)
    ensures |r| == |xs|
  {
    if xs == [] then [] else Place(xs[0], Sorted(xs[1..]))
  }

  function Place(x: string, xs: seq<string>): (r: seq<string>)
    ensures |r| == |xs| + 1
  {
    if xs == [] || Leq(x, xs[0]) then [x] + xs else [xs[0]] + Place(x, xs[1..])
  }

  lemma SortedCons(x: string, xs: seq<string>)
    requires Sorting.SortedBy(Leq, xs) && forall y :: y in xs ==> Leq(x, y)
    ensures Sorting.SortedBy(Leq, [x] + xs)
  {
    hide Leq;
    assert forall j :: 0 < j <= |xs| ==> ([x] + xs)[j] in xs;
  }

  lemma HeadIsLeast(x: string, xs: seq<string>)
    requires Sorting.SortedBy(Leq, xs) && xs != [] && Leq(x, xs[0])
    ensures forall y :: y in xs ==> Leq(x, y)
  {
    hide Leq;
    forall y | y in xs ensures Leq(x, y) {
      var j :| 0 <= j < |xs| && xs[j] == y;
      if j > 0 {
        LeqTransitive(x, xs[0], xs[j]);
      }
    }
  }

  lemma {:induction false} PlaceSorted(x: string, xs: seq<string>)
    requires Sorting.SortedBy(Leq, xs)
    ensures Sorting.SortedBy(Leq, Place(x, xs)) && multiset(Place(x, xs)) == multiset(xs) + multiset{x}
  {
    hide Leq;
    if xs == [] {
    } else if Leq(x, xs[0]) {
      HeadIsLeast(x, xs);
      SortedCons(x, xs);
    } else {
      PlaceSorted(x, xs[1..]);
      LeqTotal(x, xs[0]);
      assert xs == [xs[0]] + xs[1..];
      HeadIsLeastOf(xs[0], x, xs[1..], Place(x, xs[1..]));
      SortedCons(xs[0], Place(x, xs[1..]));
    }
  }

  lemma HeadIsLeastOf(h: string, x: string, xs: seq<string>, placed: seq<string>)
    requires multiset(placed) == multiset(xs) + multiset{x} && Leq(h, x)
    requires Sorting.SortedBy(Leq, [h] + xs)
    ensures forall y :: y in placed ==> Leq(h, y)
  {
    hide Leq;
    forall y | y in placed ensures Leq(h, y) {
      assert y in multiset(placed);
      if y in xs {
        var j :| 0 <= j < |xs| && xs[j] == y;
        assert ([h] + xs)[0] == h && ([h] + xs)[j + 1] == y;
      }
    }
  }

  lemma {:induction false} SortedIsSorted(xs: seq<string>)
    ensures Sorting.SortedBy(Leq, Sorted(xs)) && multiset(Sorted(xs)) == multiset(xs)
    ensures |Sorted(xs)| == |xs| && forall x :: x in Sorted(xs) <==> x in xs
  {
    hide Leq, Place, Sorting.SortedBy;
    Sorting.NothingToSort(Leq);
    if xs != [] {
      SortedIsSorted(xs[1..]);
      PlaceSorted(xs[0], Sorted(xs[1..]));
      assert xs == [xs[0]] + xs[1..];
    }
    Sorting.SameMembers(Sorted(xs), xs);
    assert |multiset(Sorted(xs))| == |multiset(xs)|;
  }

  /** The specification of `union` (exclusions.go): sorted, duplicate-free, without empty strings. */
  function UnionOf(a: seq<string>, b: seq<string>): (r: seq<string>)
  {
    SortedSet(a + b)
  }

  lemma UnionMembers(a: seq<string>, b: seq<string>)
    ensures StrictlySorted(UnionOf(a, b))
    ensures forall s :: s in UnionOf(a, b) <==> s != "" && (s in a || s in b)
  {
    SortedSetMembers(a + b);
    forall s ensures s in UnionOf(a, b) <==> s != "" && (s in a || s in b) {
      assert s in UnionOf(a, b) <==> s in Members(UnionOf(a, b));
      assert s in a + b <==> s in Members(a + b);
    }
  }

  /** Merging twice is merging once with both lists. */
  lemma UnionFuses(x: seq<string>, a: seq<string>, b: seq<string>)
    ensures UnionOf(UnionOf(x, a), b) == UnionOf(x, a + b)
  {
    UnionMembers(x, a);
    UnionMembers(UnionOf(x, a), b);
    UnionMembers(x, a + b);
    StrictlySortedUnique(UnionOf(UnionOf(x, a), b), UnionOf(x, a + b));
  }

  /** A list merged with values it already has keeps its listing. */
  lemma UnionAbsorbs(x: seq<string>, a: seq<string>)
    ensures UnionOf(x, a + a) == UnionOf(x, a)
  {
    UnionMembers(x, a);
    UnionMembers(x, a + a);
    StrictlySortedUnique(UnionOf(x, a + a), UnionOf(x, a));
  }

  method Union(a: seq<string>, b: seq<string>) returns (out: seq<string>)
    ensures out == UnionOf(a, b)
  {
    var seen: set<string> := {};
    out := [];
    var all := a + b;
    for i := 0 to |all|
      invariant seen == Members(out) == Members(all[..i]) - {""}
      invariant forall j, k :: 0 <= j < k < |out| ==> out[j] != out[k]
    {
      var s := all[i];
      assert all[..i + 1] == all[..i] + [s];
      assert Members(all[..i + 1]) == Members(all[..i]) + {s};
      if s == "" || s in seen {
        continue;
      }
      assert s !in Members(out);
      assert Members(out + [s]) == Members(out) + {s};
      seen := seen + {s};
      out := out + [s];
    }
    assert all[..|all|] == all;
    LeqIsTotalPreorder();
    var unsorted := out;
    out := Sorting.Sort(Leq, out);
    Sorting.DistinctStaysDistinct(unsorted, out);
    Sorting.SameMembers(unsorted, out);
    assert Members(out) == Members(unsorted);
    SortedSetMembers(all);
    StrictlySortedUnique(out, SortedSet(all));
  }

  // ----- substrings

  predicate HasPrefix(s: string, p: string) {
    p <= s
  }

  predicate HasSuffix(s: string, p: string) {
    |p| <= |s| && s[|s| - |p|..] == p
  }

  lemma SuffixEnds(s: string, p: string)
    requires HasSuffix(s, p) && p != ""
    ensures s[|s| - 1] == p[|p| - 1]
  {
    assert s[|s| - |p|..][|p| - 1] == s[|s| - 1];
  }

  predicate OccursAt(s: string, p: string, i: nat) {
    i + |p| <= |s| && s[i..i + |p|] == p
  }

  predicate Contains(s: string, p: string) {
    exists i :: 0 <= i <= |s| && OccursAt(s, p, i)
  }

  lemma SliceHas(s: string, i: nat, j: nat, k: nat)
    requires i <= k < j <= |s|
    ensures s[k] in s[i..j]
  {
    assert s[i..j][k - i] == s[k];
  }

  lemma SliceRight(h: string, b: string, j: nat, n: nat)
    requires j + n <= |b|
    ensures (h + b)[|h| + j..|h| + j + n] == b[j..j + n]
  {
    var s, l := (h + b)[|h| + j..|h| + j + n], b[j..j + n];
    assert forall k :: 0 <= k < n ==> s[k] == (h + b)[|h| + j + k] == b[j + k] == l[k];
  }

  lemma SliceLeft(a: string, t: string, i: nat, n: nat)
    requires i + n <= |a|
    ensures (a + t)[i..i + n] == a[i..i + n]
  {
    var s, l := (a + t)[i..i + n], a[i..i + n];
    assert forall k :: 0 <= k < n ==> s[k] == (a + t)[i + k] == a[i + k] == l[k];
  }

  lemma ContainsLeft(a: string, t: string, p: string, i: nat)
    requires i + |p| <= |a|
    ensures OccursAt(a + t, p, i) <==> OccursAt(a, p, i)
  {
    SliceLeft(a, t, i, |p|);
  }

  lemma ContainsRight(h: string, b: string, p: string, i: nat)
    requires i <= |b|
    ensures OccursAt(h + b, p, |h| + i) <==> OccursAt(b, p, i)
  {
    if i + |p| <= |b| {
      SliceRight(h, b, i, |p|);
    }
  }

  lemma NotAcross(a: string, c: char, b: string, p: string, i: nat)
    requires c !in p && i <= |a| < i + |p|
    ensures !OccursAt(a + [c] + b, p, i)
  {
    var s := a + [c] + b;
    if OccursAt(s, p, i) {
      SliceHas(s, i, i + |p|, |a|);
    }
  }

  /** An occurrence of `p` cannot run across a character that `p` does not have. */
  lemma ContainsAcross(a: string, c: char, b: string, p: string)
    requires c !in p
    ensures Contains(a + [c] + b, p) <==> Contains(a, p) || Contains(b, p)
  {
    hide OccursAt;
    var s, head := a + [c] + b, a + [c];
    OccursFits(a, p);
    OccursFits(b, p);
    forall i: nat | i <= |s| ensures OccursAt(s, p, i) ==> Contains(a, p) || Contains(b, p) {
      if i + |p| <= |a| {
        assert s == a + ([c] + b);
        ContainsLeft(a, [c] + b, p, i);
      } else if i <= |a| {
        NotAcross(a, c, b, p, i);
      } else {
        ContainsRight(head, b, p, i - |head|);
      }
    }
    forall i: nat | i <= |a| && OccursAt(a, p, i) ensures OccursAt(s, p, i) {
      assert s == a + ([c] + b);
      ContainsLeft(a, [c] + b, p, i);
    }
    forall i: nat | i <= |b| && OccursAt(b, p, i) ensures OccursAt(s, p, |head| + i) {
      ContainsRight(head, b, p, i);
    }
  }

  lemma OccursFits(s: string, p: string)
    ensures forall i: nat :: OccursAt(s, p, i) ==> i + |p| <= |s|
  {
  }

  // ----- white space

  predicate IsSpace(c: char) {
    c == ' ' || c == '\t' || c == '\n' || c == '\r' || c == 11 as char || c == 12 as char
  }

  function TrimLeft(s: string): string {
    if s != "" && IsSpace(s[0]) then TrimLeft(s[1..]) else s
  }

  function TrimRight(s: string): string {
    if s != "" && IsSpace(s[|s| - 1]) then TrimRight(s[..|s| - 1]) else s
  }

  function TrimSpace(s: string): string {
    TrimRight(TrimLeft(s))
  }

  // ----- decimal numerals

  predicate IsDigit(c: char) {
    '0' <= c <= '9'
  }

  predicate AllDigits(s: string) {
    forall i :: 0 <= i < |s| ==> IsDigit(s[i])
  }

  function Digit(d: nat): (c: char)
    requires d < 10
    ensures IsDigit(c) && c as int - '0' as int == d
  {
    '0' + d as char
  }

  /** Decimal numeral of `n`, as `%d` prints it. */
  function Digits(n: nat): (s: string)
    ensures s != "" && AllDigits(s)
  {
    if n < 10 then [Digit(n)] else Digits(n / 10) + [Digit(n % 10)]
  }

  /** The number a numeral denotes. */
  function ValueOf(s: string): nat
    requires AllDigits(s)
  {
    if s == "" then 0 else 10 * ValueOf(s[..|s| - 1]) + (s[|s| - 1] as int - '0' as int)
  }

  lemma {:induction false} DigitsRoundTrip(n: nat)
    ensures ValueOf(Digits(n)) == n
  {
    if n < 10 {
      assert Digits(n)[..0] == "";
    } else {
      DigitsRoundTrip(n / 10);
      assert Digits(n)[..|Digits(n)| - 1] == Digits(n / 10);
    }
  }

  lemma DigitsInjective(m: nat, n: nat)
    requires Digits(m) == Digits(n)
    ensures m == n
  {
    DigitsRoundTrip(m);
    DigitsRoundTrip(n);
  }
}
