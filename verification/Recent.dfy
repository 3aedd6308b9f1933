/** Lists that keep only the most recent entries: append, then cut to a size. */
module Recent {

  function Suffix<T>(xs: seq<T>, n: nat): seq<T> {
    if |xs| > n then xs[|xs| - n..] else xs
  }

  /** Appends and cuts, as every bounded list of the console does. */
  method Push<T>(xs: seq<T>, n: nat, x: T) returns (r: seq<T>)
    ensures r == Suffix(xs + [x], n)
    ensures forall all :: xs == Suffix(all, n) ==> r == Suffix(all + [x], n)
  {
    r := xs + [x];
    if |r| > n {
      r := r[|r| - n..];
    }
    forall all | xs == Suffix(all, n) ensures r == Suffix(all + [x], n) {
    }
  }

  /** The newest entries, oldest first; all of them without a usable limit. */
  method Tail<T(0)>(s: seq<T>, limit: int) returns (r: seq<T>)
    ensures r == if 0 < limit then Suffix(s, limit) else s
  {
    var n := limit;
    if n <= 0 || n > |s| {
      n := |s|;
    }
    var out := new T[n];
    for i := 0 to n
      invariant forall k :: 0 <= k < i ==> out[k] == s[|s| - n + k]
    {
      out[i] := s[|s| - n + i];
    }
    r := out[..];
  }
}
