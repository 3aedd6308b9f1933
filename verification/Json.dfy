/**
 JSON trees as Go's `any` holds them after decoding, and the accessors the manifest code shares
 (exclusions.go:159-173, 276-306). A missing map key and a JSON null both read as `Null`.
 */
module Json {
  import opened Option

  datatype Json =
    | Null
    | Bool(b: bool)
    | Num(n: int)
    | Str(s: string)
    | Arr(items: seq<Json>)
    | Obj(fields: map<string, Json>)

  function Get(m: map<string, Json>, k: string): Json {
    if k in m then m[k] else Null
  }

  /** Value with a checked assertion to a map; anything else reads as the empty map. */
  function AsMap(j: Json): map<string, Json> {
    if j.Obj? then j.fields else map[]
  }

  function Field(j: Json, k: string): Json {
    Get(AsMap(j), k)
  }

  /** Value with a checked assertion to a list; anything else reads as the nil list. */
  function Items(j: Json): seq<Json> {
    if j.Arr? then j.items else []
  }

  function IntOf(j: Json): int {
    if j.Num? then j.n else -1
  }

  function StrOf(j: Json): string {
    if j.Str? then j.s else ""
  }

  /** The string members of a list. */
  function Strings(items: seq<Json>): seq<string> {
    if items == [] then []
    else if items[0].Str? then [items[0].s] + Strings(items[1..])
    else Strings(items[1..])
  }

  function ToStrings(j: Json): seq<string> {
    Strings(Items(j))
  }

  function ToAny(ss: seq<string>): Json {
    Arr(seq(|ss|, i requires 0 <= i < |ss| => Str(ss[i])))
  }

  lemma {:induction false} ToStringsToAny(ss: seq<string>)
    ensures ToStrings(ToAny(ss)) == ss
  {
    if ss != [] {
      ToStringsToAny(ss[1..]);
      assert ToAny(ss).items[1..] == ToAny(ss[1..]).items;
    }
  }

  lemma {:induction false} StringsMembers(items: seq<Json>)
    ensures forall s :: s in Strings(items) <==> Str(s) in items
  {
    if items != [] {
      StringsMembers(items[1..]);
      assert items == [items[0]] + items[1..];
    }
  }

  /** `append` on a list read from `j`: the nil list becomes a list of one. */
  function Append(j: Json, x: Json): Json {
    Arr(Items(j) + [x])
  }

  /** Key and value of a "key=value" pair, split at the first equals sign. */
  function SplitPair(s: string): Option<(string, string)> {
    if s == "" then None
    else if s[0] == '=' then Some(("", s[1..]))
    else match SplitPair(s[1..])
      case None => None
      case Some((k, v)) => Some(([s[0]] + k, v))
  }

  /** Splitting undoes joining for any key without an equals sign, and finds nothing to split otherwise. */
  lemma {:induction false} SplitPairExact(s: string)
    ensures SplitPair(s).None? <==> '=' !in s
    ensures SplitPair(s).Some? ==>
              var (k, v) := SplitPair(s).value; '=' !in k && s == k + "=" + v
  {
    if s != "" {
      SplitPairExact(s[1..]);
      assert s == [s[0]] + s[1..];
      if s[0] != '=' && SplitPair(s[1..]).Some? {
        var (k, v) := SplitPair(s[1..]).value;
        assert s == [s[0]] + k + "=" + v;
      }
    }
  }
}
