/**
 The compact JSON text that Go's `json.Marshal` writes: keys in byte order, strings escaped.
 Which quoted words can occur in that text is decided by the tree it was written from.

 - `Marshal` is executable: the keys of an object are listed by picking the least one left.
 - Escapes are prefix-free, so the encoding of strings is injective, and no scalar has the text of
   another value; manifests can be compared by their text.
 - A quoted word of plain letters occurs in a text only where a key or a string ends with it: a quote inside
   an encoded string is preceded by a backslash, and punctuation keeps tokens apart.
 */
module Encoding {
  import opened Json
  import Text

  function HexDigit(d: nat): char
    requires d < 16
  {
    if d < 10 then '0' + d as char else 'a' + (d - 10) as char
  }

  function Hex4(n: nat): string
    requires n < 0x10000
  {
    [HexDigit(n / 16 / 16 / 16), HexDigit(n / 16 / 16 % 16), HexDigit(n / 16 % 16), HexDigit(n % 16)]
  }

  /** Characters written as a six-character escape: controls, the HTML-sensitive ones, line separators. */
  predicate NeedsHex(c: char) {
    c < 0x20 as char || c == '<' || c == '>' || c == '&' || c == 0x2028 as char || c == 0x2029 as char
  }

  function EscapeChar(c: char): (r: string)
    ensures r != ""
  {
    if c == '"' then "\\\""
    else if c == '\\' then "\\\\"
    else if c == '\n' then "\\n"
    else if c == '\r' then "\\r"
    else if c == '\t' then "\\t"
    else if c == 8 as char then "\\b"
    else if c == 12 as char then "\\f"
    else if NeedsHex(c) then "\\u" + Hex4(c as nat)
    else [c]
  }

  function Escape(s: string): string {
    if s == "" then "" else Escape(s[..|s| - 1]) + EscapeChar(s[|s| - 1])
  }

  function Quote(s: string): string {
    "\"" + Escape(s) + "\""
  }

  function IntText(n: int): string {
    if n < 0 then "-" + Text.Digits(-n) else Text.Digits(n)
  }

  predicate ComesFirst(k: string, ks: set<string>) {
    k in ks && forall x :: x in ks ==> Text.Leq(k, x)
  }

  /** A non-empty set of keys has one that comes first. */
  lemma {:induction false} FirstKey(ks: set<string>) returns (k: string)
    requires ks != {}
    ensures ComesFirst(k, ks)
    decreases |ks|
  {
    hide Text.Leq;
    var one :| one in ks;
    var rest := ks - {one};
    k := one;
    Text.LeqTotal(one, one);
    assert forall x :: x in ks <==> x == one || x in rest;
    if rest != {} {
      var j := FirstKey(rest);
      Text.LeqTotal(j, one);
      if Text.Leq(one, j) {
        forall x | x in rest ensures Text.Leq(one, x) {
          Text.LeqTransitive(one, j, x);
        }
      } else {
        k := j;
      }
    }
  }

  lemma OneFirstKey(ks: set<string>)
    requires ks != {}
    ensures exists k :: ComesFirst(k, ks)
    ensures forall j, k :: ComesFirst(j, ks) && ComesFirst(k, ks) ==> j == k
  {
    hide Text.Leq;
    var k := FirstKey(ks);
    forall j, k | ComesFirst(j, ks) && ComesFirst(k, ks) ensures j == k {
      Text.LeqTotal(j, k);
    }
  }

  /** The keys of an object in byte order. */
  function KeysInOrder(ks: set<string>): (r: seq<string>)
    ensures Text.StrictlySorted(r) && Text.Members(r) == ks
  {
    if ks == {} then [] else
      OneFirstKey(ks);
      var k :| ComesFirst(k, ks);
      var rest := KeysInOrder(ks - {k});
      HeadFirst(k, rest, ks);
      [k] + rest
  }

  lemma HeadFirst(k: string, rest: seq<string>, ks: set<string>)
    requires ComesFirst(k, ks)
    requires Text.StrictlySorted(rest) && Text.Members(rest) == ks - {k}
    ensures Text.StrictlySorted([k] + rest) && Text.Members([k] + rest) == ks
  {
    assert rest != [] ==> rest[0] in Text.Members(rest);
    Text.StrictlySortedCons(k, rest);
  }

  function Marshal(j: Json): string
    decreases j, 1, 0
  {
    match j
    case Null => "null"
    case Bool(b) => if b then "true" else "false"
    case Num(n) => IntText(n)
    case Str(s) => Quote(s)
    case Arr(items) => "[" + MarshalItems(j, |items|) + "]"
    case Obj(fields) => "{" + MarshalFields(j, KeysInOrder(fields.Keys)) + "}"
  }

  /** The first `n` items of a list. */
  function MarshalItems(j: Json, n: nat): string
    requires j.Arr? && n <= |j.items|
    decreases j, 0, n
  {
    if n == 0 then ""
    else if n == 1 then Marshal(j.items[0])
    else MarshalItems(j, n - 1) + "," + Marshal(j.items[n - 1])
  }

  function MarshalFields(j: Json, ks: seq<string>): string
    requires j.Obj? && forall k :: k in ks ==> k in j.fields
    decreases j, 0, |ks|
  {
    if ks == [] then ""
    else
      var n := |ks| - 1;
      var field := Quote(ks[n]) + ":" + Marshal(j.fields[ks[n]]);
      if n == 0 then field else MarshalFields(j, ks[..n]) + "," + field
  }

  // ----- scalars are told apart by their text

  lemma Hex4Injective(m: nat, n: nat)
    requires m < 0x10000 && n < 0x10000 && Hex4(m) == Hex4(n)
    ensures m == n
  {
    hide HexDigit;
    assert Hex4(m)[0] == Hex4(n)[0] && Hex4(m)[1] == Hex4(n)[1] && Hex4(m)[2] == Hex4(n)[2] && Hex4(m)[3] == Hex4(n)[3];
    HexDigitInjective(m / 16 / 16 / 16, n / 16 / 16 / 16);
    HexDigitInjective(m / 16 / 16 % 16, n / 16 / 16 % 16);
    HexDigitInjective(m / 16 % 16, n / 16 % 16);
    HexDigitInjective(m % 16, n % 16);
  }

  lemma HexDigitInjective(d: nat, e: nat)
    requires d < 16 && e < 16
    ensures HexDigit(d) == HexDigit(e) <==> d == e
  {
  }

  /** No escape is the beginning of another. */
  lemma EscapePrefixFree(c: char, x: string, d: char, y: string)
    requires EscapeChar(c) + x == EscapeChar(d) + y
    ensures c == d && x == y
  {
    var p, q := EscapeChar(c), EscapeChar(d);
    assert p[0] == (p + x)[0] == (q + y)[0] == q[0];
    EscapeShape(c);
    EscapeShape(d);
    if |p| > 1 {
      assert p[1] == (p + x)[1] == (q + y)[1] == q[1];
      assert |p| == |q|;
    }
    assert p == (p + x)[..|p|] == (q + y)[..|p|] == q;
    assert x == (p + x)[|p|..] == (q + y)[|p|..] == y;
    SameEscape(c, d);
  }

  /** The first two characters of an escape tell its length. */
  lemma EscapeShape(c: char)
    ensures EscapeChar(c)[0] != '\\' <==> |EscapeChar(c)| == 1
    ensures |EscapeChar(c)| > 1 ==> |EscapeChar(c)| == if EscapeChar(c)[1] == 'u' then 6 else 2
  {
  }

  lemma SameEscape(c: char, d: char)
    requires EscapeChar(c) == EscapeChar(d)
    ensures c == d
  {
    EscapeTail(c);
    EscapeTail(d);
    if |EscapeChar(c)| == 6 {
      assert EscapeChar(c)[2..] == Hex4(c as nat) && EscapeChar(d)[2..] == Hex4(d as nat);
      Hex4Injective(c as nat, d as nat);
    } else if |EscapeChar(c)| == 2 {
      assert EscapeChar(c)[1] == EscapeChar(d)[1];
    }
  }

  lemma {:induction false} EscapeCons(c: char, s: string)
    ensures Escape([c] + s) == EscapeChar(c) + Escape(s)
  {
    hide EscapeChar;
    if s == "" {
      assert [c] + s == [c] && [c][..0] == "";
    } else {
      var n := |s| - 1;
      EscapeCons(c, s[..n]);
      assert ([c] + s)[..|s|] == [c] + s[..n];
    }
  }

  lemma {:induction false} EscapeInjective(s: string, t: string)
    requires Escape(s) == Escape(t)
    ensures s == t
  {
    if s == "" {
      EmptyEscape(t);
    } else if t == "" {
      EmptyEscape(s);
    } else {
      assert s == [s[0]] + s[1..] && t == [t[0]] + t[1..];
      EscapeCons(s[0], s[1..]);
      EscapeCons(t[0], t[1..]);
      EscapePrefixFree(s[0], Escape(s[1..]), t[0], Escape(t[1..]));
      EscapeInjective(s[1..], t[1..]);
    }
  }

  lemma EmptyEscape(h: string)
    requires Escape(h) == ""
    ensures h == ""
  {
  }

  lemma IntTextInjective(m: int, n: int)
    requires IntText(m) == IntText(n)
    ensures m == n
  {
    var a, b := Text.Digits(if m < 0 then -m else m), Text.Digits(if n < 0 then -n else n);
    assert IntText(m)[0] == IntText(n)[0];
    assert Text.IsDigit(a[0]) && Text.IsDigit(b[0]);
    if m < 0 {
      assert IntText(m)[1..] == a && IntText(n)[1..] == b;
    }
    Text.DigitsInjective(if m < 0 then -m else m, if n < 0 then -n else n);
  }

  /** What the first character of the text says about the value. */
  lemma FirstChar(j: Json)
    ensures Marshal(j) != ""
    ensures j.Null? <==> Marshal(j)[0] == 'n'
    ensures j.Bool? <==> Marshal(j)[0] == 't' || Marshal(j)[0] == 'f'
    ensures j.Bool? ==> (j.b <==> Marshal(j)[0] == 't')
    ensures j.Num? <==> Marshal(j)[0] == '-' || Text.IsDigit(Marshal(j)[0])
    ensures j.Str? <==> Marshal(j)[0] == '"'
  {
    hide Escape;
    if j.Num? {
      var d := Text.Digits(if j.n < 0 then -j.n else j.n);
      assert Text.IsDigit(d[0]);
    }
  }

  /** A scalar has the text of no other value. */
  lemma MarshalScalarInjective(a: Json, b: Json)
    requires !a.Obj? && !a.Arr?
    ensures Marshal(a) == Marshal(b) <==> a == b
  {
    FirstChar(a);
    FirstChar(b);
    if Marshal(a) == Marshal(b) {
      if a.Num? {
        IntTextInjective(a.n, b.n);
      } else if a.Str? {
        assert Quote(a.s)[1..|Quote(a.s)| - 1] == Escape(a.s);
        assert Quote(b.s)[1..|Quote(b.s)| - 1] == Escape(b.s);
        EscapeInjective(a.s, b.s);
      }
    }
  }

  // ----- which quoted words occur in the text

  predicate Letter(c: char) {
    'A' <= c <= 'Z' || 'a' <= c <= 'z'
  }

  /** A word that escapes cannot imitate: letters, the first one a capital. */
  predicate Word(w: string) {
    w != "" && 'A' <= w[0] <= 'Z' && forall c :: c in w ==> Letter(c)
  }

  function Quoted(w: string): string {
    "\"" + w + "\""
  }

  /** A string token whose encoding contains the quoted word. */
  predicate Carries(t: string, w: string) {
    t == w || Text.HasSuffix(t, "\"" + w)
  }

  /** Some key or string value of the tree carries the word. */
  ghost predicate Shows(j: Json, w: string) {
    match j
    case Str(s) => Carries(s, w)
    case Arr(items) => exists i :: 0 <= i < |items| && Shows(items[i], w)
    case Obj(fields) => exists k :: k in fields && (Carries(k, w) || Shows(fields[k], w))
    case _ => false
  }

  // A quote inside an encoded string is always preceded by a backslash.
  lemma {:induction false} QuoteIsEscaped(s: string, k: nat)
    requires k < |Escape(s)| && Escape(s)[k] == '"'
    ensures k > 0 && Escape(s)[k - 1] == '\\'
  {
    var n := |s| - 1;
    var head, tail := Escape(s[..n]), EscapeChar(s[n]);
    if k < |head| {
      QuoteIsEscaped(s[..n], k);
    } else {
      EscapeCharQuote(s[n]);
      assert tail[k - |head|] == '"';
    }
  }

  lemma EscapeCharQuote(c: char)
    ensures forall i :: 0 <= i < |EscapeChar(c)| && EscapeChar(c)[i] == '"' ==>
              i == 1 && EscapeChar(c)[0] == '\\' && c == '"'
  {
    if NeedsHex(c) {
      HexHasNoQuote(c as nat);
    }
  }

  lemma HexHasNoQuote(n: nat)
    requires n < 0x10000
    ensures forall i :: 0 <= i < 4 ==> Hex4(n)[i] != '"' && !('A' <= Hex4(n)[i] <= 'Z')
  {
  }

  /** An escape of more than one character starts with a backslash and holds no capital. */
  lemma EscapeTail(c: char)
    ensures |EscapeChar(c)| > 1 ==> EscapeChar(c)[0] == '\\'
    ensures |EscapeChar(c)| > 1 ==> forall i :: 0 <= i < |EscapeChar(c)| ==> !('A' <= EscapeChar(c)[i] <= 'Z')
    ensures |EscapeChar(c)| == 1 ==> EscapeChar(c) == [c]
  {
    if NeedsHex(c) {
      HexHasNoQuote(c as nat);
    }
  }

  lemma LetterEscape(c: char)
    requires Letter(c)
    ensures EscapeChar(c) == [c]
  {
  }

  /** Two ways to split the same text, compared from the right. */
  lemma Align(head: string, tail: string, a: string, w: string)
    requires head + tail == a + w && tail != "" && w != ""
    ensures |tail| <= |w| ==> tail[0] == w[|w| - |tail|]
    ensures |w| < |tail| ==> w[0] == tail[|tail| - |w|]
    ensures |tail| == 1 ==> head == a + w[..|w| - 1]
  {
    var e := head + tail;
    assert |e| == |head| + |tail| == |a| + |w|;
    assert |tail| <= |w| ==> e[|head|] == tail[0] && e[|head|] == w[|head| - |a|];
    assert |w| < |tail| ==> e[|a|] == w[0] && e[|a|] == tail[|a| - |head|];
    if |tail| == 1 {
      assert head == e[..|e| - 1];
      assert a + w[..|w| - 1] == e[..|e| - 1];
    }
  }

  /** What a word ends with was not escaped. */
  lemma WordEndsPlain(head: string, c: char, a: string, w: string)
    requires Word(w) && head + EscapeChar(c) == a + w
    ensures EscapeChar(c) == [c] && c == w[|w| - 1] && head == a + w[..|w| - 1]
  {
    var tail := EscapeChar(c);
    EscapeTail(c);
    Align(head, tail, a, w);
    if |tail| <= |w| {
      assert tail[0] in w;
    }
  }

  /** A word at the end of an encoded string stands at the end of the string itself. */
  lemma {:induction false} WordAtEnd(s: string, a: string, w: string)
    requires Word(w) && Escape(s) == a + w
    ensures Text.HasSuffix(s, w) && Escape(s[..|s| - |w|]) == a
  {
    hide EscapeChar;
    var n := |s| - 1;
    WordEndsPlain(Escape(s[..n]), s[n], a, w);
    if |w| == 1 {
      assert a + w[..0] == a;
      assert s[n..] == w;
    } else {
      var v, t := w[..|w| - 1], s[..n];
      assert Word(v) by {
        forall c | c in v ensures Letter(c) {
          assert c in w;
        }
      }
      WordAtEnd(t, a, v);
      assert t[..|t| - |v|] == s[..|s| - |w|];
      assert s == t + [s[n]] && w == v + [w[|w| - 1]];
    }
  }

  lemma {:induction false} EscapeOfWord(s: string, w: string)
    requires forall c :: c in w ==> Letter(c)
    ensures Escape(s + w) == Escape(s) + w
  {
    hide EscapeChar;
    if w == "" {
      assert s + w == s;
    } else {
      var n := |w| - 1;
      assert forall c :: c in w[..n] ==> c in w;
      EscapeOfWord(s, w[..n]);
      assert w[n] in w;
      LetterEscape(w[n]);
      assert (s + w)[..|s + w| - 1] == s + w[..n];
      assert w == w[..n] + [w[n]];
    }
  }

  /** The encoding of a string contains the quoted word exactly when the string is it, or ends with a quote and it. */
  lemma QuoteContains(s: string, w: string)
    requires Word(w)
    ensures Text.Contains(Quote(s), Quoted(w)) <==> Carries(s, w)
  {
    if Carries(s, w) {
      CarriedIsContained(s, w);
    }
    if Text.Contains(Quote(s), Quoted(w)) {
      var i :| 0 <= i <= |Quote(s)| && Text.OccursAt(Quote(s), Quoted(w), i);
      ContainedIsCarried(s, w, i);
    }
  }

  lemma CarriedIsContained(s: string, w: string)
    requires Word(w) && Carries(s, w)
    ensures Text.Contains(Quote(s), Quoted(w))
  {
    if s == w {
      EscapeOfWord("", w);
      assert "" + w == w;
      assert Text.OccursAt(Quote(s), Quoted(w), 0);
    } else {
      var g := s[..|s| - |w| - 1];
      assert s == g + "\"" + w;
      QuotedAfter(g, w);
    }
  }

  lemma QuotedAfter(g: string, w: string)
    requires Word(w)
    ensures Text.Contains(Quote(g + "\"" + w), Quoted(w))
  {
    hide Escape;
    EscapeOfWord(g + "\"", w);
    QuoteEscapes(g);
    var front := "\"" + Escape(g) + "\\";
    OccursAtEnd(front, Quoted(w));
    assert Quote(g + "\"" + w) == front + Quoted(w);
  }

  lemma QuoteEscapes(g: string)
    ensures Escape(g + "\"") == Escape(g) + "\\\""
  {
    assert (g + "\"")[..|g|] == g;
  }

  lemma OccursAtEnd(a: string, p: string)
    ensures Text.Contains(a + p, p)
  {
    assert (a + p)[|a|..|a| + |p|] == p;
    assert Text.OccursAt(a + p, p, |a|);
  }

  /** The quoted word can only end where the encoded string ends. */
  lemma OccurrenceIsLast(s: string, w: string, i: nat)
    requires Word(w) && Text.OccursAt(Quote(s), Quoted(w), i)
    ensures i + |w| + 2 == |Quote(s)|
  {
    hide Escape;
    var q, p, e := Quote(s), Quoted(w), Escape(s);
    var last := i + |p| - 1;
    OccurrenceAt(q, p, i, |p| - 1);
    OccurrenceAt(q, p, i, |w|);
    assert q[last] == '"' && q[last - 1] == w[|w| - 1];
    assert w[|w| - 1] in w;
    if last < |q| - 1 {
      assert e[last - 1] == '"';
      QuoteIsEscaped(s, last - 1);
    }
  }

  lemma OccurrenceAt(q: string, p: string, i: nat, k: nat)
    requires Text.OccursAt(q, p, i) && k < |p|
    ensures q[i + k] == p[k]
  {
    assert q[i..i + |p|][k] == q[i + k];
  }

  /** A quoted word that ends an encoded string ends the string; the quote before it was opened or encoded. */
  lemma ContainedIsCarried(s: string, w: string, i: nat)
    requires Word(w) && Text.OccursAt(Quote(s), Quoted(w), i)
    ensures Carries(s, w)
  {
    hide Word, Escape, Text.OccursAt;
    OccurrenceIsLast(s, w, i);
    var e := Escape(s);
    WordEndsEscape(s, w, i);
    var a := e[..|e| - |w|];
    assert e == a + w;
    WordAtEnd(s, a, w);
    var t := s[..|s| - |w|];
    assert s == t + w;
    if i > 0 {
      QuoteEndsRest(s, w, i);
      EndsInQuote(t);
      CarriedAfterQuote(t, w);
    } else {
      EmptyEscape(t);
    }
  }

  lemma WordEndsEscape(s: string, w: string, i: nat)
    requires Text.OccursAt(Quote(s), Quoted(w), i) && i + |w| + 2 == |Quote(s)|
    ensures |Escape(s)| >= |w| && Escape(s)[|Escape(s)| - |w|..] == w
  {
    hide Escape, Text.OccursAt;
    var e := Escape(s);
    forall k | 0 <= k < |w| ensures e[|e| - |w| + k] == w[k] {
      OccurrenceAt(Quote(s), Quoted(w), i, k + 1);
    }
  }

  lemma QuoteEndsRest(s: string, w: string, i: nat)
    requires Text.OccursAt(Quote(s), Quoted(w), i) && i + |w| + 2 == |Quote(s)| && i > 0
    ensures |Escape(s)| > |w| && Escape(s)[|Escape(s)| - |w| - 1] == '"'
  {
    hide Escape, Text.OccursAt;
    OccurrenceAt(Quote(s), Quoted(w), i, 0);
    assert Quote(s)[i] == Escape(s)[i - 1];
  }

  lemma CarriedAfterQuote(t: string, w: string)
    requires t != "" && t[|t| - 1] == '"'
    ensures Carries(t + w, w)
  {
    var s := t + w;
    assert s[|s| - (|w| + 1)..] == "\"" + w;
  }

  lemma EndsInQuote(h: string)
    requires Escape(h) != "" && Escape(h)[|Escape(h)| - 1] == '"'
    ensures h != "" && h[|h| - 1] == '"'
  {
    EscapeCharQuote(h[|h| - 1]);
  }

  predicate Punctuation(c: char) {
    c == '[' || c == ']' || c == '{' || c == '}' || c == ',' || c == ':'
  }

  lemma PunctuationOutside(c: char, w: string)
    requires Punctuation(c) && Word(w)
    ensures c !in Quoted(w)
  {
  }

  lemma NothingContained(s: string, w: string)
    requires Word(w) && forall c :: c in s ==> c != '"'
    ensures !Text.Contains(s, Quoted(w))
  {
    var p := Quoted(w);
    if i :| 0 <= i <= |s| && Text.OccursAt(s, p, i) {
      assert s[i..i + |p|][0] == p[0];
      assert s[i] in s;
    }
  }

  lemma Bracketed(open: char, s: string, close: char, w: string)
    requires Punctuation(open) && Punctuation(close) && Word(w)
    ensures Text.Contains([open] + s + [close], Quoted(w)) <==> Text.Contains(s, Quoted(w))
  {
    PunctuationOutside(open, w);
    PunctuationOutside(close, w);
    NothingContained("", w);
    assert "" + [open] + s == [open] + s;
    Text.ContainsAcross("", open, s, Quoted(w));
    assert ([open] + s) + [close] + "" == [open] + s + [close];
    Text.ContainsAcross([open] + s, close, "", Quoted(w));
  }

  lemma Separated(a: string, c: char, b: string, w: string)
    requires Punctuation(c) && Word(w)
    ensures Text.Contains(a + [c] + b, Quoted(w)) <==> Text.Contains(a, Quoted(w)) || Text.Contains(b, Quoted(w))
  {
    PunctuationOutside(c, w);
    Text.ContainsAcross(a, c, b, Quoted(w));
  }

  /** The written text contains a quoted word exactly when some token of the tree carries it. */
  lemma {:induction false} MarshalContains(j: Json, w: string)
    requires Word(w)
    ensures Text.Contains(Marshal(j), Quoted(w)) <==> Shows(j, w)
    decreases j, 1, 0
  {
    match j {
      case Null => NothingContained("null", w);
      case Bool(b) => NothingContained(Marshal(j), w);
      case Num(n) => NothingContained(Marshal(j), w);
      case Str(s) => QuoteContains(s, w);
      case Arr(items) =>
        ItemsContain(j, |items|, w);
        Bracketed('[', MarshalItems(j, |items|), ']', w);
      case Obj(fields) =>
        var ks := KeysInOrder(fields.Keys);
        assert forall k :: k in ks <==> k in Text.Members(ks);
        FieldsContain(j, ks, w);
        Bracketed('{', MarshalFields(j, ks), '}', w);
    }
  }

  lemma {:induction false} ItemsContain(j: Json, n: nat, w: string)
    requires Word(w) && j.Arr? && n <= |j.items|
    ensures Text.Contains(MarshalItems(j, n), Quoted(w)) <==> exists i :: 0 <= i < n && Shows(j.items[i], w)
    decreases j, 0, n
  {
    if n == 0 {
      NothingContained("", w);
    } else {
      MarshalContains(j.items[n - 1], w);
      if n > 1 {
        ItemsContain(j, n - 1, w);
        Separated(MarshalItems(j, n - 1), ',', Marshal(j.items[n - 1]), w);
      }
    }
  }

  lemma {:induction false} FieldsContain(j: Json, ks: seq<string>, w: string)
    requires Word(w) && j.Obj? && forall k :: k in ks ==> k in j.fields
    ensures Text.Contains(MarshalFields(j, ks), Quoted(w)) <==>
            exists k :: k in ks && (Carries(k, w) || Shows(j.fields[k], w))
    decreases j, 0, |ks|
  {
    if ks == [] {
      NothingContained("", w);
    } else {
      var n := |ks| - 1;
      var k := ks[n];
      var field := Quote(k) + ":" + Marshal(j.fields[k]);
      QuoteContains(k, w);
      MarshalContains(j.fields[k], w);
      Separated(Quote(k), ':', Marshal(j.fields[k]), w);
      FieldsContain(j, ks[..n], w);
      assert ks == ks[..n] + [k];
      Separated(MarshalFields(j, ks[..n]), ',', field, w);
    }
  }
}
