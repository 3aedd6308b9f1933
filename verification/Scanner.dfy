/**
 Pulling the first JSON object out of a model's reply (backend/internal/ai/ai.go:222-250): a machine over
 quotes, escapes and braces, set against a printer for RFC 8259 (sections 2, 4, 5 and 7).
 */
module Scanner {

  // ----- the machine

  datatype State = At(depth: int, inStr: bool, esc: bool) | Stopped

  const START: State := At(0, false, false)

  function Step(st: State, ch: char): State {
    match st
    case Stopped => Stopped
    case At(depth, inStr, esc) =>
      if esc then At(depth, inStr, false)
      else if ch == '\\' && inStr then At(depth, inStr, true)
      else if ch == '"' then At(depth, !inStr, false)
      else if inStr then st
      else if ch == '{' then At(depth + 1, false, false)
      else if ch == '}' then (if depth - 1 == 0 then Stopped else At(depth - 1, false, false))
      else st
  }

  function Run(st: State, text: string): State {
    if text == "" then st else Step(Run(st, text[..|text| - 1]), text[|text| - 1])
  }

  lemma {:induction false} RunAppend(st: State, a: string, b: string)
    ensures Run(st, a + b) == Run(Run(st, a), b)
  {
    if b == "" {
      assert a + b == a;
    } else {
      RunAppend(st, a, b[..|b| - 1]);
      assert (a + b)[..|a + b| - 1] == a + b[..|b| - 1];
    }
  }

  lemma RunChar(st: State, c: char)
    ensures Run(st, [c]) == Step(st, c)
  {
    assert [c][..0] == "";
    assert Run(st, [c][..0]) == st;
  }

  lemma {:induction false} StoppedStays(text: string)
    ensures Run(Stopped, text) == Stopped
  {
    if text != "" {
      StoppedStays(text[..|text| - 1]);
    }
  }

  lemma StoppedMonotone(t: string, i: nat, j: nat)
    requires i <= j <= |t| && Run(START, t[..i]) == Stopped
    ensures Run(START, t[..j]) == Stopped
  {
    RunAppend(START, t[..i], t[i..j]);
    StoppedStays(t[i..j]);
    assert t[..i] + t[i..j] == t[..j];
  }

  /** The machine stops with the last of the first `n` characters, and no sooner. */
  predicate StopsAt(t: string, n: nat) {
    0 < n <= |t| && Run(START, t[..n]) == Stopped && Run(START, t[..n - 1]) != Stopped
  }

  lemma StopsOnce(t: string, m: nat, n: nat)
    requires StopsAt(t, m) && StopsAt(t, n)
    ensures m == n
  {
    StopsNoLater(t, m, n);
    StopsNoLater(t, n, m);
  }

  lemma StopsNoLater(t: string, m: nat, n: nat)
    requires StopsAt(t, m) && StopsAt(t, n)
    ensures n <= m
  {
    if m < n {
      StoppedMonotone(t, m, n - 1);
    }
  }

  lemma {:induction false} StopsSomewhere(t: string) returns (n: nat)
    requires Run(START, t) == Stopped
    ensures StopsAt(t, n)
  {
    if Run(START, t[..|t| - 1]) != Stopped {
      n := |t|;
      assert t[..n] == t;
    } else {
      n := StopsSomewhere(t[..|t| - 1]);
      assert t[..|t| - 1][..n] == t[..n] && t[..|t| - 1][..n - 1] == t[..n - 1];
    }
  }

  function FirstBrace(s: string): (i: nat)
    ensures i <= |s| && (i < |s| ==> s[i] == '{') && '{' !in s[..i]
    ensures i == |s| <==> '{' !in s
  {
    if s == "" || s[0] == '{' then 0 else
      var i := 1 + FirstBrace(s[1..]);
      assert s[..i] == [s[0]] + s[1..][..i - 1];
      assert s == [s[0]] + s[1..];
      i
  }

  /** What the source returns: from the first opening brace to where the machine stops. */
  ghost function Extract(s: string): string {
    var t := s[FirstBrace(s)..];
    if n: nat :| StopsAt(t, n) then t[..n] else "{}"
  }

  lemma ExtractIs(s: string, n: nat)
    requires StopsAt(s[FirstBrace(s)..], n)
    ensures Extract(s) == s[FirstBrace(s)..][..n]
  {
    var t := s[FirstBrace(s)..];
    var m: nat :| StopsAt(t, m) && Extract(s) == t[..m];
    StopsOnce(t, m, n);
  }

  /** The machine over one more character of the text from the first brace on. */
  lemma OneMoreChar(s: string, start: nat, i: nat)
    requires start <= i < |s|
    ensures var t := s[start..]; Run(START, t[..i + 1 - start]) == Step(Run(START, t[..i - start]), s[i])
  {
    hide Step;
    var t := s[start..];
    assert t[..i + 1 - start][..i - start] == t[..i - start];
    assert t[..i + 1 - start][i - start] == s[i];
  }

  /** Where the machine stops for the first time is what is returned. */
  lemma StoppedHere(s: string, i: nat)
    requires FirstBrace(s) <= i < |s|
    requires var t := s[FirstBrace(s)..]; StopsAt(t, i + 1 - FirstBrace(s))
    ensures Extract(s) == s[FirstBrace(s)..i + 1]
  {
    hide StopsAt, Extract, FirstBrace;
    var start := FirstBrace(s);
    ExtractIs(s, i + 1 - start);
    assert s[start..i + 1] == s[start..][..i + 1 - start];
  }

  lemma NeverStopped(s: string)
    requires forall n: nat :: n <= |s| - FirstBrace(s) ==> !StopsAt(s[FirstBrace(s)..], n)
    ensures Extract(s) == "{}"
  {
    hide FirstBrace;
  }

  lemma NotStarted(s: string, start: nat)
    requires start <= |s|
    ensures Run(START, s[start..][..0]) == START && !StopsAt(s[start..], 0)
  {
  }

  method ExtractJSON(s: string) returns (r: string)
    ensures r == Extract(s) && ('{' !in s ==> r == "{}")
  {
    hide Run, Extract;
    var start := FirstBrace(s);
    NotStarted(s, start);
    if start == |s| {
      NeverStopped(s);
      return "{}";
    }
    ghost var t := s[start..];
    var depth, inStr, esc := 0, false, false;
    for i := start to |s|
      invariant Run(START, t[..i - start]) == At(depth, inStr, esc)
      invariant forall n: nat :: n <= i - start ==> !StopsAt(t, n)
    {
      var ch := s[i];
      OneMoreChar(s, start, i);
      if esc {
        esc := false;
      } else if ch == '\\' && inStr {
        esc := true;
      } else if ch == '"' {
        inStr := !inStr;
      } else if inStr {
      } else if ch == '{' {
        depth := depth + 1;
      } else if ch == '}' {
        depth := depth - 1;
        if depth == 0 {
          StoppedHere(s, i);
          return s[start..i + 1];
        }
      }
    }
    NeverStopped(s);
    return "{}";
  }

  // ----- JSON text

  /** One character of a string, in each form of section 7. */
  datatype Piece = Plain(c: char) | Escaped(c: char) | Unicode(hex: string)

  predicate PieceOk(p: Piece) {
    match p
    case Plain(c) => c >= 0x20 as char && c != '"' && c != '\\'
    case Escaped(c) => c == '"' || c == '\\' || c == '/' || c == 'b' || c == 'f' || c == 'n' || c == 'r' || c == 't'
    case Unicode(hex) => |hex| == 4 && forall h :: h in hex ==> '0' <= h <= '9' || 'a' <= h <= 'f' || 'A' <= h <= 'F'
  }

  function RenderPiece(p: Piece): string {
    match p
    case Plain(c) => [c]
    case Escaped(c) => ['\\', c]
    case Unicode(hex) => "\\u" + hex
  }

  function RenderPieces(ps: seq<Piece>): string {
    if ps == [] then "" else RenderPieces(ps[..|ps| - 1]) + RenderPiece(ps[|ps| - 1])
  }

  function RenderString(ps: seq<Piece>): string {
    "\"" + RenderPieces(ps) + "\""
  }

  predicate StringOk(ps: seq<Piece>) {
    forall p :: p in ps ==> PieceOk(p)
  }

  /** Literal names and numbers are atoms: text without quotes, braces or backslashes. */
  datatype Value =
    | Atom(text: string)
    | Text(pieces: seq<Piece>)
    | Array(elements: Elements)
    | Object(members: Members)

  /**
   A comma follows an element unless nothing at all comes after it; blanks are allowed around each. Blanks alone
   after an element leave a comma before the bracket, so the printer writes every text of the standard and some more.
   */
  datatype Elements = NoElements(blank: string) | Element(before: string, value: Value, after: string, rest: Elements)

  datatype Members =
    | NoMembers(blank: string)
    | Member(before: string, key: seq<Piece>, mid: string, mid2: string, value: Value, after: string, rest: Members)

  predicate Blank(s: string) {
    forall c :: c in s ==> c == ' ' || c == '\t' || c == '\n' || c == '\r'
  }

  predicate AtomOk(s: string) {
    forall c :: c in s ==> 'a' <= c <= 'z' || c == 'E' || '0' <= c <= '9' || c == '+' || c == '-' || c == '.'
  }

  predicate ValueOk(v: Value) {
    match v
    case Atom(text) => AtomOk(text)
    case Text(pieces) => StringOk(pieces)
    case Array(elements) => ElementsOk(elements)
    case Object(members) => MembersOk(members)
  }

  predicate ElementsOk(es: Elements) {
    match es
    case NoElements(blank) => Blank(blank)
    case Element(before, value, after, rest) => Blank(before) && ValueOk(value) && Blank(after) && ElementsOk(rest)
  }

  predicate MembersOk(ms: Members) {
    match ms
    case NoMembers(blank) => Blank(blank)
    case Member(before, key, mid, mid2, value, after, rest) =>
      Blank(before) && StringOk(key) && Blank(mid) && Blank(mid2) && ValueOk(value) && Blank(after) && MembersOk(rest)
  }

  function Render(v: Value): string {
    match v
    case Atom(text) => text
    case Text(pieces) => RenderString(pieces)
    case Array(elements) => "[" + RenderElements(elements) + "]"
    case Object(members) => "{" + RenderMembers(members) + "}"
  }

  function RenderObject(ms: Members): string {
    Render(Object(ms))
  }

  function RenderElements(es: Elements): string {
    match es
    case NoElements(blank) => blank
    case Element(before, value, after, rest) =>
      before + Render(value) + after + (if rest == NoElements("") then "" else "," + RenderElements(rest))
  }

  function RenderMembers(ms: Members): string {
    match ms
    case NoMembers(blank) => blank
    case Member(before, key, mid, mid2, value, after, rest) =>
      before + RenderString(key) + mid + ":" + mid2 + Render(value) + after
      + (if rest == NoMembers("") then "" else "," + RenderMembers(rest))
  }

  // ----- the machine over JSON text

  /** Characters that leave the machine alone outside strings. */
  predicate Quiet(s: string) {
    forall c :: c in s ==> c != '"' && c != '{' && c != '}'
  }

  lemma {:induction false} QuietRun(d: int, s: string)
    requires Quiet(s)
    ensures Run(At(d, false, false), s) == At(d, false, false)
  {
    if s != "" {
      var t := s[..|s| - 1];
      forall c | c in t ensures c in s {
      }
      assert Quiet(t);
      QuietRun(d, t);
      assert s[|s| - 1] in s;
    }
  }

  lemma BlankIsQuiet(s: string)
    requires Blank(s)
    ensures Quiet(s)
  {
  }

  lemma AtomIsQuiet(s: string)
    requires AtomOk(s)
    ensures Quiet(s)
  {
  }

  lemma {:induction false} PlainRun(d: int, s: string)
    requires forall c :: c in s ==> c != '"' && c != '\\'
    ensures Run(At(d, true, false), s) == At(d, true, false)
  {
    if s != "" {
      var t := s[..|s| - 1];
      forall c | c in t ensures c != '"' && c != '\\' {
        assert c in s;
      }
      PlainRun(d, t);
      assert s[|s| - 1] in s;
    }
  }

  lemma PieceRun(d: int, p: Piece)
    requires PieceOk(p)
    ensures Run(At(d, true, false), RenderPiece(p)) == At(d, true, false)
  {
    var st := At(d, true, false);
    match p {
      case Plain(c) => RunChar(st, c);
      case Escaped(c) =>
        assert ['\\', c] == ['\\'] + [c];
        RunAppend(st, ['\\'], [c]);
        RunChar(st, '\\');
        RunChar(At(d, true, true), c);
      case Unicode(hex) =>
        assert "\\u" + hex == ['\\'] + (['u'] + hex);
        RunAppend(st, ['\\'], ['u'] + hex);
        RunChar(st, '\\');
        RunAppend(At(d, true, true), ['u'], hex);
        RunChar(At(d, true, true), 'u');
        PlainRun(d, hex);
    }
  }

  lemma {:induction false} PiecesRun(d: int, ps: seq<Piece>)
    requires StringOk(ps)
    ensures Run(At(d, true, false), RenderPieces(ps)) == At(d, true, false)
  {
    if ps != [] {
      var n := |ps| - 1;
      PiecesRun(d, ps[..n]);
      PieceRun(d, ps[n]);
      RunAppend(At(d, true, false), RenderPieces(ps[..n]), RenderPiece(ps[n]));
    }
  }

  /** A string, whatever it holds, leaves the machine as it was. */
  lemma StringRun(d: int, ps: seq<Piece>)
    requires StringOk(ps)
    ensures Run(At(d, false, false), RenderString(ps)) == At(d, false, false)
  {
    var st := At(d, false, false);
    RunAppend(st, "\"" + RenderPieces(ps), "\"");
    RunAppend(st, "\"", RenderPieces(ps));
    RunChar(st, '"');
    PiecesRun(d, ps);
    RunChar(At(d, true, false), '"');
  }

  /** Pieces that each leave the machine alone do so together. */
  lemma Chain(d: int, a: string, b: string)
    requires Run(At(d, false, false), a) == At(d, false, false)
    requires Run(At(d, false, false), b) == At(d, false, false)
    ensures Run(At(d, false, false), a + b) == At(d, false, false)
  {
    RunAppend(At(d, false, false), a, b);
  }

  /** Inside an object, a value of any shape leaves the machine at the depth it was. */
  lemma {:induction false} ValueRun(d: int, v: Value)
    requires d >= 1 && ValueOk(v)
    ensures Run(At(d, false, false), Render(v)) == At(d, false, false)
    decreases v
  {
    match v {
      case Atom(text) => AtomIsQuiet(text); QuietRun(d, text);
      case Text(pieces) => StringRun(d, pieces);
      case Array(elements) =>
        ElementsRun(d, elements);
        QuietRun(d, "[");
        QuietRun(d, "]");
        Chain(d, "[", RenderElements(elements));
        Chain(d, "[" + RenderElements(elements), "]");
      case Object(members) =>
        MembersRun(d + 1, members);
        ObjectRun(d, members);
    }
  }

  /** An object opens one level and closes it with its last character. */
  lemma ObjectRun(d: int, ms: Members)
    requires Run(At(d + 1, false, false), RenderMembers(ms)) == At(d + 1, false, false)
    ensures Run(At(d, false, false), "{" + RenderMembers(ms)) == At(d + 1, false, false)
    ensures Run(At(d, false, false), RenderObject(ms)) == if d == 0 then Stopped else At(d, false, false)
  {
    var st := At(d, false, false);
    RunAppend(st, "{", RenderMembers(ms));
    RunChar(st, '{');
    RunAppend(st, "{" + RenderMembers(ms), "}");
    RunChar(At(d + 1, false, false), '}');
  }

  lemma {:induction false} ElementsRun(d: int, es: Elements)
    requires d >= 1 && ElementsOk(es)
    ensures Run(At(d, false, false), RenderElements(es)) == At(d, false, false)
    decreases es
  {
    match es {
      case NoElements(blank) => BlankIsQuiet(blank); QuietRun(d, blank);
      case Element(before, value, after, rest) =>
        BlankIsQuiet(before); QuietRun(d, before);
        BlankIsQuiet(after); QuietRun(d, after);
        ValueRun(d, value);
        Chain(d, before, Render(value));
        Chain(d, before + Render(value), after);
        ElementsRun(d, rest);
        QuietRun(d, ",");
        QuietRun(d, "");
        Chain(d, ",", RenderElements(rest));
        Chain(d, before + Render(value) + after, if rest == NoElements("") then "" else "," + RenderElements(rest));
    }
  }

  lemma {:induction false} MembersRun(d: int, ms: Members)
    requires d >= 1 && MembersOk(ms)
    ensures Run(At(d, false, false), RenderMembers(ms)) == At(d, false, false)
    decreases ms
  {
    match ms {
      case NoMembers(blank) => BlankIsQuiet(blank); QuietRun(d, blank);
      case Member(before, key, mid, mid2, value, after, rest) =>
        BlankIsQuiet(before); QuietRun(d, before);
        BlankIsQuiet(mid); QuietRun(d, mid);
        BlankIsQuiet(mid2); QuietRun(d, mid2);
        BlankIsQuiet(after); QuietRun(d, after);
        QuietRun(d, ":"); QuietRun(d, ","); QuietRun(d, "");
        StringRun(d, key);
        ValueRun(d, value);
        MembersRun(d, rest);
        Chain(d, before, RenderString(key));
        Chain(d, before + RenderString(key), mid);
        Chain(d, before + RenderString(key) + mid, ":");
        Chain(d, before + RenderString(key) + mid + ":", mid2);
        Chain(d, before + RenderString(key) + mid + ":" + mid2, Render(value));
        Chain(d, before + RenderString(key) + mid + ":" + mid2 + Render(value), after);
        Chain(d, ",", RenderMembers(rest));
        Chain(d, before + RenderString(key) + mid + ":" + mid2 + Render(value) + after,
              if rest == NoMembers("") then "" else "," + RenderMembers(rest));
    }
  }

  // ----- extraction undoes printing

  lemma FirstBraceIs(prefix: string, rest: string)
    requires '{' !in prefix && rest != "" && rest[0] == '{'
    ensures FirstBrace(prefix + rest) == |prefix|
  {
    assert (prefix + rest)[..|prefix|] == prefix;
    FirstBraceAt(prefix + rest, |prefix|);
  }

  lemma {:induction false} FirstBraceAt(s: string, i: nat)
    requires i < |s| && s[i] == '{' && '{' !in s[..i]
    ensures FirstBrace(s) == i
  {
    if i > 0 {
      assert s[0] == s[..i][0];
      assert s[..i] == [s[0]] + s[1..][..i - 1];
      FirstBraceAt(s[1..], i - 1);
    }
  }

  lemma ObjectStops(ms: Members, suffix: string)
    requires MembersOk(ms)
    ensures StopsAt(RenderObject(ms) + suffix, |RenderObject(ms)|)
  {
    var text := RenderObject(ms);
    MembersRun(1, ms);
    ObjectRun(0, ms);
    assert (text + suffix)[..|text|] == text;
    assert (text + suffix)[..|text| - 1] == "{" + RenderMembers(ms);
  }

  /** Any JSON object, after any text without an opening brace and before any text at all, is extracted exactly. */
  lemma ExtractUndoesRender(prefix: string, ms: Members, suffix: string)
    requires MembersOk(ms) && '{' !in prefix
    ensures Extract(prefix + RenderObject(ms) + suffix) == RenderObject(ms)
  {
    var text := RenderObject(ms);
    var s := prefix + text + suffix;
    assert s == prefix + (text + suffix);
    FirstBraceIs(prefix, text + suffix);
    assert s[|prefix|..] == text + suffix;
    ObjectStops(ms, suffix);
    ExtractIs(s, |text|);
    assert (text + suffix)[..|text|] == text;
  }

  /** The prefix recovers every object, whatever follows. */
  ghost predicate Recovers(prefix: string) {
    forall ms: Members, suffix: string ::
      MembersOk(ms) ==> Extract(prefix + RenderObject(ms) + suffix) == RenderObject(ms)
  }

  /** With a brace in the prefix, scanning starts there. */
  lemma BracedPrefixBegins(prefix: string, rest: string)
    requires '{' in prefix
    ensures var s := prefix + rest;
            s[FirstBrace(s)..] == prefix[FirstBrace(prefix)..] + rest
  {
    hide FirstBrace;
    var s, i := prefix + rest, FirstBrace(prefix);
    assert s[..i] == prefix[..i];
    FirstBraceAt(s, i);
    assert s[i..] == prefix[i..] + rest;
  }

  lemma ClosedPrefixWins(prefix: string, rest: string) returns (n: nat)
    requires '{' in prefix && Run(START, prefix[FirstBrace(prefix)..]) == Stopped
    ensures StopsAt(prefix[FirstBrace(prefix)..], n)
    ensures Extract(prefix + rest) == prefix[FirstBrace(prefix)..][..n]
  {
    var open := prefix[FirstBrace(prefix)..];
    n := StopsSomewhere(open);
    BracedPrefixBegins(prefix, rest);
    assert (open + rest)[..n] == open[..n] && (open + rest)[..n - 1] == open[..n - 1];
    ExtractIs(prefix + rest, n);
  }

  lemma PrefixOfTaken(open: string, rest: string, n: nat)
    requires rest != "" && |open| < n <= |open + rest|
    ensures open + [rest[0]] <= (open + rest)[..n]
  {
  }

  lemma OpenPrefixStays(prefix: string, rest: string)
    requires '{' in prefix && Run(START, prefix[FirstBrace(prefix)..]) != Stopped
    requires rest != "" && rest[0] == '{'
    ensures Extract(prefix + rest) == "{}" || prefix[FirstBrace(prefix)..] + "{" <= Extract(prefix + rest)
  {
    var open := prefix[FirstBrace(prefix)..];
    BracedPrefixBegins(prefix, rest);
    if n: nat :| StopsAt(open + rest, n) {
      ExtractIs(prefix + rest, n);
      StopsBeyond(open, rest, n);
      PrefixOfTaken(open, rest, n);
    }
  }

  lemma StopsBeyond(open: string, text: string, n: nat)
    requires Run(START, open) != Stopped
    requires StopsAt(open + text, n)
    ensures n > |open|
  {
    var t := open + text;
    assert t[..|open|] == open;
    if n <= |open| {
      StoppedMonotone(t, n, |open|);
    }
  }

  lemma TwoEmptyObjects()
    ensures MembersOk(NoMembers(" ")) && RenderObject(NoMembers(" ")) == "{ }"
    ensures MembersOk(NoMembers("  ")) && RenderObject(NoMembers("  ")) == "{  }"
  {
  }

  /** A closed object in the prefix is returned instead; an open one swallows what follows. */
  lemma BracedPrefixFails(prefix: string)
    requires '{' in prefix
    ensures Extract(prefix + "{ }") != "{ }" || Extract(prefix + "{  }") != "{  }"
  {
    var open := prefix[FirstBrace(prefix)..];
    assert open[0] == '{';
    if Run(START, open) == Stopped {
      var m := ClosedPrefixWins(prefix, "{ }");
      var n := ClosedPrefixWins(prefix, "{  }");
      StopsOnce(open, m, n);
      assert "{ }" != "{  }";
    } else {
      OpenPrefixStays(prefix, "{ }");
      NotAPrefix(open);
    }
  }

  lemma NotAPrefix(open: string)
    requires open != "" && open[0] == '{'
    ensures !(open + "{" <= "{ }")
  {
    var t := open + "{";
    assert t[|open|] == '{' && |open| > 0;
    assert "{ }"[1] != '{' && "{ }"[2] != '{';
  }

  /** A prefix recovers every object exactly when it holds no opening brace. */
  lemma RecoversExactly(prefix: string)
    ensures Recovers(prefix) <==> '{' !in prefix
  {
    hide Extract, MembersOk, RenderObject;
    if '{' !in prefix {
      forall ms: Members, suffix: string | MembersOk(ms)
        ensures Extract(prefix + RenderObject(ms) + suffix) == RenderObject(ms) {
        ExtractUndoesRender(prefix, ms, suffix);
      }
    } else {
      TwoEmptyObjects();
      BracedPrefixFails(prefix);
      var one, two := NoMembers(" "), NoMembers("  ");
      assert prefix + RenderObject(one) + "" == prefix + "{ }";
      assert prefix + RenderObject(two) + "" == prefix + "{  }";
      assert Extract(prefix + RenderObject(one) + "") != RenderObject(one)
          || Extract(prefix + RenderObject(two) + "") != RenderObject(two);
    }
  }
}
