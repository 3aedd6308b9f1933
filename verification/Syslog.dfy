/**
 Syslog output (backend/internal/alerts/alerts.go:281-305, 421-474) against readers written from RFC 5424 section 6
 (the line) and RFC 6587 section 3.4.1 (frames). Strings are byte strings; the rendered timestamp is a parameter.
 */
module Syslog {
  import opened Option
  import opened Alerts
  import Text

  // ----- writing

  function EscapeSD(s: string): string {
    if s == "" then ""
    else (if s[0] == '\\' then "\\\\" else if s[0] == '"' then "\\\"" else if s[0] == ']' then "\\]" else [s[0]])
         + EscapeSD(s[1..])
  }

  function Param(name: string, value: string): string {
    " " + name + "=\"" + EscapeSD(value) + "\""
  }

  function Element(a: Alert): string {
    "[isovalent@0" + Param("kind", a.kind) + Param("namespace", a.namespace_)
    + Param("workload", a.workload) + Param("policy", a.policy) + "]"
  }

  /** `strconv.Atoi`: an optional sign and at least one digit. */
  function Atoi(s: string): Option<int> {
    var digits := if s != "" && (s[0] == '-' || s[0] == '+') then s[1..] else s;
    if digits == "" || !Text.AllDigits(digits) then None
    else
      var n: int := Text.ValueOf(digits);
      Some(if s[0] == '-' then -n else n)
  }

  function LocalFacility(name: string): (f: nat)
    ensures 16 <= f <= 23
  {
    if Text.HasPrefix(name, "local") then
      var n := Atoi(name[5..]);
      if n.Some? && 0 <= n.value <= 7 then 16 + n.value else 16
    else 16
  }

  function SyslogSeverity(s: string): nat {
    if s == "critical" then 2 else 4
  }

  function Priority(target: string, severity: string): nat {
    8 * LocalFacility(target) + SyslogSeverity(severity)
  }

  const HOST := "isovalent-control"

  function Message(a: Alert): string {
    if a.detail == "" then a.title else a.title + " \U{E2}\U{80}\U{94} " + a.detail
  }

  function AfterVersion(ts: string, a: Alert): string {
    ts + " " + HOST + " " + HOST + " - " + a.kind + " " + (Element(a) + (" " + (Message(a) + "\n")))
  }

  function RenderSyslog(target: string, ts: string, a: Alert): string {
    "<" + (Text.Digits(Priority(target, a.severity)) + ">" + ("1 " + AfterVersion(ts, a)))
  }

  function Frame(line: string): string {
    Text.Digits(|line|) + " " + line
  }

  datatype Sent = Sent(network: string, addr: string, payload: string)

  /** Network and address of a collector; udp unless the URL names one. */
  function SplitNetwork(url: string): (string, string) {
    var i := IndexOf(url, "://");
    if i > 0 then (url[..i], url[i + 3..]) else ("udp", url)
  }

  function IndexOf(s: string, p: string): (i: int)
    ensures i == -1 || 0 <= i <= |s| - |p|
  {
    if |s| < |p| then -1
    else if p <= s then 0
    else var i := IndexOf(s[1..], p); if i < 0 then -1 else i + 1
  }

  /** What goes on the wire: one datagram, or one octet-counted frame on a stream. */
  method SendSyslog(route: Route, ts: string, a: Alert) returns (r: Result<Sent, string>)
    ensures r.Ok? <==> SplitNetwork(route.url).0 in {"udp", "tcp"}
    ensures r.Ok? ==> r.value.network == SplitNetwork(route.url).0 && r.value.addr == SplitNetwork(route.url).1
    ensures r.Ok? && r.value.network == "udp" ==> r.value.payload == RenderSyslog(route.target, ts, a)
    ensures r.Ok? && r.value.network == "tcp" ==>
              ReadFrames(r.value.payload) == Some([RenderSyslog(route.target, ts, a)])
  {
    hide RenderSyslog, IndexOf;
    var (network, addr) := SplitNetwork(route.url);
    if network != "udp" && network != "tcp" {
      return Err("syslog collector must be udp://host:port or tcp://host:port");
    }
    var line := RenderSyslog(route.target, ts, a);
    if network == "tcp" {
      LineIsNotEmpty(route.target, ts, a);
      FramesReadBack([line]);
      assert [line][1..] == [];
      assert Frames([line]) == Frame(line);
      line := Frame(line);
    }
    return Ok(Sent(network, addr, line));
  }

  lemma LineIsNotEmpty(target: string, ts: string, a: Alert)
    ensures RenderSyslog(target, ts, a) != ""
  {
  }

  // ----- reading, RFC 5424

  /** The text up to a delimiter, and what follows it. */
  function ReadUntil(s: string, c: char): Option<(string, string)> {
    if s == "" then None
    else if s[0] == c then Some(("", s[1..]))
    else match ReadUntil(s[1..], c)
      case None => None
      case Some((field, rest)) => Some(([s[0]] + field, rest))
  }

  /** A parameter value (section 6.3.3): up to an unescaped quote; a bare closing bracket is an error. */
  function ReadValue(s: string): (r: Option<(string, string)>)
    ensures r.Some? ==> |r.value.1| < |s|
  {
    if s == "" || s[0] == ']' then None
    else if s[0] == '"' then Some(("", s[1..]))
    else if s[0] == '\\' && |s| > 1 && (s[1] == '\\' || s[1] == '"' || s[1] == ']') then Cons(s[1], ReadValue(s[2..]))
    else Cons(s[0], ReadValue(s[1..]))
  }

  function Cons(c: char, r: Option<(string, string)>): Option<(string, string)> {
    if r.None? then None else Some(([c] + r.value.0, r.value.1))
  }

  type Params = seq<(string, string)>

  /** Parameters (section 6.3.3) up to the closing bracket of the element. */
  function ReadParams(s: string): Option<(Params, string)>
    decreases |s|
  {
    if s == "" then None
    else if s[0] == ']' then Some(([], s[1..]))
    else if s[0] != ' ' then None
    else
      var name := ReadUntil(s[1..], '=');
      if name.None? then None else
      ReadUntilShrinks(s[1..], '=');
      var v := name.value.1;
      if v == "" || v[0] != '"' then None else
      var value := ReadValue(v[1..]);
      if value.None? then None else
      match ReadParams(value.value.1)
        case None => None
        case Some((ps, rest)) => Some(([(name.value.0, value.value.0)] + ps, rest))
  }

  lemma {:induction false} ReadUntilShrinks(s: string, c: char)
    ensures ReadUntil(s, c).Some? ==> |ReadUntil(s, c).value.1| < |s| && c !in ReadUntil(s, c).value.0
  {
    if s != "" && s[0] != c {
      ReadUntilShrinks(s[1..], c);
    }
  }

  datatype Line = Line(
    facility: nat, severity: nat, timestamp: string, host: string, app: string, procid: string, msgid: string,
    params: Params, msg: string)

  /** The header fields after the version, each ended by a space. */
  function ReadFields(s: string, n: nat): Option<(seq<string>, string)>
    decreases n
  {
    if n == 0 then Some(([], s)) else
    match ReadUntil(s, ' ')
      case None => None
      case Some((field, rest)) =>
        match ReadFields(rest, n - 1)
          case None => None
          case Some((fields, rest')) => Some(([field] + fields, rest'))
  }

  /** A header field: up to `max` printable ASCII characters, and at least one. */
  predicate Printable(field: string, max: nat) {
    1 <= |field| <= max && forall c :: c in field ==> '!' <= c <= '~'
  }

  /** What section 6 takes as a message identifier. */
  predicate MessageId(field: string) {
    Printable(field, 32)
  }

  /** Host name, application, process and message identifier; the time stamp is any text. */
  predicate HeaderOk(h: seq<string>) {
    |h| == 5 && Printable(h[1], 255) && Printable(h[2], 48) && Printable(h[3], 128) && MessageId(h[4])
  }

  /** A line of section 6: priority, version 1, five header fields, one element of the console's id, message. */
  function ReadLine(s: string): Option<Line> {
    if s == "" || s[0] != '<' then None else
    var pri := ReadUntil(s[1..], '>');
    if pri.None? || pri.value.0 == "" || !Text.AllDigits(pri.value.0) || Text.ValueOf(pri.value.0) > 191 then None else
    if !Text.HasPrefix(pri.value.1, "1 ") then None else
    var header := ReadFields(pri.value.1[2..], 5);
    if header.None? || !HeaderOk(header.value.0) || !Text.HasPrefix(header.value.1, "[isovalent@0") then None else
    var sd := ReadParams(header.value.1[12..]);
    if sd.None? || sd.value.1 == "" || sd.value.1[0] != ' ' then None else
    var p, h := Text.ValueOf(pri.value.0), header.value.0;
    Some(Line(p / 8, p % 8, h[0], h[1], h[2], h[3], h[4], sd.value.0, sd.value.1[1..]))
  }

  // ----- round trips

  lemma {:induction false} UntilReadsBack(field: string, c: char, rest: string)
    requires c !in field
    ensures ReadUntil(field + [c] + rest, c) == Some((field, rest))
  {
    var s := field + [c] + rest;
    if field == "" {
      assert s[1..] == rest;
    } else {
      assert s[0] == field[0] && s[0] in field;
      assert s[1..] == field[1..] + [c] + rest;
      UntilReadsBack(field[1..], c, rest);
      assert field == [field[0]] + field[1..];
    }
  }

  /** Escaping hides every quote and bracket: any value reads back. */
  lemma {:induction false} ValueReadsBack(v: string, rest: string)
    ensures ReadValue(EscapeSD(v) + "\"" + rest) == Some((v, rest))
  {
    var s := EscapeSD(v) + "\"" + rest;
    if v == "" {
      assert s[1..] == rest;
    } else {
      var tail := EscapeSD(v[1..]) + "\"" + rest;
      ValueReadsBack(v[1..], rest);
      assert v == [v[0]] + v[1..];
      if v[0] == '\\' || v[0] == '"' || v[0] == ']' {
        assert s == ['\\', v[0]] + tail;
        assert s[2..] == tail;
      } else {
        assert s == [v[0]] + tail;
        assert s[1..] == tail;
      }
    }
  }

  lemma ParamReadsBack(name: string, value: string, more: string)
    requires '=' !in name
    ensures ReadParams(Param(name, value) + more) ==
            match ReadParams(more)
            case None => None
            case Some((ps, rest)) => Some(([(name, value)] + ps, rest))
  {
    hide ReadUntil, ReadValue, EscapeSD;
    var s := Param(name, value) + more;
    var v := "\"" + EscapeSD(value) + "\"" + more;
    assert s[1..] == name + ['='] + v;
    UntilReadsBack(name, '=', v);
    assert v[1..] == EscapeSD(value) + "\"" + more;
    ValueReadsBack(value, more);
  }

  function Fields(a: Alert): Params {
    [("kind", a.kind), ("namespace", a.namespace_), ("workload", a.workload), ("policy", a.policy)]
  }

  /** The four parameters read back from the element, for all strings, and nothing after it is touched. */
  lemma ElementReadsBack(a: Alert, rest: string)
    ensures Text.HasPrefix(Element(a) + rest, "[isovalent@0")
    ensures ReadParams((Element(a) + rest)[12..]) == Some((Fields(a), rest))
  {
    hide Param;
    var s4 := "]" + rest;
    var s3 := Param("policy", a.policy) + s4;
    var s2 := Param("workload", a.workload) + s3;
    var s1 := Param("namespace", a.namespace_) + s2;
    var s0 := Param("kind", a.kind) + s1;
    assert s4[1..] == rest;
    assert Element(a) + rest == "[isovalent@0" + s0;
    assert ("[isovalent@0" + s0)[12..] == s0;
    ParamReadsBack("policy", a.policy, s4);
    ParamReadsBack("workload", a.workload, s3);
    ParamReadsBack("namespace", a.namespace_, s2);
    ParamReadsBack("kind", a.kind, s1);
    var none: Params := [];
    assert [("kind", a.kind)] +
        ([("namespace", a.namespace_)] + ([("workload", a.workload)] + ([("policy", a.policy)] + none)))
        == Fields(a);
  }

  lemma FieldReadsBack(field: string, more: string, n: nat)
    requires ' ' !in field
    ensures ReadFields(field + " " + more, n + 1) ==
            match ReadFields(more, n)
            case None => None
            case Some((fields, rest)) => Some(([field] + fields, rest))
  {
    hide ReadUntil;
    UntilReadsBack(field, ' ', more);
    assert field + " " + more == field + [' '] + more;
  }

  lemma HeaderReadsBack(ts: string, kind: string, rest: string)
    requires ' ' !in ts && ' ' !in kind
    ensures ReadFields(ts + " " + HOST + " " + HOST + " - " + kind + " " + rest, 5) ==
            Some(([ts, HOST, HOST, "-", kind], rest))
  {
    hide ReadFields;
    var s4 := kind + " " + rest;
    var s3 := "-" + " " + s4;
    var s2 := HOST + " " + s3;
    var s1 := HOST + " " + s2;
    assert ts + " " + HOST + " " + HOST + " - " + kind + " " + rest == ts + " " + s1;
    NoFields(rest);
    FieldReadsBack(kind, rest, 0);
    FieldReadsBack("-", s4, 1);
    FieldReadsBack(HOST, s3, 2);
    FieldReadsBack(HOST, s2, 3);
    FieldReadsBack(ts, s1, 4);
    var none: seq<string> := [];
    assert [ts] + ([HOST] + ([HOST] + (["-"] + ([kind] + none)))) == [ts, HOST, HOST, "-", kind];
  }

  lemma NoFields(rest: string)
    ensures ReadFields(rest, 0) == Some(([], rest))
  {
  }

  /** The priority is one the standard allows (section 6.2.1) and decodes to the facility and severity chosen. */
  lemma PriorityDecodes(target: string, severity: string)
    ensures 0 <= Priority(target, severity) <= 191
    ensures Priority(target, severity) / 8 == LocalFacility(target)
    ensures Priority(target, severity) % 8 == if severity == "critical" then 2 else 4
  {
    hide LocalFacility;
  }

  /** The eight facilities the menu offers. */
  lemma LocalNames(n: nat)
    requires n <= 7
    ensures LocalFacility("local" + Text.Digits(n)) == 16 + n
  {
    var name := "local" + Text.Digits(n);
    assert name[5..] == Text.Digits(n);
    Text.DigitsRoundTrip(n);
    var d := Text.Digits(n);
    assert Text.IsDigit(d[0]);
  }

  /** A numeral below ten is its last digit after zeros. */
  lemma {:induction false} SmallNumeral(s: string, n: nat)
    requires Text.AllDigits(s) && s != "" && n < 10
    ensures Text.ValueOf(s) == n <==> (forall i :: 0 <= i < |s| - 1 ==> s[i] == '0') && s[|s| - 1] == Text.Digit(n)
  {
    var k := |s| - 1;
    var init := s[..k];
    assert Text.IsDigit(s[k]);
    if init != "" {
      SmallNumeral(init, 0);
      assert Text.Digit(0) == '0';
      assert forall i :: 0 <= i < k ==> init[i] == s[i];
    }
  }

  predicate ZerosAndDigit(digits: string, n: nat)
    requires n < 10
  {
    digits != "" && (forall i :: 0 <= i < |digits| - 1 ==> digits[i] == '0') && digits[|digits| - 1] == Text.Digit(n)
  }

  /** "local", perhaps a plus sign, any zeros, and the digit. */
  predicate NamesLocal(name: string, n: nat)
    requires n < 10
  {
    && Text.HasPrefix(name, "local")
    && |name| > 5
    && ZerosAndDigit(if name[5] == '+' then name[6..] else name[5..], n)
  }

  lemma ZerosAndDigitRead(digits: string, n: nat)
    requires n < 10
    ensures ZerosAndDigit(digits, n) <==> digits != "" && Text.AllDigits(digits) && Text.ValueOf(digits) == n
  {
    if digits != "" && Text.AllDigits(digits) {
      SmallNumeral(digits, n);
    }
    if ZerosAndDigit(digits, n) {
      forall i | 0 <= i < |digits| ensures Text.IsDigit(digits[i]) {
        assert i < |digits| - 1 || digits[i] == Text.Digit(n);
      }
    }
  }

  /** The facilities above local0 are chosen by exactly these names; everything else is local0. */
  lemma LocalNamesExactly(name: string, n: nat)
    requires 1 <= n <= 7
    ensures LocalFacility(name) == 16 + n <==> NamesLocal(name, n)
  {
    hide Text.ValueOf, ZerosAndDigit;
    if Text.HasPrefix(name, "local") && |name| > 5 {
      ZerosAndDigitRead(name[5..], n);
      ZerosAndDigitRead(name[6..], n);
      assert name[5..][1..] == name[6..] && name[5..][0] == name[5];
      SignIsNoDigit(name[5..]);
    }
  }

  lemma SignIsNoDigit(s: string)
    ensures s != "" && (s[0] == '-' || s[0] == '+') ==> !Text.AllDigits(s)
  {
  }

  lemma PriorityReadsBack(p: nat, rest: string)
    ensures Text.Digits(p) != "" && Text.AllDigits(Text.Digits(p))
    ensures ReadUntil(Text.Digits(p) + ">" + rest, '>') == Some((Text.Digits(p), rest))
    ensures Text.ValueOf(Text.Digits(p)) == p
  {
    forall i | 0 <= i < |Text.Digits(p)| ensures Text.Digits(p)[i] != '>' {
      assert Text.IsDigit(Text.Digits(p)[i]);
    }
    UntilReadsBack(Text.Digits(p), '>', rest);
    Text.DigitsRoundTrip(p);
  }

  /** What a conforming reader makes of the line. */
  function Intended(target: string, ts: string, a: Alert): Line {
    Line(LocalFacility(target), if a.severity == "critical" then 2 else 4, ts, "isovalent-control", "isovalent-control",
         "-", a.kind, Fields(a),
         (if a.detail == "" then a.title else a.title + " \U{E2}\U{80}\U{94} " + a.detail) + "\n")
  }

  lemma IntendedIs(target: string, ts: string, a: Alert)
    ensures Intended(target, ts, a) ==
            Line(LocalFacility(target), SyslogSeverity(a.severity), ts, HOST, HOST, "-", a.kind, Fields(a),
                 Message(a) + "\n")
  {
  }

  lemma HeadersReadBack(ts: string, a: Alert)
    requires ' ' !in ts && ' ' !in a.kind
    ensures ReadFields(AfterVersion(ts, a), 5)
         == Some(([ts, HOST, HOST, "-", a.kind], Element(a) + (" " + (Message(a) + "\n"))))
  {
    hide ReadFields, Element, Message;
    HeaderReadsBack(ts, a.kind, Element(a) + (" " + (Message(a) + "\n")));
  }

  lemma ConsoleHeaderOk(ts: string, kind: string)
    requires MessageId(kind)
    ensures HeaderOk([ts, HOST, HOST, "-", kind]) && ' ' !in kind
  {
    assert |HOST| == 17 && forall c :: c in HOST ==> '!' <= c <= '~';
  }

  lemma PlainLineReadsBack(target: string, ts: string, a: Alert)
    requires ' ' !in ts && MessageId(a.kind)
    ensures ReadLine(RenderSyslog(target, ts, a)) == Some(Intended(target, ts, a))
  {
    hide ReadUntil, ReadFields, ReadParams, Element, Message, Text.Digits, Text.ValueOf, Priority, LocalFacility,
         AfterVersion, HeaderOk, MessageId, Intended;
    ConsoleHeaderOk(ts, a.kind);
    IntendedIs(target, ts, a);
    var p := Priority(target, a.severity);
    var s, rest := RenderSyslog(target, ts, a), "1 " + AfterVersion(ts, a);
    assert s[1..] == Text.Digits(p) + ">" + rest;
    PriorityReadsBack(p, rest);
    PriorityDecodes(target, a.severity);
    assert rest[2..] == AfterVersion(ts, a);
    HeadersReadBack(ts, a);
    var tail := " " + (Message(a) + "\n");
    ElementReadsBack(a, tail);
    assert tail[1..] == Message(a) + "\n";
  }

  /** The whole line reads back exactly when the kind is a message identifier, as which it is sent. */
  lemma LineReadsBackExactly(target: string, ts: string, a: Alert)
    requires ' ' !in ts
    ensures ReadLine(RenderSyslog(target, ts, a)) == Some(Intended(target, ts, a)) <==> MessageId(a.kind)
  {
    hide RenderSyslog, MessageId, ReadLine;
    if MessageId(a.kind) {
      PlainLineReadsBack(target, ts, a);
    } else if ReadLine(RenderSyslog(target, ts, a)) == Some(Intended(target, ts, a)) {
      ReadIsMessageId(RenderSyslog(target, ts, a));
    }
  }

  lemma ReadIsMessageId(s: string)
    requires ReadLine(s).Some?
    ensures MessageId(ReadLine(s).value.msgid)
  {
    hide ReadUntil, ReadFields, ReadParams, MessageId, Text.AllDigits, Text.ValueOf;
  }

  // ----- frames, RFC 6587 section 3.4.1

  /** Each frame is a length without leading zeros, a space, and that many octets. */
  function ReadFrames(s: string): Option<seq<string>>
    decreases |s|
  {
    if s == "" then Some([]) else
    var len := ReadUntil(s, ' ');
    if len.None? || len.value.0 == "" || len.value.0[0] == '0' || !Text.AllDigits(len.value.0) then None else
    ReadUntilShrinks(s, ' ');
    var n, rest := Text.ValueOf(len.value.0), len.value.1;
    if n > |rest| then None else
    match ReadFrames(rest[n..])
      case None => None
      case Some(lines) => Some([rest[..n]] + lines)
  }

  function Frames(lines: seq<string>): string {
    if lines == [] then "" else Frame(lines[0]) + Frames(lines[1..])
  }

  lemma {:induction false} NoLeadingZero(n: nat)
    requires n > 0
    ensures Text.Digits(n)[0] != '0'
  {
    if n >= 10 {
      NoLeadingZero(n / 10);
    }
  }

  lemma FrameReadsBack(line: string, more: string)
    requires line != ""
    ensures ReadFrames(Frame(line) + more) ==
            match ReadFrames(more)
            case None => None
            case Some(lines) => Some([line] + lines)
  {
    hide ReadUntil, Text.ValueOf;
    var d := Text.Digits(|line|);
    var s, rest := Frame(line) + more, line + more;
    assert s == d + [' '] + rest;
    forall i | 0 <= i < |d| ensures d[i] != ' ' {
      assert Text.IsDigit(d[i]);
    }
    UntilReadsBack(d, ' ', rest);
    Text.DigitsRoundTrip(|line|);
    NoLeadingZero(|line|);
    assert rest[..|line|] == line && rest[|line|..] == more;
  }

  /** Any lines sent one after another are received as exactly those lines. */
  lemma {:induction false} FramesReadBack(lines: seq<string>)
    requires forall l :: l in lines ==> l != ""
    ensures ReadFrames(Frames(lines)) == Some(lines)
  {
    if lines != [] {
      assert lines[0] in lines && forall l :: l in lines[1..] ==> l in lines;
      FramesReadBack(lines[1..]);
      FrameReadsBack(lines[0], Frames(lines[1..]));
      assert lines == [lines[0]] + lines[1..];
    }
  }
}
