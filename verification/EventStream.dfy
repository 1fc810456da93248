/** Event-stream framing: the parser of the upstream stream (StreamEvents in
    internal/opencode/client.go) and the printer of the relay (internal/server/stream.go).
    A stream is a sequence of bytes, each written as a character. */
module EventStream {

  type Bytes = string

  /** White space as bytes.TrimSpace sees it in ASCII text. */
  predicate IsBlank(c: char) {
    '\t' <= c <= '\r' || c == ' '
  }

  function StripLeft(b: Bytes): Bytes {
    if b != [] && IsBlank(b[0]) then StripLeft(b[1..]) else b
  }

  function StripRight(b: Bytes): Bytes {
    if b != [] && IsBlank(b[|b| - 1]) then StripRight(b[..|b| - 1]) else b
  }

  function Strip(b: Bytes): Bytes {
    StripRight(StripLeft(b))
  }

  function DropSuffix(b: Bytes, c: char): Bytes {
    if b != [] && b[|b| - 1] == c then b[..|b| - 1] else b
  }

  /** trimCRLF: one newline, then one carriage return. */
  function TrimCRLF(line: Bytes): Bytes {
    DropSuffix(DropSuffix(line, '\n'), '\r')
  }

  /** Length of the first line with its newline, or of everything if there is none. */
  function LineEnd(s: Bytes): (n: nat)
    requires s != []
    ensures 1 <= n <= |s|
    ensures '\n' !in s[..n - 1]
    ensures n < |s| ==> s[n - 1] == '\n'
  {
    if |s| == 1 || s[0] == '\n' then 1 else 1 + LineEnd(s[1..])
  }

  const FIELD := "data:"

  predicate IsData(line: Bytes) {
    |line| >= 5 && line[..5] == FIELD
  }

  /** The events of the rest of a stream, with `buf` accumulated so far: data lines are
      joined without a separator, and a blank line or the end of the stream emits. */
  function Events(buf: Bytes, s: Bytes): seq<Bytes>
    decreases |s|
  {
    if s == [] then (if buf == [] then [] else [buf])
    else
      var n := LineEnd(s);
      var line := TrimCRLF(s[..n]);
      if IsData(line) then Events(buf + Strip(line[5..]), s[n..])
      else if line == [] && buf != [] then [buf] + Events([], s[n..])
      else Events(buf, s[n..])
  }

  function Parse(s: Bytes): seq<Bytes> {
    Events([], s)
  }

  lemma EmitStep(events: seq<Bytes>, buf: Bytes, more: seq<Bytes>)
    ensures events + ([buf] + more) == (events + [buf]) + more
  {
  }

  /** StreamEvents, reading line by line; `events` are the calls of onEvent. */
  method StreamEvents(body: Bytes) returns (events: seq<Bytes>)
    ensures events == Parse(body)
  {
    events := [];
    var buf: Bytes := [];
    var rest := body;
    ghost var goal := Parse(body);
    while |rest| > 0
      invariant events + Events(buf, rest) == goal
      decreases |rest|
    {
      var n := LineEnd(rest);
      var trimmed := TrimCRLF(rest[..n]);
      rest := rest[n..];
      if IsData(trimmed) {
        buf := buf + Strip(trimmed[5..]);
      } else if |trimmed| == 0 && |buf| > 0 {
        EmitStep(events, buf, Events([], rest));
        events := events + [buf];
        buf := [];
      }
    }
    if |buf| > 0 {
      events := events + [buf];
    }
  }

  // ----- the relay -----

  function Frame(e: Bytes): Bytes {
    "data: " + e + "\n\n"
  }

  const PREAMBLE := "event: connected\ndata: {}\n\n"

  function Frames(events: seq<Bytes>): Bytes {
    if events == [] then [] else Frame(events[0]) + Frames(events[1..])
  }

  /** Everything the relay writes for these events. */
  function Relay(events: seq<Bytes>): Bytes {
    PREAMBLE + Frames(events)
  }

  /** A payload that survives printing and parsing. */
  predicate Payload(e: Bytes) {
    e != [] && '\n' !in e && !IsBlank(e[0]) && !IsBlank(e[|e| - 1])
  }

  lemma {:induction false} StripLeftForm(b: Bytes)
    ensures StripLeft(b) == [] || !IsBlank(StripLeft(b)[0])
    ensures forall c | c in StripLeft(b) :: c in b
  {
    if b != [] && IsBlank(b[0]) {
      StripLeftForm(b[1..]);
    }
  }

  lemma {:induction false} StripRightForm(b: Bytes)
    ensures StripRight(b) == [] || (!IsBlank(StripRight(b)[|StripRight(b)| - 1]) && StripRight(b)[0] == b[0])
    ensures forall c | c in StripRight(b) :: c in b
  {
    if b != [] && IsBlank(b[|b| - 1]) {
      StripRightForm(b[..|b| - 1]);
    }
  }

  lemma StripMakesPayload(b: Bytes)
    requires '\n' !in b
    ensures Strip(b) == [] || Payload(Strip(b))
  {
    StripLeftForm(b);
    StripRightForm(StripLeft(b));
  }

  lemma LineHasNoNewline(s: Bytes)
    requires s != []
    ensures '\n' !in TrimCRLF(s[..LineEnd(s)])
  {
    var n := LineEnd(s);
    var line := s[..n];
    assert line == s[..n - 1] + [s[n - 1]];
    assert line[..n - 1] == s[..n - 1];
  }

  /** Every emitted event is non-empty, on one line, and trimmed. */
  lemma {:induction false} EventsArePayloads(buf: Bytes, s: Bytes)
    requires buf == [] || Payload(buf)
    ensures forall k | 0 <= k < |Events(buf, s)| :: Payload(Events(buf, s)[k])
    decreases |s|
  {
    if s != [] {
      var n := LineEnd(s);
      var line := TrimCRLF(s[..n]);
      LineHasNoNewline(s);
      if IsData(line) {
        StripMakesPayload(line[5..]);
        EventsArePayloads(buf + Strip(line[5..]), s[n..]);
      } else if line == [] && buf != [] {
        EventsArePayloads([], s[n..]);
      } else {
        EventsArePayloads(buf, s[n..]);
      }
    }
  }

  // ----- parsing any stream -----

  lemma {:induction false} StripLeftSkips(a: Bytes, b: Bytes)
    requires forall k | 0 <= k < |a| :: IsBlank(a[k])
    ensures StripLeft(a + b) == StripLeft(b)
  {
    if a == [] {
      assert a + b == b;
    } else {
      assert (a + b)[1..] == a[1..] + b;
      StripLeftSkips(a[1..], b);
    }
  }

  lemma {:induction false} StripRightSkips(b: Bytes, a: Bytes)
    requires forall k | 0 <= k < |a| :: IsBlank(a[k])
    ensures StripRight(b + a) == StripRight(b)
  {
    if a == [] {
      assert b + a == b;
    } else {
      assert (b + a)[..|b + a| - 1] == b + a[..|a| - 1];
      StripRightSkips(b, a[..|a| - 1]);
    }
  }

  /** Blanks at the ends go, and nothing else. */
  lemma StripExactly(a: Bytes, e: Bytes, b: Bytes)
    requires forall k | 0 <= k < |a| :: a[k] in " \t\U{000B}\U{000C}\r\n"
    requires forall k | 0 <= k < |b| :: b[k] in " \t\U{000B}\U{000C}\r\n"
    requires e != "" ==> e[0] !in " \t\U{000B}\U{000C}\r\n" && e[|e| - 1] !in " \t\U{000B}\U{000C}\r\n"
    ensures Strip(a + e + b) == e
  {
    BlanksListed();
    StripLeftSkips(a, e + b);
    assert a + (e + b) == a + e + b;
    if e == "" {
      StripLeftSkips(b, "");
      assert e + b == b && b + "" == b;
    } else {
      StripRightSkips(e, b);
    }
  }

  /** A line other than a blank one, with the end it was written with. */
  datatype Line = Data(text: Bytes, eol: Bytes) | Other(text: Bytes, eol: Bytes)

  function Content(l: Line): Bytes {
    match l
    case Data(text, _) => "data:" + text
    case Other(text, _) => text
  }

  predicate IsEol(eol: Bytes, content: Bytes) {
    eol == "\r\n" || (eol == "\n" && (content == "" || content[|content| - 1] != '\r'))
  }

  predicate Proper(l: Line) {
    && '\n' !in l.text && IsEol(l.eol, Content(l)) && Content(l) != ""
    && (l.Other? ==> !(|l.text| >= 5 && l.text[..5] == "data:"))
  }

  function Block(lines: seq<Line>): Bytes {
    if lines == [] then [] else Content(lines[0]) + lines[0].eol + Block(lines[1..])
  }

  /** What a line carries: the trimmed text of a data line, and nothing otherwise. */
  function Load(l: Line): Bytes {
    if l.Data? then Strip(l.text) else []
  }

  /** What the lines of a block carry, joined without a separator. */
  function Carried(lines: seq<Line>): Bytes {
    if lines == [] then [] else Load(lines[0]) + Carried(lines[1..])
  }

  function OneEvent(data: Bytes): seq<Bytes> {
    if data == "" then [] else [data]
  }

  lemma LineConsumed(buf: Bytes, content: Bytes, eol: Bytes, rest: Bytes)
    requires '\n' !in content && IsEol(eol, content)
    ensures Events(buf, content + eol + rest) ==
            if IsData(content) then Events(buf + Strip(content[5..]), rest)
            else if content == [] && buf != [] then [buf] + Events([], rest)
            else Events(buf, rest)
  {
    if eol == "\n" {
      EventsOfLine(buf, content, rest);
      assert content + eol + rest == content + ['\n'] + rest;
    } else {
      var line := content + ['\r'];
      var s := line + ['\n'] + rest;
      assert content + eol + rest == s;
      LineEndIs(line, rest);
      assert s[..|line| + 1] == line + ['\n'] && s[|line| + 1..] == rest;
      assert DropSuffix(line + ['\n'], '\n') == line && DropSuffix(line, '\r') == content;
      EventsStep(buf, s, content, rest);
    }
  }

  lemma ContentIsData(l: Line)
    requires Proper(l)
    ensures '\n' !in Content(l) && (IsData(Content(l)) <==> l.Data?)
    ensures l.Data? ==> Content(l)[5..] == l.text
  {
    if l.Data? {
      assert Content(l)[..5] == "data:" && Content(l)[5..] == l.text;
      assert forall k | 0 <= k < 5 :: "data:"[k] != '\n';
    }
  }

  /** What is pending after a line. */
  function Pending(buf: Bytes, l: Line): Bytes {
    if l.Data? then buf + Strip(l.text) else buf
  }

  lemma LineTaken(buf: Bytes, l: Line, rest: Bytes)
    requires Proper(l)
    ensures Events(buf, Content(l) + l.eol + rest) == Events(Pending(buf, l), rest)
  {
    ContentIsData(l);
    LineConsumed(buf, Content(l), l.eol, rest);
  }

  lemma BlankTaken(buf: Bytes, eol: Bytes, rest: Bytes)
    requires eol == "\n" || eol == "\r\n"
    ensures Events(buf, eol + rest) == OneEvent(buf) + Events([], rest)
  {
    var none: Bytes := [];
    LineConsumed(buf, none, eol, rest);
    assert none + eol == eol;
  }

  lemma FirstLine(lines: seq<Line>, rest: Bytes)
    requires lines != []
    ensures Block(lines) + rest == Content(lines[0]) + lines[0].eol + (Block(lines[1..]) + rest)
  {
  }

  lemma FirstCarried(buf: Bytes, lines: seq<Line>)
    requires lines != []
    ensures Pending(buf, lines[0]) + Carried(lines[1..]) == buf + Carried(lines)
  {
    assert Pending(buf, lines[0]) == buf + Load(lines[0]);
    Associative(buf, Load(lines[0]), Carried(lines[1..]));
  }

  lemma Associative<T>(a: seq<T>, b: seq<T>, c: seq<T>)
    ensures a + (b + c) == (a + b) + c
  {
  }

  lemma {:induction false} BlockConsumed(buf: Bytes, lines: seq<Line>, rest: Bytes)
    requires forall k | 0 <= k < |lines| :: Proper(lines[k])
    ensures Events(buf, Block(lines) + rest) == Events(buf + Carried(lines), rest)
    decreases |lines|
  {
    if lines == [] {
      assert Block(lines) + rest == rest && buf + Carried(lines) == buf;
    } else {
      FirstLine(lines, rest);
      LineTaken(buf, lines[0], Block(lines[1..]) + rest);
      BlockConsumed(Pending(buf, lines[0]), lines[1..], rest);
      FirstCarried(buf, lines);
    }
  }

  lemma BlockStarts(lines: seq<Line>, rest: Bytes)
    requires forall k | 0 <= k < |lines| :: Proper(lines[k])
    ensures Parse(Block(lines) + rest) == Events(Carried(lines), rest)
  {
    var none: Bytes := [];
    BlockConsumed(none, lines, rest);
    assert none + Carried(lines) == Carried(lines);
  }

  /** A block of lines up to a blank one is one event, of what its data lines carry, or none
      if they carry nothing. */
  lemma BlockParses(lines: seq<Line>, eol: Bytes, rest: Bytes)
    requires (forall k | 0 <= k < |lines| :: Proper(lines[k])) && (eol == "\n" || eol == "\r\n")
    ensures Parse(Block(lines) + eol + rest) == OneEvent(Carried(lines)) + Parse(rest)
  {
    Associative(Block(lines), eol, rest);
    BlockStarts(lines, eol + rest);
    BlankTaken(Carried(lines), eol, rest);
  }

  /** So is a block up to the end of the stream, whose last line may lack its end. */
  lemma EndParses(lines: seq<Line>, last: Line)
    requires (forall k | 0 <= k < |lines| :: Proper(lines[k])) && Proper(last) && last.eol == "\n"
    ensures Parse(Block(lines)) == OneEvent(Carried(lines))
    ensures Parse(Block(lines) + Content(last)) == OneEvent(Carried(lines + [last]))
  {
    var none: Bytes := [];
    BlockStarts(lines, none);
    assert Block(lines) + none == Block(lines);
    BlockStarts(lines, Content(last));
    UnendedLine(Carried(lines), last);
    CarriedLast(lines, last);
    assert Pending(Carried(lines), last) == Carried(lines) + Load(last);
  }

  lemma {:induction false} CarriedLast(lines: seq<Line>, last: Line)
    ensures Carried(lines + [last]) == Carried(lines) + Load(last)
  {
    var all := lines + [last];
    if lines == [] {
      assert all[1..] == [];
    } else {
      assert all[1..] == lines[1..] + [last];
      CarriedLast(lines[1..], last);
      Associative(Load(lines[0]), Carried(lines[1..]), Load(last));
    }
  }

  lemma UnendedLine(buf: Bytes, l: Line)
    requires Proper(l) && l.eol == "\n"
    ensures Events(buf, Content(l)) == OneEvent(Pending(buf, l))
  {
    ContentIsData(l);
    UnendedText(buf, Content(l));
  }

  lemma UnendedText(buf: Bytes, s: Bytes)
    requires s != [] && '\n' !in s && s[|s| - 1] != '\r'
    ensures Events(buf, s) == OneEvent(if IsData(s) then buf + Strip(s[5..]) else buf)
  {
    var none: Bytes := [];
    WholeLine(s);
    assert s[..|s|] == s && s[|s|..] == none && TrimCRLF(s) == s;
    EventsStep(buf, s, s, none);
  }

  lemma {:induction false} WholeLine(s: Bytes)
    requires s != [] && '\n' !in s
    ensures LineEnd(s) == |s|
  {
    if |s| > 1 {
      WholeLine(s[1..]);
    }
  }

  // ----- parsing what was printed -----

  lemma BlanksListed()
    ensures forall c: char :: IsBlank(c) <==> c in " \t\U{000B}\U{000C}\r\n"
  {
    var blanks := " \t\U{000B}\U{000C}\r\n";
    assert blanks[0] == ' ' && blanks[1] == '\t' && blanks[2] == '\U{000B}';
    assert blanks[3] == '\U{000C}' && blanks[4] == '\r' && blanks[5] == '\n';
  }

  lemma {:induction false} LineEndIs(line: Bytes, rest: Bytes)
    requires '\n' !in line
    ensures LineEnd(line + ['\n'] + rest) == |line| + 1
  {
    if line == [] {
      assert (line + ['\n'] + rest)[0] == '\n';
    } else {
      assert (line + ['\n'] + rest)[1..] == line[1..] + ['\n'] + rest;
      LineEndIs(line[1..], rest);
    }
  }

  lemma EventsStep(buf: Bytes, s: Bytes, line: Bytes, rest: Bytes)
    requires s != [] && line == TrimCRLF(s[..LineEnd(s)]) && rest == s[LineEnd(s)..]
    ensures Events(buf, s) ==
            if IsData(line) then Events(buf + Strip(line[5..]), rest)
            else if line == [] && buf != [] then [buf] + Events([], rest)
            else Events(buf, rest)
  {
  }

  /** One line consumed. */
  lemma EventsOfLine(buf: Bytes, line: Bytes, rest: Bytes)
    requires '\n' !in line && (line != [] ==> line[|line| - 1] != '\r')
    ensures Events(buf, line + ['\n'] + rest) ==
            if IsData(line) then Events(buf + Strip(line[5..]), rest)
            else if line == [] && buf != [] then [buf] + Events([], rest)
            else Events(buf, rest)
  {
    var s := line + ['\n'] + rest;
    LineEndIs(line, rest);
    var n := |line| + 1;
    assert s[..n] == line + ['\n'] && s[n..] == rest;
    assert DropSuffix(line + ['\n'], '\n') == line && DropSuffix(line, '\r') == line;
    EventsStep(buf, s, line, rest);
  }

  lemma StripPayload(e: Bytes)
    requires Payload(e)
    ensures Strip(" " + e) == e
  {
    assert (" " + e)[1..] == e;
    assert StripLeft(" " + e) == StripLeft(e) == e;
  }

  lemma DataLine(e: Bytes)
    requires Payload(e)
    ensures var line := "data: " + e;
            IsData(line) && '\n' !in line && line[|line| - 1] != '\r' && Strip(line[5..]) == e
  {
    var line := "data: " + e;
    assert line[..5] == FIELD && line[5..] == " " + e;
    StripPayload(e);
  }

  lemma BlankLine(e: Bytes, rest: Bytes)
    requires e != []
    ensures Events(e, ['\n'] + rest) == [e] + Events([], rest)
  {
    EventsOfLine(e, [], rest);
    assert [] + ['\n'] + rest == ['\n'] + rest;
  }

  /** A frame parses to its payload. */
  lemma ParseFrame(e: Bytes, rest: Bytes)
    requires Payload(e)
    ensures Parse(Frame(e) + rest) == [e] + Parse(rest)
  {
    var line, more := "data: " + e, ['\n'] + rest;
    assert Frame(e) + rest == line + ['\n'] + more;
    DataLine(e);
    EventsOfLine([], line, more);
    assert [] + e == e;
    BlankLine(e, rest);
  }

  lemma {:induction false} ParseFrames(events: seq<Bytes>)
    requires forall k | 0 <= k < |events| :: Payload(events[k])
    ensures Parse(Frames(events)) == events
  {
    if events != [] {
      ParseFrames(events[1..]);
      ParseFrame(events[0], Frames(events[1..]));
      assert events == [events[0]] + events[1..];
    }
  }

  /** The preamble parses to the single event `{}`. */
  lemma ParsePreamble(rest: Bytes)
    ensures Parse(PREAMBLE + rest) == ["{}"] + Parse(rest)
  {
    var first := "event: connected";
    assert PREAMBLE + rest == first + ['\n'] + (Frame("{}") + rest);
    EventsOfLine([], first, Frame("{}") + rest);
    ParseFrame("{}", rest);
  }

  /** What a client parses out of the relay is the connected event and exactly the events
      relayed, for any events the parser can have produced. */
  lemma RelayIsLossless(events: seq<Bytes>)
    requires forall k | 0 <= k < |events| :: Payload(events[k])
    ensures Parse(Relay(events)) == ["{}"] + events
  {
    ParsePreamble(Frames(events));
    ParseFrames(events);
  }

  /** The events of several upstream connections, one after another: the relay reopens the
      upstream when it drops and goes on writing to the same client. */
  function AllEvents(upstreams: seq<Bytes>): seq<Bytes> {
    if upstreams == [] then [] else Parse(upstreams[0]) + AllEvents(upstreams[1..])
  }

  lemma {:induction false} AllEventsArePayloads(upstreams: seq<Bytes>)
    ensures forall k | 0 <= k < |AllEvents(upstreams)| :: Payload(AllEvents(upstreams)[k])
  {
    if upstreams != [] {
      EventsArePayloads([], upstreams[0]);
      AllEventsArePayloads(upstreams[1..]);
    }
  }

  /** For every upstream byte stream, across reconnects, the relay loses, adds, reorders and
      alters nothing after its preamble. */
  lemma RelayedStreamsAreLossless(upstreams: seq<Bytes>)
    ensures Parse(Relay(AllEvents(upstreams))) == ["{}"] + AllEvents(upstreams)
  {
    AllEventsArePayloads(upstreams);
    RelayIsLossless(AllEvents(upstreams));
  }

  /** Printing and parsing are inverse exactly on payloads. */
  lemma FrameRoundTripExactly(e: Bytes)
    ensures Parse(Frame(e)) == [e] <==> Payload(e)
  {
    if Payload(e) {
      ParseFrame(e, []);
      assert Frame(e) + [] == Frame(e);
      assert [e] + [] == [e];
    } else {
      EventsArePayloads([], Frame(e));
      var events := Parse(Frame(e));
      assert |events| > 0 ==> Payload(events[0]);
    }
  }
}
