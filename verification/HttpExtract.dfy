/** The HTTP body extractor: one buffer and one parse position per flow direction, and a loop that
    walks over message heads and bodies. */
module HttpExtract {
  import opened Text
  import opened ChunkedCoding

  // ---- One step of the parse loop ---------------------------------------------------------------

  const HEAD_END := "\r\n\r\n"

  predicate IsStartLine(line: string) {
    "HTTP/" <= line || Contains(line, " HTTP/")
  }

  /** Header lines in order; a later line of the same name wins, and a line without a colon, or
      with the colon in front, is skipped. */
  function Headers(lines: seq<string>): map<string, string> {
    if lines == [] then map[]
    else
      var line := lines[|lines| - 1];
      var m := Headers(lines[..|lines| - 1]);
      var i := IndexOf(line, ":");
      if i > 0 then m[Lower(Trim(line[..i])) := Trim(line[i + 1..])] else m
  }

  /** How a message head says its body is framed. */
  datatype Framing = NotHttp | NoBody | Chunked | Sized(length: nat)

  function Header(m: map<string, string>, name: string): string {
    if name in m then m[name] else ""
  }

  function FramingOf(lines: seq<string>, max: nat): Framing
    requires lines != []
  {
    if !IsStartLine(lines[0]) then NotHttp
    else
      var m := Headers(lines[1..]);
      if Contains(Lower(Header(m, "transfer-encoding")), "chunked") then Chunked
      else
        match ParseInt(Header(m, "content-length"), 10)
        case Some(n) => if n > 0 then Sized(if n > 2 * max then 2 * max else n) else NoBody
        case None => NoBody
  }

  /** What is reported: the head, which determines the name and the metadata, and the body cut to
      `max` bytes. */
  datatype Artifact = Artifact(head: string, body: string)

  function Report(head: string, body: string, max: nat): seq<Artifact> {
    if body == [] then []
    else [Artifact(head, if |body| > max then body[..max] else body)]
  }

  /** One turn of the loop on the unparsed bytes: not enough of them, an overflow in the chunk
      decoder, or a step over `n` bytes that reports at most one artifact. */
  datatype Turn = Wait | Panic | Advance(out: seq<Artifact>, n: nat)

  function BodyTurn(b: string, head: string, f: Framing, max: nat): (t: Turn)
    requires |head| + 4 <= |b|
    ensures t.Advance? ==> 0 < t.n <= |b|
  {
    var at := |head| + 4;
    match f
    case NotHttp => Advance([], 1)
    case NoBody => Advance([], at)
    case Sized(n) => if |b| < at + n then Wait else Advance(Report(head, b[at..at + n], max), at + n)
    case Chunked =>
      match Decode(b[at..])
      case Fails => Wait
      case Overflow => Panic
      case Done(body, used) => Advance(Report(head, body, max), at + used)
  }

  function Scan(b: string, max: nat): (t: Turn)
    ensures t.Advance? ==> 0 < t.n <= |b|
  {
    var hi := IndexOf(b, HEAD_END);
    if hi < 0 then Wait else BodyTurn(b, b[..hi], FramingOf(SplitLines(b[..hi]), max), max)
  }

  /** The loop from one position on: what it reports, how far it gets, whether it panics. */
  datatype Parsed = Parsed(out: seq<Artifact>, used: nat, panicked: bool)

  function After(out: seq<Artifact>, n: nat, p: Parsed): Parsed {
    p.(out := out + p.out, used := n + p.used)
  }

  function Extract(b: string, max: nat): (p: Parsed)
    ensures p.used <= |b|
    decreases |b|
  {
    match Scan(b, max)
    case Wait => Parsed([], 0, false)
    case Panic => Parsed([], 0, true)
    case Advance(out, n) => After(out, n, Extract(b[n..], max))
  }

  // ---- Streaming equals batch ----------------------------------------------------------------

  lemma BodyTurnStable(b: string, more: string, head: string, f: Framing, max: nat)
    requires |head| + 4 <= |b| && !BodyTurn(b, head, f, max).Wait?
    ensures BodyTurn(b + more, head, f, max) == BodyTurn(b, head, f, max)
  {
    hide Decode;
    var at := |head| + 4;
    assert (b + more)[at..] == b[at..] + more;
    if f.Chunked? { DecodeStable(b[at..], more); }
    if f.Sized? { assert (b + more)[at..at + f.length] == b[at..at + f.length]; }
  }

  /** Bytes that arrive later never change a turn that was taken. */
  lemma ScanStable(b: string, more: string, max: nat)
    requires !Scan(b, max).Wait?
    ensures Scan(b + more, max) == Scan(b, max)
  {
    hide IndexOf, FramingOf, BodyTurn, SplitLines;
    var hi := IndexOf(b, HEAD_END);
    IndexOfStable(b, more, HEAD_END);
    assert (b + more)[..hi] == b[..hi];
    BodyTurnStable(b, more, b[..hi], FramingOf(SplitLines(b[..hi]), max), max);
  }

  /** Parsing more bytes is parsing the first ones and going on from where that stopped. */
  lemma {:induction false} ExtractConcat(b: string, more: string, max: nat)
    ensures var p := Extract(b, max); var r := Extract((b + more)[p.used..], max);
            !p.panicked ==> Extract(b + more, max) == After(p.out, p.used, r)
    ensures var p := Extract(b, max);
            p.panicked ==> Extract(b + more, max) == p
    decreases |b|
  {
    hide Scan;
    var t := Scan(b, max);
    if t.Wait? {
      var r := Extract(b + more, max);
      assert (b + more)[0..] == b + more;
      assert [] + r.out == r.out;
    } else {
      ScanStable(b, more, max);
      if t.Advance? {
        assert (b + more)[t.n..] == b[t.n..] + more;
        ExtractConcat(b[t.n..], more, max);
        AfterAfter(b, more, t, max);
      }
    }
  }

  lemma AfterAfter(b: string, more: string, t: Turn, max: nat)
    requires t.Advance? && t.n <= |b|
    ensures var p := Extract(b[t.n..], max); var q := After(t.out, t.n, p);
            && (b + more)[q.used..] == (b[t.n..] + more)[p.used..]
            && forall r: Parsed :: After(t.out, t.n, After(p.out, p.used, r)) == After(q.out, q.used, r)
  {
    hide Extract;
    var p := Extract(b[t.n..], max);
    forall r: Parsed
      ensures After(t.out, t.n, After(p.out, p.used, r)) == After(t.out + p.out, t.n + p.used, r)
    {
      assert t.out + (p.out + r.out) == t.out + p.out + r.out;
    }
  }

  // ---- Packets ------------------------------------------------------------------------------------

  /** The state of one flow direction. A panic ends the run and loses what its packet reported. */
  datatype State = State(buf: string, parsed: nat, panicked: bool)

  const FRESH := State([], 0, false)

  function Buffered(buf: string, payload: string, max: nat): string {
    var remain := 2 * max - |buf|;
    if remain <= 0 then buf else buf + if |payload| > remain then payload[..remain] else payload
  }

  predicate Valid(s: State, max: nat) {
    s.parsed <= |s.buf| <= 2 * max
  }

  function Observe(s: State, payload: string, max: nat): (r: (State, seq<Artifact>))
    requires Valid(s, max)
    ensures Valid(r.0, max)
  {
    if s.panicked then (s, [])
    else
      var buf := Buffered(s.buf, payload, max);
      var p := Extract(buf[s.parsed..], max);
      (State(buf, s.parsed + p.used, p.panicked), if p.panicked then [] else p.out)
  }

  function Run(s: State, payloads: seq<string>, max: nat): (r: (State, seq<Artifact>))
    requires Valid(s, max)
    ensures Valid(r.0, max)
    decreases |payloads|
  {
    if payloads == [] then (s, [])
    else
      var one := Observe(s, payloads[0], max);
      var rest := Run(one.0, payloads[1..], max);
      (rest.0, one.1 + rest.1)
  }

  function Joined(payloads: seq<string>): string {
    if payloads == [] then [] else payloads[0] + Joined(payloads[1..])
  }

  function Front(s: string, n: nat): string {
    if |s| > n then s[..n] else s
  }

  /** The buffer holds the first bytes of the stream, as many as fit. */
  lemma BufferedIsFront(buf: string, payload: string, max: nat)
    requires |buf| <= 2 * max
    ensures Buffered(buf, payload, max) == Front(buf + payload, 2 * max)
  {
    var remain := 2 * max - |buf|;
    if remain > 0 && |payload| > remain {
      assert (buf + payload)[..2 * max] == buf + payload[..remain];
    }
  }

  lemma FrontOfFront(a: string, b: string, n: nat)
    ensures Front(Front(a, n) + b, n) == Front(a + b, n)
    ensures |a| <= n ==> a <= Front(a + b, n)
  {}

  lemma BufferedConcat(buf: string, x: string, y: string, max: nat)
    requires |buf| <= 2 * max
    ensures Buffered(Buffered(buf, x, max), y, max) == Buffered(buf, x + y, max)
    ensures buf <= Buffered(buf, x, max)
  {
    hide Buffered, Front;
    BufferedIsFront(buf, x, max);
    FrontIsShort(buf + x, 2 * max);
    BufferedIsFront(Buffered(buf, x, max), y, max);
    BufferedIsFront(buf, x + y, max);
    FrontOfFront(buf + x, y, 2 * max);
    FrontOfFront(buf, x, 2 * max);
    assert buf + x + y == buf + (x + y);
  }

  lemma FrontIsShort(s: string, n: nat)
    ensures |Front(s, n)| <= n
  {}

  /** Two packets in a row are one packet with both payloads, in the state and in what is reported. */
  lemma ObserveTwice(s: State, x: string, y: string, max: nat)
    requires Valid(s, max) && !Observe(s, x, max).0.panicked
    ensures var one := Observe(s, x, max); var two := Observe(one.0, y, max); var both := Observe(s, x + y, max);
            both.0 == two.0 && (!two.0.panicked ==> both.1 == one.1 + two.1)
  {
    hide Extract, Buffered;
    BufferedConcat(s.buf, x, y, max);
    var buf := Buffered(s.buf, x, max);
    var buf2 := Buffered(buf, y, max);
    BufferedConcat(buf, y, [], max);
    var b := buf[s.parsed..];
    var more := buf2[|buf|..];
    assert buf2[s.parsed..] == b + more;
    ExtractConcat(b, more, max);
    var p := Extract(b, max);
    assert (b + more)[p.used..] == buf2[s.parsed + p.used..];
  }

  lemma PanicIsKept(s: State, x: string, y: string, max: nat)
    requires Valid(s, max) && !s.panicked && Observe(s, x, max).0.panicked
    ensures Observe(s, x + y, max).0.panicked
  {
    hide Extract, Buffered;
    BufferedConcat(s.buf, x, y, max);
    var buf := Buffered(s.buf, x, max);
    BufferedConcat(buf, y, [], max);
    var buf2 := Buffered(buf, y, max);
    assert buf2[s.parsed..] == buf[s.parsed..] + buf2[|buf|..];
    ExtractConcat(buf[s.parsed..], buf2[|buf|..], max);
  }

  lemma {:induction false} RunPanicked(s: State, payloads: seq<string>, max: nat)
    requires Valid(s, max) && s.panicked
    ensures Run(s, payloads, max).0 == s
    decreases |payloads|
  {
    hide Extract, Buffered;
    if payloads != [] { RunPanicked(s, payloads[1..], max); }
  }

  /** Extraction does not depend on how the stream was cut into packets: any run of payloads
      panics exactly when one packet holding them all does, and otherwise reports the same
      artifacts and ends in the same state. */
  lemma {:induction false} CutsDoNotMatter(s: State, first: string, payloads: seq<string>, max: nat)
    requires Valid(s, max) && !s.panicked
    ensures var run := Run(s, [first] + payloads, max); var whole := Observe(s, first + Joined(payloads), max);
            run.0.panicked == whole.0.panicked && (!run.0.panicked ==> run == whole)
    decreases |payloads|
  {
    hide Extract, Buffered, Observe;
    var one := Observe(s, first, max);
    assert ([first] + payloads)[1..] == payloads;
    if one.0.panicked {
      RunPanicked(one.0, payloads, max);
      PanicIsKept(s, first, Joined(payloads), max);
    } else if payloads == [] {
      assert first + [] == first && one.1 + [] == one.1;
    } else {
      var second := payloads[0];
      var later := payloads[1..];
      assert payloads == [second] + later;
      CutsDoNotMatter(one.0, second, later, max);
      assert first + Joined(payloads) == first + (second + Joined(later));
      ObserveTwice(s, first, second + Joined(later), max);
    }
  }

  // ---- What is extracted ---------------------------------------------------------------------------

  /** A message as it was sent: its head lines and a body framed as they say. */
  datatype Body = Empty | Plain(data: string) | InChunks(chunks: seq<Chunk>, last: Chunk)
  datatype Message = Message(lines: seq<string>, body: Body)

  function JoinLines(lines: seq<string>): string {
    if lines == [] then "" else if |lines| == 1 then lines[0] else lines[0] + CRLF + JoinLines(lines[1..])
  }

  ghost predicate ValidLines(lines: seq<string>) {
    lines != [] && forall i :: 0 <= i < |lines| ==> lines[i] != "" && '\n' !in lines[i]
  }

  ghost predicate ValidMessage(m: Message, max: nat) {
    && ValidLines(m.lines)
    && match m.body
       case Empty => FramingOf(m.lines, max).NoBody?
       case Plain(data) => FramingOf(m.lines, max) == Sized(|data|)
       case InChunks(chunks, last) => FramingOf(m.lines, max).Chunked? && ValidBody(chunks, last)
  }

  function BodyData(b: Body): string {
    match b
    case Empty => ""
    case Plain(data) => data
    case InChunks(chunks, last) => Contents(chunks)
  }

  function BodyBytes(b: Body): string {
    match b
    case Empty => ""
    case Plain(data) => data
    case InChunks(chunks, last) => Encode(chunks, last)
  }

  function MessageBytes(m: Message): string {
    JoinLines(m.lines) + HEAD_END + BodyBytes(m.body)
  }

  lemma {:induction false} LinesOfJoined(lines: seq<string>)
    requires ValidLines(lines)
    ensures SplitLines(JoinLines(lines)) == lines && JoinLines(lines) != ""
    decreases |lines|
  {
    hide IndexOf;
    var first := lines[0];
    if |lines| == 1 {
      NoLineEnd(first);
    } else {
      var rest := lines[1..];
      LinesOfJoined(rest);
      IndexOfLineEnd(first, JoinLines(rest));
      assert JoinLines(lines)[..|first|] == first;
      assert JoinLines(lines)[|first| + 2..] == JoinLines(rest);
    }
  }

  lemma NotHeadEnd(tail: string)
    requires |tail| >= 2 && !(CRLF <= tail)
    ensures !(HEAD_END <= "\r\n" + tail)
  {
    var s := "\r\n" + tail;
    assert s[2] == tail[0] && s[3] == tail[1];
  }

  /** No head end starts inside a line, or at its end when the next line is not empty. */
  lemma {:induction false} SkipLine(line: string, tail: string)
    requires line != "" && '\n' !in line && IndexOf(tail, HEAD_END) >= 0 && !(CRLF <= tail) && tail[0] != '\n'
    ensures IndexOf(line + CRLF + tail, HEAD_END) == |line| + 2 + IndexOf(tail, HEAD_END)
    decreases |line|
  {
    var s := line + CRLF + tail;
    assert line[0] in line;
    if |line| == 1 {
      var s1, s2 := s[1..], s[2..];
      assert s1 == "\r\n" + tail && s2 == "\n" + tail && s1[1..] == s2 && s2[1..] == tail;
      assert s[1] == '\r';
      NotHeadEnd(tail);
      assert IndexOf(s2, HEAD_END) == IndexOf(tail, HEAD_END) + 1;
      assert IndexOf(s1, HEAD_END) == IndexOf(s2, HEAD_END) + 1;
    } else {
      assert s[1] == line[1] && line[1] in line;
      assert s[1..] == line[1..] + CRLF + tail;
      SkipLine(line[1..], tail);
    }
  }

  lemma {:induction false} LastLineEnd(line: string, body: string)
    requires '\n' !in line
    ensures IndexOf(line + HEAD_END + body, HEAD_END) == |line|
    decreases |line|
  {
    var s := line + HEAD_END + body;
    if line == "" {
      assert HEAD_END <= s;
    } else {
      assert line[0] in line;
      assert s[1] == if |line| > 1 then line[1] else '\r';
      assert |line| > 1 ==> line[1] in line;
      assert s[1..] == line[1..] + HEAD_END + body;
      LastLineEnd(line[1..], body);
    }
  }

  /** The first head end is the one after the last head line. */
  lemma {:induction false} HeadIsFound(lines: seq<string>, body: string)
    requires ValidLines(lines)
    ensures IndexOf(JoinLines(lines) + HEAD_END + body, HEAD_END) == |JoinLines(lines)|
    decreases |lines|
  {
    hide IndexOf;
    if |lines| == 1 {
      LastLineEnd(lines[0], body);
    } else {
      var rest := lines[1..];
      HeadIsFound(rest, body);
      var tail := JoinLines(rest) + HEAD_END + body;
      assert tail[0] == rest[0][0] && rest[0][0] in rest[0];
      assert !(CRLF <= tail) by {
        assert tail[1] == if |rest[0]| > 1 then rest[0][1] else '\r';
        assert |rest[0]| > 1 ==> rest[0][1] in rest[0];
      }
      assert JoinLines(lines) + HEAD_END + body == lines[0] + CRLF + tail;
      SkipLine(lines[0], tail);
    }
  }

  lemma TurnOfMessage(m: Message, more: string, max: nat)
    requires ValidMessage(m, max)
    ensures var b := MessageBytes(m) + more;
            Scan(b, max) == Advance(Report(JoinLines(m.lines), BodyData(m.body), max), |MessageBytes(m)|)
    ensures (MessageBytes(m) + more)[|MessageBytes(m)|..] == more
  {
    hide IndexOf, SplitLines, FramingOf, Decode, JoinLines, Encode, Report, ValidLines, ValidBody;
    var head := JoinLines(m.lines);
    var rest := BodyBytes(m.body) + more;
    var b := MessageBytes(m) + more;
    assert b == head + HEAD_END + rest;
    HeadIsFound(m.lines, rest);
    LinesOfJoined(m.lines);
    assert b[..|head|] == head;
    assert b[|head| + 4..] == rest;
    match m.body
    case Empty => assert Report(head, "", max) == [] by { ReportOfNothing(head, max); }
    case Plain(data) => assert b[|head| + 4..|head| + 4 + |data|] == data;
    case InChunks(chunks, last) => DecodeUndoesEncode(chunks, last, more);
  }

  lemma ReportOfNothing(head: string, max: nat)
    ensures Report(head, "", max) == []
  {}

  function AllBytes(ms: seq<Message>): string {
    if ms == [] then "" else MessageBytes(ms[0]) + AllBytes(ms[1..])
  }

  function Reports(ms: seq<Message>, max: nat): seq<Artifact> {
    if ms == [] then []
    else Report(JoinLines(ms[0].lines), BodyData(ms[0].body), max) + Reports(ms[1..], max)
  }

  /** The extractor reports exactly the non-empty bodies of the messages sent, in order, and the
      parse position ends after the last one. */
  lemma {:induction false} MessagesAreExtracted(ms: seq<Message>, more: string, max: nat)
    requires forall i :: 0 <= i < |ms| ==> ValidMessage(ms[i], max)
    ensures Extract(AllBytes(ms) + more, max) ==
            After(Reports(ms, max), |AllBytes(ms)|, Extract(more, max))
    decreases |ms|
  {
    hide Scan, Report, MessageBytes, BodyData, JoinLines;
    if ms == [] {
      assert "" + more == more;
    } else {
      var rest := AllBytes(ms[1..]) + more;
      assert AllBytes(ms) + more == MessageBytes(ms[0]) + rest;
      TurnOfMessage(ms[0], rest, max);
      MessagesAreExtracted(ms[1..], more, max);
      var here := Report(JoinLines(ms[0].lines), BodyData(ms[0].body), max);
      var end := Extract(more, max);
      assert here + (Reports(ms[1..], max) + end.out) == here + Reports(ms[1..], max) + end.out;
    }
  }

  /** A message cut short is not touched: the loop waits for the rest. */
  lemma PrefixOfMessageWaits(m: Message, p: string, max: nat)
    requires ValidMessage(m, max) && p <= MessageBytes(m) && |p| < |MessageBytes(m)|
    ensures Scan(p, max).Wait?
  {
    hide IndexOf, SplitLines, FramingOf, Decode, JoinLines, Encode, Report, ValidLines, ValidBody;
    var head := JoinLines(m.lines);
    var whole := MessageBytes(m);
    assert whole == head + HEAD_END + BodyBytes(m.body);
    HeadIsFound(m.lines, BodyBytes(m.body));
    if IndexOf(p, HEAD_END) >= 0 {
      IndexOfStable(p, whole[|p|..], HEAD_END);
      assert p + whole[|p|..] == whole;
      LinesOfJoined(m.lines);
      assert p[..|head|] == head;
      var rest := p[|head| + 4..];
      assert rest <= BodyBytes(m.body) && |rest| < |BodyBytes(m.body)|;
      if m.body.InChunks? { StrictPrefixFails(m.body.chunks, m.body.last, rest); }
    }
  }

  /** The messages that lie wholly within the first `n` bytes. */
  function Within(ms: seq<Message>, n: nat): seq<Message> {
    if ms == [] || |MessageBytes(ms[0])| > n then []
    else [ms[0]] + Within(ms[1..], n - |MessageBytes(ms[0])|)
  }

  lemma {:induction false} AllWithin(ms: seq<Message>, n: nat)
    ensures |AllBytes(ms)| <= n <==> Within(ms, n) == ms
    decreases |ms|
  {
    hide MessageBytes;
    if ms != [] && |MessageBytes(ms[0])| <= n {
      AllWithin(ms[1..], n - |MessageBytes(ms[0])|);
      assert ms == [ms[0]] + ms[1..];
    }
  }

  lemma StepInto(m: Message, later: string, n: nat)
    ensures var e := MessageBytes(m); |e| <= n ==>
              Front(e + later, n) == e + Front(later, n - |e|)
    ensures var e := MessageBytes(m); |e| > n ==>
              Front(e + later, n) <= e && |Front(e + later, n)| < |e|
  {
    hide MessageBytes;
  }

  /** Of the first `n` bytes of a stream of messages, exactly the messages wholly inside them are
      reported, and the position ends behind the last of these. */
  lemma {:induction false} FrontIsExtracted(ms: seq<Message>, n: nat, max: nat)
    requires forall i :: 0 <= i < |ms| ==> ValidMessage(ms[i], max)
    ensures var whole := Within(ms, n);
            Extract(Front(AllBytes(ms), n), max) == Parsed(Reports(whole, max), |AllBytes(whole)|, false)
    decreases |ms|
  {
    hide Scan, Report, MessageBytes, BodyData, JoinLines, Front, ValidMessage;
    if ms == [] {
      NothingToExtract(max);
      FrontOfNothing(n);
    } else {
      var later := AllBytes(ms[1..]);
      StepInto(ms[0], later, n);
      if |MessageBytes(ms[0])| > n {
        PrefixOfMessageWaits(ms[0], Front(AllBytes(ms), n), max);
      } else {
        var left := n - |MessageBytes(ms[0])|;
        TurnOfMessage(ms[0], Front(later, left), max);
        FrontIsExtracted(ms[1..], left, max);
        var whole := Within(ms[1..], left);
        assert ([ms[0]] + whole)[1..] == whole;
      }
    }
  }

  lemma FrontOfNothing(n: nat)
    ensures Front("", n) == ""
  {}

  /** The messages of a stream, however it is cut into packets: exactly those wholly inside the
      first 2 * max bytes are reported, once each and in order. When all fit, these are all. */
  lemma MessagesInAnyPackets(ms: seq<Message>, first: string, payloads: seq<string>, max: nat)
    requires forall i :: 0 <= i < |ms| ==> ValidMessage(ms[i], max)
    requires first + Joined(payloads) == AllBytes(ms)
    ensures var whole := Within(ms, 2 * max);
            Run(FRESH, [first] + payloads, max) ==
            (State(Front(AllBytes(ms), 2 * max), |AllBytes(whole)|, false), Reports(whole, max))
    ensures |AllBytes(ms)| <= 2 * max <==> Within(ms, 2 * max) == ms
  {
    hide Scan, Run, Reports, AllBytes, ValidMessage, Within, Front;
    CutsDoNotMatter(FRESH, first, payloads, max);
    FrontIsExtracted(ms, 2 * max, max);
    AllWithin(ms, 2 * max);
    FirstObserved(AllBytes(ms), max);
  }

  /** What one payload does to a fresh extractor. */
  lemma FirstObserved(stream: string, max: nat)
    ensures var p := Extract(Front(stream, 2 * max), max);
            Observe(FRESH, stream, max) == (State(Front(stream, 2 * max), p.used, p.panicked), if p.panicked then [] else p.out)
  {
    hide Scan, Extract;
    BufferedIsFront("", stream, max);
    assert "" + stream == stream;
    var f := Front(stream, 2 * max);
    assert f[0..] == f;
  }

  lemma NothingToExtract(max: nat)
    ensures Extract("", max) == Parsed([], 0, false)
  {
    assert IndexOf("", HEAD_END) == -1;
  }

  // ---- When the extractor panics ----------------------------------------------------------------

  /** The unparsed bytes after `k` turns that moved on, if there were so many. */
  function AfterTurns(b: string, k: nat, max: nat): Option<string> {
    if k == 0 then Some(b)
    else
      match Scan(b, max)
      case Advance(_, n) => AfterTurns(b[n..], k - 1, max)
      case _ => None
  }

  /** A complete head of a chunked message, then `k` complete chunks, then a size line that the
      decoder cannot hold. */
  ghost predicate OversizedBody(b: string, k: nat, max: nat) {
    var hi := IndexOf(b, HEAD_END);
    hi >= 0 && FramingOf(SplitLines(b[..hi]), max).Chunked? && OversizedAt(b[hi + 4..], k)
  }

  ghost predicate PanicsAt(b: string, turns: nat, chunks: nat, max: nat) {
    AfterTurns(b, turns, max).Some? && OversizedBody(AfterTurns(b, turns, max).value, chunks, max)
  }

  lemma TurnPanicsIff(b: string, max: nat)
    ensures Scan(b, max).Panic? <==> exists k: nat :: OversizedBody(b, k, max)
  {
    hide IndexOf, FramingOf, SplitLines, OversizedAt, Decode;
    var hi := IndexOf(b, HEAD_END);
    if hi >= 0 {
      OverflowsIff(b[hi + 4..]);
      if Scan(b, max).Panic? {
        var k: nat :| OversizedAt(b[hi + 4..], k);
        assert OversizedBody(b, k, max);
      }
    }
  }

  lemma {:induction false} PanicHasSize(b: string, max: nat) returns (turns: nat, chunks: nat)
    requires Extract(b, max).panicked
    ensures PanicsAt(b, turns, chunks, max)
    decreases |b|
  {
    hide Scan, OversizedBody;
    TurnPanicsIff(b, max);
    var t := Scan(b, max);
    if t.Panic? {
      turns := 0;
      chunks :| OversizedBody(b, chunks, max);
    } else {
      var before, c := PanicHasSize(b[t.n..], max);
      turns, chunks := before + 1, c;
    }
  }

  lemma {:induction false} SizePanics(b: string, turns: nat, chunks: nat, max: nat)
    requires PanicsAt(b, turns, chunks, max)
    ensures Extract(b, max).panicked
    decreases turns
  {
    hide Scan, OversizedBody;
    TurnPanicsIff(b, max);
    if turns > 0 { SizePanics(b[Scan(b, max).n..], turns - 1, chunks, max); }
  }

  /** The extractor panics on exactly these streams, however they are cut into packets: within the
      first 2 * max bytes, after some number of turns, there is a chunked message in which, after
      some number of complete chunks, a complete size line says 2^63 - 2 or 2^63 - 1. */
  lemma PanicsIff(first: string, payloads: seq<string>, max: nat)
    ensures Run(FRESH, [first] + payloads, max).0.panicked <==>
            exists turns: nat, chunks: nat ::
              PanicsAt(Front(first + Joined(payloads), 2 * max), turns, chunks, max)
  {
    hide Extract, Run, Observe, PanicsAt, Front;
    var stream := first + Joined(payloads);
    var b := Front(stream, 2 * max);
    CutsDoNotMatter(FRESH, first, payloads, max);
    FirstObserved(stream, max);
    if Extract(b, max).panicked { var turns, chunks := PanicHasSize(b, max); }
    if turns: nat, chunks: nat :| PanicsAt(b, turns, chunks, max) { SizePanics(b, turns, chunks, max); }
  }

  /** Every stream of this shape panics: any valid messages, a chunked head, any valid chunks, a
      size of 2^63 - 2 or 2^63 - 1, and anything after it. */
  lemma OversizedMessagePanics(ms: seq<Message>, lines: seq<string>, chunks: seq<Chunk>, size: Chunk, n: nat,
                               more: string, max: nat)
    requires forall i :: 0 <= i < |ms| ==> ValidMessage(ms[i], max)
    requires ValidLines(lines) && FramingOf(lines, max).Chunked?
    requires forall c <- chunks :: ValidChunk(c)
    requires ValidSize(size.digits, size.ext, n) && n <= MAX_INT64 < n + 2
    ensures var body := EncodeChunks(chunks) + (size.digits + size.ext + CRLF + more);
            Extract(AllBytes(ms) + (JoinLines(lines) + HEAD_END + body), max).panicked
  {
    hide Decode, EncodeChunks, ValidChunk, ValidSize, ValidMessage, ValidLines, AllBytes, IndexOf, JoinLines,
      FramingOf, SplitLines, Reports;
    var body := EncodeChunks(chunks) + (size.digits + size.ext + CRLF + more);
    var b := JoinLines(lines) + HEAD_END + body;
    OversizedChunkOverflows(chunks, size.digits, size.ext, n, more);
    HeadIsFound(lines, body);
    LinesOfJoined(lines);
    assert b[..|JoinLines(lines)|] == JoinLines(lines);
    assert b[|JoinLines(lines)| + 4..] == body;
    MessagesAreExtracted(ms, b, max);
  }

  /** The last header line of a head, read under its name. */
  lemma LastHeader(lines: seq<string>, name: string, value: string)
    requires name != "" && ':' !in name
    ensures Headers(lines + [name + ":" + value]) == Headers(lines)[Lower(Trim(name)) := Trim(value)]
  {
    hide IndexOf, Lower, Trim;
    var line := name + ":" + value;
    IndexOfColon(name, value);
    assert (lines + [line])[..|lines|] == lines;
    assert line[..|name|] == name && line[|name| + 1..] == value;
  }

  lemma {:induction false} IndexOfColon(name: string, value: string)
    requires ':' !in name
    ensures IndexOf(name + ":" + value, ":") == |name|
    decreases |name|
  {
    var s := name + ":" + value;
    if name == "" {
      assert ":" <= s;
    } else {
      assert s[0] == name[0] && name[0] in name;
      assert s[1..] == name[1..] + ":" + value;
      IndexOfColon(name[1..], value);
    }
  }

  lemma CodingValue()
    ensures Contains(Lower(Trim(" chunked")), "chunked")
  {
    hide IndexOf;
    var value := " chunked";
    TrimIsTrimmed("chunked");
    assert value[1..] == "chunked";
    assert Lower("chunked") == "chunked";
    IndexOfIsFirst("chunked", "chunked", 0);
  }

  lemma LowerConcat(a: string, b: string)
    ensures Lower(a + b) == Lower(a) + Lower(b)
  {}

  lemma CodingName()
    ensures Lower(Trim("Transfer-Encoding")) == "transfer-encoding"
  {
    hide Trim, Lower;
    var name: string := "Transfer-Encoding";
    assert Trimmed(name) by { assert name[0] == 'T' && name[|name| - 1] == 'g'; }
    TrimIsTrimmed(name);
    LowerConcat("Transfer", "-Encoding");
    LowerParts();
    assert "Transfer" + "-Encoding" == name && "transfer" + "-encoding" == "transfer-encoding";
  }

  lemma LowerParts()
    ensures Lower("Transfer") == "transfer" && Lower("-Encoding") == "-encoding"
  {}

  const POST_LINE := "POST / HTTP/1.1"
  const CHUNKED_LINE := "Transfer-Encoding: chunked"

  lemma TransferCodingIsRead(max: nat)
    ensures FramingOf([POST_LINE, CHUNKED_LINE], max).Chunked?
  {
    hide IndexOf, Headers, Lower, Trim;
    var name, value := "Transfer-Encoding", " chunked";
    assert [POST_LINE, CHUNKED_LINE][1..] == [] + [CHUNKED_LINE];
    assert name + ":" + value == CHUNKED_LINE;
    LastHeader([], name, value);
    CodingName();
    CodingValue();
    IndexOfIsFirst(POST_LINE, " HTTP/", 6);
  }

  /** One such stream: a single request whose first chunk has the size 2^63 - 2. */
  lemma LargeChunkPanics(max: nat)
    requires max >= 33
    ensures Observe(FRESH, POST_LINE + CRLF + CHUNKED_LINE + HEAD_END + "7ffffffffffffffe" + CRLF, max).0.panicked
  {
    hide Observe, Extract, FramingOf, ValidSize, AllBytes, JoinLines, EncodeChunks, ValidLines, Trim, Lower, IndexOf;
    var lines, digits := [POST_LINE, CHUNKED_LINE], "7ffffffffffffffe";
    TransferCodingIsRead(max);
    LargeSize();
    PostLines(digits);
    OversizedMessagePanics([], lines, [], Chunk(digits, "", ""), MAX_INT64 - 1, "", max);
    var stream := POST_LINE + CRLF + CHUNKED_LINE + HEAD_END + digits + CRLF;
    FirstObserved(stream, max);
  }

  lemma PostLines(digits: string)
    ensures JoinLines([POST_LINE, CHUNKED_LINE]) == POST_LINE + CRLF + CHUNKED_LINE
    ensures ValidLines([POST_LINE, CHUNKED_LINE])
    ensures AllBytes([]) + (JoinLines([POST_LINE, CHUNKED_LINE]) + HEAD_END + (EncodeChunks([]) + (digits + "" + CRLF + ""))) ==
            POST_LINE + CRLF + CHUNKED_LINE + HEAD_END + digits + CRLF
  {
    assert [POST_LINE, CHUNKED_LINE][1..] == [CHUNKED_LINE];
  }

  // ---- The loop -------------------------------------------------------------------------------------

  method ParseHeaders(head: string) returns (m: map<string, string>)
    ensures m == Headers(SplitLines(head)[1..])
  {
    hide IndexOf, SplitLines;
    m := map[];
    var lines := SplitLines(head)[1..];
    for k := 0 to |lines|
      invariant m == Headers(lines[..k])
    {
      var line := lines[k];
      assert lines[..k + 1][..k] == lines[..k];
      var i := IndexOf(line, ":");
      if i > 0 {
        m := m[Lower(Trim(line[..i])) := Trim(line[i + 1..])];
      }
    }
    assert lines[..|lines|] == lines;
  }

  lemma TurnIs(b: string, hi: nat, max: nat)
    requires IndexOf(b, HEAD_END) == hi
    ensures Scan(b, max) == BodyTurn(b, b[..hi], FramingOf(SplitLines(b[..hi]), max), max)
  {
    hide IndexOf, SplitLines, BodyTurn, FramingOf;
  }

  lemma ExtractStep(b: string, out: seq<Artifact>, n: nat, max: nat)
    ensures Scan(b, max).Wait? ==> After(out, n, Extract(b, max)) == Parsed(out, n, false)
    ensures Scan(b, max).Panic? ==> After(out, n, Extract(b, max)) == Parsed(out, n, true)
    ensures var t := Scan(b, max); t.Advance? ==>
      After(out, n, Extract(b, max)) == After(out + t.out, n + t.n, Extract(b[t.n..], max))
  {
    hide Scan;
    var t := Scan(b, max);
    assert out + [] == out;
    if t.Advance? {
      var p := Extract(b[t.n..], max);
      assert out + (t.out + p.out) == out + t.out + p.out;
    }
  }

  class Extractor {
    const max: nat
    var buf: string
    var parsed: nat
    var panicked: bool

    ghost function Abs(): State
      reads this
    {
      State(buf, parsed, panicked)
    }

    constructor (max: nat)
      ensures this.max == max && Abs() == FRESH && Valid(Abs(), max)
    {
      this.max := max;
      buf, parsed, panicked := [], 0, false;
    }

    method AppendStream(payload: string)
      requires Valid(Abs(), max)
      modifies this`buf
      ensures buf == Buffered(old(buf), payload, max) && Valid(Abs(), max)
    {
      var remain := max * 2 - |buf|;
      if remain > 0 {
        buf := buf + if |payload| > remain then payload[..remain] else payload;
      }
    }

    method ObserveHttp(payload: string) returns (out: seq<Artifact>)
      requires Valid(Abs(), max) && !panicked
      modifies this
      ensures Valid(Abs(), max)
      ensures (Abs(), out) == Observe(old(Abs()), payload, max)
    {
      hide Extract, Buffered, Scan, FramingOf, BodyTurn, SplitLines, IndexOf, Decode, After, Headers;
      AppendStream(payload);
      out := [];
      ghost var b0 := buf[parsed..];
      AfterNothing(Extract(b0, max));
      while parsed < |buf|
        invariant old(parsed) <= parsed <= |buf| && buf == Buffered(old(buf), payload, max) && !panicked
        invariant Extract(b0, max) == After(out, parsed - old(parsed), Extract(buf[parsed..], max))
        invariant Valid(Abs(), max)
        decreases |buf| - parsed
      {
        var b := buf[parsed..];
        ExtractStep(b, out, parsed - old(parsed), max);
        var t := NextTurn(b);
        match t
        case Wait =>
          return;
        case Panic =>
          out := [];
          panicked := true;
          return;
        case Advance(artifacts, n) =>
          assert b[n..] == buf[parsed + n..];
          out := out + artifacts;
          parsed := parsed + n;
      }
      EndOfBytes(buf[parsed..], out, parsed - old(parsed), max);
    }

    /** One turn: find the head, choose the framing, take the body. */
    method NextTurn(b: string) returns (t: Turn)
      ensures t == Scan(b, max)
    {
      hide Extract, SplitLines, IndexOf, Decode, Headers;
      var hi := IndexOf(b, HEAD_END);
      if hi < 0 {
        return Wait;
      }
      TurnIs(b, hi, max);
      var head := b[..hi];
      var start := SplitLines(head)[0];
      if !IsStartLine(start) {
        return Advance([], 1);
      }
      var headers := ParseHeaders(head);
      var at := hi + 4;
      if Contains(Lower(Header(headers, "transfer-encoding")), "chunked") {
        var d := DecodeChunked(b[at..]);
        match d
        case Fails => return Wait;
        case Overflow => return Panic;
        case Done(body, used) => return Advance(Report(head, body, max), at + used);
      }
      var length := ParseInt(Header(headers, "content-length"), 10);
      if length.None? || length.value <= 0 {
        return Advance([], at);
      }
      var n := if length.value > 2 * max then 2 * max else length.value;
      if |b| < at + n {
        return Wait;
      }
      return Advance(Report(head, b[at..at + n], max), at + n);
    }
  }

  lemma AfterNothing(p: Parsed)
    ensures After([], 0, p) == p
  {
    assert [] + p.out == p.out;
  }

  lemma EndOfBytes(b: string, out: seq<Artifact>, n: nat, max: nat)
    requires b == []
    ensures After(out, n, Extract(b, max)) == Parsed(out, n, false)
  {
    NothingToExtract(max);
    assert out + [] == out;
  }
}
