/** How a message head frames its body, said in terms of the lines as a sender writes them: names in
    any letter case, blanks around names and values, sizes spelt as digits. */
module HttpFraming {
  import opened Text
  import opened Numerals
  import opened ChunkedCoding
  import opened HttpExtract

  // ---- Header lines --------------------------------------------------------------------------------

  /** A line that gives a name a value, or one that no name can be read from. */
  datatype Line =
    | Named(lead: string, name: string, gap: string, before: string, value: string, behind: string)
    | Stray(text: string)

  function Written(l: Line): string {
    match l
    case Named(lead, name, gap, before, value, behind) => lead + name + gap + ":" + before + value + behind
    case Stray(text) => text
  }

  predicate ValidLine(l: Line) {
    match l
    case Named(lead, name, gap, before, value, behind) =>
      && Blank(lead) && Blank(gap) && Blank(before) && Blank(behind) && Solid(name) && Solid(value)
      && name != "" && ':' !in name && '\n' !in name && '\n' !in value
    case Stray(text) => text != "" && '\n' !in text && (text[0] == ':' || ':' !in text)
  }

  predicate AllValid(lines: seq<Line>) { forall i :: 0 <= i < |lines| ==> ValidLine(lines[i]) }

  function AllWritten(lines: seq<Line>): (w: seq<string>)
    ensures |w| == |lines|
  {
    if lines == [] then [] else AllWritten(lines[..|lines| - 1]) + [Written(lines[|lines| - 1])]
  }

  predicate Says(l: Line, name: string) { l.Named? && SameWord(l.name, name) }

  /** Line `k` is the last one with this name. */
  predicate LastSaying(lines: seq<Line>, name: string, k: nat) {
    k < |lines| && Says(lines[k], name) && forall j | k < j < |lines| :: !Says(lines[j], name)
  }

  predicate NoneSays(lines: seq<Line>, name: string) {
    forall j :: 0 <= j < |lines| ==> !Says(lines[j], name)
  }

  lemma {:induction false} IndexOfNoColon(s: string)
    requires ':' !in s
    ensures IndexOf(s, ":") == -1
    decreases |s|
  {
    if s != "" {
      assert s[0] in s;
      IndexOfNoColon(s[1..]);
    }
  }

  lemma BlankIsPlain(s: string)
    requires Blank(s)
    ensures ':' !in s && '\n' !in s
  {}

  /** Where the first colon of a line is: behind the name and its blanks, or nowhere of use. */
  lemma ColonOfNamed(l: Line)
    requires ValidLine(l) && l.Named?
    ensures var i := IndexOf(Written(l), ":");
            i > 0 && Written(l)[..i] == l.lead + l.name + l.gap && Written(l)[i + 1..] == l.before + l.value + l.behind
  {
    hide IndexOf, Blank, Solid;
    var front, back := l.lead + l.name + l.gap, l.before + l.value + l.behind;
    BlankIsPlain(l.lead);
    BlankIsPlain(l.gap);
    IndexOfColon(front, back);
    assert Written(l) == front + ":" + back;
  }

  lemma ColonOfStray(l: Line)
    requires ValidLine(l) && l.Stray?
    ensures IndexOf(Written(l), ":") <= 0
  {
    hide IndexOf;
    if l.text[0] == ':' { IndexOfIsFirst(l.text, ":", 0); } else { IndexOfNoColon(l.text); }
  }

  lemma WrittenStep(lines: seq<Line>)
    requires lines != []
    ensures var n := |lines| - 1; var w := AllWritten(lines);
            w[..n] == AllWritten(lines[..n]) && w[n] == Written(lines[n])
  {
    hide Written;
  }

  lemma HeadersLine(lines: seq<string>)
    requires lines != []
    ensures var line := lines[|lines| - 1]; var m := Headers(lines[..|lines| - 1]); var i := IndexOf(line, ":");
            Headers(lines) == if i > 0 then m[Lower(Trim(line[..i])) := Trim(line[i + 1..])] else m
  {
    hide IndexOf, Lower, Trim;
  }

  lemma HeadersStep(lines: seq<Line>)
    requires AllValid(lines) && lines != []
    ensures var l := lines[|lines| - 1]; var m := Headers(AllWritten(lines[..|lines| - 1]));
            Headers(AllWritten(lines)) == if l.Named? then m[Lower(l.name) := l.value] else m
  {
    hide IndexOf, Lower, Trim, Blank, Solid, Headers, AllWritten, Written;
    var l := lines[|lines| - 1];
    WrittenStep(lines);
    HeadersLine(AllWritten(lines));
    if l.Named? {
      ColonOfNamed(l);
      BlanksAreTrimmed(l.lead, l.name, l.gap);
      BlanksAreTrimmed(l.before, l.value, l.behind);
    } else {
      ColonOfStray(l);
    }
  }

  /** A name, in any letter case, has the value of the last line that gives it one, without the blanks
      around it. */
  lemma {:induction false} HeaderIsLast(lines: seq<Line>, name: string)
    requires AllValid(lines)
    ensures NoneSays(lines, name) ==> Lower(name) !in Headers(AllWritten(lines))
    ensures forall k: nat :: LastSaying(lines, name, k) ==> HasValue(lines, name, lines[k].value)
    decreases |lines|
  {
    hide Headers, Lower, SameWord, ValidLine, AllWritten, Written;
    if lines == [] {
      WrittenNothing();
      HeadersOfNothing();
      assert lines == [];
    } else {
      var n := |lines| - 1;
      HeadersStep(lines);
      HeaderIsLast(lines[..n], name);
      if lines[n].Named? { SameWordIff(lines[n].name, name); }
      forall k: nat | LastSaying(lines, name, k) ensures HasValue(lines, name, lines[k].value) {
        if k < n { assert LastSaying(lines[..n], name, k); }
      }
    }
  }

  /** The parser reads this value for the name. */
  predicate HasValue(lines: seq<Line>, name: string, value: string) {
    var m := Headers(AllWritten(lines));
    Lower(name) in m && m[Lower(name)] == value
  }

  lemma WrittenNothing()
    ensures AllWritten([]) == []
  {}

  lemma HeadersOfNothing()
    ensures Headers([]) == map[]
  {}

  // ---- Framing -----------------------------------------------------------------------------------------

  ghost predicate HttpStart(s: string) {
    "HTTP/" <= s || exists i: nat :: OccursAt(s, " HTTP/", i)
  }

  ghost predicate SaysChunked(lines: seq<Line>) {
    exists k: nat :: LastSaying(lines, "Transfer-Encoding", k) && Mentions(lines[k].value, "chunked")
  }

  ghost predicate SaysLength(lines: seq<Line>, n: nat) {
    exists k: nat :: LastSaying(lines, "Content-Length", k) && Numeral(lines[k].value, n)
  }

  /** A length that is obeyed. */
  ghost predicate Obeyed(lines: seq<Line>, n: nat) {
    SaysLength(lines, n) && 0 < n <= MAX_INT64
  }

  lemma StartIff(s: string)
    ensures IsStartLine(s) <==> HttpStart(s)
  {
    hide IndexOf, OccursAt;
    if IndexOf(s, " HTTP/") >= 0 { IndexOfOccurs(s, " HTTP/"); }
    if i: nat :| OccursAt(s, " HTTP/", i) { IndexOfIsFirst(s, " HTTP/", i); }
  }

  lemma HeaderNames()
    ensures Lower("Transfer-Encoding") == "transfer-encoding" && Lower("Content-Length") == "content-length"
    ensures Lower("chunked") == "chunked" && |"chunked"| == 7
  {
    LowerParts();
    LowerConcat("Transfer", "-Encoding");
    assert "Transfer" + "-Encoding" == "Transfer-Encoding" && "transfer" + "-encoding" == "transfer-encoding";
  }

  lemma {:induction false} LastExists(lines: seq<Line>, name: string)
    ensures NoneSays(lines, name) || exists k: nat :: LastSaying(lines, name, k)
    decreases |lines|
  {
    hide Says;
    if lines != [] {
      var n := |lines| - 1;
      if Says(lines[n], name) {
        assert LastSaying(lines, name, n);
      } else {
        LastExists(lines[..n], name);
        if k: nat :| LastSaying(lines[..n], name, k) { assert LastSaying(lines, name, k); }
      }
    }
  }

  lemma LastIsUnique(lines: seq<Line>, name: string, j: nat, k: nat)
    requires LastSaying(lines, name, j) && LastSaying(lines, name, k)
    ensures j == k
  {
    hide Says;
  }

  lemma ChunkedIff(lines: seq<Line>)
    requires AllValid(lines)
    ensures Contains(Lower(Header(Headers(AllWritten(lines)), "transfer-encoding")), "chunked") <==> SaysChunked(lines)
  {
    hide IndexOf, Lower, Headers, AllWritten, Mentions, NoneSays, AllValid, SameWord;
    HeaderNames();
    HeaderIsLast(lines, "Transfer-Encoding");
    LastExists(lines, "Transfer-Encoding");
    if k: nat :| LastSaying(lines, "Transfer-Encoding", k) {
      MentionsIff(lines[k].value, "chunked");
      forall j: nat | LastSaying(lines, "Transfer-Encoding", j) ensures j == k {
        LastIsUnique(lines, "Transfer-Encoding", j, k);
      }
    } else {
      NothingMentioned();
    }
  }

  lemma NothingMentioned()
    ensures !Contains(Lower(""), "chunked")
  {
    LowerKeepsLength("");
  }

  lemma LengthIff(lines: seq<Line>, n: nat)
    requires AllValid(lines) && n > 0
    ensures ParseInt(Header(Headers(AllWritten(lines)), "content-length"), 10) == Some(n) <==> Obeyed(lines, n)
  {
    hide ParseInt, Lower, Headers, AllWritten, Numeral, NoneSays, AllValid, SameWord;
    HeaderNames();
    HeaderIsLast(lines, "Content-Length");
    LastExists(lines, "Content-Length");
    if k: nat :| LastSaying(lines, "Content-Length", k) {
      PositiveIff(lines[k].value, n);
      forall j: nat | LastSaying(lines, "Content-Length", j) ensures j == k {
        LastIsUnique(lines, "Content-Length", j, k);
      }
    } else {
      NoNumber();
    }
  }

  lemma NoNumber()
    ensures ParseInt("", 10) == None
  {}

  /** The framing of a head, by what its lines say: not HTTP without the mark in the first line;
      chunked when the last Transfer-Encoding line mentions it; sized when the last Content-Length
      line spells a positive number of 64 bits, cut to what the buffer can hold; else without body. */
  lemma FramingIs(start: string, lines: seq<Line>, max: nat)
    requires AllValid(lines)
    ensures var f := FramingOf([start] + AllWritten(lines), max);
            && (f.NotHttp? <==> !HttpStart(start))
            && (f.Chunked? <==> HttpStart(start) && SaysChunked(lines))
            && (f.Sized? <==> HttpStart(start) && !SaysChunked(lines) && exists n: nat :: Obeyed(lines, n))
            && forall n: nat :: f.Sized? && Obeyed(lines, n) ==> f.length == if n <= 2 * max then n else 2 * max
  {
    hide IndexOf, ParseInt, Lower, Headers, AllWritten, SaysChunked, Obeyed, AllValid, HttpStart, IsStartLine;
    var w := AllWritten(lines);
    assert ([start] + w)[1..] == w;
    StartIff(start);
    ChunkedIff(lines);
    forall n: nat | n > 0
      ensures ParseInt(Header(Headers(w), "content-length"), 10) == Some(n) <==> Obeyed(lines, n)
    {
      LengthIff(lines, n);
    }
    ObeyedIsPositive(lines);
  }

  lemma ObeyedIsPositive(lines: seq<Line>)
    ensures forall n: nat :: Obeyed(lines, n) ==> n > 0
  {
    hide SaysLength;
  }

  // ---- Messages as they are sent -------------------------------------------------------------------

  datatype Sent = Sent(start: string, lines: seq<Line>, body: Body)

  function AsMessage(m: Sent): Message { Message([m.start] + AllWritten(m.lines), m.body) }

  function AsMessages(ms: seq<Sent>): seq<Message> {
    if ms == [] then [] else [AsMessage(ms[0])] + AsMessages(ms[1..])
  }

  predicate ValidExt(ext: string) { (ext != "" ==> ext[0] == ';') && '\n' !in ext }

  ghost predicate ChunksSent(chunks: seq<Chunk>, last: Chunk) {
    && (forall c <- chunks ::
          HexNumeral(c.digits, |c.data|) && ValidExt(c.ext) && 0 < |c.data| && |c.data| + 2 <= MAX_INT64)
    && HexNumeral(last.digits, 0) && ValidExt(last.ext)
  }

  /** A message whose head frames its body as a sender means it. */
  ghost predicate WellSent(m: Sent, max: nat) {
    && HttpStart(m.start) && '\n' !in m.start && AllValid(m.lines)
    && match m.body
       case Empty => !SaysChunked(m.lines) && forall n: nat :: SaysLength(m.lines, n) ==> n == 0
       case Plain(data) => !SaysChunked(m.lines) && Obeyed(m.lines, |data|) && |data| <= 2 * max
       case InChunks(chunks, last) => SaysChunked(m.lines) && ChunksSent(chunks, last)
  }

  lemma ChunksAreValid(chunks: seq<Chunk>, last: Chunk)
    requires ChunksSent(chunks, last)
    ensures ValidBody(chunks, last)
  {
    hide HexNumeral, AllDigits, Value;
    forall c | c in chunks ensures ValidChunk(c) { HexIsRead(c.digits, |c.data|); }
    HexIsRead(last.digits, 0);
  }

  lemma WrittenLineIsValid(l: Line)
    requires ValidLine(l)
    ensures Written(l) != "" && '\n' !in Written(l)
  {
    hide Blank, Solid;
    if l.Named? {
      BlankIsPlain(l.lead);
      BlankIsPlain(l.gap);
      BlankIsPlain(l.before);
      BlankIsPlain(l.behind);
    }
  }

  lemma {:induction false} WrittenAreValid(lines: seq<Line>)
    requires AllValid(lines)
    ensures forall i :: 0 <= i < |lines| ==> AllWritten(lines)[i] != "" && '\n' !in AllWritten(lines)[i]
    decreases |lines|
  {
    hide ValidLine, Written;
    if lines != [] {
      WrittenAreValid(lines[..|lines| - 1]);
      WrittenLineIsValid(lines[|lines| - 1]);
    }
  }

  lemma SentIsValid(m: Sent, max: nat)
    requires WellSent(m, max)
    ensures ValidMessage(AsMessage(m), max)
  {
    hide FramingOf, AllWritten, SaysChunked, SaysLength, ChunksSent, ValidBody, AllValid;
    FramingIs(m.start, m.lines, max);
    WrittenAreValid(m.lines);
    if m.body.InChunks? { ChunksAreValid(m.body.chunks, m.body.last); }
  }

  lemma {:induction false} AllSentAreValid(ms: seq<Sent>, max: nat)
    requires forall i :: 0 <= i < |ms| ==> WellSent(ms[i], max)
    ensures |AsMessages(ms)| == |ms|
    ensures forall i :: 0 <= i < |ms| ==> AsMessages(ms)[i] == AsMessage(ms[i]) && ValidMessage(AsMessages(ms)[i], max)
    decreases |ms|
  {
    hide WellSent, AsMessage, ValidMessage;
    if ms != [] {
      SentIsValid(ms[0], max);
      AllSentAreValid(ms[1..], max);
    }
  }

  /** What the messages carry: each body that is not empty, under its head, cut to `max` bytes. */
  function Carried(ms: seq<Sent>, max: nat): seq<Artifact> {
    if ms == [] then []
    else
      var data := BodyData(ms[0].body);
      var rest := Carried(ms[1..], max);
      if data == "" then rest
      else [Artifact(JoinLines(AsMessage(ms[0]).lines), if |data| <= max then data else data[..max])] + rest
  }

  lemma {:induction false} CarriedIsReported(ms: seq<Sent>, max: nat)
    ensures Reports(AsMessages(ms), max) == Carried(ms, max)
    decreases |ms|
  {
    hide AllWritten, JoinLines, BodyData;
    if ms != [] {
      assert AsMessages(ms)[1..] == AsMessages(ms[1..]);
      CarriedIsReported(ms[1..], max);
    }
  }

  /** The messages that lie wholly within the first `n` bytes. */
  function SentWithin(ms: seq<Sent>, n: nat): seq<Sent> {
    if ms == [] || |MessageBytes(AsMessage(ms[0]))| > n then []
    else [ms[0]] + SentWithin(ms[1..], n - |MessageBytes(AsMessage(ms[0]))|)
  }

  lemma {:induction false} WithinIsSent(ms: seq<Sent>, n: nat)
    ensures Within(AsMessages(ms), n) == AsMessages(SentWithin(ms, n))
    decreases |ms|
  {
    hide AsMessage, MessageBytes;
    if ms != [] && |MessageBytes(AsMessage(ms[0]))| <= n {
      var left := n - |MessageBytes(AsMessage(ms[0]))|;
      assert AsMessages(ms)[1..] == AsMessages(ms[1..]);
      WithinIsSent(ms[1..], left);
      assert ([ms[0]] + SentWithin(ms[1..], left))[1..] == SentWithin(ms[1..], left);
    }
  }

  /** The messages of a stream as they were sent, however it is cut into packets: exactly those wholly
      inside the first 2 * max bytes are reported, each with its own body. */
  lemma SentInAnyPackets(ms: seq<Sent>, first: string, payloads: seq<string>, max: nat)
    requires forall i :: 0 <= i < |ms| ==> WellSent(ms[i], max)
    requires first + Joined(payloads) == AllBytes(AsMessages(ms))
    ensures var r := Run(FRESH, [first] + payloads, max);
            !r.0.panicked && r.1 == Carried(SentWithin(ms, 2 * max), max)
  {
    hide Run, Within, SentWithin, AllBytes, Carried, Reports, AsMessages, WellSent, ValidMessage, Front;
    AllSentAreValid(ms, max);
    MessagesInAnyPackets(AsMessages(ms), first, payloads, max);
    WithinIsSent(ms, 2 * max);
    CarriedIsReported(SentWithin(ms, 2 * max), max);
  }

  // ---- Bytes that are not HTTP ---------------------------------------------------------------------

  lemma PrefixOccurs(s: string, x: string, pat: string, i: nat)
    requires s <= x
    ensures OccursAt(s, pat, i) ==> OccursAt(x, pat, i)
  {
    if OccursAt(s, pat, i) { assert x[i..i + |pat|] == s[i..i + |pat|]; }
  }

  lemma FirstLineIsShort(x: string, n: nat)
    requires OccursAt(x, CRLF, n) && IndexOf(x, HEAD_END) >= 0
    ensures var line := SplitLines(x[..IndexOf(x, HEAD_END)])[0]; line <= x && |line| <= n + 1
  {
    hide IndexOf;
    var head := x[..IndexOf(x, HEAD_END)];
    if n + 2 <= |head| {
      assert head[n..n + 2] == x[n..n + 2];
      IndexOfIsFirst(head, CRLF, n);
    }
  }

  /** Where the first line has no mark of HTTP, the loop moves on by a single byte. */
  lemma MovesOn(x: string, n: nat, at: nat, max: nat)
    requires OccursAt(x, CRLF, n) && OccursAt(x, HEAD_END, at)
    requires !("HTTP/" <= x) && forall i: nat :: i < n ==> !OccursAt(x, " HTTP/", i)
    ensures Extract(x, max) == After([], 1, Extract(x[1..], max))
  {
    hide IndexOf, SplitLines, Headers;
    IndexOfIsFirst(x, HEAD_END, at);
    FirstLineIsShort(x, n);
    var line := SplitLines(x[..IndexOf(x, HEAD_END)])[0];
    StartIff(line);
    forall i: nat ensures !OccursAt(line, " HTTP/", i) {
      PrefixOccurs(line, x, " HTTP/", i);
    }
  }

  /** The loop finds its way back: behind a line without the mark, a response is read as if it came
      first. */
  lemma {:induction false} LineBeforeIsSkipped(s: string, start: string, lines: seq<string>, rest: string, max: nat)
    requires '\n' !in s && forall i: nat :: !OccursAt(s, "HTTP/", i)
    requires "HTTP/" <= start && forall i: nat :: !OccursAt(start, " HTTP/", i)
    ensures var b := JoinLines([start] + lines) + HEAD_END + rest;
            Extract(s + CRLF + b, max) == After([], |s| + 2, Extract(b, max))
    decreases |s|
  {
    hide Extract, JoinLines, IndexOf;
    var b := JoinLines([start] + lines) + HEAD_END + rest;
    if s == "" {
      assert s + CRLF + b == CRLF + b;
      LineEndIsSkipped(start, lines, rest, max);
    } else {
      var x := s + CRLF + b;
      assert x[|s|..|s| + 2] == CRLF;
      var at := |s| + 2 + |JoinLines([start] + lines)|;
      assert x[at..at + 4] == HEAD_END;
      MarkFree(s, x);
      MovesOn(x, |s|, at, max);
      assert x[1..] == s[1..] + CRLF + b;
      forall i: nat ensures !OccursAt(s[1..], "HTTP/", i) { OccursInTail(s, "HTTP/", i); }
      LineBeforeIsSkipped(s[1..], start, lines, rest, max);
      MovesAdd(1, |s| + 1, Extract(b, max));
    }
  }

  lemma MovesAdd(m: nat, n: nat, p: Parsed)
    ensures After([], m, After([], n, p)) == After([], m + n, p)
  {
    assert [] + ([] + p.out) == [] + p.out;
  }

  lemma LineEndIsSkipped(start: string, lines: seq<string>, rest: string, max: nat)
    requires "HTTP/" <= start && forall i: nat :: !OccursAt(start, " HTTP/", i)
    ensures var b := JoinLines([start] + lines) + HEAD_END + rest;
            Extract(CRLF + b, max) == After([], 2, Extract(b, max))
  {
    hide Extract, JoinLines, IndexOf;
    var b := JoinLines([start] + lines) + HEAD_END + rest;
    var at := |JoinLines([start] + lines)|;
    BeginsWithStart(start, lines, rest);
    var x, y := CRLF + b, "\n" + b;
    assert x[0] == '\r' && x[1..] == y && y[1..] == b;
    assert x[0..2] == CRLF && x[at + 2..at + 6] == HEAD_END;
    MovesOn(x, 0, at + 2, max);
    assert y[at + 1..at + 5] == HEAD_END;
    assert y[1 + |start|..3 + |start|] == b[|start|..|start| + 2] == CRLF;
    forall i: nat | i < 1 + |start| ensures !OccursAt(y, " HTTP/", i) { LaterMark(start, b, i); }
    MovesOn(y, 1 + |start|, at + 1, max);
    MovesAdd(1, 1, Extract(b, max));
  }

  lemma BeginsWithStart(start: string, lines: seq<string>, rest: string)
    ensures start + CRLF <= JoinLines([start] + lines) + HEAD_END + rest
  {
    assert ([start] + lines)[1..] == lines;
  }

  lemma MarkFree(s: string, x: string)
    requires s + CRLF <= x && s != "" && forall i: nat :: !OccursAt(s, "HTTP/", i)
    ensures !("HTTP/" <= x) && forall i: nat :: i < |s| ==> !OccursAt(x, " HTTP/", i)
  {
    if "HTTP/" <= x { InFront(s, x, 0); }
    forall i: nat | i < |s| ensures !OccursAt(x, " HTTP/", i) {
      if OccursAt(x, " HTTP/", i) {
        assert x[i + 1..i + 6] == x[i..i + 6][1..] == "HTTP/";
        InFront(s, x, i + 1);
      }
    }
  }

  /** A mark cannot reach over the end of a line. */
  lemma InFront(s: string, x: string, i: nat)
    requires s + CRLF <= x && i <= |s| && OccursAt(x, "HTTP/", i)
    ensures OccursAt(s, "HTTP/", i)
  {
    var w := x[i..i + 5];
    assert w[0] == 'H' && w[1] == 'T' && w[2] == 'T' && w[3] == 'P' && w[4] == '/';
    forall k | i <= k < i + 5 ensures x[k] != '\r' { assert x[k] == w[k - i]; }
    assert x[|s|] == '\r';
    assert s[i..i + 5] == w;
  }

  lemma LaterMark(start: string, b: string, i: nat)
    requires start + CRLF <= b && i < 1 + |start|
    ensures OccursAt("\n" + b, " HTTP/", i) ==> i > 0 && OccursAt(start, " HTTP/", i - 1)
  {
    var y := "\n" + b;
    if OccursAt(y, " HTTP/", i) {
      var w := y[i..i + 6];
      assert w[0] == ' ' && w[1] == 'H' && w[2] == 'T' && w[3] == 'T' && w[4] == 'P' && w[5] == '/';
      forall k | i <= k < i + 6 ensures y[k] != '\r' { assert y[k] == w[k - i]; }
      assert y[1 + |start|] == b[|start|] == '\r';
      assert y[i] == w[0] && i > 0;
      assert start[i - 1..i + 5] == w;
    }
  }

  // ---- Size lines of chunks --------------------------------------------------------------------------

  /** A size as it is accepted: a hexadecimal number, perhaps with a plus sign, or zero with a minus sign. */
  ghost predicate SizeText(s: string, n: nat) {
    || HexNumeral(s, n)
    || (s != "" && s[0] == '+' && HexNumeral(s[1..], n))
    || (s != "" && s[0] == '-' && HexNumeral(s[1..], n) && n == 0)
  }

  lemma HexHasNoSign(s: string, n: nat)
    requires HexNumeral(s, n)
    ensures s != "" && s[0] != '+' && s[0] != '-'
  {
    hide Digit, Value, Spelled, SameLetter, HexNumeral;
    HexIsRead(s, n);
    assert s[0] in s;
    SignsAreNone(s[0]);
  }

  /** What is read as a size is exactly such a text that fits 64 bits. */
  lemma SizeIff(s: string, n: nat)
    ensures ParseInt(s, 16) == Some(n) <==> SizeText(s, n) && n <= MAX_INT64
  {
    hide Value, AllDigits, HexNumeral;
    if ParseInt(s, 16) == Some(n) {
      if s[0] == '+' || s[0] == '-' { DigitsAreHex(s[1..]); } else { DigitsAreHex(s); }
    }
    if SizeText(s, n) && n <= MAX_INT64 {
      if HexNumeral(s, n) {
        HexIsRead(s, n);
        HexHasNoSign(s, n);
      } else {
        HexIsRead(s[1..], n);
      }
    }
  }

  lemma NegativeSize(s: string)
    ensures ParseInt(s, 16).Some? && ParseInt(s, 16).value < 0 ==> forall n: nat :: n <= MAX_INT64 ==> !SizeText(s, n)
  {
    hide ParseInt, SizeText;
    forall n: nat | n <= MAX_INT64 && SizeText(s, n) ensures ParseInt(s, 16) == Some(n) { SizeIff(s, n); }
  }

  /** A size line as it may be written: blanks around the size, and an extension. */
  lemma SizeLine(before: string, s: string, behind: string, ext: string, rest: string)
    requires Blank(before) && Blank(behind) && Solid(s) && ';' !in s && '\n' !in s && ValidExt(ext)
    ensures var line := before + s + behind + ext; var b := line + CRLF + rest;
            IndexOf(b, CRLF) == |line| && b[..|line|] == line && LineSize(line) == ParseInt(s, 16)
  {
    hide IndexOf, ParseInt, Blank, Solid, Trim;
    var line := before + s + behind + ext;
    BlankIsPlain(before);
    BlankIsPlain(behind);
    IndexOfLineEnd(line, rest);
    BlankHasNoSemicolon(before);
    BlankHasNoSemicolon(behind);
    IndexOfSemicolon(before + s + behind, ext);
    if ext == "" { assert line == before + s + behind; } else { assert line[..|before + s + behind|] == before + s + behind; }
    BlanksAreTrimmed(before, s, behind);
  }

  lemma BlankHasNoSemicolon(s: string)
    requires Blank(s)
    ensures ';' !in s
  {}

  /** One turn of the decoder, exactly: a size line that is none is refused; the last chunk, and any other
      whose size is small enough to add two to, needs its data and two more octets, whatever these are;
      and a size that is too large overflows. */
  lemma SizeLineDecides(before: string, s: string, behind: string, ext: string, rest: string)
    requires Blank(before) && Blank(behind) && Solid(s) && ';' !in s && '\n' !in s && ValidExt(ext)
    ensures var line := before + s + behind + ext; var b := line + CRLF + rest; var at := |line| + 2;
            && ((forall n: nat :: n <= MAX_INT64 ==> !SizeText(s, n)) ==> Decode(b) == Fails)
            && forall n: nat :: SizeText(s, n) && n <= MAX_INT64 ==>
                 if n + 2 > MAX_INT64 then Decode(b) == Overflow
                 else if |rest| < n + 2 then Decode(b) == Fails
                 else Decode(b) == if n == 0 then Done("", at + 2) else Prepend(rest[..n], at + n + 2, Decode(rest[n + 2..]))
  {
    hide IndexOf, ParseInt, Blank, Solid, Trim, SizeText, LineSize, Decode;
    var line := before + s + behind + ext;
    var b := line + CRLF + rest;
    SizeLine(before, s, behind, ext, rest);
    NegativeSize(s);
    DecodeOnce(b);
    if ParseInt(s, 16).Some? && ParseInt(s, 16).value >= 0 { SizeIff(s, ParseInt(s, 16).value); }
    forall n: nat | SizeText(s, n) && n <= MAX_INT64
      ensures if n + 2 > MAX_INT64 then Decode(b) == Overflow
              else if |rest| < n + 2 then Decode(b) == Fails
              else Decode(b) == if n == 0 then Done("", |line| + 4)
                                else Prepend(rest[..n], |line| + n + 4, Decode(rest[n + 2..]))
    {
      SizeIff(s, n);
      if |rest| >= n + 2 {
        assert b[|line| + 2..|line| + 2 + n] == rest[..n];
        assert b[|line| + 4 + n..] == rest[n + 2..];
      }
    }
  }

  lemma DecodeOnce(b: string)
    ensures var p := FirstPiece(b);
            && (p.Unfinished? ==> Decode(b) == Fails) && (p.TooBig? ==> Decode(b) == Overflow)
            && (p.Last? ==> Decode(b) == Done([], p.used))
            && (p.Data? ==> Decode(b) == Prepend(p.data, p.used, Decode(b[p.used..])))
  {
    hide FirstPiece;
  }
}
