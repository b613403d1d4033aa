/** The detection language of the scripting engine: its line parser, its condition parser, and what
    a parsed rule matches. */
module Npdl {
  import opened Text

  // ---- The separator  (?i)\s+AND\s+  -----------------------------------------------------------

  /** White space as regular expressions see it: without the vertical tab. */
  predicate ReSpace(c: char) { IsSpace(c) && c as int != 11 }

  /** The end of the run of white space that starts at `i`. */
  function SpaceEnd(s: string, i: nat): (j: nat)
    requires i <= |s|
    ensures i <= j <= |s| && (j < |s| ==> !ReSpace(s[j]))
    decreases |s| - i
  {
    if i < |s| && ReSpace(s[i]) then SpaceEnd(s, i + 1) else i
  }

  predicate AndAt(s: string, j: nat) {
    j + 3 < |s| && LowerChar(s[j]) == 'a' && LowerChar(s[j + 1]) == 'n' && LowerChar(s[j + 2]) == 'd' && ReSpace(s[j + 3])
  }

  /** A separator starts at `i`. */
  predicate SepAt(s: string, i: nat) {
    i < |s| && ReSpace(s[i]) && AndAt(s, SpaceEnd(s, i))
  }

  /** Where the separator that starts at `i` ends. */
  function SepEnd(s: string, i: nat): (e: nat)
    requires SepAt(s, i)
    ensures i < e <= |s|
  {
    SpaceEnd(s, SpaceEnd(s, i) + 3)
  }

  /** The first separator at or after `i`, or the end of the text. */
  function FindSep(s: string, i: nat): (k: nat)
    requires i <= |s|
    ensures i <= k <= |s| && (k < |s| ==> SepAt(s, k))
    ensures forall m :: i <= m < k ==> !SepAt(s, m)
    decreases |s| - i
  {
    if i == |s| || SepAt(s, i) then i else FindSep(s, i + 1)
  }

  function SplitAnd(s: string): (chunks: seq<string>)
    ensures |chunks| >= 1
    decreases |s|
  {
    var k := FindSep(s, 0);
    if k == |s| then [s] else [s[..k]] + SplitAnd(s[SepEnd(s, k)..])
  }

  // ---- Conditions ---------------------------------------------------------------------------------

  datatype Condition = Condition(field: string, op: string, value: string)

  predicate FieldChar(c: char) {
    'a' <= c <= 'z' || 'A' <= c <= 'Z' || '0' <= c <= '9' || c == '_' || c == '.' || c == '-'
  }

  function FieldEnd(s: string, i: nat): (j: nat)
    requires i <= |s|
    ensures i <= j <= |s|
    decreases |s| - i
  {
    if i < |s| && FieldChar(s[i]) then FieldEnd(s, i + 1) else i
  }

  /** The operator is there and something follows it. */
  predicate OpAt(s: string, at: nat, op: string) {
    at + |op| < |s| && s[at..at + |op|] == op
  }

  function Operator(s: string, at: nat): (op: string)
    ensures op != "" ==> OpAt(s, at, op)
  {
    if OpAt(s, at, "=") then "="
    else if OpAt(s, at, "!=") then "!="
    else if OpAt(s, at, "~") then "~"
    else if OpAt(s, at, ">=") then ">="
    else if OpAt(s, at, "<=") then "<="
    else if OpAt(s, at, ">") then ">"
    else if OpAt(s, at, "<") then "<"
    else ""
  }

  predicate IsQuote(c: char) { c == '"' || c == '\'' }

  function TrimQuotes(s: string): string {
    if s != "" && IsQuote(s[0]) then TrimQuotes(s[1..])
    else if s != "" && IsQuote(s[|s| - 1]) then TrimQuotes(s[..|s| - 1])
    else s
  }

  /** A field, an operator and a value, for a chunk without outer white space. */
  function ParseCondition(s: string): Option<Condition> {
    var n := FieldEnd(s, 0);
    var at := SpaceEnd(s, n);
    var op := Operator(s, at);
    if n == 0 || op == "" then None
    else Some(Condition(Lower(s[..n]), op, TrimQuotes(Trim(s[SpaceEnd(s, at + |op|)..]))))
  }

  function ParseAll(chunks: seq<string>): Option<seq<Condition>>
    decreases |chunks|
  {
    if chunks == [] then Some([])
    else
      match ParseCondition(Trim(chunks[0]))
      case None => None
      case Some(c) =>
        match ParseAll(chunks[1..])
        case None => None
        case Some(cs) => Some([c] + cs)
  }

  function ParseConditions(s: string): Option<seq<Condition>> {
    ParseAll(SplitAnd(s))
  }

  // ---- Rules ----------------------------------------------------------------------------------------

  datatype Rule = Rule(id: string, title: string, severity: string, confidence: int, mitre: seq<string>,
                       conditions: seq<Condition>, enabled: bool)

  /** The lines a scanner yields: cut at line feeds, one carriage return before each dropped. */
  function ScanLines(src: string): seq<string> {
    if src == "" then []
    else
      var i := IndexOf(src, "\n");
      if i < 0 then [DropReturn(src)] else [DropReturn(src[..i])] + ScanLines(src[i + 1..])
  }

  function DropReturn(s: string): string {
    if s != "" && s[|s| - 1] == '\r' then s[..|s| - 1] else s
  }

  const MAX_LINE := 65535

  /** A scanner gives up on a line that does not fit its buffer with the line feed. */
  predicate LinesFit(src: string)
    decreases |src|
  {
    src == "" ||
    var i := IndexOf(src, "\n");
    if i < 0 then |src| <= MAX_LINE else i <= MAX_LINE && LinesFit(src[i + 1..])
  }

  function SplitComma(s: string): seq<string>
    decreases |s|
  {
    var i := IndexOf(s, ",");
    if i < 0 then [s] else [s[..i]] + SplitComma(s[i + 1..])
  }

  function NonEmptyTrimmed(xs: seq<string>): seq<string> {
    if xs == [] then []
    else (if Trim(xs[0]) == "" then [] else [Trim(xs[0])]) + NonEmptyTrimmed(xs[1..])
  }

  /** The rule being read and the rules read so far; errors end the parse. */
  datatype State = State(cur: Option<Rule>, out: seq<Rule>)

  function Directive(r: Rule, key: string, val: string): Option<Rule> {
    if key == "title" then Some(r.(title := val))
    else if key == "severity" then Some(r.(severity := Lower(val)))
    else if key == "confidence" then
      match ParseInt(val, 10)
      case Some(n) => if 1 <= n <= 100 then Some(r.(confidence := n)) else None
      case None => None
    else if key == "mitre" then Some(r.(mitre := r.mitre + NonEmptyTrimmed(SplitComma(val))))
    else if key == "enabled" then Some(r.(enabled := Lower(val) != "false"))
    else if key == "when" then
      match ParseConditions(val)
      case Some(cs) => Some(r.(conditions := cs))
      case None => None
    else None
  }

  function ParseLine(st: State, line: string): Option<State> {
    var raw := Trim(line);
    if raw == "" || raw[0] == '#' then Some(st)
    else
      var words := Words(raw);
      if words == [] then Some(st)
      else
        var key := Lower(words[0]);
        if key == "rule" then
          if st.cur.Some? || |words| != 2 then None
          else Some(st.(cur := Some(Rule(words[1], "", "medium", 70, [], [], true))))
        else if key == "end" then
          match st.cur
          case None => None
          case Some(r) =>
            if r.conditions == [] then None
            else Some(State(None, st.out + [if r.title == "" then r.(title := r.id) else r]))
        else
          match st.cur
          case None => None
          case Some(r) =>
            match Directive(r, key, Trim(if words[0] <= raw then raw[|words[0]|..] else raw))
            case None => None
            case Some(r') => Some(st.(cur := Some(r')))
  }

  function ParseLines(st: State, lines: seq<string>): Option<State>
    decreases |lines|
  {
    if lines == [] then Some(st)
    else
      match ParseLine(st, lines[0])
      case None => None
      case Some(st') => ParseLines(st', lines[1..])
  }

  function Parse(src: string): Option<seq<Rule>> {
    if !LinesFit(src) then None
    else
      match ParseLines(State(None, []), ScanLines(src))
      case None => None
      case Some(st) => if st.cur.Some? then None else Some(st.out)
  }

  // ---- Matching --------------------------------------------------------------------------------------

  /** `num` reads a number, `None` where the text is none. */
  predicate MatchCondition(c: Condition, v: string, num: string -> Option<real>) {
    if c.op == "=" then Lower(v) == Lower(c.value)
    else if c.op == "!=" then Lower(v) != Lower(c.value)
    else if c.op == "~" then c.value == "" || Contains(Lower(v), Lower(c.value))
    else
      match (num(v), num(c.value))
      case (Some(a), Some(b)) =>
        (c.op == ">" && a > b) || (c.op == ">=" && a >= b) || (c.op == "<" && a < b) || (c.op == "<=" && a <= b)
      case _ => false
  }

  function FieldValue(values: map<string, string>, name: string): string {
    if name in values then values[name] else ""
  }

  predicate Matches(conditions: seq<Condition>, values: map<string, string>, num: string -> Option<real>) {
    forall i :: 0 <= i < |conditions| ==> MatchCondition(conditions[i], FieldValue(values, conditions[i].field), num)
  }

  /** The evaluator passes over rules that are not enabled. */
  predicate Fires(r: Rule, values: map<string, string>, num: string -> Option<real>) {
    r.enabled && Matches(r.conditions, values, num)
  }

  // ---- The loops -------------------------------------------------------------------------------------

  lemma ParseAllStep(done: seq<Condition>, chunks: seq<string>)
    requires chunks != []
    ensures var c := ParseCondition(Trim(chunks[0])); var rest := ParseAll(chunks[1..]);
            && (c.None? ==> ParseAll(chunks) == None)
            && (c.Some? && rest.Some? ==> ParseAll(chunks).Some? && done + ParseAll(chunks).value == done + [c.value] + rest.value)
            && (c.Some? && rest.None? ==> ParseAll(chunks) == None)
  {
    hide ParseCondition, Trim;
    var c, rest := ParseCondition(Trim(chunks[0])), ParseAll(chunks[1..]);
    if c.Some? && rest.Some? { assert done + ([c.value] + rest.value) == done + [c.value] + rest.value; }
  }

  method ParseConditionList(s: string) returns (r: Option<seq<Condition>>)
    ensures r == ParseConditions(s)
  {
    hide ParseCondition, Trim, SplitAnd, ParseAll;
    var chunks := SplitAnd(s);
    var out: seq<Condition> := [];
    var i := 0;
    assert chunks[0..] == chunks;
    NothingParsed();
    ghost var all := ParseAll(chunks);
    while i < |chunks|
      invariant 0 <= i <= |chunks|
      invariant all.None? <==> ParseAll(chunks[i..]).None?
      invariant all.Some? ==> all.value == out + ParseAll(chunks[i..]).value
    {
      ParseAllStep(out, chunks[i..]);
      assert chunks[i..][1..] == chunks[i + 1..];
      var c := ParseCondition(Trim(chunks[i]));
      if c.None? {
        return None;
      }
      out := out + [c.value];
      i := i + 1;
    }
    assert chunks[i..] == [] && out + [] == out;
    return Some(out);
  }

  lemma NothingParsed()
    ensures ParseAll([]) == Some([])
  {}

  lemma ParseLinesStep(st: State, lines: seq<string>)
    requires lines != []
    ensures var r := ParseLine(st, lines[0]);
            ParseLines(st, lines) == if r.None? then None else ParseLines(r.value, lines[1..])
  {
    hide ParseLine;
  }

  /** One pass over the lines, with the rule being read and the rules done. */
  method ParseSource(src: string) returns (r: Option<seq<Rule>>)
    ensures r == Parse(src)
  {
    hide ParseLine, ParseLines, ScanLines, LinesFit;
    if !LinesFit(src) {
      return None;
    }
    var lines := ScanLines(src);
    var st := State(None, []);
    var i := 0;
    assert lines[0..] == lines;
    while i < |lines|
      invariant 0 <= i <= |lines|
      invariant ParseLines(State(None, []), lines) == ParseLines(st, lines[i..])
    {
      ParseLinesStep(st, lines[i..]);
      assert lines[i..][1..] == lines[i + 1..];
      var next := ParseLine(st, lines[i]);
      if next.None? {
        return None;
      }
      st := next.value;
      i := i + 1;
    }
    NoLinesLeft(st, lines[i..]);
    if st.cur.Some? {
      return None;
    }
    return Some(st.out);
  }

  lemma NoLinesLeft(st: State, lines: seq<string>)
    requires lines == []
    ensures ParseLines(st, lines) == Some(st)
  {}
}
