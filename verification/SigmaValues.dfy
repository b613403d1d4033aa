/** Any values in a rendered condition line: when the parser reads back what was rendered. */
module SigmaValues {
  import opened Text
  import opened SigmaToNpdl
  import N = Npdl
  import S = Sigma

  // ---- White space at the end -----------------------------------------------------------------

  lemma {:induction false} TrimRightTail(a: string, b: string)
    ensures TrimRight(b) != "" ==> TrimRight(a + b) == a + TrimRight(b)
    ensures TrimRight(b) == "" ==> TrimRight(a + b) == TrimRight(a)
    decreases |b|
  {
    if b == "" {
      assert a + b == a;
    } else {
      var s := a + b;
      assert s[|s| - 1] == b[|b| - 1];
      if IsSpace(b[|b| - 1]) {
        assert s[..|s| - 1] == a + b[..|b| - 1];
        TrimRightTail(a, b[..|b| - 1]);
      }
    }
  }

  lemma StartsPlain(a: string, b: string)
    requires a != "" && !IsSpace(a[0])
    ensures TrimLeft(a + b) == a + b
  {
    assert (a + b)[0] == a[0];
  }

  lemma {:induction false} TrimmedRight(y: string)
    ensures TrimRight(TrimRight(y)) == TrimRight(y) && |TrimRight(y)| <= |y|
    ensures |TrimRight(y)| == |y| ==> TrimRight(y) == y
    decreases |y|
  {
    if y != "" && IsSpace(y[|y| - 1]) { TrimmedRight(y[..|y| - 1]); }
  }

  lemma {:induction false} TrimQuotesShortens(s: string)
    ensures |N.TrimQuotes(s)| <= |s|
    decreases |s|
  {
    if s != "" && N.IsQuote(s[0]) {
      TrimQuotesShortens(s[1..]);
    } else if s != "" && N.IsQuote(s[|s| - 1]) {
      TrimQuotesShortens(s[..|s| - 1]);
    }
  }

  lemma TrimShortens(s: string)
    ensures |Trim(s)| <= |s|
    ensures |Trim(s)| == |s| ==> Trim(s) == s
  {
    TrimLeftFacts(s);
    TrimRightFacts(TrimLeft(s));
    if |Trim(s)| == |s| { TrimLeftIsSame(s); }
  }

  lemma TrimLeftIsSame(s: string)
    requires |TrimLeft(s)| >= |s|
    ensures TrimLeft(s) == s
  {
    TrimLeftFacts(s);
  }

  // ---- One chunk --------------------------------------------------------------------------------

  /** What is read from a chunk behind the operator. */
  function ReadValue(x: string): string { N.TrimQuotes(Trim(TrimRight(x))) }

  lemma ReadValueShortens(x: string)
    ensures |ReadValue(x)| <= |TrimRight(x)| <= |x|
  {
    TrimmedRight(x);
    TrimShortens(TrimRight(x));
    TrimQuotesShortens(Trim(TrimRight(x)));
  }

  lemma {:induction false} SkipThenTrim(s: string, i: nat)
    requires i <= |s|
    ensures Trim(s[N.SpaceEnd(s, i)..]) == Trim(s[i..])
    decreases |s| - i
  {
    if i < |s| && N.ReSpace(s[i]) {
      SkipThenTrim(s, i + 1);
      assert s[i..][0] == s[i] && s[i..][1..] == s[i + 1..];
    }
  }

  lemma HeadEnds(field: string, op: string)
    requires ValidHead(field, op)
    ensures var h := Head(field, op); h != "" && !IsSpace(h[0]) && TrimRight(h) == h
  {
    hide N.FieldChar;
    var h := Head(field, op);
    LowerWordFacts(field);
    assert h[0] == field[0] && h[|h| - 1] == op[0];
  }

  lemma TrimChunk(field: string, op: string, x: string)
    requires ValidHead(field, op)
    ensures Trim(Head(field, op) + (" " + x)) ==
            if TrimRight(x) == "" then Head(field, op) else Head(field, op) + (" " + TrimRight(x))
  {
    hide *;
    var h := Head(field, op);
    HeadEnds(field, op);
    StartsPlain(h, " " + x);
    TrimOfPlain(h + (" " + x));
    assert h + (" " + x) == h + " " + x;
    TrimRightTail(h + " ", x);
    if TrimRight(x) == "" {
      TrimRightTail(h, " ");
      OneSpace();
    } else {
      assert h + " " + TrimRight(x) == h + (" " + TrimRight(x));
    }
  }

  lemma TrimOfPlain(s: string)
    requires TrimLeft(s) == s
    ensures Trim(s) == TrimRight(s)
  {
    hide TrimLeft, TrimRight;
  }

  lemma OneSpace()
    ensures TrimRight(" ") == ""
  {
    var s := " ";
    assert s[..0] == "";
  }

  /** A chunk with a head is a condition exactly when something follows it. */
  lemma ReadChunk(field: string, op: string, x: string)
    requires ValidHead(field, op)
    ensures N.ParseCondition(Trim(Head(field, op) + (" " + x))) ==
            if TrimRight(x) == "" then None else Some(N.Condition(field, op, ReadValue(x)))
  {
    hide Head, ValidHead, TrimRight, N.FieldEnd, N.SpaceEnd, N.Operator, N.TrimQuotes, Lower, TrimLeft, Trim;
    var h := Head(field, op);
    TrimChunk(field, op, x);
    if TrimRight(x) == "" {
      HeadIsRefused(field, op);
    } else {
      var y := TrimRight(x);
      var s := h + (" " + y);
      OperatorIsRead(field, op, " " + y);
      HeadLength(field, op);
      SkipThenTrim(s, |h|);
      assert s[|h|..] == " " + y;
      BlankDoesNotMatter(y);
      FieldIsLower(field, op);
    }
  }

  lemma HeadLength(field: string, op: string)
    requires ValidHead(field, op)
    ensures |Head(field, op)| == |field| + 2 && |op| == 1 && |field| > 0
  {}

  lemma FieldIsLower(field: string, op: string)
    requires ValidHead(field, op)
    ensures Lower(field) == field
  {
    LowerWordFacts(field);
  }

  lemma BlankDoesNotMatter(y: string)
    ensures Trim(" " + y) == Trim(y)
  {
    assert (" " + y)[1..] == y;
  }

  // ---- Separators in front of a written one ---------------------------------------------------------

  lemma {:induction false} SpaceRun(s: string, i: nat, m: nat)
    requires i <= |s| && i <= m < N.SpaceEnd(s, i)
    ensures N.ReSpace(s[m])
    decreases m - i
  {
    if i < m { SpaceRun(s, i + 1, m); }
  }

  /** Where a separator that starts in front of a written one ends: before it, behind its blank, or
      with it. */
  lemma SepInFront(x: string, rest: string, k: nat)
    requires k < |x| && rest != "" && !N.ReSpace(rest[0])
    requires N.SepAt(x + (" AND " + rest), k)
    ensures var e := N.SepEnd(x + (" AND " + rest), k);
            e < |x| || e == |x| + 1 || (e == |x| + 5 && N.ReSpace(x[|x| - 1]))
  {
    hide N.SpaceEnd, N.ReSpace;
    var t := x + (" AND " + rest);
    var n := |x|;
    assert t[n] == ' ' && t[n + 1] == 'A' && t[n + 2] == 'N' && t[n + 3] == 'D' && t[n + 4] == ' ' && t[n + 5] == rest[0];
    Spaces();
    var j: nat := N.SpaceEnd(t, k);
    if j > n + 1 { SpaceRun(t, k, n + 1); }
    if j < n {
      LetterIsNoSpace(t[j + 1]);
      LetterIsNoSpace(t[j + 2]);
      LetterIsNoSpace(t[j]);
      assert j + 3 <= n;
      var e: nat := N.SpaceEnd(t, j + 3);
      if e > n + 1 { SpaceRun(t, j + 3, n + 1); }
    } else {
      LetterIsNoSpace(t[j]);
      assert j == n + 1;
      OneBlank(t, n + 4);
      SpaceRun(t, k, n - 1);
      assert t[n - 1] == x[n - 1];
    }
  }

  lemma Spaces()
    ensures N.ReSpace(' ') && !N.ReSpace('A') && !N.ReSpace('N') && !N.ReSpace('D')
  {}

  lemma LetterIsNoSpace(c: char)
    ensures LowerChar(c) in {'a', 'n', 'd'} ==> !N.ReSpace(c)
  {}

  lemma {:induction false} ParsedCount(chunks: seq<string>)
    requires N.ParseAll(chunks).Some?
    ensures |N.ParseAll(chunks).value| == |chunks|
    decreases |chunks|
  {
    hide N.ParseCondition, Trim;
    if chunks != [] { ParsedCount(chunks[1..]); }
  }

  lemma TailParses(chunks: seq<string>)
    requires chunks != [] && N.ParseAll(chunks).Some?
    ensures N.ParseAll(chunks[1..]).Some? && N.ParseCondition(Trim(chunks[0])).Some?
    ensures N.ParseAll(chunks).value[0] == N.ParseCondition(Trim(chunks[0])).value
    ensures N.ParseAll(chunks).value[1..] == N.ParseAll(chunks[1..]).value
  {
    hide N.ParseCondition, Trim;
  }

  lemma FirstSplit(t: string)
    ensures var k := N.FindSep(t, 0);
            N.SplitAnd(t) == if k == |t| then [t] else [t[..k]] + N.SplitAnd(t[N.SepEnd(t, k)..])
  {
    hide N.FindSep, N.SepEnd, N.SepAt;
  }

  lemma WrittenIsFound(x: string, next: Part, tail: string)
    requires ValidHead(next.field, next.op)
    ensures var t := x + (" AND " + (next.field + tail)); var k := N.FindSep(t, 0);
            && k <= |x| && N.SepAt(t, k)
            && (k == |x| ==> N.SplitAnd(t) == [x] + N.SplitAnd(next.field + tail))
            && !N.ReSpace((next.field + tail)[0])
  {
    hide N.SepAt, N.SepEnd, N.FindSep, N.SplitAnd;
    var rest := next.field + tail;
    FieldStarts(next.field);
    assert rest[0] == next.field[0];
    FieldCharFacts(rest[0]);
    WrittenSep(x, rest);
    var t := x + (" AND " + rest);
    FirstSplit(t);
    assert t[..|x|] == x;
  }

  /** Whatever text stands before a written separator, each chunk behind it stays a chunk; a
      separator in the text itself adds one, or makes the line invalid, or is the trailing white
      space of the text. */
  lemma {:induction false} Chunks(x: string, next: Part, tail: string)
    requires ValidHead(next.field, next.op)
    requires N.ParseConditions(x + (" AND " + (next.field + tail))).Some?
    ensures var rest := next.field + tail; var t := x + (" AND " + rest); var k := N.FindSep(t, 0);
            && N.ParseConditions(rest).Some?
            && |N.SplitAnd(t)| >= 1 + |N.SplitAnd(rest)|
            && (k < |x| ==> |N.SplitAnd(t)| >= 2 + |N.SplitAnd(rest)| || N.ReSpace(x[|x| - 1]))
    decreases |x|
  {
    hide N.SepAt, N.SepEnd, N.FindSep, N.SplitAnd, N.ParseAll, ValidHead, N.ReSpace, N.ParseCondition, Trim;
    var rest := next.field + tail;
    var t := x + (" AND " + rest);
    var k := N.FindSep(t, 0);
    WrittenIsFound(x, next, tail);
    FirstSplit(t);
    var chunks := N.SplitAnd(t);
    TailParses(chunks);
    if k == |x| {
      assert chunks[1..] == N.SplitAnd(rest);
    } else {
      NotEmpty(next);
      SepInFront(x, rest, k);
      var e := N.SepEnd(t, k);
      assert chunks[1..] == N.SplitAnd(t[e..]);
      if e == |x| + 1 {
        assert t[e..] == "AND " + rest;
        AfterRunOn(next, tail);
      } else if e == |x| + 5 {
        assert t[e..] == rest;
      } else {
        assert t[e..] == x[e..] + (" AND " + rest);
        Chunks(x[e..], next, tail);
      }
    }
  }

  lemma NotEmpty(next: Part)
    requires ValidHead(next.field, next.op)
    ensures next.field != ""
  {}

  // ---- The whole line --------------------------------------------------------------------------------

  ghost predicate ValidHeads(parts: seq<Part>) {
    forall i :: 0 <= i < |parts| ==> ValidHead(parts[i].field, parts[i].op)
  }

  /** The value survives quoting and unquoting, and stands clear of the separators around it. */
  ghost predicate Exact(v: string, last: bool) {
    && v != "" && N.TrimQuotes(Trim(S.Quote(v))) == v
    && Unsplit(" " + S.Quote(v) + if last then "" else " ")
  }

  ghost predicate AllExact(parts: seq<Part>) {
    parts == [] || (Exact(parts[0].value, |parts| == 1) && AllExact(parts[1..]))
  }

  /** For plain values this is being clear. */
  lemma {:induction false} PlainIsExact(parts: seq<Part>)
    requires ValidParts(parts)
    ensures AllExact(parts) <==> AllClear(parts)
    decreases |parts|
  {
    hide Clear, Exact, ValidPart;
    if parts != [] {
      TailIsValid(parts);
      PlainValueIsExact(parts[0], |parts| == 1);
      PlainIsExact(parts[1..]);
    }
  }

  lemma PlainValueIsExact(p: Part, last: bool)
    requires ValidPart(p)
    ensures Exact(p.value, last) <==> Clear(p.value, last)
  {
    hide Unsplit, ValidHead, N.IsQuote;
    var v := p.value;
    if v != "" {
      QuoteIs(v);
      TrimIsTrimmed(S.Quote(v));
      TrimQuotesOfPlain(v);
    }
  }

  /** The text of the condition directive, without outer white space. */
  function When(parts: seq<Part>): string { Trim(S.JoinAnd(Texts(parts))) }

  lemma TextIs(p: Part)
    ensures PartText(p) == Head(p.field, p.op) + (" " + S.Quote(p.value))
  {
    hide Head, S.Quote;
  }

  lemma TrimTail(a: string, b: string)
    requires a != "" && !IsSpace(a[0]) && b != "" && !IsSpace(b[0])
    ensures Trim(a + b) == a + Trim(b)
  {
    hide TrimRight;
    StartsPlain(a, b);
    assert TrimLeft(b) == b;
    TrimRightTail(a, b);
    StartIsKept(b);
  }

  lemma StartIsKept(b: string)
    requires b != "" && !IsSpace(b[0])
    ensures TrimRight(b) != "" && TrimRight(b)[0] == b[0]
  {
    assert b == [b[0]] + b[1..];
    TrimRightTail([b[0]], b[1..]);
    assert [b[0]][..0] == "";
  }

  lemma TextStarts(p: Part)
    requires ValidHead(p.field, p.op)
    ensures PartText(p) != "" && PartText(p)[0] == p.field[0] && !IsSpace(p.field[0])
    ensures p.field <= Trim(PartText(p))
  {
    hide S.Quote, Trim, Head, ValidHead;
    TextIs(p);
    HeadEnds(p.field, p.op);
    TrimChunk(p.field, p.op, S.Quote(p.value));
    FieldInHead(p.field, p.op, " " + S.Quote(p.value));
    FieldInHead(p.field, p.op, " " + TrimRight(S.Quote(p.value)));
    FieldInHead(p.field, p.op, "");
    assert Head(p.field, p.op) + "" == Head(p.field, p.op);
  }

  lemma FieldInHead(field: string, op: string, rest: string)
    requires ValidHead(field, op)
    ensures field <= Head(field, op) + rest && field != "" && Head(field, op)[0] == field[0] && Head(field, op) != ""
  {
    assert (Head(field, op) + rest)[..|field|] == field;
  }

  lemma JoinOfMore(parts: seq<Part>)
    requires |parts| > 1
    ensures S.JoinAnd(Texts(parts)) == PartText(parts[0]) + " AND " + S.JoinAnd(Texts(parts[1..]))
  {
    hide PartText;
    assert Texts(parts)[1..] == Texts(parts[1..]);
  }

  lemma JoinOfOne(parts: seq<Part>)
    requires |parts| == 1
    ensures S.JoinAnd(Texts(parts)) == PartText(parts[0])
  {
    hide PartText;
    assert parts[1..] == [];
  }

  lemma {:induction false} JoinStarts(parts: seq<Part>)
    requires parts != [] && ValidHeads(parts)
    ensures var j := S.JoinAnd(Texts(parts)); j != "" && j[0] == parts[0].field[0] && !IsSpace(j[0])
  {
    hide PartText, ValidHead;
    TextStarts(parts[0]);
    if |parts| == 1 { JoinOfOne(parts); } else { JoinOfMore(parts); }
  }

  /** The trimmed line: the first text, the separator, the rest trimmed. */
  lemma WhenOfMore(parts: seq<Part>)
    requires |parts| > 1 && ValidHeads(parts)
    ensures When(parts) == PartText(parts[0]) + (" AND " + When(parts[1..]))
  {
    hide PartText, ValidHead, Trim, S.JoinAnd, Texts;
    TextStarts(parts[0]);
    JoinOfMore(parts);
    HeadsOfTail(parts);
    JoinStarts(parts[1..]);
    var x, j := PartText(parts[0]), S.JoinAnd(Texts(parts[1..]));
    TrimTail(x + " AND ", j);
    assert (x + " AND ")[0] == x[0];
  }

  lemma HeadsOfTail(parts: seq<Part>)
    requires parts != [] && ValidHeads(parts)
    ensures ValidHeads(parts[1..]) && ValidHead(parts[0].field, parts[0].op)
  {
    hide ValidHead;
  }

  lemma WhenStarts(parts: seq<Part>) returns (tail: string)
    requires parts != [] && ValidHeads(parts)
    ensures When(parts) == parts[0].field + tail
  {
    hide PartText, ValidHead, Trim, S.JoinAnd, Texts;
    var f := parts[0].field;
    TextStarts(parts[0]);
    if |parts| == 1 {
      JoinOfOne(parts);
    } else {
      WhenOfMore(parts);
      FieldInText(parts[0], " AND " + When(parts[1..]));
    }
    assert f <= When(parts);
    tail := When(parts)[|f|..];
  }

  lemma FieldInText(p: Part, rest: string)
    requires ValidHead(p.field, p.op)
    ensures p.field <= PartText(p) + rest
  {
    hide S.Quote, Head;
    TextIs(p);
    var q := " " + S.Quote(p.value);
    FieldInHead(p.field, p.op, q + rest);
    assert PartText(p) + rest == Head(p.field, p.op) + (q + rest);
  }

  /** An accepted line has a chunk for every condition rendered. */
  lemma {:induction false} AtLeast(parts: seq<Part>)
    requires parts != [] && ValidHeads(parts) && N.ParseConditions(When(parts)).Some?
    ensures |N.SplitAnd(When(parts))| >= |parts|
    decreases |parts|
  {
    hide PartText, ValidHead, N.ParseConditions, N.SplitAnd, When, N.SepEnd, N.FindSep;
    if |parts| > 1 {
      WhenOfMore(parts);
      HeadsOfTail(parts);
      HeadsOfTail(parts[1..]);
      var tail := WhenStarts(parts[1..]);
      Chunks(PartText(parts[0]), parts[1], tail);
      AtLeast(parts[1..]);
    }
  }

  lemma ExactQuote(v: string)
    requires v != "" && N.TrimQuotes(Trim(S.Quote(v))) == v
    ensures var q := S.Quote(v); q != "" && Trim(q) == q && TrimRight(q) == q && !N.ReSpace(q[|q| - 1]) && ReadValue(q) == v
  {
    hide S.DropQuotes, N.TrimQuotes, TrimLeft;
    var q := S.Quote(v);
    if Quoted(v) {
      QuotedEnds(S.DropQuotes(v));
    } else {
      TrimQuotesShortens(Trim(v));
      TrimShortens(v);
      TrimIsTrimmed(v);
      EndsPlain(v);
    }
  }

  lemma QuotedEnds(w: string)
    ensures var q := "\"" + w + "\""; Trim(q) == q && TrimRight(q) == q && !N.ReSpace(q[|q| - 1])
  {
    var q := "\"" + w + "\"";
    assert q[0] == '"' && q[|q| - 1] == '"';
  }

  lemma EndsPlain(v: string)
    requires Trimmed(v) && v != ""
    ensures TrimRight(v) == v && !N.ReSpace(v[|v| - 1])
  {}

  /** The other way round: what is read is the value only if quoting and unquoting keep it. */
  lemma ReadIsExact(v: string)
    requires TrimRight(S.Quote(v)) != "" && ReadValue(S.Quote(v)) == v
    ensures v != "" && N.TrimQuotes(Trim(S.Quote(v))) == v
  {
    hide S.DropQuotes, N.TrimQuotes, TrimLeft, Trim;
    var q := S.Quote(v);
    ReadValueShortens(q);
    if Quoted(v) {
      QuotedEnds(S.DropQuotes(v));
    } else {
      TrimmedRight(v);
    }
  }

  // ---- More conditions follow --------------------------------------------------------------------

  /** The line from its first condition on, and where its first separator is. */
  lemma LineParts(parts: seq<Part>) returns (tail: string)
    requires |parts| > 1 && ValidHeads(parts)
    ensures When(parts[1..]) == parts[1].field + tail
    ensures When(parts) == PartText(parts[0]) + (" AND " + (parts[1].field + tail))
    ensures When(parts) == Head(parts[0].field, parts[0].op) +
                           (" " + S.Quote(parts[0].value) + " " + ("AND " + (parts[1].field + tail)))
    ensures ValidHead(parts[0].field, parts[0].op) && ValidHead(parts[1].field, parts[1].op)
  {
    hide PartText, ValidHead, When, Head, S.Quote;
    WhenOfMore(parts);
    HeadsOfTail(parts);
    HeadsOfTail(parts[1..]);
    tail := WhenStarts(parts[1..]);
    var rest := parts[1].field + tail;
    TextIs(parts[0]);
    AndWord();
    Regroup(Head(parts[0].field, parts[0].op), S.Quote(parts[0].value), rest);
  }

  lemma Regroup(h: string, q: string, rest: string)
    ensures h + (" " + q) + (" AND " + rest) == h + (" " + q + " " + ("AND " + rest))
  {}

  /** An exact value hides no separator, so the first one found is the one that was written. */
  lemma ExactIsFound(p: Part, next: Part, tail: string)
    requires ValidHead(p.field, p.op) && ValidHead(next.field, next.op) && Exact(p.value, false)
    requires PartText(p) + (" AND " + (next.field + tail)) ==
             Head(p.field, p.op) + (" " + S.Quote(p.value) + " " + ("AND " + (next.field + tail)))
    ensures N.FindSep(PartText(p) + (" AND " + (next.field + tail)), 0) == |PartText(p)|
  {
    hide N.SepAt, S.Quote, N.ReSpace, ValidHead, PartText, Head, Unsplit, N.FindSep, N.TrimQuotes, Trim, ReadValue, TrimRight;
    var h, q, rest := Head(p.field, p.op), S.Quote(p.value), next.field + tail;
    var s := " " + q;
    var t := PartText(p) + (" AND " + rest);
    ExactQuote(p.value);
    TextIs(p);
    assert s[|s| - 1] == q[|q| - 1];
    WrittenIsFound(PartText(p), next, tail);
    var k := N.FindSep(t, 0);
    if k < |PartText(p)| {
      if k < |h| {
        HeadHasNoSep(p.field, p.op, s + " " + ("AND " + rest), k);
      } else {
        UnsplitBlankShift(h, s, "AND " + rest, k);
      }
    }
  }

  /** And a value that is read back, with no separator found before the written one, is exact. */
  lemma FoundIsExact(p: Part, rest: string)
    requires TrimRight(S.Quote(p.value)) != "" && ReadValue(S.Quote(p.value)) == p.value
    requires N.FindSep(Head(p.field, p.op) + (" " + S.Quote(p.value) + " " + rest), 0) >= |Head(p.field, p.op)| + 1 + |S.Quote(p.value)|
    ensures Exact(p.value, false)
  {
    hide N.SepAt, S.Quote, N.ReSpace, ValidHead, PartText, Head, N.FindSep, N.TrimQuotes, Trim, ReadValue, TrimRight;
    var h, q := Head(p.field, p.op), S.Quote(p.value);
    var s := " " + q;
    ReadIsExact(p.value);
    ExactQuote(p.value);
    assert s[|s| - 1] == q[|q| - 1];
    forall i | 0 <= i < |s + " "| ensures !N.SepAt(s + " ", i) {
      if N.SepAt(s + " ", i) {
        SepBeforeEnd(s, i);
        SepAtBlank(s, rest, i);
        SepAtShift(h, s + " " + rest, i);
      }
    }
  }

  /** The line is cut at the written separator: its first condition is read on its own. */
  lemma CutAtWritten(p: Part, next: Part, tail: string, wanted: seq<N.Condition>)
    requires ValidHead(p.field, p.op) && ValidHead(next.field, next.op)
    requires N.FindSep(PartText(p) + (" AND " + (next.field + tail)), 0) == |PartText(p)|
    ensures var q := S.Quote(p.value);
            N.ParseConditions(PartText(p) + (" AND " + (next.field + tail))) ==
              Some([N.Condition(p.field, p.op, p.value)] + wanted) <==>
            TrimRight(q) != "" && ReadValue(q) == p.value && N.ParseConditions(next.field + tail) == Some(wanted)
  {
    hide S.Quote, ValidHead, PartText, Head, N.FindSep, N.SplitAnd, N.TrimQuotes, Trim, ReadValue, TrimRight, N.ParseCondition;
    var chunks := N.SplitAnd(next.field + tail);
    WrittenIsFound(PartText(p), next, tail);
    TextIs(p);
    ReadChunk(p.field, p.op, S.Quote(p.value));
    assert ([PartText(p)] + chunks)[1..] == chunks;
    var c := N.Condition(p.field, p.op, ReadValue(S.Quote(p.value)));
    var r := N.ParseAll(chunks);
    if r.Some? { FirstOfBoth(c, r.value, N.Condition(p.field, p.op, p.value), wanted); }
  }

  lemma FirstOfBoth(c: N.Condition, cs: seq<N.Condition>, d: N.Condition, ds: seq<N.Condition>)
    ensures [c] + cs == [d] + ds <==> c == d && cs == ds
  {
    var x, y := [c] + cs, [d] + ds;
    assert x[1..] == cs && y[1..] == ds && x[0] == c && y[0] == d;
  }

  /** Cut earlier, the line is not read as it was meant. */
  lemma CutEarlier(parts: seq<Part>)
    requires |parts| > 1 && ValidHeads(parts) && N.FindSep(When(parts), 0) < |PartText(parts[0])|
    ensures N.ParseConditions(When(parts)) != Some(Wanted(parts))
  {
    hide S.Quote, ValidHead, PartText, Head, N.FindSep, N.SplitAnd, N.ParseConditions, N.ReSpace, When, N.SepAt, Wanted;
    var p, next := parts[0], parts[1];
    var tail := LineParts(parts);
    var t, x, more := When(parts), PartText(p), " AND " + (next.field + tail);
    WantedCount(parts);
    HeadsOfTail(parts);
    if N.ParseConditions(t) == Some(Wanted(parts)) {
      Chunks(x, next, tail);
      AtLeast(parts[1..]);
      CountIs(t);
      EarlyValue(p, more);
    }
  }

  lemma CountIs(t: string)
    requires N.ParseConditions(t).Some?
    ensures |N.ParseConditions(t).value| == |N.SplitAnd(t)|
  {
    hide N.SplitAnd, N.ParseAll;
    ParsedCount(N.SplitAnd(t));
  }

  lemma {:induction false} WantedCount(parts: seq<Part>)
    ensures |Wanted(parts)| == |parts|
    ensures parts != [] ==> Wanted(parts)[0] == N.Condition(parts[0].field, parts[0].op, parts[0].value)
    decreases |parts|
  {
    if parts != [] { WantedCount(parts[1..]); }
  }

  /** A value that ends in white space and is cut there is read shorter than it is. */
  lemma EarlyValue(p: Part, more: string)
    requires ValidHead(p.field, p.op) && N.ReSpace(PartText(p)[|PartText(p)| - 1])
    requires var t := PartText(p) + more; N.FindSep(t, 0) < |PartText(p)| && N.ParseConditions(t).Some?
    ensures N.ParseConditions(PartText(p) + more).value[0].value != p.value
  {
    hide S.Quote, ValidHead, Head, N.SplitAnd, N.ParseAll, N.SepAt, N.SepEnd, Trim, N.ParseCondition, ReadValue, TrimRight, N.ReSpace;
    var h, q := Head(p.field, p.op), S.Quote(p.value);
    var t := PartText(p) + more;
    var k := N.FindSep(t, 0);
    assert t == h + (" " + q + more);
    NotInHead(p, " " + q + more, k);
    if k == |h| {
      SplitAtHead(p, " " + q + more);
    } else {
      var m := k - |h| - 1;
      assert t[..k] == h + (" " + q[..m]);
      FirstSplit(t);
      TailParses(N.SplitAnd(t));
      ReadChunk(p.field, p.op, q[..m]);
      ReadValueShortens(q[..m]);
      SpaceIsUnquoted(p);
    }
  }

  lemma SpaceIsUnquoted(p: Part)
    requires N.ReSpace(PartText(p)[|PartText(p)| - 1])
    ensures S.Quote(p.value) != "" ==> S.Quote(p.value) == p.value
  {
    hide S.DropQuotes;
    if S.Quote(p.value) != "" {
      var q := S.Quote(p.value);
      assert PartText(p)[|PartText(p)| - 1] == q[|q| - 1];
      if Quoted(p.value) { QuotedEnds(S.DropQuotes(p.value)); }
    }
  }

  // ---- The last condition ---------------------------------------------------------------------------

  lemma LastIsRead(p: Part)
    requires ValidHead(p.field, p.op)
    ensures N.ParseConditions(When([p])) == Some(Wanted([p])) <==> Exact(p.value, true)
  {
    hide S.Quote, ValidHead, PartText, Head, N.FindSep, N.SplitAnd, N.ParseConditions, When, Exact, TrimRight, ReadValue;
    var h, q := Head(p.field, p.op), S.Quote(p.value);
    LastText(p);
    WantedCount([p]);
    if TrimRight(q) == "" {
      HeadAlone(p);
      BlankIsNotExact(p.value);
    } else {
      LastChunk(p);
    }
  }

  lemma LastText(p: Part)
    requires ValidHead(p.field, p.op)
    ensures var h, q := Head(p.field, p.op), S.Quote(p.value);
            When([p]) == if TrimRight(q) == "" then h else h + (" " + TrimRight(q))
  {
    hide S.Quote, ValidHead, PartText, Head, TrimRight, Trim;
    JoinOfOne([p]);
    TextIs(p);
    TrimChunk(p.field, p.op, S.Quote(p.value));
  }

  lemma HeadAlone(p: Part)
    requires ValidHead(p.field, p.op)
    ensures N.ParseConditions(Head(p.field, p.op)) == None
  {
    hide N.SepAt, ValidHead, Head, N.ParseCondition, Trim;
    var h := Head(p.field, p.op);
    assert h + "" == h;
    forall i | 0 <= i < |h| ensures !N.SepAt(h, i) { HeadHasNoSep(p.field, p.op, "", i); }
    SplitUnsplit(h);
    HeadIsRefused(p.field, p.op);
  }

  lemma BlankIsNotExact(v: string)
    requires TrimRight(S.Quote(v)) == ""
    ensures !Exact(v, true)
  {
    hide S.Quote, N.TrimQuotes, Trim, Unsplit;
    if Exact(v, true) { ExactQuote(v); }
  }

  lemma LastChunk(p: Part)
    requires ValidHead(p.field, p.op) && TrimRight(S.Quote(p.value)) != ""
    ensures N.ParseConditions(Head(p.field, p.op) + (" " + TrimRight(S.Quote(p.value)))) == Some(Wanted([p])) <==>
            Exact(p.value, true)
  {
    hide S.Quote, ValidHead, PartText, Head, N.FindSep, N.SplitAnd, N.SepAt, N.ParseAll, TrimRight, ReadValue, N.SepEnd, Unsplit,
      N.TrimQuotes, Trim, N.ReSpace, N.ParseCondition;
    var h, q := Head(p.field, p.op), S.Quote(p.value);
    var y := TrimRight(q);
    var t := h + (" " + y);
    var k := N.FindSep(t, 0);
    FirstSplit(t);
    WantedCount([p]);
    if k == |t| {
      ReadChunk(p.field, p.op, y);
      TrimmedRight(q);
      OnlyChunk(t);
      OneWanted(p);
      if ReadValue(y) == p.value {
        SameRead(q);
        ReadIsExact(p.value);
        ExactQuote(p.value);
        NoneInside(h, " " + y);
        assert " " + q + "" == " " + y;
      }
      if Exact(p.value, true) { ExactQuote(p.value); }
    } else {
      if N.ParseConditions(t).Some? { CountIs(t); }
      if Exact(p.value, true) {
        ExactQuote(p.value);
        assert " " + q + "" == " " + y;
        if k < |h| { HeadHasNoSep(p.field, p.op, " " + y, k); } else { UnsplitShift(h, " " + y, k); }
      }
    }
  }

  lemma SameRead(q: string)
    ensures ReadValue(TrimRight(q)) == ReadValue(q)
  {
    hide Trim, N.TrimQuotes;
    TrimmedRight(q);
  }

  lemma OneWanted(p: Part)
    ensures Wanted([p]) == [N.Condition(p.field, p.op, p.value)]
  {
    assert Wanted([p][1..]) == [];
  }

  lemma OnlyChunk(t: string)
    requires N.SplitAnd(t) == [t]
    ensures var c := N.ParseCondition(Trim(t));
            N.ParseConditions(t) == if c.None? then None else Some([c.value])
  {
    hide N.SplitAnd, N.ParseCondition, Trim;
    var one := [t];
    assert one[1..] == [] && N.ParseAll([]) == Some([]);
    var c := N.ParseCondition(Trim(t));
    if c.Some? { assert [c.value] + [] == [c.value]; }
  }

  lemma NoneInside(h: string, s: string)
    requires N.FindSep(h + s, 0) == |h + s|
    ensures Unsplit(s)
  {
    hide N.SepAt, N.FindSep;
    forall i | 0 <= i < |s| ensures !N.SepAt(s, i) { SepAtShift(h, s, i); }
  }

  /** Any values at all: the parser reads the rendered line as the conditions that were rendered if
      and only if every value is exact. */
  lemma {:induction false} LineReadsBackIff(parts: seq<Part>)
    requires parts != [] && ValidHeads(parts)
    ensures N.ParseConditions(When(parts)) == Some(Wanted(parts)) <==> AllExact(parts)
    decreases |parts|
  {
    hide N.ParseConditions, When, Exact, PartText, ValidHeads, ValidHead, Head, S.Quote, N.FindSep, TrimRight, ReadValue;
    HeadsOfTail(parts);
    var p := parts[0];
    if |parts| == 1 {
      assert parts == [p] && parts[1..] == [];
      LastIsRead(p);
    } else {
      var tail := LineParts(parts);
      var rest := parts[1].field + tail;
      LineReadsBackIff(parts[1..]);
      WrittenIsFound(PartText(p), parts[1], tail);
      TextIs(p);
      if Exact(p.value, false) { ExactIsFound(p, parts[1], tail); }
      if N.FindSep(When(parts), 0) < |PartText(p)| {
        CutEarlier(parts);
      } else {
        CutAtWritten(p, parts[1], tail, Wanted(parts[1..]));
        if TrimRight(S.Quote(p.value)) != "" && ReadValue(S.Quote(p.value)) == p.value {
          FoundIsExact(p, "AND " + rest);
        }
        if Exact(p.value, false) { ExactReads(p.value); }
      }
    }
  }

  lemma ExactReads(v: string)
    requires Exact(v, false)
    ensures TrimRight(S.Quote(v)) != "" && ReadValue(S.Quote(v)) == v
  {
    hide S.Quote, N.TrimQuotes, Trim, Unsplit, ReadValue, TrimRight;
    ExactQuote(v);
  }

  // ---- A separator inside a value -----------------------------------------------------------------

  predicate Bare(a: string) { a != "" && forall i :: 0 <= i < |a| ==> !IsSpace(a[i]) && !N.IsQuote(a[i]) }

  /** A value that reads like the end of one condition and the whole of another. */
  function Inner(a: string, next: Part): string { a + (" AND " + (Head(next.field, next.op) + (" " + next.value))) }

  lemma BareEnds(a: string)
    requires Bare(a)
    ensures TrimRight("\"" + a) == "\"" + a && ReadValue("\"" + a) == a
    ensures TrimRight(a + "\"") == a + "\"" && ReadValue(a + "\"") == a
  {
    var v, w := "\"" + a, a + "\"";
    assert v[1..] == a && w[..|a|] == a;
    assert v[|v| - 1] == a[|a| - 1] && w[0] == a[0];
    TrimQuotesOfPlain(a);
    TrimIsTrimmed(v);
    TrimIsTrimmed(w);
    assert TrimRight(v) == v && TrimRight(w) == w;
  }

  /** No separator starts in front of the end of a chunk whose value has no white space. */
  lemma NoSepInBare(field: string, op: string, y: string, more: string, i: nat)
    requires ValidHead(field, op) && y != "" && forall k :: 0 <= k < |y| ==> !IsSpace(y[k])
    requires y[0] == '"' || more == ""
    requires i < |Head(field, op)| + 1 + |y|
    ensures !N.SepAt(Head(field, op) + (" " + y + more), i)
  {
    hide N.SpaceEnd, Head, ValidHead;
    var h := Head(field, op);
    var t := h + (" " + y + more);
    if i < |h| {
      HeadHasNoSep(field, op, " " + y + more, i);
    } else if i > |h| {
      assert t[i] == y[i - |h| - 1];
    } else {
      assert t[i] == ' ' && t[i + 1] == y[0];
      OneBlank(t, i);
      if more == "" { NoBlankInside(t, i, y); }
    }
  }

  lemma NoBlankInside(t: string, i: nat, y: string)
    requires i + 1 + |y| == |t| && t[i + 1..] == y && forall k :: 0 <= k < |y| ==> !IsSpace(y[k])
    ensures !N.AndAt(t, i + 1)
  {
    if i + 4 < |t| { assert t[i + 4] == y[3]; }
  }

  /** Reading the chunk in front and the chunk behind. */
  lemma FrontChunk(p: Part, a: string, more: string)
    requires ValidHead(p.field, p.op) && Bare(a)
    ensures var x := Head(p.field, p.op) + (" " + ("\"" + a));
            && N.FindSep(x + more, 0) >= |x|
            && N.ParseCondition(Trim(x)) == Some(N.Condition(p.field, p.op, a))
  {
    hide N.ParseCondition, TrimRight, Trim, N.FindSep, N.SepAt, ReadValue, Head, ValidHead;
    var h, y := Head(p.field, p.op), "\"" + a;
    BareEnds(a);
    ReadChunk(p.field, p.op, y);
    var x := h + (" " + y);
    var t := x + more;
    assert t == h + (" " + y + more);
    var k := N.FindSep(t, 0);
    if k < |x| {
      assert forall m :: 0 <= m < |y| ==> !IsSpace(y[m]);
      NoSepInBare(p.field, p.op, y, more, k);
    }
  }

  lemma BackChunk(next: Part)
    requires ValidHead(next.field, next.op) && Bare(next.value)
    ensures var t := Head(next.field, next.op) + (" " + (next.value + "\""));
            && N.SplitAnd(t) == [t]
            && N.ParseCondition(Trim(t)) == Some(N.Condition(next.field, next.op, next.value))
  {
    hide N.ParseCondition, TrimRight, Trim, N.FindSep, N.SepAt, ReadValue, N.SplitAnd, Head, ValidHead;
    var h, y := Head(next.field, next.op), next.value + "\"";
    BareEnds(next.value);
    ReadChunk(next.field, next.op, y);
    var t := h + (" " + y);
    assert " " + y + "" == " " + y;
    forall i | 0 <= i < |t| ensures !N.SepAt(t, i) {
      assert forall m :: 0 <= m < |y| ==> !IsSpace(y[m]);
      NoSepInBare(next.field, next.op, y, "", i);
    }
    SplitUnsplit(t);
  }

  lemma InnerHasNoQuote(a: string, next: Part)
    requires ValidHead(next.field, next.op) && Bare(a) && Bare(next.value)
    ensures var v := Inner(a, next); ' ' in v && forall i :: 0 <= i < |v| ==> v[i] != '"'
  {
    hide Head, ValidHead;
    HeadHasNoQuote(next);
    var h := Head(next.field, next.op);
    var v, n := Inner(a, next), |a|;
    assert v[n] == ' ';
    forall i | 0 <= i < |v| ensures v[i] != '"' {
      if i >= n + 5 { assert v[i] == (h + (" " + next.value))[i - n - 5]; }
    }
  }

  lemma HeadHasNoQuote(next: Part)
    requires ValidHead(next.field, next.op)
    ensures forall i :: 0 <= i < |Head(next.field, next.op)| ==> Head(next.field, next.op)[i] != '"'
  {
    var h := Head(next.field, next.op);
    forall i | 0 <= i < |h| ensures h[i] != '"' {
      if i < |next.field| { FieldCharFacts(next.field[i]); assert h[i] == next.field[i]; }
    }
  }

  lemma InnerText(p: Part, a: string, next: Part)
    requires ValidHead(p.field, p.op) && ValidHead(next.field, next.op) && Bare(a) && Bare(next.value)
    requires p.value == Inner(a, next)
    ensures var x := Head(p.field, p.op) + (" " + ("\"" + a));
            When([p]) == x + (" AND " + (Head(next.field, next.op) + (" " + (next.value + "\""))))
  {
    hide *;
    var v := p.value;
    InnerHasNoQuote(a, next);
    QuotedIs(v);
    QuotedEnds(v);
    LastText(p);
    InnerIs(a, next);
    Glue(Head(p.field, p.op), a, Head(next.field, next.op), next.value);
  }

  lemma InnerIs(a: string, next: Part)
    ensures Inner(a, next) == a + (" AND " + (Head(next.field, next.op) + (" " + next.value)))
  {
    hide Head;
  }

  lemma QuotedIs(v: string)
    requires ' ' in v && forall i :: 0 <= i < |v| ==> v[i] != '"'
    ensures S.Quote(v) == "\"" + v + "\"" && "\"" + v + "\"" != ""
  {
    hide S.DropQuotes;
    NothingToDrop(v);
  }

  lemma Glue(h: string, a: string, g: string, b: string)
    ensures h + (" " + ("\"" + (a + (" AND " + (g + (" " + b)))) + "\"")) ==
            h + (" " + ("\"" + a)) + (" AND " + (g + (" " + (b + "\""))))
  {}

  /** A separator inside a value is not told from one that was written, quotes or not: every such
      value is read as two conditions. */
  lemma InnerSeparator(p: Part, a: string, next: Part)
    requires ValidHead(p.field, p.op) && ValidHead(next.field, next.op) && Bare(a) && Bare(next.value)
    requires p.value == Inner(a, next)
    ensures !Exact(p.value, true)
    ensures N.ParseConditions(When([p])) ==
            Some([N.Condition(p.field, p.op, a), N.Condition(next.field, next.op, next.value)])
  {
    hide N.SepAt, N.FindSep, N.SplitAnd, N.ParseCondition, Trim, Exact, N.ParseAll, When, Head, ValidHead, Inner;
    var x, y := Head(p.field, p.op) + (" " + ("\"" + a)), Head(next.field, next.op) + (" " + (next.value + "\""));
    InnerText(p, a, next);
    FrontChunk(p, a, " AND " + y);
    var tail := HeadTail(next, " " + (next.value + "\""));
    WrittenIsFound(x, next, tail);
    BackChunk(next);
    TwoChunks(x, y);
    LastIsRead(p);
    OneWanted(p);
  }

  lemma HeadTail(next: Part, rest: string) returns (tail: string)
    requires ValidHead(next.field, next.op)
    ensures Head(next.field, next.op) + rest == next.field + tail
  {
    tail := " " + next.op + rest;
  }

  lemma TwoChunks(x: string, y: string)
    requires N.ParseCondition(Trim(x)).Some? && N.ParseCondition(Trim(y)).Some?
    ensures N.ParseAll([x] + [y]) == Some([N.ParseCondition(Trim(x)).value, N.ParseCondition(Trim(y)).value])
  {
    hide N.ParseCondition, Trim;
    var one := [y];
    assert one[1..] == [] && N.ParseAll([]) == Some([]);
    assert ([x] + [y])[1..] == one;
    var c, d := N.ParseCondition(Trim(x)).value, N.ParseCondition(Trim(y)).value;
    assert N.ParseAll(one) == Some([d]) by { assert [d] + [] == [d]; }
    assert [c] + [d] == [c, d];
  }
}
