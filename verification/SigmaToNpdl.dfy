/** Rendering a Sigma rule preserves its meaning: what the scripting engine parses matches the same
    events - and exactly when the engine accepts the text. */
module SigmaToNpdl {
  import opened Text
  import N = Npdl
  import S = Sigma

  // ---- White space and separators in concatenations ---------------------------------------------

  lemma {:induction false} SpaceEndShift(pre: string, s: string, i: nat)
    requires i <= |s|
    ensures N.SpaceEnd(pre + s, |pre| + i) == |pre| + N.SpaceEnd(s, i)
    decreases |s| - i
  {
    if i < |s| && N.ReSpace(s[i]) { SpaceEndShift(pre, s, i + 1); }
  }

  lemma {:induction false} SpaceEndPrefix(s: string, post: string, i: nat)
    requires i <= |s| && N.SpaceEnd(s, i) < |s|
    ensures N.SpaceEnd(s + post, i) == N.SpaceEnd(s, i)
    decreases |s| - i
  {
    if i < |s| && N.ReSpace(s[i]) { SpaceEndPrefix(s, post, i + 1); }
  }

  lemma SepAtShift(pre: string, s: string, i: nat)
    requires i <= |s|
    ensures N.SepAt(pre + s, |pre| + i) == N.SepAt(s, i)
    ensures N.SepAt(s, i) ==> N.SepEnd(pre + s, |pre| + i) == |pre| + N.SepEnd(s, i)
  {
    hide N.SpaceEnd, N.ReSpace;
    SpaceEndShift(pre, s, i);
    if N.SepAt(s, i) { SpaceEndShift(pre, s, N.SpaceEnd(s, i) + 3); }
  }

  /** No separator starts in the text. */
  ghost predicate Unsplit(s: string) { forall i :: 0 <= i < |s| ==> !N.SepAt(s, i) }

  /** A text that ends in a character other than white space, followed by one blank: separators
      that start inside it do not depend on what comes after the blank. */
  lemma SepAtBlank(s: string, post: string, i: nat)
    requires s != "" && !N.ReSpace(s[|s| - 1]) && i < |s|
    ensures N.SepAt(s + " " + post, i) == N.SepAt(s + " ", i)
  {
    hide N.SpaceEnd;
    var t, u := s + " ", s + " " + post;
    assert u == t + post;
    SpaceEndInside(s, " ", i);
    SpaceEndInside(s, " " + post, i);
    assert s + (" " + post) == u;
    var j := N.SpaceEnd(s, i);
    assert u[|s|] == ' ' && t[|s|] == ' ';
    if N.ReSpace(s[i]) {
      if N.AndAt(u, j) { assert j + 3 <= |s|; assert N.AndAt(t, j); }
      if N.AndAt(t, j) { assert N.AndAt(u, j); }
    }
  }

  lemma {:induction false} SpaceEndInside(s: string, post: string, i: nat)
    requires s != "" && !N.ReSpace(s[|s| - 1]) && i < |s|
    ensures N.SpaceEnd(s + post, i) == N.SpaceEnd(s, i) < |s|
    decreases |s| - i
  {
    if N.ReSpace(s[i]) { SpaceEndInside(s, post, i + 1); }
  }

  lemma FirstSep(s: string, k: nat)
    requires k < |s| && N.SepAt(s, k) && forall i :: 0 <= i < k ==> !N.SepAt(s, i)
    ensures N.FindSep(s, 0) == k
  {
    hide N.SepAt;
  }

  lemma SplitUnsplit(s: string)
    requires Unsplit(s)
    ensures N.SplitAnd(s) == [s]
  {
    hide N.SepAt;
  }

  lemma SplitAtFirst(s: string, k: nat)
    requires k < |s| && N.SepAt(s, k) && forall i :: 0 <= i < k ==> !N.SepAt(s, i)
    ensures N.SplitAnd(s) == [s[..k]] + N.SplitAnd(s[N.SepEnd(s, k)..])
  {
    hide N.SepAt, N.FindSep, N.SepEnd;
    FirstSep(s, k);
  }

  // ---- One rendered condition --------------------------------------------------------------------

  /** The field, the operator and the quoted value; `head` is all but the value and the blank. */
  function Head(field: string, op: string): string { field + " " + op }

  predicate LowerWord(field: string) {
    forall i :: 0 <= i < |field| ==> N.FieldChar(field[i]) && !('A' <= field[i] <= 'Z')
  }

  predicate ValidHead(field: string, op: string) {
    field != "" && field[0] != 'a' && LowerWord(field) && (op == "=" || op == "~")
  }

  /** Values without quotes, line feeds, outer white space or separators. */
  ghost predicate PlainValue(v: string) {
    && Trimmed(v) && (forall i :: 0 <= i < |v| ==> !N.IsQuote(v[i]) && v[i] != '\n') && Unsplit(v)
  }

  lemma {:induction false} NothingToDrop(v: string)
    requires forall i :: 0 <= i < |v| ==> v[i] != '"'
    ensures S.DropQuotes(v) == v
    decreases |v|
  {
    if v != "" {
      NothingToDrop(v[1..]);
    }
  }

  predicate Quoted(v: string) { ' ' in v || '\t' in v }

  lemma QuoteIs(v: string)
    requires PlainValue(v)
    ensures S.Quote(v) == if Quoted(v) then "\"" + v + "\"" else v
    ensures v != "" ==> S.Quote(v) != "" && !IsSpace(S.Quote(v)[0]) && !IsSpace(S.Quote(v)[|S.Quote(v)| - 1])
  {
    NothingToDrop(v);
  }

  /** Whether the rendered value stands clear of the separators around it. */
  ghost predicate Clear(v: string, last: bool) {
    v != "" && Unsplit(" " + S.Quote(v) + if last then "" else " ")
  }

  lemma FieldCharFacts(c: char)
    requires N.FieldChar(c)
    ensures !IsSpace(c) && !N.ReSpace(c) && c != '"' && c != '=' && c != '~'
  {}

  /** No separator starts in the field, at the blank after it, or at the operator. */
  lemma HeadHasNoSep(field: string, op: string, rest: string, i: nat)
    requires ValidHead(field, op) && i < |Head(field, op)|
    ensures !N.SepAt(Head(field, op) + rest, i)
  {
    hide N.SpaceEnd;
    var s := Head(field, op) + rest;
    if i < |field| {
      assert s[i] == field[i];
      FieldCharFacts(field[i]);
    } else if i == |field| {
      assert s[i] == ' ' && s[i + 1] == op[0];
      assert N.SpaceEnd(s, i) == i + 1 by { OneBlank(s, i); }
    } else {
      assert s[i] == op[0];
    }
  }

  lemma OneBlank(s: string, i: nat)
    requires i + 1 < |s| && N.ReSpace(s[i]) && !N.ReSpace(s[i + 1])
    ensures N.SpaceEnd(s, i) == i + 1
  {
    assert N.SpaceEnd(s, i + 1) == i + 1;
  }

  // ---- Parsing a rendered condition back ------------------------------------------------------------

  lemma {:induction false} FieldEndIs(field: string, rest: string, i: nat)
    requires i <= |field| && (forall k :: 0 <= k < |field| ==> N.FieldChar(field[k]))
    requires rest != "" && !N.FieldChar(rest[0])
    ensures N.FieldEnd(field + rest, i) == |field|
    decreases |field| - i
  {
    if i < |field| { FieldEndIs(field, rest, i + 1); }
  }

  lemma {:induction false} LowerIsSame(s: string)
    requires forall i :: 0 <= i < |s| ==> !('A' <= s[i] <= 'Z')
    ensures Lower(s) == s
  {
    forall i | 0 <= i < |s| ensures Lower(s)[i] == s[i] {}
  }

  lemma FieldIsRead(field: string, tail: string)
    requires LowerWord(field) && tail != "" && tail[0] == ' '
    ensures N.FieldEnd(field + tail, 0) == |field| && (field + tail)[..|field|] == field
  {
    hide N.FieldChar, N.FieldEnd;
    BlankIsNoFieldChar();
    FieldEndIs(field, tail, 0);
  }

  lemma OpIsRead(pre: string, op: string, rest: string)
    requires op == "=" || op == "~"
    ensures var s := pre + (" " + op + rest);
            && N.SpaceEnd(s, |pre|) == |pre| + 1
            && N.Operator(s, |pre| + 1) == (if rest == "" then "" else op)
  {
    hide N.SpaceEnd, N.Operator, N.OpAt;
    var s := pre + (" " + op + rest);
    var at := |pre| + 1;
    assert s[at - 1] == ' ' && s[at] == op[0];
    assert |s| == at + 1 + |rest|;
    OneBlank(s, at - 1);
    OperatorAt(s, at, op);
  }

  lemma HeadAssoc(field: string, op: string, rest: string)
    ensures Head(field, op) + rest == field + (" " + op + rest)
  {}

  lemma HeadParts(field: string, op: string)
    requires ValidHead(field, op)
    ensures LowerWord(field) && (op == "=" || op == "~")
  {
    hide LowerWord;
  }

  /** The parser reads up to the operator what was rendered. */
  lemma OperatorIsRead(field: string, op: string, rest: string)
    requires ValidHead(field, op)
    ensures var s := Head(field, op) + rest;
            && N.FieldEnd(s, 0) == |field| && N.SpaceEnd(s, |field|) == |field| + 1
            && N.Operator(s, |field| + 1) == (if rest == "" then "" else op)
            && s[..|field|] == field
  {
    hide *;
    HeadAssoc(field, op, rest);
    HeadParts(field, op);
    FieldIsRead(field, " " + op + rest);
    OpIsRead(field, op, rest);
  }

  lemma BlankIsNoFieldChar()
    ensures !N.FieldChar(' ')
  {}

  lemma OperatorAt(s: string, at: nat, op: string)
    requires at < |s| && (op == "=" || op == "~") && s[at] == op[0]
    ensures N.Operator(s, at) == if at + 1 < |s| then op else ""
  {
    assert s[at..at + 1] == op;
  }

  lemma {:induction false} TrimQuotesOfPlain(v: string)
    requires forall i :: 0 <= i < |v| ==> !N.IsQuote(v[i])
    ensures N.TrimQuotes(v) == v && N.TrimQuotes("\"" + v + "\"") == v
  {
    var q := "\"" + v + "\"";
    assert q[1..] == v + "\"";
    var r := v + "\"";
    assert r[..|r| - 1] == v;
    assert N.TrimQuotes(v) == v;
    if v != "" { assert r[0] == v[0]; } else { assert r == "\"" && r[1..] == ""; }
  }

  /** A rendered condition with a value is parsed into its parts. */
  lemma ConditionIsRead(field: string, op: string, v: string)
    requires ValidHead(field, op) && PlainValue(v) && v != ""
    ensures N.ParseCondition(Trim(Head(field, op) + " " + S.Quote(v))) == Some(N.Condition(field, op, v))
  {
    hide N.FieldChar, N.SpaceEnd, N.FieldEnd, N.Operator, N.OpAt, Trim, N.TrimQuotes, S.Quote, Unsplit, N.ReSpace, IsSpace,
      Lower, LowerWord;
    var q := S.Quote(v);
    var s := Head(field, op) + " " + q;
    QuoteIs(v);
    assert s == Head(field, op) + (" " + q);
    OperatorIsRead(field, op, " " + q);
    LowerWordFacts(field);
    HeadIsTrimmed(field, op, " " + q);
    TrimIsTrimmed(s);
    assert s[|field| + 2..] == " " + q;
    BlankThen(s, |field| + 2, q);
    assert s[|field| + 3..] == q;
    TrimIsTrimmed(q);
    TrimQuotesOfPlain(v);
  }

  lemma LowerWordFacts(field: string)
    requires field != "" && LowerWord(field)
    ensures Lower(field) == field && !IsSpace(field[0])
  {
    FieldCharFacts(field[0]);
    LowerIsSame(field);
  }

  lemma HeadIsTrimmed(field: string, op: string, rest: string)
    requires ValidHead(field, op) && rest != "" && !IsSpace(rest[|rest| - 1])
    ensures Trimmed(Head(field, op) + rest)
  {
    hide IsSpace;
    LowerWordFacts(field);
    var s := Head(field, op) + rest;
    assert s[0] == field[0] && s[|s| - 1] == rest[|rest| - 1];
  }

  lemma BlankThen(s: string, i: nat, q: string)
    requires q != "" && !IsSpace(q[0]) && i < |s| && s[i..] == " " + q
    ensures N.SpaceEnd(s, i) == i + 1
  {
    assert s[i] == ' ' && s[i + 1] == q[0];
    OneBlank(s, i);
  }

  /** Without a value there is no condition. */
  lemma HeadIsRefused(field: string, op: string)
    requires ValidHead(field, op)
    ensures Trim(Head(field, op)) == Head(field, op) && Trim(Head(field, op) + " ") == Head(field, op)
    ensures N.ParseCondition(Head(field, op)) == None
  {
    hide N.FieldChar, N.SpaceEnd, N.FieldEnd, N.Operator, N.ReSpace;
    var h := Head(field, op);
    FieldCharFacts(field[0]);
    assert h[0] == field[0] && h[|h| - 1] == op[0];
    TrimIsTrimmed(h);
    TrimBlank(h);
    assert h + "" == h;
    OperatorIsRead(field, op, "");
  }

  lemma TrimBlank(s: string)
    requires s != "" && Trimmed(s)
    ensures Trim(s + " ") == s
  {
    TrimIsTrimmed(s);
    var t := s + " ";
    assert t[..|t| - 1] == s;
    assert TrimLeft(t) == t;
    assert TrimRight(t) == TrimRight(s) == s;
  }

  /** A chunk that starts with the word AND and another word has no operator in its place. */
  lemma AndIsRefused(and: string, field: string, rest: string)
    requires |and| == 3 && LowerChar(and[0]) == 'a' && LowerChar(and[1]) == 'n' && LowerChar(and[2]) == 'd'
    requires field != "" && N.FieldChar(field[0])
    ensures N.ParseCondition(and + " " + field + rest) == None
  {
    hide N.SpaceEnd, N.FieldEnd;
    var s := and + " " + field + rest;
    assert s == and + (" " + field + rest);
    BlankIsNoFieldChar();
    FieldEndIs(and, " " + field + rest, 0);
    assert s[3] == ' ' && s[4] == field[0];
    FieldCharFacts(field[0]);
    OneBlank(s, 3);
    NoOperatorAt(s, 4);
  }

  lemma NoOperatorAt(s: string, at: nat)
    requires at < |s| && N.FieldChar(s[at])
    ensures N.Operator(s, at) == ""
  {
    forall op: string | N.OpAt(s, at, op) && op != "" ensures op[0] == s[at] {}
  }

  // ---- The whole condition line -----------------------------------------------------------------------

  /** One key of a selection: the field and operator it becomes, and its value. */
  datatype Part = Part(field: string, op: string, value: string)

  ghost predicate ValidPart(p: Part) { ValidHead(p.field, p.op) && PlainValue(p.value) }

  ghost predicate ValidParts(parts: seq<Part>) {
    forall i :: 0 <= i < |parts| ==> ValidPart(parts[i])
  }

  function PartText(p: Part): string { Head(p.field, p.op) + " " + S.Quote(p.value) }

  function Texts(parts: seq<Part>): seq<string> {
    if parts == [] then [] else [PartText(parts[0])] + Texts(parts[1..])
  }

  /** The joined texts; an empty last value leaves no blank behind. */
  function Line(parts: seq<Part>): string
    requires parts != []
  {
    if |parts| == 1 then
      if parts[0].value == "" then Head(parts[0].field, parts[0].op) else PartText(parts[0])
    else PartText(parts[0]) + " AND " + Line(parts[1..])
  }

  function Wanted(parts: seq<Part>): seq<N.Condition> {
    if parts == [] then []
    else [N.Condition(parts[0].field, parts[0].op, parts[0].value)] + Wanted(parts[1..])
  }

  /** Every rendered value stands clear of the separators around it. */
  ghost predicate AllClear(parts: seq<Part>) {
    parts == [] || (Clear(parts[0].value, |parts| == 1) && AllClear(parts[1..]))
  }

  lemma SepAtQuote(v: string, i: nat)
    requires v != "" && !N.ReSpace(v[|v| - 1]) && i < |v| && N.SepAt(v + "\"", i)
    ensures N.SepAt(v, i)
  {
    hide N.SpaceEnd;
    SpaceEndInside(v, "\"", i);
    assert (v + "\"")[|v|] == '"';
  }

  lemma QuoteIsUnsplit(v: string)
    requires PlainValue(v)
    ensures Unsplit(S.Quote(v))
  {
    hide N.SepAt, N.ReSpace, S.Quote;
    var q := S.Quote(v);
    QuoteIs(v);
    if Quoted(v) {
      assert q == "\"" + (v + "\"");
      forall i | 0 <= i < |q| ensures !N.SepAt(q, i) {
        if i == 0 || i == |q| - 1 {
          NoSepAtQuote(q, i);
        } else {
          SepAtShift("\"", v + "\"", i - 1);
          LastIsNoSpace(v);
          if N.SepAt(v + "\"", i - 1) { SepAtQuote(v, i - 1); }
        }
      }
    }
  }

  lemma NoSepAtQuote(s: string, i: nat)
    requires i < |s| && s[i] == '"'
    ensures !N.SepAt(s, i)
  {}

  lemma LastIsNoSpace(v: string)
    requires Trimmed(v) && v != ""
    ensures !N.ReSpace(v[|v| - 1])
  {}

  lemma UnsplitShift(h: string, s: string, i: nat)
    requires Unsplit(s) && |h| <= i < |h| + |s|
    ensures !N.SepAt(h + s, i)
  {
    hide N.SepAt;
    SepAtShift(h, s, i - |h|);
  }

  lemma UnsplitBlankShift(h: string, s: string, rest: string, i: nat)
    requires s != "" && !N.ReSpace(s[|s| - 1]) && Unsplit(s + " ") && |h| <= i < |h| + |s|
    ensures !N.SepAt(h + (s + " " + rest), i)
  {
    hide N.SepAt, N.ReSpace;
    SepAtShift(h, s + " " + rest, i - |h|);
    SepAtBlank(s, rest, i - |h|);
  }

  lemma PartTextIs(p: Part, rest: string)
    ensures PartText(p) == Head(p.field, p.op) + (" " + S.Quote(p.value))
    ensures PartText(p) + (" " + rest) == Head(p.field, p.op) + (" " + S.Quote(p.value) + " " + rest)
  {
    hide Head, S.Quote;
  }

  lemma ClearParts(v: string, last: bool)
    requires PlainValue(v) && Clear(v, last)
    ensures var s := " " + S.Quote(v); !N.ReSpace(s[|s| - 1]) && Unsplit(if last then s else s + " ")
  {
    hide Unsplit, S.Quote;
    QuoteIs(v);
    var s := " " + S.Quote(v);
    NoSpaceIsNoReSpace(S.Quote(v)[|S.Quote(v)| - 1]);
    assert s + "" == s;
  }

  /** No separator starts in a clear condition, whatever follows its closing blank. */
  lemma ClearIsUnsplit(p: Part, t: string, rest: string, last: bool)
    requires ValidPart(p) && Clear(p.value, last)
    requires t == if last then PartText(p) else PartText(p) + (" " + rest)
    ensures forall i :: 0 <= i < |PartText(p)| ==> !N.SepAt(t, i)
  {
    hide N.SepAt, S.Quote, N.ReSpace, ValidHead, PlainValue, Clear, PartText, Head, Unsplit;
    var h, s := Head(p.field, p.op), " " + S.Quote(p.value);
    ClearParts(p.value, last);
    PartTextIs(p, rest);
    forall i | 0 <= i < |PartText(p)| ensures !N.SepAt(t, i) {
      if i < |h| {
        HeadHasNoSep(p.field, p.op, if last then s else s + " " + rest, i);
      } else if last {
        UnsplitShift(h, s, i);
      } else {
        UnsplitBlankShift(h, s, rest, i);
      }
    }
  }

  lemma NoSpaceIsNoReSpace(c: char)
    requires !IsSpace(c)
    ensures !N.ReSpace(c)
  {}

  /** The separator that was written is found where it was written. */
  lemma WrittenSep(pre: string, rest: string)
    requires rest != "" && N.FieldChar(rest[0])
    ensures var t := pre + (" AND " + rest);
            && N.SepAt(t, |pre|) && N.SepEnd(t, |pre|) == |pre| + 5 && t[|pre| + 5..] == rest
  {
    var s := " AND " + rest;
    FieldCharFacts(rest[0]);
    assert s[1] == 'A' && s[2] == 'N' && s[3] == 'D' && s[4] == ' ' && s[5] == rest[0];
    OneBlank(s, 0);
    OneBlank(s, 4);
    SepAtShift(pre, s, 0);
  }

  lemma LineStarts(parts: seq<Part>)
    requires parts != [] && ValidParts(parts)
    ensures Line(parts) != "" && N.FieldChar(Line(parts)[0])
    ensures parts[0].field <= Line(parts)
  {
    hide N.FieldChar, S.Quote;
    assert Line(parts)[0] == parts[0].field[0];
    var f := parts[0].field;
    assert Line(parts)[..|f|] == f;
  }

  lemma LineUnfold(parts: seq<Part>)
    requires |parts| > 1
    ensures Line(parts) == PartText(parts[0]) + (" AND " + Line(parts[1..]))
    ensures Line(parts) == PartText(parts[0]) + (" " + ("AND " + Line(parts[1..])))
    ensures ValidParts(parts) ==> ValidPart(parts[0]) && ValidParts(parts[1..])
  {
    hide *;
    LineIs(parts);
    AndWord();
    Assoc(PartText(parts[0]), " AND ", Line(parts[1..]));
    Assoc(" ", "AND ", Line(parts[1..]));
    if ValidParts(parts) { TailIsValid(parts); }
  }

  lemma LineIs(parts: seq<Part>)
    requires |parts| > 1
    ensures Line(parts) == PartText(parts[0]) + " AND " + Line(parts[1..])
  {
    hide PartText;
  }

  lemma AndWord()
    ensures " " + "AND " == " AND "
  {}

  lemma TailIsValid(parts: seq<Part>)
    requires parts != [] && ValidParts(parts)
    ensures ValidPart(parts[0]) && ValidParts(parts[1..])
  {
    hide ValidPart;
  }

  lemma Assoc(a: string, b: string, c: string)
    ensures a + b + c == a + (b + c)
  {}

  lemma SplitClear(parts: seq<Part>)
    requires |parts| > 1 && ValidParts(parts) && Clear(parts[0].value, false)
    ensures N.SplitAnd(Line(parts)) == [PartText(parts[0])] + N.SplitAnd(Line(parts[1..]))
  {
    hide *;
    var p, rest := parts[0], Line(parts[1..]);
    LineUnfold(parts);
    LineStarts(parts[1..]);
    var t := Line(parts);
    ClearIsUnsplit(p, t, "AND " + rest, false);
    WrittenSep(PartText(p), rest);
    SplitAtFirst(t, |PartText(p)|);
    assert t[..|PartText(p)|] == PartText(p);
  }

  lemma SplitLast(p: Part)
    requires ValidPart(p) && Clear(p.value, true)
    ensures N.SplitAnd(Line([p])) == [PartText(p)]
  {
    hide N.SepAt, N.SplitAnd, Clear, ValidPart, PartText;
    ClearIsUnsplit(p, PartText(p), "", true);
    ClearHasValue(p.value, true);
    SplitUnsplit(PartText(p));
  }

  lemma ClearHasValue(v: string, last: bool)
    requires Clear(v, last)
    ensures v != ""
  {}

  // ---- Values that are not clear -------------------------------------------------------------------

  lemma AllNone(chunks: seq<string>, k: nat)
    requires k < |chunks| && N.ParseCondition(Trim(chunks[k])) == None
    ensures N.ParseAll(chunks) == None
    decreases k
  {
    hide N.ParseCondition, Trim;
    if k > 0 { AllNone(chunks[1..], k - 1); }
  }

  /** A separator right behind the operator: the first chunk has no value. */
  lemma SplitAtHead(p: Part, tail: string)
    requires ValidHead(p.field, p.op) && N.SepAt(Head(p.field, p.op) + tail, |Head(p.field, p.op)|)
    ensures N.ParseConditions(Head(p.field, p.op) + tail) == None
  {
    hide N.SepAt, N.SepEnd, N.SplitAnd, N.ParseCondition, N.ParseAll, Head, LowerWord, PlainValue, Trim;
    var h := Head(p.field, p.op);
    var t := h + tail;
    forall i | 0 <= i < |h| ensures !N.SepAt(t, i) { HeadHasNoSep(p.field, p.op, tail, i); }
    assert |h| < |t| by { SepInside(t, |h|); }
    SplitAtFirst(t, |h|);
    assert t[..|h|] == h;
    HeadIsRefused(p.field, p.op);
    AllNone(N.SplitAnd(t), 0);
  }

  lemma SepInside(s: string, i: nat)
    requires N.SepAt(s, i)
    ensures i < |s|
  {}

  lemma AndAtWhere(q: string, t: string, j: nat)
    requires q <= t && j < |q| < |t| && t[|q|] == ' ' && N.AndAt(t, j)
    ensures N.AndAt(q, j) || j + 3 == |q|
  {}

  /** A separator that starts in a value runs into the one behind it: the value ends in the word. */
  lemma SepRunsOn(q: string, rest: string, m: nat)
    requires q != "" && !N.ReSpace(q[|q| - 1]) && m < |q| && !N.SepAt(q, m)
    requires N.SepAt(q + " " + rest, m) && rest != "" && !N.ReSpace(rest[0])
    ensures N.SepEnd(q + " " + rest, m) == |q| + 1
  {
    hide N.SpaceEnd, N.AndAt;
    var t := q + " " + rest;
    assert t == q + (" " + rest);
    SpaceEndInside(q, " " + rest, m);
    var j: nat := N.SpaceEnd(q, m);
    AndAtWhere(q, t, j);
    assert t[|q| + 1] == rest[0];
    OneBlank(t, |q|);
  }

  lemma TrimKeepsFront(x: string, y: string)
    requires x != "" && Trimmed(x)
    ensures x <= Trim(x + y)
  {
    var s := x + y;
    assert TrimLeft(s) == s;
    TrimRightKeeps(x, y);
  }

  lemma {:induction false} TrimRightKeeps(x: string, y: string)
    requires x != "" && Trimmed(x)
    ensures x <= TrimRight(x + y)
    decreases |y|
  {
    var s := x + y;
    if y == "" {
      assert s == x;
    } else if IsSpace(s[|s| - 1]) {
      assert s[..|s| - 1] == x + y[..|y| - 1];
      TrimRightKeeps(x, y[..|y| - 1]);
    }
  }

  /** What is left after such a separator starts with the word AND and the next field. */
  lemma AfterRunOn(next: Part, tail: string)
    requires ValidHead(next.field, next.op)
    ensures N.ParseConditions("AND " + (next.field + tail)) == None
  {
    hide N.SepAt, N.SplitAnd, N.ParseCondition, N.ParseAll, LowerWord, PlainValue, N.SepEnd, N.FindSep, Trim;
    var f := next.field;
    var front := "AND " + f;
    var t := "AND " + (f + tail);
    assert t == front + tail;
    forall i | 0 <= i < |front| ensures !N.SepAt(t, i) { NoSepInAndField(f, tail, i); }
    var k := N.FindSep(t, 0);
    SplitHasFirst(t);
    var c := N.SplitAnd(t)[0];
    assert k >= |front|;
    assert c == t[..k] == front + t[|front|..k];
    FrontIsTrimmed(f);
    TrimKeepsFront(front, t[|front|..k]);
    var r := Trim(c)[|front|..];
    assert Trim(c) == "AND" + " " + f + r;
    FieldStarts(f);
    AndIsRefused("AND", f, r);
    AllNone(N.SplitAnd(t), 0);
  }

  lemma FieldStarts(f: string)
    requires f != "" && LowerWord(f)
    ensures N.FieldChar(f[0])
  {}

  lemma FrontIsTrimmed(f: string)
    requires f != "" && LowerWord(f)
    ensures Trimmed("AND " + f)
  {
    var s := "AND " + f;
    FieldCharFacts(f[|f| - 1]);
    assert s[|s| - 1] == f[|f| - 1];
  }

  lemma SplitHasFirst(t: string)
    ensures N.SplitAnd(t)[0] == t[..N.FindSep(t, 0)]
  {
    hide N.SepAt, N.FindSep, N.SepEnd;
    assert t[..|t|] == t;
  }

  lemma NoSepInAndField(f: string, tail: string, i: nat)
    requires f != "" && f[0] != 'a' && LowerWord(f) && i < 4 + |f|
    ensures !N.SepAt("AND " + (f + tail), i)
  {
    hide N.SpaceEnd;
    var t := "AND " + (f + tail);
    if i == 3 {
      assert t[3] == ' ' && t[4] == f[0];
      FieldCharFacts(f[0]);
      OneBlank(t, 3);
    } else if i > 3 {
      assert t[i] == f[i - 4];
      FieldCharFacts(f[i - 4]);
    }
  }

  /** A first condition that is not clear makes the line invalid, if more conditions follow. */
  lemma UnclearFirst(parts: seq<Part>)
    requires |parts| > 1 && ValidParts(parts) && !Clear(parts[0].value, false)
    ensures N.ParseConditions(Line(parts)) == None
  {
    hide N.SepAt, N.ParseConditions, ValidHead, PlainValue, Line, S.Quote, Head, PartText, ValidParts, Unsplit;
    TailIsValid(parts);
    TailIsValid(parts[1..]);
    var p, rest := parts[0], Line(parts[1..]);
    var h, q := Head(p.field, p.op), S.Quote(p.value);
    LineUnfold(parts);
    LineStarts(parts[1..]);
    PartTextIs(p, "AND " + rest);
    var tail := " " + q + " " + ("AND " + rest);
    assert Line(parts) == h + tail;
    if p.value == "" {
      EmptyRunsOn(p, rest);
    } else {
      QuoteIs(p.value);
      var i := SomeSep(" " + q + " ");
      SepBeforeEnd(" " + q, i);
      NoSpaceIsNoReSpace(q[|q| - 1]);
      assert (" " + q)[|" " + q| - 1] == q[|q| - 1];
      SepAtBlank(" " + q, "AND " + rest, i);
      if i == 0 {
        SepAtShift(h, tail, 0);
        SplitAtHead(p, tail);
      } else {
        UnclearLater(parts, i);
      }
    }
  }

  lemma SomeSep(s: string) returns (i: nat)
    requires !Unsplit(s)
    ensures i < |s| && N.SepAt(s, i)
  {
    i :| i < |s| && N.SepAt(s, i);
  }

  lemma SepBeforeEnd(s: string, i: nat)
    requires N.SepAt(s + " ", i)
    ensures i < |s|
  {}

  lemma EmptyRunsOn(p: Part, rest: string)
    requires ValidPart(p) && p.value == "" && rest != ""
    ensures N.ParseConditions(Head(p.field, p.op) + (" " + S.Quote(p.value) + " " + ("AND " + rest))) == None
  {
    hide N.ParseConditions, Head;
    var tail := " " + S.Quote(p.value) + " " + ("AND " + rest);
    assert tail[1] == ' ' && tail[2] == 'A' && tail[3] == 'N' && tail[4] == 'D' && tail[5] == ' ';
    OneBlank(tail, 1);
    assert N.SpaceEnd(tail, 0) == 2;
    SepAtShift(Head(p.field, p.op), tail, 0);
    SplitAtHead(p, tail);
  }

  /** The separator starts inside the value: it swallows the one behind the value. */
  lemma UnclearLater(parts: seq<Part>, i: nat)
    requires |parts| > 1 && ValidParts(parts) && parts[0].value != ""
    requires var q := S.Quote(parts[0].value); 0 < i <= |q| && N.SepAt(" " + q + " " + ("AND " + Line(parts[1..])), i)
    ensures N.ParseConditions(Line(parts)) == None
  {
    hide N.SepAt, N.SepEnd, N.FindSep, N.SplitAnd, N.ParseAll, N.ParseCondition, Trim, ValidHead, PlainValue, Line,
      S.Quote, Head, PartText, ValidParts, Unsplit, Clear;
    TailIsValid(parts);
    TailIsValid(parts[1..]);
    var p, rest := parts[0], Line(parts[1..]);
    var h, q := Head(p.field, p.op), S.Quote(p.value);
    LineUnfold(parts);
    LineStarts(parts[1..]);
    PartTextIs(p, "AND " + rest);
    var tail := " " + q + " " + ("AND " + rest);
    var t := Line(parts);
    assert t == h + tail;
    SepAtShift(h, tail, i);
    var k := N.FindSep(t, 0);
    assert k <= |h| + i;
    assert k >= |h| by { NotInHead(p, tail, k); }
    if k == |h| {
      SplitAtHead(p, tail);
    } else {
      var m := k - |h| - 1;
      RunOnEnds(p, rest, m);
      assert N.SepEnd(t, k) == |h| + 1 + |q| + 1;
      assert t[|h| + 1 + |q| + 1..] == "AND " + rest;
      SplitAtFirst(t, k);
      NextField(parts[1..]);
      AfterRunOn(parts[1], rest[|parts[1].field|..]);
      TailIsNone(N.SplitAnd(t));
    }
  }

  lemma NotInHead(p: Part, tail: string, k: nat)
    requires ValidHead(p.field, p.op) && N.SepAt(Head(p.field, p.op) + tail, k)
    ensures k >= |Head(p.field, p.op)|
  {
    hide N.SepAt, ValidHead, PlainValue, Head;
    if k < |Head(p.field, p.op)| { HeadHasNoSep(p.field, p.op, tail, k); }
  }

  lemma RunOnEnds(p: Part, rest: string, m: nat)
    requires ValidPart(p) && p.value != "" && rest != ""
    requires var q := S.Quote(p.value); var h := Head(p.field, p.op);
             m < |q| && N.SepAt(h + (" " + q + " " + ("AND " + rest)), |h| + 1 + m)
    ensures var q := S.Quote(p.value); var h := Head(p.field, p.op);
            N.SepEnd(h + (" " + q + " " + ("AND " + rest)), |h| + 1 + m) == |h| + 1 + |q| + 1
  {
    hide N.SepAt, N.SepEnd, ValidHead, PlainValue, S.Quote, Head;
    var q, h := S.Quote(p.value), Head(p.field, p.op);
    QuoteIs(p.value);
    QuoteIsUnsplit(p.value);
    NoSpaceIsNoReSpace(q[|q| - 1]);
    var inner := q + " " + ("AND " + rest);
    var tail := " " + q + " " + ("AND " + rest);
    assert tail == " " + inner;
    SepAtShift(h, tail, 1 + m);
    SepAtShift(" ", inner, m);
    assert ("AND " + rest)[0] == 'A';
    SepRunsOn(q, "AND " + rest, m);
  }

  lemma NextField(parts: seq<Part>)
    requires parts != [] && ValidParts(parts)
    ensures var f := parts[0].field; f <= Line(parts) && Line(parts) == f + Line(parts)[|f|..]
  {
    hide Line, ValidParts;
    LineStarts(parts);
  }

  lemma TailIsNone(chunks: seq<string>)
    requires |chunks| > 1 && N.ParseAll(chunks[1..]) == None
    ensures N.ParseAll(chunks) == None
  {
    hide N.ParseCondition, Trim;
  }

  /** A last condition that is not clear makes the line invalid. */
  lemma UnclearLast(p: Part)
    requires ValidPart(p) && !Clear(p.value, true)
    ensures N.ParseConditions(Line([p])) == None
  {
    hide N.SepAt, N.SplitAnd, N.ParseAll, N.ParseCondition, Trim, ValidHead, PlainValue, S.Quote, Head, Unsplit;
    var h, q := Head(p.field, p.op), S.Quote(p.value);
    if p.value == "" {
      assert Line([p]) == h;
      HeadIsUnsplit(p);
      SplitUnsplit(h);
      HeadIsRefused(p.field, p.op);
      AllNone([h], 0);
    } else {
      assert " " + q + "" == " " + q;
      var i := SomeSep(" " + q);
      PartTextIs(p, "");
      if i > 0 {
        SepAtShift(" ", q, i - 1);
        QuoteIsUnsplit(p.value);
        SepOutside(q, i - 1);
      }
      SepAtShift(h, " " + q, 0);
      SplitAtHead(p, " " + q);
    }
  }

  lemma SepOutside(q: string, i: nat)
    requires Unsplit(q)
    ensures !N.SepAt(q, i)
  {
    if i < |q| {}
  }

  lemma HeadIsUnsplit(p: Part)
    requires ValidPart(p)
    ensures Unsplit(Head(p.field, p.op))
  {
    hide N.SepAt, ValidHead, PlainValue, Head;
    var h := Head(p.field, p.op);
    assert h + "" == h;
    forall i | 0 <= i < |h| ensures !N.SepAt(h, i) { HeadHasNoSep(p.field, p.op, "", i); }
  }

  lemma ReadFirst(parts: seq<Part>, chunks: seq<string>)
    requires parts != [] && ValidPart(parts[0]) && parts[0].value != ""
    ensures N.ParseAll([PartText(parts[0])] + chunks) ==
            var r := N.ParseAll(chunks);
            if r.None? then None
            else Some([N.Condition(parts[0].field, parts[0].op, parts[0].value)] + r.value)
  {
    hide N.ParseCondition, Trim, ValidHead, PlainValue, Head, S.Quote;
    var p := parts[0];
    ConditionIsRead(p.field, p.op, p.value);
    assert ([PartText(p)] + chunks)[1..] == chunks;
  }

  /** The parser accepts a rendered condition line exactly when all its values are clear, and then
      reads back the conditions that were rendered. */
  lemma {:induction false} LineIsRead(parts: seq<Part>)
    requires parts != [] && ValidParts(parts)
    ensures N.ParseConditions(Line(parts)) == if AllClear(parts) then Some(Wanted(parts)) else None
    decreases |parts|
  {
    hide N.SplitAnd, N.ParseAll, Line, ValidParts, PartText, Clear, ValidPart;
    TailIsValid(parts);
    var p := parts[0];
    if |parts| == 1 {
      assert parts == [p] && parts[1..] == [];
      if Clear(p.value, true) {
        SplitLast(p);
        ClearHasValue(p.value, true);
        ReadFirst(parts, []);
        assert [PartText(p)] + [] == [PartText(p)];
        NothingRead();
      } else {
        UnclearLast(p);
      }
    } else if Clear(p.value, false) {
      SplitClear(parts);
      ClearHasValue(p.value, false);
      ReadFirst(parts, N.SplitAnd(Line(parts[1..])));
      LineIsRead(parts[1..]);
    } else {
      UnclearFirst(parts);
    }
  }

  lemma NothingRead()
    ensures N.ParseAll([]) == Some([])
  {}

  /** Two values that are not clear: the empty one, and the word AND before another condition. */
  lemma UnclearValues()
    ensures PlainValue("") && !Clear("", true)
    ensures PlainValue("AND") && !Clear("AND", false) && Clear("AND", true)
  {
    var v := "AND";
    assert S.Quote(v) == v;
    var s := " " + v + " ";
    assert s[0] == ' ' && s[1] == 'A' && s[2] == 'N' && s[3] == 'D' && s[4] == ' ';
    OneBlank(s, 0);
    assert N.SepAt(s, 0);
    var t := " " + v + "";
    assert |t| == 4;
  }
}
