/** The detection language as it is written: what its conditions compare, what its directives set, and
    what it refuses. */
module NpdlReading {
  import opened Text
  import opened Numerals
  import opened Npdl
  import SigmaToNpdl
  import SigmaMeaning

  // ---- Conditions --------------------------------------------------------------------------------------

  const OPERATORS := ["=", "!=", "~", ">=", "<=", ">", "<"]

  /** A field name, an operator and a value, with blanks between them, the value perhaps in quotes. A blank
      must follow an operator that the value would otherwise make a longer one. */
  predicate ValidText(field: string, gap: string, op: string, space: string, value: string, quote: string) {
    && field != "" && (forall i :: 0 <= i < |field| ==> FieldChar(field[i])) && Blank(gap) && Blank(space)
    && op in OPERATORS && value != "" && Trimmed(value) && (forall i :: 0 <= i < |value| ==> !IsQuote(value[i]))
    && (quote == "" || quote == "\"" || quote == "'")
    && ((op == ">" || op == "<") && space == "" && quote == "" ==> value[0] != '=')
  }

  lemma BlankIsSpace(c: char)
    requires c == ' ' || c == '\t'
    ensures ReSpace(c) && IsSpace(c) && !FieldChar(c)
  {}

  lemma {:induction false} SpaceSkip(pre: string, gap: string, rest: string)
    requires Blank(gap) && rest != "" && !ReSpace(rest[0])
    ensures SpaceEnd(pre + gap + rest, |pre|) == |pre| + |gap|
    decreases |gap|
  {
    var s := pre + gap + rest;
    if gap == "" {
      assert s[|pre|] == rest[0];
    } else {
      BlankIsSpace(gap[0]);
      assert s[|pre|] == gap[0];
      assert s == (pre + [gap[0]]) + gap[1..] + rest;
      SpaceSkip(pre + [gap[0]], gap[1..], rest);
    }
  }

  lemma OperatorStarts(op: string)
    requires op in OPERATORS
    ensures op != "" && !ReSpace(op[0]) && !FieldChar(op[0]) && !IsSpace(op[0])
  {}

  lemma OperatorIsFound(s: string, at: nat, op: string)
    requires op in OPERATORS && at + |op| < |s| && s[at..at + |op|] == op
    requires op == ">" || op == "<" ==> s[at + 1] != '='
    ensures Operator(s, at) == op
  {
    assert s[at] == op[0];
    if |op| == 2 {
      assert s[at + 1] == op[1] == '=';
    } else {
      assert forall p :: p == "!=" || p == ">=" || p == "<=" ==> at + 2 < |s| && s[at..at + 2] == p ==> s[at] == p[0] && s[at + 1] == '=';
    }
  }

  lemma QuotesAreTrimmed(value: string, quote: string)
    requires value != "" && Trimmed(value) && (forall i :: 0 <= i < |value| ==> !IsQuote(value[i]))
    requires quote == "" || quote == "\"" || quote == "'"
    ensures TrimQuotes(quote + value + quote) == value && Trim(quote + value + quote) == quote + value + quote
    ensures var v := quote + value + quote; v != "" && !ReSpace(v[0])
  {
    var v := quote + value + quote;
    SigmaToNpdl.TrimQuotesOfPlain(value);
    TrimIsTrimmed(v);
    if quote == "'" {
      assert v[1..] == value + "'";
      var r := value + "'";
      assert r[..|r| - 1] == value && r[0] == value[0];
    } else if quote == "" {
      assert v == value;
    }
  }

  lemma FieldIsFound(field: string, rest: string)
    requires (forall i :: 0 <= i < |field| ==> FieldChar(field[i])) && rest != "" && !FieldChar(rest[0])
    ensures FieldEnd(field + rest, 0) == |field|
  {
    hide FieldChar, FieldEnd;
    SigmaToNpdl.FieldEndIs(field, rest, 0);
  }

  lemma FourParts(a: string, b: string, c: string, d: string)
    ensures var s := a + b + c + d; var at := |a| + |b|;
            && s == a + (b + c + d) && s == a + b + (c + d) && s[..|a|] == a && s[at..at + |c|] == c && s[at + |c|..] == d
  {}

  lemma RestStarts(gap: string, op: string, tail: string)
    requires Blank(gap) && op in OPERATORS
    ensures gap + op + tail != "" && !FieldChar((gap + op + tail)[0])
    ensures op + tail != "" && !ReSpace((op + tail)[0])
  {
    hide FieldChar, ReSpace, IsSpace, OPERATORS;
    OperatorStarts(op);
    assert (op + tail)[0] == op[0];
    if gap != "" {
      BlankIsSpace(gap[0]);
      assert (gap + op + tail)[0] == gap[0];
    } else {
      assert (gap + op + tail)[0] == op[0];
    }
  }

  /** The field ends where the blanks or the operator begin, and the blanks at the operator. */
  lemma FrontIsRead(field: string, gap: string, op: string, tail: string)
    requires (forall i :: 0 <= i < |field| ==> FieldChar(field[i])) && Blank(gap) && op in OPERATORS
    ensures var s := field + gap + op + tail; var at := |field| + |gap|;
            && FieldEnd(s, 0) == |field| && SpaceEnd(s, |field|) == at
            && s[..|field|] == field && s[at..at + |op|] == op && s[at + |op|..] == tail
  {
    hide *;
    RestStarts(gap, op, tail);
    FourParts(field, gap, op, tail);
    FieldIsFound(field, gap + op + tail);
    SpaceSkip(field, gap, op + tail);
  }

  lemma ValueIsRead(pre: string, space: string, v: string)
    requires Blank(space) && v != "" && !ReSpace(v[0])
    ensures var s := pre + space + v; |pre| <= |s| && s[SpaceEnd(s, |pre|)..] == v
  {
    hide SpaceEnd, ReSpace, Blank;
    SpaceSkip(pre, space, v);
  }

  /** Field, operator and whatever follows the blanks. */
  lemma ThreeAreRead(field: string, gap: string, op: string, space: string, v: string)
    requires field != "" && (forall i :: 0 <= i < |field| ==> FieldChar(field[i])) && Blank(gap) && Blank(space)
    requires op in OPERATORS && v != "" && !ReSpace(v[0])
    requires op == ">" || op == "<" ==> (field + gap + op + (space + v))[|field| + |gap| + 1] != '='
    ensures ParseCondition(field + gap + op + (space + v)) == Some(Condition(Lower(field), op, TrimQuotes(Trim(v))))
  {
    hide *;
    var tail := space + v;
    var s := field + gap + op + tail;
    OperatorStarts(op);
    FrontIsRead(field, gap, op, tail);
    OperatorIsFound(s, |field| + |gap|, op);
    assert s == field + gap + op + space + v;
    ValueIsRead(field + gap + op, space, v);
    ParsedAs(s, |field|, |field| + |gap|, op);
  }

  /** A condition is read as it is written: the field in small letters, the longest operator, the value
      without its quotes. */
  lemma ConditionIsRead(field: string, gap: string, op: string, space: string, value: string, quote: string)
    requires ValidText(field, gap, op, space, value, quote)
    ensures ParseCondition(field + gap + op + space + (quote + value + quote)) == Some(Condition(Lower(field), op, value))
  {
    hide *;
    var v := quote + value + quote;
    PartsAre(field, gap, op, space, value, quote);
    FiveParts(field, gap, op, space, v);
    NextIsNoEquals(field, gap, op, space, value, quote);
    QuotesAreTrimmed(value, quote);
    ThreeAreRead(field, gap, op, space, v);
  }

  lemma PartsAre(field: string, gap: string, op: string, space: string, value: string, quote: string)
    requires ValidText(field, gap, op, space, value, quote)
    ensures field != "" && (forall i :: 0 <= i < |field| ==> FieldChar(field[i])) && Blank(gap) && Blank(space)
    ensures op in OPERATORS && value != "" && Trimmed(value) && (forall i :: 0 <= i < |value| ==> !IsQuote(value[i]))
    ensures quote == "" || quote == "\"" || quote == "'"
  {
    hide FieldChar, Blank, OPERATORS, Trimmed, IsQuote;
  }

  lemma FiveParts(a: string, b: string, c: string, d: string, e: string)
    ensures a + b + c + d + e == a + b + c + (d + e) && |a + b + c| == |a| + |b| + |c|
    ensures e != "" ==> |a| + |b| + |c| < |a + b + c + d + e|
  {}

  lemma ParsedAs(s: string, n: nat, at: nat, op: string)
    requires 0 < n <= |s| && FieldEnd(s, 0) == n && SpaceEnd(s, n) == at && Operator(s, at) == op && op != ""
    ensures at + |op| <= |s|
    ensures ParseCondition(s) == Some(Condition(Lower(s[..n]), op, TrimQuotes(Trim(s[SpaceEnd(s, at + |op|)..]))))
  {
    hide FieldEnd, SpaceEnd, Operator, TrimQuotes, Trim, Lower;
  }

  lemma NextIsNoEquals(field: string, gap: string, op: string, space: string, value: string, quote: string)
    requires ValidText(field, gap, op, space, value, quote)
    ensures var s := field + gap + op + space + (quote + value + quote); op == ">" || op == "<" ==> s[|field| + |gap| + 1] != '='
  {
    hide OPERATORS, FieldChar, Trimmed, IsQuote;
    var s := field + gap + op + space + (quote + value + quote);
    var n := |field| + |gap| + 1;
    if op == ">" || op == "<" {
      assert s[n] == if space != "" then space[0] else if quote != "" then quote[0] else value[0];
    }
  }

  /** What a condition compares: texts in any letter case, a part of one, or numbers - and where either side
      is none, nothing. */
  lemma ConditionMeans(c: Condition, v: string, num: string -> Option<real>)
    ensures c.op == "=" ==> (MatchCondition(c, v, num) <==> SameWord(v, c.value))
    ensures c.op == "!=" ==> (MatchCondition(c, v, num) <==> !SameWord(v, c.value))
    ensures c.op == "~" ==> (MatchCondition(c, v, num) <==> c.value == "" || Mentions(v, c.value))
    ensures var a, b := num(v), num(c.value);
            && (c.op == ">" ==> (MatchCondition(c, v, num) <==> a.Some? && b.Some? && a.value > b.value))
            && (c.op == ">=" ==> (MatchCondition(c, v, num) <==> a.Some? && b.Some? && a.value >= b.value))
            && (c.op == "<" ==> (MatchCondition(c, v, num) <==> a.Some? && b.Some? && a.value < b.value))
            && (c.op == "<=" ==> (MatchCondition(c, v, num) <==> a.Some? && b.Some? && a.value <= b.value))
  {
    hide Lower, IndexOf, SameWord, Mentions;
    SameWordIff(v, c.value);
    LowerKeepsLength(c.value);
    if c.value != "" { MentionsIff(v, c.value); }
  }

  // ---- Directives ----------------------------------------------------------------------------------------

  lemma SmallKeys()
    ensures Lower("title") == "title" && Lower("severity") == "severity" && Lower("confidence") == "confidence"
    ensures Lower("mitre") == "mitre" && Lower("enabled") == "enabled" && Lower("when") == "when"
    ensures Lower("rule") == "rule" && Lower("end") == "end" && Lower("false") == "false"
  {}

  /** A line inside a rule: a word and a value. The word counts in any letter case. */
  lemma LineIsDirective(r: Rule, out: seq<Rule>, word: string, val: string)
    requires SigmaMeaning.Word(word) && word[0] != '#' && !SameWord(word, "rule") && !SameWord(word, "end")
    ensures ParseLine(State(Some(r), out), word + " " + val) ==
            var d := Directive(r, Lower(word), Trim(val)); if d.None? then None else Some(State(d, out))
  {
    hide Trim, Words, Directive, Lower, SigmaMeaning.Word, SameWord;
    SigmaMeaning.DirectiveIsRead(word, val);
    SameWordIff(word, "rule");
    SameWordIff(word, "end");
    SmallKeys();
  }

  /** A technique in a list, with the blanks around it. */
  datatype Item = Item(before: string, name: string, behind: string)

  predicate ValidItem(x: Item) {
    Blank(x.before) && Blank(x.behind) && Solid(x.name) && ',' !in x.name
  }

  function Commas(items: seq<Item>): string {
    if items == [] then ""
    else
      var first := items[0].before + items[0].name + items[0].behind;
      if |items| == 1 then first else first + "," + Commas(items[1..])
  }

  function NamesOf(items: seq<Item>): seq<string> {
    if items == [] then []
    else (if items[0].name == "" then [] else [items[0].name]) + NamesOf(items[1..])
  }

  lemma {:induction false} CommaIsFound(a: string, b: string)
    requires ',' !in a
    ensures IndexOf(a + "," + b, ",") == |a| && IndexOf(a, ",") == -1
    decreases |a|
  {
    var s := a + "," + b;
    if a == "" {
      assert "," <= s;
    } else {
      assert s[0] == a[0] && a[0] in a;
      assert s[1..] == a[1..] + "," + b;
      CommaIsFound(a[1..], b);
    }
  }

  lemma ItemIsTrimmed(x: Item)
    requires ValidItem(x)
    ensures Trim(x.before + x.name + x.behind) == x.name && ',' !in x.before + x.name + x.behind
  {
    hide Trim;
    BlanksAreTrimmed(x.before, x.name, x.behind);
  }

  /** A list of techniques: the names between the commas, without blanks and without the empty ones. */
  lemma {:induction false} ListIsRead(items: seq<Item>)
    requires items != [] && forall x <- items :: ValidItem(x)
    ensures NonEmptyTrimmed(SplitComma(Commas(items))) == NamesOf(items)
    decreases |items|
  {
    hide IndexOf, Trim, ValidItem;
    var first := items[0].before + items[0].name + items[0].behind;
    ItemIsTrimmed(items[0]);
    if |items| == 1 {
      CommaIsFound(first, "");
      OneItem(first);
      assert items[1..] == [];
    } else {
      var rest := Commas(items[1..]);
      CommaIsFound(first, rest);
      ListIsRead(items[1..]);
      var s := first + "," + rest;
      assert s[..|first|] == first && s[|first| + 1..] == rest;
      assert ([first] + SplitComma(rest))[1..] == SplitComma(rest);
    }
  }

  lemma OneItem(first: string)
    requires IndexOf(first, ",") < 0
    ensures NonEmptyTrimmed(SplitComma(first)) == if Trim(first) == "" then [] else [Trim(first)]
  {
    hide IndexOf, Trim;
    assert SplitComma(first) == [first];
    assert [first][1..] == [];
  }

  /** What the directives set, and when they are refused. */
  lemma DirectivesMean(r: Rule, val: string, items: seq<Item>)
    ensures Directive(r, "title", val) == Some(r.(title := val))
    ensures Directive(r, "severity", val) == Some(r.(severity := Lower(val)))
    ensures (forall n: nat :: 1 <= n <= 100 && Numeral(val, n) ==> Directive(r, "confidence", val) == Some(r.(confidence := n)))
            && ((forall n: nat :: 1 <= n <= 100 ==> !Numeral(val, n)) ==> Directive(r, "confidence", val) == None)
    ensures items != [] && (forall x <- items :: ValidItem(x)) ==>
              Directive(r, "mitre", Commas(items)) == Some(r.(mitre := r.mitre + NamesOf(items)))
    ensures Directive(r, "enabled", val) == Some(r.(enabled := !SameWord(val, "false")))
    ensures var cs := ParseConditions(val);
            Directive(r, "when", val) == if cs.None? then None else Some(r.(conditions := cs.value))
  {
    hide ParseInt, ParseConditions, Lower, SameWord, Numeral, ValidItem, SplitComma, NonEmptyTrimmed;
    SameWordIff(val, "false");
    SmallKeys();
    forall n: nat | 1 <= n <= 100 ensures ParseInt(val, 10) == Some(n) <==> Numeral(val, n) { PositiveIs(val, n); }
    if items != [] && (forall x <- items :: ValidItem(x)) { ListIsRead(items); }
  }

  lemma PositiveIs(s: string, n: nat)
    requires 1 <= n <= 100
    ensures ParseInt(s, 10) == Some(n) <==> Numeral(s, n)
  {
    hide ParseInt, Numeral;
    PositiveIff(s, n);
  }

  // ---- Structure -----------------------------------------------------------------------------------------

  const KEYS := ["title", "severity", "confidence", "mitre", "enabled", "when"]

  /** What the language refuses, line by line: an unknown directive, any directive outside a rule, a rule inside
      a rule, an end without a rule or of a rule without conditions. */
  lemma LineIsRefused(st: State, word: string, val: string)
    requires SigmaMeaning.Word(word) && word[0] != '#'
    ensures st.cur.None? && !SameWord(word, "rule") ==> ParseLine(st, word + " " + val) == None
    ensures st.cur.Some? && SameWord(word, "rule") ==> ParseLine(st, word + " " + val) == None
    ensures st.cur.Some? && SameWord(word, "end") && st.cur.value.conditions == [] ==> ParseLine(st, word + " " + val) == None
    ensures st.cur.Some? && (forall k <- KEYS :: !SameWord(word, k)) && !SameWord(word, "end") ==>
              ParseLine(st, word + " " + val) == None
  {
    hide Trim, Words, Lower, SigmaMeaning.Word, SameWord, ParseConditions, ParseInt, SplitComma, NonEmptyTrimmed;
    SigmaMeaning.DirectiveIsRead(word, val);
    SmallKeys();
    SameWordIff(word, "rule");
    SameWordIff(word, "end");
    KeysAre();
    SameWordIff(word, "title");
    SameWordIff(word, "severity");
    SameWordIff(word, "confidence");
    SameWordIff(word, "mitre");
    SameWordIff(word, "enabled");
    SameWordIff(word, "when");
  }

  lemma KeysAre()
    ensures "title" in KEYS && "severity" in KEYS && "confidence" in KEYS && "mitre" in KEYS && "enabled" in KEYS && "when" in KEYS
  {}

  /** A text that ends inside a rule is refused. */
  lemma OpenRuleIsRefused(src: string)
    requires var st := ParseLines(State(None, []), ScanLines(src)); st.Some? && st.value.cur.Some?
    ensures Parse(src) == None
  {
    hide ParseLines, ScanLines, LinesFit;
  }
}
