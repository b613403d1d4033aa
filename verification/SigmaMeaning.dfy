/** The rendered text as a whole: what the scripting engine makes of it, and what it then matches. */
module SigmaMeaning {
  import opened Text
  import N = Npdl
  import S = Sigma
  import opened SigmaToNpdl
  import opened SigmaValues

  // ---- Trimming ---------------------------------------------------------------------------------

  lemma {:induction false} TrimLeftOfFront(s: string)
    requires s != "" && IsSpace(s[|s| - 1])
    ensures (TrimLeft(s) == "" && TrimLeft(s[..|s| - 1]) == "") ||
            TrimLeft(s) == TrimLeft(s[..|s| - 1]) + [s[|s| - 1]]
    decreases |s|
  {
    if |s| > 1 && IsSpace(s[0]) {
      TrimLeftOfFront(s[1..]);
      assert s[..|s| - 1][1..] == s[1..][..|s| - 2];
    } else if |s| > 1 {
      assert s == s[..|s| - 1] + [s[|s| - 1]];
    } else {
      assert s[1..] == "";
    }
  }

  /** White space at the end does not change what is left after trimming. */
  lemma TrimDropsLast(s: string)
    requires s != "" && IsSpace(s[|s| - 1])
    ensures Trim(s) == Trim(s[..|s| - 1])
  {
    TrimLeftOfFront(s);
    var t := TrimLeft(s);
    if t != "" {
      var front := TrimLeft(s[..|s| - 1]);
      assert t[..|t| - 1] == front;
    }
  }

  lemma TrimOfDropReturn(s: string)
    ensures Trim(N.DropReturn(s)) == Trim(s)
  {
    hide Trim;
    if s != "" && s[|s| - 1] == '\r' { TrimDropsLast(s); }
  }

  lemma {:induction false} TrimRightOfWord(word: string, y: string)
    requires word != "" && !IsSpace(word[|word| - 1])
    ensures TrimRight(word + y) == word + TrimRight(y)
    decreases |y|
  {
    var s := word + y;
    if y == "" {
      assert s == word;
    } else if IsSpace(y[|y| - 1]) {
      assert s[..|s| - 1] == word + y[..|y| - 1];
      TrimRightOfWord(word, y[..|y| - 1]);
    }
  }

  lemma {:induction false} TrimOfTrimRight(val: string)
    ensures Trim(TrimRight(" " + val)) == Trim(val)
    decreases |val|
  {
    var s := " " + val;
    if val == "" {
      assert s[..0] == "";
      assert TrimRight(s) == "";
    } else if IsSpace(val[|val| - 1]) {
      assert s[..|s| - 1] == " " + val[..|val| - 1];
      TrimOfTrimRight(val[..|val| - 1]);
      TrimDropsLast(val);
    } else {
      assert TrimRight(s) == s && s[1..] == val;
      assert TrimLeft(s) == TrimLeft(val);
    }
  }

  predicate Word(w: string) { w != "" && forall i :: 0 <= i < |w| ==> !IsSpace(w[i]) }

  lemma WordIsTrimmed(w: string)
    requires Word(w)
    ensures !IsSpace(w[0]) && !IsSpace(w[|w| - 1]) && Trim(w) == w
  {
    TrimIsTrimmed(w);
  }

  lemma {:induction false} WordEndIs(w: string, rest: string, i: nat)
    requires i <= |w| && (forall k :: 0 <= k < |w| ==> !IsSpace(w[k])) && (rest == "" || IsSpace(rest[0]))
    ensures WordEnd(w + rest, i) == |w|
    decreases |w| - i
  {
    if i < |w| { WordEndIs(w, rest, i + 1); }
  }

  lemma FirstWord(w: string, rest: string)
    requires Word(w) && (rest == "" || IsSpace(rest[0]))
    ensures var s := w + rest; s != "" && s[0] == w[0] && Words(s) != [] && Words(s)[0] == w && s[|w|..] == rest
    ensures Words(w + rest) == [w] + Words(rest)
  {
    hide WordEnd;
    WordEndIs(w, rest, 0);
    assert (w + rest)[..|w|] == w && (w + rest)[|w|..] == rest;
  }

  // ---- Directives ------------------------------------------------------------------------------------

  function Directed(key: string, val: string): string { key + " " + val }

  /** A directive line, read: the first word is the key, the rest the trimmed value. */
  lemma DirectiveIsRead(key: string, val: string)
    requires Word(key)
    ensures var raw := Trim(Directed(key, val)); var words := Words(raw);
            && raw != "" && raw[0] == key[0] && words != [] && words[0] == key && key <= raw
            && Trim(raw[|key|..]) == Trim(val)
  {
    hide Words, IsSpace;
    var s := Directed(key, val);
    WordIsTrimmed(key);
    assert s == key + (" " + val);
    assert TrimLeft(s) == s by { assert s[0] == key[0]; }
    TrimRightOfWord(key, " " + val);
    var rest := TrimRight(" " + val);
    TrimRightFacts(" " + val);
    assert rest != "" ==> rest[0] == ' ';
    BlankIsSpace();
    FirstWord(key, rest);
    TrimOfTrimRight(val);
  }

  lemma BlankIsSpace()
    ensures IsSpace(' ')
  {}

  lemma LineIsTrimmed(st: N.State, line: string)
    ensures N.ParseLine(st, N.DropReturn(line)) == N.ParseLine(st, line)
  {
    hide Trim, Words, N.Directive, Lower, N.DropReturn;
    TrimOfDropReturn(line);
  }

  /** A directive other than `rule` and `end` inside a rule. */
  lemma DirectiveLine(r: N.Rule, out: seq<N.Rule>, key: string, val: string)
    requires Word(key) && key[0] != '#' && Lower(key) == key && key != "rule" && key != "end"
    ensures N.ParseLine(N.State(Some(r), out), Directed(key, val)) ==
            var d := N.Directive(r, key, Trim(val)); if d.None? then None else Some(N.State(d, out))
  {
    hide Trim, Words, N.Directive, Lower, Directed, Word;
    DirectiveIsRead(key, val);
  }

  /** White space at the end adds no word, nor does a blank in front. */
  lemma {:induction false} WordsBlankEnd(x: string, c: char)
    requires IsSpace(c)
    ensures Words(x + [c]) == Words(x)
    decreases |x|
  {
    hide IsSpace;
    var s := x + [c];
    if x == "" {
      assert s == [c] && s[1..] == "";
      assert WordEnd(s, 0) == 0;
    } else {
      var j := WordEnd(x, 0);
      WordEndMore(x, c, 0);
      if j == 0 {
        assert s[1..] == x[1..] + [c];
        WordsBlankEnd(x[1..], c);
      } else {
        assert s[..j] == x[..j] && s[j..] == x[j..] + [c];
        WordsBlankEnd(x[j..], c);
      }
    }
  }

  lemma {:induction false} WordEndMore(x: string, c: char, i: nat)
    requires IsSpace(c) && i <= |x|
    ensures WordEnd(x + [c], i) == WordEnd(x, i)
    decreases |x| - i
  {
    if i < |x| && !IsSpace(x[i]) { WordEndMore(x, c, i + 1); }
  }

  lemma {:induction false} WordsTrimRight(s: string)
    ensures Words(TrimRight(s)) == Words(s)
    decreases |s|
  {
    hide IsSpace, Words;
    if s != "" && IsSpace(s[|s| - 1]) {
      var n := |s| - 1;
      WordsTrimRight(s[..n]);
      WordsBlankEnd(s[..n], s[n]);
      assert s[..n] + [s[n]] == s;
    }
  }

  lemma WordsBlankStart(s: string)
    ensures Words(" " + s) == Words(s)
  {
    var t := " " + s;
    assert t[1..] == s;
    BlankIsSpace();
    assert WordEnd(t, 0) == 0;
  }

  lemma WordIff(id: string)
    ensures Words(id) == [id] <==> Word(id)
  {
    hide Words, Word;
    if Word(id) {
      assert id + "" == id;
      FirstWord(id, "");
      NoWords();
    } else if Words(id) == [id] {
      OneWordIsWord(id);
    }
  }

  lemma OneWordIsWord(id: string)
    requires Words(id) == [id]
    ensures Word(id)
  {
    hide Words, Word;
    WordsHaveNoSpace(id);
    assert Words(id)[0] == id;
  }

  lemma NoWords()
    ensures Words("") == []
  {}

  lemma {:induction false} WordsHaveNoSpace(s: string)
    ensures forall i :: 0 <= i < |Words(s)| ==> Word(Words(s)[i])
    decreases |s|
  {
    if s != "" {
      var j := WordEnd(s, 0);
      if j == 0 {
        WordsHaveNoSpace(s[1..]);
      } else {
        WordsHaveNoSpace(s[j..]);
        WordToEnd(s, 0);
      }
    }
  }

  lemma {:induction false} WordToEnd(s: string, i: nat)
    requires i <= |s|
    ensures forall k :: i <= k < WordEnd(s, i) ==> !IsSpace(s[k])
    decreases |s| - i
  {
    if i < |s| && !IsSpace(s[i]) { WordToEnd(s, i + 1); }
  }

  /** A rule is opened exactly by an id of one word. */
  lemma RuleLine(id: string)
    ensures N.ParseLine(N.State(None, []), Directed("rule", id)) ==
            if |Words(id)| == 1 then Some(N.State(Some(N.Rule(Words(id)[0], "", "medium", 70, [], [], true)), [])) else None
  {
    hide Words, N.Directive, Lower, IsSpace, TrimRight, TrimLeft;
    var s := Directed("rule", id);
    RuleIsWord();
    assert s == "rule" + (" " + id);
    StartsPlain("rule", " " + id);
    TrimRightOfWord("rule", " " + id);
    var rest := TrimRight(" " + id);
    TrimRightFacts(" " + id);
    assert rest != "" ==> rest[0] == ' ';
    BlankIsSpace();
    FirstWord("rule", rest);
    WordsTrimRight(" " + id);
    WordsBlankStart(id);
    assert ("rule" + rest)[0] == 'r';
  }

  lemma RuleIsWord()
    ensures Word("rule") && Lower("rule") == "rule" && !IsSpace('r') && !IsSpace('e')
  {}

  lemma EndLine(r: N.Rule, out: seq<N.Rule>)
    ensures N.ParseLine(N.State(Some(r), out), "end") ==
            if r.conditions == [] then None
            else Some(N.State(None, out + [if r.title == "" then r.(title := r.id) else r]))
  {
    hide Trim, Words, N.Directive, Lower;
    EndIsWord();
    WordIsTrimmed("end");
    assert "end" + "" == "end";
    FirstWord("end", "");
  }

  lemma EndIsWord()
    ensures Word("end") && Lower("end") == "end"
  {}

  lemma CommentLine(st: N.State, line: string)
    requires line != "" && line[0] == '#'
    ensures N.ParseLine(st, line) == Some(st)
  {
    hide Words, N.Directive, Trim;
    HashIsTrimmed();
    assert line == "#" + line[1..];
    TrimKeepsFront("#", line[1..]);
  }

  lemma HashIsTrimmed()
    ensures Trimmed("#")
  {}

  // ---- Lines -------------------------------------------------------------------------------------------

  lemma {:induction false} IndexOfFeed(line: string, more: string)
    requires forall i :: 0 <= i < |line| ==> line[i] != '\n'
    ensures IndexOf(line + "\n" + more, "\n") == |line|
    decreases |line|
  {
    var s := line + "\n" + more;
    if line == "" {
      assert "\n" <= s;
    } else {
      assert s[1..] == line[1..] + "\n" + more;
      assert s[0] != '\n';
      IndexOfFeed(line[1..], more);
    }
  }

  predicate NoFeed(s: string) { forall i :: 0 <= i < |s| ==> s[i] != '\n' }

  predicate AllNoFeed(lines: seq<string>) { forall i :: 0 <= i < |lines| ==> NoFeed(lines[i]) }

  predicate AllFit(lines: seq<string>) { forall i :: 0 <= i < |lines| ==> |lines[i]| <= 65535 }

  function DropReturns(lines: seq<string>): seq<string> {
    if lines == [] then [] else [N.DropReturn(lines[0])] + DropReturns(lines[1..])
  }

  lemma {:induction false} JoinedLinesAreScanned(lines: seq<string>)
    requires AllNoFeed(lines)
    ensures N.ScanLines(S.JoinLines(lines)) == DropReturns(lines)
    ensures N.LinesFit(S.JoinLines(lines)) <==> AllFit(lines)
    decreases |lines|
  {
    hide IndexOf, N.DropReturn;
    if lines != [] {
      var line, rest := lines[0], S.JoinLines(lines[1..]);
      var s := line + "\n" + rest;
      IndexOfFeed(line, rest);
      JoinedLinesAreScanned(lines[1..]);
      assert s[..|line|] == line && s[|line| + 1..] == rest;
      assert AllFit(lines) <==> |line| <= 65535 && AllFit(lines[1..]) by { FitParts(lines); }
    }
  }

  lemma FitParts(lines: seq<string>)
    requires lines != []
    ensures AllFit(lines) <==> |lines[0]| <= 65535 && AllFit(lines[1..])
  {
    forall i | 1 <= i < |lines| ensures lines[i] == lines[1..][i - 1] {}
  }

  lemma {:induction false} ReturnsDoNotMatter(st: N.State, lines: seq<string>)
    ensures N.ParseLines(st, DropReturns(lines)) == N.ParseLines(st, lines)
    decreases |lines|
  {
    hide N.ParseLine, N.DropReturn;
    if lines != [] {
      LineIsTrimmed(st, lines[0]);
      assert DropReturns(lines)[1..] == DropReturns(lines[1..]);
      var r := N.ParseLine(st, lines[0]);
      if r.Some? { ReturnsDoNotMatter(r.value, lines[1..]); }
    }
  }

  lemma ParseStep(st: N.State, line: string, rest: seq<string>)
    ensures N.ParseLines(st, [line] + rest) ==
            var r := N.ParseLine(st, line); if r.None? then None else N.ParseLines(r.value, rest)
  {
    hide N.ParseLine;
    assert ([line] + rest)[1..] == rest;
  }

  // ---- The rendered rule -----------------------------------------------------------------------------

  function PartOf(raw: string, value: string): Part {
    var (base, modifier) := S.SplitModifier(raw);
    Part(S.NpdlField(base), if modifier == "contains" then "~" else "=", value)
  }

  function Parts(sel: S.Selection, keys: seq<string>): (parts: seq<Part>)
    requires S.AllSimple(sel, keys)
    ensures |parts| == |keys| && forall i :: 0 <= i < |keys| ==> parts[i] == PartOf(keys[i], sel[keys[i]][0])
  {
    seq(|keys|, i requires 0 <= i < |keys| => PartOf(keys[i], sel[keys[i]][0]))
  }

  ghost predicate PlainSelection(sel: S.Selection, keys: seq<string>)
    requires S.AllSimple(sel, keys)
  {
    forall i :: 0 <= i < |keys| ==> PlainValue(sel[keys[i]][0])
  }

  lemma NpdlFieldIsValid(base: string, op: string)
    requires S.NpdlField(base) != "" && (op == "=" || op == "~")
    ensures ValidHead(S.NpdlField(base), op)
  {
    hide N.FieldChar;
    FieldNames();
  }

  lemma FieldNames()
    ensures LowerWord("process") && LowerWord("src_ip") && LowerWord("dst_ip") && LowerWord("dst_port")
    ensures LowerWord("protocol") && LowerWord("finding_rule")
  {}

  lemma HeadsAreValid(sel: S.Selection, keys: seq<string>)
    requires S.AllSimple(sel, keys)
    ensures ValidHeads(Parts(sel, keys))
  {
    hide S.SplitModifier, S.NpdlField, ValidHead;
    forall i | 0 <= i < |keys| ensures ValidHead(Parts(sel, keys)[i].field, Parts(sel, keys)[i].op) {
      var (base, modifier) := S.SplitModifier(keys[i]);
      NpdlFieldIsValid(base, if modifier == "contains" then "~" else "=");
    }
  }

  lemma PartsAreValid(sel: S.Selection, keys: seq<string>)
    requires S.AllSimple(sel, keys) && PlainSelection(sel, keys)
    ensures ValidParts(Parts(sel, keys))
  {
    hide S.SplitModifier, S.NpdlField, ValidHead, PlainValue;
    HeadsAreValid(sel, keys);
  }

  lemma {:induction false} RenderedAreTexts(sel: S.Selection, keys: seq<string>)
    requires S.AllSimple(sel, keys)
    ensures S.RenderConditions(sel, keys) == Texts(Parts(sel, keys))
    decreases |keys|
  {
    hide S.SplitModifier, S.NpdlField, S.Quote;
    if keys != [] {
      RenderedAreTexts(sel, keys[1..]);
      assert Parts(sel, keys)[1..] == Parts(sel, keys[1..]);
    }
  }

  lemma {:induction false} JoinIsLine(parts: seq<Part>)
    requires parts != [] && ValidParts(parts)
    ensures Trim(S.JoinAnd(Texts(parts))) == Line(parts)
    ensures var front := Line(parts);
            front != "" && Trimmed(front) && S.JoinAnd(Texts(parts)) in {front, front + " "}
    decreases |parts|
  {
    hide Trim, PlainValue, PartText, S.Quote, ValidHead, Head;
    TailIsValid(parts);
    var p := parts[0];
    TextEnds(p);
    if |parts| == 1 {
      assert Texts(parts) == [PartText(p)] by { assert parts[1..] == []; }
      if p.value == "" {
        HeadIsRefused(p.field, p.op);
        TrimIsTrimmed(Head(p.field, p.op));
        assert S.JoinAnd(Texts(parts)) == Head(p.field, p.op) + " ";
      } else {
        TrimIsTrimmed(PartText(p));
      }
    } else {
      JoinIsLine(parts[1..]);
      var j := S.JoinAnd(Texts(parts[1..]));
      var front := Line(parts[1..]);
      var lead := PartText(p) + " AND ";
      assert S.JoinAnd(Texts(parts)) == lead + j;
      Assoc(lead, front, " ");
      LeadIsTrimmed(lead, front);
      TrimIsTrimmed(lead + front);
      TrimBlank(lead + front);
      assert Line(parts) == lead + front;
    }
  }

  lemma LeadIsTrimmed(lead: string, front: string)
    requires lead != "" && !IsSpace(lead[0]) && front != "" && Trimmed(front)
    ensures Trimmed(lead + front)
  {
    var s := lead + front;
    assert s[|s| - 1] == front[|front| - 1] && s[0] == lead[0];
  }

  lemma TextEnds(p: Part)
    requires ValidPart(p)
    ensures PartText(p) != "" && !IsSpace(PartText(p)[0]) && PartText(p)[0] == p.field[0]
    ensures p.value == "" ==> PartText(p) == Head(p.field, p.op) + " "
    ensures p.value != "" ==> Trimmed(PartText(p))
    ensures var h := Head(p.field, p.op); h != "" && h[0] == p.field[0]
  {
    hide S.Quote, PlainValue, IsSpace, LowerWord;
    QuoteIs(p.value);
    LowerWordFacts(p.field);
    var t := PartText(p);
    assert t[0] == p.field[0];
    if p.value == "" {
      assert S.Quote(p.value) == "" by { QuoteOfNothing(); }
      assert Head(p.field, p.op) + " " + "" == Head(p.field, p.op) + " ";
    } else {
      assert t[|t| - 1] == S.Quote(p.value)[|S.Quote(p.value)| - 1];
    }
  }

  lemma QuoteOfNothing()
    ensures S.Quote("") == ""
  {}

  // ---- Parsing the rendered text -----------------------------------------------------------------

  /** No text of the rule holds a line feed. */
  predicate CleanHead(rule: S.Rule, slug: string) {
    NoFeed(S.RuleId(rule, slug)) && NoFeed(rule.title) && NoFeed(rule.level)
  }

  ghost predicate CleanRule(rule: S.Rule, slug: string, keys: seq<string>)
    requires S.Renderable(rule, keys)
  {
    CleanHead(rule, slug) && CleanSelection(rule.detections[Trim(rule.condition)], keys)
  }

  ghost predicate CleanSelection(sel: S.Selection, keys: seq<string>)
    requires S.AllSimple(sel, keys)
  {
    forall i :: 0 <= i < |keys| ==> NoFeed(sel[keys[i]][0])
  }

  function Severity(rule: S.Rule): string { if rule.level == "" then "medium" else Lower(rule.level) }

  /** The rule the engine holds after the head lines, before its conditions, when the id is a word. */
  function HeadRule(rule: S.Rule, slug: string): N.Rule {
    N.Rule(S.RuleId(rule, slug), Trim(rule.title), Lower(Trim(Severity(rule))), 80, [], [], true)
  }

  /** The same for any id that is read as one word. */
  function ReadRule(rule: S.Rule, slug: string): N.Rule
    requires |Words(S.RuleId(rule, slug))| == 1
  {
    HeadRule(rule, slug).(id := Words(S.RuleId(rule, slug))[0])
  }

  function TitledRule(r: N.Rule): N.Rule { if r.title == "" then r.(title := r.id) else r }

  lemma ConfidenceIs()
    ensures ParseInt("80", 10) == Some(80) && Trim("80") == "80" && Trim("true") == "true" && Lower("true") != "false"
  {
    TrimIsTrimmed("80");
    TrimIsTrimmed("true");
    assert "80"[..1] == "8" && "8"[..0] == "";
    assert Value("8", 10) == 8;
    assert Value("80", 10) == 80;
    assert Lower("true")[0] == 't';
  }

  predicate Setting(key: string) {
    key == "title" || key == "severity" || key == "confidence" || key == "enabled" || key == "when"
  }

  lemma SettingIsWord(key: string)
    requires Setting(key)
    ensures Word(key) && key[0] != '#' && Lower(key) == key && key != "rule" && key != "end"
  {
    hide Lower;
    LowerIsSame(key);
    assert key[0] != 'r' && (key[0] != 'e' || key[1] != 'n' || key[2] != 'd');
  }

  /** A directive line, and what is parsed after it. */
  lemma DirectiveStep(r: N.Rule, key: string, val: string, rest: seq<string>)
    requires Setting(key)
    ensures N.ParseLines(N.State(Some(r), []), [Directed(key, val)] + rest) ==
            var d := N.Directive(r, key, Trim(val)); if d.None? then None else N.ParseLines(N.State(d, []), rest)
  {
    hide N.ParseLines, N.ParseLine, Trim, Lower, Word, N.Directive, Directed, Setting;
    SettingIsWord(key);
    DirectiveLine(r, [], key, val);
    ParseStep(N.State(Some(r), []), Directed(key, val), rest);
  }

  lemma OpeningIsRead(id: string, comment: string, rest: seq<string>)
    requires comment != "" && comment[0] == '#'
    ensures N.ParseLines(N.State(None, []), [comment] + ([Directed("rule", id)] + rest)) ==
            if |Words(id)| == 1
            then N.ParseLines(N.State(Some(N.Rule(Words(id)[0], "", "medium", 70, [], [], true)), []), rest) else None
  {
    hide N.ParseLines, N.ParseLine, Word, Directed, Words;
    CommentLine(N.State(None, []), comment);
    RuleLine(id);
    ParseStep(N.State(None, []), comment, [Directed("rule", id)] + rest);
    ParseStep(N.State(None, []), Directed("rule", id), rest);
  }

  lemma SettingsAreRead(rule: S.Rule, slug: string, rest: seq<string>)
    requires |Words(S.RuleId(rule, slug))| == 1
    ensures N.ParseLines(N.State(Some(N.Rule(Words(S.RuleId(rule, slug))[0], "", "medium", 70, [], [], true)), []),
                         [Directed("title", rule.title)] + ([Directed("severity", Severity(rule))] + ([Directed("confidence", "80")] + rest))) ==
            N.ParseLines(N.State(Some(ReadRule(rule, slug)), []), rest)
  {
    hide N.ParseLines, N.ParseLine, Trim, Lower, ParseInt, Directed, Severity, Words;
    var r1 := N.Rule(Words(S.RuleId(rule, slug))[0], "", "medium", 70, [], [], true);
    var r2 := r1.(title := Trim(rule.title));
    var r3 := r2.(severity := Lower(Trim(Severity(rule))));
    ConfidenceIs();
    DirectiveStep(r1, "title", rule.title, [Directed("severity", Severity(rule))] + ([Directed("confidence", "80")] + rest));
    DirectiveStep(r2, "severity", Severity(rule), [Directed("confidence", "80")] + rest);
    DirectiveStep(r3, "confidence", "80", rest);
  }

  lemma FiveLines(a: string, b: string, c: string, d: string, e: string, rest: seq<string>)
    ensures [a, b, c, d, e] + rest == [a] + ([b] + ([c] + ([d] + ([e] + rest))))
  {}

  lemma HeadIsRead(rule: S.Rule, slug: string, rest: seq<string>)
    ensures N.ParseLines(N.State(None, []), S.RenderHead(rule, slug) + rest) ==
            if |Words(S.RuleId(rule, slug))| == 1 then N.ParseLines(N.State(Some(ReadRule(rule, slug)), []), rest) else None
  {
    hide *;
    var l1, l2, l3, l4 := Directed("rule", S.RuleId(rule, slug)), Directed("title", rule.title),
      Directed("severity", Severity(rule)), Directed("confidence", "80");
    HeadLines(rule, slug);
    CommentStart();
    FiveLines(S.Comment(), l1, l2, l3, l4, rest);
    OpeningIsRead(S.RuleId(rule, slug), S.Comment(), [l2] + ([l3] + ([l4] + rest)));
    if |Words(S.RuleId(rule, slug))| == 1 { SettingsAreRead(rule, slug, rest); }
  }

  lemma CommentStart()
    ensures S.Comment() != "" && S.Comment()[0] == '#' && NoFeed(S.Comment())
  {
    hide S.Comment;
  }

  lemma HeadLines(rule: S.Rule, slug: string)
    ensures S.RenderHead(rule, slug) ==
            [S.Comment(), Directed("rule", S.RuleId(rule, slug)),
             Directed("title", rule.title), Directed("severity", Severity(rule)), Directed("confidence", "80")]
  {
    assert "rule" + " " == "rule " && "title" + " " == "title " && "severity" + " " == "severity ";
    assert "confidence" + " " + "80" == "confidence 80";
  }

  /** The rest of the text: enabled, the conditions, the end. */
  lemma BodyIsRead(r: N.Rule, parts: seq<Part>)
    requires r.enabled
    ensures N.ParseLines(N.State(Some(r), []), ["enabled true", "when " + S.JoinAnd(Texts(parts)), "end"]) ==
            var c := N.ParseConditions(When(parts));
            if c.Some? then Some(N.State(None, [TitledRule(r.(conditions := c.value))])) else None
  {
    hide N.ParseLines, N.ParseLine, Trim, Lower, Word, ParseInt, N.ParseConditions, S.JoinAnd, Texts;
    var j := S.JoinAnd(Texts(parts));
    var l0, l1, l2 := Directed("enabled", "true"), Directed("when", j), "end";
    DirectedWords(j);
    assert ["enabled true", "when " + j, "end"] == [l0] + ([l1] + ([l2] + []));
    ConfidenceIs();
    DirectiveStep(r, "enabled", "true", [l1] + ([l2] + []));
    DirectiveStep(r, "when", j, [l2] + []);
    var c := N.ParseConditions(Trim(j));
    if c.Some? {
      var r' := r.(conditions := c.value);
      ConditionsAreNotEmpty(Trim(j));
      EndLine(r', []);
      ParseStep(N.State(Some(r'), []), l2, []);
      NoLines(N.State(None, [TitledRule(r')]));
      assert [] + [TitledRule(r')] == [TitledRule(r')];
    }
  }

  lemma ConditionsAreNotEmpty(s: string)
    requires N.ParseConditions(s).Some?
    ensures N.ParseConditions(s).value != []
  {
    hide N.SplitAnd, N.ParseAll;
    CountIs(s);
  }

  lemma DirectedWords(j: string)
    ensures "enabled true" == Directed("enabled", "true") && "when " + j == Directed("when", j)
  {
    assert "enabled" + " " + "true" == "enabled true";
    assert "when" + " " == "when ";
  }

  lemma NoLines(st: N.State)
    ensures N.ParseLines(st, []) == Some(st)
  {}

  lemma NoFeedConcat(a: string, b: string)
    requires NoFeed(a) && NoFeed(b)
    ensures NoFeed(a + b)
  {}

  lemma {:induction false} DroppedHasNoFeed(v: string)
    requires NoFeed(v)
    ensures NoFeed(S.DropQuotes(v))
    decreases |v|
  {
    if v != "" {
      DroppedHasNoFeed(v[1..]);
      NoFeedConcat(if v[0] == '"' then "" else [v[0]], S.DropQuotes(v[1..]));
    }
  }

  lemma PartHasNoFeed(p: Part)
    requires ValidHead(p.field, p.op) && NoFeed(p.value)
    ensures NoFeed(PartText(p))
  {
    hide S.DropQuotes, IsSpace;
    assert NoFeed(p.field) by {
      forall i | 0 <= i < |p.field| ensures p.field[i] != '\n' { FieldCharFacts(p.field[i]); }
    }
    DroppedHasNoFeed(p.value);
    assert NoFeed(S.Quote(p.value));
    NoFeedConcat(p.field + " ", p.op);
    NoFeedConcat(Head(p.field, p.op) + " ", S.Quote(p.value));
  }

  predicate CleanParts(parts: seq<Part>) { forall i :: 0 <= i < |parts| ==> NoFeed(parts[i].value) }

  lemma {:induction false} JoinHasNoFeed(parts: seq<Part>)
    requires ValidHeads(parts) && CleanParts(parts)
    ensures NoFeed(S.JoinAnd(Texts(parts)))
    decreases |parts|
  {
    hide PartText, ValidHead, NoFeed;
    if parts == [] {
      NothingFeeds();
    } else {
      HeadsOfTail(parts);
      PartHasNoFeed(parts[0]);
      if |parts| == 1 {
        JoinOfOne(parts);
      } else {
        JoinHasNoFeed(parts[1..]);
        JoinOfMore(parts);
        NothingFeeds();
        NoFeedConcat(PartText(parts[0]), " AND ");
        NoFeedConcat(PartText(parts[0]) + " AND ", S.JoinAnd(Texts(parts[1..])));
      }
    }
  }

  lemma NothingFeeds()
    ensures NoFeed("") && NoFeed(" AND ")
  {}

  lemma LowerHasNoFeed(s: string)
    requires NoFeed(s)
    ensures NoFeed(Lower(s))
  {}

  lemma LinesHaveNoFeed(rule: S.Rule, slug: string, keys: seq<string>)
    requires S.Renderable(rule, keys) && CleanRule(rule, slug, keys)
    ensures AllNoFeed(S.RenderLines(rule, slug, keys))
  {
    hide *;
    RenderableParts(rule, slug, keys);
    var sel := rule.detections[Trim(rule.condition)];
    HeadsAreValid(sel, keys);
    CleanPartsAre(sel, keys);
    RenderedAreTexts(sel, keys);
    var when := "when " + S.JoinAnd(Texts(Parts(sel, keys)));
    JoinHasNoFeed(Parts(sel, keys));
    PlainWords();
    NoFeedConcat("when ", S.JoinAnd(Texts(Parts(sel, keys))));
    HeadHasNoFeed(rule, slug);
    LinesAre(rule, slug, keys);
    ThreeLines("enabled true", when, "end");
    AllNoFeedConcat(S.RenderHead(rule, slug), ["enabled true", when, "end"]);
  }

  lemma CleanPartsAre(sel: S.Selection, keys: seq<string>)
    requires S.AllSimple(sel, keys) && CleanSelection(sel, keys)
    ensures CleanParts(Parts(sel, keys))
  {
    hide NoFeed, S.SplitModifier, S.NpdlField;
  }

  lemma RenderableParts(rule: S.Rule, slug: string, keys: seq<string>)
    requires S.Renderable(rule, keys) && CleanRule(rule, slug, keys)
    ensures Trim(rule.condition) in rule.detections && S.AllSimple(rule.detections[Trim(rule.condition)], keys)
    ensures CleanSelection(rule.detections[Trim(rule.condition)], keys)
    ensures NoFeed(S.RuleId(rule, slug)) && NoFeed(rule.title) && NoFeed(rule.level)
  {
    hide Trim, S.AllSimple, CleanSelection, NoFeed;
  }

  lemma LinesAre(rule: S.Rule, slug: string, keys: seq<string>)
    requires S.Renderable(rule, keys)
    ensures S.RenderLines(rule, slug, keys) ==
            S.RenderHead(rule, slug) +
            ["enabled true", "when " + S.JoinAnd(S.RenderConditions(rule.detections[Trim(rule.condition)], keys)), "end"]
  {
    hide Trim, S.AllSimple, S.RenderHead, S.JoinAnd, S.RenderConditions;
  }

  lemma PlainWords()
    ensures NoFeed("when ") && NoFeed("enabled true") && NoFeed("end")
  {}

  lemma ThreeLines(a: string, b: string, c: string)
    requires NoFeed(a) && NoFeed(b) && NoFeed(c)
    ensures AllNoFeed([a, b, c])
  {
    hide NoFeed;
  }

  lemma AllNoFeedConcat(a: seq<string>, b: seq<string>)
    requires AllNoFeed(a) && AllNoFeed(b)
    ensures AllNoFeed(a + b)
  {
    hide NoFeed;
  }

  lemma HeadHasNoFeed(rule: S.Rule, slug: string)
    requires NoFeed(S.RuleId(rule, slug)) && NoFeed(rule.title) && NoFeed(rule.level)
    ensures AllNoFeed(S.RenderHead(rule, slug))
  {
    hide Lower, NoFeed;
    CommentStart();
    HeadWords();
    LowerHasNoFeed(rule.level);
    NoFeedConcat("rule ", S.RuleId(rule, slug));
    NoFeedConcat("title ", rule.title);
    NoFeedConcat("severity ", Severity(rule));
  }

  lemma HeadWords()
    ensures NoFeed("rule ") && NoFeed("title ") && NoFeed("severity ") && NoFeed("confidence 80") && NoFeed("medium")
  {}

  /** The parts of the rule's selection. */
  function RuleParts(rule: S.Rule, keys: seq<string>): seq<Part>
    requires S.Renderable(rule, keys)
  {
    Parts(rule.detections[Trim(rule.condition)], keys)
  }

  /** What the engine makes of the text of any rule without line feeds: when every line fits the
      scanner's buffer, the id is one word and the condition line parses, one enabled rule with
      those conditions. */
  lemma TextIsRead(rule: S.Rule, slug: string, keys: seq<string>)
    requires S.Renderable(rule, keys) && CleanRule(rule, slug, keys)
    ensures var c := N.ParseConditions(When(RuleParts(rule, keys)));
            N.Parse(S.Render(rule, slug, keys)) ==
              if AllFit(S.RenderLines(rule, slug, keys)) && |Words(S.RuleId(rule, slug))| == 1 && c.Some?
              then Some([TitledRule(ReadRule(rule, slug).(conditions := c.value))]) else None
  {
    hide N.ParseLines, N.ScanLines, N.LinesFit, AllFit, S.RenderHead, HeadRule, TitledRule, N.ParseConditions, When,
      S.RenderConditions, S.JoinAnd, Texts, Trim, S.AllSimple, Parts, CleanSelection, Words, NoFeed;
    var sel := rule.detections[Trim(rule.condition)];
    var parts := Parts(sel, keys);
    var lines := S.RenderLines(rule, slug, keys);
    RenderedAreTexts(sel, keys);
    LinesHaveNoFeed(rule, slug, keys);
    JoinedLinesAreScanned(lines);
    ReturnsDoNotMatter(N.State(None, []), lines);
    HeadIsRead(rule, slug, ["enabled true", "when " + S.JoinAnd(Texts(parts)), "end"]);
    if |Words(S.RuleId(rule, slug))| == 1 {
      HeadEnabled(rule, slug);
      BodyIsRead(ReadRule(rule, slug), parts);
    }
  }

  /** The rule that was meant. */
  function MeantRule(rule: S.Rule, slug: string, keys: seq<string>): N.Rule
    requires S.Renderable(rule, keys)
  {
    TitledRule(HeadRule(rule, slug).(conditions := Wanted(RuleParts(rule, keys))))
  }

  /** Any id and any values: with a title and a level without line feeds, the engine reads the rendered
      text as the rule that was meant if and only if every line fits, the id is one word, no value
      holds a line feed, and every value is exact. */
  lemma TextReadsBackIff(rule: S.Rule, slug: string, keys: seq<string>)
    requires S.Renderable(rule, keys) && CleanHead(rule, slug)
    ensures N.Parse(S.Render(rule, slug, keys)) == Some([MeantRule(rule, slug, keys)]) <==>
            && AllFit(S.RenderLines(rule, slug, keys)) && Word(S.RuleId(rule, slug))
            && CleanRule(rule, slug, keys) && AllExact(RuleParts(rule, keys))
  {
    hide N.Parse, S.Render, S.RenderLines, AllFit, S.AllSimple, Trim, N.ParseConditions, When, Parts, Wanted, AllExact, HeadRule,
      TitledRule, CleanRule, CleanHead, Words, Word;
    var parts := RuleParts(rule, keys);
    var id := S.RuleId(rule, slug);
    WordIff(id);
    if CleanRule(rule, slug, keys) {
      TextIsRead(rule, slug, keys);
      HeadsAreValid(rule.detections[Trim(rule.condition)], keys);
      LineReadsBackIff(parts);
      var c := N.ParseConditions(When(parts));
      if c.Some? && |Words(id)| == 1 {
        TitledKeeps(HeadRule(rule, slug), Words(id)[0], S.RuleId(rule, slug), c.value, Wanted(parts));
        HeadIdIs(rule, slug);
      }
    } else {
      FeedIsNotRead(rule, slug, keys);
    }
  }

  lemma HeadIdIs(rule: S.Rule, slug: string)
    ensures HeadRule(rule, slug).(id := S.RuleId(rule, slug)) == HeadRule(rule, slug)
  {
    hide Trim, Lower;
  }

  lemma TitledKeeps(r: N.Rule, x: string, y: string, a: seq<N.Condition>, b: seq<N.Condition>)
    ensures TitledRule(r.(id := x, conditions := a)) == TitledRule(r.(id := y, conditions := b)) <==> x == y && a == b
    ensures TitledRule(r.(id := x, conditions := a)).conditions == a
  {}

  // ---- Line feeds -----------------------------------------------------------------------------------

  ghost predicate CleanConditions(cs: seq<N.Condition>) { forall i :: 0 <= i < |cs| ==> NoFeed(cs[i].value) }

  ghost predicate CleanState(st: N.State) {
    && (st.cur.Some? ==> CleanConditions(st.cur.value.conditions))
    && forall i :: 0 <= i < |st.out| ==> CleanConditions(st.out[i].conditions)
  }

  lemma NoFeedPart(s: string, i: nat, j: nat)
    requires NoFeed(s) && i <= j <= |s|
    ensures NoFeed(s[i..j])
  {}

  lemma {:induction false} TrimLeftNoFeed(s: string)
    requires NoFeed(s)
    ensures NoFeed(TrimLeft(s))
    decreases |s|
  {
    if s != "" && IsSpace(s[0]) { TrimLeftNoFeed(s[1..]); }
  }

  lemma {:induction false} TrimRightNoFeed(s: string)
    requires NoFeed(s)
    ensures NoFeed(TrimRight(s))
    decreases |s|
  {
    if s != "" && IsSpace(s[|s| - 1]) { TrimRightNoFeed(s[..|s| - 1]); }
  }

  lemma TrimNoFeed(s: string)
    requires NoFeed(s)
    ensures NoFeed(Trim(s))
  {
    TrimLeftNoFeed(s);
    TrimRightNoFeed(TrimLeft(s));
  }

  lemma {:induction false} UnquotedNoFeed(s: string)
    requires NoFeed(s)
    ensures NoFeed(N.TrimQuotes(s))
    decreases |s|
  {
    if s != "" && N.IsQuote(s[0]) {
      UnquotedNoFeed(s[1..]);
    } else if s != "" && N.IsQuote(s[|s| - 1]) {
      UnquotedNoFeed(s[..|s| - 1]);
    }
  }

  lemma ConditionNoFeed(s: string)
    requires NoFeed(s) && N.ParseCondition(s).Some?
    ensures NoFeed(N.ParseCondition(s).value.value)
  {
    hide NoFeed, Trim, N.TrimQuotes, N.FieldEnd, N.SpaceEnd, N.Operator, Lower;
    var at := N.SpaceEnd(s, N.FieldEnd(s, 0));
    var from := N.SpaceEnd(s, at + |N.Operator(s, at)|);
    NoFeedPart(s, from, |s|);
    assert s[from..|s|] == s[from..];
    TrimNoFeed(s[from..]);
    UnquotedNoFeed(Trim(s[from..]));
  }

  lemma {:induction false} SplitNoFeed(s: string)
    requires NoFeed(s)
    ensures AllNoFeed(N.SplitAnd(s))
    decreases |s|
  {
    hide NoFeed, N.SepAt, N.FindSep, N.SepEnd;
    var k := N.FindSep(s, 0);
    FirstSplit(s);
    if k < |s| {
      NoFeedPart(s, 0, k);
      assert s[0..k] == s[..k];
      NoFeedPart(s, N.SepEnd(s, k), |s|);
      assert s[N.SepEnd(s, k)..|s|] == s[N.SepEnd(s, k)..];
      SplitNoFeed(s[N.SepEnd(s, k)..]);
    }
  }

  lemma {:induction false} ParsedNoFeed(chunks: seq<string>)
    requires AllNoFeed(chunks) && N.ParseAll(chunks).Some?
    ensures CleanConditions(N.ParseAll(chunks).value)
    decreases |chunks|
  {
    hide NoFeed, Trim, N.ParseCondition;
    if chunks != [] {
      TrimNoFeed(chunks[0]);
      ConditionNoFeed(Trim(chunks[0]));
      ParsedNoFeed(chunks[1..]);
    }
  }

  lemma WhenNoFeed(val: string)
    requires NoFeed(val) && N.ParseConditions(val).Some?
    ensures CleanConditions(N.ParseConditions(val).value)
  {
    hide NoFeed, CleanConditions, N.ParseAll, N.SplitAnd;
    SplitNoFeed(val);
    ParsedNoFeed(N.SplitAnd(val));
  }

  lemma DirectiveNoFeed(r: N.Rule, key: string, val: string)
    requires NoFeed(val) && CleanConditions(r.conditions) && N.Directive(r, key, val).Some?
    ensures CleanConditions(N.Directive(r, key, val).value.conditions)
  {
    hide NoFeed, CleanConditions, N.ParseConditions, Lower, ParseInt, N.SplitComma, N.NonEmptyTrimmed;
    if key == "when" && N.ParseConditions(val).Some? { WhenNoFeed(val); }
  }

  lemma LineKeepsClean(st: N.State, line: string)
    requires CleanState(st) && NoFeed(line) && N.ParseLine(st, line).Some?
    ensures CleanState(N.ParseLine(st, line).value)
  {
    hide NoFeed, CleanConditions, Trim, Words, Lower, N.Directive;
    var raw := Trim(line);
    TrimNoFeed(line);
    NothingClean();
    var words := Words(raw);
    if words != [] && st.cur.Some? {
      var w := words[0];
      var val := if w <= raw then raw[|w|..] else raw;
      if w <= raw {
        NoFeedPart(raw, |w|, |raw|);
        assert raw[|w|..|raw|] == raw[|w|..];
      }
      TrimNoFeed(val);
      if N.Directive(st.cur.value, Lower(w), Trim(val)).Some? { DirectiveNoFeed(st.cur.value, Lower(w), Trim(val)); }
    }
  }

  lemma NothingClean()
    ensures CleanConditions([])
  {}

  lemma {:induction false} LinesKeepClean(st: N.State, lines: seq<string>)
    requires CleanState(st) && AllNoFeed(lines) && N.ParseLines(st, lines).Some?
    ensures CleanState(N.ParseLines(st, lines).value)
    decreases |lines|
  {
    hide NoFeed, CleanState, N.ParseLine;
    if lines != [] {
      LineKeepsClean(st, lines[0]);
      LinesKeepClean(N.ParseLine(st, lines[0]).value, lines[1..]);
    }
  }

  lemma {:induction false} NoFeedInFront(s: string)
    ensures IndexOf(s, "\n") < 0 ==> NoFeed(s)
    ensures IndexOf(s, "\n") >= 0 ==> NoFeed(s[..IndexOf(s, "\n")])
    decreases |s|
  {
    if s != "" {
      NoFeedInFront(s[1..]);
      assert "\n" <= s <==> s[0] == '\n';
      if s[0] == '\n' {
        assert s[..0] == "";
      } else if IndexOf(s[1..], "\n") < 0 {
        NoFeedCons(s[0], s[1..]);
        assert [s[0]] + s[1..] == s;
      } else {
        var i := IndexOf(s[1..], "\n");
        NoFeedCons(s[0], s[1..][..i]);
        assert [s[0]] + s[1..][..i] == s[..i + 1];
      }
    }
  }

  lemma NoFeedCons(c: char, s: string)
    requires c != '\n' && NoFeed(s)
    ensures NoFeed([c] + s)
  {}

  lemma DropReturnNoFeed(s: string)
    requires NoFeed(s)
    ensures NoFeed(N.DropReturn(s))
  {}

  lemma {:induction false} ScannedNoFeed(src: string)
    ensures AllNoFeed(N.ScanLines(src))
    decreases |src|
  {
    hide NoFeed, N.DropReturn, IndexOf;
    if src != "" {
      var i := IndexOf(src, "\n");
      NoFeedInFront(src);
      if i < 0 {
        DropReturnNoFeed(src);
      } else {
        DropReturnNoFeed(src[..i]);
        ScannedNoFeed(src[i + 1..]);
      }
    }
  }

  /** No value that the engine reads holds a line feed. */
  lemma ReadValuesHaveNoFeed(src: string)
    requires N.Parse(src).Some?
    ensures forall i :: 0 <= i < |N.Parse(src).value| ==> CleanConditions(N.Parse(src).value[i].conditions)
  {
    hide N.ParseLines, N.ScanLines, N.LinesFit, CleanConditions, AllNoFeed;
    ScannedNoFeed(src);
    LinesKeepClean(N.State(None, []), N.ScanLines(src));
  }

  lemma FeedIsNotRead(rule: S.Rule, slug: string, keys: seq<string>)
    requires S.Renderable(rule, keys) && CleanHead(rule, slug) && !CleanRule(rule, slug, keys)
    ensures N.Parse(S.Render(rule, slug, keys)) != Some([MeantRule(rule, slug, keys)])
  {
    hide N.Parse, S.Render, S.Renderable, HeadRule, CleanHead, CleanRule, NoFeed, Wanted, RuleParts, MeantRule;
    var src := S.Render(rule, slug, keys);
    if N.Parse(src) == Some([MeantRule(rule, slug, keys)]) {
      MeantIsClean(rule, slug, keys);
      var k := DirtyValue(rule, slug, keys);
      WantedAt(RuleParts(rule, keys), k);
    }
  }

  lemma MeantIsClean(rule: S.Rule, slug: string, keys: seq<string>)
    requires S.Renderable(rule, keys)
    requires N.Parse(S.Render(rule, slug, keys)) == Some([MeantRule(rule, slug, keys)])
    ensures CleanConditions(Wanted(RuleParts(rule, keys)))
  {
    hide N.Parse, S.Render, S.Renderable, NoFeed, Wanted, RuleParts, MeantRule, CleanConditions;
    var src := S.Render(rule, slug, keys);
    ReadValuesHaveNoFeed(src);
    assert CleanConditions(N.Parse(src).value[0].conditions);
    MeantConditions(rule, slug, keys);
  }

  lemma MeantConditions(rule: S.Rule, slug: string, keys: seq<string>)
    requires S.Renderable(rule, keys)
    ensures MeantRule(rule, slug, keys).conditions == Wanted(RuleParts(rule, keys))
  {
    hide HeadRule, Wanted, RuleParts, S.Renderable;
  }

  lemma DirtyValue(rule: S.Rule, slug: string, keys: seq<string>) returns (k: nat)
    requires S.Renderable(rule, keys) && CleanHead(rule, slug) && !CleanRule(rule, slug, keys)
    ensures k < |RuleParts(rule, keys)| && !NoFeed(RuleParts(rule, keys)[k].value)
  {
    hide CleanHead, NoFeed, PartOf, Trim, S.SplitModifier, S.NpdlField;
    var sel := rule.detections[Trim(rule.condition)];
    k :| 0 <= k < |keys| && !NoFeed(sel[keys[k]][0]);
    PartValue(keys[k], sel[keys[k]][0]);
  }

  lemma PartValue(raw: string, value: string)
    ensures PartOf(raw, value).value == value
  {
    hide S.SplitModifier, S.NpdlField;
  }

  // ---- Plain values -----------------------------------------------------------------------------------

  /** The values are exact, or plain. */
  ghost predicate Faithful(rule: S.Rule, keys: seq<string>)
    requires S.Renderable(rule, keys)
  {
    AllExact(RuleParts(rule, keys)) || PlainSelection(rule.detections[Trim(rule.condition)], keys)
  }

  /** Exact or plain values: conditions that are read at all are those that were meant. */
  lemma FaithfulConditions(rule: S.Rule, keys: seq<string>)
    requires S.Renderable(rule, keys) && Faithful(rule, keys)
    ensures var c := N.ParseConditions(When(RuleParts(rule, keys))); c.Some? ==> c.value == Wanted(RuleParts(rule, keys))
  {
    hide S.AllSimple, Trim, N.ParseConditions, Parts, Wanted, AllClear, ValidParts, PlainSelection, AllExact;
    var sel := rule.detections[Trim(rule.condition)];
    HeadsAreValid(sel, keys);
    LineReadsBackIff(RuleParts(rule, keys));
    if PlainSelection(sel, keys) {
      PartsAreValid(sel, keys);
      JoinIsLine(Parts(sel, keys));
      LineIsRead(Parts(sel, keys));
    }
  }

  lemma HeadEnabled(rule: S.Rule, slug: string)
    ensures HeadRule(rule, slug).enabled
  {}

  // ---- Matching ------------------------------------------------------------------------------------

  /** One event under the names both evaluators use for the fields that can be rendered. */
  predicate SameEvent(fields: map<string, string>, values: map<string, string>) {
    && S.FieldOf(fields, "process") == N.FieldValue(values, "process")
    && S.FieldOf(fields, "src") == N.FieldValue(values, "src_ip")
    && S.FieldOf(fields, "dst") == N.FieldValue(values, "dst_ip")
    && S.FieldOf(fields, "dport") == N.FieldValue(values, "dst_port")
    && S.FieldOf(fields, "proto") == N.FieldValue(values, "protocol")
    && S.FieldOf(fields, "rule") == N.FieldValue(values, "finding_rule")
  }

  predicate KeyMatches(sel: S.Selection, raw: string, values: map<string, string>, num: string -> Option<real>)
    requires raw in sel && S.Simple(sel, raw)
  {
    var p := PartOf(raw, sel[raw][0]);
    N.MatchCondition(N.Condition(p.field, p.op, p.value), N.FieldValue(values, p.field), num)
  }

  lemma FieldsAgree(base: string, fields: map<string, string>, values: map<string, string>)
    requires SameEvent(fields, values) && S.NpdlField(base) != ""
    ensures S.FieldOf(fields, S.EventField(base)) == N.FieldValue(values, S.NpdlField(base))
  {
    hide S.FieldOf, N.FieldValue, Lower;
  }

  /** One key: both evaluators decide alike, and Sigma's without an error. */
  lemma KeyAgrees(sel: S.Selection, raw: string, fields: map<string, string>, values: map<string, string>,
                  o: S.Oracle, num: string -> Option<real>)
    requires raw in sel && S.Simple(sel, raw) && SameEvent(fields, values)
    ensures var (base, modifier) := S.SplitModifier(raw);
            S.MatchAny(S.FieldOf(fields, S.EventField(base)), sel[raw], modifier, o) ==
            Some(KeyMatches(sel, raw, values, num))
  {
    hide S.FieldOf, N.FieldValue, Lower, S.SplitModifier, S.NpdlField, S.EventField, SameEvent, IndexOf;
    var (base, modifier) := S.SplitModifier(raw);
    FieldsAgree(base, fields, values);
    var actual := S.FieldOf(fields, S.EventField(base));
    LowerOfEmpty(sel[raw][0]);
    OneValue(actual, sel[raw], modifier, o);
  }

  lemma LowerOfEmpty(s: string)
    ensures Lower(s) == "" <==> s == ""
  {}

  lemma OneValue(actual: string, wants: seq<string>, modifier: string, o: S.Oracle)
    requires |wants| == 1 && (modifier == "" || modifier == "contains")
    ensures S.MatchAny(actual, wants, modifier, o) == S.MatchValue(actual, wants[0], modifier, o)
  {
    hide S.MatchValue;
    assert wants[1..] == [];
    MatchValueIsTotal(actual, wants[0], modifier, o);
  }

  lemma MatchValueIsTotal(actual: string, want: string, modifier: string, o: S.Oracle)
    requires modifier == "" || modifier == "contains"
    ensures S.MatchValue(actual, want, modifier, o).Some?
  {}

  predicate AllMatch(sel: S.Selection, keys: seq<string>, values: map<string, string>, num: string -> Option<real>)
    requires S.AllSimple(sel, keys)
  {
    forall i :: 0 <= i < |keys| ==> KeyMatches(sel, keys[i], values, num)
  }

  /** In whatever order Sigma visits the keys, it finds whether all of them match. */
  lemma {:induction false} SelectionAgrees(sel: S.Selection, keys: seq<string>, fields: map<string, string>,
                                           values: map<string, string>, o: S.Oracle, num: string -> Option<real>)
    requires S.AllSimple(sel, keys) && SameEvent(fields, values)
    ensures (forall k <- keys :: k in sel)
    ensures S.MatchSelection(sel, keys, fields, o) == Some(AllMatch(sel, keys, values, num))
    decreases |keys|
  {
    hide S.SplitModifier, S.MatchAny, KeyMatches, SameEvent, S.Simple;
    if keys != [] {
      KeyAgrees(sel, keys[0], fields, values, o, num);
      SelectionAgrees(sel, keys[1..], fields, values, o, num);
      forall i | 1 <= i < |keys| ensures keys[i] == keys[1..][i - 1] {}
    }
  }

  lemma {:induction false} WantedAt(parts: seq<Part>, i: nat)
    requires i < |parts|
    ensures |Wanted(parts)| == |parts|
    ensures Wanted(parts)[i] == N.Condition(parts[i].field, parts[i].op, parts[i].value)
    decreases |parts|
  {
    if |parts| > 1 { WantedAt(parts[1..], if i == 0 then 0 else i - 1); } else { assert Wanted(parts[1..]) == []; }
  }

  lemma WantedMatches(sel: S.Selection, keys: seq<string>, values: map<string, string>, num: string -> Option<real>)
    requires S.AllSimple(sel, keys) && keys != []
    ensures N.Matches(Wanted(Parts(sel, keys)), values, num) == AllMatch(sel, keys, values, num)
  {
    hide N.MatchCondition, N.FieldValue, S.Simple, PartOf, Wanted;
    WantedAt(Parts(sel, keys), 0);
    var ps := Parts(sel, keys);
    forall i | 0 <= i < |keys| ensures Wanted(ps)[i] == N.Condition(ps[i].field, ps[i].op, ps[i].value) {
      WantedAt(ps, i);
    }
  }

  /** Two enumerations of the same keys agree. */
  lemma OrderDoesNotMatter(sel: S.Selection, a: seq<string>, b: seq<string>, values: map<string, string>,
                           num: string -> Option<real>)
    requires S.AllSimple(sel, a) && S.Enumerates(a, sel) && S.Enumerates(b, sel)
    ensures S.AllSimple(sel, b) && AllMatch(sel, a, values, num) == AllMatch(sel, b, values, num)
  {
    hide KeyMatches, S.Simple;
    forall i | 0 <= i < |b| ensures b[i] in sel && b[i] in a && S.Simple(sel, b[i]) {}
    forall i | 0 <= i < |a| ensures a[i] in b {}
  }

  lemma {:induction false} MatchAllKeeps(detections: map<string, S.Selection>, names: seq<string>,
                                         orders: map<string, seq<string>>, fields: map<string, string>, o: S.Oracle, n: string)
    requires S.Visits(detections, names, orders) && n in names
    ensures var r := S.MatchAll(detections, names, orders, fields, o);
            r.Some? ==> n in r.value && Some(r.value[n]) == S.MatchSelection(detections[n], orders[n], fields, o)
    decreases |names|
  {
    hide S.MatchSelection;
    if names[0] != n {
      assert n in names[1..];
      MatchAllKeeps(detections, names[1..], orders, fields, o, n);
    } else if n in names[1..] {
      MatchAllKeeps(detections, names[1..], orders, fields, o, n);
    }
  }

  /** The outcome of matching, when there is one, is that of the selection the condition names. */
  lemma MatchIsSelection(rule: S.Rule, names: seq<string>, orders: map<string, seq<string>>, fields: map<string, string>, o: S.Oracle)
    requires S.Visits(rule.detections, names, orders) && Trim(rule.condition) in names
    ensures var n := Trim(rule.condition); var r := S.Match(rule, names, orders, fields, o);
            r.Some? ==> r == S.MatchSelection(rule.detections[n], orders[n], fields, o)
  {
    hide S.MatchSelection, S.MatchAll, Trim;
    MatchAllKeeps(rule.detections, names, orders, fields, o, Trim(rule.condition));
  }

  /** The keys are all those of the rule's selection, and the evaluator visits selections and keys in
      some order. */
  ghost predicate Evaluation(rule: S.Rule, keys: seq<string>, names: seq<string>, orders: map<string, seq<string>>) {
    var n := Trim(rule.condition);
    && n in rule.detections && S.Enumerates(keys, rule.detections[n])
    && S.Visits(rule.detections, names, orders) && n in names
    && n in orders && S.Enumerates(orders[n], rule.detections[n])
  }

  /** A rule that can be rendered and the conditions rendered for it decide every event alike, in
      any order of visiting selections and keys, whenever Sigma's evaluator gives no error. */
  lemma ConditionsMeanSelection(rule: S.Rule, keys: seq<string>, names: seq<string>, orders: map<string, seq<string>>,
                                fields: map<string, string>, values: map<string, string>, o: S.Oracle,
                                num: string -> Option<real>)
    requires S.Renderable(rule, keys) && SameEvent(fields, values)
    requires Evaluation(rule, keys, names, orders)
    ensures var r := S.Match(rule, names, orders, fields, o);
            r.Some? ==> r.value == N.Matches(Wanted(Parts(rule.detections[Trim(rule.condition)], keys)), values, num)
  {
    hide Wanted, Parts, SameEvent, S.AllSimple, N.Matches, AllMatch, S.MatchSelection, S.MatchAll, Trim;
    var n := Trim(rule.condition);
    var sel := rule.detections[n];
    MatchIsSelection(rule, names, orders, fields, o);
    OrderDoesNotMatter(sel, keys, orders[n], values, num);
    SelectionAgrees(sel, orders[n], fields, values, o, num);
    WantedMatches(sel, keys, values, num);
  }

  /** Rendering preserves meaning. For a rule that is rendered enabled, without line feeds, and with
      values that are exact - or plain, and then any text the engine accepts: it holds one enabled
      rule, and that matches an event exactly when Sigma's evaluator does, for every event on which
      that gives no error. */
  lemma RenderingPreservesMeaning(rule: S.Rule, slug: string, keys: seq<string>, parsed: seq<N.Rule>, names: seq<string>,
                                  orders: map<string, seq<string>>, fields: map<string, string>,
                                  values: map<string, string>, o: S.Oracle, num: string -> Option<real>)
    requires S.Renderable(rule, keys) && CleanRule(rule, slug, keys) && SameEvent(fields, values)
    requires Faithful(rule, keys)
    requires Evaluation(rule, keys, names, orders)
    requires N.Parse(S.Render(rule, slug, keys)) == Some(parsed)
    ensures |parsed| == 1 && parsed[0].enabled && Words(if rule.id == "" then slug else rule.id) == [parsed[0].id]
    ensures var r := S.Match(rule, names, orders, fields, o);
            r.Some? ==> r.value == N.Matches(parsed[0].conditions, values, num)
  {
    hide N.Parse, S.Render, S.RenderLines, AllFit, CleanRule, Faithful, Wanted, Parts, SameEvent, S.AllSimple,
      N.Matches, S.MatchAll, Trim, S.Match, N.ParseConditions, When, Words;
    TextIsRead(rule, slug, keys);
    FaithfulConditions(rule, keys);
    ConditionsMeanSelection(rule, keys, names, orders, fields, values, o, num);
    KeepsIdAndEnabled(rule, slug, Wanted(RuleParts(rule, keys)));
  }

  lemma KeepsIdAndEnabled(rule: S.Rule, slug: string, conditions: seq<N.Condition>)
    requires |Words(S.RuleId(rule, slug))| == 1
    ensures var r := TitledRule(ReadRule(rule, slug).(conditions := conditions));
            r.enabled && [r.id] == Words(S.RuleId(rule, slug)) && r.conditions == conditions
  {
    hide Trim, Lower;
  }
}
