/** The text for rules that cannot be rendered, and texts that line feeds add directives to. */
module SigmaReview {
  import opened Text
  import opened SigmaToNpdl
  import opened SigmaValues
  import opened SigmaMeaning
  import N = Npdl
  import S = Sigma

  // ---- The review text --------------------------------------------------------------------------

  predicate FieldWord(v: string) { v != "" && forall i :: 0 <= i < |v| ==> N.FieldChar(v[i]) }

  lemma FieldWordConcat(a: string, b: string)
    requires FieldWord(a) && FieldWord(b)
    ensures FieldWord(a + b)
  {
    hide N.FieldChar;
  }

  /** A value of field characters is exact as the last one. */
  lemma FieldWordIsExact(v: string)
    requires FieldWord(v)
    ensures Exact(v, true) && Trimmed(v)
  {
    hide N.FieldChar;
    forall i | 0 <= i < |v| ensures !IsSpace(v[i]) && !N.ReSpace(v[i]) && !N.IsQuote(v[i]) && v[i] != ' ' && v[i] != '\t' {
      FieldCharIsPlain(v[i]);
    }
    assert S.Quote(v) == v;
    TrimIsTrimmed(v);
    TrimQuotesOfPlain(v);
    var t := " " + v;
    assert t + "" == t;
    forall i | 0 <= i < |t| ensures !N.SepAt(t, i) { NoSepInWord(v, i); }
  }

  lemma FieldCharIsPlain(c: char)
    requires N.FieldChar(c)
    ensures !IsSpace(c) && !N.ReSpace(c) && !N.IsQuote(c) && c != ' ' && c != '\t' && c != '\n'
  {}

  lemma NoSepInWord(v: string, i: nat)
    requires v != "" && i <= |v| && forall k :: 0 <= k < |v| ==> !N.ReSpace(v[k])
    ensures !N.SepAt(" " + v, i)
  {
    var t := " " + v;
    hide N.SpaceEnd, N.ReSpace;
    if i == 0 {
      assert t[1] == v[0];
      BlankIsReSpace();
      OneBlank(t, 0);
      if 4 < |t| { assert t[4] == v[3]; }
    } else {
      assert t[i] == v[i - 1];
    }
  }

  lemma BlankIsReSpace()
    ensures N.ReSpace(' ')
  {}

  lemma ReviewWords()
    ensures FieldWord(S.REVIEW_VALUE) && ValidHead(S.REVIEW_FIELD, "=")
  {
    FieldWordConcat("__sigma_", "manual_");
    FieldWordConcat("__sigma_" + "manual_", "review__");
  }

  /** The condition of the review text. */
  function ReviewPart(): Part { Part(S.REVIEW_FIELD, "=", S.REVIEW_VALUE) }

  lemma ReviewCondition()
    ensures N.ParseConditions(Trim(PartText(ReviewPart()))) == Some([N.Condition(S.REVIEW_FIELD, "=", S.REVIEW_VALUE)])
  {
    hide N.ParseConditions, Exact, ValidHead, FieldWord, Trim, PartText, S.JoinAnd, Texts, S.REVIEW_VALUE;
    var p := ReviewPart();
    ReviewWords();
    FieldWordIsExact(S.REVIEW_VALUE);
    LastIsRead(p);
    OneWanted(p);
    JoinOfOne([p]);
    assert When([p]) == Trim(S.JoinAnd(Texts([p])));
  }

  lemma ReviewText()
    ensures S.REVIEW_FIELD + " = " + S.REVIEW_VALUE == PartText(ReviewPart())
  {
    hide FieldWord, S.REVIEW_VALUE, S.REVIEW_FIELD;
    ReviewWords();
    NoBlankIn(S.REVIEW_VALUE);
    assert S.Quote(S.REVIEW_VALUE) == S.REVIEW_VALUE;
    Spaced(S.REVIEW_FIELD, S.REVIEW_VALUE);
  }

  lemma Spaced(f: string, v: string)
    ensures f + " = " + v == f + " " + "=" + " " + v
  {}

  lemma NoBlankIn(v: string)
    requires FieldWord(v)
    ensures ' ' !in v && '\t' !in v
  {
    hide N.FieldChar;
    forall i | 0 <= i < |v| ensures v[i] != ' ' && v[i] != '\t' { FieldCharIsPlain(v[i]); }
  }

  lemma ReviewLinesAre()
    ensures S.ReviewLines() ==
            [S.ReviewComment()] + ([Directed("enabled", "false")] + ([Directed("when", PartText(ReviewPart()))] + (["end"] + [])))
  {
    hide PartText, S.ReviewComment, S.REVIEW_VALUE, S.REVIEW_FIELD;
    ReviewText();
    assert "enabled" + " " + "false" == "enabled false" && "when" + " " == "when ";
  }

  lemma ReviewHasNoFeed()
    ensures AllNoFeed(S.ReviewLines())
  {
    hide PartText, S.ReviewComment, S.REVIEW_VALUE, S.REVIEW_FIELD, FieldWord;
    ReviewText();
    ReviewWords();
    assert NoFeed("enabled false") && NoFeed("end") && NoFeed("when ") && NoFeed(S.ReviewComment());
    WordHasNoFeed(S.REVIEW_VALUE);
    PartHasNoFeed(ReviewPart());
    NoFeedConcat("when ", PartText(ReviewPart()));
  }

  lemma WordHasNoFeed(v: string)
    requires FieldWord(v)
    ensures NoFeed(v)
  {
    hide N.FieldChar;
    forall i | 0 <= i < |v| ensures v[i] != '\n' { FieldCharIsPlain(v[i]); }
  }

  function ReviewRule(r: N.Rule): N.Rule {
    TitledRule(r.(enabled := false, conditions := [N.Condition(S.REVIEW_FIELD, "=", S.REVIEW_VALUE)]))
  }

  lemma DisabledIs()
    ensures Trim("false") == "false" && Lower("false") == "false"
  {
    TrimIsTrimmed("false");
    LowerIsSame("false");
  }

  lemma ReviewBody(r: N.Rule)
    ensures N.ParseLines(N.State(Some(r), []), S.ReviewLines()) == Some(N.State(None, [ReviewRule(r)]))
  {
    hide N.ParseLines, N.ParseLine, N.ParseConditions, Trim, Lower, PartText, S.ReviewLines, S.ReviewComment, ParseInt, TitledRule,
      S.REVIEW_VALUE;
    var comment, l1, l2 := S.ReviewComment(), Directed("enabled", "false"), Directed("when", PartText(ReviewPart()));
    ReviewLinesAre();
    CommentLine(N.State(Some(r), []), comment);
    ParseStep(N.State(Some(r), []), comment, [l1] + ([l2] + (["end"] + [])));
    DisabledIs();
    DirectiveStep(r, "enabled", "false", [l2] + (["end"] + []));
    var r1 := r.(enabled := false);
    DirectiveStep(r1, "when", PartText(ReviewPart()), ["end"] + []);
    ReviewCondition();
    var r2 := r1.(conditions := [N.Condition(S.REVIEW_FIELD, "=", S.REVIEW_VALUE)]);
    EndLine(r2, []);
    ParseStep(N.State(Some(r2), []), "end", []);
    TitledIs(r2);
    NoLines(N.State(None, [TitledRule(r2)]));
    assert [] + [TitledRule(r2)] == [TitledRule(r2)];
  }

  lemma TitledIs(r: N.Rule)
    ensures TitledRule(r) == if r.title == "" then r.(title := r.id) else r
  {}

  lemma ReviewRenders(rule: S.Rule, slug: string, keys: seq<string>)
    requires !S.Renderable(rule, keys)
    ensures S.RenderLines(rule, slug, keys) == S.RenderHead(rule, slug) + S.ReviewLines()
  {
    hide S.RenderHead, S.ReviewLines, S.Renderable;
  }

  /** A rule that cannot be rendered: the engine reads its text as one disabled rule, if every line fits
      and the id is one word, and refuses the text otherwise. */
  lemma ReviewIsRead(rule: S.Rule, slug: string, keys: seq<string>)
    requires !S.Renderable(rule, keys) && CleanHead(rule, slug)
    ensures N.Parse(S.Render(rule, slug, keys)) ==
            if AllFit(S.RenderLines(rule, slug, keys)) && |Words(S.RuleId(rule, slug))| == 1
            then Some([ReviewRule(ReadRule(rule, slug))]) else None
  {
    hide N.ParseLines, N.ScanLines, N.LinesFit, AllFit, S.RenderHead, S.ReviewLines, S.Renderable, S.RenderLines, Words, NoFeed,
      ReviewRule, HeadRule, S.JoinLines;
    var lines := S.RenderLines(rule, slug, keys);
    ReviewRenders(rule, slug, keys);
    HeadHasNoFeed(rule, slug);
    ReviewHasNoFeed();
    AllNoFeedConcat(S.RenderHead(rule, slug), S.ReviewLines());
    JoinedLinesAreScanned(lines);
    ReturnsDoNotMatter(N.State(None, []), lines);
    HeadIsRead(rule, slug, S.ReviewLines());
    if |Words(S.RuleId(rule, slug))| == 1 { ReviewBody(ReadRule(rule, slug)); }
  }

  /** So whatever the engine reads from it never fires. */
  lemma ReviewNeverFires(rule: S.Rule, slug: string, keys: seq<string>, values: map<string, string>, num: string -> Option<real>)
    requires !S.Renderable(rule, keys) && CleanHead(rule, slug) && N.Parse(S.Render(rule, slug, keys)).Some?
    ensures forall r <- N.Parse(S.Render(rule, slug, keys)).value :: !N.Fires(r, values, num)
  {
    hide N.Parse, S.Render, S.RenderLines, S.Renderable, CleanHead, Words, AllFit, HeadRule, N.Matches, S.REVIEW_VALUE;
    ReviewIsRead(rule, slug, keys);
  }

  // ---- Line feeds add lines --------------------------------------------------------------------------

  lemma {:induction false} JoinInjected(pre: seq<string>, a: string, b: string, post: seq<string>)
    ensures S.JoinLines(pre + ([a + "\n" + b] + post)) == S.JoinLines(pre + ([a] + ([b] + post)))
    decreases |pre|
  {
    if pre == [] {
      var one := [a + "\n" + b] + post;
      var two := [a] + ([b] + post);
      assert pre + one == one && pre + two == two;
      assert one[1..] == post && two[1..] == [b] + post && ([b] + post)[1..] == post;
      assert a + "\n" + b + "\n" + S.JoinLines(post) == a + "\n" + (b + "\n" + S.JoinLines(post));
    } else {
      JoinInjected(pre[1..], a, b, post);
      assert (pre + ([a + "\n" + b] + post))[1..] == pre[1..] + ([a + "\n" + b] + post);
      assert (pre + ([a] + ([b] + post)))[1..] == pre[1..] + ([a] + ([b] + post));
    }
  }

  /** The lines of a text that is its lines joined. */
  lemma ParseOfLines(lines: seq<string>)
    requires AllNoFeed(lines)
    ensures N.Parse(S.JoinLines(lines)) ==
            var st := N.ParseLines(N.State(None, []), lines);
            if AllFit(lines) && st.Some? && st.value.cur.None? then Some(st.value.out) else None
  {
    hide N.ParseLines, N.ScanLines, N.LinesFit, AllFit, AllNoFeed, S.JoinLines;
    JoinedLinesAreScanned(lines);
    ReturnsDoNotMatter(N.State(None, []), lines);
  }

  lemma MitreIsWord()
    ensures Word("mitre") && Lower("mitre") == "mitre"
  {
    LowerIsSame("mitre");
  }

  function Techniques(code: string): seq<string> { N.NonEmptyTrimmed(N.SplitComma(Trim(code))) }

  lemma MitreStep(r: N.Rule, code: string, rest: seq<string>)
    ensures N.ParseLines(N.State(Some(r), []), [Directed("mitre", code)] + rest) ==
            N.ParseLines(N.State(Some(r.(mitre := r.mitre + Techniques(code))), []), rest)
  {
    hide N.ParseLines, N.ParseLine, Trim, Lower, Word, Directed, N.NonEmptyTrimmed, N.SplitComma;
    MitreIsWord();
    DirectiveLine(r, [], "mitre", code);
    ParseStep(N.State(Some(r), []), Directed("mitre", code), rest);
  }

  /** The lines the engine sees when a title holds a line feed with a directive behind it. */
  function TitleLines(rule: S.Rule, slug: string, keys: seq<string>, t: string, code: string): seq<string>
    requires S.Renderable(rule, keys)
  {
    [S.Comment()] + ([Directed("rule", S.RuleId(rule, slug))] + ([Directed("title", t)] + ([Directed("mitre", code)]
      + ([Directed("severity", Severity(rule))] + ([Directed("confidence", "80")] + Body(RuleParts(rule, keys)))))))
  }

  function Body(parts: seq<Part>): seq<string> { ["enabled true", "when " + S.JoinAnd(Texts(parts)), "end"] }

  lemma TitleText(rule: S.Rule, slug: string, keys: seq<string>, t: string, code: string)
    requires S.Renderable(rule, keys) && rule.title == t + "\n" + Directed("mitre", code)
    ensures S.Render(rule, slug, keys) == S.JoinLines(TitleLines(rule, slug, keys, t, code))
  {
    hide S.JoinLines, Directed, Severity, S.RenderConditions, S.Comment, Texts, S.JoinAnd, S.Renderable, S.RenderHead, Body;
    var id, sev := Directed("rule", S.RuleId(rule, slug)), Directed("severity", Severity(rule));
    var m, body := Directed("mitre", code), Body(RuleParts(rule, keys));
    var post := [sev] + ([Directed("confidence", "80")] + body);
    HeadLines(rule, slug);
    BodyIs(rule, keys);
    LinesAre(rule, slug, keys);
    TitleFeed(t, m);
    JoinInjected([S.Comment(), id], Directed("title", t), m, post);
    var l := Directed("title", rule.title);
    FiveLines(S.Comment(), id, l, sev, Directed("confidence", "80"), body);
    assert [S.Comment(), id] + ([l] + post) == [S.Comment()] + ([id] + ([l] + post));
    assert [S.Comment(), id] + ([Directed("title", t)] + ([m] + post)) ==
           [S.Comment()] + ([id] + ([Directed("title", t)] + ([m] + post)));
  }

  lemma BodyIs(rule: S.Rule, keys: seq<string>)
    requires S.Renderable(rule, keys)
    ensures Body(RuleParts(rule, keys)) ==
            ["enabled true", "when " + S.JoinAnd(S.RenderConditions(rule.detections[Trim(rule.condition)], keys)), "end"]
  {
    hide S.RenderConditions, S.JoinAnd, Texts, Trim, Parts;
    RenderedAreTexts(rule.detections[Trim(rule.condition)], keys);
  }

  lemma TitleFeed(t: string, m: string)
    ensures Directed("title", t + "\n" + m) == Directed("title", t) + "\n" + m
  {}

  /** A line feed in a title adds the directive behind it: the rule is read with techniques it does not
      have, for every title of this shape. */
  lemma TitleInjects(rule: S.Rule, slug: string, keys: seq<string>, t: string, code: string)
    requires S.Renderable(rule, keys) && rule.title == t + "\n" + Directed("mitre", code)
    requires CleanRule(rule.(title := t), slug, keys) && NoFeed(code) && |Words(S.RuleId(rule, slug))| == 1
    requires AllFit(TitleLines(rule, slug, keys, t, code)) && AllExact(RuleParts(rule, keys))
    ensures N.Parse(S.Render(rule, slug, keys)) ==
            Some([TitledRule(ReadRule(rule.(title := t), slug).(mitre := Techniques(code), conditions := Wanted(RuleParts(rule, keys))))])
  {
    hide *;
    var lines := TitleLines(rule, slug, keys, t, code);
    TitleDoesNotMatter(rule, slug, keys, t);
    TitleText(rule, slug, keys, t, code);
    TitleLinesClean(rule, slug, keys, t, code);
    ParseOfLines(lines);
    TitleIsRead(rule, slug, keys, t, code);
    TitleOut(ReadRule(rule.(title := t), slug), Techniques(code), Wanted(RuleParts(rule, keys)));
  }

  lemma TitleOut(r: N.Rule, mitre: seq<string>, cs: seq<N.Condition>)
    ensures r.(mitre := mitre).(conditions := cs) == r.(mitre := mitre, conditions := cs)
    ensures var st := N.State(None, [TitledRule(r.(mitre := mitre, conditions := cs))]);
            st.cur.None? && st.out == [TitledRule(r.(mitre := mitre, conditions := cs))]
  {}

  lemma TitleLinesClean(rule: S.Rule, slug: string, keys: seq<string>, t: string, code: string)
    requires S.Renderable(rule, keys) && CleanRule(rule.(title := t), slug, keys) && NoFeed(code)
    ensures AllNoFeed(TitleLines(rule, slug, keys, t, code))
  {
    hide NoFeed, S.Comment, S.RenderHead, Body, Directed, Severity, S.RenderLines, S.Renderable, CleanRule;
    var u := rule.(title := t);
    TitleDoesNotMatter(rule, slug, keys, t);
    LinesHaveNoFeed(u, slug, keys);
    LinesAre(u, slug, keys);
    HeadLines(u, slug);
    BodyIs(u, keys);
    MitreNoFeed(code);
    var body := Body(RuleParts(rule, keys));
    var l0, l1, l2, l3, l4 := S.Comment(), Directed("rule", S.RuleId(rule, slug)), Directed("title", t),
      Directed("severity", Severity(rule)), Directed("confidence", "80");
    assert S.RenderLines(u, slug, keys) == [l0, l1, l2, l3, l4] + body;
    FiveClean(l0, l1, l2, l3, l4, Directed("mitre", code), body);
  }

  lemma TitleDoesNotMatter(rule: S.Rule, slug: string, keys: seq<string>, t: string)
    requires S.Renderable(rule, keys)
    ensures var u := rule.(title := t);
            && S.Renderable(u, keys) && S.RuleId(u, slug) == S.RuleId(rule, slug) && Severity(u) == Severity(rule)
            && RuleParts(u, keys) == RuleParts(rule, keys)
  {
    hide Trim, S.AllSimple, Parts, Lower;
  }

  lemma MitreNoFeed(code: string)
    requires NoFeed(code)
    ensures NoFeed(Directed("mitre", code))
  {
    NoFeedConcat("mitre ", code);
    assert "mitre" + " " == "mitre ";
  }

  lemma FiveClean(a: string, b: string, c: string, d: string, e: string, m: string, body: seq<string>)
    requires AllNoFeed([a, b, c, d, e] + body) && NoFeed(m)
    ensures AllNoFeed([a] + ([b] + ([c] + ([m] + ([d] + ([e] + body))))))
  {
    hide NoFeed;
    var all := [a, b, c, d, e] + body;
    assert all[0] == a && all[1] == b && all[2] == c && all[3] == d && all[4] == e;
    assert AllNoFeed(body) by { forall i | 0 <= i < |body| ensures NoFeed(body[i]) { assert all[i + 5] == body[i]; } }
    var out := [a] + ([b] + ([c] + ([m] + ([d] + ([e] + body)))));
    assert out == [a, b, c, m, d, e] + body;
    AllNoFeedConcat([a, b, c, m, d, e], body);
  }

  lemma TitleIsRead(rule: S.Rule, slug: string, keys: seq<string>, t: string, code: string)
    requires S.Renderable(rule, keys) && |Words(S.RuleId(rule, slug))| == 1 && AllExact(RuleParts(rule, keys))
    ensures N.ParseLines(N.State(None, []), TitleLines(rule, slug, keys, t, code)) ==
            Some(N.State(None, [TitledRule(ReadRule(rule.(title := t), slug).(mitre := Techniques(code)).(conditions := Wanted(RuleParts(rule, keys))))]))
  {
    hide N.ParseLines, Trim, Lower, Words, S.Renderable, Directed, Severity, ParseInt, RuleParts, N.ParseConditions, AllExact, When,
      S.Comment, Wanted, TitledRule, Techniques, Body, S.JoinAnd, Texts;
    var parts := RuleParts(rule, keys);
    var body := Body(parts);
    var id := Words(S.RuleId(rule, slug))[0];
    var l3, l4 := Directed("severity", Severity(rule)), Directed("confidence", "80");
    var r0 := N.Rule(id, "", "medium", 70, [], [], true);
    var r1 := r0.(title := Trim(t));
    var r2 := r1.(mitre := [] + Techniques(code));
    var r3 := r2.(severity := Lower(Trim(Severity(rule))));
    CommentStart();
    OpeningIsRead(S.RuleId(rule, slug), S.Comment(),
                  [Directed("title", t)] + ([Directed("mitre", code)] + ([l3] + ([l4] + body))));
    DirectiveStep(r0, "title", t, [Directed("mitre", code)] + ([l3] + ([l4] + body)));
    MitreStep(r1, code, [l3] + ([l4] + body));
    ConfidenceIs();
    DirectiveStep(r2, "severity", Severity(rule), [l4] + body);
    DirectiveStep(r3, "confidence", "80", body);
    var r4 := r3.(confidence := 80);
    RuleLineReads(rule, keys);
    BodyReads(r4, parts);
    ReadParts(rule, slug, t, Techniques(code));
  }

  lemma RuleLineReads(rule: S.Rule, keys: seq<string>)
    requires S.Renderable(rule, keys) && AllExact(RuleParts(rule, keys))
    ensures N.ParseConditions(When(RuleParts(rule, keys))) == Some(Wanted(RuleParts(rule, keys)))
  {
    hide N.ParseConditions, When, Wanted, AllExact, Parts, S.AllSimple, Trim;
    HeadsAreValid(rule.detections[Trim(rule.condition)], keys);
    LineReadsBackIff(RuleParts(rule, keys));
  }

  lemma BodyReads(r: N.Rule, parts: seq<Part>)
    requires r.enabled
    ensures N.ParseLines(N.State(Some(r), []), Body(parts)) ==
            var c := N.ParseConditions(When(parts));
            if c.Some? then Some(N.State(None, [TitledRule(r.(conditions := c.value))])) else None
  {
    hide N.ParseLines, N.ParseConditions, When, TitledRule, S.JoinAnd, Texts;
    BodyIsRead(r, parts);
  }

  lemma ReadParts(rule: S.Rule, slug: string, t: string, mitre: seq<string>)
    requires |Words(S.RuleId(rule, slug))| == 1
    ensures ReadRule(rule.(title := t), slug).(mitre := mitre) ==
            N.Rule(Words(S.RuleId(rule, slug))[0], Trim(t), Lower(Trim(Severity(rule))), 80, [] + mitre, [], true)
  {
    hide Words, Trim, Lower;
    assert [] + mitre == mitre;
  }

  // ---- Line feeds in a value ---------------------------------------------------------------------------

  /** A value with a line feed and a directive behind it. */
  function FeedValue(a: string, code: string): string { a + ("\n" + Directed("mitre", code)) }

  lemma FeedText(p: Part, a: string, code: string)
    requires p.value == FeedValue(a, code) && Bare(a) && '"' !in code
    ensures PartText(p) == Head(p.field, p.op) + (" " + ("\"" + a)) + "\n" + Directed("mitre", code + "\"")
  {
    hide Head, S.DropQuotes;
    var v := p.value;
    var m := Directed("mitre", code);
    assert v[|a| + 6] == ' ' by { assert m[5] == ' '; assert v[|a| + 1 + 5] == m[5]; }
    forall i | 0 <= i < |v| ensures v[i] != '"' {
      if i < |a| { assert v[i] == a[i]; } else if i > |a| { assert v[i] == m[i - |a| - 1]; MitreHasNoQuote(code, i - |a| - 1); }
    }
    QuotedIs(v);
    assert "\"" + v + "\"" == "\"" + a + "\n" + Directed("mitre", code + "\"");
  }

  lemma MitreHasNoQuote(code: string, i: nat)
    requires '"' !in code && i < |Directed("mitre", code)|
    ensures Directed("mitre", code)[i] != '"'
  {
    var m := Directed("mitre", code);
    if i >= 6 { assert m[i] == code[i - 6] && code[i - 6] in code; }
  }

  /** The lines the engine sees for a rule with one such value. */
  function ValueBody(p: Part, a: string, code: string): seq<string> {
    ["enabled true"] + (["when " + (Head(p.field, p.op) + (" " + ("\"" + a)))] + ([Directed("mitre", code + "\"")] + ["end"]))
  }

  lemma ValueText(rule: S.Rule, slug: string, keys: seq<string>, a: string, code: string)
    requires S.Renderable(rule, keys) && |keys| == 1 && Bare(a) && '"' !in code
    requires RuleParts(rule, keys)[0].value == FeedValue(a, code)
    ensures S.Render(rule, slug, keys) == S.JoinLines(S.RenderHead(rule, slug) + ValueBody(RuleParts(rule, keys)[0], a, code))
  {
    hide *;
    var parts := RuleParts(rule, keys);
    OnePart(rule, keys);
    var p := parts[0];
    LinesAre(rule, slug, keys);
    BodyIs(rule, keys);
    BodyParts(parts);
    JoinOfOne(parts);
    FeedText(p, a, code);
    RenderIs(rule, slug, keys);
    SplitWhen(S.RenderHead(rule, slug), Head(p.field, p.op) + (" " + ("\"" + a)), Directed("mitre", code + "\""));
    ValueBodyIs(p, a, code);
  }

  lemma RenderIs(rule: S.Rule, slug: string, keys: seq<string>)
    ensures S.Render(rule, slug, keys) == S.JoinLines(S.RenderLines(rule, slug, keys))
  {
    hide S.JoinLines, S.RenderLines;
  }

  lemma BodyParts(parts: seq<Part>)
    ensures Body(parts) == ["enabled true", "when " + S.JoinAnd(Texts(parts)), "end"]
  {
    hide S.JoinAnd, Texts;
  }

  lemma ValueBodyIs(p: Part, a: string, code: string)
    ensures ValueBody(p, a, code) ==
            ["enabled true"] + (["when " + (Head(p.field, p.op) + (" " + ("\"" + a)))] + ([Directed("mitre", code + "\"")] + ["end"]))
  {
    hide Head, Directed;
  }

  /** The condition line, cut at its line feed. */
  lemma SplitWhen(head: seq<string>, x: string, m: string)
    ensures S.JoinLines(head + ["enabled true", "when " + (x + "\n" + m), "end"]) ==
            S.JoinLines(head + (["enabled true"] + (["when " + x] + ([m] + ["end"]))))
  {
    hide S.JoinLines;
    var pre, w := head + ["enabled true"], "when " + x + "\n" + m;
    assert "when " + (x + "\n" + m) == w;
    JoinInjected(pre, "when " + x, m, ["end"]);
    assert head + ["enabled true", w, "end"] == pre + ([w] + ["end"]);
    assert pre + (["when " + x] + ([m] + ["end"])) == head + (["enabled true"] + (["when " + x] + ([m] + ["end"])));
  }

  lemma OnePart(rule: S.Rule, keys: seq<string>)
    requires S.Renderable(rule, keys)
    ensures |RuleParts(rule, keys)| == |keys| && ValidHeads(RuleParts(rule, keys))
  {
    hide Trim, S.AllSimple;
    HeadsAreValid(rule.detections[Trim(rule.condition)], keys);
  }

  lemma FrontAlone(p: Part, a: string)
    requires ValidHead(p.field, p.op) && Bare(a)
    ensures var x := Head(p.field, p.op) + (" " + ("\"" + a));
            Trim(x) == x && N.ParseConditions(x) == Some([N.Condition(p.field, p.op, a)])
  {
    hide N.ParseCondition, TrimRight, Trim, N.FindSep, Head, ValidHead, N.SplitAnd, Bare;
    var x := Head(p.field, p.op) + (" " + ("\"" + a));
    FrontChunk(p, a, "");
    assert x + "" == x;
    FirstSplit(x);
    OnlyChunk(x);
    BareEnds(a);
    TrimChunk(p.field, p.op, "\"" + a);
    NotNothing(a);
  }

  lemma NotNothing(a: string)
    ensures "\"" + a != ""
  {}

  lemma {:induction false} ValueBodyReads(r: N.Rule, p: Part, a: string, code: string)
    requires r.enabled && ValidHead(p.field, p.op) && Bare(a)
    ensures N.ParseLines(N.State(Some(r), []), ValueBody(p, a, code)) ==
            Some(N.State(None, [TitledRule(r.(conditions := [N.Condition(p.field, p.op, a)], mitre := r.mitre + Techniques(code + "\"")))]))
  {
    hide N.ParseLines, N.ParseLine, Trim, Lower, ParseInt, N.ParseConditions, Head, ValidHead, Bare, TitledRule, Techniques;
    var x, m := Head(p.field, p.op) + (" " + ("\"" + a)), Directed("mitre", code + "\"");
    DirectedWords(x);
    ConfidenceIs();
    DirectiveStep(r, "enabled", "true", [Directed("when", x)] + ([m] + ["end"]));
    FrontAlone(p, a);
    DirectiveStep(r, "when", x, [m] + ["end"]);
    var r1 := r.(conditions := [N.Condition(p.field, p.op, a)]);
    MitreStep(r1, code + "\"", ["end"]);
    var r2 := r1.(mitre := r1.mitre + Techniques(code + "\""));
    assert ["end"] == ["end"] + [];
    EndLine(r2, []);
    TitledIs(r2);
    ParseStep(N.State(Some(r2), []), "end", []);
    NoLines(N.State(None, [TitledRule(r2)]));
    assert [] + [TitledRule(r2)] == [TitledRule(r2)];
  }

  lemma ValueBodyClean(p: Part, a: string, code: string)
    requires ValidHead(p.field, p.op) && Bare(a) && NoFeed(code)
    ensures AllNoFeed(ValueBody(p, a, code))
  {
    hide NoFeed, Head, ValidHead;
    var x := Head(p.field, p.op) + (" " + ("\"" + a));
    BareNoFeed(p, a);
    QuoteNoFeed(code);
    MitreNoFeed(code + "\"");
    PlainWords();
    NoFeedConcat("when ", x);
  }

  lemma QuoteNoFeed(code: string)
    requires NoFeed(code)
    ensures NoFeed(code + "\"")
  {
    NoFeedConcat(code, "\"");
  }

  lemma BareNoFeed(p: Part, a: string)
    requires ValidHead(p.field, p.op) && Bare(a)
    ensures NoFeed(Head(p.field, p.op) + (" " + ("\"" + a)))
  {
    hide N.FieldChar;
    assert NoFeed(p.field) by {
      forall i | 0 <= i < |p.field| ensures p.field[i] != '\n' { FieldCharIsPlain(p.field[i]); }
    }
    assert NoFeed(a) by { forall i | 0 <= i < |a| ensures a[i] != '\n' { assert !IsSpace(a[i]); } }
    NoFeedConcat(p.field + " ", p.op);
    NoFeedConcat(" \"", a);
    assert " " + ("\"" + a) == " \"" + a;
    NoFeedConcat(Head(p.field, p.op), " " + ("\"" + a));
  }

  /** A line feed in a value does the same: the value ends at it, and the rule has techniques added. */
  lemma ValueInjects(rule: S.Rule, slug: string, keys: seq<string>, a: string, code: string)
    requires S.Renderable(rule, keys) && |keys| == 1 && Bare(a) && '"' !in code && NoFeed(code)
    requires RuleParts(rule, keys)[0].value == FeedValue(a, code)
    requires CleanHead(rule, slug) && |Words(S.RuleId(rule, slug))| == 1
    requires AllFit(S.RenderHead(rule, slug) + ValueBody(RuleParts(rule, keys)[0], a, code))
    ensures var p := RuleParts(rule, keys)[0];
            N.Parse(S.Render(rule, slug, keys)) ==
            Some([TitledRule(ReadRule(rule, slug).(conditions := [N.Condition(p.field, p.op, a)],
                                                   mitre := [] + Techniques(code + "\"")))])
  {
    hide N.ParseLines, S.RenderHead, S.Renderable, S.Render, S.JoinLines, NoFeed, AllFit, ValueBody, TitledRule, HeadRule, Words,
      RuleParts, FeedValue, Bare, ValidHead, Techniques;
    OnePart(rule, keys);
    var p := RuleParts(rule, keys)[0];
    ValueText(rule, slug, keys, a, code);
    HeadHasNoFeed(rule, slug);
    ValueBodyClean(p, a, code);
    var lines := S.RenderHead(rule, slug) + ValueBody(p, a, code);
    AllNoFeedConcat(S.RenderHead(rule, slug), ValueBody(p, a, code));
    ParseOfLines(lines);
    HeadIsRead(rule, slug, ValueBody(p, a, code));
    ReadRuleIs(rule, slug);
    ValueBodyReads(ReadRule(rule, slug), p, a, code);
  }

  lemma ReadRuleIs(rule: S.Rule, slug: string)
    requires |Words(S.RuleId(rule, slug))| == 1
    ensures ReadRule(rule, slug).enabled && ReadRule(rule, slug).mitre == []
  {
    hide Words, Trim, Lower;
  }
}
