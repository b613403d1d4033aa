/** Sigma rules: how they are matched, and how they are rendered in the detection language. */
module Sigma {
  import opened Text

  /** Field names, possibly with a modifier, and the wanted values of each. */
  type Selection = map<string, seq<string>>

  datatype Rule = Rule(title: string, id: string, level: string, condition: string, detections: map<string, Selection>)

  /** Regular expressions and address ranges are decided elsewhere; `None` is an error. */
  datatype Oracle = Oracle(regexp: (string, string) -> Option<bool>, cidr: (string, string) -> Option<bool>)

  /** The part before the first bar and, in lower case, the one up to the second. */
  function SplitModifier(raw: string): (string, string) {
    var i := IndexOf(raw, "|");
    if i < 0 then (raw, "")
    else
      var rest := raw[i + 1..];
      var k := IndexOf(rest, "|");
      (raw[..i], Lower(if k < 0 then rest else rest[..k]))
  }

  function EventField(base: string): string {
    if base == "SourceIp" then "src"
    else if base == "DestinationIp" then "dst"
    else if base == "SourcePort" then "sport"
    else if base == "DestinationPort" then "dport"
    else if base == "Protocol" then "proto"
    else if base == "Image" || base == "CommandLine" then "process"
    else if base == "ParentImage" then "parent_process"
    else if base == "User" then "user"
    else if base == "RuleName" then "rule"
    else if base == "Severity" then "severity"
    else if base == "Interface" then "iface"
    else Lower(base)
  }

  predicate HasPrefix(s: string, p: string) { p <= s }
  predicate HasSuffix(s: string, p: string) { |p| <= |s| && s[|s| - |p|..] == p }

  function MatchValue(actual: string, want: string, modifier: string, o: Oracle): Option<bool> {
    var a, w := Lower(actual), Lower(want);
    if modifier == "" then Some(a == w)
    else if modifier == "contains" then Some(w == "" || Contains(a, w))
    else if modifier == "startswith" then Some(HasPrefix(a, w))
    else if modifier == "endswith" then Some(HasSuffix(a, w))
    else if modifier == "exists" then Some((actual != "") == (w == "true" || want == "1"))
    else if modifier == "re" then o.regexp(actual, want)
    else if modifier == "cidr" then o.cidr(actual, want)
    else None
  }

  /** The first value that matches decides; an error before that is an error. */
  function MatchAny(actual: string, wants: seq<string>, modifier: string, o: Oracle): Option<bool>
    decreases |wants|
  {
    if wants == [] then Some(false)
    else
      match MatchValue(actual, wants[0], modifier, o)
      case None => None
      case Some(ok) => if ok then Some(true) else MatchAny(actual, wants[1..], modifier, o)
  }

  function FieldOf(fields: map<string, string>, name: string): string {
    if name in fields then fields[name] else ""
  }

  /** All keys must match, visited in some order up to the first that does not. */
  function MatchSelection(sel: Selection, keys: seq<string>, fields: map<string, string>, o: Oracle): Option<bool>
    requires forall k <- keys :: k in sel
    decreases |keys|
  {
    if keys == [] then Some(true)
    else
      var raw := keys[0];
      var (base, modifier) := SplitModifier(raw);
      match MatchAny(FieldOf(fields, EventField(base)), sel[raw], modifier, o)
      case None => None
      case Some(ok) => if ok then MatchSelection(sel, keys[1..], fields, o) else Some(false)
  }

  /** An order in which the keys of a map may be visited. */
  ghost predicate Enumerates<V>(keys: seq<string>, m: map<string, V>) {
    (forall k <- keys :: k in m) && (forall k <- m :: k in keys)
  }

  /** The selections to be visited exist, and so do the keys to be visited in each. */
  predicate Visits(detections: map<string, Selection>, names: seq<string>, orders: map<string, seq<string>>) {
    forall n <- names :: n in detections && n in orders && forall k <- orders[n] :: k in detections[n]
  }

  /** All selections are evaluated, in some order, and the first error is the outcome. */
  function MatchAll(detections: map<string, Selection>, names: seq<string>, orders: map<string, seq<string>>,
                    fields: map<string, string>, o: Oracle): Option<map<string, bool>>
    requires Visits(detections, names, orders)
    decreases |names|
  {
    if names == [] then Some(map[])
    else
      var n := names[0];
      match MatchSelection(detections[n], orders[n], fields, o)
      case None => None
      case Some(ok) =>
        match MatchAll(detections, names[1..], orders, fields, o)
        case None => None
        case Some(m) => Some(m[n := ok])
  }

  /** The outcome for a rule whose condition is the name of one of its selections. */
  function Match(rule: Rule, names: seq<string>, orders: map<string, seq<string>>,
                 fields: map<string, string>, o: Oracle): Option<bool>
    requires Visits(rule.detections, names, orders) && Trim(rule.condition) in names
  {
    match MatchAll(rule.detections, names, orders, fields, o)
    case None => None
    case Some(results) => if Trim(rule.condition) in results then Some(results[Trim(rule.condition)]) else None
  }

  // ---- Rendering -----------------------------------------------------------------------------------

  function NpdlField(base: string): string {
    if base == "Image" || base == "CommandLine" then "process"
    else if base == "SourceIp" then "src_ip"
    else if base == "DestinationIp" then "dst_ip"
    else if base == "DestinationPort" then "dst_port"
    else if base == "Protocol" then "protocol"
    else if base == "RuleName" then "finding_rule"
    else ""
  }

  function DropQuotes(s: string): string {
    if s == "" then "" else (if s[0] == '"' then "" else [s[0]]) + DropQuotes(s[1..])
  }

  function Quote(v: string): string {
    if ' ' in v || '\t' in v then "\"" + DropQuotes(v) + "\"" else v
  }

  predicate Simple(sel: Selection, raw: string)
    requires raw in sel
  {
    var (base, modifier) := SplitModifier(raw);
    NpdlField(base) != "" && |sel[raw]| == 1 && (modifier == "" || modifier == "contains")
  }

  function RenderCondition(raw: string, value: string): string {
    var (base, modifier) := SplitModifier(raw);
    NpdlField(base) + " " + (if modifier == "contains" then "~" else "=") + " " + Quote(value)
  }

  function JoinAnd(parts: seq<string>): string {
    if parts == [] then ""
    else if |parts| == 1 then parts[0]
    else parts[0] + " AND " + JoinAnd(parts[1..])
  }

  predicate AllSimple(sel: Selection, keys: seq<string>) {
    forall i :: 0 <= i < |keys| ==> keys[i] in sel && Simple(sel, keys[i])
  }

  function RenderConditions(sel: Selection, keys: seq<string>): (parts: seq<string>)
    requires AllSimple(sel, keys)
    ensures |parts| == |keys|
  {
    if keys == [] then [] else [RenderCondition(keys[0], sel[keys[0]][0])] + RenderConditions(sel, keys[1..])
  }

  /** The rule can be rendered and enabled: one selection, each key with one value. */
  predicate Renderable(rule: Rule, keys: seq<string>) {
    Trim(rule.condition) in rule.detections && keys != [] && AllSimple(rule.detections[Trim(rule.condition)], keys)
  }

  function RuleId(rule: Rule, slug: string): string { if rule.id == "" then slug else rule.id }

  /** The first line, put together from pieces: the verifier goes over a literal character by
      character, and short ones are cheap. */
  function Comment(): (s: string)
    ensures s != "" && s[0] == '#' && forall i :: 0 <= i < |s| ==> s[i] != '\n'
  {
    "# Generated " + "from Sigma " + "by NetProbe " + "IR. Review " + "before " + "enabling."
  }

  function RenderHead(rule: Rule, slug: string): seq<string> {
    [Comment(), "rule " + RuleId(rule, slug),
     "title " + rule.title, "severity " + (if rule.level == "" then "medium" else Lower(rule.level)), "confidence 80"]
  }

  function EnabledLines(conds: seq<string>): seq<string> {
    ["enabled true", "when " + JoinAnd(conds), "end"]
  }

  function ReviewComment(): (s: string)
    ensures s != "" && s[0] == '#' && forall i :: 0 <= i < |s| ==> s[i] != '\n'
  {
    "# Complex " + "Sigma " + "boolean/" + "modifier " + "semantics " + "require " + "manual " + "translation."
  }

  const REVIEW_FIELD := "finding_rule"
  const REVIEW_VALUE := "__sigma_" + "manual_" + "review__"

  /** A rule that is left for review: not enabled, with a placeholder for its conditions. */
  function ReviewLines(): seq<string> {
    [ReviewComment(), "enabled false", "when " + (REVIEW_FIELD + " = " + REVIEW_VALUE), "end"]
  }

  /** The lines of the text, for the keys of the selection in sorted order. */
  function RenderLines(rule: Rule, slug: string, keys: seq<string>): seq<string> {
    RenderHead(rule, slug) +
    if Renderable(rule, keys) then
      EnabledLines(RenderConditions(rule.detections[Trim(rule.condition)], keys))
    else ReviewLines()
  }

  function JoinLines(lines: seq<string>): string {
    if lines == [] then "" else lines[0] + "\n" + JoinLines(lines[1..])
  }

  function Render(rule: Rule, slug: string, keys: seq<string>): string {
    JoinLines(RenderLines(rule, slug, keys))
  }

  lemma {:induction false} RenderedSnoc(sel: Selection, keys: seq<string>, key: string)
    requires AllSimple(sel, keys + [key]) && AllSimple(sel, keys) && key in sel && Simple(sel, key)
    ensures RenderConditions(sel, keys + [key]) == RenderConditions(sel, keys) + [RenderCondition(key, sel[key][0])]
    decreases |keys|
  {
    hide RenderCondition, Simple;
    if keys == [] {
      assert [key][1..] == [] && keys + [key] == [key];
    } else {
      assert (keys + [key])[1..] == keys[1..] + [key];
      RenderedSnoc(sel, keys[1..], key);
    }
  }

  /** The loop over the sorted keys: stops at the first one that cannot be rendered. */
  method RenderSelection(sel: Selection, keys: seq<string>) returns (enabled: bool, conds: seq<string>)
    requires forall i :: 0 <= i < |keys| ==> keys[i] in sel
    ensures enabled <==> AllSimple(sel, keys)
    ensures enabled ==> conds == RenderConditions(sel, keys)
  {
    hide RenderCondition, Simple, RenderConditions;
    conds := [];
    assert keys[..0] == [];
    NothingRendered(sel);
    for i := 0 to |keys|
      invariant AllSimple(sel, keys[..i]) && conds == RenderConditions(sel, keys[..i])
    {
      if !Simple(sel, keys[i]) {
        return false, [];
      }
      assert keys[..i + 1] == keys[..i] + [keys[i]];
      RenderedSnoc(sel, keys[..i], keys[i]);
      SimpleHasValue(sel, keys[i]);
      conds := conds + [RenderCondition(keys[i], sel[keys[i]][0])];
    }
    assert keys[..|keys|] == keys;
    enabled := true;
  }

  lemma NothingRendered(sel: Selection)
    ensures AllSimple(sel, []) && RenderConditions(sel, []) == []
  {}

  lemma SimpleHasValue(sel: Selection, key: string)
    requires key in sel && Simple(sel, key)
    ensures |sel[key]| == 1
  {}

  /** The text of a rule, built line by line. */
  method RenderNpdl(rule: Rule, slug: string, keys: seq<string>) returns (text: string)
    requires Trim(rule.condition) in rule.detections ==> Enumerates(keys, rule.detections[Trim(rule.condition)])
    ensures text == Render(rule, slug, keys)
  {
    hide RenderHead, RenderConditions, EnabledLines, ReviewLines, JoinLines, Trim, AllSimple;
    var lines := RenderHead(rule, slug);
    var name := Trim(rule.condition);
    var enabled := name in rule.detections;
    var conds: seq<string> := [];
    if enabled {
      enabled, conds := RenderSelection(rule.detections[name], keys);
    }
    if !enabled || keys == [] {
      lines := lines + ReviewLines();
    } else {
      lines := lines + EnabledLines(conds);
    }
    text := JoinLines(lines);
  }
}
