/** What a Sigma selection asks of an event, said without its evaluator: keys, modifiers and values. */
module SigmaMatching {
  import opened Text
  import opened Sigma

  // ---- Values ------------------------------------------------------------------------------------------

  /** Whether a value is matched under a modifier; letter case never matters. */
  ghost predicate Holds(actual: string, want: string, modifier: string) {
    var n := |want|;
    match modifier
    case "" => SameWord(actual, want)
    case "contains" => want == "" || Mentions(actual, want)
    case "startswith" => n <= |actual| && SameWord(actual[..n], want)
    case "endswith" => n <= |actual| && SameWord(actual[|actual| - n..], want)
    case "exists" => (actual != "") == (SameWord(want, "true") || want == "1")
    case _ => false
  }

  const PLAIN := ["", "contains", "startswith", "endswith", "exists"]

  lemma LowerOfEnds(s: string, n: nat)
    requires n <= |s|
    ensures Lower(s)[..n] == Lower(s[..n]) && Lower(s)[|s| - n..] == Lower(s[|s| - n..])
  {}

  lemma SmallTrue()
    ensures Lower("true") == "true"
  {}

  lemma StartsIff(a: string, w: string)
    ensures HasPrefix(Lower(a), Lower(w)) <==> |w| <= |a| && SameWord(a[..|w|], w)
  {
    hide Lower, SameWord;
    LowerKeepsLength(a);
    LowerKeepsLength(w);
    if |w| <= |a| {
      LowerOfEnds(a, |w|);
      SameWordIff(a[..|w|], w);
    }
  }

  lemma EndsIff(a: string, w: string)
    ensures HasSuffix(Lower(a), Lower(w)) <==> |w| <= |a| && SameWord(a[|a| - |w|..], w)
  {
    hide Lower, SameWord;
    LowerKeepsLength(a);
    LowerKeepsLength(w);
    if |w| <= |a| {
      LowerOfEnds(a, |w|);
      SameWordIff(a[|a| - |w|..], w);
    }
  }

  /** The five plain modifiers mean what they say; regular expressions and address ranges are asked
      elsewhere, and any other modifier is an error. */
  lemma ValueMeans(actual: string, want: string, modifier: string, o: Oracle)
    ensures modifier in PLAIN ==> MatchValue(actual, want, modifier, o) == Some(Holds(actual, want, modifier))
    ensures modifier == "re" ==> MatchValue(actual, want, modifier, o) == o.regexp(actual, want)
    ensures modifier == "cidr" ==> MatchValue(actual, want, modifier, o) == o.cidr(actual, want)
    ensures modifier !in PLAIN && modifier != "re" && modifier != "cidr" ==> MatchValue(actual, want, modifier, o) == None
  {
    hide Lower, IndexOf, SameWord, Mentions, HasPrefix, HasSuffix;
    SameWordIff(actual, want);
    SameWordIff(want, "true");
    SmallTrue();
    StartsIff(actual, want);
    EndsIff(actual, want);
    LowerKeepsLength(want);
    if want != "" { MentionsIff(actual, want); } else { assert Lower(want) == ""; }
  }

  // ---- Several values, several keys ----------------------------------------------------------------

  /** A key matches when one of its values does; an error counts only before that. */
  lemma {:induction false} AnyMeans(actual: string, wants: seq<string>, modifier: string, o: Oracle)
    ensures var r := MatchAny(actual, wants, modifier, o);
            && (r == Some(true) <==> exists i :: Decides(actual, wants, modifier, o, i, Some(true)))
            && (r == None <==> exists i :: Decides(actual, wants, modifier, o, i, None))
            && (r == Some(false) <==> forall i :: 0 <= i < |wants| ==> MatchValue(actual, wants[i], modifier, o) == Some(false))
    decreases |wants|
  {
    hide MatchValue;
    if wants != [] {
      var rest := wants[1..];
      AnyMeans(actual, rest, modifier, o);
      var first := MatchValue(actual, wants[0], modifier, o);
      if first == Some(false) {
        assert forall i :: 1 <= i < |wants| ==> wants[i] == rest[i - 1];
        forall i, v | Decides(actual, rest, modifier, o, i, v) ensures Decides(actual, wants, modifier, o, i + 1, v) {
          forall j | 0 <= j < i + 1 ensures MatchValue(actual, wants[j], modifier, o) == Some(false) {
            if j > 0 { assert wants[j] == rest[j - 1]; }
          }
        }
        forall i, v | Decides(actual, wants, modifier, o, i, v) && v != Some(false)
          ensures Decides(actual, rest, modifier, o, i - 1, v)
        {
          forall j | 0 <= j < i - 1 ensures MatchValue(actual, rest[j], modifier, o) == Some(false) {
            assert rest[j] == wants[j + 1];
          }
        }
      } else {
        assert Decides(actual, wants, modifier, o, 0, first);
        forall i, v | Decides(actual, wants, modifier, o, i, v) ensures i == 0 {}
      }
    }
  }

  /** Value `i` is the first that does not simply fail, and this is what it says. */
  ghost predicate Decides(actual: string, wants: seq<string>, modifier: string, o: Oracle, i: int, v: Option<bool>) {
    && 0 <= i < |wants| && MatchValue(actual, wants[i], modifier, o) == v && v != Some(false)
    && forall j :: 0 <= j < i ==> MatchValue(actual, wants[j], modifier, o) == Some(false)
  }

  /** What a key says about an event. */
  function KeyOutcome(sel: Selection, raw: string, fields: map<string, string>, o: Oracle): Option<bool>
    requires raw in sel
  {
    var (base, modifier) := SplitModifier(raw);
    MatchAny(FieldOf(fields, EventField(base)), sel[raw], modifier, o)
  }

  /** A selection without errors matches exactly when every key does, in whatever order they are visited. */
  lemma {:induction false} SelectionMeans(sel: Selection, keys: seq<string>, fields: map<string, string>, o: Oracle)
    requires forall k <- keys :: k in sel && KeyOutcome(sel, k, fields, o).Some?
    ensures MatchSelection(sel, keys, fields, o) == Some(forall k <- keys :: KeyOutcome(sel, k, fields, o) == Some(true))
    decreases |keys|
  {
    hide KeyOutcome;
    if keys != [] {
      SelectionStep(sel, keys, fields, o);
      SelectionMeans(sel, keys[1..], fields, o);
      assert keys == [keys[0]] + keys[1..];
    }
  }

  lemma SelectionStep(sel: Selection, keys: seq<string>, fields: map<string, string>, o: Oracle)
    requires keys != [] && forall k <- keys :: k in sel
    ensures var r := KeyOutcome(sel, keys[0], fields, o);
            MatchSelection(sel, keys, fields, o) ==
            if r == None then None else if r.value then MatchSelection(sel, keys[1..], fields, o) else Some(false)
  {
    hide MatchAny, SplitModifier, EventField;
  }

  // ---- Keys ----------------------------------------------------------------------------------------------

  /** Sigma's names of fields, and the fields of an event they are read from. */
  const NAMES := [("SourceIp", "src"), ("DestinationIp", "dst"), ("SourcePort", "sport"), ("DestinationPort", "dport"),
                  ("Protocol", "proto"), ("Image", "process"), ("CommandLine", "process"), ("ParentImage", "parent_process"),
                  ("User", "user"), ("RuleName", "rule"), ("Severity", "severity"), ("Interface", "iface")]

  lemma NamesAre()
    ensures |NAMES| == 12
    ensures NAMES[0] == ("SourceIp", "src") && NAMES[1] == ("DestinationIp", "dst") && NAMES[2] == ("SourcePort", "sport")
    ensures NAMES[3] == ("DestinationPort", "dport") && NAMES[4] == ("Protocol", "proto") && NAMES[5] == ("Image", "process")
    ensures NAMES[6] == ("CommandLine", "process") && NAMES[7] == ("ParentImage", "parent_process") && NAMES[8] == ("User", "user")
    ensures NAMES[9] == ("RuleName", "rule") && NAMES[10] == ("Severity", "severity") && NAMES[11] == ("Interface", "iface")
  {}

  /** A listed name is read from its field, and any other from the field of its own name in small letters. */
  lemma FieldIs(base: string)
    ensures forall i :: 0 <= i < |NAMES| && NAMES[i].0 == base ==> EventField(base) == NAMES[i].1
    ensures (forall i :: 0 <= i < |NAMES| ==> NAMES[i].0 != base) ==> EventField(base) == Lower(base)
  {
    hide NAMES, Lower;
    NamesAre();
    if i :| 0 <= i < |NAMES| && NAMES[i].0 == base { assert i in {0, 1, 2, 3, 4, 5, 6, 7, 8, 9, 10, 11}; }
    assert NAMES[0].0 == "SourceIp" && NAMES[1].0 == "DestinationIp" && NAMES[2].0 == "SourcePort" && NAMES[3].0 == "DestinationPort";
    assert NAMES[4].0 == "Protocol" && NAMES[5].0 == "Image" && NAMES[6].0 == "CommandLine" && NAMES[7].0 == "ParentImage";
    assert NAMES[8].0 == "User" && NAMES[9].0 == "RuleName" && NAMES[10].0 == "Severity" && NAMES[11].0 == "Interface";
  }

  lemma {:induction false} BarIsFound(a: string, b: string)
    requires '|' !in a
    ensures IndexOf(a + "|" + b, "|") == |a| && IndexOf(a, "|") == -1
    decreases |a|
  {
    var s := a + "|" + b;
    if a == "" {
      assert "|" <= s;
    } else {
      assert s[0] == a[0] && a[0] in a;
      assert s[1..] == a[1..] + "|" + b;
      BarIsFound(a[1..], b);
    }
  }

  /** A key is a name, or a name and modifiers behind bars, of which the first counts, in any letter case. */
  lemma KeySplits(base: string, modifier: string, rest: string)
    requires '|' !in base && '|' !in modifier
    ensures SplitModifier(base) == (base, "")
    ensures SplitModifier(base + "|" + modifier) == SplitModifier(base + "|" + modifier + "|" + rest) == (base, Lower(modifier))
  {
    hide IndexOf, Lower;
    BarIsFound(base, modifier);
    BarIsFound(base, modifier + "|" + rest);
    BarIsFound(modifier, rest);
    var one, two := base + "|" + modifier, base + "|" + modifier + "|" + rest;
    assert one[..|base|] == base && one[|base| + 1..] == modifier;
    assert two == base + "|" + (modifier + "|" + rest);
    assert two[..|base|] == base && two[|base| + 1..] == modifier + "|" + rest;
    assert (modifier + "|" + rest)[..|modifier|] == modifier;
  }

  /** So a key with a name and a plain modifier, in any letter case, holds of an event exactly when one of
      its values does of the field the name stands for. */
  lemma KeyMeans(sel: Selection, base: string, modifier: string, plain: string, field: string, fields: map<string, string>, o: Oracle)
    requires '|' !in base && '|' !in modifier && plain in PLAIN && SameWord(modifier, plain)
    requires (base, field) in NAMES && (base + "|" + modifier) in sel
    ensures var r := KeyOutcome(sel, base + "|" + modifier, fields, o);
            var actual := if field in fields then fields[field] else "";
            r == Some(exists i :: 0 <= i < |sel[base + "|" + modifier]| && Holds(actual, sel[base + "|" + modifier][i], plain))
  {
    hide IndexOf, Lower, SameWord, Holds, MatchValue, SplitModifier, EventField, MatchAny, NAMES;
    var raw := base + "|" + modifier;
    var actual := if field in fields then fields[field] else "";
    KeySplits(base, modifier, "");
    SameWordIff(modifier, plain);
    PlainIsSmall(plain);
    FieldIs(base);
    var n :| 0 <= n < |NAMES| && NAMES[n] == (base, field);
    AnyMeans(actual, sel[raw], plain, o);
    forall i | 0 <= i < |sel[raw]| ensures MatchValue(actual, sel[raw][i], plain, o) == Some(Holds(actual, sel[raw][i], plain)) {
      ValueMeans(actual, sel[raw][i], plain, o);
    }
    assert KeyOutcome(sel, raw, fields, o) == MatchAny(actual, sel[raw], plain, o);
    if i :| 0 <= i < |sel[raw]| && Holds(actual, sel[raw][i], plain) {
      var k := FirstHolding(actual, sel[raw], plain, i);
      assert Decides(actual, sel[raw], plain, o, k, Some(true));
      assert KeyOutcome(sel, raw, fields, o) == Some(true);
    }
  }

  lemma FirstHolding(actual: string, wants: seq<string>, modifier: string, i: nat) returns (k: nat)
    requires i < |wants| && Holds(actual, wants[i], modifier)
    ensures k <= i && Holds(actual, wants[k], modifier) && forall j :: 0 <= j < k ==> !Holds(actual, wants[j], modifier)
  {
    hide Holds;
    k := 0;
    while !Holds(actual, wants[k], modifier)
      invariant k <= i && forall j :: 0 <= j < k ==> !Holds(actual, wants[j], modifier)
      decreases i - k
    {
      k := k + 1;
    }
  }

  lemma PlainIsSmall(plain: string)
    requires plain in PLAIN
    ensures Lower(plain) == plain
  {
    assert Lower("") == "" && Lower("contains") == "contains" && Lower("exists") == "exists";
    assert Lower("startswith") == "startswith" && Lower("endswith") == "endswith";
  }
}
