/** Strings as the programs here handle them: one character stands for one byte, and case and
    white space are the ASCII ones. */
module Text {
  datatype Option<+T> = None | Some(value: T)

  // ---- Searching ----------------------------------------------------------------------------

  /** The first position at which `pat` occurs in `s`, or -1. */
  function IndexOf(s: string, pat: string): (i: int)
    requires pat != []
    ensures -1 <= i && (i >= 0 ==> i + |pat| <= |s|)
  {
    if |s| < |pat| then -1
    else if pat <= s then 0
    else
      var i := IndexOf(s[1..], pat);
      if i < 0 then -1 else i + 1
  }

  predicate Contains(s: string, pat: string)
    requires pat != []
  {
    IndexOf(s, pat) >= 0
  }

  ghost predicate OccursAt(s: string, pat: string, i: nat) {
    i + |pat| <= |s| && s[i..i + |pat|] == pat
  }

  lemma OccursInTail(s: string, pat: string, k: nat)
    requires pat != [] && s != []
    ensures OccursAt(s[1..], pat, k) <==> OccursAt(s, pat, k + 1)
    ensures OccursAt(s, pat, 0) <==> pat <= s
  {
    if k + |pat| <= |s| - 1 { assert s[1..][k..k + |pat|] == s[k + 1..k + 1 + |pat|]; }
  }

  /** IndexOf finds an occurrence. */
  lemma {:induction false} IndexOfOccurs(s: string, pat: string)
    requires pat != [] && IndexOf(s, pat) >= 0
    ensures OccursAt(s, pat, IndexOf(s, pat))
    decreases |s|
  {
    hide OccursAt;
    OccursInTail(s, pat, 0);
    if !(pat <= s) {
      IndexOfOccurs(s[1..], pat);
      OccursInTail(s, pat, IndexOf(s[1..], pat));
    }
  }

  /** None comes before it. */
  lemma {:induction false} IndexOfIsFirst(s: string, pat: string, k: nat)
    requires pat != [] && OccursAt(s, pat, k)
    ensures 0 <= IndexOf(s, pat) <= k
    decreases |s|
  {
    if !(pat <= s) {
      OccursInTail(s, pat, k - 1);
      IndexOfIsFirst(s[1..], pat, k - 1);
    }
  }

  /** More text behind an occurrence does not move the first one. */
  lemma {:induction false} IndexOfStable(s: string, more: string, pat: string)
    requires pat != [] && IndexOf(s, pat) >= 0
    ensures IndexOf(s + more, pat) == IndexOf(s, pat)
    decreases |s|
  {
    if !(pat <= s) {
      assert (s + more)[1..] == s[1..] + more;
      IndexOfStable(s[1..], more, pat);
    }
  }

  const CRLF := "\r\n"

  /** A line without line feeds ends at the CRLF written after it. */
  lemma {:induction false} IndexOfLineEnd(line: string, more: string)
    requires '\n' !in line
    ensures IndexOf(line + CRLF + more, CRLF) == |line|
    decreases |line|
  {
    var s := line + CRLF + more;
    if line == [] {
      assert CRLF <= s;
    } else {
      assert s[1] == if |line| > 1 then line[1] else '\r';
      assert s[1..] == line[1..] + CRLF + more;
      IndexOfLineEnd(line[1..], more);
    }
  }

  lemma {:induction false} NoLineEnd(s: string)
    requires '\n' !in s
    ensures IndexOf(s, CRLF) == -1
    decreases |s|
  {
    if |s| >= 2 {
      assert s[1] in s;
      NoLineEnd(s[1..]);
    }
  }

  /** The lines of `s`, without the separators. */
  function SplitLines(s: string): (lines: seq<string>)
    ensures |lines| >= 1
  {
    var i := IndexOf(s, CRLF);
    if i < 0 then [s] else [s[..i]] + SplitLines(s[i + 2..])
  }

  // ---- Case and white space -------------------------------------------------------------------

  function LowerChar(c: char): char {
    if 'A' <= c <= 'Z' then ((c as int) + 32) as char else c
  }

  function Lower(s: string): string {
    seq(|s|, i requires 0 <= i < |s| => LowerChar(s[i]))
  }

  /** The same letter in either case. */
  predicate SameLetter(a: char, b: char) {
    || a == b
    || ('A' <= a <= 'Z' && b as int == a as int + 32)
    || ('A' <= b <= 'Z' && a as int == b as int + 32)
  }

  predicate SameWord(a: string, b: string) {
    |a| == |b| && forall i :: 0 <= i < |a| ==> SameLetter(a[i], b[i])
  }

  lemma SameLetterIff(a: char, b: char)
    ensures LowerChar(a) == LowerChar(b) <==> SameLetter(a, b)
  {}

  lemma SameWordIff(a: string, b: string)
    ensures Lower(a) == Lower(b) <==> SameWord(a, b)
  {
    hide LowerChar, SameLetter;
    if |a| == |b| {
      forall i | 0 <= i < |a| ensures Lower(a)[i] == Lower(b)[i] <==> SameLetter(a[i], b[i]) {
        SameLetterIff(a[i], b[i]);
      }
    } else {
      assert |Lower(a)| != |Lower(b)|;
    }
  }

  /** The word occurs in the value, in any letter case. */
  predicate MentionsAt(value: string, word: string, i: nat) {
    i + |word| <= |value| && SameWord(value[i..i + |word|], word)
  }

  ghost predicate Mentions(value: string, word: string) { exists i: nat :: MentionsAt(value, word, i) }

  lemma LowerOfSlice(s: string, i: nat, j: nat)
    requires i <= j <= |s|
    ensures Lower(s)[i..j] == Lower(s[i..j])
  {}

  lemma MentionsIff(value: string, word: string)
    requires word != ""
    ensures |Lower(word)| == |word| && (Contains(Lower(value), Lower(word)) <==> Mentions(value, word))
  {
    hide IndexOf, Lower, SameWord;
    LowerKeepsLength(value);
    LowerKeepsLength(word);
    if Contains(Lower(value), Lower(word)) {
      IndexOfOccurs(Lower(value), Lower(word));
      var i := IndexOf(Lower(value), Lower(word));
      LowerOfSlice(value, i, i + |word|);
      SameWordIff(value[i..i + |word|], word);
      assert MentionsAt(value, word, i);
    }
    if i: nat :| MentionsAt(value, word, i) {
      LowerOfSlice(value, i, i + |word|);
      SameWordIff(value[i..i + |word|], word);
      IndexOfIsFirst(Lower(value), Lower(word), i);
    }
  }

  lemma LowerKeepsLength(s: string)
    ensures |Lower(s)| == |s|
  {}

  predicate IsSpace(c: char) { c == ' ' || '\t' <= c <= '\r' }

  function TrimLeft(s: string): string {
    if s != [] && IsSpace(s[0]) then TrimLeft(s[1..]) else s
  }

  function TrimRight(s: string): string {
    if s != [] && IsSpace(s[|s| - 1]) then TrimRight(s[..|s| - 1]) else s
  }

  function Trim(s: string): string { TrimRight(TrimLeft(s)) }

  predicate Trimmed(s: string) {
    s == [] || (!IsSpace(s[0]) && !IsSpace(s[|s| - 1]))
  }

  lemma {:induction false} TrimIsTrimmed(s: string)
    ensures Trimmed(Trim(s)) && (Trimmed(s) <==> Trim(s) == s)
  {
    TrimLeftFacts(s);
    TrimRightFacts(TrimLeft(s));
  }

  lemma {:induction false} TrimLeftFacts(s: string)
    ensures |TrimLeft(s)| <= |s| && (TrimLeft(s) == [] || !IsSpace(TrimLeft(s)[0]))
    ensures TrimLeft(s) != [] ==> TrimLeft(s)[|TrimLeft(s)| - 1] == s[|s| - 1]
    ensures s != [] && IsSpace(s[0]) ==> |TrimLeft(s)| < |s|
    decreases |s|
  {
    if s != [] && IsSpace(s[0]) { TrimLeftFacts(s[1..]); }
  }

  lemma {:induction false} TrimRightFacts(s: string)
    ensures TrimRight(s) <= s && (TrimRight(s) == [] || !IsSpace(TrimRight(s)[|TrimRight(s)| - 1]))
    ensures s != [] && IsSpace(s[|s| - 1]) ==> |TrimRight(s)| < |s|
    decreases |s|
  {
    if s != [] && IsSpace(s[|s| - 1]) { TrimRightFacts(s[..|s| - 1]); }
  }

  predicate Blank(s: string) { forall i :: 0 <= i < |s| ==> s[i] == ' ' || s[i] == '\t' }

  /** Neither starts nor ends with a blank or a control character. */
  predicate Solid(s: string) { s == "" || (s[0] > ' ' && s[|s| - 1] > ' ') }

  lemma {:induction false} LeftBlanks(a: string, s: string)
    requires Blank(a)
    ensures TrimLeft(a + s) == TrimLeft(s)
    decreases |a|
  {
    if a == "" {
      assert a + s == s;
    } else {
      assert (a + s)[1..] == a[1..] + s;
      LeftBlanks(a[1..], s);
    }
  }

  lemma {:induction false} RightBlanks(s: string, b: string)
    requires Blank(b) && Solid(s)
    ensures TrimRight(s + b) == s
    decreases |b|
  {
    if b == "" {
      assert s + b == s;
    } else {
      assert (s + b)[..|s + b| - 1] == s + b[..|b| - 1];
      RightBlanks(s, b[..|b| - 1]);
    }
  }

  lemma BlanksAreTrimmed(a: string, s: string, b: string)
    requires Blank(a) && Solid(s) && Blank(b)
    ensures Trim(a + s + b) == s
  {
    hide TrimLeft, TrimRight;
    assert a + s + b == a + (s + b);
    LeftBlanks(a, s + b);
    if s == "" {
      LeftBlanks(b, "");
      assert b + "" == b == s + b;
      assert TrimLeft("") == "" && TrimRight("") == "" by { TrimLeftFacts(""); TrimRightFacts(""); }
    } else {
      TrimLeftIsIdle(s + b);
      RightBlanks(s, b);
    }
  }

  lemma TrimLeftIsIdle(s: string)
    requires s != "" && s[0] > ' '
    ensures TrimLeft(s) == s
  {}

  // ---- Words -------------------------------------------------------------------------------------

  function WordEnd(s: string, i: nat): (j: nat)
    requires i <= |s|
    ensures i <= j <= |s|
    decreases |s| - i
  {
    if i < |s| && !IsSpace(s[i]) then WordEnd(s, i + 1) else i
  }

  /** The words of a line without leading white space. */
  function Words(s: string): seq<string>
    decreases |s|
  {
    if s == "" then []
    else
      var j := WordEnd(s, 0);
      if j == 0 then Words(s[1..]) else [s[..j]] + Words(s[j..])
  }

  // ---- Numbers -----------------------------------------------------------------------------------

  /** The value of a digit, 16 or more for a character that is none. */
  function Digit(c: char): nat {
    if '0' <= c <= '9' then c as int - '0' as int
    else if 'a' <= c <= 'f' then c as int - 'a' as int + 10
    else if 'A' <= c <= 'F' then c as int - 'A' as int + 10
    else 16
  }

  predicate AllDigits(s: string, base: nat) {
    forall c <- s :: Digit(c) < base
  }

  function Value(s: string, base: nat): nat {
    if s == [] then 0 else Value(s[..|s| - 1], base) * base + Digit(s[|s| - 1])
  }

  const MAX_INT64 := 0x7FFF_FFFF_FFFF_FFFF

  /** A signed 64-bit number in the given base (10 or 16): no prefixes, no underscores. */
  function ParseInt(s: string, base: nat): Option<int> {
    if s == [] then None
    else
      var neg := s[0] == '-';
      var t := if neg || s[0] == '+' then s[1..] else s;
      if t == [] || !AllDigits(t, base) then None
      else
        var v: int := Value(t, base);
        if v > (if neg then MAX_INT64 + 1 else MAX_INT64) then None
        else Some(if neg then -v else v)
  }
}
