/** Numbers spelt out as digits, and what the parsers of numbers make of them. */
module Numerals {
  import opened Text

  const DIGITS := "0123456789abcdef"

  /** A number spelt out in base ten or sixteen, without leading zeros. */
  function Spelled(n: nat, base: nat): string
    requires 2 <= base <= 16
  {
    if n < base then [DIGITS[n]] else Spelled(n / base, base) + [DIGITS[n % base]]
  }

  function Noughts(z: nat): string { seq(z, _ => '0') }

  ghost predicate SpellsWithZeros(s: string, n: nat) {
    exists z: nat :: s == Noughts(z) + Spelled(n, 10)
  }

  /** A decimal number with any leading zeros and perhaps a plus sign. */
  ghost predicate Numeral(s: string, n: nat) {
    SpellsWithZeros(s, n) || (s != "" && s[0] == '+' && SpellsWithZeros(s[1..], n))
  }

  /** A hexadecimal number with any leading zeros, its letters in either case. */
  ghost predicate HexNumeral(s: string, n: nat) {
    exists z: nat :: SameWord(s, Noughts(z) + Spelled(n, 16))
  }

  lemma DigitsAre(d: nat)
    requires d < 16
    ensures Digit(DIGITS[d]) == d && DIGITS[d] !in ":;\n+-"
    ensures d < 10 ==> '0' <= DIGITS[d] <= '9'
  {}

  lemma SameDigit(a: char, b: char)
    requires SameLetter(a, b)
    ensures Digit(a) == Digit(b)
  {}

  lemma DigitIs(c: char)
    requires Digit(c) < 10
    ensures c == DIGITS[Digit(c)]
  {}

  lemma OneMoreDigit(s: string, c: char, base: nat)
    ensures Value(s + [c], base) == Value(s, base) * base + Digit(c)
    ensures AllDigits(s + [c], base) <==> AllDigits(s, base) && Digit(c) < base
  {
    hide Digit;
    assert (s + [c])[..|s|] == s;
    if AllDigits(s + [c], base) {
      assert (s + [c])[|s|] in s + [c];
      forall d | d in s ensures Digit(d) < base { assert d in s + [c]; }
    }
  }

  lemma DivisionParts(n: nat, base: nat)
    requires base >= 2
    ensures n / base * base + n % base == n && n % base < base && (n >= base ==> n / base < n)
  {}

  lemma SpelledDigit(d: nat)
    requires d < 10
    ensures Spelled(d, 10) == [DIGITS[d]] && (d == 0 ==> Spelled(d, 10) == "0")
  {}

  lemma SpelledNext(v: nat, d: nat)
    requires v > 0 && d < 10
    ensures Spelled(v * 10 + d, 10) == Spelled(v, 10) + [DIGITS[d]]
  {
    hide Spelled;
    SpelledStep(v * 10 + d, 10);
  }

  lemma SpelledStep(n: nat, base: nat)
    requires 2 <= base <= 16
    ensures n < base ==> Spelled(n, base) == [DIGITS[n]] == "" + [DIGITS[n]]
    ensures n >= base ==> Spelled(n, base) == Spelled(n / base, base) + [DIGITS[n % base]]
  {
    hide DIGITS;
    if n >= base { DivisionParts(n, base); }
  }

  lemma NoDigits(base: nat)
    ensures Value("", base) == 0 && AllDigits("", base)
  {}

  lemma {:induction false} SpelledIsValue(n: nat, base: nat)
    requires 2 <= base <= 16
    ensures var s := Spelled(n, base); s != "" && AllDigits(s, base) && Value(s, base) == n
    decreases n
  {
    hide Digit, Value, AllDigits, Spelled;
    SpelledStep(n, base);
    if n < base {
      NoDigits(base);
      DigitsAre(n);
      OneMoreDigit("", DIGITS[n], base);
    } else {
      DivisionParts(n, base);
      SpelledIsValue(n / base, base);
      DigitsAre(n % base);
      OneMoreDigit(Spelled(n / base, base), DIGITS[n % base], base);
    }
  }

  lemma {:induction false} LeadingZeros(z: nat, s: string, base: nat)
    requires base >= 2 && AllDigits(s, base)
    ensures AllDigits(Noughts(z) + s, base) && Value(Noughts(z) + s, base) == Value(s, base)
    decreases |s|, z
  {
    var w := Noughts(z) + s;
    if s != "" {
      assert w[..|w| - 1] == Noughts(z) + s[..|s| - 1];
      LeadingZeros(z, s[..|s| - 1], base);
    } else if z > 0 {
      assert w == Noughts(z) && w[..z - 1] == Noughts(z - 1) == Noughts(z - 1) + s;
      LeadingZeros(z - 1, s, base);
    } else {
      assert w == s;
    }
  }

  lemma {:induction false} SameWordSameValue(a: string, b: string, base: nat)
    requires SameWord(a, b)
    ensures Value(a, base) == Value(b, base) && (AllDigits(a, base) <==> AllDigits(b, base))
    decreases |a|
  {
    hide Digit, SameLetter;
    forall i | 0 <= i < |a| ensures Digit(a[i]) == Digit(b[i]) { SameDigit(a[i], b[i]); }
    if a != "" {
      SameWordSameValue(a[..|a| - 1], b[..|b| - 1], base);
    }
    if AllDigits(a, base) {
      forall c | c in b ensures Digit(c) < base { var i :| 0 <= i < |b| && b[i] == c; assert a[i] in a; }
    }
    if AllDigits(b, base) {
      forall c | c in a ensures Digit(c) < base { var i :| 0 <= i < |a| && a[i] == c; assert b[i] in b; }
    }
  }

  /** Digits are the spelling of their value behind some zeros. */
  lemma {:induction false} DigitsAreSpelled(s: string)
    requires s != "" && AllDigits(s, 10)
    ensures SpellsWithZeros(s, Value(s, 10))
    decreases |s|
  {
    hide Digit, Spelled, Value, AllDigits;
    var t, c := s[..|s| - 1], s[|s| - 1];
    assert s == t + [c];
    OneMoreDigit(t, c, 10);
    DigitIs(c);
    if t == "" {
      NoDigits(10);
      SpelledDigit(Digit(c));
      assert s == Noughts(0) + Spelled(Value(s, 10), 10);
    } else {
      DigitsAreSpelled(t);
      var v := Value(t, 10);
      var z: nat :| t == Noughts(z) + Spelled(v, 10);
      if v == 0 {
        SpelledDigit(0);
        SpelledDigit(Digit(c));
        assert Noughts(z + 1) == Noughts(z) + "0";
        assert s == Noughts(z + 1) + Spelled(Value(s, 10), 10);
      } else {
        SpelledNext(v, Digit(c));
        assert s == Noughts(z) + Spelled(Value(s, 10), 10);
      }
    }
  }

  lemma SpellingIsRead(s: string, n: nat)
    requires SpellsWithZeros(s, n)
    ensures s != "" && AllDigits(s, 10) && Value(s, 10) == n && s[0] != '+' && s[0] != '-'
  {
    hide Digit, Value, Spelled;
    var z: nat :| s == Noughts(z) + Spelled(n, 10);
    SpelledIsValue(n, 10);
    LeadingZeros(z, Spelled(n, 10), 10);
    assert s[0] in s;
    SignsAreNone(s[0]);
  }

  lemma SignsAreNone(c: char)
    requires Digit(c) < 16
    ensures c != '+' && c != '-'
  {}

  lemma HexDigitIs(c: char)
    requires Digit(c) < 16
    ensures SameLetter(c, DIGITS[Digit(c)])
  {}

  lemma HexNext(v: nat, d: nat)
    requires d < 16
    ensures v == 0 ==> Spelled(d, 16) == [DIGITS[d]]
    ensures v > 0 ==> Spelled(v * 16 + d, 16) == Spelled(v, 16) + [DIGITS[d]]
    ensures Spelled(0, 16) == "0"
  {
    hide Spelled, DIGITS;
    assert Spelled(0, 16) == "0" by { FirstDigit(); }
    if v == 0 {
      SpelledStep(d, 16);
    } else {
      assert (v * 16 + d) / 16 == v && (v * 16 + d) % 16 == d;
      SpelledStep(v * 16 + d, 16);
    }
  }

  lemma FirstDigit()
    ensures Spelled(0, 16) == "0"
  {}

  /** Hexadecimal digits are the spelling of their value behind some zeros. */
  lemma {:induction false} DigitsAreHex(s: string)
    requires s != "" && AllDigits(s, 16)
    ensures HexNumeral(s, Value(s, 16))
    decreases |s|
  {
    hide Digit, Spelled, Value, AllDigits, SameWord, SameLetter, Noughts;
    assert |DIGITS| == 16;
    hide DIGITS;
    var t, c := s[..|s| - 1], s[|s| - 1];
    assert s == t + [c];
    OneMoreDigit(t, c, 16);
    HexDigitIs(c);
    var d := DIGITS[Digit(c)];
    HexNext(Value(t, 16), Digit(c));
    NoughtsMore(0);
    if t == "" {
      NoDigits(16);
      NothingIsSame();
      SameWordSnoc("", "", c, d);
      assert SameWord(s, Noughts(0) + Spelled(Value(s, 16), 16));
    } else {
      DigitsAreHex(t);
      var v := Value(t, 16);
      var z: nat :| SameWord(t, Noughts(z) + Spelled(v, 16));
      SameWordSnoc(t, Noughts(z) + Spelled(v, 16), c, d);
      NoughtsMore(z);
      var z' := if v == 0 then z + 1 else z;
      assert Noughts(z') + Spelled(Value(s, 16), 16) == Noughts(z) + Spelled(v, 16) + [d];
    }
  }

  lemma NoughtsMore(z: nat)
    ensures Noughts(z + 1) == Noughts(z) + "0" && Noughts(0) == ""
  {}

  lemma NothingIsSame()
    ensures SameWord("", "")
  {}

  lemma SameWordSnoc(a: string, b: string, c: char, d: char)
    requires SameWord(a, b) && SameLetter(c, d)
    ensures SameWord(a + [c], b + [d])
  {
    hide SameLetter;
  }

  lemma HexIsRead(s: string, n: nat)
    requires HexNumeral(s, n)
    ensures s != "" && AllDigits(s, 16) && Value(s, 16) == n
  {
    hide Digit, Value, Spelled, AllDigits, SameLetter;
    var z: nat :| SameWord(s, Noughts(z) + Spelled(n, 16));
    SpelledIsValue(n, 16);
    LeadingZeros(z, Spelled(n, 16), 16);
    SameWordSameValue(s, Noughts(z) + Spelled(n, 16), 16);
  }

  /** What is read as a positive number is exactly a numeral that fits 64 bits. */
  lemma PositiveIff(s: string, n: nat)
    requires n > 0
    ensures ParseInt(s, 10) == Some(n) <==> Numeral(s, n) && n <= MAX_INT64
  {
    hide Value, AllDigits, Spelled;
    if ParseInt(s, 10) == Some(n) {
      if s[0] == '+' { DigitsAreSpelled(s[1..]); } else { DigitsAreSpelled(s); }
    }
    if Numeral(s, n) && n <= MAX_INT64 {
      if SpellsWithZeros(s, n) { SpellingIsRead(s, n); } else { SpellingIsRead(s[1..], n); }
    }
  }
}
