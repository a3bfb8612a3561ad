/** Worked inputs for the parser: the pastes a user would make. */
module Scenarios {
  import opened Wrappers
  import opened Text
  import opened Numbers
  import opened BladeParser

  /** A line of two whole numbers separated by one space parses to those numbers. */
  lemma TwoIntegersLine(m: nat, p: nat)
    ensures ParseLine(NatString(m) + " " + NatString(p)) == Some(Blade(m as real, p as real))
  {
    var ws := [NatString(m), NatString(p)];
    DigitsAreWord(NatString(m));
    DigitsAreWord(NatString(p));
    ExtraTokensIgnored(ws);
    assert ws[..2] == ws;
    WordsUnwords(ws);
    assert Unwords(ws) == NatString(m) + " " + NatString(p);
    ParseLineTokens(Unwords(ws));
    ParseNumInt(m);
    ParseNumInt(p);
  }

  lemma DigitsAreWord(s: string)
    requires s != [] && AllDigits(s)
    ensures IsWord(s)
  {
    assert forall k | 0 <= k < |s| :: IsDigit(s[k]);
  }

  /** A line whose only token is a word gives no record. */
  lemma OneWordLine(w: string)
    requires IsWord(w)
    ensures ParseLine(w) == None
  {
    WordsOfWordThen(w, []);
    assert w + [] == w;
    ShortLineSkipped(w);
  }

  lemma JoinThree(first: string, bad: string, last: string)
    ensures Join([first, bad, last], '\n') == first + "\n" + bad + "\n" + last
  {
    var lines := [first, bad, last];
    assert lines[1..] == [bad, last] && lines[1..][1..] == [last];
    assert Join([bad, last], '\n') == bad + "\n" + last;
  }

  /**
   * Three pasted lines, the middle one malformed: the two good lines give
   * their records, in order.
   */
  lemma MalformedMiddleLine(first: string, bad: string, last: string)
    requires '\n' !in first && '\n' !in bad && '\n' !in last
    requires ParseLine(bad).None?
    ensures Parse(first + "\n" + bad + "\n" + last) == Emit(ParseLine(first)) + Emit(ParseLine(last))
  {
    var text := first + "\n" + bad + "\n" + last;
    calc {
      Parse(text);
      { ParseRawLines(text); }
      Collect(Split(text, '\n'), ParseLine);
      { JoinThree(first, bad, last); SplitJoin([first, bad, last], '\n'); assert [first, bad, last] == [first] + [bad] + [last]; }
      Collect([first] + [bad] + [last], ParseLine);
      { MalformedLineSkipped([first], bad, [last], ParseLine); }
      Collect([first], ParseLine) + Collect([last], ParseLine);
      { CollectSingle(first, ParseLine); CollectSingle(last, ParseLine); }
      Emit(ParseLine(first)) + Emit(ParseLine(last));
    }
  }

  /**
   * Two whole-number readings around a line holding one word, such as the
   * paste "10 0", "abc", "10 90": both readings are detected, in order, and
   * the word line is skipped.
   */
  lemma TwoOfThreeLines(m1: nat, p1: nat, w: string, m2: nat, p2: nat)
    requires IsWord(w)
    ensures Parse((NatString(m1) + " " + NatString(p1)) + "\n" + w + "\n" + (NatString(m2) + " " + NatString(p2)))
         == [Blade(m1 as real, p1 as real), Blade(m2 as real, p2 as real)]
  {
    NumeralLine(m1, p1);
    NumeralLine(m2, p2);
    TwoIntegersLine(m1, p1);
    TwoIntegersLine(m2, p2);
    ReadingsAroundWord(NatString(m1) + " " + NatString(p1), w, NatString(m2) + " " + NatString(p2));
  }

  /** A word line between two single-line readings is skipped. */
  lemma ReadingsAroundWord(first: string, w: string, last: string)
    requires IsWord(w)
    requires '\n' !in first && '\n' !in last
    requires ParseLine(first).Some? && ParseLine(last).Some?
    ensures Parse(first + "\n" + w + "\n" + last) == [ParseLine(first).value, ParseLine(last).value]
  {
    OneWordLine(w);
    MalformedMiddleLine(first, w, last);
  }

  /** A line of two whole numbers has no line break. */
  lemma NumeralLine(m: nat, p: nat)
    ensures '\n' !in NatString(m) + " " + NatString(p)
  {
    assert forall k | 0 <= k < |NatString(m)| :: IsDigit(NatString(m)[k]);
    assert forall k | 0 <= k < |NatString(p)| :: IsDigit(NatString(p)[k]);
  }
}
