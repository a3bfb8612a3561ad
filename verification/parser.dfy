/**
 * The pasted-text parser of the dashboard: the text area holds one blade per
 * line, "magnitude phase", and every line that does not start with two
 * numbers is skipped without a message.
 */
module BladeParser {
  import opened Wrappers
  import opened Text
  import opened Numbers

  /** One parsed row: the blade's moment and its phase angle in degrees. */
  datatype Blade = Blade(magnitude: real, phase: real)

  /** The tokens of one line, with tabs turned into spaces first. */
  function LineTokens(line: string): seq<string> {
    Words(ReplaceTabs(line))
  }

  /**
   * The per-line rule: at least two tokens, and both of the first two read as
   * numbers; the record is those two numbers. Anything else gives `None`.
   */
  function ParseLine(line: string): Option<Blade> {
    var parts := LineTokens(line);
    if |parts| >= 2 then
      match (ParseNum(parts[0]), ParseNum(parts[1]))
      case (Some(m), Some(p)) => Some(Blade(m, p))
      case _ => None
    else None
  }

  /** What one line adds to the record list: its record, or nothing. */
  function Emit(o: Option<Blade>): seq<Blade> {
    if o.Some? then [o.value] else []
  }

  /**
   * The records a list of lines yields under a per-line rule, in line order.
   * The loop does not depend on what the rule is; the dashboard uses `ParseLine`.
   */
  function Collect(lines: seq<string>, rule: string -> Option<Blade>): seq<Blade> {
    if lines == [] then []
    else Collect(lines[..|lines| - 1], rule) + Emit(rule(lines[|lines| - 1]))
  }

  /** The lines the parser walks over: the stripped text split at line feeds. */
  function Lines(text: string): seq<string> {
    Split(Strip(text), '\n')
  }

  /** What the parser produces for a pasted text. */
  function Parse(text: string): seq<Blade> {
    if Strip(text) == [] then [] else Collect(Lines(text), ParseLine)
  }

  /**
   * The parsing loop itself: strip the text, walk its lines in order, tokenise
   * each one and append `[magnitude, phase]` when the first two tokens are
   * numbers; a short line or a failed conversion moves on to the next line.
   */
  method ParseInput(rawInput: string) returns (parsed: seq<Blade>)
    ensures parsed == Parse(rawInput)
  {
    parsed := [];
    if Strip(rawInput) != [] {
      var lines := Split(Strip(rawInput), '\n');
      for i := 0 to |lines|
        invariant parsed == Collect(lines[..i], ParseLine)
      {
        CollectThrough(lines, i, ParseLine);
        var parts := Words(ReplaceTabs(lines[i]));
        if |parts| >= 2 {
          var magnitude := ParseNum(parts[0]);
          var phase := ParseNum(parts[1]);
          if magnitude.Some? && phase.Some? {
            parsed := parsed + [Blade(magnitude.value, phase.value)];
          }
        }
      }
      assert lines[..|lines|] == lines;
    }
  }

  // ---------------------------------------------------------------- the per-line rule

  /**
   * A line is accepted exactly when its whitespace tokens (tabs counting as
   * whitespace) number at least two and the first two are numbers; the record
   * holds those two numbers and nothing from later tokens.
   */
  lemma ParseLineTokens(line: string)
    ensures var ws := Words(line);
      ParseLine(line).Some? <==> |ws| >= 2 && ParseNum(ws[0]).Some? && ParseNum(ws[1]).Some?
    ensures var ws := Words(line);
      ParseLine(line).Some? ==> ParseLine(line).value == Blade(ParseNum(ws[0]).value, ParseNum(ws[1]).value)
  {
    WordsIgnoreTabs(line);
  }

  /** A blank line or a line with a single token is skipped. */
  lemma ShortLineSkipped(line: string)
    requires |Words(line)| < 2
    ensures ParseLine(line) == None
  {
    ParseLineTokens(line);
  }

  /** Tokens after the second have no effect on the record. */
  lemma ExtraTokensIgnored(ws: seq<string>)
    requires |ws| >= 2 && forall k | 0 <= k < |ws| :: IsWord(ws[k])
    ensures ParseLine(Unwords(ws)) == ParseLine(Unwords(ws[..2]))
    ensures ParseLine(Unwords(ws)).Some? <==> ParseNum(ws[0]).Some? && ParseNum(ws[1]).Some?
  {
    WordsUnwords(ws);
    WordsUnwords(ws[..2]);
    ParseLineTokens(Unwords(ws));
    ParseLineTokens(Unwords(ws[..2]));
  }

  /** A line ended by `"\r\n"` reads like the same line ended by `"\n"`. */
  lemma CarriageReturnIgnored(line: string)
    ensures ParseLine(line + "\r") == ParseLine(line)
  {
    WordsTrailingSpace(line, '\r');
    ParseLineTokens(line + "\r");
    ParseLineTokens(line);
  }

  // ---------------------------------------------------------------- the loop over lines

  /** Parsing two blocks of lines one after the other gives the two results one after the other. */
  lemma {:induction false} CollectAppend(a: seq<string>, b: seq<string>, rule: string -> Option<Blade>)
    ensures Collect(a + b, rule) == Collect(a, rule) + Collect(b, rule)
  {
    if b == [] {
      assert a + b == a;
    } else {
      var n := |b|;
      CollectAppend(a, b[..n - 1], rule);
      assert (a + b)[..|a + b| - 1] == a + b[..n - 1];
      assert (a + b)[|a + b| - 1] == b[n - 1];
    }
  }

  /** The lines up to and including `i` give the records before it and then its own. */
  lemma CollectThrough(lines: seq<string>, i: nat, rule: string -> Option<Blade>)
    requires i < |lines|
    ensures Collect(lines[..i + 1], rule) == Collect(lines[..i], rule) + Emit(rule(lines[i]))
  {
    assert lines[..i + 1][..i] == lines[..i];
  }

  lemma TakeDrop<T>(s: seq<T>, n: nat)
    requires n <= |s|
    ensures s[..n] + s[n..] == s
  {
  }

  /** A single line gives its own record or nothing. */
  lemma CollectSingle(line: string, rule: string -> Option<Blade>)
    ensures Collect([line], rule) == Emit(rule(line))
  {
    assert [line][..0] == [];
  }

  /** The line at `i` contributes its own record or nothing, between those of the lines around it. */
  lemma CollectAt(lines: seq<string>, i: nat, rule: string -> Option<Blade>)
    requires i < |lines|
    ensures Collect(lines, rule) == Collect(lines[..i], rule) + Emit(rule(lines[i])) + Collect(lines[i + 1..], rule)
  {
    var before, after := lines[..i], lines[i + 1..];
    calc {
      Collect(lines, rule);
      { TakeDrop(lines, i + 1); }
      Collect(lines[..i + 1] + after, rule);
      { CollectAppend(lines[..i + 1], after, rule); }
      Collect(lines[..i + 1], rule) + Collect(after, rule);
      { CollectThrough(lines, i, rule); }
      Collect(before, rule) + Emit(rule(lines[i])) + Collect(after, rule);
    }
  }

  /**
   * Skip on error: a line the rule rejects is dropped and parsing goes on
   * with the next line, as if the bad line had never been there.
   */
  lemma MalformedLineSkipped(before: seq<string>, bad: string, after: seq<string>, rule: string -> Option<Blade>)
    requires rule(bad).None?
    ensures Collect(before + [bad] + after, rule) == Collect(before, rule) + Collect(after, rule)
    ensures Collect(before + [bad] + after, rule) == Collect(before + after, rule)
  {
    calc {
      Collect(before + [bad] + after, rule);
      { CollectAppend(before + [bad], after, rule); }
      Collect(before + [bad], rule) + Collect(after, rule);
      { CollectAppend(before, [bad], rule); CollectSingle(bad, rule); }
      Collect(before, rule) + Emit(rule(bad)) + Collect(after, rule);
      { assert Emit(rule(bad)) == []; }
      Collect(before, rule) + Collect(after, rule);
    }
    CollectAppend(before, after, rule);
  }

  /** There are never more records than lines. */
  lemma {:induction false} CollectBound(lines: seq<string>, rule: string -> Option<Blade>)
    ensures |Collect(lines, rule)| <= |lines|
  {
    if lines != [] {
      CollectBound(lines[..|lines| - 1], rule);
    }
  }

  /** The positions of the accepted lines, in increasing order. */
  function Accepted(lines: seq<string>, rule: string -> Option<Blade>): seq<nat> {
    if lines == [] then []
    else Accepted(lines[..|lines| - 1], rule)
         + (if rule(lines[|lines| - 1]).Some? then [|lines| - 1] else [])
  }

  /**
   * The accepted positions are valid, strictly increasing, and list exactly
   * the lines the per-line rule accepts.
   */
  lemma {:induction false} AcceptedPositions(lines: seq<string>, rule: string -> Option<Blade>)
    ensures var idx := Accepted(lines, rule);
      && (forall k | 0 <= k < |idx| :: idx[k] < |lines|)
      && (forall k, l | 0 <= k < l < |idx| :: idx[k] < idx[l])
      && (forall i | 0 <= i < |lines| :: rule(lines[i]).Some? <==> i in idx)
  {
    if lines != [] {
      var n := |lines|;
      var init, last := lines[..n - 1], lines[n - 1];
      AcceptedPositions(init, rule);
      var idx, before := Accepted(lines, rule), Accepted(init, rule);
      assert idx == before + (if rule(last).Some? then [n - 1] else []);
      forall k | 0 <= k < |idx| ensures idx[k] < n {
        if k < |before| { assert idx[k] == before[k]; }
      }
      forall k, l | 0 <= k < l < |idx| ensures idx[k] < idx[l] {
        assert idx[k] == before[k];
        if l < |before| { assert idx[l] == before[l]; }
      }
      forall i | 0 <= i < n
        ensures rule(lines[i]).Some? <==> i in idx
      {
        if i < n - 1 {
          assert lines[i] == init[i];
          assert i in idx <==> i in before;
        }
      }
    }
  }

  /**
   * Order is kept: there is one record per accepted line, and the k-th record
   * is what the k-th accepted line (in line order) parses to.
   */
  lemma {:induction false} CollectInOrder(lines: seq<string>, rule: string -> Option<Blade>)
    ensures var idx := Accepted(lines, rule);
      && |Collect(lines, rule)| == |idx|
      && (forall k | 0 <= k < |idx| :: idx[k] < |lines| && rule(lines[idx[k]]) == Some(Collect(lines, rule)[k]))
  {
    if lines != [] {
      var n := |lines|;
      var init, last := lines[..n - 1], lines[n - 1];
      CollectInOrder(init, rule);
      var idx, before := Accepted(lines, rule), Accepted(init, rule);
      var records, earlier := Collect(lines, rule), Collect(init, rule);
      assert idx == before + (if rule(last).Some? then [n - 1] else []);
      assert records == earlier + Emit(rule(last));
      forall k | 0 <= k < |idx|
        ensures idx[k] < n && rule(lines[idx[k]]) == Some(records[k])
      {
        if k < |before| {
          assert idx[k] == before[k] && records[k] == earlier[k];
          assert lines[before[k]] == init[before[k]];
        } else {
          assert idx[k] == n - 1 && records[k] == rule(last).value;
        }
      }
    }
  }

  // ---------------------------------------------------------------- the whole text

  /** Empty or whitespace-only input gives no records. */
  lemma BlankInput(text: string)
    requires AllSpace(text)
    ensures Parse(text) == []
  {
  }

  /**
   * The emptiness test in front of the loop changes nothing: parsing is the
   * collection over the lines of the stripped text in every case.
   */
  lemma ParseIsCollect(text: string)
    ensures Parse(text) == Collect(Lines(text), ParseLine)
  {
    if Strip(text) == [] {
      assert Lines(text) == [[]];
      CollectSingle([], ParseLine);
      assert Words(ReplaceTabs([])) == [];
    }
  }

  /**
   * Lines joined with line feeds come back as the same lines, provided none
   * holds a line feed and the text neither starts nor ends with whitespace
   * (otherwise `strip()` would cut into the first or last line).
   */
  lemma LinesOfJoin(lines: seq<string>)
    requires lines != [] && forall k | 0 <= k < |lines| :: '\n' !in lines[k]
    requires lines[0] != [] && !IsSpace(lines[0][0])
    requires var last := lines[|lines| - 1]; last != [] && !IsSpace(last[|last| - 1])
    ensures Lines(Join(lines, '\n')) == lines
  {
    var text := Join(lines, '\n');
    JoinEnds(lines, '\n');
    StripUnchanged(text);
    SplitJoin(lines, '\n');
  }

  // ---------------------------------------------------------------- the outer strip

  /** The per-line rule looks only at the tokens of the line. */
  lemma ParseLineByWords(x: string, y: string)
    requires Words(x) == Words(y)
    ensures ParseLine(x) == ParseLine(y)
  {
    WordsIgnoreTabs(x);
    WordsIgnoreTabs(y);
  }

  /** Padding the first line with whitespace changes no record. */
  lemma CollectFirstPadded(p: string, ys: seq<string>)
    requires ys != [] && AllSpace(p)
    ensures Collect([p + ys[0]] + ys[1..], ParseLine) == Collect(ys, ParseLine)
  {
    WordsLeadingSpace(p, ys[0]);
    ParseLineByWords(p + ys[0], ys[0]);
    CollectFirstSame(p + ys[0], ys[0], ys[1..], ParseLine);
    assert [ys[0]] + ys[1..] == ys;
  }

  /** Two first lines the rule treats alike give the same records. */
  lemma CollectFirstSame(a: string, b: string, rest: seq<string>, rule: string -> Option<Blade>)
    requires rule(a) == rule(b)
    ensures Collect([a] + rest, rule) == Collect([b] + rest, rule)
  {
    CollectAppend([a], rest, rule);
    CollectAppend([b], rest, rule);
    CollectSingle(a, rule);
    CollectSingle(b, rule);
  }

  /** Padding the last line with whitespace changes no record. */
  lemma CollectLastPadded(ys: seq<string>, q: string)
    requires ys != [] && AllSpace(q)
    ensures Collect(ys[..|ys| - 1] + [ys[|ys| - 1] + q], ParseLine) == Collect(ys, ParseLine)
  {
    var n := |ys| - 1;
    WordsTrailingSpaces(ys[n], q);
    ParseLineByWords(ys[n] + q, ys[n]);
    var zs := ys[..n] + [ys[n] + q];
    assert zs[..n] == ys[..n] && zs[n] == ys[n] + q;
  }

  /** A line of whitespace in front adds no record. */
  lemma CollectBlankFront(head: string, rest: string)
    requires '\n' !in head && AllSpace(head)
    ensures Collect(Split(head + ['\n'] + rest, '\n'), ParseLine) == Collect(Split(rest, '\n'), ParseLine)
  {
    SplitPrefix(head, rest, '\n');
    CollectAppend([head], Split(rest, '\n'), ParseLine);
    CollectSingle(head, ParseLine);
    ShortLineSkipped(head);
  }

  /** A line of whitespace at the end adds no record. */
  lemma CollectBlankBack(rest: string, tail: string)
    requires AllSpace(tail)
    ensures Collect(Split(rest + ['\n'] + tail, '\n'), ParseLine) == Collect(Split(rest, '\n'), ParseLine)
  {
    SplitConcat(rest, tail, '\n');
    CollectAppend(Split(rest, '\n'), Split(tail, '\n'), ParseLine);
    CollectBlankText(tail);
  }

  /** Whitespace on its own, line feeds included, gives no record. */
  lemma {:induction false} CollectBlankText(t: string)
    requires AllSpace(t)
    ensures Collect(Split(t, '\n'), ParseLine) == []
    decreases |t|
  {
    var i := IndexOf(t, '\n');
    if i == |t| {
      assert '\n' !in t;
      SplitFree(t, '\n');
      CollectSingle(t, ParseLine);
      ShortLineSkipped(t);
    } else {
      var head, tail := t[..i], t[i + 1..];
      assert t == head + ['\n'] + tail;
      assert AllSpace(head) && AllSpace(tail) by {
        assert forall k | 0 <= k < |head| :: head[k] == t[k];
        assert forall k | 0 <= k < |tail| :: tail[k] == t[i + 1 + k];
      }
      assert '\n' !in head by { assert forall k | 0 <= k < i :: head[k] == t[k]; }
      CollectBlankFront(head, tail);
      CollectBlankText(tail);
    }
  }

  /** A separator-free prefix is glued to the first piece. */
  lemma SplitFront(p: string, s: string, sep: char)
    requires sep !in p
    ensures var ys := Split(s, sep); Split(p + s, sep) == [p + ys[0]] + ys[1..]
  {
    var i := IndexOf(s, sep);
    if i == |s| {
      assert sep !in s;
      SplitFree(s, sep);
      SplitFree(p + s, sep);
    } else {
      var head, tail := s[..i], s[i + 1..];
      assert sep !in head by { assert forall k | 0 <= k < i :: head[k] == s[k]; }
      assert s == head + [sep] + tail;
      assert p + s == (p + head) + [sep] + tail;
      SplitPrefix(head, tail, sep);
      SplitPrefix(p + head, tail, sep);
    }
  }

  /** A separator-free suffix is glued to the last piece. */
  lemma SplitBack(s: string, q: string, sep: char)
    requires sep !in q
    ensures var ys := Split(s, sep); Split(s + q, sep) == ys[..|ys| - 1] + [ys[|ys| - 1] + q]
  {
    var ys := Split(s, sep);
    var ws := ys[..|ys| - 1] + [ys[|ys| - 1] + q];
    JoinSplit(s, sep);
    JoinGlueLast(ys, q, sep);
    assert forall k | 0 <= k < |ws| :: sep !in ws[k] by {
      forall k | 0 <= k < |ws|
        ensures sep !in ws[k]
      {
        if k < |ys| - 1 {
          assert ws[k] == ys[k];
        } else {
          assert ws[k] == ys[|ys| - 1] + q;
        }
      }
    }
    SplitJoin(ws, sep);
  }

  /** Text appended to a join is appended to its last part. */
  lemma {:induction false} JoinGlueLast(parts: seq<string>, q: string, sep: char)
    requires parts != []
    ensures Join(parts, sep) + q == Join(parts[..|parts| - 1] + [parts[|parts| - 1] + q], sep)
    decreases |parts|
  {
    var n := |parts|;
    var ws := parts[..n - 1] + [parts[n - 1] + q];
    if n == 1 {
      assert ws == [parts[0] + q];
    } else {
      var rest := parts[1..];
      var vs := rest[..|rest| - 1] + [rest[|rest| - 1] + q];
      assert ws[0] == parts[0] && ws[1..] == vs;
      calc {
        Join(parts, sep) + q;
        parts[0] + [sep] + Join(rest, sep) + q;
        { AppendAssoc(parts[0] + [sep], Join(rest, sep), q); }
        parts[0] + [sep] + (Join(rest, sep) + q);
        { JoinGlueLast(rest, q, sep); }
        parts[0] + [sep] + Join(vs, sep);
        Join(ws, sep);
      }
    }
  }

  /** Whitespace without line feeds around a text changes no record. */
  lemma CollectPaddedLine(p: string, s: string, q: string)
    requires '\n' !in p && '\n' !in q && AllSpace(p) && AllSpace(q)
    ensures Collect(Split(p + s + q, '\n'), ParseLine) == Collect(Split(s, '\n'), ParseLine)
  {
    var ys := Split(s, '\n');
    SplitBack(s, q, '\n');
    var zs := Split(s + q, '\n');
    assert p + s + q == p + (s + q);
    SplitFront(p, s + q, '\n');
    CollectFirstPadded(p, zs);
    CollectLastPadded(ys, q);
  }

  /** Whitespace around a text, line feeds included, adds no record and changes none. */
  lemma {:induction false} CollectPadded(p: string, s: string, q: string)
    requires AllSpace(p) && AllSpace(q)
    ensures Collect(Split(p + s + q, '\n'), ParseLine) == Collect(Split(s, '\n'), ParseLine)
    decreases |p| + |q|
  {
    var i := IndexOf(p, '\n');
    var j := IndexOf(q, '\n');
    if i < |p| {
      var head, tail := p[..i], p[i + 1..];
      assert p == head + ['\n'] + tail;
      assert AllSpace(head) && AllSpace(tail) by {
        assert forall k | 0 <= k < |head| :: head[k] == p[k];
        assert forall k | 0 <= k < |tail| :: tail[k] == p[i + 1 + k];
      }
      assert '\n' !in head by { assert forall k | 0 <= k < i :: head[k] == p[k]; }
      assert p + s + q == head + ['\n'] + (tail + s + q);
      CollectBlankFront(head, tail + s + q);
      CollectPadded(tail, s, q);
    } else if j < |q| {
      var head, tail := q[..j], q[j + 1..];
      assert q == head + ['\n'] + tail;
      assert AllSpace(head) && AllSpace(tail) by {
        assert forall k | 0 <= k < |head| :: head[k] == q[k];
        assert forall k | 0 <= k < |tail| :: tail[k] == q[j + 1 + k];
      }
      assert p + s + q == (p + s + head) + ['\n'] + tail;
      CollectBlankBack(p + s + head, tail);
      CollectPadded(p, s, head);
    } else {
      assert '\n' !in p && '\n' !in q;
      CollectPaddedLine(p, s, q);
    }
  }

  /**
   * The outer strip changes no record: parsing a text is collecting over the
   * lines exactly as pasted, leading and trailing blank lines included.
   */
  lemma ParseRawLines(text: string)
    ensures Parse(text) == Collect(Split(text, '\n'), ParseLine)
  {
    var p, q := StripPadding(text);
    CollectPadded(p, Strip(text), q);
    ParseIsCollect(text);
  }

  /** The whitespace that `Strip` removes from either end of a text. */
  lemma StripPadding(text: string) returns (p: string, q: string)
    ensures text == p + Strip(text) + q
    ensures AllSpace(p) && AllSpace(q)
  {
    var r := Strip(text);
    var i: nat :| StripsTo(text, r, i);
    var j := i + |r|;
    p, q := text[..i], text[j..];
    CutInThree(text, i, j);
    assert AllSpace(p) by {
      forall k | 0 <= k < |p| ensures IsSpace(p[k]) { assert p[k] == text[k]; }
    }
    assert AllSpace(q) by {
      forall k | 0 <= k < |q| ensures IsSpace(q[k]) { assert q[k] == text[j + k]; }
    }
  }

  /** A paste that ends in a line feed, as a spreadsheet copy does, parses like the same paste without it. */
  lemma TrailingLineFeedIgnored(text: string)
    ensures Parse(text + "\n") == Parse(text)
  {
    ParseRawLines(text + "\n");
    ParseRawLines(text);
    assert text + "\n" == text + ['\n'] + [];
    CollectBlankBack(text, []);
  }

  /**
   * The blade count never exceeds the number of lines of the stripped text,
   * which is one more than the number of line feeds inside it.
   */
  lemma ParseBound(text: string)
    ensures |Parse(text)| <= |Lines(text)| == multiset(Strip(text))['\n'] + 1
  {
    CollectBound(Lines(text), ParseLine);
    SplitCount(Strip(text), '\n');
  }
}
