/**
 * The Python string built-ins the pasted-text parser relies on:
 * `str.strip()`, `str.split('\n')`, `str.replace('\t', ' ')` and the
 * argument-less `str.split()` that cuts a line into whitespace-separated tokens.
 */
module Text {

  /**
   * A whitespace character as `str.strip()` and `str.split()` see it: the
   * ASCII controls tab to carriage return and the file, group, record and
   * unit separators, the space, and the Unicode spaces and line separators.
   */
  predicate IsSpace(c: char) {
    ('\t' <= c <= '\r') || ('\U{001C}' <= c <= ' ')
    || c == '\U{0085}' || c == '\U{00A0}' || c == '\U{1680}'
    || ('\U{2000}' <= c <= '\U{200A}') || c == '\U{2028}' || c == '\U{2029}'
    || c == '\U{202F}' || c == '\U{205F}' || c == '\U{3000}'
  }

  /** Every character of `s[lo..hi]` is whitespace. */
  predicate SpaceBetween(s: string, lo: nat, hi: nat)
    requires lo <= hi <= |s|
  {
    forall k | lo <= k < hi :: IsSpace(s[k])
  }

  predicate AllSpace(s: string) {
    SpaceBetween(s, 0, |s|)
  }

  /** A token of `str.split()`: non-empty and free of whitespace. */
  predicate IsWord(w: string) {
    w != [] && forall k | 0 <= k < |w| :: !IsSpace(w[k])
  }

  // ---------------------------------------------------------------- strip

  /** The scan of `str.strip()` from the left: the first non-whitespace index at or after `i`. */
  function SkipSpace(s: string, i: nat): (n: nat)
    requires i <= |s|
    ensures i <= n <= |s| && SpaceBetween(s, i, n)
    ensures n == |s| || !IsSpace(s[n])
    decreases |s| - i
  {
    if i < |s| && IsSpace(s[i]) then SkipSpace(s, i + 1) else i
  }

  /** The scan of `str.strip()` from the right: moves `j` down past whitespace, never below `lo`. */
  function SkipSpaceBack(s: string, lo: nat, j: nat): (n: nat)
    requires lo <= j <= |s|
    ensures lo <= n <= j && SpaceBetween(s, n, j)
    ensures n == lo || !IsSpace(s[n - 1])
  {
    if lo < j && IsSpace(s[j - 1]) then SkipSpaceBack(s, lo, j - 1) else j
  }

  /**
   * `r` is the slice of `s` that starts at `i`, everything around it is
   * whitespace, and it neither starts nor ends with whitespace.
   */
  predicate StripsTo(s: string, r: string, i: nat) {
    i + |r| <= |s| && r == s[i..i + |r|]
    && SpaceBetween(s, 0, i) && SpaceBetween(s, i + |r|, |s|)
    && (r == [] || (!IsSpace(s[i]) && !IsSpace(s[i + |r| - 1])))
  }

  /** Python's `s.strip()`. */
  function Strip(s: string): (r: string)
    ensures exists i :: StripsTo(s, r, i)
    ensures r == [] <==> AllSpace(s)
  {
    var i := SkipSpace(s, 0);
    var j := SkipSpaceBack(s, i, |s|);
    assert StripsTo(s, s[i..j], i);
    s[i..j]
  }

  /** `StripsTo` pins the stripped string down: it is exactly what `Strip` returns. */
  lemma StripUnique(s: string, r: string, i: nat)
    requires StripsTo(s, r, i)
    ensures r == Strip(s)
  {
    var q := Strip(s);
    var j: nat :| StripsTo(s, q, j);
    if r != [] && q != [] {
      assert !IsSpace(s[i]) && !IsSpace(s[j]);
      assert i == j;
      assert !IsSpace(s[i + |r| - 1]) && !IsSpace(s[j + |q| - 1]);
      assert |r| == |q|;
    }
  }

  /** A string that neither starts nor ends with whitespace is left as it is. */
  lemma StripUnchanged(s: string)
    requires s != [] && !IsSpace(s[0]) && !IsSpace(s[|s| - 1])
    ensures Strip(s) == s
  {
    assert s[0..|s|] == s;
    assert StripsTo(s, s, 0);
    StripUnique(s, s, 0);
  }

  // ---------------------------------------------------------------- split on a separator

  /** Concatenation of `parts` with `sep` between neighbours: Python's `sep.join(parts)`. */
  function Join(parts: seq<string>, sep: char): string
    requires parts != []
  {
    if |parts| == 1 then parts[0] else parts[0] + [sep] + Join(parts[1..], sep)
  }

  /** The joined string begins with the first part and ends with the last one. */
  lemma {:induction false} JoinEnds(parts: seq<string>, sep: char)
    requires parts != []
    ensures parts[0] != [] ==> Join(parts, sep)[0] == parts[0][0]
    ensures var last := parts[|parts| - 1];
      |Join(parts, sep)| >= |last|
      && (last != [] ==> Join(parts, sep)[|Join(parts, sep)| - 1] == last[|last| - 1])
  {
    if |parts| > 1 {
      JoinEnds(parts[1..], sep);
      assert parts[1..][|parts[1..]| - 1] == parts[|parts| - 1];
    }
  }

  /** Index of the first `c` in `s`, or `|s|` when there is none. */
  function IndexOf(s: string, c: char): (i: nat)
    ensures i <= |s|
    ensures forall k | 0 <= k < i :: s[k] != c
    ensures i < |s| ==> s[i] == c
  {
    if s == [] then 0 else if s[0] == c then 0 else 1 + IndexOf(s[1..], c)
  }

  /**
   * Python's `s.split(sep)` for a one-character separator: always at least one
   * piece (the empty string gives `[""]`), and no piece contains the separator.
   */
  function Split(s: string, sep: char): (r: seq<string>)
    ensures r != []
    ensures forall k | 0 <= k < |r| :: sep !in r[k]
    decreases |s|
  {
    var i := IndexOf(s, sep);
    if i == |s| then [s]
    else [s[..i]] + Split(s[i + 1..], sep)
  }

  /** There is one more piece than there are separators. */
  lemma {:induction false} SplitCount(s: string, sep: char)
    ensures |Split(s, sep)| == multiset(s)[sep] + 1
    decreases |s|
  {
    var i := IndexOf(s, sep);
    if i == |s| {
      assert sep !in multiset(s);
    } else {
      SplitCount(s[i + 1..], sep);
      assert s == s[..i] + [sep] + s[i + 1..];
      assert sep !in multiset(s[..i]);
      assert multiset(s) == multiset(s[..i]) + multiset{sep} + multiset(s[i + 1..]);
    }
  }

  /** Gluing the pieces back together with the separator gives the original string. */
  lemma {:induction false} JoinSplit(s: string, sep: char)
    ensures Join(Split(s, sep), sep) == s
    decreases |s|
  {
    var i := IndexOf(s, sep);
    if i < |s| {
      var rest := Split(s[i + 1..], sep);
      calc {
        Join(Split(s, sep), sep);
        Join([s[..i]] + rest, sep);
        { assert ([s[..i]] + rest)[1..] == rest; }
        s[..i] + [sep] + Join(rest, sep);
        { JoinSplit(s[i + 1..], sep); }
        s[..i] + [sep] + s[i + 1..];
        { assert s[..i] + [sep] + s[i + 1..] == s; }
        s;
      }
    }
  }

  /** Splitting a join of separator-free pieces gives the pieces back. */
  lemma {:induction false} SplitJoin(parts: seq<string>, sep: char)
    requires parts != []
    requires forall k | 0 <= k < |parts| :: sep !in parts[k]
    ensures Split(Join(parts, sep), sep) == parts
  {
    if |parts| == 1 {
      SplitFree(parts[0], sep);
    } else {
      SplitJoin(parts[1..], sep);
      SplitPrefix(parts[0], Join(parts[1..], sep), sep);
      assert [parts[0]] + parts[1..] == parts;
    }
  }

  /** A string without the separator splits into itself. */
  lemma SplitFree(s: string, sep: char)
    requires sep !in s
    ensures Split(s, sep) == [s]
  {
  }

  /** A separator-free prefix followed by the separator becomes the first piece. */
  lemma SplitPrefix(p: string, rest: string, sep: char)
    requires sep !in p
    ensures Split(p + [sep] + rest, sep) == [p] + Split(rest, sep)
  {
    var s := p + [sep] + rest;
    assert IndexOf(s, sep) == |p| by {
      assert s[|p|] == sep;
      assert forall k | 0 <= k < |p| :: s[k] == p[k];
    }
    assert s[..|p|] == p && s[|p| + 1..] == rest;
  }

  /** Splitting at one separator occurrence: the pieces of the two sides, one list after the other. */
  lemma {:induction false} SplitConcat(a: string, b: string, sep: char)
    ensures Split(a + [sep] + b, sep) == Split(a, sep) + Split(b, sep)
    decreases |a|
  {
    var i := IndexOf(a, sep);
    if i == |a| {
      SplitPrefix(a, b, sep);
    } else {
      var head, tail := a[..i], a[i + 1..];
      assert a == head + [sep] + tail;
      assert a + [sep] + b == head + [sep] + (tail + [sep] + b);
      SplitPrefix(head, tail + [sep] + b, sep);
      SplitConcat(tail, b, sep);
      SplitPrefix(head, tail, sep);
      AppendAssoc([head], Split(tail, sep), Split(b, sep));
    }
  }

  // ---------------------------------------------------------------- tabs

  /** Python's `s.replace('\t', ' ')`: every tab becomes a space, everything else stays. */
  function ReplaceTabs(s: string): (r: string)
    ensures |r| == |s| && '\t' !in r
    ensures forall k | 0 <= k < |s| :: r[k] == (if s[k] == '\t' then ' ' else s[k])
  {
    if s == [] then []
    else [if s[0] == '\t' then ' ' else s[0]] + ReplaceTabs(s[1..])
  }

  // ---------------------------------------------------------------- split on whitespace

  /**
   * Python's argument-less `s.split()`: the maximal runs of non-whitespace
   * characters, in order; leading, trailing and repeated whitespace yield no
   * empty tokens.
   */
  function Words(s: string): (r: seq<string>)
    ensures forall k | 0 <= k < |r| :: IsWord(r[k])
    ensures r == [] <==> AllSpace(s)
    ensures s != [] && !IsSpace(s[0]) ==> r != [] && |r[0]| > 0 && r[0][0] == s[0]
  {
    if s == [] then []
    else
      var rest := Words(s[1..]);
      if IsSpace(s[0]) then
        assert AllSpace(s) <==> AllSpace(s[1..]) by {
          if AllSpace(s[1..]) { forall k | 0 <= k < |s| ensures IsSpace(s[k]) { if k > 0 { assert s[k] == s[1..][k - 1]; } } }
          if AllSpace(s) { forall k | 0 <= k < |s| - 1 ensures IsSpace(s[1..][k]) { assert s[1..][k] == s[k + 1]; } }
        }
        rest
      else if |s| > 1 && !IsSpace(s[1]) then
        [[s[0]] + rest[0]] + rest[1..]
      else
        [[s[0]]] + rest
  }

  /**
   * Tokenising depends only on where the whitespace is and on the other
   * characters: two strings that agree on both give the same tokens.
   */
  predicate SameLayout(s: string, t: string) {
    |s| == |t|
    && forall k | 0 <= k < |s| :: (IsSpace(s[k]) <==> IsSpace(t[k])) && (!IsSpace(s[k]) ==> s[k] == t[k])
  }

  lemma {:induction false} WordsSameLayout(s: string, t: string)
    requires SameLayout(s, t)
    ensures Words(s) == Words(t)
  {
    if s != [] {
      assert SameLayout(s[1..], t[1..]) by {
        forall k | 0 <= k < |s| - 1
          ensures (IsSpace(s[1..][k]) <==> IsSpace(t[1..][k])) && (!IsSpace(s[1..][k]) ==> s[1..][k] == t[1..][k])
        {
          assert s[1..][k] == s[k + 1] && t[1..][k] == t[k + 1];
        }
      }
      WordsSameLayout(s[1..], t[1..]);
    }
  }

  /** Tabs separate tokens exactly as spaces do: replacing them first changes nothing. */
  lemma WordsIgnoreTabs(s: string)
    ensures Words(ReplaceTabs(s)) == Words(s)
  {
    WordsSameLayout(ReplaceTabs(s), s);
  }

  /** A trailing whitespace character (such as the `'\r'` of a CRLF line) adds no token. */
  lemma {:induction false} WordsTrailingSpace(s: string, c: char)
    requires IsSpace(c)
    ensures Words(s + [c]) == Words(s)
  {
    if s != [] {
      var t := s + [c];
      assert t[1..] == s[1..] + [c];
      WordsTrailingSpace(s[1..], c);
      if |s| == 1 {
        assert t[1..] == [c];
      }
    }
  }

  /**
   * A whitespace character cuts the tokens: those of the text before it and
   * those of the text after it, one list after the other. With `Words("") == []`
   * and `WordsOfWord`, this fixes `Words` on every string.
   */
  lemma {:induction false} WordsSplitAtSpace(s: string, c: char, t: string)
    requires IsSpace(c)
    ensures Words(s + [c] + t) == Words(s) + Words(t)
  {
    if s == [] {
      WordsCons(c, t);
      assert s + [c] + t == [c] + t;
    } else {
      var a, rest := s[0], s[1..];
      assert s == [a] + rest;
      assert s + [c] + t == [a] + (rest + [c] + t);
      WordsSplitAtSpace(rest, c, t);
      var v := rest + [c] + t;
      assert v[0] == if rest != [] then rest[0] else c;
      WordsSplitStep(a, rest, v, Words(t));
    }
  }

  /**
   * The inductive step of `WordsSplitAtSpace`: a character put in front of
   * two strings that start alike joins or opens tokens in both alike.
   */
  lemma WordsSplitStep(a: char, rest: string, v: string, r: seq<string>)
    requires Words(v) == Words(rest) + r
    requires (v != [] && !IsSpace(v[0])) <==> (rest != [] && !IsSpace(rest[0]))
    ensures Words([a] + v) == Words([a] + rest) + r
  {
    WordsCons(a, rest);
    WordsCons(a, v);
    var w := Words(rest);
    if !IsSpace(a) {
      if rest != [] && !IsSpace(rest[0]) {
        MergeFront([a], w, r);
      } else {
        AppendAssoc([[a]], w, r);
      }
    }
  }

  /** Gluing a prefix onto the first token commutes with appending more tokens. */
  lemma MergeFront(x: string, w: seq<string>, r: seq<string>)
    requires w != []
    ensures [x + (w + r)[0]] + (w + r)[1..] == ([x + w[0]] + w[1..]) + r
  {
    assert (w + r)[0] == w[0] && (w + r)[1..] == w[1..] + r;
    AppendAssoc([x + w[0]], w[1..], r);
  }

  lemma AppendAssoc<T>(x: seq<T>, y: seq<T>, z: seq<T>)
    ensures x + (y + z) == (x + y) + z
  {
  }

  /** A sequence is the concatenation of the three slices two cut points make. */
  lemma CutInThree<T>(s: seq<T>, i: nat, j: nat)
    requires i <= j <= |s|
    ensures s == s[..i] + s[i..j] + s[j..]
  {
    assert s[..j] == s[..i] + s[i..j];
    assert s == s[..j] + s[j..];
  }

  /** One step of the tokeniser: what a leading character does to the tokens of the rest. */
  lemma WordsCons(a: char, v: string)
    ensures Words([a] + v)
         == if IsSpace(a) then Words(v)
            else if v != [] && !IsSpace(v[0]) then [[a] + Words(v)[0]] + Words(v)[1..]
            else [[a]] + Words(v)
  {
    var s := [a] + v;
    assert s[0] == a && s[1..] == v;
  }

  /** A word on its own is its only token. */
  lemma WordsOfWord(w: string)
    requires IsWord(w)
    ensures Words(w) == [w]
  {
    WordsOfWordThen(w, []);
    assert w + [] == w;
  }

  /** Whitespace around a text adds no token. */
  lemma WordsPadded(p: string, s: string, q: string)
    requires AllSpace(p) && AllSpace(q)
    ensures Words(p + s + q) == Words(s)
  {
    assert p + s + q == p + (s + q);
    WordsLeadingSpace(p, s + q);
    WordsTrailingSpaces(s, q);
  }

  lemma WordsLeadingSpace(p: string, s: string)
    requires AllSpace(p)
    ensures Words(p + s) == Words(s)
  {
    if p != [] {
      var n := |p| - 1;
      assert p + s == p[..n] + [p[n]] + s;
      assert AllSpace(p[..n]) by { assert forall k | 0 <= k < n :: p[..n][k] == p[k]; }
      WordsSplitAtSpace(p[..n], p[n], s);
    } else {
      assert p + s == s;
    }
  }

  lemma WordsTrailingSpaces(s: string, q: string)
    requires AllSpace(q)
    ensures Words(s + q) == Words(s)
  {
    if q != [] {
      assert s + q == s + [q[0]] + q[1..];
      assert AllSpace(q[1..]) by { assert forall k | 0 <= k < |q| - 1 :: q[1..][k] == q[k + 1]; }
      WordsSplitAtSpace(s, q[0], q[1..]);
    } else {
      assert s + q == s;
    }
  }

  /** Python's `' '.join(ws)`. */
  function Unwords(ws: seq<string>): string {
    if ws == [] then [] else if |ws| == 1 then ws[0] else ws[0] + " " + Unwords(ws[1..])
  }

  /** A word followed by nothing or by whitespace is the first token. */
  lemma {:induction false} WordsOfWordThen(w: string, rest: string)
    requires IsWord(w)
    requires rest == [] || IsSpace(rest[0])
    ensures Words(w + rest) == [w] + Words(rest)
  {
    var s := w + rest;
    assert s[1..] == w[1..] + rest;
    if |w| == 1 {
      assert s[1..] == rest;
      assert [w[0]] == w;
    } else {
      assert IsWord(w[1..]) by { forall k | 0 <= k < |w| - 1 ensures !IsSpace(w[1..][k]) { assert w[1..][k] == w[k + 1]; } }
      WordsOfWordThen(w[1..], rest);
      assert s[1] == w[1];
      assert [w[0]] + w[1..] == w;
    }
  }

  /** Joining tokens with single spaces and splitting again gives the same tokens. */
  lemma {:induction false} WordsUnwords(ws: seq<string>)
    requires forall k | 0 <= k < |ws| :: IsWord(ws[k])
    ensures Words(Unwords(ws)) == ws
  {
    if |ws| == 1 {
      WordsOfWordThen(ws[0], []);
      assert ws[0] + [] == ws[0];
    } else if |ws| > 1 {
      var t := Unwords(ws[1..]);
      assert forall k | 0 <= k < |ws| - 1 :: IsWord(ws[1..][k]) by {
        forall k | 0 <= k < |ws| - 1 ensures IsWord(ws[1..][k]) { assert ws[1..][k] == ws[k + 1]; }
      }
      calc {
        Words(Unwords(ws));
        { assert Unwords(ws) == ws[0] + (" " + t); }
        Words(ws[0] + (" " + t));
        { WordsOfWordThen(ws[0], " " + t); }
        [ws[0]] + Words(" " + t);
        { WordsCons(' ', t); }
        [ws[0]] + Words(t);
        { WordsUnwords(ws[1..]); }
        [ws[0]] + ws[1..];
      }
      assert [ws[0]] + ws[1..] == ws;
    }
  }
}
