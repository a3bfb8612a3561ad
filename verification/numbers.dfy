/**
 * The decimal subset of Python's `float(token)`: an optional sign, then
 * digits with an optional `.` and fraction (`"12"`, `"-3.5"`, `"4."`, `".25"`),
 * read as an exact real. Any other token is rejected, as `float()` raises.
 */
module Numbers {
  import opened Wrappers
  import opened Text

  predicate IsDigit(c: char) {
    '0' <= c <= '9'
  }

  predicate AllDigits(s: string) {
    forall k | 0 <= k < |s| :: IsDigit(s[k])
  }

  function DigitValue(c: char): (d: nat)
    requires IsDigit(c)
    ensures d < 10
  {
    c as int - '0' as int
  }

  function Pow10(k: nat): (p: nat)
    ensures p >= 1
  {
    if k == 0 then 1 else 10 * Pow10(k - 1)
  }

  /** The natural number a string of decimal digits denotes (`""` denotes 0). */
  function DigitsValue(s: string): (n: nat)
    requires AllDigits(s)
    ensures n < Pow10(|s|)
  {
    if s == [] then 0 else 10 * DigitsValue(s[..|s| - 1]) + DigitValue(s[|s| - 1])
  }

  /** An unsigned decimal: digits, or digits around one `.`, with at least one digit. */
  function ParseUnsigned(t: string): Option<real> {
    var dot := IndexOf(t, '.');
    if dot == |t| then
      if t != [] && AllDigits(t) then Some(DigitsValue(t) as real) else None
    else
      var whole, fraction := t[..dot], t[dot + 1..];
      if AllDigits(whole) && AllDigits(fraction) && |whole| + |fraction| > 0 then
        Some(Decimal(DigitsValue(whole), DigitsValue(fraction), |fraction|))
      else None
  }

  /** The real `whole.fraction`, the fraction written with `places` digits. */
  function Decimal(whole: nat, fraction: nat, places: nat): real {
    whole as real + fraction as real / Pow10(places) as real
  }

  /** A character that can occur in an accepted number. */
  predicate IsNumeral(c: char) {
    IsDigit(c) || c == '.' || c == '+' || c == '-'
  }

  /**
   * Python's `float(token)` on the decimal subset. An accepted token is
   * non-empty and holds a digit; a sign may stand only in front, and there
   * is at most one point. A token with a letter or any other character is
   * rejected.
   */
  function ParseNum(t: string): (r: Option<real>)
    ensures r.Some? ==> t != [] && forall k | 0 <= k < |t| :: IsNumeral(t[k])
    ensures r.Some? ==> exists k | 0 <= k < |t| :: IsDigit(t[k])
  {
    if t != [] && (t[0] == '+' || t[0] == '-') then
      match ParseUnsigned(t[1..])
      case None => None
      case Some(v) =>
        UnsignedShape(t[1..]);
        assert forall k | 1 <= k < |t| :: t[k] == t[1..][k - 1];
        Some(if t[0] == '-' then -v else v)
    else
      UnsignedShape(t);
      ParseUnsigned(t)
  }

  /**
   * Where signs and points may stand in an accepted token: a sign only in
   * front, and at most one point. `"1-2"`, `"5+"` and `"1.2.3"` are rejected.
   */
  lemma ParseNumShape(t: string)
    ensures ParseNum(t).Some? ==> forall k | 0 < k < |t| :: IsDigit(t[k]) || t[k] == '.'
    ensures ParseNum(t).Some? ==> forall i, j | 0 <= i < j < |t| :: !(t[i] == '.' && t[j] == '.')
  {
    if ParseNum(t).Some? {
      if t[0] == '+' || t[0] == '-' {
        var u := t[1..];
        UnsignedShape(u);
        UnsignedOneDot(u);
        forall k | 0 < k < |t| ensures IsDigit(t[k]) || t[k] == '.' {
          assert t[k] == u[k - 1];
        }
        forall i, j | 0 <= i < j < |t| ensures !(t[i] == '.' && t[j] == '.') {
          if i > 0 { assert t[i] == u[i - 1] && t[j] == u[j - 1]; }
        }
      } else {
        UnsignedShape(t);
        UnsignedOneDot(t);
      }
    }
  }

  /** An accepted unsigned decimal has at most one point. */
  lemma UnsignedOneDot(t: string)
    ensures ParseUnsigned(t).Some? ==> forall i, j | 0 <= i < j < |t| :: !(t[i] == '.' && t[j] == '.')
  {
    var dot := IndexOf(t, '.');
    if ParseUnsigned(t).Some? && dot < |t| {
      var fraction := t[dot + 1..];
      forall k | dot < k < |t| ensures IsDigit(t[k]) {
        assert t[k] == fraction[k - dot - 1];
      }
    }
  }

  /** What an accepted unsigned decimal looks like. */
  lemma UnsignedShape(t: string)
    ensures ParseUnsigned(t).Some? ==> forall k | 0 <= k < |t| :: IsDigit(t[k]) || t[k] == '.'
    ensures ParseUnsigned(t).Some? ==> exists k | 0 <= k < |t| :: IsDigit(t[k])
  {
    var dot := IndexOf(t, '.');
    if ParseUnsigned(t).Some? && dot < |t| {
      var whole, fraction := t[..dot], t[dot + 1..];
      forall k | 0 <= k < |t| ensures IsDigit(t[k]) || t[k] == '.' {
        if k < dot { assert t[k] == whole[k]; } else if k > dot { assert t[k] == fraction[k - dot - 1]; }
      }
      if |whole| > 0 { assert IsDigit(t[0]) by { assert t[0] == whole[0]; } }
      else { assert IsDigit(t[dot + 1]) by { assert t[dot + 1] == fraction[0]; } }
    }
  }

  // ---------------------------------------------------------------- rendering, for round trips

  function DigitChar(d: nat): (c: char)
    requires d < 10
    ensures IsDigit(c) && DigitValue(c) == d
  {
    ('0' as int + d) as char
  }

  /** The decimal rendering of a natural number, as `str(n)` gives it. */
  function NatString(n: nat): (s: string)
    ensures s != [] && AllDigits(s)
  {
    if n < 10 then [DigitChar(n)] else NatString(n / 10) + [DigitChar(n % 10)]
  }

  lemma {:induction false} DigitsValueNatString(n: nat)
    ensures DigitsValue(NatString(n)) == n
  {
    if n >= 10 {
      DigitsValueNatString(n / 10);
      var s := NatString(n);
      assert s[..|s| - 1] == NatString(n / 10);
    }
  }

  /** Reading back the decimal rendering of an integer gives that integer. */
  lemma ParseNumInt(n: nat)
    ensures ParseNum(NatString(n)) == Some(n as real)
    ensures ParseNum("-" + NatString(n)) == Some(-(n as real))
    ensures ParseNum("+" + NatString(n)) == Some(n as real)
  {
    DigitsValueNatString(n);
    var s := NatString(n);
    assert IndexOf(s, '.') == |s| by { NoDot(s); }
    assert ("-" + s)[1..] == s;
    assert ("+" + s)[1..] == s;
  }

  lemma NoDot(s: string)
    requires AllDigits(s)
    ensures IndexOf(s, '.') == |s|
  {
  }

  /**
   * Reading back a fixed-point rendering: the digits before the point give the
   * whole part, the `k` digits after it count in units of `10^-k`.
   */
  lemma ParseNumFixed(whole: nat, fraction: string)
    requires AllDigits(fraction)
    ensures ParseNum(NatString(whole) + "." + fraction)
         == Some(Decimal(whole, DigitsValue(fraction), |fraction|))
  {
    DigitsValueNatString(whole);
    var w := NatString(whole);
    NoDot(w);
    IndexOfAfter(w, fraction);
    ParseUnsignedDot(w, fraction);
    assert (w + "." + fraction)[0] == w[0];
  }

  /**
   * A signed fixed-point rendering reads back as the signed value `v` of its
   * digits: `"-3.913"` is -3.913 and `"+3.913"` is 3.913.
   */
  lemma ParseNumSignedFixed(whole: nat, fraction: string, v: real)
    requires AllDigits(fraction) && v == Decimal(whole, DigitsValue(fraction), |fraction|)
    ensures ParseNum(['-'] + (NatString(whole) + "." + fraction)) == Some(-v)
    ensures ParseNum(['+'] + (NatString(whole) + "." + fraction)) == Some(v)
  {
    UnsignedFixed(whole, fraction);
    ParseNumSigned(NatString(whole) + "." + fraction, v);
  }

  lemma UnsignedFixed(whole: nat, fraction: string)
    requires AllDigits(fraction)
    ensures ParseUnsigned(NatString(whole) + "." + fraction) == Some(Decimal(whole, DigitsValue(fraction), |fraction|))
  {
    DigitsValueNatString(whole);
    NoDot(NatString(whole));
    IndexOfAfter(NatString(whole), fraction);
    ParseUnsignedDot(NatString(whole), fraction);
  }

  /** A sign in front of an unsigned decimal: `-` negates its value, `+` keeps it. */
  lemma ParseNumSigned(u: string, v: real)
    requires ParseUnsigned(u) == Some(v)
    ensures ParseNum(['-'] + u) == Some(-v)
    ensures ParseNum(['+'] + u) == Some(v)
  {
    assert (['-'] + u)[1..] == u && (['+'] + u)[1..] == u;
  }

  /** An unsigned decimal `w.f` whose whole part has no point. */
  lemma ParseUnsignedDot(w: string, f: string)
    requires AllDigits(w) && AllDigits(f) && |w| + |f| > 0
    requires IndexOf(w + "." + f, '.') == |w|
    ensures ParseUnsigned(w + "." + f)
         == Some(Decimal(DigitsValue(w), DigitsValue(f), |f|))
  {
    var t := w + "." + f;
    assert t[..|w|] == w && t[|w| + 1..] == f;
  }

  lemma {:induction false} IndexOfAfter(w: string, rest: string)
    requires IndexOf(w, '.') == |w|
    ensures IndexOf(w + "." + rest, '.') == |w|
  {
    if w != [] {
      assert (w + "." + rest)[1..] == w[1..] + "." + rest;
      IndexOfAfter(w[1..], rest);
    }
  }
}
