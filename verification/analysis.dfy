/**
 * The vector synthesis behind the dashboard's result card: each blade is a
 * phasor of length `magnitude` at `phase` degrees; the phasors are summed in
 * Cartesian form and the sum is read back as a length and an angle in
 * [0, 360). The floating-point cosine, sine, two-argument arctangent and
 * hypotenuse of the numerical library are not modelled; they are passed in.
 */
module Analysis {
  import opened BladeParser

  /** The numerical library's trigonometry, left uninterpreted. */
  datatype Trig = Trig(
    cos: real -> real,
    sin: real -> real,
    atan2: (real, real) -> real,
    hypot: (real, real) -> real)

  /** The decimal Python prints for `math.pi`, the library's value of the constant. */
  const Pi: real := 3.141592653589793

  function Radians(degrees: real): real {
    degrees * Pi / 180.0
  }

  function Degrees(radians: real): real {
    radians * 180.0 / Pi
  }

  /**
   * Floored remainder by 360, as Python's `x % 360` on floats, in exact
   * arithmetic always in [0, 360). With rounding, a tiny negative `x` gives
   * 360.0 in Python; the dashboard's argument is at least 180, where this
   * cannot happen.
   */
  function Mod360(x: real): (r: real)
    ensures 0.0 <= r < 360.0
  {
    x - 360.0 * (x / 360.0).Floor as real
  }

  /** Adding a full turn does not change the remainder. */
  lemma Mod360Periodic(x: real)
    ensures Mod360(x + 360.0) == Mod360(x)
  {
    assert ((x + 360.0) / 360.0).Floor == (x / 360.0).Floor + 1;
  }

  /** An angle already in [0, 360) is its own remainder. */
  lemma Mod360InRange(x: real)
    requires 0.0 <= x < 360.0
    ensures Mod360(x) == x
  {
    assert (x / 360.0).Floor == 0;
  }

  /** Sum of `f` over the blades, in list order. */
  function SumOf(blades: seq<Blade>, f: Blade -> real): real {
    if blades == [] then 0.0 else f(blades[0]) + SumOf(blades[1..], f)
  }

  function XComponent(trig: Trig): Blade -> real {
    (b: Blade) => b.magnitude * trig.cos(Radians(b.phase))
  }

  function YComponent(trig: Trig): Blade -> real {
    (b: Blade) => b.magnitude * trig.sin(Radians(b.phase))
  }

  /**
   * The resultant (magnitude, angle) of the blades. No blades give (0, 0);
   * otherwise the angle is the direction of the summed phasor, brought into
   * [0, 360).
   */
  function Analyze(blades: seq<Blade>, trig: Trig): (r: (real, real))
    ensures blades == [] ==> r == (0.0, 0.0)
    ensures 0.0 <= r.1 < 360.0
  {
    if blades == [] then (0.0, 0.0)
    else
      var sx := SumOf(blades, XComponent(trig));
      var sy := SumOf(blades, YComponent(trig));
      (trig.hypot(sx, sy), Mod360(Degrees(trig.atan2(sy, sx)) + 360.0))
  }

  /** The sum over two lists one after the other is the sum of their sums. */
  lemma {:induction false} SumOfAppend(a: seq<Blade>, b: seq<Blade>, f: Blade -> real)
    ensures SumOf(a + b, f) == SumOf(a, f) + SumOf(b, f)
  {
    if a == [] {
      assert a + b == b;
    } else {
      SumOfAppend(a[1..], b, f);
      assert (a + b)[1..] == a[1..] + b;
    }
  }

  /** Summing in another order gives the same total. */
  lemma {:induction false} SumOfPermutation(a: seq<Blade>, b: seq<Blade>, f: Blade -> real)
    requires multiset(a) == multiset(b)
    ensures SumOf(a, f) == SumOf(b, f)
  {
    if a != [] {
      var x := a[0];
      assert x in multiset(b);
      var j :| 0 <= j < |b| && b[j] == x;
      var left, right := b[..j], b[j + 1..];
      assert b == left + [x] + right;
      RemoveFirst(a, b, j);
      calc {
        SumOf(a, f);
        f(x) + SumOf(a[1..], f);
        { SumOfPermutation(a[1..], left + right, f); }
        f(x) + SumOf(left + right, f);
        { SumOfAppend(left, right, f); }
        SumOf(left, f) + f(x) + SumOf(right, f);
        { assert SumOf([x], f) == f(x); SumOfAppend(left, [x], f); }
        SumOf(left + [x], f) + SumOf(right, f);
        { SumOfAppend(left + [x], right, f); }
        SumOf(b, f);
      }
    }
  }

  /** Taking the first blade of `a` out of `a` and out of `b` at `j` leaves equal multisets. */
  lemma RemoveFirst(a: seq<Blade>, b: seq<Blade>, j: nat)
    requires multiset(a) == multiset(b) && a != [] && j < |b| && b[j] == a[0]
    ensures multiset(a[1..]) == multiset(b[..j] + b[j + 1..])
  {
    var x := a[0];
    assert a == [x] + a[1..];
    assert b == b[..j] + [x] + b[j + 1..];
    calc {
      multiset(a[1..]);
      multiset(a) - multiset{x};
      multiset(b) - multiset{x};
      multiset(b[..j]) + multiset(b[j + 1..]);
    }
  }

  /** The resultant does not depend on the order in which the blades were pasted. */
  lemma AnalyzePermutation(a: seq<Blade>, b: seq<Blade>, trig: Trig)
    requires multiset(a) == multiset(b)
    ensures Analyze(a, trig) == Analyze(b, trig)
  {
    SumOfPermutation(a, b, XComponent(trig));
    SumOfPermutation(a, b, YComponent(trig));
    assert a == [] <==> b == [] by {
      assert |a| == |multiset(a)| && |b| == |multiset(b)|;
    }
  }

  /** The diagnosis panel's two verdicts. */
  datatype Diagnosis = Critical | Stable

  const CriticalThreshold: real := 0.05

  function Diagnose(magnitude: real): Diagnosis {
    if magnitude > CriticalThreshold then Critical else Stable
  }

  /** Critical exactly above the threshold; the threshold itself is stable. */
  lemma DiagnoseThreshold(magnitude: real)
    ensures Diagnose(magnitude) == Critical <==> magnitude > 0.05
    ensures Diagnose(magnitude) == Stable <==> magnitude <= 0.05
    ensures Diagnose(0.05) == Stable
  {
  }

  /** A larger resultant is never judged better than a smaller one. */
  lemma DiagnoseMonotone(smaller: real, larger: real)
    requires smaller <= larger && Diagnose(smaller) == Critical
    ensures Diagnose(larger) == Critical
  {
  }
}
