/**
 * The dashboard's flow from pasted text to result card: parse, and when at
 * least one blade was detected, show the blade count, the resultant and the
 * diagnosis; with no blades it shows the placeholder instead.
 */
module Dashboard {
  import opened Wrappers
  import opened BladeParser
  import opened Analysis

  /** What the result column shows once blades are detected. */
  datatype Report = Report(bladeCount: nat, magnitude: real, angle: real, diagnosis: Diagnosis)

  /** `None` stands for the placeholder screen shown when no blade was detected. */
  function Render(text: string, trig: Trig): (r: Option<Report>)
    ensures r.None? <==> Parse(text) == []
    ensures r.Some? ==> 1 <= r.value.bladeCount == |Parse(text)| <= |Lines(text)|
    ensures r.Some? ==> 0.0 <= r.value.angle < 360.0
    ensures r.Some? ==> (r.value.diagnosis == Critical <==> r.value.magnitude > 0.05)
    ensures r.Some? ==> (r.value.magnitude, r.value.angle) == Analyze(Parse(text), trig)
    ensures r.Some? ==> r.value.diagnosis == Diagnose(r.value.magnitude)
  {
    var blades := Parse(text);
    if blades == [] then None
    else
      ParseBound(text);
      var (magnitude, angle) := Analyze(blades, trig);
      Some(Report(|blades|, magnitude, angle, Diagnose(magnitude)))
  }
}
