/** Heading arithmetic in degrees. */
module Angles {

  function Abs(x: real): real
  {
    if x < 0.0 then -x else x
  }

  /** `angular_difference`: `min(|a1 - a2|, 360 - |a1 - a2|)`. For angles
      less than a full turn apart it is the smaller of the two arcs. */
  function AngularDifference(a1: real, a2: real): (r: real)
    ensures Abs(a1 - a2) <= 360.0 ==> 0.0 <= r <= 180.0
    ensures a1 == a2 ==> r == 0.0
    ensures r <= Abs(a1 - a2)
  {
    var diff := Abs(a1 - a2);
    if 360.0 - diff < diff then 360.0 - diff else diff
  }

  /** The difference does not depend on the order of the arguments. */
  lemma AngularDifferenceSymmetric(a1: real, a2: real)
    ensures AngularDifference(a1, a2) == AngularDifference(a2, a1)
  {
  }

  /** Moving one angle by a full turn, within the intended domain, gives
      the same difference: the result sees angles modulo 360. */
  lemma AngularDifferencePeriodic(a1: real, a2: real)
    requires 0.0 <= a1 - a2 <= 360.0
    ensures AngularDifference(a1, a2 + 360.0) == AngularDifference(a1, a2)
  {
  }

  /** Outside the intended domain the result goes negative. */
  lemma AngularDifferenceBeyondFullTurn(a1: real, a2: real)
    requires Abs(a1 - a2) > 360.0
    ensures AngularDifference(a1, a2) < 0.0
  {
  }

  /** The reversed heading `(track + 180) % 360` used for the second ray.
      Python's float `%` with a positive divisor yields a remainder with the
      sign of the divisor. */
  function ReverseHeading(track: real): (r: real)
    ensures 0.0 <= r < 360.0
    ensures (track + 180.0 - r) / 360.0 == ((track + 180.0 - r) / 360.0).Floor as real
  {
    var x := track + 180.0;
    var q := (x / 360.0).Floor;
    assert q as real <= x / 360.0 < q as real + 1.0;
    assert (x - (x - 360.0 * q as real)) / 360.0 == q as real;
    x - 360.0 * q as real
  }

  /** For a heading in `[0, 360)` the reverse is the opposite direction. */
  lemma ReverseHeadingOpposite(track: real)
    requires 0.0 <= track < 360.0
    ensures ReverseHeading(track) == if track < 180.0 then track + 180.0 else track - 180.0
    ensures AngularDifference(track, ReverseHeading(track)) == 180.0
  {
    var x := track + 180.0;
    if track < 180.0 {
      assert (x / 360.0).Floor == 0;
    } else {
      assert 1.0 <= x / 360.0 < 2.0;
      assert (x / 360.0).Floor == 1;
    }
  }
}
