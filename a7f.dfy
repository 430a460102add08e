/**
 * A7F: a rectangular elbow with radius R, corrected for Reynolds number
 * (the RNCF step table) and for angles below 90 degrees.
 */
module A7F {
  import opened Wrappers
  import opened Lookup
  import opened Pipeline

  /** A7F projected on (R/W, H/W, C). */
  datatype Row = Row(rw: real, hw: real, c: real)

  function RW(r: Row): real { r.rw }
  function HW(r: Row): real { r.hw }

  // ---------------------------------------------------------------------
  // Reynolds-number correction

  /** The tabulated values of Re / 10^4. */
  const RE_STEPS: seq<real> := [1.0, 2.0, 3.0, 4.0, 6.0, 8.0, 10.0, 14.0, 20.0]

  /** The correction factor tabulated for a step. */
  function StepFactor(step: real): real {
    if step == 1.0 then 1.40
    else if step == 2.0 then 1.26
    else if step == 3.0 then 1.19
    else if step == 4.0 then 1.14
    else if step == 6.0 then 1.09
    else if step == 8.0 then 1.06
    else if step == 10.0 then 1.04
    else 1.0
  }

  /** `searchsorted(keys, x, side="right")`: how many keys are at most `x`. */
  function CountAtMost(keys: seq<real>, x: real): (n: nat)
    ensures n <= |keys|
    ensures n == |AtMost(keys, x)|
  {
    |AtMost(keys, x)|
  }

  /**
   * The factor of the step at index `searchsorted(...) - 1`. Below the
   * first step the index is -1, which Python reads as the last step.
   */
  function RncFactor(reScaled: real): (f: real)
    ensures reScaled < 1.0 ==> f == StepFactor(RE_STEPS[|RE_STEPS| - 1])
    ensures reScaled >= 1.0 ==> f == StepFactor(Floor(RE_STEPS, reScaled))
  {
    var n := CountAtMost(RE_STEPS, reScaled);
    StepsPrefix(reScaled, n);
    if n == 0 then StepFactor(RE_STEPS[|RE_STEPS| - 1])
    else
      FloorIs(RE_STEPS, reScaled, RE_STEPS[n - 1]);
      StepFactor(RE_STEPS[n - 1])
  }

  /** The steps at most `x` are the first `n`; `x` reaches the first step exactly when `n > 0`. */
  lemma StepsPrefix(x: real, n: nat)
    requires n == |AtMost(RE_STEPS, x)|
    ensures n <= |RE_STEPS| && (n > 0 <==> x >= 1.0)
    ensures n > 0 ==> IsFloor(RE_STEPS, x, RE_STEPS[n - 1])
  {
    var s := RE_STEPS;
    assert forall i, j :: 0 <= i < j < |s| ==> s[i] < s[j];
    PrefixAtMost(s, x, n);
  }

  /** In a strictly increasing sequence the values at most `x` are a prefix. */
  lemma {:induction false} PrefixAtMost(s: seq<real>, x: real, n: nat)
    requires forall i, j :: 0 <= i < j < |s| ==> s[i] < s[j]
    requires n == |AtMost(s, x)|
    ensures n <= |s|
    ensures forall i :: 0 <= i < n ==> s[i] <= x
    ensures forall i :: n <= i < |s| ==> s[i] > x
    decreases |s|
  {
    if |s| > 0 {
      var t := s[1..];
      var m := |AtMost(t, x)|;
      PrefixAtMost(t, x, m);
      if s[0] <= x {
        assert n == m + 1;
      } else {
        assert forall i :: 0 <= i < |t| ==> t[i] > x by {
          forall i | 0 <= i < |t| ensures t[i] > x {
            assert s[0] < s[i + 1];
          }
        }
        assert n == m;
      }
    }
  }

  /** The factor never reduces the coefficient and is at most 1.40; below the first step it is 1. */
  lemma RncFactorRange(reScaled: real)
    ensures 1.0 <= RncFactor(reScaled) <= 1.40
    ensures reScaled < 1.0 ==> RncFactor(reScaled) == 1.0
  {
  }

  /** Between the steps 6 and 8 the factor is that of 6. */
  lemma RncFactorBetweenSteps(reScaled: real)
    requires 6.0 <= reScaled < 8.0
    ensures RncFactor(reScaled) == 1.09
  {
    assert RE_STEPS[4] == 6.0;
    FloorIs(RE_STEPS, reScaled, 6.0);
  }

  // ---------------------------------------------------------------------
  // Angle correction

  /** The angles of the correction dictionary and their factors. */
  const ANGLE_KEYS: seq<real> := [90.0, 75.0, 60.0, 45.0, 30.0]

  function AngleFactorOf(key: real): real {
    if key == 90.0 then 1.00
    else if key == 75.0 then 0.88
    else if key == 60.0 then 0.75
    else if key == 45.0 then 0.60
    else 0.45
  }

  /** The largest key at most the angle, 30 when none is. */
  function AngleKey(angle: real): (key: real)
    ensures key == if angle >= 90.0 then 90.0 else if angle >= 75.0 then 75.0
      else if angle >= 60.0 then 60.0 else if angle >= 45.0 then 45.0 else 30.0
  {
    var below := AtMost(ANGLE_KEYS, angle);
    if |below| > 0 then
      var m := Max(below);
      assert m in ANGLE_KEYS && m <= angle;
      assert 90.0 in ANGLE_KEYS && 75.0 in ANGLE_KEYS && 60.0 in ANGLE_KEYS && 45.0 in ANGLE_KEYS;
      assert m == 90.0 || m == 75.0 || m == 60.0 || m == 45.0 || m == 30.0;
      m
    else
      assert 30.0 in ANGLE_KEYS && !(30.0 in below);
      30.0
  }

  /** The factor of the angle's key. */
  function AngleFactor(angle: real): (f: real)
    ensures 0.45 <= f <= 1.0
  {
    AngleFactorOf(AngleKey(angle))
  }

  /** A wider angle never has a smaller factor; 90 degrees and above leave the coefficient alone. */
  lemma AngleFactorMonotone(a: real, b: real)
    requires a <= b
    ensures AngleFactor(a) <= AngleFactor(b)
    ensures b >= 90.0 ==> AngleFactor(b) == 1.0
  {
  }

  // ---------------------------------------------------------------------
  // The routine

  /** Floor on R/W; H/W inside that group rounded down up to 3 and up beyond. */
  function Fields(rw: real, hw: real): seq<Field<Row>> {
    [Field(RW, FloorPolicy, rw), Field(HW, HWPolicy(hw), hw)]
  }

  function HWPolicy(hw: real): (p: Policy)
    ensures p != NearestPolicy
    ensures p == FloorPolicy <==> hw <= 3.0
  {
    if hw <= 3.0 then FloorPolicy else CeilPolicy
  }

  /**
   * The largest R/W at most the duct's (the smallest when none is), then
   * inside that group the H/W picked by its policy; the C of the row the
   * sorted picks land on.
   */
  function BaseCoefficient(rows: seq<Row>, rw: real, hw: real): (c: real)
    requires |rows| > 0
    ensures exists x :: x in Narrow(rows, Fields(rw, hw)) && x.c == c
  {
    NarrowRow(rows, Fields(rw, hw)).c
  }

  /** Reynolds number 8.5 Dh V. */
  function Reynolds(dh: real, v: real): real {
    8.5 * dh * v
  }

  /** Re / 10^4 for the duct, the key of the step table. */
  function ReScaled(h: real, w: real, q: real): real
    requires h != 0.0 && w != 0.0 && h + w != 0.0
  {
    Reynolds(HydraulicDiameter(h, w), Velocity(q, RectArea(h, w))) / 10000.0
  }

  /**
   * The RNCF applicability test `velocity < 23766.76 / equivalent_diameter`
   * with `equivalent_diameter = 23766.76 * velocity ** -1.000794`: it
   * compares v with v^1.000794, and for a positive velocity v^0.000794
   * exceeds 1 exactly when v does.
   */
  predicate RncApplies(v: real) {
    v > 1.0
  }

  /** The RNCF when it applies, 1 otherwise. */
  function Rnc(applies: bool, reScaled: real): (f: real)
    ensures !applies ==> f == 1.0
    ensures applies ==> f == RncFactor(reScaled)
  {
    if applies then RncFactor(reScaled) else 1.0
  }

  /** The loss coefficient: the base C times the RNCF at velocity `v` times the angle factor. */
  function Coefficient(rows: seq<Row>, h: real, w: real, radius: real, angle: real, q: real, v: real): real
    requires |rows| > 0 && h != 0.0 && w != 0.0 && h + w != 0.0
  {
    BaseCoefficient(rows, radius / w, h / w) * Rnc(RncApplies(v), ReScaled(h, w, q)) * AngleFactor(angle)
  }

  /** Height H, width W, radius R (in), angle (deg) and flow Q (cfm); a zero counts as missing. */
  function Outputs(h: Option<real>, w: Option<real>, radius: Option<real>, angle: Option<real>, q: Option<real>,
                   rows: seq<Row>): (r: Outcome<Standard>)
    ensures r == AllNone <==> AnyFalsy([h, w, radius, angle, q])
    ensures !AnyFalsy([h, w, radius, angle, q]) ==>
      r == Compute(h.value, w.value, radius.value, angle.value, q.value, rows)
  {
    if AnyFalsy([h, w, radius, angle, q]) then AllNone
    else Compute(h.value, w.value, radius.value, angle.value, q.value, rows)
  }

  /**
   * The routine once H and W are non-zero; it has no exception handler.
   * A velocity at or below zero raises: `0.0 ** -1.000794` divides by
   * zero, and a negative base gives a complex equivalent diameter that
   * `<` cannot compare with a float.
   */
  function Compute(h: real, w: real, radius: real, angle: real, q: real, rows: seq<Row>): (r: Outcome<Standard>)
    requires h != 0.0 && w != 0.0
    ensures r.Done? || r == Failed(Uncaught)
    ensures r == Failed(Uncaught) <==> h + w == 0.0 || Velocity(q, RectArea(h, w)) <= 0.0 || |rows| == 0
    ensures r.Done? ==>
      h + w != 0.0 && |rows| > 0 &&
      var v := Velocity(q, RectArea(h, w));
      v > 0.0 && Consistent(r.out) && r.out.velocity == v &&
      r.out.coefficient == Coefficient(rows, h, w, radius, angle, q, v)
  {
    var v := Velocity(q, RectArea(h, w));
    if h + w == 0.0 then
      // the hydraulic diameter divides by zero
      Failed(Uncaught)
    else if v <= 0.0 then
      // `velocity ** -1.000794`, then the comparison with its result
      Failed(Uncaught)
    else if |rows| == 0 then
      // the first row of an empty table: IndexError
      Failed(Uncaught)
    else
      Done(StandardOf(v, Coefficient(rows, h, w, radius, angle, q, v)))
  }
}
