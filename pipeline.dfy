/**
 * The derived-quantity chain every fitting routine shares: area, then
 * velocity, then velocity pressure (V/4005)^2, then loss = C * VP; and the
 * shape of the results a routine hands back.
 */
module Pipeline {
  import opened Wrappers

  /** `math.pi` as a double. */
  const PI: real := 3.141592653589793
  /** Velocity (ft/min) at which the velocity pressure is one inch of water. */
  const VP_CONSTANT: real := 4005.0
  /** Square inches per square foot. */
  const SQ_IN_PER_SQ_FT: real := 144.0

  // ---------------------------------------------------------------------
  // Arithmetic

  /** (V / 4005)^2 in inches of water column. */
  function VelocityPressure(v: real): (vp: real)
    ensures vp >= 0.0
    ensures v == 0.0 ==> vp == 0.0
  {
    (v / VP_CONSTANT) * (v / VP_CONSTANT)
  }

  /** The velocity is recovered from its pressure up to sign: VP * 4005^2 == V^2. */
  lemma VelocityPressureScale(v: real)
    ensures VelocityPressure(v) * (VP_CONSTANT * VP_CONSTANT) == v * v
  {
    var x := v / VP_CONSTANT;
    assert x * VP_CONSTANT == v;
  }

  /** Reversing the flow leaves the velocity pressure unchanged. */
  lemma VelocityPressureEven(v: real)
    ensures VelocityPressure(-v) == VelocityPressure(v)
  {
  }

  /** Faster air never has a lower velocity pressure. */
  lemma VelocityPressureMonotone(a: real, b: real)
    requires 0.0 <= a <= b
    ensures VelocityPressure(a) <= VelocityPressure(b)
  {
    var x, y := a / VP_CONSTANT, b / VP_CONSTANT;
    assert 0.0 <= x <= y;
    var xx, xy, yy := x * x, x * y, y * y;
    assert xx <= xy by { assert xy - xx == x * (y - x); }
    assert xy <= yy by { assert yy - xy == y * (y - x); }
    assert VelocityPressure(a) == xx;
    assert VelocityPressure(b) == yy;
  }

  /** One inch of water is exactly the pressure of 4005 ft/min, in either direction. */
  lemma VelocityPressureOneInch(v: real)
    ensures VelocityPressure(v) == 1.0 <==> v == VP_CONSTANT || v == -VP_CONSTANT
  {
    var c := VP_CONSTANT;
    if VelocityPressure(v) == 1.0 {
      VelocityPressureScale(v);
      var p, q := v - c, v + c;
      assert p * q == v * v - c * c;
      assert p * q == 0.0;
      if p != 0.0 {
        assert q == (p * q) / p;
      }
    }
    if v == c {
      assert v / c == 1.0;
    } else if v == -c {
      assert v / c == -1.0;
    }
  }

  /** Area of a round duct of diameter `d`: pi * (d/2)^2. */
  function CircleArea(d: real): (a: real)
    ensures a >= 0.0
    ensures d == 0.0 ==> a == 0.0
  {
    PI * ((d / 2.0) * (d / 2.0))
  }

  /**
   * In square feet a round duct of `d` inches has pi d^2 / 576; doubling
   * the diameter quadruples the area.
   */
  lemma CircleAreaSquareFeet(d: real)
    ensures CircleArea(d) / SQ_IN_PER_SQ_FT == PI * (d * d) / 576.0
    ensures CircleArea(2.0 * d) == 4.0 * CircleArea(d)
  {
    assert (d / 2.0) * (d / 2.0) == (d * d) / 4.0;
    assert (2.0 * d / 2.0) * (2.0 * d / 2.0) == d * d;
  }

  /** Cross-section H W of a rectangular duct in square inches; non-zero sides give a non-zero area. */
  function RectArea(h: real, w: real): (a: real)
    ensures h != 0.0 && w != 0.0 ==> a != 0.0
  {
    h * w
  }

  /** Hydraulic diameter 2 H W / (H + W) of an H by W duct. */
  function HydraulicDiameter(h: real, w: real): (dh: real)
    requires h + w != 0.0
    ensures dh * (h + w) == 2.0 * (h * w)
  {
    2.0 * (h * w) / (h + w)
  }

  /** Q / (A / 144): flow in cfm over an area in square inches, in ft/min. */
  function Velocity(q: real, areaSqIn: real): (v: real)
    requires areaSqIn != 0.0
    ensures v * areaSqIn == SQ_IN_PER_SQ_FT * q
  {
    var ft2 := areaSqIn / SQ_IN_PER_SQ_FT;
    assert ft2 * SQ_IN_PER_SQ_FT == areaSqIn;
    q / ft2
  }

  // ---------------------------------------------------------------------
  // Results

  /** Why a routine produced no numbers. */
  datatype Error =
    | MissingInput      // a required input is absent and the routine says so
    | InvalidGeometry   // a domain check on the inputs or derived ratios failed
    | InvalidProfile    // an unknown categorical input
    | NoMatch           // no table row carries the resolved key values
    | NoData            // the table, or the rows of one path, is empty
    | Raised            // an exception caught by the routine's own handler
    | Uncaught          // an exception the routine lets escape

  /**
   * What a routine returns: every output absent, an error, the outputs,
   * the outputs with a warning, or outputs that are not finite numbers
   * (a numpy division by zero).
   */
  datatype Outcome<T> =
    | AllNone
    | Failed(error: Error)
    | Done(out: T)
    | Warned(out: T, warning: string)
    | NonFinite

  /** The four outputs of a single-path fitting. */
  datatype Standard = Standard(velocity: real, velocityPressure: real, coefficient: real, pressureLoss: real)

  /** The velocity pressure belongs to the velocity and the loss is coefficient times it. */
  predicate Consistent(s: Standard) {
    s.velocityPressure == VelocityPressure(s.velocity) &&
    s.pressureLoss == s.coefficient * s.velocityPressure
  }

  function StandardOf(v: real, c: real): (s: Standard)
    ensures Consistent(s) && s.velocity == v && s.coefficient == c
  {
    var vp := VelocityPressure(v);
    Standard(v, vp, c, c * vp)
  }

  /** A consistent result with a non-negative coefficient never gains pressure. */
  lemma ConsistentLoss(s: Standard)
    requires Consistent(s)
    ensures s.coefficient >= 0.0 ==> s.pressureLoss >= 0.0
    ensures s.velocity == 0.0 ==> s.pressureLoss == 0.0
  {
  }

  /**
   * Outputs of a converging junction: the branch path, and for the main
   * its source and converged velocities with their pressures, its
   * coefficient and its loss.
   */
  datatype BranchMain = BranchMain(branch: Standard, sourceVelocity: real, convergedVelocity: real,
                                   sourceVelocityPressure: real, convergedVelocityPressure: real,
                                   mainCoefficient: real, mainLoss: real)

  /** The velocity pressure the main loss multiplies. */
  datatype MainPressure = OnSource | OnConverged

  predicate BranchMainConsistent(j: BranchMain, on: MainPressure) {
    Consistent(j.branch) &&
    j.sourceVelocityPressure == VelocityPressure(j.sourceVelocity) &&
    j.convergedVelocityPressure == VelocityPressure(j.convergedVelocity) &&
    j.mainLoss == j.mainCoefficient * (if on == OnSource then j.sourceVelocityPressure else j.convergedVelocityPressure)
  }

  function BranchMainOf(vb: real, cb: real, vs: real, vc: real, cm: real, on: MainPressure): (j: BranchMain)
    ensures BranchMainConsistent(j, on)
    ensures j.branch.velocity == vb && j.branch.coefficient == cb
    ensures j.sourceVelocity == vs && j.convergedVelocity == vc && j.mainCoefficient == cm
  {
    var vps, vpc := VelocityPressure(vs), VelocityPressure(vc);
    BranchMain(StandardOf(vb, cb), vs, vc, vps, vpc, cm, cm * (if on == OnSource then vps else vpc))
  }

  /** A wye with two branches and a converged main. */
  datatype DualBranch = DualBranch(branch1: Standard, branch2: Standard, mainVelocity: real, mainVelocityPressure: real)

  // ---------------------------------------------------------------------
  // Inputs

  /** Python truthiness of an optional number: None and 0 are false. */
  predicate Truthy(x: Option<real>) {
    x.Some? && x.value != 0.0
  }

  /** `None in (…)`: some input is absent. */
  predicate AnyNone(xs: seq<Option<real>>) {
    None in xs
  }

  /** `not all(…)`: some input is absent or zero. */
  predicate AnyFalsy(xs: seq<Option<real>>) {
    None in xs || Some(0.0) in xs
  }

  lemma FalsyIff(xs: seq<Option<real>>)
    ensures AnyFalsy(xs) <==> exists i :: 0 <= i < |xs| && !Truthy(xs[i])
  {
  }
}
