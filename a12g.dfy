/**
 * A12G: a hood, round or rectangular, discharging into a round duct,
 * with an optional screen across the hood opening.
 */
module A12G {
  import opened Wrappers
  import opened Lookup
  import opened Text
  import opened Pipeline
  import opened Corrections

  const ROUND_HOOD: string := "round hood"
  const RECT_PROFILE: string := "square or rectangular hood"

  /** A12G projected on (configuration, ANGLE, C). */
  datatype HoodRow = HoodRow(configuration: string, angle: real, c: real)

  /** The configuration label a profile looks for in the table. */
  function ConfigKey(round: bool): (key: string)
    ensures key == Lower(key)
  {
    if round then "round hood" else "rect hood"
  }

  /** Case-insensitive configuration and exact angle. */
  predicate BaseMatch(r: HoodRow, key: string, angle: real) {
    Lower(r.configuration) == key && r.angle == angle
  }

  /** Row `i` is the first one matching the configuration and the angle. */
  ghost predicate IsBaseRow(rows: seq<HoodRow>, key: string, angle: real, i: int) {
    0 <= i < |rows| && BaseMatch(rows[i], key, angle) &&
    forall j :: 0 <= j < i ==> !BaseMatch(rows[j], key, angle)
  }

  /** Hood opening over duct area, defined when the duct has an area. */
  function AreaRatio(a1: real, a: real): (ratio: real)
    requires a != 0.0
    ensures ratio * a == a1
    ensures ratio == 0.0 <==> a1 == 0.0
  {
    a1 / a
  }

  /**
   * The screen-corrected coefficient `C + C1 / (A1/A)^2`, with the squared
   * ratio taken as 1 when the duct area is not positive. A zero opening
   * makes the squared ratio zero; C1 is a numpy float, so the division
   * does not raise and the total is not finite.
   */
  function ScreenTotal(c: real, c1: real, a1: real, a: real): (r: Outcome<real>)
    ensures r.Done? || r == NonFinite
    ensures a <= 0.0 ==> r == Done(Additive(c, c1))
    ensures a > 0.0 ==> (r == NonFinite <==> a1 == 0.0)
    ensures a > 0.0 && r.Done? ==> (r.out - c) * (a1 * a1) == c1 * (a * a)
  {
    if a > 0.0 then
      var ratio := AreaRatio(a1, a);
      if ratio == 0.0 then NonFinite
      else
        var total := Scaled(c, c1, ratio);
        assert (total - c) * (a1 * a1) == c1 * (a * a) by {
          assert (total - c) * (ratio * ratio) == c1;
          assert a1 * a1 == (ratio * ratio) * (a * a);
          assert (total - c) * (a1 * a1) == ((total - c) * (ratio * ratio)) * (a * a);
        }
        Done(total)
    else Done(Additive(c, c1))
  }

  /** An opening as large as the duct leaves the correction additive. */
  lemma ScreenTotalEqualAreas(c: real, c1: real, a: real)
    requires a > 0.0
    ensures ScreenTotal(c, c1, a, a) == Done(Additive(c, c1))
  {
    assert AreaRatio(a, a) == 1.0;
    ScaledUnitRatio(c, c1, 1.0);
  }

  /**
   * The profile (entry 1) chooses the inputs: D1, D, angle, Q for a round
   * hood; H1, W1, D, angle, Q for a rectangular one; then the obstruction
   * and its n. Any other profile is an error.
   */
  function Outputs(profile: Option<string>, d1: Option<real>, h1: Option<real>, w1: Option<real>,
                   d: Option<real>, angle: Option<real>, q: Option<real>,
                   obstruction: Option<string>, n: Option<real>,
                   rows: seq<HoodRow>, screen: seq<ScreenRow>): (r: Outcome<Standard>)
    ensures profile != Some(ROUND_HOOD) && profile != Some(RECT_PROFILE) ==> r == Failed(InvalidProfile)
    ensures profile == Some(ROUND_HOOD) ==>
      (r == AllNone <==> AnyNone([d1, d, angle, q])) &&
      (!AnyNone([d1, d, angle, q]) ==>
        r == Compute(true, CircleArea(d1.value), d.value, angle.value, q.value, obstruction, n, rows, screen))
    ensures profile == Some(RECT_PROFILE) ==>
      (r == AllNone <==> AnyNone([h1, w1, d, angle, q])) &&
      (!AnyNone([h1, w1, d, angle, q]) ==>
        r == Compute(false, h1.value * w1.value, d.value, angle.value, q.value, obstruction, n, rows, screen))
  {
    if profile == Some(ROUND_HOOD) then
      if AnyNone([d1, d, angle, q]) then AllNone
      else Compute(true, CircleArea(d1.value), d.value, angle.value, q.value, obstruction, n, rows, screen)
    else if profile == Some(RECT_PROFILE) then
      if AnyNone([h1, w1, d, angle, q]) then AllNone
      else Compute(false, h1.value * w1.value, d.value, angle.value, q.value, obstruction, n, rows, screen)
    else Failed(InvalidProfile)
  }

  /**
   * The routine once the profile's inputs are present: `a1` is the hood
   * opening area, `d` the duct diameter.
   */
  function Compute(round: bool, a1: real, d: real, angle: real, q: real,
                   obstruction: Option<string>, n: Option<real>,
                   rows: seq<HoodRow>, screen: seq<ScreenRow>): (r: Outcome<Standard>)
    ensures r.Done? || r == Failed(Raised) || r == Failed(NoMatch) || r == NonFinite
    ensures r == Failed(NoMatch) <==>
      CircleArea(d) != 0.0 && forall j :: 0 <= j < |rows| ==> !BaseMatch(rows[j], ConfigKey(round), angle)
    ensures r == Failed(Raised) <==>
      CircleArea(d) == 0.0 ||
      ((exists j :: 0 <= j < |rows| && BaseMatch(rows[j], ConfigKey(round), angle)) &&
       ScreenApplies(obstruction, n) && |screen| == 0)
    ensures r == NonFinite <==>
      CircleArea(d) != 0.0 &&
      (exists j :: 0 <= j < |rows| && BaseMatch(rows[j], ConfigKey(round), angle)) &&
      ScreenApplies(obstruction, n) && |screen| > 0 && a1 == 0.0
    ensures r.Done? ==>
      CircleArea(d) != 0.0 && Consistent(r.out) && r.out.velocity == Velocity(q, CircleArea(d)) &&
      exists i :: IsBaseRow(rows, ConfigKey(round), angle, i) &&
        (!ScreenApplies(obstruction, n) ==> r.out.coefficient == rows[i].c) &&
        (ScreenApplies(obstruction, n) ==>
          |screen| > 0 &&
          ScreenTotal(rows[i].c, ScreenCoefficient(screen, n.value).value, a1, CircleArea(d)) == Done(r.out.coefficient))
  {
    var area := CircleArea(d);
    if area == 0.0 then
      // Q / (A / 144) divides by zero
      Failed(Raised)
    else
      var v := Velocity(q, area);
      var key := ConfigKey(round);
      match First(rows, (x: HoodRow) => BaseMatch(x, key, angle))
      case None => Failed(NoMatch)
      case Some(i) =>
        assert IsBaseRow(rows, key, angle, i);
        if ScreenApplies(obstruction, n) then
          match ScreenCoefficient(screen, n.value)
          case None => Failed(Raised)
          case Some(c1) =>
            match ScreenTotal(rows[i].c, c1, a1, area)
            case Done(c) => Done(StandardOf(v, c))
            case _ => NonFinite
        else Done(StandardOf(v, rows[i].c))
  }

  /**
   * The configuration column is compared after lower-casing: a cell
   * matches a profile exactly when its lower-cased text does, whatever
   * the case of its letters.
   */
  lemma ConfigurationCaseInsensitive(cell: string, angle: real, c: real, round: bool)
    ensures BaseMatch(HoodRow(cell, angle, c), ConfigKey(round), angle) <==>
            BaseMatch(HoodRow(Lower(cell), angle, c), ConfigKey(round), angle)
  {
    assert forall i :: 0 <= i < |cell| ==> Lower(Lower(cell))[i] == Lower(cell)[i];
  }
}
