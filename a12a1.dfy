/**
 * A12A1: a round duct entering through a wall, with an optional screen or
 * perforated plate at the entry.
 */
module A12A1 {
  import opened Wrappers
  import opened Lookup
  import opened Pipeline
  import opened Corrections
  import opened Obstructed

  /**
   * Duct thickness t, length L and diameter D (in), flow Q (cfm), the
   * obstruction, and for it n, plate thickness and hole diameter.
   */
  function Outputs(t: Option<real>, l: Option<real>, d: Option<real>, q: Option<real>,
                   obstruction: Option<string>, n: Option<real>, plateThickness: Option<real>,
                   holeDiameter: Option<real>,
                   rows: seq<Row>, screen: seq<ScreenRow>, plate: seq<PlateRow>): (r: Outcome<Standard>)
    ensures r == AllNone <==> AnyNone([t, l, d, q])
    ensures !AnyNone([t, l, d, q]) ==>
      r == Compute(t.value, l.value, d.value, q.value, obstruction, n, plateThickness, holeDiameter, rows, screen, plate)
  {
    if AnyNone([t, l, d, q]) then AllNone
    else Compute(t.value, l.value, d.value, q.value, obstruction, n, plateThickness, holeDiameter, rows, screen, plate)
  }

  /** The routine once every required input is present. */
  function Compute(t: real, l: real, d: real, q: real,
                   obstruction: Option<string>, n: Option<real>, plateThickness: Option<real>,
                   holeDiameter: Option<real>,
                   rows: seq<Row>, screen: seq<ScreenRow>, plate: seq<PlateRow>): (r: Outcome<Standard>)
    ensures r.Done? || r == Failed(Raised) || r == Failed(NoMatch)
    ensures d == 0.0 ==> r == Failed(Raised)
    ensures r.Done? ==> d != 0.0 && CircleArea(d) != 0.0 && Consistent(r.out) && r.out.velocity == Velocity(q, CircleArea(d))
    ensures CircleArea(d) != 0.0 ==>
      var e := EntryCoefficient(t / d, l / d, obstruction, n, plateThickness, holeDiameter, rows, screen, plate);
      (r.Done? <==> e.Done?) &&
      (e.Done? ==> r.out.coefficient == e.out) &&
      (e.Failed? ==> r == Failed(e.error))
    ensures CircleArea(d) != 0.0 ==>
      var base := BaseCoefficient(rows, t / d, l / d);
      (base.Failed? ==> r == Failed(base.error)) &&
      (r.Done? && obstruction != Some(SCREEN) && obstruction != Some(PLATE) ==> r.out.coefficient == base.out)
  {
    var area := CircleArea(d);
    if area == 0.0 then
      // Q / (A / 144) divides by zero
      Failed(Raised)
    else
      var v := Velocity(q, area);
      match EntryCoefficient(t / d, l / d, obstruction, n, plateThickness, holeDiameter, rows, screen, plate)
      case Done(c) => Done(StandardOf(v, c))
      case Failed(e) => Failed(e)
      case _ => Failed(Raised)
  }
}
