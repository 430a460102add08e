/**
 * A12A2: a rectangular duct entering through a wall, with an optional
 * screen or perforated plate; t/D and L/D use the equivalent diameter.
 */
module A12A2 {
  import opened Wrappers
  import opened Lookup
  import opened Pipeline
  import opened Corrections
  import opened Obstructed

  /** `1 / (2 (H + W) / (H W))`, i.e. H W / (2 (H + W)). */
  function EquivalentDiameter(h: real, w: real): (de: real)
    requires h * w != 0.0 && h + w != 0.0
    ensures de * (2.0 * (h + w)) == h * w
  {
    var inv := 2.0 * (h + w) / (h * w);
    assert inv * (h * w) == 2.0 * (h + w);
    1.0 / inv
  }

  /** Both divisions in the equivalent diameter are defined. */
  predicate Defined(h: real, w: real) {
    h * w != 0.0 && h + w != 0.0
  }

  /**
   * Thickness t and length L (in), height H and width W (in), flow Q
   * (cfm), the obstruction, and for it n, plate thickness and hole diameter.
   */
  function Outputs(t: Option<real>, l: Option<real>, h: Option<real>, w: Option<real>, q: Option<real>,
                   obstruction: Option<string>, n: Option<real>, plateThickness: Option<real>,
                   holeDiameter: Option<real>,
                   rows: seq<Row>, screen: seq<ScreenRow>, plate: seq<PlateRow>): (r: Outcome<Standard>)
    ensures r == AllNone <==> AnyNone([t, l, h, w, q])
    ensures !AnyNone([t, l, h, w, q]) ==>
      r == Compute(t.value, l.value, h.value, w.value, q.value, obstruction, n, plateThickness, holeDiameter, rows, screen, plate)
  {
    if AnyNone([t, l, h, w, q]) then AllNone
    else Compute(t.value, l.value, h.value, w.value, q.value, obstruction, n, plateThickness, holeDiameter, rows, screen, plate)
  }

  /** The routine once every required input is present. */
  function Compute(t: real, l: real, h: real, w: real, q: real,
                   obstruction: Option<string>, n: Option<real>, plateThickness: Option<real>,
                   holeDiameter: Option<real>,
                   rows: seq<Row>, screen: seq<ScreenRow>, plate: seq<PlateRow>): (r: Outcome<Standard>)
    ensures r.Done? || r == Failed(Raised) || r == Failed(NoMatch)
    ensures !Defined(h, w) ==> r == Failed(Raised)
    ensures r.Done? ==> Defined(h, w) && Consistent(r.out) && r.out.velocity == Velocity(q, h * w)
    ensures Defined(h, w) ==>
      var de := EquivalentDiameter(h, w);
      de != 0.0 &&
      var base := BaseCoefficient(rows, t / de, l / de);
      (base.Failed? ==> r == Failed(base.error)) &&
      (var e := EntryCoefficient(t / de, l / de, obstruction, n, plateThickness, holeDiameter, rows, screen, plate);
       (r.Done? <==> e.Done?) &&
       (e.Done? ==> r.out.coefficient == e.out) &&
       (e.Failed? ==> r == Failed(e.error))) &&
      (r.Done? && obstruction != Some(SCREEN) && obstruction != Some(PLATE) ==> r.out.coefficient == base.out)
  {
    if !Defined(h, w) then
      // a division by zero inside the equivalent diameter
      Failed(Raised)
    else
      var de := EquivalentDiameter(h, w);
      var v := Velocity(q, h * w);
      match EntryCoefficient(t / de, l / de, obstruction, n, plateThickness, holeDiameter, rows, screen, plate)
      case Done(c) => Done(StandardOf(v, c))
      case Failed(e) => Failed(e)
      case _ => Failed(Raised)
  }
}
