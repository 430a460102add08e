/**
 * A13D: a rectangular exit transition from H by W to H1 by W1 over a
 * length L, optionally behind a screen. The steeper of the lateral and
 * vertical angles is rounded down to a tabulated angle up to 30 degrees
 * and up beyond; As/A is rounded down on its own; the pair must then
 * occur in the table.
 */
module A13D {
  import opened Wrappers
  import opened Lookup
  import opened Pipeline
  import opened Corrections

  /** A13D projected on (ANGLE, As/A, C). */
  datatype Row = Row(angle: real, asA: real, c: real)

  function Angle(r: Row): real { r.angle }
  function AsA(r: Row): real { r.asA }

  /** Up to this angle (degrees) the angle is rounded down, above it up. */
  const FLOOR_ANGLE_LIMIT: real := 30.0

  /** `max(lateral, vertical)`: the steeper of the two included angles. */
  function Steeper(lateral: real, vertical: real): (a: real)
    ensures a >= lateral && a >= vertical && (a == lateral || a == vertical)
  {
    if lateral >= vertical then lateral else vertical
  }

  /** Floor up to 30 degrees, ceiling above. */
  function AnglePolicy(angle: real): (p: Policy)
    ensures p == FloorPolicy <==> angle <= FLOOR_ANGLE_LIMIT
    ensures p == CeilPolicy <==> angle > FLOOR_ANGLE_LIMIT
  {
    if angle <= FLOOR_ANGLE_LIMIT then FloorPolicy else CeilPolicy
  }

  /** The tabulated angle the duct's angle is rounded to. */
  function AngleMatch(rows: seq<Row>, angle: real): (a: real)
    requires |rows| > 0
    ensures angle <= FLOOR_ANGLE_LIMIT ==> IsFloor(Column(rows, Angle), angle, a)
    ensures angle > FLOOR_ANGLE_LIMIT ==> IsCeil(Column(rows, Angle), angle, a)
  {
    var angles := Column(rows, Angle);
    SameValuesSamePicks(Unique(angles), angles, angle);
    Pick(Unique(angles), AnglePolicy(angle), angle)
  }

  /** The tabulated As/A the duct's ratio is rounded down to, over the whole table. */
  function RatioMatch(rows: seq<Row>, ratio: real): (v: real)
    requires |rows| > 0
    ensures IsFloor(Column(rows, AsA), ratio, v)
  {
    var ratios := Column(rows, AsA);
    SameValuesSamePicks(Unique(ratios), ratios, ratio);
    Floor(Unique(ratios), ratio)
  }

  /**
   * The C of the first row carrying both rounded values; no match when no
   * row carries the pair, the two roundings being independent.
   */
  function PairCoefficient(rows: seq<Row>, angle: real, ratio: real): (r: Outcome<real>)
    requires |rows| > 0
    ensures r.Done? || r == Failed(NoMatch)
    ensures r == Failed(NoMatch) <==>
      forall j :: 0 <= j < |rows| ==> !(rows[j].angle == AngleMatch(rows, angle) && rows[j].asA == RatioMatch(rows, ratio))
    ensures r.Done? ==>
      exists i :: (0 <= i < |rows| && rows[i].c == r.out &&
                   rows[i].angle == AngleMatch(rows, angle) && rows[i].asA == RatioMatch(rows, ratio) &&
                   forall j :: 0 <= j < i ==> !(rows[j].angle == rows[i].angle && rows[j].asA == rows[i].asA))
  {
    var a, v := AngleMatch(rows, angle), RatioMatch(rows, ratio);
    match First(rows, (x: Row) => x.angle == a && x.asA == v)
    case Some(i) => Done(rows[i].c)
    case None => Failed(NoMatch)
  }

  /** A tabulated (angle, As/A) pair always finds its row. */
  lemma TabulatedPairMatches(rows: seq<Row>, k: nat)
    requires k < |rows|
    ensures PairCoefficient(rows, rows[k].angle, rows[k].asA).Done?
  {
    var angles, ratios := Column(rows, Angle), Column(rows, AsA);
    assert rows[k].angle == angles[k] && rows[k].asA == ratios[k];
    ExactHit(angles, rows[k].angle);
    ExactHit(ratios, rows[k].asA);
  }

  /** As/A from the two cross-sections. */
  function AreaRatio(h: real, w: real, h1: real, w1: real): (ratio: real)
    requires RectArea(h, w) != 0.0
    ensures ratio * RectArea(h, w) == RectArea(h1, w1)
    ensures ratio == 0.0 <==> RectArea(h1, w1) == 0.0
  {
    RectArea(h1, w1) / RectArea(h, w)
  }

  /**
   * H, W, H1, W1, L (in), Q (cfm), the obstruction and its free area ratio
   * n. `angleOf` maps a half-width change over the length, (W1 - W) / (2 L),
   * to the included angle `degrees(2 atan(…))`.
   */
  function Outputs(h: Option<real>, w: Option<real>, h1: Option<real>, w1: Option<real>,
                   l: Option<real>, q: Option<real>, obstruction: Option<string>, n: Option<real>,
                   angleOf: real -> real, rows: seq<Row>, screen: seq<ScreenRow>): (r: Outcome<Standard>)
    ensures r == AllNone <==> AnyNone([h, w, h1, w1, l, q])
    ensures !AnyNone([h, w, h1, w1, l, q]) ==>
      r == Compute(h.value, w.value, h1.value, w1.value, l.value, q.value, obstruction, n, angleOf, rows, screen)
  {
    if AnyNone([h, w, h1, w1, l, q]) then AllNone
    else Compute(h.value, w.value, h1.value, w1.value, l.value, q.value, obstruction, n, angleOf, rows, screen)
  }

  /** The angle the table is read at: the steeper of the two, from the raw tangents. */
  function DuctAngle(h: real, w: real, h1: real, w1: real, l: real, angleOf: real -> real): real
    requires l != 0.0
  {
    Steeper(angleOf((w1 - w) / (2.0 * l)), angleOf((h1 - h) / (2.0 * l)))
  }

  /**
   * The routine once the six numbers are present. A zero inlet area, a
   * zero length and a table of fewer than two rows raise inside the
   * handler (`data.loc` of a single row is a Series, whose cells have no
   * `unique`), and so does a screen table of fewer than two rows once a
   * screen applies; a rounded pair absent from the table is reported. With
   * a screen the coefficient is C + C1 / (As/A)^2; C1 is a numpy float, so
   * a zero outlet area divides it by zero without raising and the
   * coefficient is not finite.
   */
  function Compute(h: real, w: real, h1: real, w1: real, l: real, q: real,
                   obstruction: Option<string>, n: Option<real>, angleOf: real -> real,
                   rows: seq<Row>, screen: seq<ScreenRow>): (r: Outcome<Standard>)
    ensures r.Done? || r == Failed(Raised) || r == Failed(NoMatch) || r == NonFinite
    ensures RectArea(h, w) == 0.0 || l == 0.0 || |rows| <= 1 ==> r == Failed(Raised)
    ensures RectArea(h, w) != 0.0 && l != 0.0 && |rows| > 1 ==>
      var base := PairCoefficient(rows, DuctAngle(h, w, h1, w1, l, angleOf), AreaRatio(h, w, h1, w1));
      (r == Failed(NoMatch) <==> base == Failed(NoMatch)) &&
      (r == Failed(Raised) <==>
        base.Done? && ScreenApplies(obstruction, n) && |screen| <= 1) &&
      (r == NonFinite <==>
        base.Done? && ScreenApplies(obstruction, n) && |screen| > 1 && RectArea(h1, w1) == 0.0) &&
      (r.Done? ==>
        base.Done? && Consistent(r.out) && r.out.velocity == Velocity(q, RectArea(h, w)) &&
        (!ScreenApplies(obstruction, n) ==> r.out.coefficient == base.out) &&
        (ScreenApplies(obstruction, n) ==>
          r.out.coefficient == Scaled(base.out, ScreenCoefficient(screen, n.value).value, AreaRatio(h, w, h1, w1))))
  {
    if RectArea(h, w) == 0.0 || l == 0.0 || |rows| <= 1 then
      // As / A or (W1 - W) / (2 L) divides by zero, `min` of no angles, or
      // a single A13D row read as a Series, whose cell has no `unique`
      Failed(Raised)
    else
      var ratio := AreaRatio(h, w, h1, w1);
      var base := PairCoefficient(rows, DuctAngle(h, w, h1, w1, l, angleOf), ratio);
      if base.Failed? then Failed(NoMatch)
      else if !ScreenApplies(obstruction, n) then Done(StandardOf(Velocity(q, RectArea(h, w)), base.out))
      else if |screen| <= 1 then
        // `min` of no screen values, or a single A14A1 row read as a Series
        Failed(Raised)
      else if ratio == 0.0 then
        // C1 / (As / A)^2 with As = 0: a numpy float divided by zero
        NonFinite
      else
        Done(StandardOf(Velocity(q, RectArea(h, w)), Scaled(base.out, ScreenCoefficient(screen, n.value).value, ratio)))
  }
}
