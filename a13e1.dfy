/**
 * A13E1: a round duct exit through a wall opening of length L, optionally
 * behind a screen. L/D is rounded up to a tabulated value and the screen
 * coefficient, when one applies, is added to the base coefficient.
 */
module A13E1 {
  import opened Wrappers
  import opened Lookup
  import opened Pipeline
  import opened Corrections

  /** A13E1 projected on (L/D, C). */
  datatype Row = Row(ld: real, c: real)

  function LD(r: Row): real { r.ld }

  /**
   * L/D rounded up among the unique tabulated values (the largest when
   * none reaches it); the C of the first row carrying it. The rounded
   * value is always tabulated, so a non-empty table always yields a row.
   */
  function BaseCoefficient(rows: seq<Row>, ld: real): (c: real)
    requires |rows| > 0
    ensures exists i :: (0 <= i < |rows| && rows[i].c == c &&
                         IsCeil(Column(rows, LD), ld, rows[i].ld) &&
                         forall j :: 0 <= j < i ==> rows[j].ld != rows[i].ld)
  {
    var lds := Column(rows, LD);
    var m := Ceil(Unique(lds), ld);
    SameValuesSamePicks(Unique(lds), lds, ld);
    var k :| 0 <= k < |rows| && lds[k] == m;
    var p := (x: Row) => x.ld == m;
    assert p(rows[k]);
    rows[First(rows, p).value].c
  }

  /** A tabulated L/D reads the first row carrying exactly it. */
  lemma TabulatedRatio(rows: seq<Row>, k: nat)
    requires k < |rows|
    ensures exists i :: 0 <= i < |rows| && rows[i].c == BaseCoefficient(rows, rows[k].ld) && rows[i].ld == rows[k].ld
  {
    var lds := Column(rows, LD);
    assert lds[k] == rows[k].ld;
    ExactHit(lds, rows[k].ld);
    var c := BaseCoefficient(rows, rows[k].ld);
    var i :| 0 <= i < |rows| && rows[i].c == c && IsCeil(lds, rows[k].ld, rows[i].ld);
    CeilUnique(lds, rows[k].ld, rows[i].ld, Ceil(lds, rows[k].ld));
  }

  /** D, L (in) and Q (cfm), then the obstruction and its free area ratio n. */
  function Outputs(d: Option<real>, l: Option<real>, q: Option<real>, obstruction: Option<string>, n: Option<real>,
                   rows: seq<Row>, screen: seq<ScreenRow>): (r: Outcome<Standard>)
    ensures r == AllNone <==> AnyNone([d, l, q])
    ensures !AnyNone([d, l, q]) ==> r == Compute(d.value, l.value, q.value, obstruction, n, rows, screen)
  {
    if AnyNone([d, l, q]) then AllNone
    else Compute(d.value, l.value, q.value, obstruction, n, rows, screen)
  }

  /**
   * The routine once D, L and Q are present. A zero duct area, an empty
   * table and, with a screen, an empty screen table each raise inside the
   * handler; the L/D lookup itself never fails to match. A screen adds its
   * coefficient unscaled.
   */
  function Compute(d: real, l: real, q: real, obstruction: Option<string>, n: Option<real>,
                   rows: seq<Row>, screen: seq<ScreenRow>): (r: Outcome<Standard>)
    ensures r.Done? || r == Failed(Raised)
    ensures r == Failed(Raised) <==> CircleArea(d) == 0.0 || |rows| == 0 || (ScreenNamed(obstruction, n) && |screen| == 0)
    ensures r.Done? ==>
      CircleArea(d) != 0.0 && |rows| > 0 &&
      Consistent(r.out) && r.out.velocity == Velocity(q, CircleArea(d)) &&
      (!ScreenNamed(obstruction, n) ==> r.out.coefficient == BaseCoefficient(rows, l / d)) &&
      (ScreenNamed(obstruction, n) ==>
        r.out.coefficient == Additive(BaseCoefficient(rows, l / d), ScreenCoefficient(screen, n.value).value))
  {
    if CircleArea(d) == 0.0 || |rows| == 0 then
      // Q / (A / 144) divides by zero, or `max` of no L/D values
      Failed(Raised)
    else
      assert d != 0.0;
      var base := BaseCoefficient(rows, l / d);
      if !ScreenNamed(obstruction, n) then Done(StandardOf(Velocity(q, CircleArea(d)), base))
      else if |screen| == 0 then
        // `min` of no screen values
        Failed(Raised)
      else
        Done(StandardOf(Velocity(q, CircleArea(d)), Additive(base, ScreenCoefficient(screen, n.value).value)))
  }
}
