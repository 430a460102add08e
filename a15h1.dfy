/**
 * A15H1: a round duct crossed by a protruding obstruction of diameter d
 * and length L, offset y from the centreline. The base coefficient is
 * read at the Reynolds number rounded down and S_m/A rounded up, each on
 * its own; the pair must occur in the table. A factor K read at y/D
 * rounded down (A15H2) multiplies it.
 */
module A15H1 {
  import opened Wrappers
  import opened Lookup
  import opened Pipeline

  /** A15H1 projected on (Re, S_m/A, C). */
  datatype Row = Row(re: real, smA: real, c: real)

  /** A15H2 projected on (y/D or y/H, K). */
  datatype FactorRow = FactorRow(yD: real, k: real)

  function Re(r: Row): real { r.re }
  function SmA(r: Row): real { r.smA }
  function YD(r: FactorRow): real { r.yD }

  /** Reynolds number 8.5 D V. */
  function Reynolds(d: real, v: real): real {
    8.5 * d * v
  }

  /** S_m/A: the obstruction's projected area d L over the duct area. */
  function BlockedShare(dObs: real, l: real, a: real): (s: real)
    requires a != 0.0
    ensures s * a == dObs * l
  {
    (dObs * l) / a
  }

  /** The tabulated Reynolds number the duct's is rounded down to (the smallest when none is below). */
  function ReMatch(rows: seq<Row>, re: real): (v: real)
    requires |rows| > 0
    ensures IsFloor(Column(rows, Re), re, v)
  {
    var res := Column(rows, Re);
    FloorCeilOfUnique(res, re);
    Floor(Unique(res), re)
  }

  /** The tabulated S_m/A the duct's is rounded up to (the largest when none reaches it). */
  function SmAMatch(rows: seq<Row>, smA: real): (v: real)
    requires |rows| > 0
    ensures IsCeil(Column(rows, SmA), smA, v)
  {
    var shares := Column(rows, SmA);
    FloorCeilOfUnique(shares, smA);
    Ceil(Unique(shares), smA)
  }

  /**
   * The C of the first row carrying both rounded values; no match when no
   * row carries the pair, the two roundings being independent.
   */
  function PairCoefficient(rows: seq<Row>, re: real, smA: real): (r: Outcome<real>)
    requires |rows| > 0
    ensures r.Done? || r == Failed(NoMatch)
    ensures r == Failed(NoMatch) <==>
      forall j :: 0 <= j < |rows| ==> !(rows[j].re == ReMatch(rows, re) && rows[j].smA == SmAMatch(rows, smA))
    ensures r.Done? ==>
      exists i :: (0 <= i < |rows| && rows[i].c == r.out &&
                   rows[i].re == ReMatch(rows, re) && rows[i].smA == SmAMatch(rows, smA) &&
                   forall j :: 0 <= j < i ==> !(rows[j].re == rows[i].re && rows[j].smA == rows[i].smA))
  {
    var a, b := ReMatch(rows, re), SmAMatch(rows, smA);
    match First(rows, (x: Row) => x.re == a && x.smA == b)
    case Some(i) => Done(rows[i].c)
    case None => Failed(NoMatch)
  }

  /** A tabulated (Re, S_m/A) pair always finds its row. */
  lemma TabulatedPairMatches(rows: seq<Row>, k: nat)
    requires k < |rows|
    ensures PairCoefficient(rows, rows[k].re, rows[k].smA).Done?
  {
    var res, shares := Column(rows, Re), Column(rows, SmA);
    assert rows[k].re == res[k] && rows[k].smA == shares[k];
    ExactHit(res, rows[k].re);
    ExactHit(shares, rows[k].smA);
  }

  /** The K of the first A15H2 row at y/D rounded down (the smallest when none is below). */
  function Factor(rows: seq<FactorRow>, yD: real): (k: real)
    requires |rows| > 0
    ensures exists i :: (0 <= i < |rows| && rows[i].k == k && IsFloor(Column(rows, YD), yD, rows[i].yD) &&
                         forall j :: 0 <= j < i ==> rows[j].yD != rows[i].yD)
  {
    rows[FirstAtFloor(rows, YD, yD)].k
  }

  /** D, d, L, y (in) and Q (cfm). */
  function Outputs(d: Option<real>, dObs: Option<real>, l: Option<real>, y: Option<real>, q: Option<real>,
                   rows: seq<Row>, factors: seq<FactorRow>): (r: Outcome<Standard>)
    ensures r == AllNone <==> AnyNone([d, dObs, l, y, q])
    ensures !AnyNone([d, dObs, l, y, q]) ==> r == Compute(d.value, dObs.value, l.value, y.value, q.value, rows, factors)
  {
    if AnyNone([d, dObs, l, y, q]) then AllNone
    else Compute(d.value, dObs.value, l.value, y.value, q.value, rows, factors)
  }

  /** The C of the tabulated pair for the duct's Reynolds number and S_m/A. */
  function BaseFor(d: real, dObs: real, l: real, q: real, rows: seq<Row>): Outcome<real>
    requires CircleArea(d) != 0.0 && |rows| > 0
  {
    PairCoefficient(rows, Reynolds(d, Velocity(q, CircleArea(d))), BlockedShare(dObs, l, CircleArea(d)))
  }

  /** The K read at y/D. */
  function FactorFor(d: real, y: real, factors: seq<FactorRow>): real
    requires d != 0.0 && |factors| > 0
  {
    Factor(factors, y / d)
  }

  /** `K * C`: the offset factor applied to the base coefficient. */
  function Corrected(k: real, c: real): (r: real)
    ensures k == 1.0 ==> r == c
    ensures k != 0.0 ==> r / k == c
    ensures k == 0.0 ==> r == 0.0
  {
    k * c
  }

  /**
   * The routine once the five numbers are present. A zero duct area and
   * an A15H1 table of fewer than two rows raise inside the handler
   * (`data.loc` of a single row is a Series), and so does an A15H2 table
   * of fewer than two rows once the pair is found; an absent pair is
   * reported. The
   * coefficient is K times the base coefficient.
   */
  function Compute(d: real, dObs: real, l: real, y: real, q: real,
                   rows: seq<Row>, factors: seq<FactorRow>): (r: Outcome<Standard>)
    ensures r.Done? || r == Failed(Raised) || r == Failed(NoMatch)
    ensures CircleArea(d) == 0.0 || |rows| <= 1 ==> r == Failed(Raised)
    ensures CircleArea(d) != 0.0 && |rows| > 1 ==>
      (r == Failed(NoMatch) <==> BaseFor(d, dObs, l, q, rows) == Failed(NoMatch)) &&
      (r == Failed(Raised) <==> BaseFor(d, dObs, l, q, rows).Done? && |factors| <= 1) &&
      (r.Done? ==>
        BaseFor(d, dObs, l, q, rows).Done? && |factors| > 1 && d != 0.0 &&
        Consistent(r.out) && r.out.velocity == Velocity(q, CircleArea(d)) &&
        r.out.coefficient == Corrected(FactorFor(d, y, factors), BaseFor(d, dObs, l, q, rows).out))
  {
    if CircleArea(d) == 0.0 || |rows| <= 1 then
      // Q / (A / 144) divides by zero, `min` of no Reynolds numbers, or a
      // single A15H1 row read as a Series, whose cell has no `unique`
      Failed(Raised)
    else
      var base := BaseFor(d, dObs, l, q, rows);
      if base.Failed? then Failed(NoMatch)
      else if |factors| <= 1 then
        // `min` of no y/D values, or a single A15H2 row read as a Series
        Failed(Raised)
      else
        Done(StandardOf(Velocity(q, CircleArea(d)), Corrected(FactorFor(d, y, factors), base.out)))
  }
}
