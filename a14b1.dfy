/**
 * A14B1: a perforated plate across a round duct. The free area ratio n
 * and the thickness ratio t/D are each rounded down over the whole table;
 * the pair must then occur in the table.
 */
module A14B1 {
  import opened Wrappers
  import opened Lookup
  import opened Pipeline
  import opened Corrections

  /** The tabulated n the plate's is rounded down to (the smallest when none is below). */
  function NMatch(rows: seq<PlateRow>, n: real): (v: real)
    requires |rows| > 0
    ensures IsFloor(Column(rows, PlateN), n, v)
  {
    var ns := Column(rows, PlateN);
    FloorCeilOfUnique(ns, n);
    Floor(Unique(ns), n)
  }

  /** The tabulated t/D the plate's is rounded down to (the smallest when none is below). */
  function TDMatch(rows: seq<PlateRow>, tD: real): (v: real)
    requires |rows| > 0
    ensures IsFloor(Column(rows, PlateTD), tD, v)
  {
    var tds := Column(rows, PlateTD);
    FloorCeilOfUnique(tds, tD);
    Floor(Unique(tds), tD)
  }

  /**
   * The C of the first row carrying both rounded values; no match when no
   * row carries the pair, the two roundings being independent.
   */
  function PairCoefficient(rows: seq<PlateRow>, n: real, tD: real): (r: Outcome<real>)
    requires |rows| > 0
    ensures r.Done? || r == Failed(NoMatch)
    ensures r == Failed(NoMatch) <==>
      forall j :: 0 <= j < |rows| ==> !(rows[j].n == NMatch(rows, n) && rows[j].tD == TDMatch(rows, tD))
    ensures r.Done? ==>
      exists i :: (0 <= i < |rows| && rows[i].c == r.out &&
                   rows[i].n == NMatch(rows, n) && rows[i].tD == TDMatch(rows, tD) &&
                   forall j :: 0 <= j < i ==> !(rows[j].n == rows[i].n && rows[j].tD == rows[i].tD))
  {
    var a, b := NMatch(rows, n), TDMatch(rows, tD);
    match First(rows, (x: PlateRow) => x.n == a && x.tD == b)
    case Some(i) => Done(rows[i].c)
    case None => Failed(NoMatch)
  }

  /** A tabulated (n, t/D) pair always finds its row. */
  lemma TabulatedPairMatches(rows: seq<PlateRow>, k: nat)
    requires k < |rows|
    ensures PairCoefficient(rows, rows[k].n, rows[k].tD).Done?
  {
    var ns, tds := Column(rows, PlateN), Column(rows, PlateTD);
    assert rows[k].n == ns[k] && rows[k].tD == tds[k];
    ExactHit(ns, rows[k].n);
    ExactHit(tds, rows[k].tD);
  }

  /**
   * When both ratios reach a tabulated value and the rounded pair is
   * tabulated, the plate correction used by the obstructed entries (the
   * largest n, then the largest t/D, among rows below the plate) lands on
   * the same pair.
   */
  lemma AgreesWithPlateCorrection(rows: seq<PlateRow>, n: real, tD: real)
    requires |rows| > 0 && PairCoefficient(rows, n, tD).Done?
    requires exists j :: 0 <= j < |rows| && rows[j].n <= n
    requires exists j :: 0 <= j < |rows| && rows[j].tD <= tD
    ensures PlateCoefficient(rows, n, tD).Some?
    ensures exists i :: 0 <= i < |rows| && rows[i].c == PlateCoefficient(rows, n, tD).value &&
                        rows[i].n == NMatch(rows, n) && rows[i].tD == TDMatch(rows, tD)
  {
    var ns, tds := Column(rows, PlateN), Column(rows, PlateTD);
    var a, b := NMatch(rows, n), TDMatch(rows, tD);
    var k :| 0 <= k < |rows| && rows[k].n == a && rows[k].tD == b;
    var j1 :| 0 <= j1 < |rows| && rows[j1].n <= n;
    var j2 :| 0 <= j2 < |rows| && rows[j2].tD <= tD;
    assert ns[j1] in ns && tds[j2] in tds;
    assert a <= n && b <= tD;
    assert Under(rows[k], n, tD);
    assert PlateCoefficient(rows, n, tD).Some?;
    var i := PlateRowOf(rows, n, tD);
    assert ns[i] in ns && tds[i] in tds;
    assert rows[i].n == a;
    assert rows[i].tD == b;
  }

  /** The row whose C the plate correction reads. */
  lemma PlateRowOf(rows: seq<PlateRow>, n: real, tD: real) returns (i: nat)
    requires PlateCoefficient(rows, n, tD).Some?
    ensures i < |rows| && Under(rows[i], n, tD) && rows[i].c == PlateCoefficient(rows, n, tD).value
    ensures forall j :: 0 <= j < |rows| && Under(rows[j], n, tD) ==> rows[j].n <= rows[i].n
    ensures forall j :: 0 <= j < |rows| && Under(rows[j], n, tD) && rows[j].n == rows[i].n ==> rows[j].tD <= rows[i].tD
  {
    var c1 := PlateCoefficient(rows, n, tD);
    i :| PlateBestAt(rows, n, tD, i) && rows[i].c == c1.value;
  }

  /** D (in), Q (cfm), n, plate thickness t and hole diameter d (in). */
  function Outputs(d: Option<real>, q: Option<real>, n: Option<real>, t: Option<real>, hole: Option<real>,
                   rows: seq<PlateRow>): (r: Outcome<Standard>)
    ensures r == AllNone <==> AnyNone([d, q, n, t, hole])
    ensures !AnyNone([d, q, n, t, hole]) ==> r == Compute(d.value, q.value, n.value, t.value, hole.value, rows)
  {
    if AnyNone([d, q, n, t, hole]) then AllNone
    else Compute(d.value, q.value, n.value, t.value, hole.value, rows)
  }

  /**
   * The routine once the five numbers are present. A zero duct area, a
   * zero hole diameter and a table of fewer than two rows (`data.loc` of
   * a single row is a Series) raise inside the handler; an
   * absent pair is reported. The thickness ratio is t over the hole
   * diameter.
   */
  function Compute(d: real, q: real, n: real, t: real, hole: real, rows: seq<PlateRow>): (r: Outcome<Standard>)
    ensures r.Done? || r == Failed(Raised) || r == Failed(NoMatch)
    ensures r == Failed(Raised) <==> CircleArea(d) == 0.0 || hole == 0.0 || |rows| <= 1
    ensures r == Failed(NoMatch) <==>
      CircleArea(d) != 0.0 && hole != 0.0 && |rows| > 1 && PairCoefficient(rows, n, t / hole) == Failed(NoMatch)
    ensures r.Done? ==>
      CircleArea(d) != 0.0 && hole != 0.0 && |rows| > 1 && PairCoefficient(rows, n, t / hole).Done? &&
      Consistent(r.out) && r.out.velocity == Velocity(q, CircleArea(d)) &&
      r.out.coefficient == PairCoefficient(rows, n, t / hole).out
  {
    if CircleArea(d) == 0.0 || hole == 0.0 || |rows| <= 1 then
      // Q / (A / 144) or t / d divides by zero, `min` of no n values, or a
      // single A14B1 row read as a Series, whose cell has no `unique`
      Failed(Raised)
    else
      match PairCoefficient(rows, n, t / hole)
      case Done(c) => Done(StandardOf(Velocity(q, CircleArea(d)), c))
      case _ => Failed(NoMatch)
  }
}
