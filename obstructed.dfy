/**
 * What the duct-entry routines A12A1 (round) and A12A2 (rectangular) share:
 * the base coefficient from the (t/D, L/D) table, resolved independently
 * with a floor on t/D and a ceiling on L/D, and the optional screen or
 * perforated-plate correction combined by the threshold switch.
 */
module Obstructed {
  import opened Wrappers
  import opened Lookup
  import opened Pipeline
  import opened Corrections

  /** A12A1 / A12A2 projected on (t/D, L/D, C). */
  datatype Row = Row(tD: real, lD: real, c: real)

  function TD(r: Row): real { r.tD }
  function LD(r: Row): real { r.lD }

  /** t/D rounded down, L/D rounded up, each over the whole table. */
  function BaseFields(tD: real, lD: real): seq<Field<Row>> {
    [Field(TD, FloorPolicy, tD), Field(LD, CeilPolicy, lD)]
  }

  /** The row carries the floor of t/D and the ceiling of L/D over the whole table. */
  ghost predicate AtBasePair(rows: seq<Row>, x: Row, tD: real, lD: real)
    requires |rows| > 0
  {
    x.tD == Floor(Column(rows, TD), tD) && x.lD == Ceil(Column(rows, LD), lD)
  }

  /**
   * The C of the first row carrying both resolved values. An empty table
   * raises (no minimum to fall back on); no such row is a reported error.
   */
  function BaseCoefficient(rows: seq<Row>, tD: real, lD: real): (r: Outcome<real>)
    ensures r.Done? || r == Failed(Raised) || r == Failed(NoMatch)
    ensures r == Failed(Raised) <==> |rows| == 0
    ensures r == Failed(NoMatch) <==> |rows| > 0 && forall i :: 0 <= i < |rows| ==> !AtBasePair(rows, rows[i], tD, lD)
    ensures r.Done? ==>
      exists i :: 0 <= i < |rows| && AtBasePair(rows, rows[i], tD, lD) && rows[i].c == r.out &&
        forall j :: 0 <= j < i ==> !AtBasePair(rows, rows[j], tD, lD)
  {
    if |rows| == 0 then Failed(Raised)
    else
      var a, b := Floor(Column(rows, TD), tD), Ceil(Column(rows, LD), lD);
      match First(rows, (x: Row) => x.tD == a && x.lD == b)
      case None => Failed(NoMatch)
      case Some(i) => Done(rows[i].c)
  }

  lemma BasePicks(rows: seq<Row>, tD: real, lD: real)
    requires |rows| > 0
    ensures forall x :: MatchesAll(x, BaseFields(tD, lD), Picks(rows, BaseFields(tD, lD))) <==> AtBasePair(rows, x, tD, lD)
  {
    var fs := BaseFields(tD, lD);
    var vs := Picks(rows, fs);
    assert vs[0] == Floor(Column(rows, TD), tD);
    assert vs[1] == Ceil(Column(rows, LD), lD);
    forall x ensures MatchesAll(x, fs, vs) <==> AtBasePair(rows, x, tD, lD) {
      MatchesTwo(x, fs[0], fs[1], vs);
    }
  }

  /** Resolving t/D inside the rows of the chosen L/D would find the same row set whenever a pair exists. */
  lemma BaseNarrowingAgrees(rows: seq<Row>, tD: real, lD: real)
    requires BaseCoefficient(rows, tD, lD).Done?
    ensures Narrow(rows, BaseFields(tD, lD)) == Independent(rows, BaseFields(tD, lD))
  {
    var fs := BaseFields(tD, lD);
    BasePicks(rows, tD, lD);
    var i :| 0 <= i < |rows| && AtBasePair(rows, rows[i], tD, lD);
    assert MatchesAll(rows[i], fs, Picks(rows, fs));
    assert fs == [fs[0], fs[1]];
    TwoFieldModesAgree(rows, fs[0], fs[1]);
  }

  /**
   * The correction C1: from the screen table when the obstruction is a
   * screen and n is given; from the plate table when it is a perforated
   * plate and n, thickness and hole diameter are given; otherwise 0.
   */
  function CorrectionCoefficient(obstruction: Option<string>, n: Option<real>, plateThickness: Option<real>,
                                 holeDiameter: Option<real>, screen: seq<ScreenRow>, plate: seq<PlateRow>): (r: Outcome<real>)
    ensures r.Done? || r == Failed(Raised) || r == Failed(NoMatch)
    ensures obstruction != Some(SCREEN) && obstruction != Some(PLATE) ==> r == Done(0.0)
    ensures obstruction == Some(SCREEN) ==>
      if n.None? then r == Done(0.0)
      else if |screen| == 0 then r == Failed(Raised)
      else r == Done(ScreenCoefficient(screen, n.value).value)
    ensures obstruction == Some(PLATE) && n.Some? && plateThickness.Some? && holeDiameter.Some? ==>
      if holeDiameter.value == 0.0 then r == Failed(Raised)
      else
        var c1 := PlateCoefficient(plate, n.value, plateThickness.value / holeDiameter.value);
        (c1.None? ==> r == Failed(NoMatch)) && (c1.Some? ==> r == Done(c1.value))
    ensures obstruction == Some(PLATE) && !(n.Some? && plateThickness.Some? && holeDiameter.Some?) ==> r == Done(0.0)
  {
    if obstruction == Some(SCREEN) && n.Some? then
      match ScreenCoefficient(screen, n.value)
      case None => Failed(Raised)
      case Some(c1) => Done(c1)
    else if obstruction == Some(PLATE) && n.Some? && plateThickness.Some? && holeDiameter.Some? then
      if holeDiameter.value == 0.0 then Failed(Raised)
      else
        match PlateCoefficient(plate, n.value, plateThickness.value / holeDiameter.value)
        case None => Failed(NoMatch)
        case Some(c1) => Done(c1)
    else Done(0.0)
  }

  /** Threshold switch for a screen or a perforated plate; the base coefficient alone otherwise. */
  function TotalCoefficient(obstruction: Option<string>, tD: real, c: real, c1: real): (total: real)
    ensures obstruction != Some(SCREEN) && obstruction != Some(PLATE) ==> total == c
    ensures (obstruction == Some(SCREEN) || obstruction == Some(PLATE)) && tD <= THRESHOLD ==> total == 1.0 + c1
    ensures (obstruction == Some(SCREEN) || obstruction == Some(PLATE)) && tD > THRESHOLD ==> total == c + c1
  {
    if obstruction == Some(SCREEN) || obstruction == Some(PLATE) then ThresholdSwitch(tD, c, c1) else c
  }

  /**
   * The coefficient chain once the ratios are known: base C, then C1,
   * then the total; the first failure wins.
   */
  function EntryCoefficient(tD: real, lD: real, obstruction: Option<string>, n: Option<real>,
                            plateThickness: Option<real>, holeDiameter: Option<real>,
                            rows: seq<Row>, screen: seq<ScreenRow>, plate: seq<PlateRow>): (r: Outcome<real>)
    ensures r.Done? || r == Failed(Raised) || r == Failed(NoMatch)
    ensures BaseCoefficient(rows, tD, lD).Failed? ==> r == BaseCoefficient(rows, tD, lD)
    ensures r.Done? <==>
      BaseCoefficient(rows, tD, lD).Done? &&
      CorrectionCoefficient(obstruction, n, plateThickness, holeDiameter, screen, plate).Done?
    ensures (BaseCoefficient(rows, tD, lD).Done? &&
             CorrectionCoefficient(obstruction, n, plateThickness, holeDiameter, screen, plate).Failed?) ==>
      r == CorrectionCoefficient(obstruction, n, plateThickness, holeDiameter, screen, plate)
    ensures r.Done? ==>
      BaseCoefficient(rows, tD, lD).Done? &&
      CorrectionCoefficient(obstruction, n, plateThickness, holeDiameter, screen, plate).Done? &&
      r.out == TotalCoefficient(obstruction, tD, BaseCoefficient(rows, tD, lD).out,
                                CorrectionCoefficient(obstruction, n, plateThickness, holeDiameter, screen, plate).out)
  {
    match BaseCoefficient(rows, tD, lD)
    case Done(c) =>
      (match CorrectionCoefficient(obstruction, n, plateThickness, holeDiameter, screen, plate)
       case Done(c1) => Done(TotalCoefficient(obstruction, tD, c, c1))
       case other => other)
    case other => other
  }
}
