/**
 * A9B2: a rectangular transition from H by W to H1 by W1 over a length L.
 * The base coefficient comes from the L/D group of the table and the
 * angle side of 60 degrees; a second projection of the same sheet gives
 * a correction factor for the area ratio A/A1, and the two multiply.
 */
module A9B2 {
  import opened Wrappers
  import opened Lookup
  import opened Pipeline

  /** A9B2 projected on (L/D, ANGLE, C). */
  datatype BaseRow = BaseRow(ld: real, angle: real, c: real)

  /** A9B2 projected on (A/A1, C). */
  datatype CorrectionRow = CorrectionRow(ratio: real, c: real)

  function LD(r: BaseRow): real { r.ld }
  function Angle(r: BaseRow): real { r.angle }
  function Ratio(r: CorrectionRow): real { r.ratio }

  /**
   * The angle row inside an L/D group sorted on ANGLE. Below 60 degrees:
   * the first row with ANGLE at most the requested one, else the first
   * row; from 60 on: the last row with ANGLE at least the requested one,
   * else the last row. Either way the requested angle only decides the
   * side: below 60 it is the first row of the least angle, from 60 on the
   * last row of the greatest.
   */
  function AngleRow(group: seq<BaseRow>, angle: real): (i: nat)
    requires |group| > 0
    ensures i < |group|
    ensures angle < 60.0 ==>
      (forall j :: 0 <= j < |group| ==> group[i].angle <= group[j].angle) &&
      (forall j :: 0 <= j < i ==> group[j].angle != group[i].angle)
    ensures angle >= 60.0 ==>
      (forall j :: 0 <= j < |group| ==> group[j].angle <= group[i].angle) &&
      (forall j :: i < j < |group| ==> group[j].angle != group[i].angle)
  {
    var key := ByKey(Angle);
    if angle < 60.0 then
      match FirstLeast(group, (r: BaseRow) => r.angle <= angle, key)
      case Some(i) =>
        forall j | 0 <= j < |group| ensures group[i].angle <= group[j].angle {
          ByKeyOrder(Angle, group[j], group[i]);
        }
        forall j | 0 <= j < i ensures group[j].angle != group[i].angle {
          ByKeyOrder(Angle, group[i], group[j]);
        }
        i
      case None =>
        var i := FirstLeast(group, Everything(), key).value;
        forall j | 0 <= j < |group| ensures group[i].angle <= group[j].angle {
          ByKeyOrder(Angle, group[j], group[i]);
        }
        forall j | 0 <= j < i ensures group[j].angle != group[i].angle {
          ByKeyOrder(Angle, group[i], group[j]);
        }
        i
    else
      match LastGreatest(group, (r: BaseRow) => r.angle >= angle, key)
      case Some(i) =>
        forall j | 0 <= j < |group| ensures group[j].angle <= group[i].angle {
          ByKeyOrder(Angle, group[i], group[j]);
        }
        forall j | i < j < |group| ensures group[j].angle != group[i].angle {
          ByKeyOrder(Angle, group[j], group[i]);
        }
        i
      case None =>
        var i := LastGreatest(group, Everything(), key).value;
        forall j | 0 <= j < |group| ensures group[j].angle <= group[i].angle {
          ByKeyOrder(Angle, group[i], group[j]);
        }
        forall j | i < j < |group| ensures group[j].angle != group[i].angle {
          ByKeyOrder(Angle, group[j], group[i]);
        }
        i
  }

  /** Two requested angles on the same side of 60 degrees pick the same row. */
  lemma AngleRowSide(group: seq<BaseRow>, a: real, b: real)
    requires |group| > 0
    requires (a < 60.0 && b < 60.0) || (a >= 60.0 && b >= 60.0)
    ensures AngleRow(group, a) == AngleRow(group, b)
  {
  }

  /**
   * The C of the angle row inside the group of the largest L/D at most
   * the duct's (the smallest L/D when none is).
   */
  function BaseCoefficient(rows: seq<BaseRow>, ld: real, angle: real): (c: real)
    requires |rows| > 0
    ensures exists x :: (x in rows && x.c == c && x.ld == Floor(Column(rows, LD), ld) &&
                         (angle < 60.0 ==> x.angle == Min(Column(Matching(rows, LD, x.ld), Angle))) &&
                         (angle >= 60.0 ==> x.angle == Max(Column(Matching(rows, LD, x.ld), Angle))))
  {
    var k := FloorRow(rows, LD, ld);
    FloorUnique(Column(rows, LD), ld, rows[k].ld, Floor(Column(rows, LD), ld));
    var group := Matching(rows, LD, rows[k].ld);
    assert rows[k] in group;
    var i := AngleRow(group, angle);
    var x := group[i];
    var col := Column(group, Angle);
    ColumnBounds(group, Angle);
    assert col[i] == x.angle;
    x.c
  }

  /** The C of the correction row carrying the largest A/A1 at most the duct's (the smallest when none is). */
  function CorrectionFactor(rows: seq<CorrectionRow>, ratio: real): (c: real)
    requires |rows| > 0
    ensures exists x :: x in rows && x.c == c && x.ratio == Floor(Column(rows, Ratio), ratio)
  {
    var i := FloorRow(rows, Ratio, ratio);
    FloorUnique(Column(rows, Ratio), ratio, rows[i].ratio, Floor(Column(rows, Ratio), ratio));
    rows[i].c
  }

  /** L / Dh with the upstream hydraulic diameter. */
  function LengthRatio(l: real, h: real, w: real): real
    requires h != 0.0 && w != 0.0 && h + w != 0.0
  {
    var dh := HydraulicDiameter(h, w);
    assert dh != 0.0 by { assert dh * (h + w) == 2.0 * (h * w); }
    l / dh
  }

  /** A / A1, both areas in square feet. */
  function AreaRatio(h: real, w: real, h1: real, w1: real): real
    requires h1 != 0.0 && w1 != 0.0
  {
    (h * w / SQ_IN_PER_SQ_FT) / (h1 * w1 / SQ_IN_PER_SQ_FT)
  }

  /**
   * Upstream H, W, downstream H1, W1 and length L (in), ANGLE (deg) and
   * flow Q (cfm); a zero counts as missing. `rows` and `corrections` are
   * the sheet's two projections.
   */
  function Outputs(h: Option<real>, w: Option<real>, h1: Option<real>, w1: Option<real>, l: Option<real>,
                   angle: Option<real>, q: Option<real>,
                   rows: seq<BaseRow>, corrections: seq<CorrectionRow>): (r: Outcome<Standard>)
    ensures r == AllNone <==> AnyFalsy([h, w, h1, w1, l, angle, q])
    ensures !AnyFalsy([h, w, h1, w1, l, angle, q]) ==>
      r == Compute(h.value, w.value, h1.value, w1.value, l.value, angle.value, q.value, rows, corrections)
  {
    if AnyFalsy([h, w, h1, w1, l, angle, q]) then AllNone
    else Compute(h.value, w.value, h1.value, w1.value, l.value, angle.value, q.value, rows, corrections)
  }

  /**
   * The routine once every input is present and non-zero; it has no
   * exception handler. The downstream hydraulic diameter is computed and
   * never used, but its division can still fail.
   */
  function Compute(h: real, w: real, h1: real, w1: real, l: real, angle: real, q: real,
                   rows: seq<BaseRow>, corrections: seq<CorrectionRow>): (r: Outcome<Standard>)
    requires h != 0.0 && w != 0.0 && h1 != 0.0 && w1 != 0.0
    ensures r.Done? || r == Failed(Uncaught)
    ensures r == Failed(Uncaught) <==> h + w == 0.0 || h1 + w1 == 0.0 || |rows| == 0 || |corrections| == 0
    ensures r.Done? ==>
      h + w != 0.0 && |rows| > 0 && |corrections| > 0 &&
      Consistent(r.out) && r.out.velocity == Velocity(q, h1 * w1) &&
      r.out.coefficient == BaseCoefficient(rows, LengthRatio(l, h, w), angle) * CorrectionFactor(corrections, AreaRatio(h, w, h1, w1))
  {
    if h + w == 0.0 || h1 + w1 == 0.0 then
      // a hydraulic diameter divides by zero
      Failed(Uncaught)
    else if |rows| == 0 || |corrections| == 0 then
      // the first row of an empty projection: IndexError
      Failed(Uncaught)
    else
      var v := Velocity(q, h1 * w1);
      var c := BaseCoefficient(rows, LengthRatio(l, h, w), angle) * CorrectionFactor(corrections, AreaRatio(h, w, h1, w1));
      Done(StandardOf(v, c))
  }
}
