/**
 * A13C: a rectangular exit widening in one plane from H to Hs at a given
 * angle, optionally behind a screen. The angle is rounded up to a
 * tabulated one; among that angle's rows the area ratio As/A is rounded
 * down at 20 degrees and below, and to the nearest value above 20.
 */
module A13C {
  import opened Wrappers
  import opened Lookup
  import opened Pipeline
  import opened Corrections

  /** A13C projected on (ANGLE, As/A, C). */
  datatype Row = Row(angle: real, asA: real, c: real)

  function Angle(r: Row): real { r.angle }
  function AsA(r: Row): real { r.asA }

  /** At or below this angle (degrees) the area ratio is rounded down. */
  const FLOOR_ANGLE_LIMIT: real := 20.0

  /** The As/A values tabulated at angle `a`, in table order. */
  function RatiosAt(rows: seq<Row>, a: real): (s: seq<real>)
    ensures forall x :: x in s <==> exists j :: 0 <= j < |rows| && rows[j].angle == a && rows[j].asA == x
  {
    var sub := Matching(rows, Angle, a);
    var s := Column(sub, AsA);
    assert forall x :: x in s ==> exists j :: 0 <= j < |rows| && rows[j].angle == a && rows[j].asA == x by {
      forall x | x in s ensures exists j :: 0 <= j < |rows| && rows[j].angle == a && rows[j].asA == x {
        var k :| 0 <= k < |s| && s[k] == x;
        assert sub[k] in rows;
      }
    }
    assert forall j :: 0 <= j < |rows| && rows[j].angle == a ==> rows[j].asA in s by {
      forall j | 0 <= j < |rows| && rows[j].angle == a ensures rows[j].asA in s {
        assert rows[j] in sub;
        var k :| 0 <= k < |sub| && sub[k] == rows[j];
        assert s[k] == rows[j].asA;
      }
    }
    s
  }

  /**
   * The base coefficient. The angle goes up to the least tabulated angle
   * reaching it (the largest when none does); the area ratio goes down
   * among that angle's ratios at 20 degrees and below, and to the nearest
   * one above, the one met first in the table on a tie. The pair always
   * occurs in the table, so a non-empty table always yields the C of the
   * first row carrying it.
   */
  function BaseCoefficient(rows: seq<Row>, angle: real, ratio: real): (c: real)
    requires |rows| > 0
    ensures exists i :: 0 <= i < |rows| && BaseRow(rows, angle, ratio, i) && rows[i].c == c
  {
    var angles := Column(rows, Angle);
    var a := Ceil(Unique(angles), angle);
    SameValuesSamePicks(Unique(angles), angles, angle);
    var ratios := RatiosAt(rows, a);
    var k0 :| 0 <= k0 < |rows| && angles[k0] == a;
    assert rows[k0].asA in ratios;
    var r := if angle <= FLOOR_ANGLE_LIMIT then Floor(Unique(ratios), ratio) else Nearest(Unique(ratios), ratio);
    SameValuesSamePicks(Unique(ratios), ratios, ratio);
    NearestOfUnique(ratios, ratio);
    assert r in ratios;
    var k :| 0 <= k < |rows| && rows[k].angle == a && rows[k].asA == r;
    var p := (x: Row) => x.angle == a && x.asA == r;
    assert p(rows[k]);
    var i := First(rows, p).value;
    forall j | 0 <= j < |rows| && rows[j].angle == a && angle > FLOOR_ANGLE_LIMIT
      ensures Dist(r, ratio) <= Dist(rows[j].asA, ratio)
    {
      assert rows[j].asA in ratios;
    }
    assert angle > FLOOR_ANGLE_LIMIT ==>
      forall j :: 0 <= j < i && rows[j].angle == a ==> Dist(r, ratio) < Dist(rows[j].asA, ratio) by {
      if angle > FLOOR_ANGLE_LIMIT {
        assert r == Nearest(ratios, ratio);
        forall j | 0 <= j < i ensures !(rows[j].angle == a && rows[j].asA == r) {
          assert !p(rows[j]);
        }
        NearestTieFirst(rows, a, ratio, i);
      }
    }
    assert BaseRow(rows, angle, ratio, i);
    rows[i].c
  }

  /**
   * Row `i` is the row the base lookup reads: its angle is the rounded-up
   * angle; its As/A is rounded down among that angle's ratios at 20 degrees
   * and below, and nearest above, with every earlier row of that angle
   * strictly farther; and no earlier row carries the same pair.
   */
  ghost predicate BaseRow(rows: seq<Row>, angle: real, ratio: real, i: int) {
    0 <= i < |rows| &&
    IsCeil(Column(rows, Angle), angle, rows[i].angle) &&
    (angle <= FLOOR_ANGLE_LIMIT ==> IsFloor(RatiosAt(rows, rows[i].angle), ratio, rows[i].asA)) &&
    (angle > FLOOR_ANGLE_LIMIT ==>
      (forall j :: 0 <= j < |rows| && rows[j].angle == rows[i].angle ==> Dist(rows[i].asA, ratio) <= Dist(rows[j].asA, ratio)) &&
      forall j :: 0 <= j < i && rows[j].angle == rows[i].angle ==> Dist(rows[i].asA, ratio) < Dist(rows[j].asA, ratio)) &&
    forall j :: 0 <= j < i ==> !(rows[j].angle == rows[i].angle && rows[j].asA == rows[i].asA)
  }

  /** Among angle `a`'s rows, every row before the first carrying the nearest ratio lies strictly farther. */
  lemma {:induction false} NearestTieFirst(rows: seq<Row>, a: real, ratio: real, i: nat)
    requires i < |rows| && rows[i].angle == a
    requires forall j :: 0 <= j < i ==> !(rows[j].angle == a && rows[j].asA == rows[i].asA)
    requires FirstNearest(RatiosAt(rows, a), ratio, rows[i].asA)
    ensures forall j :: 0 <= j < i && rows[j].angle == a ==> Dist(rows[i].asA, ratio) < Dist(rows[j].asA, ratio)
  {
    assert RatiosAt(rows, a) == Column(Matching(rows, Angle, a), AsA);
    FirstNearestRow(rows, Angle, a, AsA, ratio, i);
  }

  /**
   * The screen rule: `C + C1 / (As/A)^2`, the squared ratio taken as 1
   * when the ratio is zero.
   */
  function WithScreen(c: real, c1: real, ratio: real): (r: real)
    ensures ratio != 0.0 ==> (r - c) * (ratio * ratio) == c1
    ensures ratio == 0.0 ==> r - c == c1
  {
    if ratio != 0.0 then Scaled(c, c1, ratio) else Additive(c, c1)
  }

  /** As/A, or 1 when the duct has no area. */
  function AreaRatio(h: real, hs: real, w: real): (ratio: real)
    ensures RectArea(h, w) != 0.0 ==> ratio * RectArea(h, w) == RectArea(hs, w)
    ensures RectArea(h, w) == 0.0 ==> ratio == 1.0
  {
    if RectArea(h, w) != 0.0 then RectArea(hs, w) / RectArea(h, w) else 1.0
  }

  /**
   * H, Hs, W (in), ANGLE (deg) and Q (cfm), then the obstruction and its
   * free area ratio n.
   */
  function Outputs(h: Option<real>, hs: Option<real>, w: Option<real>, angle: Option<real>, q: Option<real>,
                   obstruction: Option<string>, n: Option<real>,
                   rows: seq<Row>, screen: seq<ScreenRow>): (r: Outcome<Standard>)
    ensures r == AllNone <==> AnyNone([h, hs, w, angle, q])
    ensures !AnyNone([h, hs, w, angle, q]) ==>
      r == Compute(h.value, hs.value, w.value, angle.value, q.value, obstruction, n, rows, screen)
  {
    if AnyNone([h, hs, w, angle, q]) then AllNone
    else Compute(h.value, hs.value, w.value, angle.value, q.value, obstruction, n, rows, screen)
  }

  /**
   * The routine once the five numbers are present. A zero duct area, an
   * empty table and, with a screen, an empty screen table each raise
   * inside the handler; the table lookup itself never fails to match.
   */
  function Compute(h: real, hs: real, w: real, angle: real, q: real, obstruction: Option<string>, n: Option<real>,
                   rows: seq<Row>, screen: seq<ScreenRow>): (r: Outcome<Standard>)
    ensures r.Done? || r == Failed(Raised)
    ensures r == Failed(Raised) <==>
      RectArea(h, w) == 0.0 || |rows| == 0 || (ScreenNamed(obstruction, n) && |screen| == 0)
    ensures r.Done? ==>
      RectArea(h, w) != 0.0 && |rows| > 0 &&
      Consistent(r.out) && r.out.velocity == Velocity(q, RectArea(h, w)) &&
      (!ScreenNamed(obstruction, n) ==> r.out.coefficient == BaseCoefficient(rows, angle, AreaRatio(h, hs, w))) &&
      (ScreenNamed(obstruction, n) ==>
        r.out.coefficient == WithScreen(BaseCoefficient(rows, angle, AreaRatio(h, hs, w)),
                                        ScreenCoefficient(screen, n.value).value, AreaRatio(h, hs, w)))
  {
    if RectArea(h, w) == 0.0 || |rows| == 0 then
      // Q / (A / 144) divides by zero, or `max` of no angles
      Failed(Raised)
    else
      var base := BaseCoefficient(rows, angle, AreaRatio(h, hs, w));
      if !ScreenNamed(obstruction, n) then Done(StandardOf(Velocity(q, RectArea(h, w)), base))
      else if |screen| == 0 then
        // `min` of no screen values
        Failed(Raised)
      else
        Done(StandardOf(Velocity(q, RectArea(h, w)),
                        WithScreen(base, ScreenCoefficient(screen, n.value).value, AreaRatio(h, hs, w))))
  }
}
