/**
 * A15D: a rectangular duct H by W ending in a segmental exit of height h.
 * H/W is taken to the nearest tabulated value and h/H rounded down, each
 * on its own; the pair must then occur in the table.
 */
module A15D {
  import opened Wrappers
  import opened Lookup
  import opened Pipeline

  /** A15D projected on (H/W, h/H, C). */
  datatype Row = Row(hW: real, hH: real, c: real)

  function HW(r: Row): real { r.hW }
  function SegmentShare(r: Row): real { r.hH }

  /** The tabulated H/W nearest the duct's; on a tie, the one met first in the table. */
  function AspectMatch(rows: seq<Row>, hW: real): (v: real)
    requires |rows| > 0
    ensures v in Column(rows, HW)
    ensures forall x :: x in Column(rows, HW) ==> Dist(v, hW) <= Dist(x, hW)
    ensures exists i :: 0 <= i < |rows| && rows[i].hW == v && forall j :: 0 <= j < i ==> Dist(v, hW) < Dist(rows[j].hW, hW)
  {
    NearestOfUnique(Column(rows, HW), hW);
    Nearest(Unique(Column(rows, HW)), hW)
  }

  /** The tabulated h/H the segment's is rounded down to (the smallest when none is below). */
  function SegmentMatch(rows: seq<Row>, hH: real): (v: real)
    requires |rows| > 0
    ensures IsFloor(Column(rows, SegmentShare), hH, v)
  {
    var shares := Column(rows, SegmentShare);
    SameValuesSamePicks(Unique(shares), shares, hH);
    Floor(Unique(shares), hH)
  }

  /**
   * The C of the first row carrying both matched values; no match when no
   * row carries the pair, the two matches being independent.
   */
  function PairCoefficient(rows: seq<Row>, hW: real, hH: real): (r: Outcome<real>)
    requires |rows| > 0
    ensures r.Done? || r == Failed(NoMatch)
    ensures r == Failed(NoMatch) <==>
      forall j :: 0 <= j < |rows| ==> !(rows[j].hW == AspectMatch(rows, hW) && rows[j].hH == SegmentMatch(rows, hH))
    ensures r.Done? ==>
      exists i :: (0 <= i < |rows| && rows[i].c == r.out &&
                   rows[i].hW == AspectMatch(rows, hW) && rows[i].hH == SegmentMatch(rows, hH) &&
                   forall j :: 0 <= j < i ==> !(rows[j].hW == rows[i].hW && rows[j].hH == rows[i].hH))
  {
    var a, b := AspectMatch(rows, hW), SegmentMatch(rows, hH);
    match First(rows, (x: Row) => x.hW == a && x.hH == b)
    case Some(i) => Done(rows[i].c)
    case None => Failed(NoMatch)
  }

  /** A tabulated (H/W, h/H) pair always finds its row. */
  lemma TabulatedPairMatches(rows: seq<Row>, k: nat)
    requires k < |rows|
    ensures PairCoefficient(rows, rows[k].hW, rows[k].hH).Done?
  {
    var aspects, shares := Column(rows, HW), Column(rows, SegmentShare);
    assert rows[k].hW == aspects[k] && rows[k].hH == shares[k];
    var v := AspectMatch(rows, rows[k].hW);
    assert Dist(v, rows[k].hW) <= Dist(aspects[k], rows[k].hW);
    ExactHit(shares, rows[k].hH);
  }

  /** H, W, h (in) and Q (cfm). */
  function Outputs(h: Option<real>, w: Option<real>, segment: Option<real>, q: Option<real>,
                   rows: seq<Row>): (r: Outcome<Standard>)
    ensures r == AllNone <==> AnyNone([h, w, segment, q])
    ensures !AnyNone([h, w, segment, q]) ==> r == Compute(h.value, w.value, segment.value, q.value, rows)
  {
    if AnyNone([h, w, segment, q]) then AllNone
    else Compute(h.value, w.value, segment.value, q.value, rows)
  }

  /**
   * The routine once the four numbers are present. A zero side (hence a
   * zero area) and an empty table raise inside the handler; an absent pair
   * is reported.
   */
  function Compute(h: real, w: real, segment: real, q: real, rows: seq<Row>): (r: Outcome<Standard>)
    ensures r.Done? || r == Failed(Raised) || r == Failed(NoMatch)
    ensures r == Failed(Raised) <==> RectArea(h, w) == 0.0 || |rows| == 0
    ensures r == Failed(NoMatch) <==>
      RectArea(h, w) != 0.0 && |rows| > 0 && PairCoefficient(rows, h / w, segment / h) == Failed(NoMatch)
    ensures r.Done? ==>
      RectArea(h, w) != 0.0 && |rows| > 0 && PairCoefficient(rows, h / w, segment / h).Done? &&
      Consistent(r.out) && r.out.velocity == Velocity(q, RectArea(h, w)) &&
      r.out.coefficient == PairCoefficient(rows, h / w, segment / h).out
  {
    if RectArea(h, w) == 0.0 || |rows| == 0 then
      // Q / (A / 144), H / W or h / H divides by zero, or `min` of no H/W values
      Failed(Raised)
    else
      match PairCoefficient(rows, h / w, segment / h)
      case Done(c) => Done(StandardOf(Velocity(q, RectArea(h, w)), c))
      case _ => Failed(NoMatch)
  }
}
