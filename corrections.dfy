/**
 * How an obstruction correction C1 is combined with the base coefficient
 * C, and the two correction tables consulted for it: screens (A14A1) and
 * perforated plates (A14B1).
 */
module Corrections {
  import opened Wrappers
  import opened Lookup
  import opened Text

  /** Below this thickness ratio an obstructed entry's own coefficient is replaced by 1. */
  const THRESHOLD: real := 0.05

  /** The obstruction names the entry routines recognise. */
  const SCREEN: string := "screen"
  const PLATE: string := "perforated plate"

  /** `C + C1` */
  function Additive(c: real, c1: real): (r: real)
    ensures r - c == c1
  {
    c + c1
  }

  /** `C + C1 / ratio^2`: C1 is tabulated for the obstruction's own area. */
  function Scaled(c: real, c1: real, ratio: real): (r: real)
    requires ratio != 0.0
    ensures (r - c) * (ratio * ratio) == c1
  {
    c + c1 / (ratio * ratio)
  }

  /** `1 + C1` when the thickness ratio is at most 0.05, else `C + C1`. */
  function ThresholdSwitch(tD: real, c: real, c1: real): (r: real)
    ensures r == Additive(if tD <= THRESHOLD then 1.0 else c, c1)
  {
    if tD <= THRESHOLD then 1.0 + c1 else c + c1
  }

  /** A unit ratio makes the scaled rule additive, and the sign of the ratio is irrelevant. */
  lemma ScaledUnitRatio(c: real, c1: real, ratio: real)
    requires ratio != 0.0
    ensures Scaled(c, c1, 1.0) == Additive(c, c1)
    ensures Scaled(c, c1, -ratio) == Scaled(c, c1, ratio)
  {
  }

  /** With an opening at least as large as the duct, a positive C1 adds at most itself. */
  lemma ScaledBounded(c: real, c1: real, ratio: real)
    requires ratio * ratio >= 1.0 && c1 >= 0.0
    ensures c <= Scaled(c, c1, ratio) <= Additive(c, c1)
  {
    var sq := ratio * ratio;
    var d := c1 / sq;
    assert d * sq == c1;
    assert d >= 0.0;
    assert d <= c1 by {
      assert d * sq >= d;
    }
  }

  /** At or below the threshold the base coefficient plays no part; above it the rule is additive. */
  lemma ThresholdSwitchCases(tD: real, c: real, c2: real, c1: real)
    ensures tD <= THRESHOLD ==> ThresholdSwitch(tD, c, c1) == ThresholdSwitch(tD, c2, c1)
    ensures tD > THRESHOLD ==> ThresholdSwitch(tD, c, c1) == Additive(c, c1)
  {
  }

  /** Crossing the threshold moves the result by the base coefficient less one, whatever C1 is. */
  lemma ThresholdSwitchJump(t1: real, t2: real, c: real, c1: real)
    requires t1 <= THRESHOLD < t2
    ensures ThresholdSwitch(t2, c, c1) - ThresholdSwitch(t1, c, c1) == c - 1.0
    ensures c > 1.0 ==> ThresholdSwitch(t1, c, c1) < ThresholdSwitch(t2, c, c1)
  {
  }

  // ---------------------------------------------------------------------
  // Screen correction (A14A1)

  /** The screen correction applies only to the exact obstruction "screen" with n given. */
  predicate ScreenApplies(obstruction: Option<string>, n: Option<real>) {
    obstruction == Some(SCREEN) && n.Some?
  }

  /**
   * The lenient form: the obstruction, stripped of surrounding white space
   * and lower-cased, reads "screen", and n is given.
   */
  predicate ScreenNamed(obstruction: Option<string>, n: Option<real>) {
    obstruction.Some? && Lower(Strip(obstruction.value)) == SCREEN && n.Some?
  }

  /** Every exact "screen" is accepted by the lenient form. */
  lemma ScreenNamedWidens(obstruction: Option<string>, n: Option<real>)
    ensures ScreenApplies(obstruction, n) ==> ScreenNamed(obstruction, n)
  {
    ScreenWordStripped();
    ScreenWordLower();
  }

  /** "screen" has no surrounding white space. */
  lemma ScreenWordStripped()
    ensures Strip(SCREEN) == SCREEN
  {
    assert SCREEN[0] == 's' && SCREEN[|SCREEN| - 1] == 'n';
    assert !IsSpace('s') && !IsSpace('n');
    assert StripLeft(SCREEN) == SCREEN;
    assert StripRight(SCREEN) == SCREEN;
  }

  /** "screen" is already in lower case. */
  lemma ScreenWordLower()
    ensures Lower(SCREEN) == SCREEN
  {
    assert forall i :: 0 <= i < |SCREEN| ==> !('A' <= SCREEN[i] <= 'Z');
  }

  /** The lenient form also accepts " Screen ", which the exact one refuses. */
  lemma ScreenNamedPadded()
    ensures ScreenNamed(Some(" Screen "), Some(0.5)) && !ScreenApplies(Some(" Screen "), Some(0.5))
  {
    StripPadded("Screen");
    assert " Screen " == [' '] + "Screen" + [' '];
    assert Lower("Screen") == SCREEN;
  }

  /** A14A1 projected on (n, C): free area ratio and screen coefficient. */
  datatype ScreenRow = ScreenRow(n: real, c: real)

  function ScreenN(r: ScreenRow): real { r.n }

  /**
   * The C of the first row whose n is the floor of `n` among the
   * tabulated values (the smallest when none is below). An empty table
   * has no minimum to fall back on: `None`, the caller's exception.
   */
  function ScreenCoefficient(rows: seq<ScreenRow>, n: real): (c1: Option<real>)
    ensures c1.None? <==> |rows| == 0
    ensures c1.Some? ==>
      exists i :: 0 <= i < |rows| && rows[i].c == c1.value &&
        rows[i].n == Floor(Column(rows, ScreenN), n) &&
        forall j :: 0 <= j < i ==> rows[j].n != rows[i].n
  {
    if |rows| == 0 then None
    else Some(rows[FirstAtFloor(rows, ScreenN, n)].c)
  }

  // ---------------------------------------------------------------------
  // Perforated-plate correction (A14B1)

  /** A14B1 projected on (n, t/D, C). */
  datatype PlateRow = PlateRow(n: real, tD: real, c: real)

  function PlateN(r: PlateRow): real { r.n }
  function PlateTD(r: PlateRow): real { r.tD }

  /** A plate row no larger than the plate in either key. */
  predicate Under(r: PlateRow, n: real, tD: real) {
    r.n <= n && r.tD <= tD
  }

  /**
   * Among rows with n and t/D not above the plate's, the largest n and,
   * within it, the largest t/D; the C of the first row in table order
   * carrying that pair. No such row
   * is a reported error (`None`).
   */
  function PlateCoefficient(rows: seq<PlateRow>, n: real, tD: real): (c1: Option<real>)
    ensures c1.None? <==> forall j :: 0 <= j < |rows| ==> !Under(rows[j], n, tD)
    ensures c1.Some? ==>
      exists i :: PlateBestAt(rows, n, tD, i) && rows[i].c == c1.value &&
        forall j :: 0 <= j < i ==> !(rows[j].n == rows[i].n && rows[j].tD == rows[i].tD)
  {
    var under := Where(rows, (r: PlateRow) => Under(r, n, tD));
    if |under| == 0 then None
    else
      var x := PlateBest(under);
      var u :| 0 <= u < |under| && under[u] == x;
      var w :| 0 <= w < |rows| && rows[w] == x;
      var i := First(rows, (r: PlateRow) => r.n == x.n && r.tD == x.tD).value;
      PlateBestOfRows(rows, n, tD, under, i);
      assert PlateBestAt(rows, n, tD, i);
      Some(rows[i].c)
  }

  /** Row `i` is under (n, t/D) and greatest there in n, then in t/D. */
  predicate PlateBestAt(rows: seq<PlateRow>, n: real, tD: real, i: int) {
    0 <= i < |rows| && Under(rows[i], n, tD) &&
    (forall j :: 0 <= j < |rows| && Under(rows[j], n, tD) ==> rows[j].n <= rows[i].n) &&
    (forall j :: 0 <= j < |rows| && Under(rows[j], n, tD) && rows[j].n == rows[i].n ==> rows[j].tD <= rows[i].tD)
  }

  lemma PlateBestOfRows(rows: seq<PlateRow>, n: real, tD: real, under: seq<PlateRow>, w: nat)
    requires w < |rows| && Under(rows[w], n, tD)
    requires forall j :: 0 <= j < |rows| && Under(rows[j], n, tD) ==> rows[j] in under
    requires forall y :: y in under ==> y.n <= rows[w].n
    requires forall y :: y in under && y.n == rows[w].n ==> y.tD <= rows[w].tD
    ensures forall j :: 0 <= j < |rows| && Under(rows[j], n, tD) ==> rows[j].n <= rows[w].n
    ensures forall j :: 0 <= j < |rows| && Under(rows[j], n, tD) && rows[j].n == rows[w].n ==> rows[j].tD <= rows[w].tD
  {
  }

  /**
   * The first row with the largest t/D among the rows with the largest n:
   * the row of a non-empty selection that is greatest in (n, t/D).
   */
  function PlateBest(under: seq<PlateRow>): (x: PlateRow)
    requires |under| > 0
    ensures x in under
    ensures forall y :: y in under ==> y.n <= x.n
    ensures forall y :: y in under && y.n == x.n ==> y.tD <= x.tD
  {
    var nMax := Max(Column(under, PlateN));
    ColumnBounds(under, PlateN);
    MatchingValue(under, PlateN, nMax);
    var sub := Matching(under, PlateN, nMax);
    var tCol := Column(sub, PlateTD);
    var tMax := Max(tCol);
    ColumnBounds(sub, PlateTD);
    var k :| 0 <= k < |sub| && tCol[k] == tMax;
    assert sub[k].tD == tMax;
    var i := First(sub, (r: PlateRow) => r.tD == tMax).value;
    var x := sub[i];
    assert forall y :: y in under ==> y.n <= x.n by {
      forall y | y in under ensures y.n <= x.n {
        var a :| 0 <= a < |under| && under[a] == y;
      }
    }
    assert forall y :: y in under && y.n == x.n ==> y.tD <= x.tD by {
      forall y | y in under && y.n == x.n ensures y.tD <= x.tD {
        var a :| 0 <= a < |under| && under[a] == y;
        var b :| 0 <= b < |sub| && sub[b] == y;
      }
    }
    x
  }
}
