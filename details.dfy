/**
 * The details view of a fitting case (`get_case_details`): the case's
 * sheet narrowed by its row filter and projected on its argument and value
 * columns, a plotting grid of inverse distance interpolations over that
 * table, and the point the user is currently looking at.
 */
module Details {
  import opened Wrappers
  import opened Lookup
  import opened Pipeline
  import opened Numeric
  import opened Idw

  // ---------------------------------------------------------------------
  // Sheets

  /** A spreadsheet cell: a number, a text, or empty (NaN). */
  datatype Cell = Num(x: real) | Str(s: string) | Blank

  /** `cell == val` in pandas: an empty cell (NaN) equals nothing, not even NaN. */
  predicate Equal(a: Cell, b: Cell) {
    a == b && !a.Blank?
  }

  type Row = map<string, Cell>

  /** The cell of `row` under `col`; a row without that entry reads as NaN. */
  function Get(row: Row, col: string): Cell {
    if col in row then row[col] else Blank
  }

  /** A sheet: its column names and its rows, in sheet order. */
  datatype Frame = Frame(columns: seq<string>, rows: seq<Row>)

  /** A case's `row_filter`: column and value pairs, in dictionary order. */
  type Filter = seq<(string, Cell)>

  predicate Matches(row: Row, e: (string, Cell)) {
    Equal(Get(row, e.0), e.1)
  }

  predicate Satisfies(row: Row, filter: Filter) {
    forall e :: e in filter ==> Matches(row, e)
  }

  function MatchesEntry(e: (string, Cell)): Row -> bool {
    (row: Row) => Matches(row, e)
  }

  function SatisfiesAll(filter: Filter): Row -> bool {
    (row: Row) => Satisfies(row, filter)
  }

  // ---------------------------------------------------------------------
  // The row filter

  /** The rows matching every entry of the filter, in sheet order. */
  function Filtered(rows: seq<Row>, filter: Filter): (kept: seq<Row>)
    ensures |kept| <= |rows|
    ensures forall i :: 0 <= i < |kept| ==> kept[i] in rows && Satisfies(kept[i], filter)
    ensures forall i :: 0 <= i < |rows| && Satisfies(rows[i], filter) ==> rows[i] in kept
  {
    Where(rows, SatisfiesAll(filter))
  }

  /**
   * `_apply_row_filter`: no filter (`None` or `{}`) leaves the sheet as it
   * is; a filter naming a column the sheet lacks raises; otherwise the rows
   * matching every entry remain.
   */
  function RowFilter(df: Frame, filter: Option<Filter>): (r: Outcome<Frame>)
    ensures r.Done? || r == Failed(Uncaught)
    ensures r.Failed? <==> filter.Some? && !Known(filter.value, df.columns)
    ensures filter.None? || |filter.value| == 0 ==> r == Done(df)
    ensures r.Done? ==> r.out.columns == df.columns && |r.out.rows| <= |df.rows|
    ensures r.Done? && filter.Some? ==>
      (forall i :: 0 <= i < |r.out.rows| ==> r.out.rows[i] in df.rows && Satisfies(r.out.rows[i], filter.value)) &&
      (forall i :: 0 <= i < |df.rows| && Satisfies(df.rows[i], filter.value) ==> df.rows[i] in r.out.rows)
  {
    if filter.None? || |filter.value| == 0 then Done(df)
    else if !Known(filter.value, df.columns) then Failed(Uncaught)
    else Done(Frame(df.columns, Filtered(df.rows, filter.value)))
  }

  /** Every column the filter names is a column of the sheet. */
  predicate Known(filter: Filter, columns: seq<string>) {
    forall e :: e in filter ==> e.0 in columns
  }

  /**
   * `_apply_row_filter` as the program runs it: one entry at a time, each
   * narrowing the rows the previous ones kept.
   */
  method ApplyRowFilter(df: Frame, filter: Option<Filter>) returns (r: Outcome<Frame>)
    ensures r == RowFilter(df, filter)
  {
    if filter.None? || |filter.value| == 0 {
      return Done(df);
    }
    var f := filter.value;
    var out := df.rows;
    WhereAll(df.rows, SatisfiesAll(f[..0]));
    for n := 0 to |f|
      invariant Known(f[..n], df.columns)
      invariant out == Filtered(df.rows, f[..n])
    {
      if f[n].0 !in df.columns {
        KnownStep(f, n, df.columns);
        return Failed(Uncaught);
      }
      KnownStep(f, n, df.columns);
      FilterStep(df.rows, f, n);
      out := Where(out, MatchesEntry(f[n]));
    }
    KnownStep(f, |f|, df.columns);
    assert f[..|f|] == f;
    return Done(Frame(df.columns, out));
  }

  /** A prefix of the filter names only known columns exactly when each of its entries does. */
  lemma KnownStep(f: Filter, n: nat, columns: seq<string>)
    requires n <= |f|
    ensures n == |f| ==> (Known(f[..n], columns) <==> Known(f, columns))
    ensures n < |f| && f[n].0 !in columns ==> !Known(f, columns)
    ensures n < |f| ==> (Known(f[..n + 1], columns) <==> Known(f[..n], columns) && f[n].0 in columns)
  {
    if n == |f| {
      assert f[..n] == f;
    } else {
      assert f[n] in f;
      assert f[..n + 1] == f[..n] + [f[n]];
    }
  }

  /** Narrowing by one more entry is filtering by the longer filter. */
  lemma FilterStep(rows: seq<Row>, f: Filter, n: nat)
    requires n < |f|
    ensures Where(Filtered(rows, f[..n]), MatchesEntry(f[n])) == Filtered(rows, f[..n + 1])
  {
    assert f[..n + 1] == f[..n] + [f[n]];
    WhereWhere(rows, SatisfiesAll(f[..n]), MatchesEntry(f[n]), SatisfiesAll(f[..n + 1]));
  }

  /** The order of the entries does not matter: only which entries there are. */
  lemma FilterOrderIrrelevant(rows: seq<Row>, f: Filter, g: Filter)
    requires forall e :: e in f <==> e in g
    ensures Filtered(rows, f) == Filtered(rows, g)
  {
    WhereSame(rows, SatisfiesAll(f), SatisfiesAll(g));
  }

  /** Filtering the kept rows again keeps them all. */
  lemma FilterIdempotent(rows: seq<Row>, f: Filter)
    ensures Filtered(Filtered(rows, f), f) == Filtered(rows, f)
  {
    WhereWhere(rows, SatisfiesAll(f), SatisfiesAll(f), SatisfiesAll(f));
  }

  /** Filtering by `f` and then by `g` is filtering by both at once. */
  lemma FilterCompose(rows: seq<Row>, f: Filter, g: Filter)
    ensures Filtered(Filtered(rows, f), g) == Filtered(rows, f + g)
  {
    WhereWhere(rows, SatisfiesAll(f), SatisfiesAll(g), SatisfiesAll(f + g));
  }

  /** An entry asking for an empty cell keeps nothing: NaN equals nothing. */
  lemma FilterOnBlank(rows: seq<Row>, f: Filter, col: string)
    requires (col, Blank) in f
    ensures Filtered(rows, f) == []
  {
    assert forall row :: !Satisfies(row, f) by {
      forall row ensures !Satisfies(row, f) {
        assert !Matches(row, (col, Blank));
      }
    }
  }

  // ---------------------------------------------------------------------
  // The projection on the case's columns

  /** `row[cols]`: the row cut down to `cols`. */
  function Restrict(row: Row, cols: seq<string>): (r: Row)
    ensures r.Keys == set c | c in cols
    ensures forall c :: c in cols ==> r[c] == Get(row, c)
  {
    map c | c in cols :: Get(row, c)
  }

  /** Every one of `cols` holds a value. */
  function Complete(cols: seq<string>): Row -> bool {
    (row: Row) => forall c :: c in cols ==> !Get(row, c).Blank?
  }

  /** The rows with a value in every one of `cols`, cut down to them, in order. */
  function DropNA(rows: seq<Row>, cols: seq<string>): (kept: seq<Row>)
    ensures |kept| <= |rows|
    ensures forall i :: 0 <= i < |kept| ==>
      kept[i].Keys == (set c | c in cols) && forall c :: c in cols ==> !kept[i][c].Blank?
    ensures forall i :: 0 <= i < |rows| && Complete(cols)(rows[i]) ==> Restrict(rows[i], cols) in kept
    ensures forall y :: y in kept ==> exists x :: x in rows && Complete(cols)(x) && y == Restrict(x, cols)
  {
    if |rows| == 0 then []
    else
      var rest := DropNA(rows[1..], cols);
      assert forall i :: 1 <= i < |rows| ==> rows[i] == rows[1..][i - 1];
      assert forall x :: x in rows[1..] ==> x in rows;
      (if Complete(cols)(rows[0]) then [Restrict(rows[0], cols)] else []) + rest
  }

  /**
   * The projection keeps sheet order: the rows kept from a split sheet are
   * those kept from its first part followed by those kept from its second.
   */
  lemma {:induction false} DropNAAppend(a: seq<Row>, b: seq<Row>, cols: seq<string>)
    ensures DropNA(a + b, cols) == DropNA(a, cols) + DropNA(b, cols)
    decreases |a|
  {
    if |a| > 0 {
      assert (a + b)[1..] == a[1..] + b;
      DropNAAppend(a[1..], b, cols);
    } else {
      assert a + b == b;
    }
  }

  /**
   * `df[cols].dropna()`: a column the sheet lacks raises; otherwise the
   * complete rows, cut down to `cols`.
   */
  function Project(df: Frame, cols: seq<string>): (r: Outcome<Frame>)
    ensures r.Done? || r == Failed(Uncaught)
    ensures r.Failed? <==> exists c :: c in cols && c !in df.columns
    ensures r.Done? ==> r.out == Frame(cols, DropNA(df.rows, cols))
  {
    if exists c :: c in cols && c !in df.columns then Failed(Uncaught)
    else Done(Frame(cols, DropNA(df.rows, cols)))
  }

  // ---------------------------------------------------------------------
  // From the table to interpolation points

  /** `float(cell)` for the cells the projection keeps. */
  function AsReal(c: Cell): real {
    if c.Num? then c.x else 0.0
  }

  /** Every one of `cols` holds a number. */
  predicate Numbers(row: Row, cols: seq<string>) {
    forall c :: c in cols ==> Get(row, c).Num?
  }

  /** One row as a point of argument space and its value. */
  function PointOf(row: Row, argCols: seq<string>, valueCol: string): (p: Point)
    ensures |p.args| == |argCols|
    ensures forall n :: 0 <= n < |argCols| ==> Num(p.args[n]) == Get(row, argCols[n]) || !Get(row, argCols[n]).Num?
    ensures Get(row, valueCol).Num? ==> Num(p.value) == Get(row, valueCol)
  {
    Point(seq(|argCols|, n requires 0 <= n < |argCols| => AsReal(Get(row, argCols[n]))), AsReal(Get(row, valueCol)))
  }

  /**
   * `df[arg_cols].to_numpy(dtype=float)` and `df[value_col]`: a text cell
   * does not convert and raises; otherwise one point per row, in order.
   */
  function ToPoints(rows: seq<Row>, argCols: seq<string>, valueCol: string): (r: Outcome<seq<Point>>)
    ensures r.Done? || r == Failed(Uncaught)
    ensures r.Failed? <==> exists i :: 0 <= i < |rows| && !Numbers(rows[i], argCols + [valueCol])
    ensures r.Done? ==> |r.out| == |rows| && Shaped(r.out, |argCols|)
    ensures r.Done? ==> forall i :: 0 <= i < |rows| ==>
      Num(r.out[i].value) == Get(rows[i], valueCol) &&
      forall n :: 0 <= n < |argCols| ==> Num(r.out[i].args[n]) == Get(rows[i], argCols[n])
  {
    if exists i :: 0 <= i < |rows| && !Numbers(rows[i], argCols + [valueCol]) then Failed(Uncaught)
    else
      var points := seq(|rows|, i requires 0 <= i < |rows| => PointOf(rows[i], argCols, valueCol));
      assert forall i :: 0 <= i < |rows| ==> Numbers(rows[i], argCols + [valueCol]);
      Done(points)
  }

  /** Coordinate `a` of every point: `df[arg_cols[a]]`. */
  function Axis(points: seq<Point>, a: nat): (col: seq<real>)
    requires forall i :: 0 <= i < |points| ==> a < |points[i].args|
    ensures |col| == |points|
    ensures forall i :: 0 <= i < |points| ==> col[i] == points[i].args[a]
  {
    seq(|points|, i requires 0 <= i < |points| => points[i].args[a])
  }

  // ---------------------------------------------------------------------
  // Query points

  /**
   * `_full_target_vals`: per argument column, the surface coordinate
   * when the column is one of the two plotted, else the user's value for
   * it, else the column's median.
   */
  function TargetVals(argCols: seq<string>, primary: map<string, real>, argValues: Option<map<string, real>>,
                      median: string -> real): (vals: seq<real>)
    ensures |vals| == |argCols|
    ensures forall n :: 0 <= n < |argCols| && argCols[n] in primary ==> vals[n] == primary[argCols[n]]
    ensures forall n :: 0 <= n < |argCols| && argCols[n] !in primary && argValues.Some? && argCols[n] in argValues.value ==>
      vals[n] == argValues.value[argCols[n]]
    ensures forall n :: 0 <= n < |argCols| && argCols[n] !in primary && (argValues.None? || argCols[n] !in argValues.value) ==>
      vals[n] == median(argCols[n])
  {
    seq(|argCols|, n requires 0 <= n < |argCols| =>
      if argCols[n] in primary then primary[argCols[n]]
      else if argValues.Some? && argCols[n] in argValues.value then argValues.value[argCols[n]]
      else median(argCols[n]))
  }

  /** `_full_target_vals` as the program runs it: appending one value per column. */
  method FullTargetVals(argCols: seq<string>, primary: map<string, real>, argValues: Option<map<string, real>>,
                        median: string -> real) returns (vals: seq<real>)
    ensures vals == TargetVals(argCols, primary, argValues, median)
  {
    vals := [];
    for n := 0 to |argCols|
      invariant vals == TargetVals(argCols[..n], primary, argValues, median)
    {
      var name := argCols[n];
      if name in primary {
        vals := vals + [primary[name]];
      } else if argValues.Some? && name in argValues.value {
        vals := vals + [argValues.value[name]];
      } else {
        vals := vals + [median(name)];
      }
      assert argCols[..n + 1] == argCols[..n] + [name];
    }
    assert argCols[..|argCols|] == argCols;
  }

  /** The query at surface point (`x`, `y`): `{c0: x, c1: y}` filled out to every argument. */
  function SurfaceTarget(argCols: seq<string>, argValues: Option<map<string, real>>, median: string -> real,
                         x: real, y: real): (t: seq<real>)
    requires |argCols| >= 2
    ensures |t| == |argCols|
  {
    TargetVals(argCols, map[argCols[0] := x][argCols[1] := y], argValues, median)
  }

  /**
   * The surface moves the first two arguments only: with distinct column
   * names they take the surface coordinates, and every other argument
   * keeps the same value at every surface point.
   */
  lemma SurfaceOthersFixed(argCols: seq<string>, argValues: Option<map<string, real>>, median: string -> real,
                           x: real, y: real, x': real, y': real)
    requires |argCols| >= 2 && argCols[0] != argCols[1]
    ensures SurfaceTarget(argCols, argValues, median, x, y)[0] == x
    ensures SurfaceTarget(argCols, argValues, median, x, y)[1] == y
    ensures forall n :: 2 <= n < |argCols| && argCols[n] != argCols[0] && argCols[n] != argCols[1] ==>
      SurfaceTarget(argCols, argValues, median, x, y)[n] == SurfaceTarget(argCols, argValues, median, x', y')[n]
  {
    var t, t' := SurfaceTarget(argCols, argValues, median, x, y), SurfaceTarget(argCols, argValues, median, x', y');
    var p, p' := map[argCols[0] := x][argCols[1] := y], map[argCols[0] := x'][argCols[1] := y'];
    forall n | 2 <= n < |argCols| && argCols[n] != argCols[0] && argCols[n] != argCols[1] ensures t[n] == t'[n] {
      assert argCols[n] !in p && argCols[n] !in p';
    }
  }

  // ---------------------------------------------------------------------
  // Interpolated values

  /** Over a non-empty table every query of the right length has an interpolated value. */
  function ValueAt(points: seq<Point>, target: seq<real>, k: nat, law: real --> real): (v: real)
    requires Shaped(points, |target|) && PositiveLaw(law) && |points| > 0
    ensures Interpolate(points, |target|, target, k, law) == Done(v)
    ensures k > 0 ==> Min(Values(points)) <= v <= Max(Values(points))
  {
    WithinRangeIf(points, target, k, law);
    Interpolate(points, |target|, target, k, law).out
  }

  lemma WithinRangeIf(points: seq<Point>, target: seq<real>, k: nat, law: real --> real)
    requires Shaped(points, |target|) && PositiveLaw(law) && |points| > 0
    ensures Interpolate(points, |target|, target, k, law).Done?
    ensures k > 0 ==> Min(Values(points)) <= Interpolate(points, |target|, target, k, law).out <= Max(Values(points))
  {
    if k > 0 {
      InterpolateWithinRange(points, target, k, law);
    }
  }

  // ---------------------------------------------------------------------
  // Plotting grids

  /** Samples along the 1D plot. */
  const LINE_SAMPLES: nat := 200
  /** Samples along each axis of the 2D plot. */
  const SURFACE_SAMPLES: nat := 60

  /**
   * The 1D plot: 200 inputs evenly spaced over the column's range and the
   * interpolated value at each, within the range of the table's values.
   */
  method PlotLine(points: seq<Point>, k: nat, law: real --> real) returns (xs: seq<real>, ys: seq<real>)
    requires Shaped(points, 1) && PositiveLaw(law) && |points| > 0
    ensures xs == Linspace(Min(Axis(points, 0)), Max(Axis(points, 0)), LINE_SAMPLES)
    ensures forall n :: 0 <= n < |xs| ==> Min(Axis(points, 0)) <= xs[n] <= Max(Axis(points, 0))
    ensures |ys| == |xs|
    ensures forall n :: 0 <= n < |xs| ==> ys[n] == ValueAt(points, [xs[n]], k, law)
  {
    var col := Axis(points, 0);
    xs := Linspace(Min(col), Max(col), LINE_SAMPLES);
    LinspaceRange(Min(col), Max(col), LINE_SAMPLES);
    ys := [];
    for n := 0 to |xs|
      invariant |ys| == n
      invariant forall m :: 0 <= m < n ==> ys[m] == ValueAt(points, [xs[m]], k, law)
    {
      ys := ys + [ValueAt(points, [xs[n]], k, law)];
    }
  }

  /**
   * The 2D plot: a 60 by 60 mesh over the ranges of the first two
   * arguments, rows following the second and columns the first, each
   * cell the interpolated value at its surface query.
   */
  method PlotSurface(points: seq<Point>, argCols: seq<string>, argValues: Option<map<string, real>>,
                     median: string -> real, k: nat, law: real --> real)
    returns (xs: seq<real>, ys: seq<real>, z: array2<real>)
    requires |argCols| >= 2 && Shaped(points, |argCols|) && PositiveLaw(law) && |points| > 0
    ensures xs == Linspace(Min(Axis(points, 0)), Max(Axis(points, 0)), SURFACE_SAMPLES)
    ensures ys == Linspace(Min(Axis(points, 1)), Max(Axis(points, 1)), SURFACE_SAMPLES)
    ensures fresh(z) && z.Length0 == |ys| && z.Length1 == |xs|
    ensures forall i, j :: 0 <= i < |ys| && 0 <= j < |xs| ==>
      z[i, j] == ValueAt(points, SurfaceTarget(argCols, argValues, median, xs[j], ys[i]), k, law)
  {
    xs := Linspace(Min(Axis(points, 0)), Max(Axis(points, 0)), SURFACE_SAMPLES);
    ys := Linspace(Min(Axis(points, 1)), Max(Axis(points, 1)), SURFACE_SAMPLES);
    z := new real[|ys|, |xs|];
    var at := (t: seq<real>) requires |t| == |argCols| && Shaped(points, |t|) && PositiveLaw(law) && |points| > 0 =>
      ValueAt(points, t, k, law);
    for i := 0 to |ys|
      invariant forall a, b :: 0 <= a < i && 0 <= b < |xs| ==>
        z[a, b] == ValueAt(points, SurfaceTarget(argCols, argValues, median, xs[b], ys[a]), k, law)
    {
      FillSurfaceRow(z, i, xs, ys, at, argCols, argValues, median);
    }
  }

  /** The inner loop of the 2D plot: row `i` of the mesh gets `at` of each surface query; the other rows are unchanged. */
  method FillSurfaceRow(z: array2<real>, i: nat, xs: seq<real>, ys: seq<real>, at: seq<real> --> real,
                        argCols: seq<string>, argValues: Option<map<string, real>>, median: string -> real)
    requires |argCols| >= 2 && z.Length0 == |ys| && z.Length1 == |xs| && i < |ys|
    requires forall b :: 0 <= b < |xs| ==> at.requires(SurfaceTarget(argCols, argValues, median, xs[b], ys[i]))
    modifies z
    ensures forall b :: 0 <= b < |xs| ==> z[i, b] == at(SurfaceTarget(argCols, argValues, median, xs[b], ys[i]))
    ensures forall a, b :: 0 <= a < z.Length0 && a != i && 0 <= b < z.Length1 ==> z[a, b] == old(z[a, b])
  {
    for j := 0 to |xs|
      invariant forall b :: 0 <= b < j ==> z[i, b] == at(SurfaceTarget(argCols, argValues, median, xs[b], ys[i]))
      invariant forall a, b :: 0 <= a < z.Length0 && a != i && 0 <= b < z.Length1 ==> z[a, b] == old(z[a, b])
    {
      var primary := map[argCols[0] := xs[j]][argCols[1] := ys[i]];
      var target := FullTargetVals(argCols, primary, argValues, median);
      z[i, j] := at(target);
    }
  }

  // ---------------------------------------------------------------------
  // The details payload

  /** `current_point`: absent without user values; otherwise the user's values of the case's arguments. */
  function CurrentPoint(argCols: seq<string>, argValues: Option<map<string, real>>): (r: Option<map<string, real>>)
    ensures r.Some? <==> argValues.Some? && |argValues.value| > 0
    ensures r.Some? ==> r.value.Keys == (set c | c in argCols) * argValues.value.Keys
    ensures r.Some? ==> forall c :: c in r.value ==> r.value[c] == argValues.value[c]
  {
    if argValues.None? || |argValues.value| == 0 then None
    else Some(map c | c in argCols && c in argValues.value :: argValues.value[c])
  }

  /** A case's entry in the case registry. */
  datatype CaseConfig = CaseConfig(
    sheetKey: string,
    argCols: seq<string>,
    valueCol: Option<string>,
    rowFilter: Option<Filter>,
    description: Option<string>,
    excelRange: Option<string>)

  /** The value column, `"C"` unless the case names another. */
  function ValueCol(cfg: CaseConfig): string {
    cfg.valueCol.GetOr("C")
  }

  /** The columns the details view keeps: the arguments, then the value. */
  function Needed(cfg: CaseConfig): seq<string> {
    cfg.argCols + [ValueCol(cfg)]
  }

  /**
   * The table behind the view: the case's sheet, filtered, projected on
   * its arguments and value, without incomplete rows; a missing sheet or
   * column raises.
   */
  function RawData(cfg: CaseConfig, data: map<string, Frame>): (r: Outcome<Frame>)
    ensures r.Done? || r == Failed(Uncaught)
    ensures r.Failed? <==> (cfg.sheetKey !in data ||
                            (cfg.rowFilter.Some? && !Known(cfg.rowFilter.value, data[cfg.sheetKey].columns)) ||
                            exists c :: c in Needed(cfg) && c !in data[cfg.sheetKey].columns)
    ensures r.Done? ==> r.out.columns == Needed(cfg)
    ensures r.Done? ==> forall i :: 0 <= i < |r.out.rows| ==> forall c :: c in Needed(cfg) ==> !Get(r.out.rows[i], c).Blank?
    ensures r.Done? ==> r.out.rows == DropNA(RowFilter(data[cfg.sheetKey], cfg.rowFilter).out.rows, Needed(cfg))
    ensures r.Done? ==> forall y :: y in r.out.rows ==>
      exists x :: x in data[cfg.sheetKey].rows && Selected(cfg, x) && y == Restrict(x, Needed(cfg))
    ensures r.Done? ==> forall x :: x in data[cfg.sheetKey].rows && Selected(cfg, x) ==>
      Restrict(x, Needed(cfg)) in r.out.rows
  {
    if cfg.sheetKey !in data then Failed(Uncaught)
    else
      match RowFilter(data[cfg.sheetKey], cfg.rowFilter)
      case Done(df) => Project(df, Needed(cfg))
      case _ => Failed(Uncaught)
  }

  /** A sheet row the view keeps: it passes the row filter and holds a value in every needed column. */
  predicate Selected(cfg: CaseConfig, x: Row) {
    (cfg.rowFilter.Some? ==> Satisfies(x, cfg.rowFilter.value)) && Complete(Needed(cfg))(x)
  }

  /** A plotting grid; `NaNGrid` stands for the grid of an empty table, whose every sample and value is NaN. */
  datatype PlotGrid =
    | LineGrid(xCaption: string, xs: seq<real>, ys: seq<real>)
    | SurfaceGrid(xCaption: string, yCaption: string, xs: seq<real>, ys: seq<real>, z: array2<real>)
    | NaNGrid

  /** The payload `get_case_details` returns. */
  datatype CaseDetails = CaseDetails(
    description: Option<string>,
    excelRange: Option<string>,
    argCols: seq<string>,
    valueCol: string,
    rawData: Frame,
    plotGrid: PlotGrid,
    currentPoint: Option<map<string, real>>)

  /**
   * `get_case_details`: the payload of a case, or the exception the
   * program lets escape (an unknown case, sheet or column, no argument
   * column, a text cell). The column medians of the table are an input.
   */
  method GetCaseDetails(configs: map<string, CaseConfig>, caseKey: string, data: map<string, Frame>,
                        argValues: Option<map<string, real>>, k: nat, law: real --> real, median: string -> real)
    returns (r: Outcome<CaseDetails>)
    requires PositiveLaw(law)
    ensures r.Done? || r == Failed(Uncaught)
    ensures r.Failed? <==>
      caseKey !in configs || RawData(configs[caseKey], data).Failed? || |configs[caseKey].argCols| == 0 ||
      ToPoints(RawData(configs[caseKey], data).out.rows, configs[caseKey].argCols, ValueCol(configs[caseKey])).Failed?
    ensures r.Done? ==>
      var cfg := configs[caseKey];
      r.out.rawData == RawData(cfg, data).out &&
      r.out.argCols == cfg.argCols && r.out.valueCol == ValueCol(cfg) &&
      r.out.description == cfg.description && r.out.excelRange == cfg.excelRange &&
      r.out.currentPoint == CurrentPoint(cfg.argCols, argValues) &&
      (r.out.plotGrid.NaNGrid? <==> |r.out.rawData.rows| == 0) &&
      (r.out.plotGrid.LineGrid? <==> |cfg.argCols| == 1 && |r.out.rawData.rows| > 0) &&
      (r.out.plotGrid.SurfaceGrid? <==> |cfg.argCols| >= 2 && |r.out.rawData.rows| > 0)
    ensures r.Done? && r.out.plotGrid.LineGrid? ==>
      var cfg := configs[caseKey];
      var pts := ToPoints(r.out.rawData.rows, cfg.argCols, ValueCol(cfg)).out;
      var g := r.out.plotGrid;
      g.xCaption == cfg.argCols[0] &&
      g.xs == Linspace(Min(Axis(pts, 0)), Max(Axis(pts, 0)), LINE_SAMPLES) && |g.ys| == |g.xs| &&
      forall n :: 0 <= n < |g.xs| ==> g.ys[n] == ValueAt(pts, [g.xs[n]], k, law)
    ensures r.Done? && r.out.plotGrid.SurfaceGrid? ==>
      var cfg := configs[caseKey];
      var pts := ToPoints(r.out.rawData.rows, cfg.argCols, ValueCol(cfg)).out;
      var g := r.out.plotGrid;
      g.xCaption == cfg.argCols[0] && g.yCaption == cfg.argCols[1] &&
      g.xs == Linspace(Min(Axis(pts, 0)), Max(Axis(pts, 0)), SURFACE_SAMPLES) &&
      g.ys == Linspace(Min(Axis(pts, 1)), Max(Axis(pts, 1)), SURFACE_SAMPLES) &&
      g.z.Length0 == |g.ys| && g.z.Length1 == |g.xs| &&
      forall i, j :: 0 <= i < |g.ys| && 0 <= j < |g.xs| ==>
        g.z[i, j] == ValueAt(pts, SurfaceTarget(cfg.argCols, argValues, median, g.xs[j], g.ys[i]), k, law)
  {
    if caseKey !in configs {
      return Failed(Uncaught);
    }
    var cfg := configs[caseKey];
    var raw := RawData(cfg, data);
    if raw.Failed? {
      return Failed(Uncaught);
    }
    var df := raw.out;
    if |cfg.argCols| == 0 {
      // `arg_cols[0]` of an empty list
      return Failed(Uncaught);
    }
    var grid: PlotGrid;
    if |df.rows| == 0 {
      grid := NaNGrid;
    } else {
      var pts := ToPoints(df.rows, cfg.argCols, ValueCol(cfg));
      if pts.Failed? {
        return Failed(Uncaught);
      }
      var points := pts.out;
      if |cfg.argCols| == 1 {
        var xs, ys := PlotLine(points, k, law);
        grid := LineGrid(cfg.argCols[0], xs, ys);
      } else {
        var xs, ys, z := PlotSurface(points, cfg.argCols, argValues, median, k, law);
        grid := SurfaceGrid(cfg.argCols[0], cfg.argCols[1], xs, ys, z);
      }
    }
    var details := CaseDetails(cfg.description, cfg.excelRange, cfg.argCols, ValueCol(cfg), df, grid,
                               CurrentPoint(cfg.argCols, argValues));
    return Done(details);
  }
}
