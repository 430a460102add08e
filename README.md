# Duct fitting pressure loss: a verified model of the calculator core

The DPL calculator computes the pressure loss of air-duct fittings. For a
fitting (a "case" such as A12A1, an obstructed round exit) the user enters
dimensions and flow rates. The case routine then:

- derives areas, velocities (flow over area, in ft/min) and the
  dimensionless ratios that key the case's tables;
- looks the loss coefficient C up in one or more spreadsheet tables, each
  key rounded down, rounded up or taken to the nearest tabulated value;
- composes C with correction coefficients (additively, as C + C1 / n^2,
  switching at t/D = 0.05, or as a product of factors);
- reports the velocity, the velocity pressure (V / 4005)^2, the loss
  coefficient and the pressure loss C times the velocity pressure.

Alongside the routines sit two interpolators over the same tables:

- an N-dimensional inverse-distance interpolator;
- a registry of precomputed 1D and 2D interpolators.

The program also has a details view that filters a case's sheet and
samples a plotting grid, and the unit conversion and output grouping of
the user interface.

This project models that core in Dafny and proves what it promises:

- every routine's outcome (missing input, error message, exception, result)
  for every input;
- the lookup rules as floor, ceiling and nearest properties;
- the two ways several lookups can be combined (narrowing within the
  previous pick's rows, or resolving each over the whole table) and when
  they agree;
- that the interpolators return convex combinations of tabulated values
  and the tabulated value itself on a data point;
- that unit conversion round-trips and each displayed output lands in
  exactly one section.

Modules:

- `Wrappers`: `Option`.
- `Pipeline`: the derived arithmetic (areas, velocity, velocity pressure,
  loss), the result records of standard and two-path fittings, and
  `Outcome` (all outputs `None`, a failure, a result, a result with a
  warning, or a non-finite value).
- `Lookup`: the table lookups shared by every case.
- `Text`: the string operations the program uses (lower case, `in`,
  `replace`, `strip`, `str` of an integer).
- `Numeric`: sums, dot products, normalisation and `linspace` over exact
  reals.
- `Idw`: `idw_interpolate_nd`.
- `Manager`: the weight helpers, the 1D and 2D interpolators, their grids
  and the case registry.
- `Details`: `get_case_details`.
- `Units` and `Sections`: `UnitConverter` and the output grouping of the
  display.
- `Corrections` and `Obstructed`: the screen and perforated plate
  corrections and the obstructed-exit composition shared by A12A1 and
  A12A2.
- One module per modelled fitting: A7F, A7H1, A8A, A8G, A9B2, A10A1,
  A10B, A10F, A10H, A10I1, A11A, A11Q, A11T, A11V, A11W, A12A1, A12A2,
  A12D1, A12G, A13C, A13D, A13E1, A14B1, A15D, A15H1.

Conventions:

- A routine's tables are parameters, projected on the columns the
  routine reads. A parameter stands for a sheet that is present; an empty
  parameter is a present sheet with no rows (see "## Left out" for a
  missing one).
- Where the routine itself drops incomplete rows (`df[[...]].dropna()`),
  the parameter already holds only complete rows, or a blank cell is
  `None` and the modelled filter drops it (A10B).
- A10F, A10H, A10I1, A11A, A11Q, A11T, A11V, A11W and A13D, and the base
  table of A12G, read their tables without `dropna`. Their parameters hold
  numbers in every cell, so the model assumes those sheets have no blank
  cells (see "## Left out").
- `Failed(Raised)` is an exception the routine catches and reports.
- `Failed(Uncaught)` is one that escapes a routine without a handler.
- `Failed(NoMatch)`, `Failed(InvalidGeometry)` and similar are the
  routine's own error messages.

## Model

| member | source | states |
|---|---|---|
| Pipeline.VelocityPressure | src/duct_functions/A12A1_outputs.py:127 | (V/4005)^2 is never negative and vanishes for still air |
| Pipeline.VelocityPressureScale | src/duct_functions/A12A1_outputs.py:127 | VP times 4005^2 is V^2 |
| Pipeline.VelocityPressureEven | src/duct_functions/A12A1_outputs.py:127 | reversing the velocity leaves the pressure unchanged |
| Pipeline.VelocityPressureMonotone | src/duct_functions/A12A1_outputs.py:127 | a faster non-negative velocity never has a lower velocity pressure |
| Pipeline.VelocityPressureOneInch | src/duct_functions/A12A1_outputs.py:127 | the velocity pressure is one inch of water exactly at 4005 ft/min, in either direction |
| Pipeline.CircleArea | src/duct_functions/A12A1_outputs.py:46 | pi (D/2)^2 is never negative and is zero for a zero diameter |
| Pipeline.CircleAreaSquareFeet | src/duct_functions/A12A1_outputs.py:46-47 | a round duct of d inches has pi d^2 / 576 square feet, and doubling the diameter quadruples the area |
| Pipeline.RectArea | src/duct_functions/A15D_outputs.py:41 | two non-zero sides give a non-zero area |
| Pipeline.HydraulicDiameter | src/duct_functions/A7F_outputs.py:37 | the hydraulic diameter times H + W is 2 H W |
| Pipeline.Velocity | src/duct_functions/A12A1_outputs.py:47 | the velocity times the area in square inches is 144 Q |
| Pipeline.StandardOf | src/duct_functions/A12A1_outputs.py:127-135 | the four outputs carry the given velocity and coefficient, the velocity pressure of that velocity and the coefficient times it as the loss |
| Pipeline.ConsistentLoss | src/duct_functions/A12A1_outputs.py:127-128 | a consistent result with a non-negative coefficient has a non-negative loss, and still air loses nothing |
| Pipeline.BranchMainOf | src/duct_functions/A11T_outputs.py:126-139 | the branch and main outputs carry the given velocities and coefficients, each velocity pressure belongs to its velocity, and the main loss multiplies the chosen velocity pressure |
| Pipeline.FalsyIff | src/duct_functions/A10F_outputs.py:27 | `not all(...)` holds exactly when some input is absent or zero |
| Lookup.Floor | src/duct_functions/A14B1_outputs.py:50 | the largest tabulated value not above the target, or the smallest value when every value is above it |
| Lookup.Ceil | src/duct_functions/A12A1_outputs.py:64 | the smallest tabulated value not below the target, or the largest value when every value is below it |
| Lookup.FloorCeilBracket | src/duct_functions/A12A1_outputs.py:61-64 | with tabulated values on both sides of the target, the floor and the ceiling enclose it |
| Lookup.ExactHit | src/duct_functions/A12A1_outputs.py:61-64 | a tabulated target is returned unchanged by both rounding rules |
| Lookup.PoliciesMonotone | src/duct_functions/A12A1_outputs.py:61-64 | a larger target never gives a smaller floor or ceiling |
| Lookup.Nearest | src/duct_functions/A15D_outputs.py:54 | a tabulated value at the least distance from the target, the first met on a tie |
| Lookup.NearestRows | src/duct_functions/A7H1_outputs.py:92 | non-empty exactly for a non-empty table, and exactly the rows at the least distance from the target, ties on both sides kept |
| Lookup.Unique | src/duct_functions/A14B1_outputs.py:47-48 | exactly the values occurring in the column, non-empty for a non-empty column |
| Lookup.NearestOfUnique | src/duct_functions/A15D_outputs.py:53-54 | the nearest pick over the unique values is the nearest pick over the raw column |
| Lookup.SameValuesSamePicks | src/duct_functions/A15D_outputs.py:57-58 | floor and ceiling depend only on which values occur, not on their order or repetition |
| Lookup.FloorCeilOfUnique | src/duct_functions/A14B1_outputs.py:47-51 | floor and ceiling over the unique values equal those over the raw column |
| Lookup.FirstLeast | src/duct_functions/A9B2_outputs.py:49-54 | none exactly when no row passes the mask; otherwise the row a stable ascending sort puts first among those passing |
| Lookup.LastGreatest | src/duct_functions/A9B2_outputs.py:49-54 | none exactly when no row passes the mask; otherwise the row a stable ascending sort puts last among those passing |
| Lookup.First | src/duct_functions/A10H_outputs.py:74 | none exactly when no row passes the mask; otherwise the first passing row in table order |
| Lookup.Last | src/duct_functions/A10F_outputs.py:70 | none exactly when no row passes the mask; otherwise the last passing row in table order |
| Lookup.FirstOrLast | src/duct_functions/A10F_outputs.py:74 | the first passing row, or the last row of the table when none passes |
| Lookup.LastOrFirst | src/duct_functions/A10F_outputs.py:70 | the last passing row, or the first row of the table when none passes |
| Lookup.SortedFirstOrLast | src/duct_functions/A10A1_outputs.py:52-59 | after a stable sort, the first passing row, or the last row of the sorted table when none passes |
| Lookup.FirstLeastByKeys | src/duct_functions/A10A1_outputs.py:55 | the first sorted row is least in the first sort column and, among equals, in the second |
| Lookup.LastGreatestByKeys | src/duct_functions/A10A1_outputs.py:55-59 | the last sorted row is greatest in the first sort column and, among equals, in the second |
| Lookup.Column | src/duct_functions/A14B1_outputs.py:47 | the column's value of each row, one per row, in order |
| Lookup.ColumnBounds | src/duct_functions/A14B1_outputs.py:50 | every value of a column lies between its least and greatest |
| Lookup.Where | src/duct_functions/A14B1_outputs.py:55-58 | the rows passing the mask in table order: each kept row passes, every passing row is kept, and empty exactly when none passes |
| Lookup.WhereWhere | src/duct_functions/A14B1_outputs.py:55-58 | masking twice equals masking by the conjunction |
| Lookup.Matching | src/duct_functions/A14B1_outputs.py:55-58 | exactly the rows carrying the value in the column |
| Lookup.MatchingAppend | src/duct_functions/A13C_outputs.py:61 | selecting rows by a value keeps table order across any split of the table |
| Lookup.FirstNearestRow | src/duct_functions/A13C_outputs.py:61-70 | when the nearest of a selection's unique values is carried first by row i, every selected row before i lies strictly farther from the target |
| Lookup.MatchingValue | src/duct_functions/A9B2_outputs.py:57-58 | a value taken from the column selects at least one row |
| Lookup.NearestRow | src/duct_functions/A11Q_outputs.py:106-107 | a row at the least distance from the target, the first one in table order among ties |
| Lookup.FirstAtFloor | src/duct_functions/A15H1_outputs.py:72-75 | the first row in table order whose value is the floor of the target over the column |
| Lookup.FloorRow | src/duct_functions/A9B2_outputs.py:49-54 | the sort-and-pick row holds the floor of the target over the column |
| Lookup.CeilRow | src/duct_functions/A8A_outputs.py:57-61 | the sort-and-pick row holds the ceiling of the target over the column |
| Lookup.FloorEntry | src/duct_functions/A10B_outputs.py:80 | the entry the lookup lands on holds the floor of the target over the key column |
| Lookup.CeilEntry | src/duct_functions/A10B_outputs.py:72 | the entry the lookup lands on holds the ceiling of the target over the key column |
| Lookup.CeilC | src/duct_functions/A10B_outputs.py:72 | the coefficient of a row holding the ceiling of the target |
| Lookup.Pick | src/duct_functions/A15D_outputs.py:53-58 | a tabulated value: the floor, the ceiling or a nearest value as the policy says |
| Lookup.Narrow | src/duct_functions/A9B2_outputs.py:49-63 | resolving parameters one after another, each within the rows the previous picks kept, leaves some rows of a non-empty table |
| Lookup.NarrowPicks | src/duct_functions/A9B2_outputs.py:57-58 | every row left by narrowing carries the first parameter's pick over the whole table |
| Lookup.Independent | src/duct_functions/A14B1_outputs.py:47-58 | exactly the rows carrying every parameter's pick over the whole table, and empty exactly when no row carries them all |
| Lookup.PickOfSubcolumn | src/duct_functions/A9B2_outputs.py:57-63 | a floor or ceiling over the whole column that lies in a sub-column is also that sub-column's pick |
| Lookup.TwoFieldModesAgree | src/duct_functions/A14B1_outputs.py:47-58 | for floor and ceiling rules, when some row carries both independent picks, narrowing selects exactly the same rows |
| Lookup.IndependentCanBeEmpty | src/duct_functions/A14B1_outputs.py:55-61 | an example table where the independent picks match no row while narrowing finds one |
| Lookup.NearestModesDiffer | src/duct_functions/A15D_outputs.py:53-60 | an example table where, with a nearest rule, narrowing and independent resolution select different rows |
| Idw.InverseSquare | src/interpolation.py:66 | the default exponent 2.0 gives each point the weight 1/s at squared distance s, positive at every positive distance |
| Idw.Values | src/interpolation.py:40 | the value column, point by point |
| Idw.Distances | src/interpolation.py:45-46 | one non-negative squared distance per point, zero exactly at a point equal to the target |
| Idw.ClosestPosition | src/interpolation.py:59 | a candidate no farther than any other, the earliest among ties |
| Idw.Select | src/interpolation.py:59 | k candidates, each no farther than any candidate left out |
| Idw.TakeClosest | src/interpolation.py:59 | the closest candidate in front of a closest selection from the others is a closest selection |
| Idw.SelectDistinct | src/interpolation.py:59 | a selection never names a point twice |
| Idw.Nearest | src/interpolation.py:58-59 | k distinct point indices, each no farther than any point left out |
| Idw.Pick | src/interpolation.py:60-61 | the entries at the chosen indices, in that order |
| Idw.Weights | src/interpolation.py:66 | one positive weight per selected distance, each the weight law applied to that distance |
| Idw.SelectedWeights | src/interpolation.py:60-66 | away from the data, one weight per selected point, each the weight law at that point's positive distance, with a positive total |
| Idw.Neighbours | src/interpolation.py:58 | min(k, n): at most both, and one of them |
| Idw.Selected | src/interpolation.py:57-59 | min(k, n) distinct points, each no farther from the target than any point left out |
| Idw.NormalisedWeights | src/interpolation.py:66-67 | one weight per selected point, proportional to the weight law at its distance: each times the total of the raw weights is its raw weight |
| Idw.Interpolate | src/interpolation.py:6-69 | an uncaught error exactly when the argument count and target length differ; not a number exactly for an empty table; the value of the first point at the target whenever one is; otherwise the normalised law weights of the selected points dotted with their values |
| Idw.SelectedDistancesPositive | src/interpolation.py:63-64 | with no point at the target every selected distance is positive, so the 1e-12 guard never applies |
| Idw.WeightsNormalised | src/interpolation.py:66-67 | with some neighbour, the weights used are positive and add up to one |
| Idw.WeightedBetween | src/interpolation.py:66-69 | the weighted mean lies between the least and greatest selected value |
| Idw.InterpolateWithinRange | src/interpolation.py:48-69 | with k at least 1, a non-empty table interpolates to a value within the range of its values |
| Idw.HitIsTabulated | src/interpolation.py:48-51 | a point at the target makes the answer a tabulated value |
| Idw.PickWithin | src/interpolation.py:60-61 | picked values lie within the range of all values |
| Idw.InterpolateConstant | src/interpolation.py:48-69 | a table whose values are all c interpolates to c everywhere |
| Idw.NoNeighbours | src/interpolation.py:58-69 | k = 0 away from every point weighs nothing, and the empty dot product gives 0 |
| Idw.AllPointsTakePart | src/interpolation.py:58-59 | with k at least the table size every point takes part |
| Manager.Indicator | src/interpolation_manager.py:21-25 | 1 at every data point sitting at the query and 0 elsewhere |
| Manager.RawWeights | src/interpolation_manager.py:27 | away from the data, each point's weight is the weight law at its positive distance, with a positive total for non-empty data |
| Manager.AnyZero | src/interpolation_manager.py:21-22 | true exactly when some distance is zero |
| Manager.HelperWeights | src/interpolation_manager.py:15-59 | the one-hot weights, not renormalised, when the query sits on data; otherwise the raw weights spread over all the data |
| Manager.Spread | src/interpolation_manager.py:28-32 | non-negative weights adding up to one and proportional to the raw weights, for non-empty data |
| Manager.UniformOnlyWhenEmpty | src/interpolation_manager.py:29-31 | the uniform fallback is taken only for empty data, where it is empty |
| Manager.IndicatorDot | src/interpolation_manager.py:76 | the one-hot weights against the values give the total of the values at the query |
| Manager.EstimateAtHits | src/interpolation_manager.py:20-25 | on data the estimate is the total of the values there, so duplicated points add up |
| Manager.HitTotalSingle | src/interpolation_manager.py:20-25 | a single point at the query contributes its value alone |
| Manager.EstimateBetween | src/interpolation_manager.py:27-32 | away from the data the estimate lies between the least and greatest value |
| Manager.Line | src/interpolation_manager.py:70-71 | the 1D data as points with one argument, values in order |
| Manager.Plane | src/interpolation_manager.py:94-96 | the 2D data as points with two arguments, values in order |
| Manager.Interpolator1D.Grid | src/interpolation_manager.py:78-85 | no data raises; otherwise the queries are `np.linspace` from the least to the greatest input, the requested number of them, each within the input range and each paired with the interpolated value |
| Numeric.LinspaceEvenlySpaced | src/interpolation_manager.py:83 | from two samples on, neighbouring `linspace` samples are the same distance (b - a)/(n - 1) apart |
| Manager.Eval1DAtSample | src/interpolation_manager.py:74-76 | at a tabulated input occurring once the 1D interpolator returns its output |
| Manager.Eval1DBetween | src/interpolation_manager.py:74-76 | off the tabulated inputs the 1D interpolator stays within the range of the outputs |
| Manager.Eval2DAtSample | src/interpolation_manager.py:99-101 | at a tabulated input pair occurring once the 2D interpolator returns its output |
| Manager.Eval2DBetween | src/interpolation_manager.py:99-101 | off the tabulated pairs the 2D interpolator stays within the range of the outputs |
| Manager.Grid2D | src/interpolation_manager.py:103-122 | no data raises; otherwise a fresh num_y by num_x surface over the two input ranges whose cell (i, j) is the interpolated value at (x_j, y_i) |
| Manager.FillRow | src/interpolation_manager.py:120-121 | row i of the mesh receives the value at each column's point and every other row is unchanged |
| Manager.DropIncomplete | src/interpolation_manager.py:154 | exactly the rows with all three cells present |
| Manager.A13CInterpolator | src/interpolation_manager.py:157-166 | the interpolator over the complete rows' angle, ratio and C, with the default exponent |
| Manager.BuildA13C | src/interpolation_manager.py:147-181 | an unreadable table or one with no complete row fails; otherwise the interpolator of the complete rows, those rows, the axis captions and a 60 by 60 surface |
| Manager.Registry.constructor | src/interpolation_manager.py:128 | the registry starts empty |
| Manager.Registry.Get | src/interpolation_manager.py:131-142 | nothing exactly for a case never preloaded, otherwise its bundle |
| Manager.Registry.Preload | src/interpolation_manager.py:186-211 | the new registry holds A13C exactly when its builder succeeds, with the interpolator of the complete rows, and no other case |
| Details.Filtered | src/details.py:11-14 | the rows matching every filter entry, in sheet order: each kept row is a sheet row satisfying the filter and every satisfying row is kept |
| Details.RowFilter | src/details.py:8-14 | no filter or an empty one leaves the sheet unchanged; a filter naming a missing column raises; otherwise the same columns and exactly the rows matching every entry |
| Details.ApplyRowFilter | src/details.py:8-14 | the entry-by-entry loop computes the same outcome as the whole-filter definition |
| Details.KnownStep | src/details.py:12-13 | the loop meets an unknown column exactly when the filter names one |
| Details.FilterStep | src/details.py:13 | narrowing the kept rows by the next entry equals filtering by the one-longer prefix |
| Details.FilterOrderIrrelevant | src/details.py:12-13 | two filters with the same entries keep the same rows, whatever their order |
| Details.FilterIdempotent | src/details.py:8-14 | filtering the kept rows again changes nothing |
| Details.FilterCompose | src/details.py:8-14 | filtering by one filter and then another is filtering by both |
| Details.FilterOnBlank | src/details.py:13 | an entry asking for an empty cell keeps no row, because NaN equals nothing |
| Details.Restrict | src/details.py:43-44 | the row cut down to exactly the needed columns, with their cells |
| Details.DropNA | src/details.py:44 | each kept row is a complete sheet row cut down to the needed columns, with no empty cell, and every complete row is kept |
| Details.DropNAAppend | src/details.py:44 | the projection keeps sheet order: a split sheet gives the first part's rows followed by the second's |
| Details.Project | src/details.py:43-44 | a needed column the sheet lacks raises; otherwise the needed columns and the complete rows cut down to them |
| Details.PointOf | src/interpolation.py:39-40 | one coordinate per argument column, each equal to its numeric cell, and the value equal to the numeric value cell |
| Details.ToPoints | src/interpolation.py:39-40 | a non-numeric argument or value cell raises; otherwise one point per row with that row's arguments and value |
| Details.Axis | src/details.py:72 | coordinate `a` of every point, one per point |
| Details.TargetVals | src/details.py:57-67 | per argument column: the surface coordinate if plotted, else the user's value, else the column median |
| Details.FullTargetVals | src/details.py:57-67 | the appending loop builds exactly that list |
| Details.SurfaceOthersFixed | src/details.py:86-98 | the surface query carries x and y in the first two positions and the same value in every other position at every surface point |
| Details.ValueAt | src/details.py:75-77 | over a non-empty table every query has an interpolated value, within the range of the table's values when k is positive |
| Details.PlotLine | src/details.py:70-84 | 200 evenly spaced inputs over the column's range, each within it, each paired with its interpolated value |
| Details.PlotSurface | src/details.py:86-112 | a fresh 60 by 60 mesh over the first two arguments' ranges whose cell (i, j) is the interpolated value at the surface query (x_j, y_i) |
| Details.FillSurfaceRow | src/details.py:96-103 | row i of the mesh receives the value at each column's query and every other row is unchanged |
| Details.CurrentPoint | src/details.py:114-120 | present exactly when user values are given and non-empty, holding the user's values of the case's arguments that were given |
| Details.RawData | src/details.py:34-44 | fails exactly for a missing sheet, a filter on an unknown column or a missing needed column; otherwise the needed columns and exactly the sheet rows passing the filter with every needed cell present, cut down to those columns, in sheet order |
| Details.GetCaseDetails | src/details.py:17-122 | fails exactly for an unknown case, a failing table, no arguments or a text cell; otherwise the configuration's fields, the table and the current point, and a grid that is NaN for an empty table, a 200-sample line over the first argument with the interpolated value at each sample for one argument, or a 60 by 60 mesh over the first two arguments with the interpolated value at each surface query |
| Units.ToMetric | src/main.py:45-49 | each factor is positive: a positive standard quantity shows as a positive metric one, and zero exactly as zero |
| Units.ToStandard | src/main.py:56-69 | the entered metric value is recovered by showing the result again in the same unit |
| Units.ToMetricInjective | src/main.py:45-49 | distinct standard quantities show as distinct metric ones |
| Units.InputUnit | src/main.py:55-68 | the unit whose tag the lower-cased label contains, the first of (mm), (m/s), (m³/h), (pa) in that order; none exactly when no tag is contained |
| Units.InputToStandard | src/main.py:52-70 | under a label naming a metric unit, the value whose metric form is the entered value; under any other label the value as entered |
| Units.InputCaseInsensitive | src/main.py:55 | lower-casing the label first changes nothing |
| Units.MetricValue | src/main.py:84-113 | a result under a label no rule converts keeps its value; each applying rule converts the standard value afresh, the last one deciding |
| Units.MetricLabel | src/main.py:84-113 | a label no rule converts is unchanged; each applying rule rewrites its tag in the label left by the previous ones |
| Units.DisplayLabel | src/main.py:124-138 | an empty label stays empty, standard mode keeps the label, and a label without a tag is unchanged in metric mode |
| Units.NoTagUntouched | src/main.py:132-137 | a text without `(` is unchanged by rewriting any tag |
| Units.Fixed3 | src/main.py:82 | a sign exactly for negative values, then at least one whole digit, a point and exactly three decimals |
| Units.Fixed3Exact | src/main.py:82 | a whole number of thousandths is shown exactly, digits of its whole part, a point, and its three decimals |
| Units.FormatOutput | src/main.py:73-120 | an absent or "N/A" result shows "N/A" under its display label; standard mode shows the label and three decimals; metric mode shows the converted label and value; a text result under a converting label in metric mode fails, and any other text is shown as it is |
| Units.DisplayOfTagged | src/main.py:89-113 | a result under a label made of a name and the standard tag of a unit, the name carrying that rule's word, shows in that unit under the metric tag |
| Units.EnterOfTagged | src/main.py:52-70 | a value typed under a metric label of that form is converted back by its own unit's factor |
| Units.LabelOfTagged | src/main.py:124-138 | the label an absent result shows under carries the same metric tag as the label a number shows under |
| Units.DisplayThenEnter | src/main.py:52-113 | a standard result shown in metric mode and typed back under its shown label is the value it started from |
| Sections.InitialOrder | src/main.py:694-700 | a non-empty section list, holding "Results" exactly for output types other than the two junction types |
| Sections.SectionOf | src/main.py:704-714 | the first section whose name the non-empty caption starts with, ignoring case; the fallback ("Results" when listed, else "Other Results") when none does |
| Sections.ExtendedSection | src/main.py:719-720 | appending the fallback to the order never changes the section any caption lands in |
| Sections.CurrentSection | src/main.py:702-720 | the order as grown by the loop assigns every caption the section the initial order assigns |
| Sections.Scan | src/main.py:703-714 | the inner scan returns the section the caption selects, and reports a match exactly when some listed section claims it |
| Sections.Place | src/main.py:702-720 | one pass keeps the grouping of the entries so far: the next entry is appended to its section, and the fallback joins the order the first time it is used |
| Sections.Step | src/main.py:707-720 | the grouping of a prefix extended by one entry is the grouping of the longer prefix |
| Sections.GroupSections | src/main.py:692-720 | a section exists exactly when some result lands in it; it lists exactly those results in input order; the order is the initial one plus the fallback exactly when a result needed an absent fallback; every caption is recorded as processed |
| Sections.EachEntryPlaced | src/main.py:702-720 | every result is listed in the section its caption selects, and every listed entry is a result that selects that section |
| A7F.CountAtMost | src/duct_functions/A7F_outputs.py:57-59 | `searchsorted(..., side="right")` counts the tabulated Re steps that are at most the scaled Reynolds number |
| A7F.RncFactor | src/duct_functions/A7F_outputs.py:46-61 | below the first step the position wraps to the last step (factor 1.0); otherwise the factor is that of the floor of Re/10^4 among the steps |
| A7F.StepsPrefix | src/duct_functions/A7F_outputs.py:57-59 | the searchsorted count is positive exactly when Re/10^4 >= 1, and then its last step is the floor |
| A7F.RncFactorRange | src/duct_functions/A7F_outputs.py:48-49 | the correction factor lies in [1.0, 1.40], and is 1.0 for Re/10^4 < 1 |
| A7F.RncFactorBetweenSteps | src/duct_functions/A7F_outputs.py:48-61 | Re/10^4 in [6, 8) reads the 6 row: 1.09 |
| A7F.AngleKey | src/duct_functions/A7F_outputs.py:102-109 | the largest tabulated angle not above θ, 30 when none is |
| A7F.AngleFactor | src/duct_functions/A7F_outputs.py:102-110 | the angle correction lies in [0.45, 1.0] |
| A7F.AngleFactorMonotone | src/duct_functions/A7F_outputs.py:102-110 | a larger angle never gets a smaller correction; 90 degrees and above get 1.0 |
| A7F.HWPolicy | src/duct_functions/A7F_outputs.py:85-96 | H/W is rounded down when at most 3, up otherwise |
| A7F.BaseCoefficient | src/duct_functions/A7F_outputs.py:74-99 | the base C is the C of a row that survives rounding R/W down and then H/W by the H/W policy within that R/W group |
| A7F.Rnc | src/duct_functions/A7F_outputs.py:43-63 | the RNCF applies only when the applicability test holds, which for a positive velocity is V > 1 ft/min; otherwise the factor is 1.0 |
| A7F.Outputs | src/duct_functions/A7F_outputs.py:19-27 | all four outputs are None exactly when some input is falsy (absent or zero); otherwise the routine runs |
| A7F.Compute | src/duct_functions/A7F_outputs.py:29-123 | an uncaught error exactly when H + W is zero, the velocity is not positive (its negative power is undefined) or the table is empty; otherwise V = Q / (H W / 144), C = base C x RNCF x angle factor, loss = C (V/4005)^2 |
| A7H1.ChooseDimension | src/duct_functions/A7H1_outputs.py:45-52 | R or S at or below zero counts as not entered; R is used whenever it is positive, S only when R is not |
| A7H1.DimensionRows | src/duct_functions/A7H1_outputs.py:88-99 | exactly the rows tied at the least distance to the chosen R or S; non-empty exactly when the table is |
| A7H1.VelocityMatch | src/duct_functions/A7H1_outputs.py:121-137 | clamping to the first or last tabulated velocity, else the largest one at most V, is the floor with the smallest value as default |
| A7H1.Coefficient | src/duct_functions/A7H1_outputs.py:139-152 | the C of the first row of the group whose velocity is the matched one |
| A7H1.Outputs | src/duct_functions/A7H1_outputs.py:29-165 | missing H, W or Q is an error; a non-positive W H an error before the table is read; neither R nor S an error; no rows no match; otherwise V = Q / (W H / 144) with the C of the nearest group |
| A8A.AnglePolicy | src/duct_functions/A8A_outputs.py:66-77 | the angle is rounded up below 90 degrees and down from 90 on |
| A8A.Outputs | src/duct_functions/A8A_outputs.py:19-26 | all outputs are None exactly when some input is falsy; otherwise the routine runs |
| A8A.Compute | src/duct_functions/A8A_outputs.py:28-91 | an uncaught error exactly when the duct area is zero or the table is empty; otherwise V = Q / A and C is the C of a row left by the three nested lookups on Re = 8.56 D V, A1/A and the angle |
| A8A.StagesNarrow | src/duct_functions/A8A_outputs.py:46-80 | the chosen row has the floor of Re over the table, the ceiling of A1/A within that Re group, and the angle picked by the angle policy within that A1/A group |
| A8G.NearestCoefficient | src/duct_functions/A8G_outputs.py:7-30 | the stepwise C is the C of a row left by rounding the angle up and then A1/A up within that angle |
| A8G.NearestAngleIsCeil | src/duct_functions/A8G_outputs.py:15-20 | the stepwise lookup's angle is the ceiling of the angle over the table, the largest when none is above |
| A8G.Lerp | src/duct_functions/A8G_outputs.py:82-85 | the straight line between two points passes through both ends, stays between their values, and is the weighted mean y (x1 - x0) = y0 (x1 - x) + y1 (x - x0) |
| A8G.AngleSlice | src/duct_functions/A8G_outputs.py:38-44 | the rows of a tabulated angle; for an angle not in the table, the rows of the first angle nearest to it; never empty |
| A8G.Interp | src/duct_functions/A8G_outputs.py:46-55 | at or below the least A1/A, the C of the first row holding it; at or above the greatest, the C of the last row holding it; otherwise on the line between the two rows that bracket A1/A |
| A8G.Inside | src/duct_functions/A8G_outputs.py:55 | strictly inside the A1/A range, the value lies on the line between the last row at or below the ratio and the first row above it |
| A8G.InterpAtAngle | src/duct_functions/A8G_outputs.py:33-55 | the interpolation in A1/A over the angle's slice |
| A8G.AngleBracket | src/duct_functions/A8G_outputs.py:73-75 | the bounding angles are tabulated, strictly below and above the angle, with no tabulated angle strictly between them other than the angle itself |
| A8G.Bilinear | src/duct_functions/A8G_outputs.py:58-85 | clamped to the slice of the smallest or largest angle; strictly inside, the straight line in ANGLE between the C values interpolated at the two bounding angles, so between them |
| A8G.BilinearSkipsTabulatedAngle | src/duct_functions/A8G_outputs.py:73-85 | at a tabulated interior angle the bounding angles are strict neighbours, so the bilinear C ignores that angle's own row while the stepwise C uses it |
| A8G.BilinearOfExample | src/duct_functions/A8G_outputs.py:58-85 | the bilinear C at 45 degrees between rows at 0, 45 and 90 degrees is the 0/90 average |
| A8G.NearestOfExample | src/duct_functions/A8G_outputs.py:7-30 | the stepwise C at 45 degrees is the 45-degree row's C |
| A8G.SliceValue | src/duct_functions/A8G_outputs.py:33-55 | a one-row slice interpolates to that row's C |
| A8G.Outputs | src/duct_functions/A8G_outputs.py:103-162 | None outputs exactly when an input is absent; an error when either area is not positive; an uncaught error on an empty table; otherwise V = Q / A, the bilinear C for the loss and the stepwise C reported beside it |
| A9B2.AngleRow | src/duct_functions/A9B2_outputs.py:58-63 | below 60 degrees the first row of the least angle in the L/D group, from 60 on the last row of the greatest: the requested angle only decides the side |
| A9B2.AngleRowSide | src/duct_functions/A9B2_outputs.py:59-63 | any two angles on the same side of 60 pick the same row |
| A9B2.BaseCoefficient | src/duct_functions/A9B2_outputs.py:48-66 | the C of a row at the floor of L/D whose angle is the least (below 60) or the greatest (from 60) in that L/D group |
| A9B2.CorrectionFactor | src/duct_functions/A9B2_outputs.py:68-78 | the C of a row at the floor of A/A1 over the correction projection |
| A9B2.Outputs | src/duct_functions/A9B2_outputs.py:17-28 | all outputs are None exactly when some input is falsy; otherwise the routine runs |
| A9B2.Compute | src/duct_functions/A9B2_outputs.py:30-92 | an uncaught error exactly when a hydraulic diameter divides by zero or a projection is empty; otherwise V = Q / (H1 W1 / 144) and C = base C x correction factor |
| A10A1.BranchCoefficient | src/duct_functions/A10A1_outputs.py:52-64 | after sorting on (Vb/Vc, Ab/Ac), the first row whose Ab/Ac reaches the duct's (least in the sort order among those rows), else the last row (greatest overall); Vb/Vc only orders the rows |
| A10A1.MainCoefficient | src/duct_functions/A10A1_outputs.py:71-83 | the same rule over the main table sorted on (Vs/Vc, Ab/Ac) |
| A10A1.Outputs | src/duct_functions/A10A1_outputs.py:18-31 | all ten outputs are None exactly when an input is absent (zero is accepted); otherwise the routine runs |
| A10A1.Compute | src/duct_functions/A10A1_outputs.py:33-106 | an uncaught error exactly when an area or the converged flow is zero or a table is empty; otherwise branch, source and converged velocities from their flows and areas, both coefficients by Ab/Ac, and the main loss on the source velocity pressure |
| A10B.PathRows | src/duct_functions/A10B_outputs.py:44-45 | exactly the rows whose lower-cased PATH is the requested path |
| A10B.Entries | src/duct_functions/A10B_outputs.py:66-96 | every entry comes from a row with the key and C present that passes the filter, and every such row yields its (key, C) entry; none exactly when no row qualifies |
| A10B.EntriesAppend | src/duct_functions/A10B_outputs.py:66-96 | entries keep table order: those of a split table are the first part's followed by the second's |
| A10B.BranchCoefficient | src/duct_functions/A10B_outputs.py:63-82 | the C of an entry at the ceiling of Qb/Qc times the C of an entry at the floor of Ab/Ac, each looked up on its own projection |
| A10B.Outputs | src/duct_functions/A10B_outputs.py:17-36 | all outputs are None exactly when an input is absent (zero is accepted); otherwise the routine runs |
| A10B.Compute | src/duct_functions/A10B_outputs.py:38-120 | an uncaught error exactly when a path is missing, an area or the converged flow is zero, or a projection is empty; otherwise the three velocities, the branch product C, the main C at the ceiling of Qb/Qc, and the main loss on the source velocity pressure |
| A10F.Branches | src/duct_functions/A10F_outputs.py:65-66 | exactly the rows whose PATH is "branch" |
| A10F.Mains | src/duct_functions/A10F_outputs.py:81-82 | exactly the rows whose PATH is "main" |
| A10F.BranchCoefficient | src/duct_functions/A10F_outputs.py:72-76 | the C of the first row in table order with Qb/Qc at least the ratio, else of the last row |
| A10F.MainCoefficient | src/duct_functions/A10F_outputs.py:96-101 | the C of the last row in table order with Qb/Qs at most the ratio, else of the first row |
| A10F.Outputs | src/duct_functions/A10F_outputs.py:21-30 | a missing-input error exactly when some input is falsy; otherwise the routine runs |
| A10F.Compute | src/duct_functions/A10F_outputs.py:32-142 | a zero converged flow raises; Qb/Qs below 0.4 is refused; an empty branch or main selection raises; otherwise velocities on Ac and Ac/2, the branch C by Qb/Qc and the main C by Qb/Qs |
| A10H.PathRows | src/duct_functions/A10H_outputs.py:61-83 | exactly the rows whose PATH is the requested path |
| A10H.BranchCoefficient | src/duct_functions/A10H_outputs.py:67-77 | the C of the first branch row with Ab/As, Ab/Ac and Qb/Qc all at least the duct's, else of the last branch row |
| A10H.MainCoefficient | src/duct_functions/A10H_outputs.py:88-98 | the C of the first main row with As/Ac and Ab/Ac at least and Qb/Qc at most the duct's, else of the first main row |
| A10H.Outputs | src/duct_functions/A10H_outputs.py:21-31 | a missing-input error exactly when some input is falsy; otherwise the routine runs |
| A10H.Compute | src/duct_functions/A10H_outputs.py:33-132 | a zero converged flow raises; no branch or no main rows is reported; otherwise the velocities on their own areas, both coefficients, and the main loss on the source velocity pressure |
| A10I1.Coefficient | src/duct_functions/A10I1_outputs.py:55-70 | among the rows with ANGLE and flow share at least the duct's, the least in (ANGLE, share), else the last row of the table as stored |
| A10I1.ComputeBranch | src/duct_functions/A10I1_outputs.py:52-81 | one branch: Vb = Qb / A_branch, the coefficient at Qb/Qc, and the loss C (Vb/4005)^2 |
| A10I1.Outputs | src/duct_functions/A10I1_outputs.py:16-22 | a missing-input error exactly when some input is falsy; otherwise the routine runs |
| A10I1.Compute | src/duct_functions/A10I1_outputs.py:24-102 | a zero main area or a zero converged flow raises; an empty table is reported; otherwise both branches through the same helper and the main velocity on twice the branch area |
| A10I1.EqualFlowsSymmetric | src/duct_functions/A10I1_outputs.py:86-87 | equal branch flows give Branch 1 and Branch 2 the same values |
| A10I1.SwappedFlows | src/duct_functions/A10I1_outputs.py:86-92 | exchanging the two flows exchanges the two branches and keeps the main velocity |
| A11A.Trunc | src/duct_functions/A11A_outputs.py:35 | `int(angle)` truncates toward zero: the integer part of a positive angle from below, of a negative one from above |
| A11A.AngleName | src/duct_functions/A11A_outputs.py:57 | the branch NAME starts with "Tee or Wye, " and ends with the degree sign |
| A11A.AngleNameSame | src/duct_functions/A11A_outputs.py:35-57 | two angles select the same branch rows exactly when their whole-degree parts agree |
| A11A.Selection | src/duct_functions/A11A_outputs.py:61-93 | exactly the rows of the given PATH and NAME |
| A11A.BranchCoefficient | src/duct_functions/A11A_outputs.py:71-81 | absent exactly when no row reaches both Ab/Ac and Qb/Qc; otherwise the C of the least such row in (Ab/Ac, Qb/Qc) |
| A11A.MainCoefficient | src/duct_functions/A11A_outputs.py:99-106 | absent exactly when no row reaches Vs/Vc; otherwise the C of a row of least Vs/Vc among those that do |
| A11A.LossOf | src/duct_functions/A11A_outputs.py:83-108 | a loss is present exactly when its coefficient is, and is then C times the velocity pressure |
| A11A.Outputs | src/duct_functions/A11A_outputs.py:25-32 | a missing-input error exactly when an input is absent (zero is accepted); otherwise the routine runs |
| A11A.Compute | src/duct_functions/A11A_outputs.py:37-129 | a zero area or a zero converged flow raises; otherwise Vs from Qc - Qb, the branch C from the rows named for the whole-degree angle, and the main loss on the converged velocity pressure; an absent coefficient is not an error |
| A11Q.Branches | src/duct_functions/A11Q_outputs.py:72-73 | exactly the rows whose PATH is "branch" |
| A11Q.Mains | src/duct_functions/A11Q_outputs.py:98-99 | exactly the rows whose PATH is "main" |
| A11Q.BranchPick | src/duct_functions/A11Q_outputs.py:80-91 | the first row after sorting on the one-sided differences: it reaches Vb/Vc with the least excess whenever a row does, among rows tied with it on that key it reaches Qb/Qc with the least excess whenever one does, and no earlier row has the same key |
| A11Q.MainCoefficient | src/duct_functions/A11Q_outputs.py:106-108 | the C of the first main row of least distance from Vs/Vc |
| A11Q.Outputs | src/duct_functions/A11Q_outputs.py:27-35 | a missing-input error exactly when an input is absent (zero is accepted); otherwise the routine runs |
| A11Q.Compute | src/duct_functions/A11Q_outputs.py:37-135 | a zero area or converged flow raises; no branch or main rows is reported; otherwise the velocities with Vs from Qc - Qb, both coefficients, the main loss on the source velocity pressure, and the height warning exactly when Hb >= Hm - 2 |
| A11T.BranchRows | src/duct_functions/A11T_outputs.py:78 | exactly the branch rows whose numeric ANGLE equals the angle |
| A11T.MainRows | src/duct_functions/A11T_outputs.py:90 | exactly the rows whose PATH is "main" |
| A11T.AngleGroup | src/duct_functions/A11T_outputs.py:95-98 | 15, 30, 45 and 60 degrees share the "15-60" group, 90 has its own, and any other angle has none |
| A11T.Band | src/duct_functions/A11T_outputs.py:101-110 | the As/Ac band: "0-0.4" exactly at or below 0.4, ">=0.8" exactly from 0.8, and none exactly at 0.5, at 0.6 and on [0.7, 0.8) |
| A11T.MainGroup | src/duct_functions/A11T_outputs.py:94-110 | exactly the main rows of the angle's group, further narrowed to the band at 90 degrees when the share falls in one |
| A11T.NearestCoefficient | src/duct_functions/A11T_outputs.py:82-84 | the C of a row whose key is nearest the target, with every earlier row strictly farther |
| A11T.Outputs | src/duct_functions/A11T_outputs.py:27-35 | a missing-input error exactly when an input is absent; otherwise the routine runs |
| A11T.Compute | src/duct_functions/A11T_outputs.py:40-142 | refused geometry exactly when the source area is not positive; a division by zero raises; no branch rows of the angle or no rows left after grouping is a no-match error, no main rows a no-data error; otherwise the three velocities, the nearest branch and main coefficients and the main loss on the source velocity pressure |
| A11V.PathRows | src/duct_functions/A11V_outputs.py:48-49 | exactly the rows of the given PATH |
| A11V.ShareDifference | src/duct_functions/A11V_outputs.py:55-57 | the Qb/Qc difference is the absolute distance up to 0.7 and one-sided above it (rows below the share are infinitely far) |
| A11V.Pick | src/duct_functions/A11V_outputs.py:53-59 | the first row after the three-key sort: nearest in Ab/As; among rows tied there, nearest in Ab/Ac; among rows tied on both, nearest in Qb/Qc up to 0.7 and at or above the share with the least excess above it whenever such a row exists; no earlier row carries the same key |
| A11V.Outputs | src/duct_functions/A11V_outputs.py:12-20 | a missing-input error exactly when an input is absent; otherwise the routine runs |
| A11V.Compute | src/duct_functions/A11V_outputs.py:22-96 | a raise exactly when an area or Qc is zero, or the table has more than one row and a path has none; "data not found" exactly for a one-row table (read as a Series) with non-zero areas and Qc; otherwise the three velocities, both coefficients from the same rule on the branch and main rows, and the main loss on the source velocity pressure |
| Numeric.RoundHalfEven | src/duct_functions/A11W_outputs.py:52 | the integer nearest the input, within one half, the even one on a tie, and the input itself when it is whole |
| A11W.Round4 | src/duct_functions/A11W_outputs.py:52 | a value on the 0.0001 grid within half a step of the input, the even multiple on a tie |
| A11W.Round4Idempotent | src/duct_functions/A11W_outputs.py:52 | rounding a rounded value changes nothing |
| A11W.RoundedEqualClose | src/duct_functions/A11W_outputs.py:51-53 | two values that round alike differ by at most one unit of the fourth decimal |
| A11W.MatchCoefficient | src/duct_functions/A11W_outputs.py:51-58 | none exactly when no row's area fraction rounds like the selected one; otherwise the C of the first row that does |
| A11W.Outputs | src/duct_functions/A11W_outputs.py:21-27 | a missing-input error exactly when an input is absent; otherwise the routine on the present values |
| A11W.Compute | src/duct_functions/A11W_outputs.py:29-78 | a zero main area or area fraction raises, and so does a one-row A11W table (read as a Series); otherwise no matching row is a reported error; otherwise both branches identical, each carrying half the flow through its area with the matched C, and the main velocity and pressure of the full flow |
| A12A1.Outputs | src/duct_functions/A12A1_outputs.py:24-39 | the all-None outputs exactly when t, L, D or Q is absent (the obstruction inputs may be absent); otherwise the routine runs |
| A12A1.Compute | src/duct_functions/A12A1_outputs.py:41-144 | a zero diameter raises; otherwise the velocity through the circle of diameter D, a result exactly when the entry coefficient of t/D and L/D is found, that coefficient as the C (the base C itself without a screen or plate), and any lookup failure propagated as it is; velocity pressure and loss consistent |
| A12A2.EquivalentDiameter | src/duct_functions/A12A2_outputs.py:49 | the equivalent diameter times 2 (H + W) is H W |
| A12A2.Outputs | src/duct_functions/A12A2_outputs.py:25-41 | the all-None outputs exactly when t, L, H, W or Q is absent; otherwise the routine runs |
| A12A2.Compute | src/duct_functions/A12A2_outputs.py:43-147 | an undefined equivalent diameter raises; otherwise the velocity through H W, a result exactly when the entry coefficient of t and L over the equivalent diameter is found, that coefficient as the C (the base C itself without an obstruction), and any lookup failure propagated as it is |
| Obstructed.BaseCoefficient | src/duct_functions/A12A1_outputs.py:55-70 | an empty table raises; a reported error exactly when no row carries both the floor of t/D and the ceiling of L/D over the whole table; otherwise the C of the first such row in table order |
| Obstructed.BasePicks | src/duct_functions/A12A1_outputs.py:58-66 | the two values resolved independently select exactly the rows at the floor of t/D and the ceiling of L/D |
| Obstructed.BaseNarrowingAgrees | src/duct_functions/A12A1_outputs.py:61-66 | whenever a pair exists, resolving t/D only within the rows of the chosen L/D selects the same rows as resolving both independently |
| Obstructed.CorrectionCoefficient | src/duct_functions/A12A1_outputs.py:75-113 | C1 is 0 unless the obstruction is exactly "screen" with n given (the screen-table floor of n; an empty table raises) or exactly "perforated plate" with n, thickness and hole diameter given (the plate table at n and thickness over hole diameter; a zero hole diameter raises, no row under the plate is a reported error) |
| Obstructed.TotalCoefficient | src/duct_functions/A12A1_outputs.py:118-125 | the base C without an obstruction; with a screen or plate, 1 + C1 at or below t/D 0.05 and C + C1 above |
| Obstructed.EntryCoefficient | src/duct_functions/A12A1_outputs.py:55-125 | a result exactly when both the base and the correction lookups succeed, then the total coefficient of both; a base failure comes back first, and a correction failure after a found base comes back as it is |
| Corrections.Additive | src/duct_functions/A12A1_outputs.py:123 | the total exceeds C by exactly C1 |
| Corrections.Scaled | src/duct_functions/A13D_outputs.py:72 | the excess over C times the squared area ratio is exactly C1 |
| Corrections.ThresholdSwitch | src/duct_functions/A12A1_outputs.py:118-123 | the additive rule applied to 1 at or below t/D 0.05 and to C above |
| Corrections.ScaledUnitRatio | src/duct_functions/A13D_outputs.py:72 | at ratio 1 the scaled rule is the additive one, and the ratio's sign does not matter |
| Corrections.ScaledBounded | src/duct_functions/A13D_outputs.py:72 | with a squared ratio of at least 1 and a non-negative C1, the scaled total lies between C and C + C1 |
| Corrections.ThresholdSwitchCases | src/duct_functions/A12A1_outputs.py:118-123 | at or below the threshold the base C plays no part; above it the rule is additive |
| Corrections.ThresholdSwitchJump | src/duct_functions/A12A1_outputs.py:118-123 | crossing t/D 0.05 moves the coefficient by C - 1 whatever C1 is, upwards when C exceeds 1 |
| Text.Strip | src/duct_functions/A13C_outputs.py:83 | the input with its leading and trailing white space removed: a contiguous slice with only white space around it, neither starting nor ending with white space |
| Corrections.ScreenNamedWidens | src/duct_functions/A13C_outputs.py:83 | the stripped, lower-cased test accepts every exact "screen" |
| Corrections.ScreenNamedPadded | src/duct_functions/A13C_outputs.py:83 | the stripped, lower-cased test accepts " Screen ", which the exact test of A12A1 refuses |
| Corrections.ScreenCoefficient | src/duct_functions/A12A1_outputs.py:84-89 | nothing exactly for an empty screen table; otherwise the C of the first row whose n is the floor of the given n over the tabulated values |
| Corrections.PlateCoefficient | src/duct_functions/A12A1_outputs.py:98-113 | nothing exactly when no row is under the plate in both n and t/D; otherwise the C of the first row in table order carrying the pair that is greatest in n and, within that n, in t/D |
| Corrections.PlateBestOfRows | src/duct_functions/A12A1_outputs.py:102-113 | the best row of the selection is best among all table rows under the plate |
| Corrections.PlateBest | src/duct_functions/A12A1_outputs.py:110-113 | the chosen row belongs to the selection and is greatest in n and, among rows of that n, in t/D |
| A12D1.LdMatch | src/duct_functions/A12D1_outputs.py:60-67 | rounding L/D down among the unique tabulated values gives the floor over the whole column |
| A12D1.AngleMatch | src/duct_functions/A12D1_outputs.py:61-69 | the nearest unique tabulated angle is the nearest angle over the whole column |
| A12D1.PairCoefficient | src/duct_functions/A12D1_outputs.py:57-75 | no match exactly when no row carries both picks; otherwise the C of the first row carrying them |
| A12D1.Outputs | src/duct_functions/A12D1_outputs.py:25-39 | all outputs None exactly when L, D, Ds or Q is absent; otherwise the routine on the present values |
| A12D1.Compute | src/duct_functions/A12D1_outputs.py:41-118 | a zero area, a zero length or an empty table raises; no pair is reported; a screen with an empty table raises, and a screen with n of zero gives a non-finite coefficient (C1 / 0.0 on a numpy float); otherwise the velocity of Q through the duct with C, or C + C1 / n^2 with a screen |
| A12G.ConfigKey | src/duct_functions/A12G_outputs.py:100 | the label looked up is already lower-case, so comparing it with a lower-cased cell is a case-insensitive match |
| A12G.AreaRatio | src/duct_functions/A12G_outputs.py:127 | A1/A times A is A1, and the ratio is zero exactly for a zero opening |
| A12G.ScreenTotal | src/duct_functions/A12G_outputs.py:125-131 | with a non-positive duct area the squared ratio is 1 and the rule additive; with a positive one a zero opening gives a non-finite total (C1 / 0.0 on a numpy float), and otherwise (total - C) A1^2 == C1 A^2 |
| A12G.ScreenTotalEqualAreas | src/duct_functions/A12G_outputs.py:125-131 | an opening as large as the duct makes the screen correction additive |
| A12G.Outputs | src/duct_functions/A12G_outputs.py:38-88 | an unknown profile is an error; for a round hood the all-None outputs exactly when D1, D, angle or Q is absent, for a rectangular one when H1, W1, D, angle or Q is; otherwise the routine runs with the opening area of the profile |
| A12G.Compute | src/duct_functions/A12G_outputs.py:90-153 | a reported error exactly when the duct has an area and no row matches the configuration case-insensitively and the angle exactly; a raise exactly for a zero duct area or, with an exact "screen" and n, an empty screen table; a non-finite coefficient exactly when the screen applies to a zero opening; otherwise the first matching row's C, corrected by the screen rule when it applies, with the velocity through the duct |
| A12G.ConfigurationCaseInsensitive | src/duct_functions/A12G_outputs.py:101-103 | any configuration cell matches a profile exactly when its lower-cased text does: the comparison ignores letter case |
| A13C.RatiosAt | src/duct_functions/A13C_outputs.py:61 | exactly the As/A values of rows carrying the given angle |
| A13C.BaseCoefficient | src/duct_functions/A13C_outputs.py:50-76 | the C of the first row carrying the ceiling of the angle over the tabulated angles and, among that angle's ratios, the floor of As/A at 20 degrees and below, or above 20 degrees the nearest As/A, the one met first in the table on a tie |
| A13C.NearestTieFirst | src/duct_functions/A13C_outputs.py:61-76 | every row of the rounded angle before the first row carrying the nearest As/A lies strictly farther from the ratio |
| A13C.WithScreen | src/duct_functions/A13C_outputs.py:96-97 | with a non-zero ratio (total - C) (As/A)^2 == C1; with a zero ratio the rule is additive |
| A13C.AreaRatio | src/duct_functions/A13C_outputs.py:41-43 | As/A times A is As when the duct has an area, and 1 otherwise |
| A13C.Outputs | src/duct_functions/A13C_outputs.py:23-37 | the all-None outputs exactly when H, Hs, W, angle or Q is absent; otherwise the routine runs |
| A13C.Compute | src/duct_functions/A13C_outputs.py:39-115 | a raise exactly for a zero duct area, an empty table, or a stripped, lower-cased "screen" with n and an empty screen table; otherwise the base coefficient, corrected by the screen rule when the lenient screen test passes, with the velocity through H W |
| A13D.Steeper | src/duct_functions/A13D_outputs.py:38 | the larger of the lateral and vertical angles: at least both, and one of them |
| A13D.AnglePolicy | src/duct_functions/A13D_outputs.py:44-47 | round down exactly up to 30 degrees and up exactly above |
| A13D.AngleMatch | src/duct_functions/A13D_outputs.py:44-47 | the floor of the angle over the tabulated angles up to 30 degrees (the least when none is below), the ceiling above (the greatest when none reaches it) |
| A13D.RatioMatch | src/duct_functions/A13D_outputs.py:50-52 | the floor of As/A over all tabulated ratios, or the least when none is below |
| A13D.PairCoefficient | src/duct_functions/A13D_outputs.py:54-60 | a reported error exactly when no row carries both rounded values; otherwise the C of the first row carrying them |
| A13D.TabulatedPairMatches | src/duct_functions/A13D_outputs.py:44-60 | an angle and ratio read off the same table row always find a row |
| A13D.AreaRatio | src/duct_functions/A13D_outputs.py:28-30 | As/A times A is As, zero exactly when the outlet has no area |
| A13D.Outputs | src/duct_functions/A13D_outputs.py:16-26 | the all-None outputs exactly when H, W, H1, W1, L or Q is absent; otherwise the routine runs |
| A13D.Compute | src/duct_functions/A13D_outputs.py:28-94 | a zero inlet area, zero length or a table of fewer than two rows raises; otherwise a reported error exactly when the rounded pair is missing, a raise exactly when an exact "screen" with n meets a screen table of fewer than two rows, a non-finite coefficient exactly when it meets a zero outlet area, and else the pair's C, scaled by C1 / (As/A)^2 when the screen applies, with the velocity through H W |
| A13E1.BaseCoefficient | src/duct_functions/A13E1_outputs.py:46-60 | the C of the first row carrying the ceiling of L/D over the tabulated values (the greatest when none reaches it) |
| A13E1.TabulatedRatio | src/duct_functions/A13E1_outputs.py:49-60 | a tabulated L/D reads a row carrying exactly that L/D |
| A13E1.Outputs | src/duct_functions/A13E1_outputs.py:24-37 | the all-None outputs exactly when D, L or Q is absent; otherwise the routine runs |
| A13E1.Compute | src/duct_functions/A13E1_outputs.py:39-97 | a raise exactly for a zero duct area, an empty table, or a stripped, lower-cased "screen" with n and an empty screen table; otherwise the base coefficient of L/D, plus the screen coefficient unscaled when the lenient screen test passes, with the velocity through the circle |
| A14B1.NMatch | src/duct_functions/A14B1_outputs.py:47-50 | the floor of n over the tabulated values, or the least when none is below |
| A14B1.TDMatch | src/duct_functions/A14B1_outputs.py:48-51 | the floor of t/D over the tabulated values, or the least when none is below |
| A14B1.PairCoefficient | src/duct_functions/A14B1_outputs.py:55-63 | a reported error exactly when no row carries both rounded values; otherwise the C of the first row carrying them |
| A14B1.TabulatedPairMatches | src/duct_functions/A14B1_outputs.py:47-63 | an n and t/D read off the same table row always find a row |
| A14B1.AgreesWithPlateCorrection | src/duct_functions/A12A1_outputs.py:102-113 | when both ratios reach a tabulated value and the rounded pair exists, the entry routines' plate correction reads a row at that same pair |
| A14B1.Outputs | src/duct_functions/A14B1_outputs.py:16-32 | the all-None outputs exactly when D, Q, n, thickness or hole diameter is absent; otherwise the routine runs |
| A14B1.Compute | src/duct_functions/A14B1_outputs.py:34-83 | a raise exactly for a zero duct area, a zero hole diameter or a table of fewer than two rows; a reported error exactly when the rounded pair is missing; otherwise the pair's C at t over the hole diameter, with the velocity through the circle |
| A15D.AspectMatch | src/duct_functions/A15D_outputs.py:53-54 | a tabulated H/W no farther from the duct's than any other; on a tie, the one met first in the table |
| A15D.SegmentMatch | src/duct_functions/A15D_outputs.py:57-58 | the floor of h/H over the tabulated values, or the least when none is below |
| A15D.PairCoefficient | src/duct_functions/A15D_outputs.py:62-66 | a reported error exactly when no row carries both matched values; otherwise the C of the first row carrying them |
| A15D.TabulatedPairMatches | src/duct_functions/A15D_outputs.py:53-66 | an H/W and h/H read off the same table row always find a row |
| A15D.Outputs | src/duct_functions/A15D_outputs.py:23-38 | the all-None outputs exactly when H, W, h or Q is absent; otherwise the routine runs |
| A15D.Compute | src/duct_functions/A15D_outputs.py:40-86 | a raise exactly for a zero area or an empty table; a reported error exactly when the matched pair is missing; otherwise the pair's C with the velocity through H W |
| A15H1.BlockedShare | src/duct_functions/A15H1_outputs.py:46-47 | S_m/A times the duct area is the obstruction's projected area d L |
| A15H1.ReMatch | src/duct_functions/A15H1_outputs.py:55-58 | the floor of the Reynolds number over the tabulated values, or the least when none is below |
| A15H1.SmAMatch | src/duct_functions/A15H1_outputs.py:56-59 | the ceiling of S_m/A over the tabulated values, or the greatest when none reaches it |
| A15H1.PairCoefficient | src/duct_functions/A15H1_outputs.py:63-67 | a reported error exactly when no row carries both rounded values; otherwise the C of the first row carrying them |
| A15H1.TabulatedPairMatches | src/duct_functions/A15H1_outputs.py:55-67 | a Reynolds number and S_m/A read off the same table row always find a row |
| A15H1.Factor | src/duct_functions/A15H1_outputs.py:71-75 | the K of the first A15H2 row at the floor of y/D over the tabulated values |
| A15H1.Corrected | src/duct_functions/A15H1_outputs.py:78 | K 1 leaves the base coefficient unchanged, K 0 gives zero, and dividing by a non-zero K recovers it |
| A15H1.Outputs | src/duct_functions/A15H1_outputs.py:24-40 | the all-None outputs exactly when D, d, L, y or Q is absent; otherwise the routine runs |
| A15H1.Compute | src/duct_functions/A15H1_outputs.py:42-98 | a zero duct area or an A15H1 table of fewer than two rows raises; otherwise a reported error exactly when the pair at Re = 8.5 D V and S_m/A is missing, a raise exactly when it is found and A15H2 has fewer than two rows, and else K times the pair's C with the velocity through the circle |

## Left out

- Floating point: every quantity is an exact real. Rounding error, overflow, underflow and NaN propagation are not modelled. A division the program performs on floats that would give an infinity or NaN is a `NonFinite` outcome, and a Python `ZeroDivisionError` is a failure.
- sqrt, atan, degrees and `**` with a non-integer exponent are not computed. The angle of a diverging exit (A12D1, A13D) and the inverse-distance weight law are inputs, and only their stated properties are used. The default power 2 is modelled exactly.
- Idw.Interpolate: the weight law is required to give positive weights (a positive power), and `k` is a natural number, so a negative `k` or power is not modelled.
- `np.argpartition` breaks ties between equally distant points in an implementation-defined order. The model picks the earliest of them; which equally distant points take part is therefore not modelled.
- pandas `sort_values` with one key is not a stable sort by default. The model sorts stably, so which of several rows with equal keys is taken first is an assumption.
- Sheets: spreadsheet loading, caching and the case registry configuration are not part of this model. Tables are parameters. Cells are numbers, text or empty; a text cell that numpy could still parse as a number is treated as text.
- A7F.Compute: the Reynolds-number correction test `v < v ** 1.000794` is modelled by its solution for positive velocities, v > 1 ft/min; the power itself is not computed.
- Blank cells in the tables read without `dropna` (A10F, A10H, A10I1, A11A, A11Q, A11T, A11V, A11W, A13D and the A12G base table) are not modelled. The program would compare a NaN there and match nothing; the model's rows hold a number in every cell.
- A missing sheet is not modelled. A11A reports its own "branch data not found" message for it, A12G's handler catches the `KeyError`, A12A1 reports a missing A14A1 or A14B1 sheet, and the master-table lookup raises for an unknown case. The model's parameters are present sheets, and an empty one is a sheet with no rows.
- A13D.Compute, A14B1.Compute, A15H1.Compute: `data.loc[ID]` of a single row is a Series, so these routines raise for a one-row table; the model raises for a table parameter of fewer than two rows. Where the routine drops incomplete rows after `data.loc` (the A14A1 screen table of A13D, A14B1, A15H1 and A15H2), a sheet of several rows of which exactly one is complete raises in the model but not in the program.
- Details.RawData, Details.GetCaseDetails: `data.loc[sheet]` of a single row is a Series, so the program raises for a one-row sheet: at the row filter when there is one, otherwise when the interpolation reads the points. The model reads a one-row sheet as a one-row table and returns its data and grid.
- Details.TargetVals: the column median is a function parameter, not computed.
- Details.GetCaseDetails: the grid of an empty table (`linspace` of NaN bounds, every value NaN) is the constant `NaNGrid`; its samples are not modelled. Duplicate column names in the needed columns (an argument column also named as the value column) are not modelled.
- Details.RowFilter and Details.Project: a missing column is a raised `KeyError`; its message is not modelled.
- Idw.Interpolate: a table with no points reaches `vals.mean()` of no values, which is NaN and not an exception; the model has no precondition there and gives the outcome `NonFinite`.
- Empty lookups: a floor or ceiling over an empty table calls `min` or `max` of no values and raises; the model gives the routine's failure for that case.
- Manager.HelperWeights: on a data point the one-hot weights are not renormalised, so a point listed twice gives twice its value. The model follows the code.
- Manager.BuildA13C: states the size of the precomputed 60 by 60 surface, not its cells; the cells are stated by Manager.Grid2D, which builds it.
- The warnings printed by the preload and every `[DEBUG]` print are left out; printing changes no result.
- The graphical interface, themes, images, logs, the plot rendering and the constraint evaluation of the input form are not part of this model.
- Text.Lower: lowers the letters A to Z only. Python's `str.lower` also lowers non-ASCII letters; no unit tag or rule word of the program contains one.
- Units.DisplayThenEnter: the display-then-entry round trip is proved for labels of the form name, space, unit tag, with no "(" in the name. Those are the forms the program's labels take; other labels are not covered.
- The remaining duct fitting cases repeat the lookup and composition patterns modelled here and are not part of this model. The legacy root-level copies of the case routines and the `interp1d` based cases are not part of it either.
- The process-wide registry is one `Registry` object; concurrent access to it is not modelled.
