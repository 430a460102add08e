/**
 * The calculator window's unit converter. Calculations run in standard
 * units (in, ft/min, cfm, in w.c.); in metric mode entered values are
 * converted to standard units by the unit tag of their label, and results
 * are converted back for display, label and value together.
 */
module Units {
  import opened Wrappers
  import opened Text
  import Numeric

  const MM_PER_IN: real := 25.4
  const FT_PER_M: real := 3.28084
  const CFM_PER_M3HR: real := 0.588578
  const M_PER_S_PER_FTMIN: real := 0.00508
  const PA_PER_INWC: real := 249.08891

  /** The metric units an entry label can carry, in the order they are looked for. */
  datatype MetricUnit = Millimetre | MetrePerSecond | CubicMetrePerHour | Pascal

  function Rank(u: MetricUnit): nat {
    match u
    case Millimetre => 0
    case MetrePerSecond => 1
    case CubicMetrePerHour => 2
    case Pascal => 3
  }

  /** The tag as it appears in a lower-cased label. */
  function MetricTag(u: MetricUnit): string {
    match u
    case Millimetre => "(mm)"
    case MetrePerSecond => "(m/s)"
    case CubicMetrePerHour => "(m³/h)"
    case Pascal => "(pa)"
  }

  /** The tag a metric label carries once a standard label is converted. */
  function DisplayTag(u: MetricUnit): string {
    match u
    case Millimetre => "(mm)"
    case MetrePerSecond => "(m/s)"
    case CubicMetrePerHour => "(m³/h)"
    case Pascal => "(Pa)"
  }

  /** The standard unit each metric one stands for. */
  function StandardTag(u: MetricUnit): string {
    match u
    case Millimetre => "(in)"
    case MetrePerSecond => "(ft/min)"
    case CubicMetrePerHour => "(cfm)"
    case Pascal => "(in w.c.)"
  }

  /** A standard quantity in the metric unit `u`, as results are shown. */
  function ToMetric(u: MetricUnit, x: real): (y: real)
    ensures x > 0.0 ==> y > 0.0
    ensures x == 0.0 <==> y == 0.0
  {
    match u
    case Millimetre => x * MM_PER_IN
    case MetrePerSecond => x * M_PER_S_PER_FTMIN
    case CubicMetrePerHour => x * CFM_PER_M3HR
    case Pascal => x * PA_PER_INWC
  }

  /** A quantity entered in the metric unit `u`, in the standard unit. */
  function ToStandard(u: MetricUnit, y: real): (x: real)
    ensures ToMetric(u, x) == y
  {
    match u
    case Millimetre => y / MM_PER_IN
    case MetrePerSecond => y / M_PER_S_PER_FTMIN
    case CubicMetrePerHour => y / CFM_PER_M3HR
    case Pascal => y / PA_PER_INWC
  }

  /** Distinct standard quantities show as distinct metric ones. */
  lemma ToMetricInjective(u: MetricUnit, a: real, b: real)
    requires ToMetric(u, a) == ToMetric(u, b)
    ensures a == b
  {
  }

  /** The metric unit an entry label names: the first tag, in the fixed order, its lower-cased text contains. */
  function InputUnit(caption: string): (u: Option<MetricUnit>)
    ensures u.Some? ==> Contains(Lower(caption), MetricTag(u.value))
    ensures u.Some? ==> forall v :: Rank(v) < Rank(u.value) ==> !Contains(Lower(caption), MetricTag(v))
    ensures u.None? ==> forall v :: !Contains(Lower(caption), MetricTag(v))
  {
    var low := Lower(caption);
    if Contains(low, "(mm)") then Some(Millimetre)
    else if Contains(low, "(m/s)") then Some(MetrePerSecond)
    else if Contains(low, "(m³/h)") then Some(CubicMetrePerHour)
    else if Contains(low, "(pa)") then Some(Pascal)
    else None
  }

  /**
   * `input_to_standard`: a value entered under a metric label, in standard
   * units; a label naming no metric unit leaves the value as entered.
   */
  function InputToStandard(caption: string, entered: real): (r: real)
    ensures InputUnit(caption).Some? ==> ToMetric(InputUnit(caption).value, r) == entered
    ensures InputUnit(caption).None? ==> r == entered
  {
    match InputUnit(caption)
    case Some(u) => ToStandard(u, entered)
    case None => entered
  }

  lemma LowerCharIdempotent(c: char)
    ensures LowerChar(LowerChar(c)) == LowerChar(c)
  {
  }

  lemma LowerIdempotent(s: string)
    ensures Lower(Lower(s)) == Lower(s)
  {
    forall i | 0 <= i < |s| ensures Lower(Lower(s))[i] == Lower(s)[i] {
      LowerCharIdempotent(s[i]);
    }
  }

  /** The unit tag is matched whatever the label's letter case. */
  lemma InputCaseInsensitive(caption: string, entered: real)
    ensures InputToStandard(Lower(caption), entered) == InputToStandard(caption, entered)
  {
    LowerIdempotent(caption);
  }

  // ---------------------------------------------------------------------
  // Display of results

  /** A result value: absent, a number, or a text such as "N/A". */
  datatype Value = NoValue | Number(x: real) | Str(s: string)

  /** The length-like words that make a label's `(in)` or `(ft)` convert. */
  predicate NamesLength(low: string) {
    Contains(low, "diameter") || Contains(low, "length") || Contains(low, "thickness") ||
    Contains(low, "width") || Contains(low, "height")
  }

  predicate VelocityRule(low: string) {
    Contains(low, "velocity") && (Contains(low, "(ft/min)") || Contains(low, "(ft/s)"))
  }

  predicate PressureRule(low: string) {
    Contains(low, "pressure") && Contains(low, "(in w.c.)")
  }

  predicate LengthRule(low: string) {
    NamesLength(low) && (Contains(low, "(in)") || Contains(low, "(ft)"))
  }

  predicate FlowRule(low: string) {
    (Contains(low, "flow") || Contains(low, "cfm")) && Contains(low, "(cfm)")
  }

  /** Some rule converts results under this label. */
  predicate Converts(caption: string) {
    var low := Lower(caption);
    VelocityRule(low) || PressureRule(low) || LengthRule(low) || FlowRule(low)
  }

  /**
   * The metric value of a numeric result. The rules are tried in turn
   * (velocity, pressure, length, flow); each one that applies converts the
   * standard value afresh, so the last applying rule decides the value.
   */
  function MetricValue(caption: string, x: real): (v: real)
    ensures !Converts(caption) ==> v == x
  {
    var low := Lower(caption);
    var v1 :=
      if Contains(low, "velocity") && Contains(low, "(ft/min)") then x * M_PER_S_PER_FTMIN
      else if Contains(low, "velocity") && Contains(low, "(ft/s)") then x / FT_PER_M
      else x;
    var v2 := if PressureRule(low) then x * PA_PER_INWC else v1;
    var v3 :=
      if NamesLength(low) && Contains(low, "(in)") then x * MM_PER_IN
      else if NamesLength(low) && Contains(low, "(ft)") then x / FT_PER_M
      else v2;
    if FlowRule(low) then x * CFM_PER_M3HR else v3
  }

  /**
   * The metric label of a numeric result: each applying rule rewrites its
   * tag in the label as left by the previous ones.
   */
  function MetricLabel(caption: string): (r: string)
    ensures !Converts(caption) ==> r == caption
  {
    var low := Lower(caption);
    var l1 :=
      if Contains(low, "velocity") && Contains(low, "(ft/min)") then Replace(caption, "(ft/min)", "(m/s)")
      else if Contains(low, "velocity") && Contains(low, "(ft/s)") then Replace(caption, "(ft/s)", "(m/s)")
      else caption;
    var l2 := if PressureRule(low) then Replace(l1, "(in w.c.)", "(Pa)") else l1;
    var l3 :=
      if NamesLength(low) && Contains(low, "(in)") then Replace(l2, "(in)", "(mm)")
      else if NamesLength(low) && Contains(low, "(ft)") then Replace(l2, "(ft)", "(m)")
      else l2;
    if FlowRule(low) then Replace(l3, "(cfm)", "(m³/h)") else l3
  }

  /**
   * `get_display_label`: an empty label stays empty, standard mode keeps
   * the label, metric mode rewrites every standard tag to its metric one,
   * `(in w.c.)` before `(in)`.
   */
  function DisplayLabel(caption: string, metric: bool): (r: string)
    ensures caption == "" ==> r == ""
    ensures !metric ==> r == caption
    ensures '(' !in caption ==> r == caption
  {
    if caption == "" || !metric then caption
    else
      NoTagUntouched(caption, "(in w.c.)", "(Pa)");
      var a := Replace(caption, "(in w.c.)", "(Pa)");
      NoTagUntouched(a, "(in)", "(mm)");
      var b := Replace(a, "(in)", "(mm)");
      NoTagUntouched(b, "(ft/min)", "(m/s)");
      var c := Replace(b, "(ft/min)", "(m/s)");
      NoTagUntouched(c, "(ft/s)", "(m/s)");
      var d := Replace(c, "(ft/s)", "(m/s)");
      NoTagUntouched(d, "(cfm)", "(m³/h)");
      var e := Replace(d, "(cfm)", "(m³/h)");
      NoTagUntouched(e, "(ft)", "(m)");
      Replace(e, "(ft)", "(m)")
  }

  /** A text without `(` holds no tag, so replacing a tag leaves it as it is. */
  lemma NoTagUntouched(s: string, pat: string, rep: string)
    requires |pat| > 0 && pat[0] == '('
    ensures '(' !in s ==> Replace(s, pat, rep) == s
  {
    if '(' !in s {
      ContainsPastPrefix(s, [], pat);
      assert s + [] == s;
    }
  }

  // ---------------------------------------------------------------------
  // Three-decimal rendering

  function Abs(x: real): (a: real)
    ensures a >= 0.0 && (a == x || a == -x)
  {
    if x < 0.0 then -x else x
  }

  /** The number of thousandths `f"{x:.3f}"` shows, sign apart. */
  function Thousandths(x: real): (m: nat)
    ensures -0.5 <= m as real - Abs(x) * 1000.0 <= 0.5
  {
    Numeric.RoundHalfEven(Abs(x) * 1000.0)
  }

  /** Three decimal digits, zero-padded. */
  function ThreeDigits(k: nat): (s: string)
    requires k < 1000
    ensures |s| == 3 && forall i :: 0 <= i < 3 ==> '0' <= s[i] <= '9'
  {
    [DigitChar(k / 100), DigitChar(k / 10 % 10), DigitChar(k % 10)]
  }

  /** `f"{x:.3f}"`: sign, whole part, point and three decimals of the rounded value. */
  function Fixed3(x: real): (s: string)
    ensures |s| >= 5 && s[|s| - 4] == '.'
    ensures forall i :: |s| - 3 <= i < |s| ==> '0' <= s[i] <= '9'
    ensures s[0] == '-' <==> x < 0.0
  {
    var m := Thousandths(x);
    var body := NatToString(m / 1000) + "." + ThreeDigits(m % 1000);
    if x < 0.0 then "-" + body else body
  }

  /** A whole number of thousandths is shown exactly. */
  lemma Fixed3Exact(k: nat)
    ensures Fixed3(k as real / 1000.0) == NatToString(k / 1000) + "." + ThreeDigits(k % 1000)
  {
    assert Abs(k as real / 1000.0) * 1000.0 == k as real;
    assert (k as real).Floor == k;
  }

  /**
   * `format_output_for_display`: the label and text shown for a result. An
   * absent or "N/A" result shows "N/A" under its display label; standard
   * mode shows the label as given and a number to three decimals; metric
   * mode converts. A text result under a converting label fails, the
   * converter multiplying the text by a factor (a TypeError, shown as None).
   */
  function FormatOutput(caption: string, value: Value, metric: bool): (r: Option<(string, string)>)
    ensures r.None? <==> metric && value.Str? && value.s != "N/A" && Converts(caption)
    ensures value.NoValue? || value == Str("N/A") ==> r == Some((DisplayLabel(caption, metric), "N/A"))
    ensures !metric && value.Number? ==> r == Some((caption, Fixed3(value.x)))
    ensures metric && value.Number? ==>
      r == Some((MetricLabel(caption), Fixed3(MetricValue(caption, value.x))))
    ensures value.Str? && value.s != "N/A" && r.Some? ==> r.value == (caption, value.s)
  {
    if value.NoValue? || value == Str("N/A") then Some((DisplayLabel(caption, metric), "N/A"))
    else if !metric then
      Some((caption, if value.Number? then Fixed3(value.x) else value.s))
    else if value.Number? then
      Some((MetricLabel(caption), Fixed3(MetricValue(caption, value.x))))
    else if Converts(caption) then None
    else Some((caption, value.s))
  }

  // ---------------------------------------------------------------------
  // Round trips over the program's labels: a name without `(`, a space, a tag

  /** The word that makes the display rule for `u` apply to a label. */
  predicate RuleWord(u: MetricUnit, low: string) {
    match u
    case Millimetre => NamesLength(low)
    case MetrePerSecond => Contains(low, "velocity")
    case CubicMetrePerHour => Contains(low, "flow") || Contains(low, "cfm")
    case Pascal => Contains(low, "pressure")
  }

  lemma LowerKeepsParenOut(name: string)
    requires '(' !in name
    ensures '(' !in Lower(name)
  {
  }

  /** Past a name without `(`, a tag occurs in a label only inside its suffix. */
  lemma TaggedContains(name: string, suffix: string, t: string)
    requires '(' !in name && |t| > 0 && t[0] == '('
    ensures Contains(Lower(name + suffix), t) <==> Contains(Lower(suffix), t)
  {
    LowerAppend(name, suffix);
    LowerKeepsParenOut(name);
    ContainsPastPrefix(Lower(name), Lower(suffix), t);
  }

  /** Past a name without `(`, a word found in the name is found in the label. */
  lemma NamedContains(name: string, suffix: string, w: string)
    requires Contains(Lower(name), w)
    ensures Contains(Lower(name + suffix), w)
  {
    LowerAppend(name, suffix);
    ContainsExtend(Lower(name), Lower(suffix), w);
  }

  /**
   * Of the six tags the display rules look for, `s` holds exactly the
   * standard tag of `u`.
   */
  predicate HoldsOnly(s: string, u: MetricUnit) {
    (Contains(s, "(ft/min)") <==> u == MetrePerSecond) && !Contains(s, "(ft/s)") &&
    (Contains(s, "(in w.c.)") <==> u == Pascal) && (Contains(s, "(in)") <==> u == Millimetre) &&
    !Contains(s, "(ft)") && (Contains(s, "(cfm)") <==> u == CubicMetrePerHour)
  }

  lemma InchSuffix()
    ensures HoldsOnly(" " + StandardTag(Millimetre), Millimetre)
  {
    assert " " + StandardTag(Millimetre) == " (in)";
    ContainsSuffix(" ", "(in)");
    MissingCharNotContained(" (in)", "(ft/min)", 'f');
    MissingCharNotContained(" (in)", "(ft/s)", 'f');
    MissingCharNotContained(" (in)", "(in w.c.)", 'w');
    MissingCharNotContained(" (in)", "(ft)", 'f');
    MissingCharNotContained(" (in)", "(cfm)", 'c');
  }

  lemma FeetPerMinuteSuffixLacksSeconds()
    ensures !Contains(" (ft/min)", "(ft/s)")
  {
    MissingCharNotContained(" (ft/min)", "(ft/s)", 's');
  }

  lemma FeetPerMinuteSuffixLacksOthers()
    ensures !Contains(" (ft/min)", "(in w.c.)") && !Contains(" (ft/min)", "(cfm)")
  {
    MissingCharNotContained(" (ft/min)", "(in w.c.)", 'w');
    MissingCharNotContained(" (ft/min)", "(cfm)", 'c');
  }

  lemma FeetPerMinuteSuffixLacksShort(s: string)
    requires s == " (ft/min)"
    ensures !Contains(s, "(in)") && !Contains(s, "(ft)")
  {
    OpenedOnceNotContained(s, "(in)", 0);
    OpenedOnceNotContained(s, "(ft)", 2);
  }

  lemma FeetPerMinuteSuffix()
    ensures HoldsOnly(" " + StandardTag(MetrePerSecond), MetrePerSecond)
  {
    assert " " + StandardTag(MetrePerSecond) == " (ft/min)";
    ContainsSuffix(" ", "(ft/min)");
    FeetPerMinuteSuffixLacksSeconds();
    FeetPerMinuteSuffixLacksOthers();
    FeetPerMinuteSuffixLacksShort(" (ft/min)");
  }

  lemma CfmSuffix()
    ensures HoldsOnly(" " + StandardTag(CubicMetrePerHour), CubicMetrePerHour)
  {
    assert " " + StandardTag(CubicMetrePerHour) == " (cfm)";
    ContainsSuffix(" ", "(cfm)");
    MissingCharNotContained(" (cfm)", "(ft/min)", 't');
    MissingCharNotContained(" (cfm)", "(ft/s)", 't');
    MissingCharNotContained(" (cfm)", "(in w.c.)", 'i');
    MissingCharNotContained(" (cfm)", "(in)", 'i');
    MissingCharNotContained(" (cfm)", "(ft)", 't');
  }

  /** `(in)` is not found inside `(in w.c.)`, so neither rewriting disturbs the other. */
  lemma InchNotInWaterColumn(s: string)
    requires s == " (in w.c.)"
    ensures !Contains(s, "(in)")
  {
    OpenedOnceNotContained(s, "(in)", 2);
  }

  lemma WaterColumnSuffix()
    ensures HoldsOnly(" " + StandardTag(Pascal), Pascal)
  {
    assert " " + StandardTag(Pascal) == " (in w.c.)";
    ContainsSuffix(" ", "(in w.c.)");
    MissingCharNotContained(" (in w.c.)", "(ft/min)", 'f');
    MissingCharNotContained(" (in w.c.)", "(ft/s)", 'f');
    MissingCharNotContained(" (in w.c.)", "(ft)", 'f');
    MissingCharNotContained(" (in w.c.)", "(cfm)", 'f');
    InchNotInWaterColumn(" (in w.c.)");
  }

  lemma ShownSuffixLower(u: MetricUnit)
    ensures Lower(" " + StandardTag(u)) == " " + StandardTag(u)
  {
    match u
    case Millimetre => assert Lower(" (in)") == " (in)";
    case MetrePerSecond => assert Lower(" (ft/min)") == " (ft/min)";
    case CubicMetrePerHour => assert Lower(" (cfm)") == " (cfm)";
    case Pascal => assert Lower(" (in w.c.)") == " (in w.c.)";
  }

  /** A standard label's suffix holds its own tag and no other the rules look for. */
  lemma ShownSuffixTags(u: MetricUnit)
    ensures HoldsOnly(" " + StandardTag(u), u)
  {
    match u
    case Millimetre => InchSuffix();
    case MetrePerSecond => FeetPerMinuteSuffix();
    case CubicMetrePerHour => CfmSuffix();
    case Pascal => WaterColumnSuffix();
  }

  /** `u`'s tag is the first entry tag `s` holds. */
  predicate FirstEntryTag(s: string, u: MetricUnit) {
    Contains(s, MetricTag(u)) && forall v :: Rank(v) < Rank(u) ==> !Contains(s, MetricTag(v))
  }

  lemma MetrePerSecondFirst(s: string)
    requires s == " (m/s)"
    ensures FirstEntryTag(s, MetrePerSecond)
  {
    ContainsSuffix(" ", "(m/s)");
    OpenedOnceNotContained(s, "(mm)", 1);
  }

  lemma CubicMetrePerHourFirst(s: string)
    requires s == " (m³/h)"
    ensures FirstEntryTag(s, CubicMetrePerHour)
  {
    ContainsSuffix(" ", "(m³/h)");
    OpenedOnceNotContained(s, "(mm)", 1);
    MissingCharNotContained(s, "(m/s)", 's');
  }

  lemma PascalFirst(s: string)
    requires s == " (pa)"
    ensures FirstEntryTag(s, Pascal)
  {
    ContainsSuffix(" ", "(pa)");
    MissingCharNotContained(s, "(mm)", 'm');
    MissingCharNotContained(s, "(m/s)", 'm');
    MissingCharNotContained(s, "(m³/h)", 'm');
  }

  lemma MillimetreFirst(s: string)
    requires s == " (mm)"
    ensures FirstEntryTag(s, Millimetre)
  {
    ContainsSuffix(" ", "(mm)");
  }

  /** A metric label's suffix, lower-cased, is the tag the entry side looks for. */
  lemma TypedSuffixLower(u: MetricUnit)
    ensures Lower(" " + DisplayTag(u)) == " " + MetricTag(u)
  {
    match u
    case Millimetre => assert Lower(" (mm)") == " (mm)";
    case MetrePerSecond => assert Lower(" (m/s)") == " (m/s)";
    case CubicMetrePerHour => assert Lower(" (m³/h)") == " (m³/h)";
    case Pascal => assert Lower(" (Pa)") == " (pa)";
  }

  /** A metric label's suffix names its unit first among the entry tags. */
  lemma TypedSuffixTags(u: MetricUnit)
    ensures FirstEntryTag(" " + MetricTag(u), u)
  {
    var s := " " + MetricTag(u);
    match u
    case Millimetre => MillimetreFirst(s);
    case MetrePerSecond => MetrePerSecondFirst(s);
    case CubicMetrePerHour => CubicMetrePerHourFirst(s);
    case Pascal => PascalFirst(s);
  }

  /** Past a name without `(`, the label holds the rule tags its suffix holds. */
  lemma SuffixHolds(name: string, shown: string, u: MetricUnit)
    requires '(' !in name && HoldsOnly(Lower(shown), u)
    ensures HoldsOnly(Lower(name + shown), u)
  {
    TaggedContains(name, shown, "(ft/min)");
    TaggedContains(name, shown, "(ft/s)");
    TaggedContains(name, shown, "(in w.c.)");
    TaggedContains(name, shown, "(in)");
    TaggedContains(name, shown, "(ft)");
    TaggedContains(name, shown, "(cfm)");
  }

  /** Rewriting the tag of a label of the program's form swaps that tag alone. */
  lemma TagRewrite(name: string, tag: string, rep: string)
    requires '(' !in name && |tag| > 0 && tag[0] == '('
    ensures Replace(name + " " + tag, tag, rep) == name + " " + rep
  {
    TaggedReplace(name + " ", tag, tag, rep);
    ReplaceWhole(tag, rep);
  }

  /** The words of the name are found in the whole label. */
  lemma RuleWordKept(u: MetricUnit, name: string, shown: string)
    requires RuleWord(u, Lower(name))
    ensures RuleWord(u, Lower(name + shown))
  {
    match u
    case Millimetre =>
      forall w | w in ["diameter", "length", "thickness", "width", "height"] && Contains(Lower(name), w)
        ensures Contains(Lower(name + shown), w)
      {
        NamedContains(name, shown, w);
      }
    case MetrePerSecond =>
      NamedContains(name, shown, "velocity");
    case CubicMetrePerHour =>
      if Contains(Lower(name), "flow") { NamedContains(name, shown, "flow"); }
      else { NamedContains(name, shown, "cfm"); }
    case Pascal =>
      NamedContains(name, shown, "pressure");
  }

  /** The rule for `u` alone applies to a label naming its word and holding its tag alone. */
  predicate RuleApplies(u: MetricUnit, caption: string) {
    RuleWord(u, Lower(caption)) && HoldsOnly(Lower(caption), u)
  }

  /** The display of a label the rule for `u` alone applies to. */
  predicate ShownBy(u: MetricUnit, caption: string, x: real) {
    MetricValue(caption, x) == ToMetric(u, x) && MetricLabel(caption) == Replace(caption, StandardTag(u), DisplayTag(u))
  }

  lemma ShownByIntro(u: MetricUnit, caption: string, x: real, y: real, tag: string, rep: string)
    requires y == ToMetric(u, x) && tag == StandardTag(u) && rep == DisplayTag(u)
    requires MetricValue(caption, x) == y && MetricLabel(caption) == Replace(caption, tag, rep)
    ensures ShownBy(u, caption, x)
  {
  }

  lemma InchRule(caption: string, x: real)
    requires RuleApplies(Millimetre, caption)
    ensures ShownBy(Millimetre, caption, x)
  {
    var low := Lower(caption);
    assert NamesLength(low) && Contains(low, "(in)") && !Contains(low, "(ft/min)") && !Contains(low, "(ft/s)");
    assert !Contains(low, "(in w.c.)") && !Contains(low, "(cfm)");
    assert MetricValue(caption, x) == x * MM_PER_IN;
    assert MetricLabel(caption) == Replace(caption, "(in)", "(mm)");
    ShownByIntro(Millimetre, caption, x, x * MM_PER_IN, "(in)", "(mm)");
  }

  lemma FeetPerMinuteRule(caption: string, x: real)
    requires RuleApplies(MetrePerSecond, caption)
    ensures ShownBy(MetrePerSecond, caption, x)
  {
    var low := Lower(caption);
    assert Contains(low, "velocity") && Contains(low, "(ft/min)") && !Contains(low, "(in)") && !Contains(low, "(ft)");
    assert !Contains(low, "(in w.c.)") && !Contains(low, "(cfm)");
    assert MetricValue(caption, x) == x * M_PER_S_PER_FTMIN;
    assert MetricLabel(caption) == Replace(caption, "(ft/min)", "(m/s)");
    ShownByIntro(MetrePerSecond, caption, x, x * M_PER_S_PER_FTMIN, "(ft/min)", "(m/s)");
  }

  lemma CfmRule(caption: string, x: real)
    requires RuleApplies(CubicMetrePerHour, caption)
    ensures ShownBy(CubicMetrePerHour, caption, x)
  {
    var low := Lower(caption);
    assert FlowRule(low) && !Contains(low, "(in)") && !Contains(low, "(ft)");
    assert !Contains(low, "(in w.c.)") && !Contains(low, "(ft/min)") && !Contains(low, "(ft/s)");
    assert MetricValue(caption, x) == x * CFM_PER_M3HR;
    assert MetricLabel(caption) == Replace(caption, "(cfm)", "(m³/h)");
    ShownByIntro(CubicMetrePerHour, caption, x, x * CFM_PER_M3HR, "(cfm)", "(m³/h)");
  }

  lemma WaterColumnRule(caption: string, x: real)
    requires RuleApplies(Pascal, caption)
    ensures ShownBy(Pascal, caption, x)
  {
    var low := Lower(caption);
    assert PressureRule(low) && !Contains(low, "(in)") && !Contains(low, "(ft)");
    assert !Contains(low, "(cfm)") && !Contains(low, "(ft/min)") && !Contains(low, "(ft/s)");
    assert MetricValue(caption, x) == x * PA_PER_INWC;
    assert MetricLabel(caption) == Replace(caption, "(in w.c.)", "(Pa)");
    ShownByIntro(Pascal, caption, x, x * PA_PER_INWC, "(in w.c.)", "(Pa)");
  }

  lemma RuleOf(u: MetricUnit, caption: string, x: real)
    requires RuleApplies(u, caption)
    ensures ShownBy(u, caption, x)
  {
    match u
    case Millimetre => InchRule(caption, x);
    case MetrePerSecond => FeetPerMinuteRule(caption, x);
    case CubicMetrePerHour => CfmRule(caption, x);
    case Pascal => WaterColumnRule(caption, x);
  }

  /** A standard result under a label of the program's form is shown in the metric unit. */
  lemma DisplayOfTagged(u: MetricUnit, name: string, x: real)
    requires '(' !in name && RuleWord(u, Lower(name))
    ensures MetricValue(name + " " + StandardTag(u), x) == ToMetric(u, x)
    ensures MetricLabel(name + " " + StandardTag(u)) == name + " " + DisplayTag(u)
  {
    var caption := name + " " + StandardTag(u);
    assert caption == name + (" " + StandardTag(u));
    ShownSuffixLower(u);
    ShownSuffixTags(u);
    SuffixHolds(name, " " + StandardTag(u), u);
    RuleWordKept(u, name, " " + StandardTag(u));
    TagRewrite(name, StandardTag(u), DisplayTag(u));
    RuleOf(u, caption, x);
  }

  /** A metric label of the program's form names its own unit first among the entry tags. */
  lemma TypedFirst(u: MetricUnit, name: string)
    requires '(' !in name
    ensures FirstEntryTag(Lower(name + " " + DisplayTag(u)), u)
  {
    var typed := " " + DisplayTag(u);
    assert name + " " + DisplayTag(u) == name + typed;
    TypedSuffixLower(u);
    TypedSuffixTags(u);
    TaggedContains(name, typed, MetricTag(u));
    forall v | Rank(v) < Rank(u) ensures !Contains(Lower(name + typed), MetricTag(v)) {
      TaggedContains(name, typed, MetricTag(v));
    }
  }

  /** A value typed under a metric label of the program's form is divided by its unit's factor. */
  lemma EnterOfTagged(u: MetricUnit, name: string, y: real)
    requires '(' !in name
    ensures InputToStandard(name + " " + DisplayTag(u), ToMetric(u, y)) == y
  {
    TypedFirst(u, name);
    InputUnitOfFirst(name + " " + DisplayTag(u), u);
    ToMetricInjective(u, InputToStandard(name + " " + DisplayTag(u), ToMetric(u, y)), y);
  }

  lemma InputUnitOfFirst(caption: string, u: MetricUnit)
    requires FirstEntryTag(Lower(caption), u)
    ensures InputUnit(caption) == Some(u)
  {
  }

  /** Past a name without `(`, the display label rewrites the suffix alone. */
  lemma LabelPastName(name: string, suffix: string, caption: string, shown: string)
    requires '(' !in name && suffix != [] && caption == name + suffix && DisplayLabel(suffix, true) == shown
    ensures DisplayLabel(caption, true) == name + shown
  {
    var a := Replace(suffix, "(in w.c.)", "(Pa)");
    TaggedReplace(name, suffix, "(in w.c.)", "(Pa)");
    var b := Replace(a, "(in)", "(mm)");
    TaggedReplace(name, a, "(in)", "(mm)");
    var c := Replace(b, "(ft/min)", "(m/s)");
    TaggedReplace(name, b, "(ft/min)", "(m/s)");
    var d := Replace(c, "(ft/s)", "(m/s)");
    TaggedReplace(name, c, "(ft/s)", "(m/s)");
    var e := Replace(d, "(cfm)", "(m³/h)");
    TaggedReplace(name, d, "(cfm)", "(m³/h)");
    TaggedReplace(name, e, "(ft)", "(m)");
  }

  /** A replacement whose pattern is absent changes nothing. */
  lemma ReplaceAbsent(s: string, pat: string, rep: string, c: char)
    requires |pat| > 0 && c in pat && c !in s
    ensures Replace(s, pat, rep) == s
  {
    MissingCharNotContained(s, pat, c);
  }


  /** The display label as the six rewritings in turn. */
  lemma LabelSteps(s: string, a: string, b: string, c: string, d: string, e: string, r: string)
    requires s != "" && a == Replace(s, "(in w.c.)", "(Pa)") && b == Replace(a, "(in)", "(mm)")
    requires c == Replace(b, "(ft/min)", "(m/s)") && d == Replace(c, "(ft/s)", "(m/s)")
    requires e == Replace(d, "(cfm)", "(m³/h)") && r == Replace(e, "(ft)", "(m)")
    ensures DisplayLabel(s, true) == r
  {
  }

  /** Rewriting the only tag of a bare suffix. */
  lemma SuffixRewrite(s: string, tag: string, rep: string)
    requires |tag| > 0 && tag[0] == '(' && s == " " + tag
    ensures Replace(s, tag, rep) == " " + rep
  {
    TagRewrite("", tag, rep);
    assert "" + " " + tag == s;
    assert "" + " " + rep == " " + rep;
  }

  lemma InchLabel(s: string)
    requires s == " " + StandardTag(Millimetre)
    ensures DisplayLabel(s, true) == " " + DisplayTag(Millimetre)
  {
    assert s == " (in)" && " " + DisplayTag(Millimetre) == " (mm)";
    ReplaceAbsent(s, "(in w.c.)", "(Pa)", 'w');
    SuffixRewrite(s, "(in)", "(mm)");
    var t := " (mm)";
    ReplaceAbsent(t, "(ft/min)", "(m/s)", 'f');
    ReplaceAbsent(t, "(ft/s)", "(m/s)", 'f');
    ReplaceAbsent(t, "(cfm)", "(m³/h)", 'c');
    ReplaceAbsent(t, "(ft)", "(m)", 'f');
    LabelSteps(s, s, t, t, t, t, t);
  }

  lemma FeetPerMinuteLabel(s: string)
    requires s == " " + StandardTag(MetrePerSecond)
    ensures DisplayLabel(s, true) == " " + DisplayTag(MetrePerSecond)
  {
    assert s == " (ft/min)" && " " + DisplayTag(MetrePerSecond) == " (m/s)";
    var t := " (m/s)";
    FeetPerMinuteLabelKept(s);
    FeetPerMinuteRewrite(s, t);
    MetrePerSecondLabelTail(t);
    LabelSteps(s, s, s, t, t, t, t);
  }

  lemma FeetPerMinuteRewrite(s: string, t: string)
    requires s == " (ft/min)" && t == " (m/s)"
    ensures Replace(s, "(ft/min)", "(m/s)") == t
  {
    SuffixRewrite(s, "(ft/min)", "(m/s)");
  }

  lemma FeetPerMinuteLabelKept(s: string)
    requires s == " (ft/min)"
    ensures Replace(s, "(in w.c.)", "(Pa)") == s && Replace(s, "(in)", "(mm)") == s
  {
    ReplaceAbsent(s, "(in w.c.)", "(Pa)", 'w');
    OpenedOnceNotContained(s, "(in)", 0);
  }

  lemma MetrePerSecondLabelTail(t: string)
    requires t == " (m/s)"
    ensures Replace(t, "(ft/s)", "(m/s)") == t && Replace(t, "(cfm)", "(m³/h)") == t && Replace(t, "(ft)", "(m)") == t
  {
    ReplaceAbsent(t, "(ft/s)", "(m/s)", 'f');
    ReplaceAbsent(t, "(cfm)", "(m³/h)", 'c');
    ReplaceAbsent(t, "(ft)", "(m)", 'f');
  }

  lemma CfmLabel(s: string)
    requires s == " " + StandardTag(CubicMetrePerHour)
    ensures DisplayLabel(s, true) == " " + DisplayTag(CubicMetrePerHour)
  {
    assert s == " (cfm)" && " " + DisplayTag(CubicMetrePerHour) == " (m³/h)";
    ReplaceAbsent(s, "(in w.c.)", "(Pa)", 'w');
    ReplaceAbsent(s, "(in)", "(mm)", 'i');
    ReplaceAbsent(s, "(ft/min)", "(m/s)", 't');
    ReplaceAbsent(s, "(ft/s)", "(m/s)", 't');
    SuffixRewrite(s, "(cfm)", "(m³/h)");
    var t := " (m³/h)";
    ReplaceAbsent(t, "(ft)", "(m)", 'f');
    LabelSteps(s, s, s, s, s, t, t);
  }

  lemma WaterColumnLabel(s: string)
    requires s == " " + StandardTag(Pascal)
    ensures DisplayLabel(s, true) == " " + DisplayTag(Pascal)
  {
    assert s == " (in w.c.)" && " " + DisplayTag(Pascal) == " (Pa)";
    SuffixRewrite(s, "(in w.c.)", "(Pa)");
    var t := " (Pa)";
    ReplaceAbsent(t, "(in)", "(mm)", 'i');
    ReplaceAbsent(t, "(ft/min)", "(m/s)", 'f');
    ReplaceAbsent(t, "(ft/s)", "(m/s)", 'f');
    ReplaceAbsent(t, "(cfm)", "(m³/h)", 'c');
    ReplaceAbsent(t, "(ft)", "(m)", 'f');
    LabelSteps(s, t, t, t, t, t, t);
  }

  lemma SuffixLabel(u: MetricUnit, s: string)
    requires s == " " + StandardTag(u)
    ensures DisplayLabel(s, true) == " " + DisplayTag(u)
  {
    match u
    case Millimetre => InchLabel(s);
    case MetrePerSecond => FeetPerMinuteLabel(s);
    case CubicMetrePerHour => CfmLabel(s);
    case Pascal => WaterColumnLabel(s);
  }

  /**
   * The label an absent result is shown under carries the same metric tag
   * as the label a number is shown under.
   */
  lemma LabelOfTagged(u: MetricUnit, name: string)
    requires '(' !in name
    ensures DisplayLabel(name + " " + StandardTag(u), true) == name + " " + DisplayTag(u)
  {
    var s, shown := " " + StandardTag(u), " " + DisplayTag(u);
    assert name + s == name + " " + StandardTag(u) && name + shown == name + " " + DisplayTag(u);
    LabelOfSuffix(u, name, s, shown);
  }

  lemma LabelOfSuffix(u: MetricUnit, name: string, s: string, shown: string)
    requires '(' !in name && s == " " + StandardTag(u) && shown == " " + DisplayTag(u)
    ensures DisplayLabel(name + s, true) == name + shown
  {
    SuffixLabel(u, s);
    LabelPastName(name, s, name + s, shown);
  }

  /**
   * A standard result shown in metric mode and typed back in is the value
   * it started from: the display factor and the entry factor of each unit
   * are reciprocal.
   */
  lemma DisplayThenEnter(u: MetricUnit, name: string, x: real)
    requires '(' !in name && RuleWord(u, Lower(name))
    ensures var c := name + " " + StandardTag(u); InputToStandard(MetricLabel(c), MetricValue(c, x)) == x
  {
    var c := name + " " + StandardTag(u);
    DisplayOfTagged(u, name, x);
    EnterOfTagged(u, name, x);
    SameEntry(MetricLabel(c), name + " " + DisplayTag(u), MetricValue(c, x), ToMetric(u, x));
  }

  lemma SameEntry(a: string, b: string, va: real, vb: real)
    requires a == b && va == vb
    ensures InputToStandard(a, va) == InputToStandard(b, vb)
  {
  }

  /** Replacing a tag in a label rewrites only its suffix. */
  lemma TaggedReplace(name: string, suffix: string, pat: string, rep: string)
    requires '(' !in name && |pat| > 0 && pat[0] == '('
    ensures Replace(name + suffix, pat, rep) == name + Replace(suffix, pat, rep)
  {
    ReplacePastPrefix(name, suffix, pat, rep);
  }
}
