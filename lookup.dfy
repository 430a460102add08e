/**
 * Table lookups shared by every fitting case: choosing a tabulated value
 * for a computed parameter (floor, ceiling, nearest), choosing rows by
 * position after a stable ascending sort, and resolving several parameters
 * either by successive narrowing or independently over the whole table.
 */
module Lookup {
  import opened Wrappers

  // ---------------------------------------------------------------------
  // Extremes and value policies over a non-empty column

  function Min(s: seq<real>): (m: real)
    requires |s| > 0
    ensures m in s && forall x :: x in s ==> m <= x
  {
    if |s| == 1 then s[0]
    else
      var m := Min(s[1..]);
      assert forall x :: x in s ==> x == s[0] || x in s[1..];
      if s[0] <= m then s[0] else m
  }

  function Max(s: seq<real>): (m: real)
    requires |s| > 0
    ensures m in s && forall x :: x in s ==> x <= m
  {
    if |s| == 1 then s[0]
    else
      var m := Max(s[1..]);
      assert forall x :: x in s ==> x == s[0] || x in s[1..];
      if s[0] >= m then s[0] else m
  }

  /** The values of `s` that are at most `t`, in order. */
  function AtMost(s: seq<real>, t: real): (r: seq<real>)
    ensures |r| <= |s|
    ensures forall x :: x in r <==> x in s && x <= t
  {
    if |s| == 0 then [] else (if s[0] <= t then [s[0]] else []) + AtMost(s[1..], t)
  }

  /** The values of `s` that are at least `t`, in order. */
  function AtLeast(s: seq<real>, t: real): (r: seq<real>)
    ensures |r| <= |s|
    ensures forall x :: x in r <==> x in s && x >= t
  {
    if |s| == 0 then [] else (if s[0] >= t then [s[0]] else []) + AtLeast(s[1..], t)
  }

  /** `v` is the largest value of `s` not above `t`, or the smallest value when none is. */
  ghost predicate IsFloor(s: seq<real>, t: real, v: real) {
    v in s &&
    if exists x :: x in s && x <= t then
      v <= t && forall x :: x in s && x <= t ==> x <= v
    else
      forall x :: x in s ==> v <= x
  }

  /** `v` is the smallest value of `s` not below `t`, or the largest value when none is. */
  ghost predicate IsCeil(s: seq<real>, t: real, v: real) {
    v in s &&
    if exists x :: x in s && x >= t then
      v >= t && forall x :: x in s && x >= t ==> v <= x
    else
      forall x :: x in s ==> x <= v
  }

  /** Floor with the smallest value as default. */
  function Floor(s: seq<real>, t: real): (v: real)
    requires |s| > 0
    ensures IsFloor(s, t, v)
  {
    var below := AtMost(s, t);
    if |below| > 0 then
      assert below[0] in below;
      Max(below)
    else Min(s)
  }

  /** Ceiling with the largest value as default. */
  function Ceil(s: seq<real>, t: real): (v: real)
    requires |s| > 0
    ensures IsCeil(s, t, v)
  {
    var above := AtLeast(s, t);
    if |above| > 0 then
      assert above[0] in above;
      Min(above)
    else Max(s)
  }

  lemma FloorUnique(s: seq<real>, t: real, a: real, b: real)
    requires IsFloor(s, t, a) && IsFloor(s, t, b)
    ensures a == b
  {
  }

  lemma CeilUnique(s: seq<real>, t: real, a: real, b: real)
    requires IsCeil(s, t, a) && IsCeil(s, t, b)
    ensures a == b
  {
  }

  /** Whenever some value lies on each side of `t`, floor and ceiling bracket it. */
  lemma FloorCeilBracket(s: seq<real>, t: real)
    requires exists x :: x in s && x <= t
    requires exists x :: x in s && x >= t
    ensures |s| > 0 && Floor(s, t) <= t <= Ceil(s, t)
  {
    var x :| x in s && x <= t;
  }

  /** A tabulated target is matched exactly by both policies. */
  lemma ExactHit(s: seq<real>, t: real)
    requires t in s
    ensures |s| > 0 && Floor(s, t) == t && Ceil(s, t) == t
  {
  }

  /** Raising the target never lowers the floor nor the ceiling. */
  lemma PoliciesMonotone(s: seq<real>, t1: real, t2: real)
    requires |s| > 0 && t1 <= t2
    ensures Floor(s, t1) <= Floor(s, t2) && Ceil(s, t1) <= Ceil(s, t2)
  {
    var f1, f2 := Floor(s, t1), Floor(s, t2);
    if exists x :: x in s && x <= t1 {
      assert f1 <= t2;
    }
    var c1, c2 := Ceil(s, t1), Ceil(s, t2);
    if exists x :: x in s && x >= t2 {
      assert c2 >= t1;
    }
  }

  /** Absolute difference. */
  function Dist(x: real, t: real): (d: real)
    ensures d >= 0.0 && (d == 0.0 <==> x == t)
    ensures d == x - t || d == t - x
  {
    if x >= t then x - t else t - x
  }

  /** Position of the first value at least distance from `t`. */
  function NearestIndex(s: seq<real>, t: real): (i: nat)
    requires |s| > 0
    ensures i < |s|
    ensures forall j :: 0 <= j < |s| ==> Dist(s[i], t) <= Dist(s[j], t)
    ensures forall j :: 0 <= j < i ==> Dist(s[i], t) < Dist(s[j], t)
    decreases |s|
  {
    if |s| == 1 then 0
    else
      var k := NearestIndex(s[..|s| - 1], t);
      if Dist(s[|s| - 1], t) < Dist(s[k], t) then |s| - 1 else k
  }

  /** `min(s, key=lambda v: abs(v - t))`: ties go to the value met first. */
  function Nearest(s: seq<real>, t: real): (v: real)
    requires |s| > 0
    ensures v in s && forall x :: x in s ==> Dist(v, t) <= Dist(x, t)
    ensures FirstNearest(s, t, v)
  {
    var i := NearestIndex(s, t);
    assert FirstNearest(s, t, s[i]) by {
      assert forall j :: 0 <= j < i ==> Dist(s[i], t) < Dist(s[j], t);
    }
    s[i]
  }

  /** `v` occurs in `s`, and every value met before it is strictly farther from `t`. */
  predicate FirstNearest(s: seq<real>, t: real, v: real) {
    exists i :: 0 <= i < |s| && s[i] == v && forall j :: 0 <= j < i ==> Dist(v, t) < Dist(s[j], t)
  }

  /**
   * The rows whose `key` lies at the least distance from `t`. Every tie is
   * kept, so the rows may carry two values, one on each side of `t`.
   */
  function NearestRows<R(!new)>(rows: seq<R>, key: R -> real, t: real): (s: seq<R>)
    ensures |s| > 0 <==> |rows| > 0
    ensures forall x :: x in s <==> x in rows && forall y :: y in rows ==> Dist(key(x), t) <= Dist(key(y), t)
  {
    if |rows| == 0 then []
    else
      var col := Column(rows, key);
      var d := Dist(Nearest(col, t), t);
      var p := (r: R) => Dist(key(r), t) == d;
      var s := Where(rows, p);
      assert forall y :: y in rows ==> d <= Dist(key(y), t) by {
        forall y | y in rows ensures d <= Dist(key(y), t) {
          var j :| 0 <= j < |rows| && rows[j] == y;
          assert col[j] in col;
        }
      }
      var k :| 0 <= k < |col| && col[k] == Nearest(col, t);
      assert forall x :: x in s ==> x in rows && p(x) by {
        forall x | x in s ensures x in rows && p(x) {
          var i :| 0 <= i < |s| && s[i] == x;
        }
      }
      assert forall x :: x in rows && (forall y :: y in rows ==> Dist(key(x), t) <= Dist(key(y), t)) ==> x in s by {
        forall x | x in rows && (forall y :: y in rows ==> Dist(key(x), t) <= Dist(key(y), t)) ensures x in s {
          var i :| 0 <= i < |rows| && rows[i] == x;
          assert Dist(key(x), t) <= Dist(key(rows[k]), t);
        }
      }
      s
  }

  // ---------------------------------------------------------------------
  // `Series.unique()`: values in order of first appearance

  function Unique(s: seq<real>): (u: seq<real>)
    ensures forall x :: x in u <==> x in s
    ensures |s| > 0 ==> |u| > 0
    decreases |s|
  {
    if |s| == 0 then []
    else
      var u := Unique(s[..|s| - 1]);
      assert forall x :: x in s <==> x in s[..|s| - 1] || x == s[|s| - 1];
      if s[|s| - 1] in u then u else u + [s[|s| - 1]]
  }

  /** Looking a value up among the unique values or the raw column is the same. */
  lemma NearestOfUnique(s: seq<real>, t: real)
    requires |s| > 0
    ensures Nearest(Unique(s), t) == Nearest(s, t)
  {
    NearestIndexOfUnique(s, t);
  }

  /** `NearestOfUnique` on positions: both searches land on the same value. */
  lemma {:induction false} NearestIndexOfUnique(s: seq<real>, t: real)
    requires |s| > 0
    ensures Unique(s)[NearestIndex(Unique(s), t)] == s[NearestIndex(s, t)]
    decreases |s|
  {
    var n := |s| - 1;
    if n > 0 {
      var init := s[..n];
      NearestIndexOfUnique(init, t);
      if s[n] in Unique(init) {
        NearestRepeatedLast(s, t);
      } else {
        NearestNewLast(s, t);
      }
    } else {
      assert Unique(s) == [s[0]];
    }
  }

  /** A last value met before changes neither the unique values nor the nearest pick. */
  lemma {:induction false} NearestRepeatedLast(s: seq<real>, t: real)
    requires |s| > 1 && s[|s| - 1] in Unique(s[..|s| - 1])
    ensures Unique(s) == Unique(s[..|s| - 1])
    ensures s[NearestIndex(s, t)] == s[..|s| - 1][NearestIndex(s[..|s| - 1], t)]
  {
    var n := |s| - 1;
    var init := s[..n];
    var k := NearestIndex(init, t);
    assert s[n] in init;
    var j :| 0 <= j < |init| && init[j] == s[n];
    assert Dist(init[k], t) <= Dist(init[j], t);
    assert init[k] == s[k];
  }

  /** A new last value is appended to the unique values and competes with the same earlier pick. */
  lemma {:induction false} NearestNewLast(s: seq<real>, t: real)
    requires |s| > 1 && s[|s| - 1] !in Unique(s[..|s| - 1])
    requires Unique(s[..|s| - 1])[NearestIndex(Unique(s[..|s| - 1]), t)] == s[..|s| - 1][NearestIndex(s[..|s| - 1], t)]
    ensures Unique(s)[NearestIndex(Unique(s), t)] == s[NearestIndex(s, t)]
  {
    var n := |s| - 1;
    var init := s[..n];
    var u := Unique(init);
    var w := u + [s[n]];
    assert Unique(s) == w;
    assert w[..|w| - 1] == u;
    assert init[NearestIndex(init, t)] == s[NearestIndex(init, t)];
  }

  /** Floor and ceiling depend only on which values occur. */
  lemma SameValuesSamePicks(a: seq<real>, b: seq<real>, t: real)
    requires |a| > 0 && |b| > 0 && forall x :: x in a <==> x in b
    ensures Floor(a, t) == Floor(b, t) && Ceil(a, t) == Ceil(b, t)
  {
    var fa, fb := Floor(a, t), Floor(b, t);
    assert IsFloor(b, t, fa) by {
      assert (exists x :: x in a && x <= t) == (exists x :: x in b && x <= t);
    }
    FloorUnique(b, t, fa, fb);
    var ca, cb := Ceil(a, t), Ceil(b, t);
    assert IsCeil(b, t, ca) by {
      assert (exists x :: x in a && x >= t) == (exists x :: x in b && x >= t);
    }
    CeilUnique(b, t, ca, cb);
  }

  lemma FloorCeilOfUnique(s: seq<real>, t: real)
    requires |s| > 0
    ensures Floor(Unique(s), t) == Floor(s, t) && Ceil(Unique(s), t) == Ceil(s, t)
  {
    SameValuesSamePicks(Unique(s), s, t);
  }

  // ---------------------------------------------------------------------
  // Sort keys: tuples of extended reals, ordered as Python orders tuples

  /** A sort key component; `Inf` is the infinite difference given to a row on the wrong side. */
  datatype Ext = Fin(x: real) | Inf

  predicate ExtLess(a: Ext, b: Ext) {
    match a
    case Fin(x) => (match b case Fin(y) => x < y case Inf => true)
    case Inf => false
  }

  /** Lexicographic order: a proper prefix comes first. */
  predicate LexLess(a: seq<Ext>, b: seq<Ext>)
    decreases |a|
  {
    if |a| == 0 then |b| > 0
    else if |b| == 0 then false
    else ExtLess(a[0], b[0]) || (a[0] == b[0] && LexLess(a[1..], b[1..]))
  }

  lemma {:induction false} LexIrreflexive(a: seq<Ext>)
    ensures !LexLess(a, a)
    decreases |a|
  {
    if |a| > 0 { LexIrreflexive(a[1..]); }
  }

  lemma {:induction false} LexTotal(a: seq<Ext>, b: seq<Ext>)
    ensures a == b || LexLess(a, b) || LexLess(b, a)
    decreases |a|
  {
    if |a| > 0 && |b| > 0 && a[0] == b[0] {
      LexTotal(a[1..], b[1..]);
      if a[1..] == b[1..] {
        assert a == [a[0]] + a[1..] && b == [b[0]] + b[1..];
      }
    }
  }

  lemma {:induction false} LexTransitive(a: seq<Ext>, b: seq<Ext>, c: seq<Ext>)
    requires LexLess(a, b) && LexLess(b, c)
    ensures LexLess(a, c)
    decreases |a|
  {
    if |a| > 0 && a[0] == b[0] && b[0] == c[0] {
      LexTransitive(a[1..], b[1..], c[1..]);
    }
  }

  /** A strict order on keys: irreflexive, transitive and total. */
  lemma LexOrder()
    ensures forall a :: !LexLess(a, a)
    ensures forall a, b :: a == b || LexLess(a, b) || LexLess(b, a)
    ensures forall a, b, c :: LexLess(a, b) && LexLess(b, c) ==> LexLess(a, c)
  {
    forall a { LexIrreflexive(a); }
    forall a, b { LexTotal(a, b); }
    forall a, b, c | LexLess(a, b) && LexLess(b, c) { LexTransitive(a, b, c); }
  }

  /** A one-column real sort key. */
  function ByKey<R>(key: R -> real): R -> seq<Ext> {
    r => [Fin(key(r))]
  }

  lemma ByKeyOrder<R>(key: R -> real, a: R, b: R)
    ensures LexLess(ByKey(key)(a), ByKey(key)(b)) <==> key(a) < key(b)
  {
  }

  /** A two-column real sort key, `sort_values(by=[first, second])`. */
  function ByKeys<R>(first: R -> real, second: R -> real): R -> seq<Ext> {
    r => [Fin(first(r)), Fin(second(r))]
  }

  lemma ByKeysOrder<R>(first: R -> real, second: R -> real, a: R, b: R)
    ensures LexLess(ByKeys(first, second)(a), ByKeys(first, second)(b)) <==>
      first(a) < first(b) || (first(a) == first(b) && second(a) < second(b))
  {
    var ka, kb := ByKeys(first, second)(a), ByKeys(first, second)(b);
    assert ka[1..] == [Fin(second(a))] && kb[1..] == [Fin(second(b))];
    assert ka[1..][1..] == [] && kb[1..][1..] == [];
    assert LexLess(ka[1..], kb[1..]) <==> second(a) < second(b);
  }

  /** Two-component keys compare on the first component, then the second. */
  lemma PairLess(a1: Ext, a2: Ext, b1: Ext, b2: Ext)
    ensures LexLess([a1, a2], [b1, b2]) <==> ExtLess(a1, b1) || (a1 == b1 && ExtLess(a2, b2))
  {
    assert [a1, a2][1..] == [a2] && [b1, b2][1..] == [b2];
    assert [a2][1..] == [] && [b2][1..] == [];
    assert !LexLess([], []);
    assert LexLess([a2], [b2]) <==> ExtLess(a2, b2);
  }

  /** Three-component keys compare component by component. */
  lemma TripleLess(a1: Ext, a2: Ext, a3: Ext, b1: Ext, b2: Ext, b3: Ext)
    ensures LexLess([a1, a2, a3], [b1, b2, b3]) <==>
      ExtLess(a1, b1) || (a1 == b1 && (ExtLess(a2, b2) || (a2 == b2 && ExtLess(a3, b3))))
  {
    assert [a1, a2, a3][1..] == [a2, a3] && [b1, b2, b3][1..] == [b2, b3];
    PairLess(a2, a3, b2, b3);
  }

  /** The one-sided difference `x - t` when `x >= t`, infinite below `t`. */
  function Directional(x: real, t: real): (d: Ext)
    ensures d.Fin? <==> x >= t
    ensures d.Fin? ==> d.x == x - t && d.x >= 0.0
  {
    if x >= t then Fin(x - t) else Inf
  }

  /** A finite one-sided difference is below an infinite one; two finite ones compare as the values. */
  lemma DirectionalLess(x: real, y: real, t: real)
    ensures ExtLess(Directional(x, t), Directional(y, t)) <==> x >= t && (y < t || x < y)
  {
  }

  /** The constant key: every row ties, so only table order matters. */
  function NoKey<R>(): R -> seq<Ext> {
    r => []
  }

  function Everything<R>(): R -> bool {
    r => true
  }

  // ---------------------------------------------------------------------
  // Positional picks after a stable ascending sort

  /** `i` is where a stable ascending sort on `key` puts the first row satisfying `p`. */
  ghost predicate IsFirstLeast<R>(rows: seq<R>, p: R -> bool, key: R -> seq<Ext>, i: int) {
    0 <= i < |rows| && p(rows[i]) &&
    (forall j :: 0 <= j < |rows| && p(rows[j]) ==> !LexLess(key(rows[j]), key(rows[i]))) &&
    (forall j :: 0 <= j < i && p(rows[j]) ==> LexLess(key(rows[i]), key(rows[j])))
  }

  /** `i` is where a stable ascending sort on `key` puts the last row satisfying `p`. */
  ghost predicate IsLastGreatest<R>(rows: seq<R>, p: R -> bool, key: R -> seq<Ext>, i: int) {
    0 <= i < |rows| && p(rows[i]) &&
    (forall j :: 0 <= j < |rows| && p(rows[j]) ==> !LexLess(key(rows[i]), key(rows[j]))) &&
    (forall j :: i < j < |rows| && p(rows[j]) ==> LexLess(key(rows[j]), key(rows[i])))
  }

  /** `rows.sort_values(key)[p].iloc[0]`, or `None` when no row satisfies `p`. */
  function FirstLeast<R>(rows: seq<R>, p: R -> bool, key: R -> seq<Ext>): (r: Option<nat>)
    ensures r.None? <==> forall j :: 0 <= j < |rows| ==> !p(rows[j])
    ensures r.Some? ==> IsFirstLeast(rows, p, key, r.value)
    decreases |rows|
  {
    if |rows| == 0 then None
    else
      var n := |rows| - 1;
      var prev := FirstLeast(rows[..n], p, key);
      LexOrder();
      if !p(rows[n]) then prev
      else if prev.None? then Some(n)
      else if LexLess(key(rows[n]), key(rows[prev.value])) then Some(n)
      else prev
  }

  /** `rows.sort_values(key)[p].iloc[-1]`, or `None` when no row satisfies `p`. */
  function LastGreatest<R>(rows: seq<R>, p: R -> bool, key: R -> seq<Ext>): (r: Option<nat>)
    ensures r.None? <==> forall j :: 0 <= j < |rows| ==> !p(rows[j])
    ensures r.Some? ==> IsLastGreatest(rows, p, key, r.value)
    decreases |rows|
  {
    if |rows| == 0 then None
    else
      var n := |rows| - 1;
      var prev := LastGreatest(rows[..n], p, key);
      LexOrder();
      if !p(rows[n]) then prev
      else if prev.None? then Some(n)
      else if LexLess(key(rows[n]), key(rows[prev.value])) then prev
      else Some(n)
  }

  /** `rows[p].iloc[0]` without sorting: the first row in table order. */
  function First<R>(rows: seq<R>, p: R -> bool): (r: Option<nat>)
    ensures r.None? <==> forall j :: 0 <= j < |rows| ==> !p(rows[j])
    ensures r.Some? ==> r.value < |rows| && p(rows[r.value])
    ensures r.Some? ==> forall j :: 0 <= j < r.value ==> !p(rows[j])
  {
    var r := FirstLeast(rows, p, NoKey());
    assert !LexLess([], []);
    r
  }

  /** `rows[p].iloc[-1]` without sorting: the last row in table order. */
  function Last<R>(rows: seq<R>, p: R -> bool): (r: Option<nat>)
    ensures r.None? <==> forall j :: 0 <= j < |rows| ==> !p(rows[j])
    ensures r.Some? ==> r.value < |rows| && p(rows[r.value])
    ensures r.Some? ==> forall j :: r.value < j < |rows| ==> !p(rows[j])
  {
    var r := LastGreatest(rows, p, NoKey());
    assert !LexLess([], []);
    r
  }

  /** `rows[p].iloc[0]` if any row satisfies `p`, else `rows.iloc[-1]`. */
  function FirstOrLast<R>(rows: seq<R>, p: R -> bool): (i: nat)
    requires |rows| > 0
    ensures i < |rows|
    ensures (exists j :: 0 <= j < |rows| && p(rows[j])) ==> p(rows[i]) && forall j :: 0 <= j < i ==> !p(rows[j])
    ensures (forall j :: 0 <= j < |rows| ==> !p(rows[j])) ==> i == |rows| - 1
  {
    match First(rows, p)
    case Some(i) => i
    case None => |rows| - 1
  }

  /** `rows[p].iloc[-1]` if any row satisfies `p`, else `rows.iloc[0]`. */
  function LastOrFirst<R>(rows: seq<R>, p: R -> bool): (i: nat)
    requires |rows| > 0
    ensures i < |rows|
    ensures (exists j :: 0 <= j < |rows| && p(rows[j])) ==> p(rows[i]) && forall j :: i < j < |rows| ==> !p(rows[j])
    ensures (forall j :: 0 <= j < |rows| ==> !p(rows[j])) ==> i == 0
  {
    match Last(rows, p)
    case Some(i) => i
    case None => 0
  }

  /**
   * `rows.sort_values(key)`, then the first row satisfying `p`, else the
   * last row of the sorted table.
   */
  function SortedFirstOrLast<R>(rows: seq<R>, p: R -> bool, key: R -> seq<Ext>): (i: nat)
    requires |rows| > 0
    ensures i < |rows|
    ensures (exists j :: 0 <= j < |rows| && p(rows[j])) ==> IsFirstLeast(rows, p, key, i)
    ensures (forall j :: 0 <= j < |rows| ==> !p(rows[j])) ==> IsLastGreatest(rows, Everything(), key, i)
  {
    match FirstLeast(rows, p, key)
    case Some(i) => i
    case None => LastGreatest(rows, Everything(), key).value
  }

  /** Read on two real columns: the first sorted row satisfying `p` is least in the first, then in the second. */
  lemma FirstLeastByKeys<R>(rows: seq<R>, p: R -> bool, first: R -> real, second: R -> real, i: int)
    requires IsFirstLeast(rows, p, ByKeys(first, second), i)
    ensures forall j :: 0 <= j < |rows| && p(rows[j]) ==>
      first(rows[i]) < first(rows[j]) || (first(rows[i]) == first(rows[j]) && second(rows[i]) <= second(rows[j]))
  {
    forall j | 0 <= j < |rows| && p(rows[j])
      ensures first(rows[i]) < first(rows[j]) || (first(rows[i]) == first(rows[j]) && second(rows[i]) <= second(rows[j]))
    {
      ByKeysOrder(first, second, rows[j], rows[i]);
    }
  }

  /** Read on two real columns: the last sorted row is greatest in the first, then in the second. */
  lemma LastGreatestByKeys<R>(rows: seq<R>, p: R -> bool, first: R -> real, second: R -> real, i: int)
    requires IsLastGreatest(rows, p, ByKeys(first, second), i)
    ensures forall j :: 0 <= j < |rows| && p(rows[j]) ==>
      first(rows[j]) < first(rows[i]) || (first(rows[j]) == first(rows[i]) && second(rows[j]) <= second(rows[i]))
  {
    forall j | 0 <= j < |rows| && p(rows[j])
      ensures first(rows[j]) < first(rows[i]) || (first(rows[j]) == first(rows[i]) && second(rows[j]) <= second(rows[i]))
    {
      ByKeysOrder(first, second, rows[i], rows[j]);
    }
  }

  // ---------------------------------------------------------------------
  // Columns and row selections

  /** `df[key]` as a sequence of values. */
  function Column<R>(rows: seq<R>, key: R -> real): (col: seq<real>)
    ensures |col| == |rows|
    ensures forall i :: 0 <= i < |rows| ==> col[i] == key(rows[i])
  {
    seq(|rows|, i requires 0 <= i < |rows| => key(rows[i]))
  }

  /** Every value of a column lies between the column's extremes. */
  lemma ColumnBounds<R>(rows: seq<R>, key: R -> real)
    requires |rows| > 0
    ensures forall i :: 0 <= i < |rows| ==> Min(Column(rows, key)) <= key(rows[i]) <= Max(Column(rows, key))
  {
    var col := Column(rows, key);
    forall i | 0 <= i < |rows| ensures Min(col) <= key(rows[i]) <= Max(col) {
      assert col[i] in col;
    }
  }

  /** `df[mask]`: the rows satisfying `p`, in table order. */
  function Where<R>(rows: seq<R>, p: R -> bool): (s: seq<R>)
    ensures |s| <= |rows|
    ensures forall i :: 0 <= i < |s| ==> s[i] in rows && p(s[i])
    ensures forall i :: 0 <= i < |rows| && p(rows[i]) ==> rows[i] in s
    ensures |s| == 0 <==> forall i :: 0 <= i < |rows| ==> !p(rows[i])
  {
    if |rows| == 0 then []
    else (if p(rows[0]) then [rows[0]] else []) + Where(rows[1..], p)
  }

  /** Filtering twice is filtering by the conjunction. */
  lemma {:induction false} WhereWhere<R>(rows: seq<R>, p: R -> bool, q: R -> bool, pq: R -> bool)
    requires forall x :: pq(x) == (p(x) && q(x))
    ensures Where(Where(rows, p), q) == Where(rows, pq)
  {
    if |rows| > 0 {
      WhereWhere(rows[1..], p, q, pq);
      var head := if p(rows[0]) then [rows[0]] else [];
      assert Where(rows, p) == head + Where(rows[1..], p);
      WhereAppend(head, Where(rows[1..], p), q);
    }
  }

  lemma {:induction false} WhereAppend<R>(a: seq<R>, b: seq<R>, p: R -> bool)
    ensures Where(a + b, p) == Where(a, p) + Where(b, p)
  {
    if |a| > 0 {
      assert (a + b)[1..] == a[1..] + b;
      WhereAppend(a[1..], b, p);
    } else {
      assert a + b == b;
    }
  }

  /** A filter every row passes keeps the whole table. */
  lemma {:induction false} WhereAll<R>(rows: seq<R>, p: R -> bool)
    requires forall x :: p(x)
    ensures Where(rows, p) == rows
  {
    if |rows| > 0 {
      WhereAll(rows[1..], p);
      assert rows == [rows[0]] + rows[1..];
    }
  }

  /** Filters that agree on every row keep the same rows. */
  lemma {:induction false} WhereSame<R>(rows: seq<R>, p: R -> bool, q: R -> bool)
    requires forall x :: p(x) == q(x)
    ensures Where(rows, p) == Where(rows, q)
  {
    if |rows| > 0 {
      WhereSame(rows[1..], p, q);
    }
  }

  /** `df[df[key] == v]` */
  function Matching<R>(rows: seq<R>, key: R -> real, v: real): (s: seq<R>)
    ensures |s| <= |rows|
    ensures forall i :: 0 <= i < |s| ==> s[i] in rows && key(s[i]) == v
    ensures forall i :: 0 <= i < |rows| && key(rows[i]) == v ==> rows[i] in s
  {
    if |rows| == 0 then []
    else (if key(rows[0]) == v then [rows[0]] else []) + Matching(rows[1..], key, v)
  }

  /** A value taken from the column selects at least one row. */
  lemma MatchingValue<R>(rows: seq<R>, key: R -> real, v: real)
    requires v in Column(rows, key)
    ensures |Matching(rows, key, v)| > 0
  {
    var i :| 0 <= i < |rows| && Column(rows, key)[i] == v;
    assert rows[i] in Matching(rows, key, v);
  }

  lemma {:induction false} MatchingIsWhere<R>(rows: seq<R>, key: R -> real, v: real, p: R -> bool)
    requires forall x :: p(x) == (key(x) == v)
    ensures Matching(rows, key, v) == Where(rows, p)
  {
    if |rows| > 0 { MatchingIsWhere(rows[1..], key, v, p); }
  }

  /** Selecting rows keeps table order across a split of the table. */
  lemma {:induction false} MatchingAppend<R>(a: seq<R>, b: seq<R>, key: R -> real, v: real)
    ensures Matching(a + b, key, v) == Matching(a, key, v) + Matching(b, key, v)
  {
    if |a| > 0 {
      assert (a + b)[1..] == a[1..] + b;
      MatchingAppend(a[1..], b, key, v);
    } else {
      assert a + b == b;
    }
  }

  /**
   * `min(df[df[key] == v][f].unique(), key=lambda x: abs(x - t))` read back
   * on the table: when the value picked is `f` of row `i`, the first row
   * selected by `v` that carries it, every selected row before `i` lies
   * strictly farther from `t`.
   */
  lemma {:induction false} FirstNearestRow<R>(rows: seq<R>, key: R -> real, v: real, f: R -> real, t: real, i: nat)
    requires i < |rows| && key(rows[i]) == v
    requires forall j :: 0 <= j < i ==> !(key(rows[j]) == v && f(rows[j]) == f(rows[i]))
    requires FirstNearest(Column(Matching(rows, key, v), f), t, f(rows[i]))
    ensures forall j :: 0 <= j < i && key(rows[j]) == v ==> Dist(f(rows[i]), t) < Dist(f(rows[j]), t)
  {
    var before := rows[..i];
    var a := Matching(before, key, v);
    var col := Column(Matching(rows, key, v), f);
    var x := f(rows[i]);
    assert |a| < |col| && forall k :: 0 <= k < |a| ==> col[k] == f(a[k]) by {
      MatchingSplit(rows, key, v, i);
    }
    assert forall k :: 0 <= k < |a| ==> col[k] != x by {
      forall k | 0 <= k < |a| ensures col[k] != x {
        var j :| 0 <= j < |before| && before[j] == a[k];
      }
    }
    PrefixFarther(col, t, x, |a|);
    forall j | 0 <= j < i && key(rows[j]) == v
      ensures Dist(x, t) < Dist(f(rows[j]), t)
    {
      assert before[j] in a;
      var k :| 0 <= k < |a| && a[k] == rows[j];
      assert col[k] == f(rows[j]);
    }
  }

  /** The rows selected before row `i`, which is selected itself, open the selection. */
  lemma {:induction false} MatchingSplit<R>(rows: seq<R>, key: R -> real, v: real, i: nat)
    requires i < |rows| && key(rows[i]) == v
    ensures Matching(rows, key, v) == Matching(rows[..i], key, v) + [rows[i]] + Matching(rows[i + 1..], key, v)
  {
    assert rows == rows[..i] + ([rows[i]] + rows[i + 1..]);
    MatchingAppend(rows[..i], [rows[i]] + rows[i + 1..], key, v);
    MatchingAppend([rows[i]], rows[i + 1..], key, v);
    assert [rows[i]][1..] == [];
  }

  /** When `x` is first met at or after position `m`, everything before `m` is strictly farther from `t`. */
  lemma {:induction false} PrefixFarther(col: seq<real>, t: real, x: real, m: nat)
    requires m <= |col| && FirstNearest(col, t, x)
    requires forall k :: 0 <= k < m ==> col[k] != x
    ensures forall k :: 0 <= k < m ==> Dist(x, t) < Dist(col[k], t)
  {
    var idx :| 0 <= idx < |col| && col[idx] == x && forall j :: 0 <= j < idx ==> Dist(x, t) < Dist(col[j], t);
    assert m <= idx;
  }

  /**
   * `rows` sorted stably on `|key - t|`, first row: the first row of least
   * distance from `t`.
   */
  function NearestRow<R>(rows: seq<R>, key: R -> real, t: real): (i: nat)
    requires |rows| > 0
    ensures i < |rows|
    ensures forall j :: 0 <= j < |rows| ==> Dist(key(rows[i]), t) <= Dist(key(rows[j]), t)
    ensures forall j :: 0 <= j < i ==> Dist(key(rows[i]), t) < Dist(key(rows[j]), t)
  {
    NearestIndex(Column(rows, key), t)
  }

  /**
   * `df[df[key] == floor][0]`: the first row carrying the floor of `t`
   * among the column's values.
   */
  function FirstAtFloor<R>(rows: seq<R>, key: R -> real, t: real): (i: nat)
    requires |rows| > 0
    ensures i < |rows| && key(rows[i]) == Floor(Column(rows, key), t)
    ensures forall j :: 0 <= j < i ==> key(rows[j]) != key(rows[i])
  {
    var col := Column(rows, key);
    var m := Floor(col, t);
    var k :| 0 <= k < |rows| && col[k] == m;
    var p := (r: R) => key(r) == m;
    assert p(rows[k]);
    First(rows, p).value
  }

  // ---------------------------------------------------------------------
  // Sort-and-pick forms of floor and ceiling

  /**
   * Sort on `key`; the last row with `key <= t`, else the first row. The
   * row carries the floor, and among the rows tied at it the sort puts it
   * last when the floor is below `t` and first on the fallback.
   */
  function FloorRow<R>(rows: seq<R>, key: R -> real, t: real): (i: nat)
    requires |rows| > 0
    ensures i < |rows|
    ensures IsFloor(Column(rows, key), t, key(rows[i]))
    ensures key(rows[i]) <= t ==> forall j :: i < j < |rows| ==> key(rows[j]) != key(rows[i])
    ensures key(rows[i]) > t ==> forall j :: 0 <= j < i ==> key(rows[j]) != key(rows[i])
  {
    var col := Column(rows, key);
    match LastGreatest(rows, r => key(r) <= t, ByKey(key))
    case Some(i) =>
      assert col[i] == key(rows[i]);
      assert forall x :: x in col && x <= t ==> x <= key(rows[i]) by {
        forall x | x in col && x <= t ensures x <= key(rows[i]) {
          var j :| 0 <= j < |col| && col[j] == x;
          ByKeyOrder(key, rows[i], rows[j]);
        }
      }
      forall j | i < j < |rows| ensures key(rows[j]) != key(rows[i]) {
        ByKeyOrder(key, rows[j], rows[i]);
      }
      i
    case None =>
      var i := FirstLeast(rows, Everything(), ByKey(key)).value;
      assert col[i] == key(rows[i]);
      assert forall x :: x in col ==> key(rows[i]) <= x by {
        forall x | x in col ensures key(rows[i]) <= x {
          var j :| 0 <= j < |col| && col[j] == x;
          ByKeyOrder(key, rows[j], rows[i]);
        }
      }
      forall j | 0 <= j < i ensures key(rows[j]) != key(rows[i]) {
        ByKeyOrder(key, rows[i], rows[j]);
      }
      i
  }

  /**
   * Sort on `key`; the first row with `key >= t`, else the last row. The
   * row carries the ceiling, and among the rows tied at it the sort puts
   * it first when the ceiling reaches `t` and last on the fallback.
   */
  function CeilRow<R>(rows: seq<R>, key: R -> real, t: real): (i: nat)
    requires |rows| > 0
    ensures i < |rows|
    ensures IsCeil(Column(rows, key), t, key(rows[i]))
    ensures key(rows[i]) >= t ==> forall j :: 0 <= j < i ==> key(rows[j]) != key(rows[i])
    ensures key(rows[i]) < t ==> forall j :: i < j < |rows| ==> key(rows[j]) != key(rows[i])
  {
    var col := Column(rows, key);
    match FirstLeast(rows, r => key(r) >= t, ByKey(key))
    case Some(i) =>
      assert col[i] == key(rows[i]);
      assert forall x :: x in col && x >= t ==> key(rows[i]) <= x by {
        forall x | x in col && x >= t ensures key(rows[i]) <= x {
          var j :| 0 <= j < |col| && col[j] == x;
          ByKeyOrder(key, rows[j], rows[i]);
        }
      }
      forall j | 0 <= j < i ensures key(rows[j]) != key(rows[i]) {
        ByKeyOrder(key, rows[i], rows[j]);
      }
      i
    case None =>
      var i := LastGreatest(rows, Everything(), ByKey(key)).value;
      assert col[i] == key(rows[i]);
      assert forall x :: x in col ==> x <= key(rows[i]) by {
        forall x | x in col ensures x <= key(rows[i]) {
          var j :| 0 <= j < |col| && col[j] == x;
          ByKeyOrder(key, rows[i], rows[j]);
        }
      }
      forall j | i < j < |rows| ensures key(rows[j]) != key(rows[i]) {
        ByKeyOrder(key, rows[j], rows[i]);
      }
      i
  }

  /** A table projected on one key column and C. */
  datatype Entry = Entry(key: real, c: real)

  function EntryKey(e: Entry): real { e.key }

  /** Sort on the key; the entry the floor lookup lands on. */
  function FloorEntry(entries: seq<Entry>, t: real): (i: nat)
    requires |entries| > 0
    ensures AtFloor(entries, t, i)
  {
    var i := FloorRow(entries, EntryKey, t);
    FloorUnique(Column(entries, EntryKey), t, entries[i].key, Floor(Column(entries, EntryKey), t));
    i
  }

  /** Sort on the key; the entry the ceiling lookup lands on. */
  function CeilEntry(entries: seq<Entry>, t: real): (i: nat)
    requires |entries| > 0
    ensures AtCeil(entries, t, i)
  {
    var i := CeilRow(entries, EntryKey, t);
    CeilUnique(Column(entries, EntryKey), t, entries[i].key, Ceil(Column(entries, EntryKey), t));
    i
  }

  /** The C of the row the ceiling lookup lands on. */
  function CeilC(entries: seq<Entry>, t: real): (c: real)
    requires |entries| > 0
    ensures exists i :: AtCeil(entries, t, i) && entries[i].c == c
  {
    entries[CeilEntry(entries, t)].c
  }

  /** Entry `i` has the floor of `t` over the key column. */
  predicate AtFloor(entries: seq<Entry>, t: real, i: int) {
    0 <= i < |entries| && entries[i].key == Floor(Column(entries, EntryKey), t)
  }

  /** Entry `i` has the ceiling of `t` over the key column. */
  predicate AtCeil(entries: seq<Entry>, t: real, i: int) {
    0 <= i < |entries| && entries[i].key == Ceil(Column(entries, EntryKey), t)
  }

  /** The sort-and-pick row of one floor or ceiling field. */
  function PickRow<R>(rows: seq<R>, f: Field<R>): (i: nat)
    requires |rows| > 0 && f.policy != NearestPolicy
    ensures i < |rows| && f.key(rows[i]) == Pick(Column(rows, f.key), f.policy, f.target)
  {
    var col := Column(rows, f.key);
    if f.policy == FloorPolicy then
      var i := FloorRow(rows, f.key, f.target);
      FloorUnique(col, f.target, f.key(rows[i]), Pick(col, f.policy, f.target));
      i
    else
      var i := CeilRow(rows, f.key, f.target);
      CeilUnique(col, f.target, f.key(rows[i]), Pick(col, f.policy, f.target));
      i
  }

  /**
   * Chained sort-and-pick: pick a row for the first field, keep the rows
   * carrying its value, and go on with the next field inside them; the
   * row the last field picks. It belongs to the narrowing-mode result.
   */
  function NarrowRow<R>(rows: seq<R>, fields: seq<Field<R>>): (x: R)
    requires |rows| > 0 && |fields| > 0
    requires forall k :: 0 <= k < |fields| ==> fields[k].policy != NearestPolicy
    ensures x in Narrow(rows, fields)
    decreases |fields|
  {
    var f := fields[0];
    var i := PickRow(rows, f);
    var slice := Matching(rows, f.key, f.key(rows[i]));
    NarrowStep(rows, fields);
    if |fields| == 1 then
      assert Narrow(slice, fields[1..]) == slice;
      rows[i]
    else
      NarrowRow(slice, fields[1..])
  }

  // ---------------------------------------------------------------------
  // Resolving several parameters

  datatype Policy = FloorPolicy | CeilPolicy | NearestPolicy

  function Pick(col: seq<real>, policy: Policy, t: real): (v: real)
    requires |col| > 0
    ensures v in col
    ensures policy == FloorPolicy ==> IsFloor(col, t, v)
    ensures policy == CeilPolicy ==> IsCeil(col, t, v)
    ensures policy == NearestPolicy ==> forall x :: x in col ==> Dist(v, t) <= Dist(x, t)
  {
    match policy
    case FloorPolicy => Floor(col, t)
    case CeilPolicy => Ceil(col, t)
    case NearestPolicy => Nearest(col, t)
  }

  /** A lookup parameter: the column it reads, its policy and the computed target. */
  datatype Field<!R> = Field(key: R -> real, policy: Policy, target: real)

  /**
   * Narrowing mode: each field is resolved among the rows the previous
   * fields left, and only rows carrying the chosen value survive.
   */
  function Narrow<R>(rows: seq<R>, fields: seq<Field<R>>): (s: seq<R>)
    ensures forall x :: x in s ==> x in rows
    ensures |rows| > 0 ==> |s| > 0
    decreases |fields|
  {
    if |fields| == 0 || |rows| == 0 then rows
    else
      var f := fields[0];
      var v := Pick(Column(rows, f.key), f.policy, f.target);
      MatchingValue(rows, f.key, v);
      Narrow(Matching(rows, f.key, v), fields[1..])
  }

  /**
   * A row narrowing mode keeps carries the first field's pick over the
   * whole table, and is kept by the remaining fields inside that pick's rows.
   */
  lemma NarrowPicks<R>(rows: seq<R>, fields: seq<Field<R>>, x: R)
    requires |rows| > 0 && |fields| > 0 && x in Narrow(rows, fields)
    ensures var f := fields[0];
      var v := Pick(Column(rows, f.key), f.policy, f.target);
      f.key(x) == v && x in Narrow(Matching(rows, f.key, v), fields[1..])
  {
    var f := fields[0];
    var v := Pick(Column(rows, f.key), f.policy, f.target);
    NarrowStep(rows, fields);
    var slice := Matching(rows, f.key, v);
    assert x in slice;
  }

  /** The value each field picks over the whole table. */
  function Picks<R>(rows: seq<R>, fields: seq<Field<R>>): (vs: seq<real>)
    requires |rows| > 0
    ensures |vs| == |fields|
    ensures forall i :: 0 <= i < |fields| ==>
      vs[i] == Pick(Column(rows, fields[i].key), fields[i].policy, fields[i].target)
  {
    seq(|fields|, i requires 0 <= i < |fields| =>
      Pick(Column(rows, fields[i].key), fields[i].policy, fields[i].target))
  }

  predicate MatchesAll<R>(r: R, fields: seq<Field<R>>, vs: seq<real>)
    requires |vs| == |fields|
  {
    forall i :: 0 <= i < |fields| ==> fields[i].key(r) == vs[i]
  }

  /**
   * Independent mode: every field is resolved over the whole table, then
   * the rows carrying all the chosen values are kept (possibly none).
   */
  function Independent<R>(rows: seq<R>, fields: seq<Field<R>>): (s: seq<R>)
    ensures forall x :: x in s ==> x in rows
    ensures |rows| > 0 ==> forall i :: 0 <= i < |s| ==> MatchesAll(s[i], fields, Picks(rows, fields))
    ensures |rows| > 0 ==> forall i :: 0 <= i < |rows| && MatchesAll(rows[i], fields, Picks(rows, fields)) ==> rows[i] in s
    ensures |s| == 0 <==> forall i :: 0 <= i < |rows| ==> !MatchesAll(rows[i], fields, Picks(rows, fields))
  {
    if |rows| == 0 then []
    else
      var vs := Picks(rows, fields);
      Where(rows, x => MatchesAll(x, fields, vs))
  }

  /**
   * Floor and ceiling over a sub-column agree with the whole column as
   * soon as the sub-column contains the whole column's pick.
   */
  lemma PickOfSubcolumn(big: seq<real>, small: seq<real>, policy: Policy, t: real)
    requires policy != NearestPolicy
    requires |big| > 0 && |small| > 0 && forall x :: x in small ==> x in big
    requires Pick(big, policy, t) in small
    ensures Pick(small, policy, t) == Pick(big, policy, t)
  {
    var v, w := Pick(big, policy, t), Pick(small, policy, t);
    if policy == FloorPolicy {
      if exists x :: x in big && x <= t {
        assert w <= v && v <= w;
      } else {
        assert w >= v && v >= w;
      }
    } else {
      if exists x :: x in big && x >= t {
        assert w <= v && v <= w;
      } else {
        assert w >= v && v >= w;
      }
    }
  }

  /**
   * With floor and ceiling policies the two modes give the same rows
   * whenever independent mode finds any.
   */
  lemma TwoFieldModesAgree<R>(rows: seq<R>, f: Field<R>, g: Field<R>)
    requires f.policy != NearestPolicy && g.policy != NearestPolicy
    requires |Independent(rows, [f, g])| > 0
    ensures Narrow(rows, [f, g]) == Independent(rows, [f, g])
  {
    var vs := Picks(rows, [f, g]);
    var slice := Matching(rows, f.key, vs[0]);
    SecondPickInSlice(rows, f, g);
    NarrowStep(rows, [f, g]);
    assert [f, g][1..] == [g];
    NarrowStep(slice, [g]);
    assert Narrow(rows, [f, g]) == Matching(slice, g.key, vs[1]);
    var p := r => f.key(r) == vs[0];
    var q := r => g.key(r) == vs[1];
    var pq := r => MatchesAll(r, [f, g], vs);
    forall r ensures pq(r) == (p(r) && q(r)) { MatchesTwo(r, f, g, vs); }
    MatchingIsWhere(rows, f.key, vs[0], p);
    MatchingIsWhere(slice, g.key, vs[1], q);
    WhereWhere(rows, p, q, pq);
  }

  /** Within the rows carrying the first pick, the second field picks what it picks over the whole table. */
  lemma SecondPickInSlice<R>(rows: seq<R>, f: Field<R>, g: Field<R>)
    requires f.policy != NearestPolicy && g.policy != NearestPolicy
    requires |Independent(rows, [f, g])| > 0
    ensures |rows| > 0
    ensures var vs := Picks(rows, [f, g]);
      var slice := Matching(rows, f.key, vs[0]);
      |slice| > 0 && Pick(Column(slice, g.key), g.policy, g.target) == vs[1]
  {
    var ind := Independent(rows, [f, g]);
    var vs := Picks(rows, [f, g]);
    var slice := Matching(rows, f.key, vs[0]);
    var x := ind[0];
    MatchesTwo(x, f, g, vs);
    assert x in slice;
    var big, small := Column(rows, g.key), Column(slice, g.key);
    SubColumn(rows, slice, g.key);
    var xi :| 0 <= xi < |slice| && slice[xi] == x;
    assert small[xi] == vs[1];
    PickOfSubcolumn(big, small, g.policy, g.target);
  }

  lemma MatchesTwo<R>(x: R, f: Field<R>, g: Field<R>, vs: seq<real>)
    requires |vs| == 2
    ensures MatchesAll(x, [f, g], vs) <==> f.key(x) == vs[0] && g.key(x) == vs[1]
  {
    assert [f, g][0] == f && [f, g][1] == g;
  }

  lemma SubColumn<R>(rows: seq<R>, sub: seq<R>, key: R -> real)
    requires forall i :: 0 <= i < |sub| ==> sub[i] in rows
    ensures forall y :: y in Column(sub, key) ==> y in Column(rows, key)
  {
    forall y | y in Column(sub, key) ensures y in Column(rows, key) {
      var j :| 0 <= j < |sub| && Column(sub, key)[j] == y;
      var k :| 0 <= k < |rows| && rows[k] == sub[j];
      assert Column(rows, key)[k] == y;
    }
  }

  lemma MatchingOfThree<R>(rows: seq<R>, key: R -> real, v: real)
    requires |rows| == 3
    ensures Matching(rows, key, v) ==
      (if key(rows[0]) == v then [rows[0]] else []) +
      (if key(rows[1]) == v then [rows[1]] else []) +
      (if key(rows[2]) == v then [rows[2]] else [])
  {
    var h0 := if key(rows[0]) == v then [rows[0]] else [];
    var h1 := if key(rows[1]) == v then [rows[1]] else [];
    var h2 := if key(rows[2]) == v then [rows[2]] else [];
    assert rows[2..][1..] == [];
    assert Matching(rows[2..], key, v) == h2;
    assert rows[1..][1..] == rows[2..];
    assert Matching(rows[1..], key, v) == h1 + h2;
    assert Matching(rows, key, v) == h0 + (h1 + h2);
  }

  function Fst(r: (real, real)): real { r.0 }
  function Snd(r: (real, real)): real { r.1 }

  /** Example: independent mode can find no row where narrowing finds one. */
  lemma IndependentCanBeEmpty(rows: seq<(real, real)>)
    requires rows == [(1.0, 1.0), (2.0, 2.0)]
    ensures Independent(rows, [Field(Fst, FloorPolicy, 2.0), Field(Snd, FloorPolicy, 1.5)]) == []
    ensures Narrow(rows, [Field(Fst, FloorPolicy, 2.0), Field(Snd, FloorPolicy, 1.5)]) == [(2.0, 2.0)]
  {
    var f, g := Field(Fst, FloorPolicy, 2.0), Field(Snd, FloorPolicy, 1.5);
    var vs := Picks(rows, [f, g]);
    assert vs == [2.0, 1.0] by {
      assert Column(rows, Fst) == [1.0, 2.0] && Column(rows, Snd) == [1.0, 2.0];
      FloorIs(Column(rows, Fst), 2.0, 2.0);
      FloorIs(Column(rows, Snd), 1.5, 1.0);
    }
    MatchesTwo(rows[0], f, g, vs);
    MatchesTwo(rows[1], f, g, vs);
    SmallNarrow(rows);
  }

  lemma SmallNarrow(rows: seq<(real, real)>)
    requires rows == [(1.0, 1.0), (2.0, 2.0)]
    ensures Narrow(rows, [Field(Fst, FloorPolicy, 2.0), Field(Snd, FloorPolicy, 1.5)]) == [(2.0, 2.0)]
  {
    var f, g := Field(Fst, FloorPolicy, 2.0), Field(Snd, FloorPolicy, 1.5);
    FloorIs(Column(rows, Fst), 2.0, 2.0);
    var slice := Matching(rows, Fst, 2.0);
    assert slice == [(2.0, 2.0)] by { assert rows[1..][1..] == []; }
    FloorIs(Column(slice, Snd), 1.5, 2.0);
    NarrowStep(rows, [f, g]);
    assert [f, g][1..] == [g];
    NarrowStep(slice, [g]);
    assert Matching(slice, Snd, 2.0) == slice by { assert slice[1..] == []; }
  }

  lemma FloorIs(s: seq<real>, t: real, v: real)
    requires IsFloor(s, t, v)
    ensures |s| > 0 && Floor(s, t) == v
  {
    FloorUnique(s, t, Floor(s, t), v);
  }

  lemma CeilIs(s: seq<real>, t: real, v: real)
    requires IsCeil(s, t, v)
    ensures |s| > 0 && Ceil(s, t) == v
  {
    CeilUnique(s, t, Ceil(s, t), v);
  }

  /** Example: with the nearest policy the two modes can pick different rows. */
  lemma NearestModesDiffer(rows: seq<(real, real)>)
    requires rows == [(1.0, 0.4), (2.0, 0.6), (2.0, 0.4)]
    ensures Independent(rows, [Field(Fst, FloorPolicy, 2.0), Field(Snd, NearestPolicy, 0.5)]) == [(2.0, 0.4)]
    ensures Narrow(rows, [Field(Fst, FloorPolicy, 2.0), Field(Snd, NearestPolicy, 0.5)]) == [(2.0, 0.6)]
  {
    NearestExampleIndependent(rows);
    NearestExampleNarrow(rows);
  }

  lemma NearestExampleIndependent(rows: seq<(real, real)>)
    requires rows == [(1.0, 0.4), (2.0, 0.6), (2.0, 0.4)]
    ensures Independent(rows, [Field(Fst, FloorPolicy, 2.0), Field(Snd, NearestPolicy, 0.5)]) == [(2.0, 0.4)]
  {
    var fs := [Field(Fst, FloorPolicy, 2.0), Field(Snd, NearestPolicy, 0.5)];
    var vs := Picks(rows, fs);
    NearestExamplePicks(rows);
    MatchesTwo(rows[0], fs[0], fs[1], vs);
    MatchesTwo(rows[1], fs[0], fs[1], vs);
    MatchesTwo(rows[2], fs[0], fs[1], vs);
    WhereOfThree(rows, x => MatchesAll(x, fs, vs));
  }

  lemma NearestExamplePicks(rows: seq<(real, real)>)
    requires rows == [(1.0, 0.4), (2.0, 0.6), (2.0, 0.4)]
    ensures Picks(rows, [Field(Fst, FloorPolicy, 2.0), Field(Snd, NearestPolicy, 0.5)]) == [2.0, 0.4]
  {
    assert Column(rows, Fst) == [1.0, 2.0, 2.0] && Column(rows, Snd) == [0.4, 0.6, 0.4];
    FloorIs(Column(rows, Fst), 2.0, 2.0);
    NearestFirstTie();
  }

  lemma NearestExampleNarrow(rows: seq<(real, real)>)
    requires rows == [(1.0, 0.4), (2.0, 0.6), (2.0, 0.4)]
    ensures Narrow(rows, [Field(Fst, FloorPolicy, 2.0), Field(Snd, NearestPolicy, 0.5)]) == [(2.0, 0.6)]
  {
    var f, g := Field(Fst, FloorPolicy, 2.0), Field(Snd, NearestPolicy, 0.5);
    NearestExampleSlice(rows);
    var slice := Matching(rows, Fst, 2.0);
    NarrowStep(rows, [f, g]);
    assert [f, g][1..] == [g];
    NarrowStep(slice, [g]);
    assert Matching(slice[1..], Snd, 0.6) == [] by { assert slice[1..][1..] == []; }
  }

  lemma {:induction false} NearestExampleSlice(rows: seq<(real, real)>)
    requires rows == [(1.0, 0.4), (2.0, 0.6), (2.0, 0.4)]
    ensures Floor(Column(rows, Fst), 2.0) == 2.0
    ensures Matching(rows, Fst, 2.0) == [(2.0, 0.6), (2.0, 0.4)]
    ensures Nearest(Column([(2.0, 0.6), (2.0, 0.4)], Snd), 0.5) == 0.6
  {
    ExampleFloor(rows);
    MatchingOfThree(rows, Fst, 2.0);
    SliceNearest();
  }

  lemma {:induction false} ExampleFloor(rows: seq<(real, real)>)
    requires rows == [(1.0, 0.4), (2.0, 0.6), (2.0, 0.4)]
    ensures Floor(Column(rows, Fst), 2.0) == 2.0
  {
    assert Column(rows, Fst) == [1.0, 2.0, 2.0];
    FloorIs(Column(rows, Fst), 2.0, 2.0);
  }

  lemma SliceNearest()
    ensures Nearest(Column([(2.0, 0.6), (2.0, 0.4)], Snd), 0.5) == 0.6
  {
    assert Column([(2.0, 0.6), (2.0, 0.4)], Snd) == [0.6, 0.4];
    NearestFirstTie();
  }

  lemma NarrowStep<R>(rows: seq<R>, fields: seq<Field<R>>)
    requires |rows| > 0 && |fields| > 0
    ensures Narrow(rows, fields) ==
      Narrow(Matching(rows, fields[0].key, Pick(Column(rows, fields[0].key), fields[0].policy, fields[0].target)), fields[1..])
  {
  }

  lemma WhereOfThree<R>(rows: seq<R>, p: R -> bool)
    requires |rows| == 3
    ensures Where(rows, p) ==
      (if p(rows[0]) then [rows[0]] else []) +
      (if p(rows[1]) then [rows[1]] else []) +
      (if p(rows[2]) then [rows[2]] else [])
  {
    WhereCons(rows, p);
    WhereOfTwo(rows[1..], p);
    var a, b, c := (if p(rows[0]) then [rows[0]] else []), (if p(rows[1]) then [rows[1]] else []),
                   (if p(rows[2]) then [rows[2]] else []);
    assert a + (b + c) == a + b + c;
  }

  lemma WhereOfTwo<R>(rows: seq<R>, p: R -> bool)
    requires |rows| == 2
    ensures Where(rows, p) == (if p(rows[0]) then [rows[0]] else []) + (if p(rows[1]) then [rows[1]] else [])
  {
    WhereCons(rows, p);
    var t := rows[1..];
    assert t[1..] == [];
    WhereCons(t, p);
  }

  lemma WhereCons<R>(rows: seq<R>, p: R -> bool)
    requires |rows| > 0
    ensures Where(rows, p) == (if p(rows[0]) then [rows[0]] else []) + Where(rows[1..], p)
  {
  }

  lemma NearestFirstTie()
    ensures Nearest([0.4, 0.6, 0.4], 0.5) == 0.4
    ensures Nearest([0.6, 0.4], 0.5) == 0.6
  {
    assert [0.4, 0.6, 0.4][..2] == [0.4, 0.6];
    assert [0.4, 0.6][..1] == [0.4];
    assert NearestIndex([0.4, 0.6], 0.5) == 0;
    assert [0.6, 0.4][..1] == [0.6];
  }

  /** The documented lookup examples over the values 0, 0.25, 0.5, 0.75, 1. */
  lemma QuarterStepFloor(s: seq<real>)
    requires s == [0.0, 0.25, 0.5, 0.75, 1.0]
    ensures Floor(s, 0.6) == 0.5 && Floor(s, -0.1) == 0.0
  {
    assert forall x :: x in s ==> x == 0.0 || x == 0.25 || x == 0.5 || x == 0.75 || x == 1.0;
    assert IsFloor(s, 0.6, 0.5) by { assert 0.5 in s; }
    FloorIs(s, 0.6, 0.5);
    assert IsFloor(s, -0.1, 0.0) by { assert 0.0 in s; }
    FloorIs(s, -0.1, 0.0);
  }

  lemma QuarterStepCeil(s: seq<real>)
    requires s == [0.0, 0.25, 0.5, 0.75, 1.0]
    ensures Ceil(s, 0.6) == 0.75 && Ceil(s, 1.5) == 1.0
  {
    assert forall x :: x in s ==> x == 0.0 || x == 0.25 || x == 0.5 || x == 0.75 || x == 1.0;
    assert IsCeil(s, 0.6, 0.75) by { assert 0.75 in s; }
    CeilIs(s, 0.6, 0.75);
    assert IsCeil(s, 1.5, 1.0) by { assert 1.0 in s; }
    CeilIs(s, 1.5, 1.0);
  }
}
