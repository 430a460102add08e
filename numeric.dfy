/**
 * The array arithmetic the interpolators rely on, over exact reals:
 * squared Euclidean distance, sums, dot products, division of a weight
 * vector by its total, and `numpy.linspace`.
 */
module Numeric {

  // ---------------------------------------------------------------------
  // Squares and distances

  /** A square is never negative and vanishes only at zero. */
  lemma SquareOf(x: real, p: real)
    requires p == x * x
    ensures p >= 0.0
    ensures p == 0.0 ==> x == 0.0
  {
    if x != 0.0 {
      assert p / x == x;
    }
  }

  /**
   * `sum((a - b) ** 2)`: the squared Euclidean distance between two
   * points with the same number of coordinates.
   */
  function SqDist(a: seq<real>, b: seq<real>): (s: real)
    requires |a| == |b|
    ensures s >= 0.0
    decreases |a|
  {
    if |a| == 0 then 0.0
    else
      var d := a[0] - b[0];
      SquareOf(d, d * d);
      d * d + SqDist(a[1..], b[1..])
  }

  /** The distance is zero exactly at the point itself. */
  lemma {:induction false} SqDistZero(a: seq<real>, b: seq<real>)
    requires |a| == |b|
    ensures SqDist(a, b) == 0.0 <==> a == b
    decreases |a|
  {
    if |a| > 0 {
      var d := a[0] - b[0];
      SquareOf(d, d * d);
      SqDistZero(a[1..], b[1..]);
      assert a == [a[0]] + a[1..] && b == [b[0]] + b[1..];
    }
  }

  /** On a line the squared distance is the square of the difference. */
  lemma SqDistLine(x: real, q: real)
    ensures SqDist([x], [q]) == (x - q) * (x - q)
  {
    assert [x][1..] == [];
  }

  /** In the plane it is dx^2 + dy^2. */
  lemma SqDistPlane(x: real, y: real, p: real, q: real)
    ensures SqDist([x, y], [p, q]) == (x - p) * (x - p) + (y - q) * (y - q)
  {
    assert [x, y][1..] == [y] && [p, q][1..] == [q];
    SqDistLine(y, q);
  }

  // ---------------------------------------------------------------------
  // Sums and dot products

  /** `np.sum(w)` */
  function Sum(w: seq<real>): real
  {
    if |w| == 0 then 0.0 else w[0] + Sum(w[1..])
  }

  /** `np.dot(w, v)`, or `np.sum(w * v)` */
  function Dot(w: seq<real>, v: seq<real>): real
    requires |w| == |v|
  {
    if |w| == 0 then 0.0 else w[0] * v[0] + Dot(w[1..], v[1..])
  }

  predicate NonNegative(w: seq<real>) {
    forall i :: 0 <= i < |w| ==> w[i] >= 0.0
  }

  predicate Positive(w: seq<real>) {
    forall i :: 0 <= i < |w| ==> w[i] > 0.0
  }

  /** A sum of positive weights is positive; of non-negative ones, non-negative. */
  lemma {:induction false} SumSign(w: seq<real>)
    requires NonNegative(w)
    ensures Sum(w) >= 0.0
    ensures Positive(w) && |w| > 0 ==> Sum(w) > 0.0
  {
    if |w| > 0 {
      SumSign(w[1..]);
    }
  }

  /** `w / t`: every weight divided by `t`. */
  function Scale(w: seq<real>, t: real): (r: seq<real>)
    requires t != 0.0 || |w| == 0
    ensures |r| == |w|
    ensures forall i :: 0 <= i < |w| ==> r[i] * t == w[i]
  {
    if |w| == 0 then []
    else
      assert (w[0] / t) * t == w[0];
      [w[0] / t] + Scale(w[1..], t)
  }

  /** Dividing every weight by `t` divides their sum by `t`. */
  lemma {:induction false} SumScale(w: seq<real>, t: real)
    requires t != 0.0
    ensures Sum(Scale(w, t)) * t == Sum(w)
  {
    if |w| > 0 {
      var r := Scale(w, t);
      assert r[1..] == Scale(w[1..], t);
      SumScale(w[1..], t);
      var h, s := r[0], Sum(r[1..]);
      assert Sum(r) == h + s;
      assert h * t == w[0];
      Distribute(h, s, t);
    }
  }

  lemma Distribute(h: real, s: real, t: real)
    ensures (h + s) * t == h * t + s * t
  {
  }

  /** `w` is `raw` divided by the total of `raw`. */
  predicate Proportional(w: seq<real>, raw: seq<real>) {
    ProportionalTo(w, raw, Sum(raw))
  }

  /** `w` is `raw` divided by `total`. */
  predicate ProportionalTo(w: seq<real>, raw: seq<real>, total: real) {
    |w| == |raw| && forall i :: 0 <= i < |w| ==> w[i] * total == raw[i]
  }

  /** Dividing by the total gives weights proportional to the originals. */
  lemma {:induction false} ScaleProportional(w: seq<real>)
    requires Sum(w) != 0.0
    ensures Proportional(Scale(w, Sum(w)), w)
  {
    ScaledBy(w, Sum(w));
  }

  /** Each weight of `Scale(w, t)` times `t` is the original weight. */
  lemma {:induction false} ScaledBy(w: seq<real>, t: real)
    requires t != 0.0
    ensures ProportionalTo(Scale(w, t), w, t)
  {
  }

  /** Weights divided by their own positive total add up to one. */
  lemma Normalised(w: seq<real>)
    requires Sum(w) != 0.0
    ensures Sum(Scale(w, Sum(w))) == 1.0
  {
    SumScale(w, Sum(w));
    var s, t := Sum(Scale(w, Sum(w))), Sum(w);
    assert (s * t) / t == s;
    assert t / t == 1.0;
  }

  /** Dividing the weights by a positive `t` keeps them positive. */
  lemma {:induction false} ScalePositive(w: seq<real>, t: real)
    requires t > 0.0 && Positive(w)
    ensures Positive(Scale(w, t))
  {
    var r := Scale(w, t);
    forall i | 0 <= i < |w| ensures r[i] > 0.0 {
      PositiveQuotient(r[i], t, w[i]);
    }
  }

  /** A factor that turns a positive `t` into a positive product is positive. */
  lemma PositiveQuotient(x: real, t: real, p: real)
    requires t > 0.0 && x * t == p && p > 0.0
    ensures x > 0.0
  {
    assert x == p / t;
    DivLower(p, t, 0.0);
  }

  /** Positive weights divided by their total are positive and add up to one. */
  lemma NormalisedPositive(w: seq<real>)
    requires Positive(w) && Sum(w) > 0.0
    ensures NonNegative(Scale(w, Sum(w))) && Sum(Scale(w, Sum(w))) == 1.0
  {
    Normalised(w);
    ScalePositive(w, Sum(w));
  }

  // ---------------------------------------------------------------------
  // Order facts about products and quotients

  /** Multiplying by a non-negative factor keeps an inequality. */
  lemma MulMono(a: real, x: real, y: real)
    requires a >= 0.0 && x >= y
    ensures a * x >= a * y
  {
    assert a * (x - y) >= 0.0;
    assert a * (x - y) == a * x - a * y;
  }

  lemma DivLower(a: real, w: real, m: real)
    requires w > 0.0 && a >= m * w
    ensures a / w >= m
  {
    var q := a / w;
    assert w * q == a;
    if q < m {
      assert w * (m - q) > 0.0;
      assert w * (m - q) == w * m - w * q;
    }
  }

  lemma DivUpper(a: real, w: real, m: real)
    requires w > 0.0 && a <= m * w
    ensures a / w <= m
  {
    var q := a / w;
    assert w * q == a;
    if q > m {
      assert w * (q - m) > 0.0;
      assert w * (q - m) == w * q - w * m;
    }
  }

  /** With non-negative weights, the weighted sum is at least the smallest value times the total. */
  lemma {:induction false} DotLower(w: seq<real>, v: seq<real>, m: real)
    requires |w| == |v| && NonNegative(w)
    requires forall i :: 0 <= i < |v| ==> m <= v[i]
    ensures m * Sum(w) <= Dot(w, v)
  {
    if |w| > 0 {
      DotLower(w[1..], v[1..], m);
      MulMono(w[0], v[0], m);
      assert Sum(w) == w[0] + Sum(w[1..]);
      assert Dot(w, v) == w[0] * v[0] + Dot(w[1..], v[1..]);
      assert w[0] * m == m * w[0];
      assert m * Sum(w) == w[0] * m + m * Sum(w[1..]);
    }
  }

  /** With non-negative weights, the weighted sum is at most the largest value times the total. */
  lemma {:induction false} DotUpper(w: seq<real>, v: seq<real>, m: real)
    requires |w| == |v| && NonNegative(w)
    requires forall i :: 0 <= i < |v| ==> v[i] <= m
    ensures Dot(w, v) <= m * Sum(w)
  {
    if |w| > 0 {
      DotUpper(w[1..], v[1..], m);
      MulMono(w[0], m, v[0]);
      assert Sum(w) == w[0] + Sum(w[1..]);
      assert Dot(w, v) == w[0] * v[0] + Dot(w[1..], v[1..]);
      assert w[0] * m == m * w[0];
      assert m * Sum(w) == w[0] * m + m * Sum(w[1..]);
    }
  }

  /**
   * A convex combination (non-negative weights adding up to one) lies
   * between the smallest and the largest value it combines.
   */
  lemma ConvexBounds(w: seq<real>, v: seq<real>, lo: real, hi: real)
    requires |w| == |v| && NonNegative(w) && Sum(w) == 1.0
    requires forall i :: 0 <= i < |v| ==> lo <= v[i] <= hi
    ensures lo <= Dot(w, v) <= hi
  {
    DotLower(w, v, lo);
    DotUpper(w, v, hi);
  }

  /** Every value equal to `c`: the weighted sum is `c` times the total. */
  lemma {:induction false} DotConstant(w: seq<real>, v: seq<real>, c: real)
    requires |w| == |v| && forall i :: 0 <= i < |v| ==> v[i] == c
    ensures Dot(w, v) == c * Sum(w)
  {
    if |w| > 0 {
      DotConstant(w[1..], v[1..], c);
      assert c * Sum(w) == w[0] * c + c * Sum(w[1..]);
    }
  }

  /** `np.ones(n) / n` */
  function Uniform(n: nat): (w: seq<real>)
    ensures |w| == n
  {
    seq(n, i requires 0 <= i < n => 1.0 / (n as real))
  }

  lemma {:induction false} SumConstant(w: seq<real>, c: real)
    requires forall i :: 0 <= i < |w| ==> w[i] == c
    ensures Sum(w) == (|w| as real) * c
  {
    if |w| > 0 {
      SumConstant(w[1..], c);
      assert (|w| as real) * c == c + ((|w| - 1) as real) * c;
    }
  }

  /** The uniform weights of a non-empty set are positive and add up to one. */
  lemma UniformSum(n: nat)
    requires n > 0
    ensures Sum(Uniform(n)) == 1.0 && Positive(Uniform(n))
  {
    var c := 1.0 / (n as real);
    SumConstant(Uniform(n), c);
    assert (n as real) * c == 1.0;
  }

  // ---------------------------------------------------------------------
  // Sampling

  /**
   * `np.linspace(a, b, n)`: `n` evenly spaced samples from `a` to `b`,
   * `[a]` alone when `n == 1`.
   */
  function Linspace(a: real, b: real, n: nat): (xs: seq<real>)
    ensures |xs| == n
  {
    seq(n, i requires 0 <= i < n => if n == 1 then a else a + (i as real) * (b - a) / ((n - 1) as real))
  }

  /** Two or more samples start at `a` and end exactly at `b`. */
  lemma LinspaceEnds(a: real, b: real, n: nat)
    requires n >= 2
    ensures Linspace(a, b, n)[0] == a && Linspace(a, b, n)[n - 1] == b
  {
    var d := (n - 1) as real;
    assert d * (b - a) / d == b - a;
  }

  /** From two samples on, neighbouring samples are `(b - a) / (n - 1)` apart. */
  lemma LinspaceEvenlySpaced(a: real, b: real, n: nat)
    requires n >= 2
    ensures forall i :: 0 <= i < n - 1 ==>
      Linspace(a, b, n)[i + 1] - Linspace(a, b, n)[i] == (b - a) / ((n - 1) as real)
  {
    var xs, q := Linspace(a, b, n), (b - a) / ((n - 1) as real);
    forall i | 0 <= i < n - 1 ensures xs[i + 1] - xs[i] == q {
      LinspaceAt(a, b, n, i);
      LinspaceAt(a, b, n, i + 1);
      assert ((i + 1) as real) * q == (i as real) * q + q;
    }
  }

  /** Sample `i` is `i` steps of `(b - a) / (n - 1)` from `a`. */
  lemma LinspaceAt(a: real, b: real, n: nat, i: nat)
    requires n >= 2 && i < n
    ensures Linspace(a, b, n)[i] == a + (i as real) * ((b - a) / ((n - 1) as real))
  {
    var u, d := i as real, (n - 1) as real;
    var q := (b - a) / d;
    assert q * d == b - a;
    assert (u * q) * d == u * (b - a);
    assert u * (b - a) / d == u * q;
  }

  /** A fraction `u / d` of the way from `a` to `b`, with `0 <= u <= d`, lies between them. */
  lemma FractionWithin(a: real, b: real, u: real, d: real)
    requires a <= b && 0.0 <= u <= d && d > 0.0
    ensures a <= a + u * (b - a) / d <= b
  {
    var t := u * (b - a);
    MulMono(b - a, d, u);
    assert t == (b - a) * u;
    MulMono(u, b - a, 0.0);
    DivLower(t, d, 0.0);
    DivUpper(t, d, b - a);
  }

  /** Every sample lies between the ends of an increasing range. */
  lemma LinspaceWithin(a: real, b: real, n: nat)
    requires a <= b
    ensures forall i :: 0 <= i < n ==> a <= Linspace(a, b, n)[i] <= b
  {
    var xs := Linspace(a, b, n);
    forall i | 0 <= i < n ensures a <= xs[i] <= b {
      if n > 1 {
        var u, d := i as real, (n - 1) as real;
        FractionWithin(a, b, u, d);
        assert xs[i] == a + u * (b - a) / d;
      }
    }
  }

  /** The samples of an increasing range stay inside it and, from two samples on, reach both ends. */
  lemma LinspaceRange(a: real, b: real, n: nat)
    requires a <= b
    ensures forall i :: 0 <= i < n ==> a <= Linspace(a, b, n)[i] <= b
    ensures n >= 2 ==> Linspace(a, b, n)[0] == a && Linspace(a, b, n)[n - 1] == b
  {
    LinspaceWithin(a, b, n);
    if n >= 2 {
      LinspaceEnds(a, b, n);
    }
  }

  // ---------------------------------------------------------------------
  // Rounding

  /** Python's `round` to an integer: the integer nearest `y`, ties to the even one. */
  function RoundHalfEven(y: real): (n: int)
    ensures -0.5 <= n as real - y <= 0.5
    ensures n as real - y == 0.5 || y - n as real == 0.5 ==> n % 2 == 0
    ensures y == y.Floor as real ==> n == y.Floor
  {
    var f := y.Floor;
    var d := y - f as real;
    if d < 0.5 then f
    else if d > 0.5 then f + 1
    else if f % 2 == 0 then f else f + 1
  }
}
