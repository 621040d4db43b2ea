/**
 Variance and percentile aggregates, over the reals.

 `None` is a null input, which both aggregates skip.
 */
module Statistics {
  import opened Wrappers
  import opened Orders

  function NonNull(inputs: seq<Option<real>>): seq<real> {
    if inputs == [] then []
    else NonNull(inputs[..|inputs| - 1]) +
         if inputs[|inputs| - 1].Some? then [inputs[|inputs| - 1].value] else []
  }

  // ---- products of reals, one law at a time ----

  lemma NonNegativeProduct(a: real, b: real)
    requires a >= 0.0 && b >= 0.0
    ensures a * b >= 0.0
  {
  }

  lemma SquareNonNegative(a: real)
    ensures a * a >= 0.0
  {
  }

  lemma DifferenceTimes(a: real, b: real, c: real)
    ensures (a - b) * c == a * c - b * c
  {
  }

  // ---- sums ----

  function SumOf(f: real -> real, xs: seq<real>): real {
    if xs == [] then 0.0 else SumOf(f, xs[..|xs| - 1]) + f(xs[|xs| - 1])
  }

  function Itself(x: real): real { x }

  function Squared(x: real): real { x * x }

  function SquaredFrom(m: real): real -> real { x => (x - m) * (x - m) }

  function Sum(xs: seq<real>): real { SumOf(Itself, xs) }

  function Squares(xs: seq<real>): real { SumOf(Squared, xs) }

  function Mean(xs: seq<real>): real
    requires xs != []
  {
    Sum(xs) / |xs| as real
  }

  /** The two-pass definition: the sum of squared distances from `m`. */
  function SquaredDistances(xs: seq<real>, m: real): real { SumOf(SquaredFrom(m), xs) }

  lemma {:induction false} SquaredDistancesNonNegative(xs: seq<real>, m: real)
    ensures SquaredDistances(xs, m) >= 0.0
  {
    if xs != [] {
      SquaredDistancesNonNegative(xs[..|xs| - 1], m);
      SquareNonNegative(xs[|xs| - 1] - m);
    }
  }

  function Expanded(squares: real, sum: real, n: real, m: real): real { squares - 2.0 * m * sum + n * m * m }

  lemma ExpandedStep(squares: real, sum: real, n: real, m: real, x: real)
    ensures Expanded(squares + x * x, sum + x, n + 1.0, m) == Expanded(squares, sum, n, m) + (x - m) * (x - m)
  {
    assert (x - m) * (x - m) == x * x - 2.0 * m * x + m * m;
    assert 2.0 * m * (sum + x) == 2.0 * m * sum + 2.0 * m * x;
    assert (n + 1.0) * m * m == n * m * m + m * m by {
      var mm := m * m;
      assert (n + 1.0) * m * m == (n + 1.0) * mm && n * m * m == n * mm;
    }
  }

  lemma {:induction false} SquaredDistancesExpand(xs: seq<real>, m: real)
    ensures SquaredDistances(xs, m) == Expanded(Squares(xs), Sum(xs), |xs| as real, m)
  {
    if xs != [] {
      var front, x := xs[..|xs| - 1], xs[|xs| - 1];
      SquaredDistancesExpand(front, m);
      ExpandedStep(Squares(front), Sum(front), |front| as real, m, x);
    }
  }

  // ---- Welford's update ----

  datatype Moments = Moments(count: nat, mean: real, m2: real)

  function Absorb(s: Moments, x: real): Moments {
    var n := s.count + 1;
    var delta := x - s.mean;
    var mean := s.mean + delta / n as real;
    Moments(n, mean, s.m2 + delta * (x - mean))
  }

  /** The state is the count, the mean and the sum of squares less count times mean squared. */
  ghost predicate Describes(s: Moments, xs: seq<real>) {
    && s.count == |xs|
    && s.count as real * s.mean == Sum(xs)
    && s.m2 == Squares(xs) - s.count as real * s.mean * s.mean
  }

  /** One update, with the increment of the mean named so that no division remains. */
  lemma UpdateAlgebra(n: real, mean: real, q: real, squares: real)
    ensures (n + 1.0) * (mean + q) == n * mean + (mean + (n + 1.0) * q)
    ensures var x := mean + (n + 1.0) * q;
            squares - n * mean * mean + (n + 1.0) * q * (x - (mean + q)) ==
            squares + x * x - (n + 1.0) * (mean + q) * (mean + q)
  {
    var x := mean + (n + 1.0) * q;
    var mm, mq, qq := mean * mean, mean * q, q * q;
    assert x - (mean + q) == n * q;
    assert (n + 1.0) * q * (n * q) == n * n * qq + n * qq by {
      assert (n + 1.0) * q * (n * q) == (n + 1.0) * n * qq;
    }
    assert x * x == mm + 2.0 * (n + 1.0) * mq + (n + 1.0) * (n + 1.0) * qq;
    assert (mean + q) * (mean + q) == mm + 2.0 * mq + qq;
    assert (n + 1.0) * (mean + q) * (mean + q) == (n + 1.0) * (mm + 2.0 * mq + qq);
  }

  lemma AbsorbDescribes(s: Moments, xs: seq<real>, x: real)
    requires Describes(s, xs)
    ensures Describes(Absorb(s, x), xs + [x])
  {
    var n := s.count as real;
    var q := (x - s.mean) / (n + 1.0);
    assert (s.count + 1) as real == n + 1.0;
    assert (n + 1.0) * q == x - s.mean;
    assert (xs + [x])[..|xs|] == xs;
    UpdateAlgebra(n, s.mean, q, Squares(xs));
  }

  lemma CentredSquares(n: real, mean: real, squares: real)
    ensures Expanded(squares, n * mean, n, mean) == squares - n * mean * mean
  {
    assert mean * (n * mean) == n * mean * mean;
  }

  lemma DescribesMean(s: Moments, xs: seq<real>)
    requires Describes(s, xs) && xs != []
    ensures s.mean == Mean(xs)
  {
    Quotient(s.count as real, s.mean, Sum(xs));
  }

  lemma Quotient(n: real, mean: real, sum: real)
    requires n > 0.0 && n * mean == sum
    ensures sum / n == mean
  {
  }

  /** The accumulated m2 is the sum of squared distances from the accumulated mean. */
  lemma DescribesDistances(s: Moments, xs: seq<real>)
    requires Describes(s, xs)
    ensures s.m2 == SquaredDistances(xs, s.mean)
  {
    SquaredDistancesExpand(xs, s.mean);
    CentredSquares(s.count as real, s.mean, Squares(xs));
  }

  /** After any inputs: the mean is the mean, and m2 is the sum of squared distances from it. */
  lemma DescribesMeaning(s: Moments, xs: seq<real>)
    requires Describes(s, xs)
    ensures xs != [] ==> s.mean == Mean(xs)
    ensures s.m2 == SquaredDistances(xs, s.mean) && s.m2 >= 0.0
  {
    DescribesDistances(s, xs);
    SquaredDistancesNonNegative(xs, s.mean);
    if xs != [] { DescribesMean(s, xs); }
  }

  datatype WelfordKind = StddevPop | StddevSamp | VarPop | VarSamp

  /** Two-pass definitions; `None` is a null result. */
  function Variance(xs: seq<real>, kind: WelfordKind, sqrt: real -> real): Option<real> {
    if xs == [] then None
    else
      var ss := SquaredDistances(xs, Mean(xs));
      match kind
      case VarPop => Some(ss / |xs| as real)
      case StddevPop => Some(sqrt(ss / |xs| as real))
      case VarSamp => if |xs| < 2 then None else Some(ss / (|xs| - 1) as real)
      case StddevSamp => if |xs| < 2 then None else Some(sqrt(ss / (|xs| - 1) as real))
  }

  /** The one-pass aggregate gives the two-pass value. */
  method Welford(inputs: seq<Option<real>>, kind: WelfordKind, sqrt: real -> real) returns (r: Option<real>)
    ensures r == Variance(NonNull(inputs), kind, sqrt)
  {
    var s := Moments(0, 0.0, 0.0);
    for i := 0 to |inputs|
      invariant Describes(s, NonNull(inputs[..i]))
    {
      assert inputs[..i + 1][..i] == inputs[..i];
      if inputs[i].Some? {
        AbsorbDescribes(s, NonNull(inputs[..i]), inputs[i].value);
        s := Absorb(s, inputs[i].value);
      } else {
        assert NonNull(inputs[..i]) + [] == NonNull(inputs[..i]);
      }
    }
    assert inputs[..|inputs|] == inputs;
    DescribesMeaning(s, NonNull(inputs));
    if s.count == 0 { return None; }
    var n := s.count as real;
    match kind
    case VarPop => return Some(s.m2 / n);
    case StddevPop => return Some(sqrt(s.m2 / n));
    case VarSamp =>
      if s.count < 2 { return None; }
      return Some(s.m2 / (n - 1.0));
    case StddevSamp =>
      if s.count < 2 { return None; }
      return Some(sqrt(s.m2 / (n - 1.0)));
  }

  // ---- order of the inputs ----

  lemma {:induction false} SumAppend(f: real -> real, a: seq<real>, b: seq<real>)
    ensures SumOf(f, a + b) == SumOf(f, a) + SumOf(f, b)
  {
    if b == [] {
      assert a + b == a;
    } else {
      SumAppend(f, a, b[..|b| - 1]);
      assert (a + b)[..|a + b| - 1] == a + b[..|b| - 1];
    }
  }

  /** Taking one occurrence out of each of two rearrangements leaves rearrangements. */
  lemma RemoveOne<T>(front: seq<T>, x: T, a: seq<T>, b: seq<T>)
    requires multiset(front + [x]) == multiset(a + [x] + b)
    ensures multiset(front) == multiset(a + b)
  {
    assert multiset(front + [x]) == multiset(front) + multiset{x};
    assert multiset(a + [x] + b) == multiset(a) + multiset{x} + multiset(b);
    assert multiset(a + b) == multiset(a) + multiset(b);
    assert multiset(front) == multiset(front + [x]) - multiset{x};
    assert multiset(a + b) == multiset(a + [x] + b) - multiset{x};
  }

  lemma SumInsert(f: real -> real, a: seq<real>, x: real, b: seq<real>)
    ensures SumOf(f, a + [x] + b) == SumOf(f, a + b) + f(x)
  {
    SumAppend(f, a, b);
    SumAppend(f, a + [x], b);
    assert (a + [x])[..|a|] == a;
  }

  /** An element of one rearrangement splits the other around an equal element. */
  lemma SplitAround<T>(front: seq<T>, x: T, ys: seq<T>) returns (a: seq<T>, b: seq<T>)
    requires multiset(front + [x]) == multiset(ys)
    ensures ys == a + [x] + b && multiset(front) == multiset(a + b)
  {
    assert x in multiset(front + [x]);
    var i :| 0 <= i < |ys| && ys[i] == x;
    a, b := ys[..i], ys[i + 1..];
    assert ys == a + [x] + b;
    RemoveOne(front, x, a, b);
  }

  lemma SameLength<T>(xs: seq<T>, ys: seq<T>)
    requires multiset(xs) == multiset(ys)
    ensures |xs| == |ys|
  {
    assert |xs| == |multiset(xs)| && |ys| == |multiset(ys)|;
  }

  lemma {:induction false} SumIgnoresOrder(f: real -> real, xs: seq<real>, ys: seq<real>)
    requires multiset(xs) == multiset(ys)
    ensures SumOf(f, xs) == SumOf(f, ys)
  {
    SameLength(xs, ys);
    if xs != [] {
      var front, x := xs[..|xs| - 1], xs[|xs| - 1];
      assert xs == front + [x];
      var a, b := SplitAround(front, x, ys);
      SumIgnoresOrder(f, front, a + b);
      SumInsert(f, a, x, b);
    }
  }

  /** Variance does not depend on the order in which rows arrive. */
  lemma VarianceIgnoresOrder(xs: seq<real>, ys: seq<real>, kind: WelfordKind, sqrt: real -> real)
    requires multiset(xs) == multiset(ys)
    ensures Variance(xs, kind, sqrt) == Variance(ys, kind, sqrt)
  {
    SameLength(xs, ys);
    if xs != [] {
      SumIgnoresOrder(Itself, xs, ys);
      SumIgnoresOrder(SquaredFrom(Mean(xs)), xs, ys);
    }
  }

  // ---- interpolated percentile ----

  predicate RealLe(a: real, b: real) { a <= b }

  ghost predicate SortedUp(xs: seq<real>) { forall i, j :: 0 <= i <= j < |xs| ==> xs[i] <= xs[j] }

  function Sort(xs: seq<real>): (r: seq<real>)
    ensures |r| == |xs| && multiset(r) == multiset(xs) && SortedUp(r)
  {
    StableSortAscends(xs, RealLe, (a: real, b: real) => true);
    var r := StableSort(xs, RealLe);
    assert forall i, j :: 0 <= i < j < |r| ==> Before(RealLe, (a: real, b: real) => true, r[i], r[j]);
    r
  }

  lemma GreatestLast(a: seq<real>, b: seq<real>)
    requires SortedUp(a) && SortedUp(b) && multiset(a) == multiset(b) && a != [] && b != []
    ensures a[|a| - 1] == b[|b| - 1]
  {
    var x, y := a[|a| - 1], b[|b| - 1];
    assert x in multiset(b) && y in multiset(a);
    var i :| 0 <= i < |b| && b[i] == x;
    var j :| 0 <= j < |a| && a[j] == y;
  }

  lemma {:induction false} SortedUnique(a: seq<real>, b: seq<real>)
    requires SortedUp(a) && SortedUp(b) && multiset(a) == multiset(b)
    ensures a == b
  {
    SameLength(a, b);
    if a != [] {
      GreatestLast(a, b);
      var x := a[|a| - 1];
      var a', b' := a[..|a| - 1], b[..|b| - 1];
      assert a == a' + [x] && b == b' + [x] + [];
      RemoveOne(a', x, b', []);
      assert b' + [] == b';
      SortedUnique(a', b');
    }
  }

  function Ceil(x: real): int { if x == x.Floor as real then x.Floor else x.Floor + 1 }

  /** The value at fractional rank `rank` of a sorted sequence, linear between neighbours. */
  function At(sorted: seq<real>, rank: real): real
    requires 0.0 <= rank <= (|sorted| - 1) as real && sorted != []
  {
    var lo, hi := rank.Floor, Ceil(rank);
    if lo == hi then sorted[lo] else sorted[lo] + (rank - lo as real) * (sorted[hi] - sorted[lo])
  }

  /** The fractional rank of quantile `q` among `n` values. */
  function Rank(n: nat, q: real): (r: real)
    requires n > 0 && 0.0 <= q <= 1.0
    ensures 0.0 <= r <= (n - 1) as real
    ensures q == 0.0 ==> r == 0.0
    ensures q == 1.0 ==> r == (n - 1) as real
  {
    Interpolates(0.0, (n - 1) as real, q);
    q * (n - 1) as real
  }

  function Percentile(xs: seq<real>, q: real): Option<real>
    requires 0.0 <= q <= 1.0
  {
    if xs == [] then None else Some(At(Sort(xs), Rank(|xs|, q)))
  }

  method PercentileCont(inputs: seq<Option<real>>, q: real) returns (r: Option<real>)
    requires 0.0 <= q <= 1.0
    ensures r == Percentile(NonNull(inputs), q)
  {
    var values: seq<real> := [];
    for i := 0 to |inputs|
      invariant values == NonNull(inputs[..i])
    {
      assert inputs[..i + 1][..i] == inputs[..i];
      if inputs[i].Some? { values := values + [inputs[i].value]; }
    }
    assert inputs[..|inputs|] == inputs;
    if values == [] { return None; }
    return Some(At(Sort(values), Rank(|values|, q)));
  }

  lemma Interpolates(a: real, b: real, t: real)
    requires a <= b && 0.0 <= t <= 1.0
    ensures a <= a + t * (b - a) <= b
  {
    NonNegativeProduct(t, b - a);
    NonNegativeProduct(1.0 - t, b - a);
    DifferenceTimes(1.0, t, b - a);
  }

  lemma InterpolationMonotone(d: real, t: real, u: real)
    requires d >= 0.0 && t <= u
    ensures t * d <= u * d
  {
    NonNegativeProduct(u - t, d);
    DifferenceTimes(u, t, d);
  }

  lemma AtBetween(sorted: seq<real>, rank: real)
    requires sorted != [] && SortedUp(sorted) && 0.0 <= rank <= (|sorted| - 1) as real
    ensures sorted[rank.Floor] <= At(sorted, rank) <= sorted[Ceil(rank)]
  {
    var lo, hi := rank.Floor, Ceil(rank);
    if lo != hi { Interpolates(sorted[lo], sorted[hi], rank - lo as real); }
  }

  lemma AtMonotone(sorted: seq<real>, r: real, r': real)
    requires sorted != [] && SortedUp(sorted) && 0.0 <= r <= r' <= (|sorted| - 1) as real
    ensures At(sorted, r) <= At(sorted, r')
  {
    AtBetween(sorted, r);
    AtBetween(sorted, r');
    var lo, hi := r.Floor, Ceil(r);
    if lo != hi && r'.Floor == lo {
      assert Ceil(r') == hi;
      ghost var base, d, t, u := sorted[lo], sorted[hi] - sorted[lo], r - lo as real, r' - lo as real;
      InterpolationMonotone(d, t, u);
      assert At(sorted, r) == base + t * d && At(sorted, r') == base + u * d;
    } else {
      assert hi <= r'.Floor;
      assert sorted[hi] <= sorted[r'.Floor];
    }
  }

  /** Between neighbouring ranks the value moves along the straight line that joins the two values. */
  lemma AtIsAffine(sorted: seq<real>, k: nat, t: real)
    requires k + 1 < |sorted| && 0.0 <= t <= 1.0
    ensures At(sorted, k as real + t) == (1.0 - t) * sorted[k] + t * sorted[k + 1]
  {
    var rank, a, b := k as real + t, sorted[k], sorted[k + 1];
    AffineForms(a, b, t);
    if t == 0.0 || t == 1.0 {
      assert rank == (if t == 0.0 then k else k + 1) as real;
    } else {
      assert rank.Floor == k && Ceil(rank) == k + 1;
      assert rank - k as real == t;
      assert At(sorted, rank) == a + t * (b - a);
    }
  }

  lemma AffineForms(a: real, b: real, t: real)
    ensures a + t * (b - a) == (1.0 - t) * a + t * b
  {
  }

  lemma RankMonotone(n: nat, q: real, q': real)
    requires n > 0 && 0.0 <= q <= q' <= 1.0
    ensures Rank(n, q) <= Rank(n, q')
  {
    var top := (n - 1) as real;
    InterpolationMonotone(top, q, q');
    var a, b := q * top, q' * top;
    assert a <= b;
    assert Rank(n, q) == a;
    assert Rank(n, q') == b;
  }

  lemma PercentileMonotone(xs: seq<real>, q: real, q': real)
    requires xs != [] && 0.0 <= q <= q' <= 1.0
    ensures Percentile(xs, q).value <= Percentile(xs, q').value
  {
    RankMonotone(|xs|, q, q');
    AtMonotone(Sort(xs), Rank(|xs|, q), Rank(|xs|, q'));
  }

  /** The percentile lies between the extremes, reaches them at 0 and 1, and grows with `q`. */
  lemma PercentileLaws(xs: seq<real>, q: real, q': real)
    requires xs != [] && 0.0 <= q <= q' <= 1.0
    ensures forall x :: x in xs ==> Percentile(xs, 0.0).value <= x <= Percentile(xs, 1.0).value
    ensures Percentile(xs, 0.0).value in xs && Percentile(xs, 1.0).value in xs
    ensures Percentile(xs, 0.0).value <= Percentile(xs, q).value
    ensures Percentile(xs, q).value <= Percentile(xs, q').value <= Percentile(xs, 1.0).value
  {
    PercentileMonotone(xs, 0.0, q);
    PercentileMonotone(xs, q, q');
    PercentileMonotone(xs, q', 1.0);
    Extremes(xs);
  }

  lemma Extremes(xs: seq<real>)
    requires xs != []
    ensures forall x :: x in xs ==> Percentile(xs, 0.0).value <= x <= Percentile(xs, 1.0).value
    ensures Percentile(xs, 0.0).value in xs && Percentile(xs, 1.0).value in xs
  {
    var s, n := Sort(xs), |xs|;
    assert At(s, 0.0) == s[0] && At(s, (n - 1) as real) == s[n - 1];
    forall x | x in xs ensures s[0] <= x <= s[n - 1] {
      assert x in multiset(s);
      var i :| 0 <= i < n && s[i] == x;
    }
    assert s[0] in multiset(xs) && s[n - 1] in multiset(xs);
  }

  lemma PercentileIgnoresOrder(xs: seq<real>, ys: seq<real>, q: real)
    requires multiset(xs) == multiset(ys) && 0.0 <= q <= 1.0
    ensures Percentile(xs, q) == Percentile(ys, q)
  {
    SameLength(xs, ys);
    if xs != [] { SortedUnique(Sort(xs), Sort(ys)); }
  }
}
