/** Real-number stand-ins for the pandas reductions the tracker uses:
    means, linear-interpolation quantiles and IEEE-style division. */
module Numeric {
  import opened Wrappers
  import opened Seqs

  /** A pandas float: a finite value, an infinity, or NaN. */
  datatype Ext = Finite(value: real) | PosInf | NegInf | NaN

  /** Division as pandas performs it on columns: a zero divisor gives an
      infinity of the dividend's sign, or NaN for 0/0, instead of raising. */
  function Divide(a: real, b: real): (r: Ext)
    ensures r.Finite? <==> b != 0.0
    ensures r.Finite? ==> r.value * b == a
    ensures r.NaN? <==> a == 0.0 && b == 0.0
  {
    if b != 0.0 then Finite(a / b)
    else if a > 0.0 then PosInf
    else if a < 0.0 then NegInf
    else NaN
  }

  /** A product, kept behind a name: facts stated about `Mul(a, b)` reach
      the solver as facts about one term. */
  function Mul(a: real, b: real): real
  {
    a * b
  }

  /** The square `v ** 2`. */
  function Sq(v: real): real
  {
    Mul(v, v)
  }

  lemma MulPositive(a: real, b: real)
    requires a > 0.0 && b > 0.0
    ensures Mul(a, b) > 0.0
  {
  }

  lemma MulNegated(a: real, b: real)
    ensures Mul(-a, -b) == Mul(a, b)
  {
  }

  /** A square is positive exactly when its root is not zero. */
  lemma SquarePositive(v: real)
    ensures Sq(v) >= 0.0
    ensures Sq(v) > 0.0 <==> v != 0.0
  {
    if v > 0.0 {
      MulPositive(v, v);
    } else if v < 0.0 {
      MulPositive(-v, -v);
      MulNegated(v, v);
    }
  }

  function Mean(s: seq<real>): real
    requires |s| > 0
  {
    Sum(s) / |s| as real
  }

  lemma DivisionSign(x: real, n: real)
    requires n > 0.0
    ensures x / n > 0.0 <==> x > 0.0
    ensures x / n == 0.0 <==> x == 0.0
  {
  }

  /** Fractions over one denominator add up their numerators. */
  lemma DivisionAdds(a: real, b: real, n: real)
    requires n > 0.0
    ensures a / n + b / n == (a + b) / n
  {
    var w := a / n + b / n - (a + b) / n;
    assert w * n == (a / n) * n + (b / n) * n - ((a + b) / n) * n;
    DivisionSign(w * n, n);
    assert (w * n) / n == w;
  }

  /** A mean has the sign of the sum. */
  lemma MeanSign(s: seq<real>)
    requires |s| > 0
    ensures Mean(s) > 0.0 <==> Sum(s) > 0.0
    ensures Mean(s) == 0.0 <==> Sum(s) == 0.0
  {
    DivisionSign(Sum(s), |s| as real);
  }

  lemma {:induction false} SumNonNegative(s: seq<real>)
    requires forall x :: x in s ==> x >= 0.0
    ensures Sum(s) >= 0.0
  {
    if s != [] {
      assert s[0] in s;
      assert forall x :: x in s[1..] ==> x in s;
      SumNonNegative(s[1..]);
    }
  }

  /** A sum of non-negative terms is zero exactly when every term is zero. */
  lemma {:induction false} SumZeroIff(s: seq<real>)
    requires forall x :: x in s ==> x >= 0.0
    ensures Sum(s) == 0.0 <==> forall x :: x in s ==> x == 0.0
  {
    if s != [] {
      assert s[0] in s;
      assert forall x :: x in s[1..] ==> x in s;
      SumZeroIff(s[1..]);
      SumNonNegative(s[1..]);
      assert s == [s[0]] + s[1..];
    }
  }

  lemma {:induction false} SumBounded(s: seq<real>, b: real)
    requires forall x :: x in s ==> x <= b
    ensures Sum(s) <= |s| as real * b
  {
    if s != [] {
      assert s[0] in s;
      assert forall x :: x in s[1..] ==> x in s;
      SumBounded(s[1..], b);
    }
  }

  lemma ProductBounds(q: real, m: real)
    requires 0.0 <= q <= 1.0 && m >= 0.0
    ensures 0.0 <= q * m <= m
  {
  }

  /** Linear interpolation stays between its end points. */
  lemma InterpolationBounds(a: real, b: real, t: real)
    requires a <= b && 0.0 <= t <= 1.0
    ensures a <= a + (b - a) * t <= b
  {
    ProductBounds(t, b - a);
    var d := (b - a) * t;
    assert d == t * (b - a);
    assert 0.0 <= d <= b - a;
  }

  function Self(x: real): real
  {
    x
  }

  /** The fractional position `q*(n-1)` of the `q` quantile among `n`
      sorted values. */
  function Position(q: real, n: int): real
  {
    q * (n - 1) as real
  }

  /** The position of a quantile falls inside the index range. */
  lemma PositionBounds(q: real, n: nat)
    requires 0.0 <= q <= 1.0 && n > 0
    ensures 0.0 <= Position(q, n) <= (n - 1) as real
  {
    ProductBounds(q, (n - 1) as real);
  }

  /** Linear interpolation between the neighbouring order statistics of a
      sorted sequence at position `q*(n-1)`: at a whole position `k` the
      result is the `k`-th value, and otherwise it lies between the values
      at the two whole positions around it. */
  function Interpolate(v: seq<real>, q: real): (r: real)
    requires |v| > 0 && 0.0 <= q <= 1.0
    requires SortedBy(v, Self)
    ensures exists i :: 0 <= i < |v| && v[i] <= r
    ensures exists j :: 0 <= j < |v| && r <= v[j]
    ensures forall k :: 0 <= k < |v| && Position(q, |v|) == k as real ==> r == v[k]
    ensures var lo := Position(q, |v|).Floor;
      0 <= lo < |v| && v[lo] <= r <= v[if lo + 1 < |v| then lo + 1 else lo]
  {
    PositionBounds(q, |v|);
    InterpolateAt(v, Position(q, |v|))
  }

  /** The interpolation at a fractional position `pos` in `[0, n-1]`. */
  function InterpolateAt(v: seq<real>, pos: real): (r: real)
    requires |v| > 0 && 0.0 <= pos <= (|v| - 1) as real
    requires SortedBy(v, Self)
    ensures exists i :: 0 <= i < |v| && v[i] <= r
    ensures exists j :: 0 <= j < |v| && r <= v[j]
    ensures forall k :: 0 <= k < |v| && pos == k as real ==> r == v[k]
    ensures 0 <= pos.Floor < |v| && v[pos.Floor] <= r <= v[if pos.Floor + 1 < |v| then pos.Floor + 1 else pos.Floor]
  {
    var n := |v|;
    var lo := pos.Floor;
    var hi := if lo + 1 < n then lo + 1 else lo;
    var frac := pos - lo as real;
    assert Self(v[lo]) <= Self(v[hi]);
    InterpolationBounds(v[lo], v[hi], frac);
    InterpolationAt(v, pos, lo, hi, frac);
    v[lo] + (v[hi] - v[lo]) * frac
  }

  /** At a whole position the interpolated value is the value there. */
  lemma InterpolationAt(v: seq<real>, pos: real, lo: int, hi: int, frac: real)
    requires SortedBy(v, Self) && 0 <= lo <= hi < |v| && lo == pos.Floor
    requires hi == (if lo + 1 < |v| then lo + 1 else lo)
    requires frac == pos - lo as real && 0.0 <= frac < 1.0
    ensures forall k :: 0 <= k < |v| && pos == k as real ==> v[lo] + (v[hi] - v[lo]) * frac == v[k]
  {
    var r := v[lo] + (v[hi] - v[lo]) * frac;
    forall k | 0 <= k < |v| && pos == k as real
      ensures r == v[k]
    {
      assert lo == k;
    }
  }

  /** `Series.quantile(q)` with pandas' default linear interpolation: the
      value at fractional position q*(n-1) of the sorted values, NaN (None)
      for an empty series. At a whole position `k` it is the `k`-th
      smallest value; so `q = 0` gives the minimum and `q = 1` the maximum.
      Otherwise it lies between the smallest and the largest value. */
  function Quantile(s: seq<real>, q: real): (r: Option<real>)
    requires 0.0 <= q <= 1.0
    ensures r.None? <==> s == []
    ensures r.Some? ==> exists x :: x in s && x <= r.value
    ensures r.Some? ==> exists y :: y in s && r.value <= y
    ensures r.Some? ==> forall k :: 0 <= k < |s| && Position(q, |s|) == k as real ==>
      r.value == SortBy(s, Self)[k]
    ensures r.Some? && q == 0.0 ==> r.value in s && forall x :: x in s ==> r.value <= x
    ensures r.Some? && q == 1.0 ==> r.value in s && forall x :: x in s ==> x <= r.value
  {
    if s == [] then None
    else
      var v := SortBy(s, Self);
      var r := Interpolate(v, q);
      var i :| 0 <= i < |v| && v[i] <= r;
      var j :| 0 <= j < |v| && r <= v[j];
      assert v[i] in multiset(s) && v[j] in multiset(s);
      assert v[i] in s && v[j] in s;
      SortedEnds(s, v);
      InterpolateEnds(v, q);
      QuantileWhole(s, q);
      Some(r)
  }

  /** Position 0 interpolates to the first value, position 1 to the last. */
  lemma InterpolateEnds(v: seq<real>, q: real)
    requires |v| > 0 && 0.0 <= q <= 1.0 && SortedBy(v, Self)
    ensures q == 0.0 ==> Interpolate(v, q) == v[0]
    ensures q == 1.0 ==> Interpolate(v, q) == v[|v| - 1]
  {
    if q == 0.0 {
      assert Position(q, |v|) == 0 as real;
    } else if q == 1.0 {
      assert Position(q, |v|) == (|v| - 1) as real;
    }
  }

  /** At a whole position `k` the quantile is the `k`-th smallest value. */
  lemma QuantileWhole(s: seq<real>, q: real)
    requires s != [] && 0.0 <= q <= 1.0
    ensures forall k :: 0 <= k < |s| && Position(q, |s|) == k as real ==>
      Interpolate(SortBy(s, Self), q) == SortBy(s, Self)[k]
  {
    var v := SortBy(s, Self);
    assert Position(q, |v|) == Position(q, |s|);
  }

  /** The first element of a sorted copy is the least of the original, the
      last one the greatest. */
  lemma SortedEnds(s: seq<real>, v: seq<real>)
    requires |v| == |s| > 0 && multiset(v) == multiset(s) && SortedBy(v, Self)
    ensures v[0] in s && v[|v| - 1] in s
    ensures forall x :: x in s ==> v[0] <= x <= v[|v| - 1]
  {
    assert v[0] in multiset(s) && v[|v| - 1] in multiset(s);
    forall x | x in s
      ensures v[0] <= x <= v[|v| - 1]
    {
      assert x in multiset(v);
      var i :| 0 <= i < |v| && v[i] == x;
      assert Self(v[0]) <= Self(v[i]) <= Self(v[|v| - 1]);
    }
  }
}
