/** pandas' `interpolate(method='index')` applied, as factors.py and ccModel.py
    both apply it, to the slice of a column between its first and last valid
    entries: a missing cell that has a known value somewhere before it and
    somewhere after it gets the straight-line value between its nearest known
    neighbours, measured on the index; every other cell keeps what it had. */
module Interpolation {
  import opened Common

  /** The value at `x` on the straight line through (x0, y0) and (x1, y1). */
  function Lerp(x0: real, y0: real, x1: real, y1: real, x: real): real
    requires x0 < x1
  {
    y0 + (y1 - y0) * ((x - x0) / (x1 - x0))
  }

  /** Between its two ends the line stays between the two end values. */
  lemma LerpBetween(x0: real, y0: real, x1: real, y1: real, x: real)
    requires x0 < x1 && x0 <= x <= x1
    ensures y0 <= y1 ==> y0 <= Lerp(x0, y0, x1, y1, x) <= y1
    ensures y1 <= y0 ==> y1 <= Lerp(x0, y0, x1, y1, x) <= y0
  {
    Fraction(x - x0, x1 - x0);
    ScaleWithin(y1 - y0, (x - x0) / (x1 - x0));
  }

  /** A part of a positive whole, divided by the whole, lies in [0, 1]. */
  lemma Fraction(n: real, d: real)
    requires 0.0 <= n <= d && 0.0 < d
    ensures 0.0 <= n / d <= 1.0
  {
    assert (n / d) * d == n;
  }

  /** Multiplying by a fraction in [0, 1] keeps a number between 0 and itself. */
  lemma ScaleWithin(d: real, t: real)
    requires 0.0 <= t <= 1.0
    ensures d >= 0.0 ==> 0.0 <= d * t <= d
    ensures d <= 0.0 ==> d <= d * t <= 0.0
  {
    if d >= 0.0 {
      assert d * t <= d * 1.0;
    } else {
      assert d * t >= d * 1.0;
    }
  }

  /** Interpolation on one segment is linear in the end values. */
  lemma LerpAdd(x0: real, x1: real, x: real, a: real, b: real, a': real, b': real)
    requires x0 < x1
    ensures Lerp(x0, a + a', x1, b + b', x) == Lerp(x0, a, x1, b, x) + Lerp(x0, a', x1, b', x)
  {
    var t := (x - x0) / (x1 - x0);
    calc {
      Lerp(x0, a + a', x1, b + b', x);
      (a + a') + ((b - a) + (b' - a')) * t;
      { assert ((b - a) + (b' - a')) * t == (b - a) * t + (b' - a') * t; }
      (a + (b - a) * t) + (a' + (b' - a') * t);
    }
  }

  /** The nearest valid position strictly before `i`. */
  function LastValidBefore(col: seq<Option<real>>, i: nat): (p: Option<nat>)
    requires i <= |col|
    ensures p.Some? ==> p.value < i && col[p.value].Some?
    ensures p.Some? ==> forall m :: p.value < m < i ==> col[m].None?
    ensures p.None? ==> forall m :: 0 <= m < i ==> col[m].None?
    decreases i
  {
    if i == 0 then None
    else if col[i - 1].Some? then Some(i - 1)
    else LastValidBefore(col, i - 1)
  }

  /** The nearest valid position at or after `i`. */
  function FirstValidFrom(col: seq<Option<real>>, i: nat): (q: Option<nat>)
    requires i <= |col|
    ensures q.Some? ==> i <= q.value < |col| && col[q.value].Some?
    ensures q.Some? ==> forall m :: i <= m < q.value ==> col[m].None?
    ensures q.None? ==> forall m :: i <= m < |col| ==> col[m].None?
    decreases |col| - i
  {
    if i == |col| then None
    else if col[i].Some? then Some(i)
    else FirstValidFrom(col, i + 1)
  }

  /** `p` and `q` hold values and every cell strictly between them is missing. */
  ghost predicate Neighbours(col: seq<Option<real>>, p: int, q: int)
    requires 0 <= p < q < |col|
  {
    col[p].Some? && col[q].Some? && forall m :: p < m < q ==> col[m].None?
  }

  /** Some cell at or before `i` holds a value, and so does some cell at or
      after it: `i` lies in the column's first..last valid slice. */
  ghost predicate InValidSpan(col: seq<Option<real>>, i: int)
  {
    (exists p :: 0 <= p <= i && p < |col| && col[p].Some?) &&
    (exists q :: 0 <= i <= q < |col| && col[q].Some?)
  }

  /** One cell of the interpolated column. */
  function InterpolatedAt(col: seq<Option<real>>, xs: seq<real>, i: nat): (v: Option<real>)
    requires |xs| == |col| && StrictlyIncreasing(xs) && i < |col|
    ensures col[i].Some? ==> v == col[i]
    ensures v.Some? <==> InValidSpan(col, i)
    ensures forall p, q {:trigger Neighbours(col, p, q)} :: 0 <= p < i < q < |col| && Neighbours(col, p, q) ==>
      v == Some(Lerp(xs[p], col[p].value, xs[q], col[q].value, xs[i]))
  {
    if col[i].Some? then col[i]
    else
      var before, after := LastValidBefore(col, i), FirstValidFrom(col, i);
      if before.Some? && after.Some? then
        Some(Lerp(xs[before.value], col[before.value].value, xs[after.value], col[after.value].value, xs[i]))
      else None
  }

  /** The interpolated column. */
  function Interpolate(col: seq<Option<real>>, xs: seq<real>): (r: seq<Option<real>>)
    requires |xs| == |col| && StrictlyIncreasing(xs)
    ensures |r| == |col|
    ensures forall i :: 0 <= i < |col| && col[i].Some? ==> r[i] == col[i]
    ensures forall i :: 0 <= i < |col| ==> (r[i].Some? <==> InValidSpan(col, i))
    ensures forall i, p, q {:trigger r[i], Neighbours(col, p, q)} ::
      0 <= p < i < q < |col| && Neighbours(col, p, q) ==>
        r[i] == Some(Lerp(xs[p], col[p].value, xs[q], col[q].value, xs[i]))
  {
    var r := seq(|col|, i requires 0 <= i < |col| => InterpolatedAt(col, xs, i));
    assert forall i :: 0 <= i < |col| ==> r[i] == InterpolatedAt(col, xs, i);
    r
  }

  /** A filled cell lies between the known values on either side of it. */
  lemma FilledBetweenNeighbours(col: seq<Option<real>>, xs: seq<real>, p: nat, i: nat, q: nat)
    requires |xs| == |col| && StrictlyIncreasing(xs)
    requires p < i < q < |col| && Neighbours(col, p, q)
    ensures Interpolate(col, xs)[i].Some?
    ensures var v, lo, hi := Interpolate(col, xs)[i].value, col[p].value, col[q].value;
      (lo <= hi ==> lo <= v <= hi) && (hi <= lo ==> hi <= v <= lo)
  {
    var r := Interpolate(col, xs);
    assert r[i] == Some(Lerp(xs[p], col[p].value, xs[q], col[q].value, xs[i]));
    LerpBetween(xs[p], col[p].value, xs[q], col[q].value, xs[i]);
  }

  /** Two columns that are missing in the same places. */
  predicate SameMask(a: seq<Option<real>>, b: seq<Option<real>>)
  {
    |a| == |b| && forall i :: 0 <= i < |a| ==> (a[i].Some? <==> b[i].Some?)
  }

  /** Columns missing in the same places have the same valid slices and the
      same neighbouring pairs. */
  lemma SameMaskSameShape(a: seq<Option<real>>, b: seq<Option<real>>)
    requires SameMask(a, b)
    ensures forall i :: InValidSpan(a, i) <==> InValidSpan(b, i)
    ensures forall p, q :: 0 <= p < q < |a| ==> (Neighbours(a, p, q) <==> Neighbours(b, p, q))
  {
  }

  /** A missing cell inside the valid slice has a nearest valid cell on each side. */
  lemma SpanNeighbours(col: seq<Option<real>>, i: nat) returns (p: nat, q: nat)
    requires i < |col| && col[i].None? && InValidSpan(col, i)
    ensures p < i < q < |col| && Neighbours(col, p, q)
  {
    p := LastValidBefore(col, i).value;
    q := FirstValidFrom(col, i).value;
  }

  /** Interpolating a sum column cell by cell gives the sum of the interpolated
      columns: `o` holds the interpolated cells of one row, `a` and `b` the
      rows of its two known neighbours. */
  lemma {:induction false} LerpOfSum(x0: real, x1: real, x: real, a: seq<Option<real>>, b: seq<Option<real>>, o: seq<Option<real>>)
    requires x0 < x1 && |a| == |b| == |o|
    requires AllPresent(a) && AllPresent(b)
    requires forall c :: 0 <= c < |o| ==> o[c] == Some(Lerp(x0, a[c].value, x1, b[c].value, x))
    ensures AllPresent(o)
    ensures SumCells(o) == Lerp(x0, SumCells(a), x1, SumCells(b), x)
  {
    if |o| > 0 {
      LerpOfSum(x0, x1, x, a[1..], b[1..], o[1..]);
      LerpAdd(x0, x1, x, a[0].value, b[0].value, SumCells(a[1..]), SumCells(b[1..]));
    }
  }
}
