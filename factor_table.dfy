/** The value-level pieces of factors.py's `CorrectionFactors.loadDict`:
    calibration curves and the store entries they come from, the sign rule,
    the outer merge on frequency, the sort, `dropna` and the total column; and
    `CurveAt`, the piecewise-linear reading of one curve, against which the
    built table is stated. */
module FactorTable {
  import opened Common
  import opened Interpolation

  /** The factor names the per-range store holds. */
  datatype Factor = Antenna | Preamp | Cable | Attenuator | LISN

  /** One line of a calibration file: frequency (MHz) and calibration value. */
  datatype Point = Point(freq: real, value: real)

  type Curve = seq<Point>

  /** One entry of the per-range store: the factor, its file path, whether the
      file system reports the path as existing, and the parsed file. `path` is
      the path in pathlib's normal form, `str(Path(text))`: "./" and ".//" are
      already "." here. */
  datatype Source = Source(factor: Factor, path: string, onDisk: bool, curve: Curve)

  /** `Path("")` and `Path(".")` both equal `Path()`; in normal form every path
      equal to `Path()` is "." (or "" before normalisation). */
  predicate IsEmptyPath(path: string)
  {
    path == "" || path == "."
  }

  /** A store entry is read only when its path exists and is not the empty path. */
  predicate Loaded(s: Source)
  {
    s.onDisk && !IsEmptyPath(s.path)
  }

  predicate DistinctPoints(c: Curve)
  {
    forall i, j :: 0 <= i < j < |c| ==> c[i].freq != c[j].freq
  }

  /** What the CSV reader hands over: at least one line, no frequency twice. */
  predicate WellFormed(c: Curve)
  {
    |c| > 0 && DistinctPoints(c)
  }

  predicate SourcesWellFormed(sources: seq<Source>)
  {
    forall i :: 0 <= i < |sources| && Loaded(sources[i]) ==> WellFormed(sources[i].curve)
  }

  /** The curve scaled by -1. */
  function Negated(c: Curve): (r: Curve)
    ensures |r| == |c|
    ensures forall i :: 0 <= i < |c| ==> r[i] == Point(c[i].freq, -c[i].value)
  {
    seq(|c|, i requires 0 <= i < |c| => Point(c[i].freq, -c[i].value))
  }

  /** The sign test of factors.py:47-51, taken on the first row of the file.
      `factor != ('Preamp' and 'Antenna')` evaluates to `factor != 'Antenna'`. */
  predicate FlipsSign(factor: Factor, first: real)
    ensures FlipsSign(factor, first) ==> factor != Antenna && first != 0.0
  {
    if factor == Preamp && first > 0.0 then true
    else factor != Antenna && first < 0.0
  }

  /** The curve with its sign normalised: every frequency kept; an Antenna
      curve unchanged; a Preamp curve's first value always negated; a Cable,
      Attenuator or LISN curve starting non-negative. */
  function NormalizedSign(factor: Factor, c: Curve): (r: Curve)
    requires |c| > 0
    ensures |r| == |c| && forall i :: 0 <= i < |c| ==> r[i].freq == c[i].freq
    ensures factor == Antenna ==> r == c
    ensures factor == Preamp ==> r[0].value == -c[0].value
    ensures factor in {Cable, Attenuator, LISN} ==> r[0].value >= 0.0
  {
    if FlipsSign(factor, c[0].value) then Negated(c) else c
  }

  /** The sign rule as written, factor by factor: an Antenna curve is never
      negated, a Preamp curve is negated whenever its first value is non-zero
      (a negative one through the `elif`), and Cable, Attenuator and LISN
      curves are negated exactly when their first value is negative. */
  lemma SignRuleAsWritten(factor: Factor, first: real)
    ensures factor == Antenna ==> !FlipsSign(factor, first)
    ensures factor == Preamp ==> (FlipsSign(factor, first) <==> first != 0.0)
    ensures factor in {Cable, Attenuator, LISN} ==> (FlipsSign(factor, first) <==> first < 0.0)
  {
  }

  /** Normalisation keeps every frequency and either leaves every value or
      negates every value; which one depends on the first value alone, and
      after it a Cable, Attenuator or LISN curve starts non-negative. */
  lemma NormalizedSignWholeCurve(factor: Factor, c: Curve, d: Curve)
    requires |c| > 0 && |d| > 0 && c[0].value == d[0].value
    ensures var r := NormalizedSign(factor, c);
      && |r| == |c|
      && (forall i :: 0 <= i < |c| ==> r[i].freq == c[i].freq)
      && ((forall i :: 0 <= i < |c| ==> r[i].value == c[i].value) ||
          (forall i :: 0 <= i < |c| ==> r[i].value == -c[i].value))
    ensures (NormalizedSign(factor, c) == Negated(c)) || NormalizedSign(factor, c) == c
    ensures (NormalizedSign(factor, c) == c && c != Negated(c)) ==> NormalizedSign(factor, d) == d
    ensures factor in {Cable, Attenuator, LISN} ==> NormalizedSign(factor, c)[0].value >= 0.0
  {
    if FlipsSign(factor, c[0].value) {
      assert NormalizedSign(factor, c) == Negated(c);
      assert NormalizedSign(factor, c) != c || c == Negated(c);
    }
  }

  /** The normalised curves of the entries that are read, in store order. */
  function LoadedCurves(sources: seq<Source>): (cs: seq<Curve>)
    requires SourcesWellFormed(sources)
    ensures forall j :: 0 <= j < |cs| ==> WellFormed(cs[j])
    decreases |sources|
  {
    if sources == [] then []
    else
      var last := sources[|sources| - 1];
      var earlier := LoadedCurves(sources[..|sources| - 1]);
      if Loaded(last) then
        var c := NormalizedSign(last.factor, last.curve);
        assert forall i :: 0 <= i < |c| ==> c[i].freq == last.curve[i].freq;
        earlier + [c]
      else earlier
  }

  /** An entry that is not read is skipped silently: leaving it out of the
      store gives the same curves. */
  lemma {:induction false} UnreadSourceIsSkipped(sources: seq<Source>, k: nat)
    requires SourcesWellFormed(sources) && k < |sources| && !Loaded(sources[k])
    ensures SourcesWellFormed(sources[..k] + sources[k + 1..])
    ensures LoadedCurves(sources[..k] + sources[k + 1..]) == LoadedCurves(sources)
    decreases |sources|
  {
    var rest := sources[..k] + sources[k + 1..];
    var n := |sources|;
    if k == n - 1 {
      assert rest == sources[..n - 1];
    } else {
      var front := sources[..n - 1];
      UnreadSourceIsSkipped(front, k);
      assert rest[..|rest| - 1] == front[..k] + front[k + 1..];
      assert rest[|rest| - 1] == sources[n - 1];
    }
  }

  function CurveFreqs(c: Curve): set<real>
  {
    set p | p in c :: p.freq
  }

  /** The frequencies of all curves together. */
  function UnionFreqs(curves: seq<Curve>): (u: set<real>)
    ensures forall f :: f in u <==> exists j :: 0 <= j < |curves| && f in CurveFreqs(curves[j])
    decreases |curves|
  {
    if curves == [] then {}
    else
      var u := UnionFreqs(curves[..|curves| - 1]) + CurveFreqs(curves[|curves| - 1]);
      assert forall j :: 0 <= j < |curves| - 1 ==> curves[..|curves| - 1][j] == curves[j];
      u
  }

  /** The curve's value at a frequency it lists, if it lists it. */
  function CurveValue(c: Curve, f: real): (v: Option<real>)
    ensures v.Some? ==> Point(f, v.value) in c
    ensures v.None? <==> f !in CurveFreqs(c)
  {
    if c == [] then None
    else if c[0].freq == f then Some(c[0].value)
    else CurveValue(c[1..], f)
  }

  lemma CurveValueAt(c: Curve, p: Point)
    requires DistinctPoints(c) && p in c
    ensures CurveValue(c, p.freq) == Some(p.value)
  {
    var v := CurveValue(c, p.freq);
    assert p.freq in CurveFreqs(c);
    var i :| 0 <= i < |c| && c[i] == p;
    var j :| 0 <= j < |c| && c[j] == Point(p.freq, v.value);
    assert i == j;
  }

  /** The point with the highest frequency strictly below `f`. */
  function MaxBelow(c: Curve, f: real): (b: Option<Point>)
    ensures b.Some? ==> b.value in c && b.value.freq < f
    ensures b.Some? ==> forall p :: p in c && p.freq < f ==> p.freq <= b.value.freq
    ensures b.None? ==> forall p :: p in c ==> f <= p.freq
  {
    if c == [] then None
    else
      var rest := MaxBelow(c[1..], f);
      if c[0].freq < f && (rest.None? || rest.value.freq < c[0].freq) then Some(c[0]) else rest
  }

  /** The point with the lowest frequency strictly above `f`. */
  function MinAbove(c: Curve, f: real): (a: Option<Point>)
    ensures a.Some? ==> a.value in c && f < a.value.freq
    ensures a.Some? ==> forall p :: p in c && f < p.freq ==> a.value.freq <= p.freq
    ensures a.None? ==> forall p :: p in c ==> p.freq <= f
  {
    if c == [] then None
    else
      var rest := MinAbove(c[1..], f);
      if f < c[0].freq && (rest.None? || c[0].freq < rest.value.freq) then Some(c[0]) else rest
  }

  /** The curve read as a piecewise-linear function of frequency: its own value
      at a listed frequency, the straight line between the nearest listed
      points below and above elsewhere, and nothing outside its first..last
      frequency. */
  function CurveAt(c: Curve, f: real): Option<real>
  {
    match CurveValue(c, f)
    case Some(v) => Some(v)
    case None =>
      var below, above := MaxBelow(c, f), MinAbove(c, f);
      if below.Some? && above.Some? then
        Some(Lerp(below.value.freq, below.value.value, above.value.freq, above.value.value, f))
      else None
  }

  /** `CurveAt` has a value exactly inside the curve's frequency span. */
  lemma CurveAtSpan(c: Curve, f: real)
    ensures CurveAt(c, f).Some? <==>
      (exists p :: p in c && p.freq <= f) && (exists p :: p in c && f <= p.freq)
  {
    if CurveValue(c, f).None? {
      if exists p :: p in c && p.freq <= f {
        var p :| p in c && p.freq <= f;
        assert p.freq != f;
      }
      if exists p :: p in c && f <= p.freq {
        var p :| p in c && f <= p.freq;
        assert p.freq != f;
      }
    }
  }

  /** At a listed frequency `CurveAt` gives the listed value; elsewhere it lies
      between the values of the nearest listed points below and above. */
  lemma CurveAtBetween(c: Curve, f: real)
    requires DistinctPoints(c)
    ensures forall p :: p in c ==> CurveAt(c, p.freq) == Some(p.value)
    ensures CurveValue(c, f).None? && CurveAt(c, f).Some? ==>
      MaxBelow(c, f).Some? && MinAbove(c, f).Some? &&
      var v, lo, hi := CurveAt(c, f).value, MaxBelow(c, f).value.value, MinAbove(c, f).value.value;
      (lo <= hi ==> lo <= v <= hi) && (hi <= lo ==> hi <= v <= lo)
  {
    forall p | p in c ensures CurveAt(c, p.freq) == Some(p.value) {
      CurveValueAt(c, p);
    }
    var below, above := MaxBelow(c, f), MinAbove(c, f);
    if CurveValue(c, f).None? && below.Some? && above.Some? {
      LerpBetween(below.value.freq, below.value.value, above.value.freq, above.value.value, f);
    }
  }

  // ---------------------------------------------------------------------------
  // Tables: rows of cells keyed by frequency

  /** One row of the correction-factor frame: the frequency and one cell per
      value column, in column order. */
  datatype Row = Row(freq: real, cells: seq<Option<real>>)

  function Freqs(rows: seq<Row>): (xs: seq<real>)
    ensures |xs| == |rows| && forall i :: 0 <= i < |rows| ==> xs[i] == rows[i].freq
  {
    seq(|rows|, i requires 0 <= i < |rows| => rows[i].freq)
  }

  function FreqSet(rows: seq<Row>): set<real>
  {
    set r | r in rows :: r.freq
  }

  predicate DistinctRows(rows: seq<Row>)
  {
    forall i, j :: 0 <= i < j < |rows| ==> rows[i].freq != rows[j].freq
  }

  predicate SortedRows(rows: seq<Row>)
  {
    forall i, j :: 0 <= i < j < |rows| ==> rows[i].freq < rows[j].freq
  }

  predicate HasColumn(rows: seq<Row>, c: nat)
  {
    forall i :: 0 <= i < |rows| ==> c < |rows[i].cells|
  }

  function Column(rows: seq<Row>, c: nat): (col: seq<Option<real>>)
    requires HasColumn(rows, c)
    ensures |col| == |rows| && forall i :: 0 <= i < |rows| ==> col[i] == rows[i].cells[c]
  {
    seq(|rows|, i requires 0 <= i < |rows| => rows[i].cells[c])
  }

  /** The frame with column `c` replaced by `col`. */
  function WithColumn(rows: seq<Row>, c: nat, col: seq<Option<real>>): (r: seq<Row>)
    requires HasColumn(rows, c) && |col| == |rows|
    ensures |r| == |rows|
    ensures forall i :: 0 <= i < |rows| ==> r[i] == Row(rows[i].freq, rows[i].cells[c := col[i]])
  {
    seq(|rows|, i requires 0 <= i < |rows| => Row(rows[i].freq, rows[i].cells[c := col[i]]))
  }

  /** The frame after a series of outer merges: each frequency of each curve
      once, and in column `j` the `j`-th curve's value at the row's frequency,
      or a gap where that curve does not list it. */
  ghost predicate Merged(rows: seq<Row>, curves: seq<Curve>)
  {
    && DistinctRows(rows)
    && FreqSet(rows) == UnionFreqs(curves)
    && forall r :: r in rows ==>
         |r.cells| == |curves| &&
         forall j :: 0 <= j < |curves| ==> r.cells[j] == CurveValue(curves[j], r.freq)
  }

  /** The rows of `c` whose frequency the frame does not have yet, with gaps in
      the `width` existing columns. */
  function Unmatched(known: set<real>, width: nat, c: Curve): (r: seq<Row>)
    requires DistinctPoints(c)
    ensures DistinctRows(r)
    ensures forall x :: x in r ==>
      x.freq !in known && x.freq in CurveFreqs(c) && x.cells == Nones(width) + [CurveValue(c, x.freq)]
    ensures forall f :: f in CurveFreqs(c) && f !in known ==> f in FreqSet(r)
  {
    if c == [] then []
    else
      HeadNotInTail(c);
      var rest := Unmatched(known, width, c[1..]);
      if c[0].freq in known then rest
      else
        var x := Row(c[0].freq, Nones(width) + [Some(c[0].value)]);
        assert c[0].freq !in FreqSet(rest);
        assert forall j :: 0 <= j < |rest| ==> rest[j] in rest;
        [x] + rest
  }

  /** With distinct frequencies, the tail of a curve does not list the head's
      frequency, and its value at any other frequency is the curve's. */
  lemma HeadNotInTail(c: Curve)
    requires |c| > 0 && DistinctPoints(c)
    ensures DistinctPoints(c[1..]) && c[0].freq !in CurveFreqs(c[1..])
    ensures CurveFreqs(c) == CurveFreqs(c[1..]) + {c[0].freq}
  {
    assert forall p :: p in c <==> p == c[0] || p in c[1..];
  }

  /** The frame's rows with the new curve's value appended as the last cell. */
  function Extended(rows: seq<Row>, c: Curve): (r: seq<Row>)
    ensures |r| == |rows|
    ensures forall i :: 0 <= i < |rows| ==>
      r[i] == Row(rows[i].freq, rows[i].cells + [CurveValue(c, rows[i].freq)])
  {
    seq(|rows|, i requires 0 <= i < |rows| => Row(rows[i].freq, rows[i].cells + [CurveValue(c, rows[i].freq)]))
  }

  /** `cf.merge(cfLocal, on=xcol, how='outer')`: the row order is not modelled
      (the frame is sorted right after). */
  function OuterMerge(rows: seq<Row>, width: nat, c: Curve): (r: seq<Row>)
    requires DistinctPoints(c)
    ensures |rows| <= |r|
    ensures forall i :: 0 <= i < |rows| ==>
      r[i] == Row(rows[i].freq, rows[i].cells + [CurveValue(c, rows[i].freq)])
    ensures forall i :: |rows| <= i < |r| ==>
      r[i].freq !in FreqSet(rows) && r[i].freq in CurveFreqs(c) && r[i].cells == Nones(width) + [CurveValue(c, r[i].freq)]
  {
    var u := Unmatched(FreqSet(rows), width, c);
    assert forall i :: 0 <= i < |u| ==> u[i] in u;
    Extended(rows, c) + u
  }

  /** The outer merge adds one column holding the new curve and keeps every
      frequency once: the frame's frequencies become the union of the curves'. */
  lemma OuterMergeKeepsMerged(rows: seq<Row>, curves: seq<Curve>, c: Curve)
    requires Merged(rows, curves) && DistinctPoints(c)
    ensures Merged(OuterMerge(rows, |curves|, c), curves + [c])
  {
    var all := curves + [c];
    var m := OuterMerge(rows, |curves|, c);
    assert all[..|all| - 1] == curves;
    assert UnionFreqs(all) == UnionFreqs(curves) + CurveFreqs(c);
    OuterMergeDistinct(rows, |curves|, c);
    OuterMergeFreqs(rows, |curves|, c);
    forall x | x in m
      ensures |x.cells| == |all| && forall j :: 0 <= j < |all| ==> x.cells[j] == CurveValue(all[j], x.freq)
    {
      OuterMergeCells(rows, curves, c, x);
    }
  }

  lemma OuterMergeDistinct(rows: seq<Row>, width: nat, c: Curve)
    requires DistinctRows(rows) && DistinctPoints(c)
    ensures DistinctRows(OuterMerge(rows, width, c))
  {
    var e, u := Extended(rows, c), Unmatched(FreqSet(rows), width, c);
    var m := e + u;
    forall i, j | 0 <= i < j < |m| ensures m[i].freq != m[j].freq {
      if j < |e| {
      } else if i < |e| {
        assert m[i].freq in FreqSet(rows) by { assert rows[i] in rows; }
        assert m[j] in u;
      } else {
        assert m[i] == u[i - |e|] && m[j] == u[j - |e|];
      }
    }
  }

  lemma OuterMergeFreqs(rows: seq<Row>, width: nat, c: Curve)
    requires DistinctPoints(c)
    ensures FreqSet(OuterMerge(rows, width, c)) == FreqSet(rows) + CurveFreqs(c)
  {
    var e, u := Extended(rows, c), Unmatched(FreqSet(rows), width, c);
    var m := e + u;
    forall f | f in FreqSet(rows) + CurveFreqs(c) ensures f in FreqSet(m) {
      if f in FreqSet(rows) {
        var r :| r in rows && r.freq == f;
        var i :| 0 <= i < |rows| && rows[i] == r;
        assert m[i] == e[i];
      } else {
        var x :| x in u && x.freq == f;
        assert x in m;
      }
    }
    forall x | x in m ensures x.freq in FreqSet(rows) + CurveFreqs(c) {
      if x in e {
        var i :| 0 <= i < |e| && e[i] == x;
        assert rows[i] in rows;
      }
    }
  }

  lemma OuterMergeCells(rows: seq<Row>, curves: seq<Curve>, c: Curve, x: Row)
    requires Merged(rows, curves) && DistinctPoints(c)
    requires x in OuterMerge(rows, |curves|, c)
    ensures |x.cells| == |curves| + 1
    ensures forall j :: 0 <= j < |curves| + 1 ==> x.cells[j] == CurveValue((curves + [c])[j], x.freq)
  {
    var m := OuterMerge(rows, |curves|, c);
    var n :| 0 <= n < |m| && m[n] == x;
    if n < |rows| {
      ExtendedRowCells(rows, curves, c, n);
    } else {
      AddedRowCells(FreqSet(rows), curves, c, x);
    }
  }

  /** An existing row with the new curve's value appended holds every curve's value. */
  lemma ExtendedRowCells(rows: seq<Row>, curves: seq<Curve>, c: Curve, n: nat)
    requires Merged(rows, curves) && n < |rows|
    ensures var x := Row(rows[n].freq, rows[n].cells + [CurveValue(c, rows[n].freq)]);
      && |x.cells| == |curves| + 1
      && forall j :: 0 <= j < |curves| + 1 ==> x.cells[j] == CurveValue((curves + [c])[j], x.freq)
  {
    assert rows[n] in rows;
  }

  /** A row added for a frequency no earlier curve lists holds every curve's value. */
  lemma AddedRowCells(known: set<real>, curves: seq<Curve>, c: Curve, x: Row)
    requires known == UnionFreqs(curves) && x.freq !in known
    requires x.cells == Nones(|curves|) + [CurveValue(c, x.freq)]
    ensures |x.cells| == |curves| + 1
    ensures forall j :: 0 <= j < |curves| + 1 ==> x.cells[j] == CurveValue((curves + [c])[j], x.freq)
  {
    forall j | 0 <= j < |curves| ensures CurveValue(curves[j], x.freq).None? {
      assert x.freq !in CurveFreqs(curves[j]);
    }
  }

  /** Inserts a row into a frame sorted by frequency. */
  function Insert(x: Row, s: seq<Row>): (r: seq<Row>)
    requires SortedRows(s) && x.freq !in FreqSet(s)
    ensures SortedRows(r) && |r| == |s| + 1
    ensures forall y :: y in r <==> y == x || y in s
  {
    if s == [] then [x]
    else if x.freq < s[0].freq then
      assert forall y :: y in s ==> x.freq < y.freq by {
        TailAbove(s);
      }
      ConsSorted(x, s);
      [x] + s
    else
      assert s[0] in s;
      var rest := Insert(x, s[1..]);
      TailAbove(s);
      ConsSorted(s[0], rest);
      [s[0]] + rest
  }

  /** In sorted rows every row after the first has a higher frequency. */
  lemma TailAbove(rows: seq<Row>)
    requires SortedRows(rows) && rows != []
    ensures forall y :: y in rows[1..] ==> rows[0].freq < y.freq
    ensures forall y :: y in rows ==> rows[0].freq <= y.freq
  {
    forall y | y in rows
      ensures rows[0].freq <= y.freq
    {
      var j :| 0 <= j < |rows| && rows[j] == y;
    }
    forall y | y in rows[1..]
      ensures rows[0].freq < y.freq
    {
      var j :| 0 <= j < |rows[1..]| && rows[1..][j] == y;
      assert rows[j + 1] == y;
    }
  }

  /** A row below every row of a sorted sequence can be put in front of it. */
  lemma ConsSorted(x: Row, rest: seq<Row>)
    requires SortedRows(rest) && forall y :: y in rest ==> x.freq < y.freq
    ensures SortedRows([x] + rest)
  {
    assert forall j :: 0 <= j < |rest| ==> rest[j] in rest;
  }

  function SortRows(rows: seq<Row>): (r: seq<Row>)
    requires DistinctRows(rows)
    ensures SortedRows(r) && |r| == |rows|
    ensures forall y :: y in r <==> y in rows
  {
    if rows == [] then []
    else
      var rest := SortRows(rows[1..]);
      assert rows[0].freq !in FreqSet(rest) by {
        forall y | y in rest ensures y.freq != rows[0].freq {
          var j :| 0 <= j < |rows[1..]| && rows[1..][j] == y;
          assert rows[j + 1] == y;
        }
      }
      Insert(rows[0], rest)
  }

  /** Sorting keeps the merged frame and orders it by frequency. */
  lemma SortKeepsMerged(rows: seq<Row>, curves: seq<Curve>)
    requires Merged(rows, curves)
    ensures SortedRows(SortRows(rows)) && Merged(SortRows(rows), curves)
  {
    var s := SortRows(rows);
    assert FreqSet(s) == FreqSet(rows);
  }

  /** `dropna()`: keeps the rows without a gap, in order. */
  function DropNa(rows: seq<Row>): (r: seq<Row>)
    ensures forall x :: x in r <==> x in rows && AllPresent(x.cells)
  {
    if rows == [] then []
    else
      var rest := DropNa(rows[1..]);
      if AllPresent(rows[0].cells) then [rows[0]] + rest else rest
  }

  /** `dropna` keeps a frame sorted by frequency sorted. */
  lemma {:induction false} DropNaSorted(rows: seq<Row>)
    requires SortedRows(rows)
    ensures SortedRows(DropNa(rows))
  {
    if rows != [] {
      DropNaSorted(rows[1..]);
      if AllPresent(rows[0].cells) {
        TailAbove(rows);
        ConsSorted(rows[0], DropNa(rows[1..]));
      }
    }
  }

  /** `cf['Total Correction Factor'] = cf.sum(axis=1)`. */
  function AddTotal(rows: seq<Row>): (r: seq<Row>)
    ensures |r| == |rows|
    ensures forall i :: 0 <= i < |rows| ==>
      r[i] == Row(rows[i].freq, rows[i].cells + [Some(SumCells(rows[i].cells))])
  {
    seq(|rows|, i requires 0 <= i < |rows| => Row(rows[i].freq, rows[i].cells + [Some(SumCells(rows[i].cells))]))
  }

  /** A finished correction-factor table with `k` factor columns: sorted by
      frequency, no gap, and the last column the sum of the `k` before it. */
  ghost predicate IsFactorTable(rows: seq<Row>, k: nat)
  {
    SortedRows(rows) &&
    forall r :: r in rows ==>
      |r.cells| == k + 1 && AllPresent(r.cells) && r.cells[k].value == SumCells(r.cells[..k])
  }

  /** The merged frame after every column has been interpolated over frequency. */
  ghost predicate Interpolated(rows: seq<Row>, curves: seq<Curve>)
  {
    SortedRows(rows) && FreqSet(rows) == UnionFreqs(curves) &&
    forall r :: r in rows ==>
      |r.cells| == |curves| &&
      forall j :: 0 <= j < |curves| ==> r.cells[j] == CurveAt(curves[j], r.freq)
  }

  /** What `loadDict` builds from the curves: one row per frequency of any curve
      that lies inside every curve's span, each factor cell that curve's
      piecewise-linear value there, then the total. */
  ghost predicate TableOf(rows: seq<Row>, curves: seq<Curve>)
  {
    && IsFactorTable(rows, |curves|)
    && (forall r :: r in rows ==>
          forall j :: 0 <= j < |curves| ==> r.cells[j] == CurveAt(curves[j], r.freq))
    && (forall f :: f in FreqSet(rows) <==>
          f in UnionFreqs(curves) && forall j :: 0 <= j < |curves| ==> CurveAt(curves[j], f).Some?)
  }

  /** Interpolating column `j` of the sorted merged frame over frequency gives,
      row by row, the `j`-th curve's piecewise-linear value: the nearest valid
      rows of the column are the curve's nearest points. */
  lemma InterpolatedColumnIsCurve(rows: seq<Row>, curves: seq<Curve>, j: nat, i: nat)
    requires SortedRows(rows) && Merged(rows, curves)
    requires j < |curves| && DistinctPoints(curves[j]) && i < |rows|
    ensures HasColumn(rows, j)
    ensures Interpolate(Column(rows, j), Freqs(rows))[i] == CurveAt(curves[j], rows[i].freq)
  {
    ColumnIsCurveValue(rows, curves, j);
    var col, c, f := Column(rows, j), curves[j], rows[i].freq;
    if col[i].None? {
      var below, above := MaxBelow(c, f), MinAbove(c, f);
      if below.Some? && above.Some? {
        InsideSpanIsLerp(rows, curves, j, i);
      } else {
        OutsideSpanStaysMissing(rows, c, col, i);
      }
    }
  }

  /** Column `j` of the merged frame holds the `j`-th curve's listed values. */
  lemma ColumnIsCurveValue(rows: seq<Row>, curves: seq<Curve>, j: nat)
    requires Merged(rows, curves) && j < |curves|
    ensures HasColumn(rows, j)
    ensures forall m :: 0 <= m < |rows| ==> Column(rows, j)[m] == CurveValue(curves[j], rows[m].freq)
  {
    assert forall m :: 0 <= m < |rows| ==> rows[m] in rows;
  }

  lemma InsideSpanIsLerp(rows: seq<Row>, curves: seq<Curve>, j: nat, i: nat)
    requires SortedRows(rows) && Merged(rows, curves)
    requires j < |curves| && DistinctPoints(curves[j]) && i < |rows|
    requires HasColumn(rows, j) && Column(rows, j)[i].None?
    requires MaxBelow(curves[j], rows[i].freq).Some? && MinAbove(curves[j], rows[i].freq).Some?
    ensures Interpolate(Column(rows, j), Freqs(rows))[i] == CurveAt(curves[j], rows[i].freq)
  {
    ColumnIsCurveValue(rows, curves, j);
    var c, f := curves[j], rows[i].freq;
    var b, a := MaxBelow(c, f).value, MinAbove(c, f).value;
    assert b.freq in UnionFreqs(curves) && a.freq in UnionFreqs(curves) by {
      assert b.freq in CurveFreqs(c) && a.freq in CurveFreqs(c);
    }
    var rb :| rb in rows && rb.freq == b.freq;
    var ra :| ra in rows && ra.freq == a.freq;
    var p :| 0 <= p < |rows| && rows[p] == rb;
    var q :| 0 <= q < |rows| && rows[q] == ra;
    NearestPointsAreNeighbours(rows, c, Column(rows, j), p, i, q);
  }

  /** The rows holding the curve's nearest points below and above a missing
      cell are that cell's nearest valid rows, so the cell gets their line. */
  lemma NearestPointsAreNeighbours(rows: seq<Row>, c: Curve, col: seq<Option<real>>, p: nat, i: nat, q: nat)
    requires SortedRows(rows) && DistinctPoints(c) && |col| == |rows|
    requires p < |rows| && i < |rows| && q < |rows| && col[i].None?
    requires forall m :: 0 <= m < |rows| ==> col[m] == CurveValue(c, rows[m].freq)
    requires MaxBelow(c, rows[i].freq).Some? && MinAbove(c, rows[i].freq).Some?
    requires rows[p].freq == MaxBelow(c, rows[i].freq).value.freq
    requires rows[q].freq == MinAbove(c, rows[i].freq).value.freq
    ensures Interpolate(col, Freqs(rows))[i] == CurveAt(c, rows[i].freq)
  {
    var f := rows[i].freq;
    var b, a := MaxBelow(c, f).value, MinAbove(c, f).value;
    assert p < i < q;
    CurveValueAt(c, b);
    CurveValueAt(c, a);
    assert forall m :: p < m < q ==> col[m].None?;
    assert Neighbours(col, p, q);
  }

  lemma OutsideSpanStaysMissing(rows: seq<Row>, c: Curve, col: seq<Option<real>>, i: nat)
    requires SortedRows(rows) && |col| == |rows| && i < |rows| && col[i].None?
    requires forall m :: 0 <= m < |rows| ==> col[m] == CurveValue(c, rows[m].freq)
    requires MaxBelow(c, rows[i].freq).None? || MinAbove(c, rows[i].freq).None?
    ensures Interpolate(col, Freqs(rows))[i].None?
  {
    var f := rows[i].freq;
    assert !InValidSpan(col, i) by {
      if MaxBelow(c, f).None? {
        assert forall m :: 0 <= m <= i ==> col[m].None?;
      } else {
        assert forall m :: i <= m < |rows| ==> col[m].None?;
      }
    }
  }

  /** Interpolating every column of the sorted merged frame gives each curve's
      piecewise-linear values in its column. */
  lemma CurvesInterpolated(sorted: seq<Row>, interp: seq<Row>, curves: seq<Curve>)
    requires SortedRows(sorted) && Merged(sorted, curves)
    requires forall j :: 0 <= j < |curves| ==> DistinctPoints(curves[j])
    requires |interp| == |sorted|
    requires forall i :: 0 <= i < |sorted| ==> interp[i].freq == sorted[i].freq && |interp[i].cells| == |curves|
    requires forall j :: 0 <= j < |curves| ==> HasColumn(sorted, j)
    requires forall i, j :: 0 <= i < |sorted| && 0 <= j < |curves| ==>
      interp[i].cells[j] == Interpolate(Column(sorted, j), Freqs(sorted))[i]
    ensures Interpolated(interp, curves)
  {
    forall f | f in FreqSet(sorted) ensures f in FreqSet(interp) {
      var y :| y in sorted && y.freq == f;
      var i :| 0 <= i < |sorted| && sorted[i] == y;
      assert interp[i] in interp;
    }
    forall r | r in interp
      ensures r.freq in FreqSet(sorted)
      ensures forall j :: 0 <= j < |curves| ==> r.cells[j] == CurveAt(curves[j], r.freq)
    {
      var i :| 0 <= i < |interp| && interp[i] == r;
      assert sorted[i] in sorted;
      forall j | 0 <= j < |curves| ensures r.cells[j] == CurveAt(curves[j], r.freq) {
        InterpolatedColumnIsCurve(sorted, curves, j, i);
      }
    }
    assert FreqSet(interp) == FreqSet(sorted);
  }

  /** `dropna` and the total turn the interpolated frame into the table: only
      frequencies inside every curve's span stay, and the total is the row sum. */
  lemma FinishTable(rows: seq<Row>, curves: seq<Curve>)
    requires Interpolated(rows, curves)
    ensures TableOf(AddTotal(DropNa(rows)), curves)
  {
    var kept := DropNa(rows);
    var t := AddTotal(kept);
    var k := |curves|;
    DropNaSorted(rows);
    assert SortedRows(t) by {
      assert forall i :: 0 <= i < |t| ==> t[i].freq == kept[i].freq;
    }
    forall x | x in t
      ensures |x.cells| == k + 1 && AllPresent(x.cells) && x.cells[k].value == SumCells(x.cells[..k])
      ensures forall j :: 0 <= j < k ==> x.cells[j] == CurveAt(curves[j], x.freq)
    {
      var i :| 0 <= i < |t| && t[i] == x;
      TotalRow(rows, curves, i);
    }
    TotalKeepsFreqs(kept);
    KeptFreqs(rows, curves);
  }

  /** Row `i` of the finished table: the kept row's factor cells, then their sum. */
  lemma TotalRow(rows: seq<Row>, curves: seq<Curve>, i: nat)
    requires Interpolated(rows, curves) && i < |DropNa(rows)|
    ensures var x, k := AddTotal(DropNa(rows))[i], |curves|;
      && |x.cells| == k + 1 && AllPresent(x.cells) && x.cells[k].value == SumCells(x.cells[..k])
      && forall j :: 0 <= j < k ==> x.cells[j] == CurveAt(curves[j], x.freq)
  {
    var kept := DropNa(rows);
    var x := AddTotal(kept)[i];
    assert kept[i] in kept;
    assert x.cells[..|curves|] == kept[i].cells;
  }

  lemma TotalKeepsFreqs(rows: seq<Row>)
    ensures FreqSet(AddTotal(rows)) == FreqSet(rows)
  {
    var t := AddTotal(rows);
    forall f | f in FreqSet(rows) ensures f in FreqSet(t) {
      var y :| y in rows && y.freq == f;
      var i :| 0 <= i < |rows| && rows[i] == y;
      assert t[i] in t;
    }
    forall f | f in FreqSet(t) ensures f in FreqSet(rows) {
      var x :| x in t && x.freq == f;
      var i :| 0 <= i < |t| && t[i] == x;
      assert rows[i] in rows;
    }
  }

  lemma KeptFreqs(rows: seq<Row>, curves: seq<Curve>)
    requires Interpolated(rows, curves)
    ensures forall f :: f in FreqSet(DropNa(rows)) <==>
      f in UnionFreqs(curves) && forall j :: 0 <= j < |curves| ==> CurveAt(curves[j], f).Some?
  {
    var kept := DropNa(rows);
    forall f ensures f in FreqSet(kept) <==>
      f in UnionFreqs(curves) && forall j :: 0 <= j < |curves| ==> CurveAt(curves[j], f).Some?
    {
      if f in FreqSet(kept) {
        var y :| y in kept && y.freq == f;
        assert f in FreqSet(rows);
      }
      if f in UnionFreqs(curves) && forall j :: 0 <= j < |curves| ==> CurveAt(curves[j], f).Some? {
        var y :| y in rows && y.freq == f;
        assert y in kept;
      }
    }
  }

  /** Every row of a finished table lies inside every curve's [first, last]
      frequency span; with no curve the table is empty. */
  lemma TableRowsInsideEverySpan(rows: seq<Row>, curves: seq<Curve>)
    requires TableOf(rows, curves)
    ensures forall r, j :: r in rows && 0 <= j < |curves| ==>
      (exists p :: p in curves[j] && p.freq <= r.freq) && (exists p :: p in curves[j] && r.freq <= p.freq)
    ensures curves == [] ==> rows == []
  {
    forall r, j | r in rows && 0 <= j < |curves|
      ensures (exists p :: p in curves[j] && p.freq <= r.freq) && (exists p :: p in curves[j] && r.freq <= p.freq)
    {
      CurveAtSpan(curves[j], r.freq);
    }
    if rows != [] {
      assert rows[0].freq in FreqSet(rows);
    }
  }
}
