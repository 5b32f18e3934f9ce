/** ccModel.py's `ConfidenceCheck`: a raw analyser trace is corrected with the
    range's correction-factor table, the corrected trace row nearest to each
    golden frequency is picked, the picks are paired with the golden values and
    the differences are held to ±3 dB. */
module CcModel {
  import opened Common
  import opened Interpolation
  import opened FactorTable
  import opened Factors

  /** `merge_asof(..., tolerance=2)`, in MHz. */
  const Tolerance: real := 2.0
  /** The pass band of `checkPass`, in dB. */
  const PassLimit: real := 3.0

  /** One sample of the analyser trace: frequency and amplitude. */
  datatype Sample = Sample(freq: real, amp: real)

  /** One row of `self.trace`: the sample, the factor cells (the table's
      columns, total last) and the corrected amplitude. */
  datatype TraceRow = TraceRow(freq: real, amp: real, cells: seq<Option<real>>, corrected: Option<real>)

  /** One row of the golden values read from the workbook. */
  datatype GoldenRow = GoldenRow(freq: real, amp: Option<real>)

  /** One row of `self.peaks`. */
  datatype Peak = Peak(freq: real, corrected: Option<real>)

  /** One row of `self.resultData`: golden frequency, golden value, measured
      value and their difference. */
  datatype ResultRow = ResultRow(freq: real, golden: Option<real>, measured: Option<real>, delta: Option<real>)

  // ---------------------------------------------------------------------
  // Nearest-key merge

  /** A position holding a value nearest to `f`; the first such one. */
  function ArgNearest(xs: seq<real>, f: real): (k: nat)
    requires |xs| > 0
    ensures k < |xs|
    ensures forall i :: 0 <= i < |xs| ==> Dist(xs[k], f) <= Dist(xs[i], f)
  {
    if |xs| == 1 then 0
    else
      var k := ArgNearest(xs[..|xs| - 1], f);
      if Dist(xs[|xs| - 1], f) < Dist(xs[k], f) then |xs| - 1 else k
  }

  /** Table row `k` is a nearest row to `f` and lies within the tolerance. */
  ghost predicate NearestWithin(table: seq<Row>, k: int, f: real)
    requires 0 <= k < |table|
  {
    Dist(table[k].freq, f) <= Tolerance &&
    forall i :: 0 <= i < |table| ==> Dist(table[k].freq, f) <= Dist(table[i].freq, f)
  }

  /** No table row lies within the tolerance of `f`. */
  ghost predicate NoneWithin(table: seq<Row>, f: real)
  {
    forall i :: 0 <= i < |table| ==> Tolerance < Dist(table[i].freq, f)
  }

  /** The table row `merge_asof(direction='nearest', tolerance=2)` attaches
      to a trace sample at `f`: a nearest row when one lies within 2 MHz,
      none otherwise. */
  function NearestRow(table: seq<Row>, f: real): (k: Option<nat>)
    ensures k.Some? ==> k.value < |table| && NearestWithin(table, k.value, f)
    ensures k.None? ==> NoneWithin(table, f)
  {
    if |table| == 0 then None
    else
      var j := ArgNearest(Freqs(table), f);
      if Dist(table[j].freq, f) <= Tolerance then Some(j) else None
  }

  /** The cells attached to a sample at `f`: the nearest row's, or a row of NaN. */
  function NearestCells(table: seq<Row>, width: nat, f: real): (cells: seq<Option<real>>)
    requires RowsOfWidth(table, width)
    ensures |cells| == width
  {
    match NearestRow(table, f)
    case Some(j) => table[j].cells
    case None => Nones(width)
  }

  /** Every row of the table has `width` cells. */
  predicate RowsOfWidth(table: seq<Row>, width: nat)
  {
    forall i :: 0 <= i < |table| ==> |table[i].cells| == width
  }

  /** A finished table has `k + 1` cells per row and increasing frequencies. */
  lemma TableShape(table: seq<Row>, k: nat)
    requires IsFactorTable(table, k)
    ensures RowsOfWidth(table, k + 1) && StrictlyIncreasing(Freqs(table))
  {
    assert forall i :: 0 <= i < |table| ==> table[i] in table;
  }

  /** `merge_asof` demands the left keys in ascending order. */
  predicate Ascending(raw: seq<Sample>)
  {
    forall i, j :: 0 <= i < j < |raw| ==> raw[i].freq <= raw[j].freq
  }

  /** `readCorrectedTrace` gets past the merge and the bound scans: some curve
      was loaded (with none, the table's frequency column keeps the object
      dtype of the empty frame of factors.py:35, and `merge_asof` refuses keys
      of different dtypes), the trace is sorted, and it has a last row. */
  predicate Readable(raw: seq<Sample>, k: nat)
  {
    k > 0 && Ascending(raw) && raw != []
  }

  /** The merged trace: every sample kept in order, with its attached cells. */
  function MergeAsof(raw: seq<Sample>, table: seq<Row>, width: nat): (m: seq<TraceRow>)
    requires RowsOfWidth(table, width)
    ensures |m| == |raw|
    ensures forall i :: 0 <= i < |raw| ==>
      m[i].freq == raw[i].freq && m[i].amp == raw[i].amp && m[i].corrected.None? &&
      m[i].cells == NearestCells(table, width, raw[i].freq)
    ensures TraceWidth(m, width)
  {
    seq(|raw|, i requires 0 <= i < |raw| =>
      TraceRow(raw[i].freq, raw[i].amp, NearestCells(table, width, raw[i].freq), None))
  }

  /** The trace as the analyser returns it, before any column is attached. */
  function RawRows(raw: seq<Sample>): (m: seq<TraceRow>)
    ensures |m| == |raw|
    ensures forall i :: 0 <= i < |raw| ==>
      m[i].freq == raw[i].freq && m[i].amp == raw[i].amp && m[i].cells == [] && m[i].corrected.None?
  {
    seq(|raw|, i requires 0 <= i < |raw| => TraceRow(raw[i].freq, raw[i].amp, [], None))
  }

  // ---------------------------------------------------------------------
  // Interpolation over row position

  /** Every row of the trace carries `width` cells. */
  predicate TraceWidth(rows: seq<TraceRow>, width: nat)
  {
    forall i :: 0 <= i < |rows| ==> |rows[i].cells| == width
  }

  predicate TraceHasColumn(rows: seq<TraceRow>, c: nat)
  {
    forall i :: 0 <= i < |rows| ==> c < |rows[i].cells|
  }

  function TraceColumn(rows: seq<TraceRow>, c: nat): (col: seq<Option<real>>)
    requires TraceHasColumn(rows, c)
    ensures |col| == |rows| && forall i :: 0 <= i < |rows| ==> col[i] == rows[i].cells[c]
  {
    seq(|rows|, i requires 0 <= i < |rows| => rows[i].cells[c])
  }

  /** The trace with column `c` replaced by `col`. */
  function WithTraceColumn(rows: seq<TraceRow>, c: nat, col: seq<Option<real>>): (r: seq<TraceRow>)
    requires TraceHasColumn(rows, c) && |col| == |rows|
    ensures |r| == |rows|
    ensures forall i :: 0 <= i < |rows| ==> r[i] == rows[i].(cells := rows[i].cells[c := col[i]])
  {
    seq(|rows|, i requires 0 <= i < |rows| => rows[i].(cells := rows[i].cells[c := col[i]]))
  }

  /** The trace's default index 0, 1, ..., n - 1, which `interpolate(method='index')`
      uses as abscissae. */
  function Positions(n: nat): (xs: seq<real>)
    ensures |xs| == n && StrictlyIncreasing(xs)
    ensures forall i :: 0 <= i < n ==> xs[i] == i as real
  {
    seq(n, i => i as real)
  }

  /** Every attached column interpolated over row position inside its own
      first..last valid rows. */
  function InterpolatedTrace(rows: seq<TraceRow>, width: nat): (t: seq<TraceRow>)
    requires TraceWidth(rows, width)
    ensures |t| == |rows| && TraceWidth(t, width)
    ensures forall i {:trigger t[i]} :: 0 <= i < |rows| ==>
      t[i].freq == rows[i].freq && t[i].amp == rows[i].amp && t[i].corrected == rows[i].corrected &&
      |t[i].cells| == width
    ensures forall c :: 0 <= c < width ==> TraceHasColumn(rows, c)
    ensures forall i, c {:trigger t[i].cells[c]} :: 0 <= i < |rows| && 0 <= c < width ==>
      t[i].cells[c] == Interpolate(TraceColumn(rows, c), Positions(|rows|))[i]
  {
    seq(|rows|, i requires 0 <= i < |rows| =>
      rows[i].(cells := seq(width, c requires 0 <= c < width =>
        Interpolate(TraceColumn(rows, c), Positions(|rows|))[i])))
  }

  /** Raw amplitude plus total correction; NaN when the total is NaN. */
  function Corrected(amp: real, total: Option<real>): Option<real>
  {
    if total.Some? then Some(amp + total.value) else None
  }

  /** The trace with the corrected column set from column `k`, the total. */
  function WithCorrected(rows: seq<TraceRow>, k: nat): (t: seq<TraceRow>)
    requires TraceWidth(rows, k + 1)
    ensures |t| == |rows|
    ensures forall i :: 0 <= i < |rows| ==>
      t[i] == rows[i].(corrected := Corrected(rows[i].amp, rows[i].cells[k]))
  {
    seq(|rows|, i requires 0 <= i < |rows| =>
      rows[i].(corrected := Corrected(rows[i].amp, rows[i].cells[k])))
  }

  /** `readCorrectedTrace` after the instrument read, for a table with `k`
      factor columns and the total. */
  function CorrectedTrace(raw: seq<Sample>, table: seq<Row>, k: nat): (t: seq<TraceRow>)
    requires RowsOfWidth(table, k + 1)
    ensures |t| == |raw|
    ensures forall i :: 0 <= i < |raw| ==>
      && t[i].freq == raw[i].freq && t[i].amp == raw[i].amp && |t[i].cells| == k + 1
      && t[i].corrected == Corrected(raw[i].amp, t[i].cells[k])
  {
    WithCorrected(InterpolatedTrace(MergeAsof(raw, table, k + 1), k + 1), k)
  }

  /** A row whose factor cells are all known and whose total is their sum, or
      a row with no known cell at all. */
  predicate Consistent(cells: seq<Option<real>>, k: nat)
    requires |cells| == k + 1
  {
    AllMissing(cells) || (AllPresent(cells) && cells[k].value == SumCells(cells[..k]))
  }

  /** Every row carries the `k` factor cells and the total, consistent with
      each other. */
  ghost predicate ConsistentRows(rows: seq<TraceRow>, k: nat)
  {
    TraceWidth(rows, k + 1) &&
    forall i :: 0 <= i < |rows| ==> Consistent(rows[i].cells, k)
  }

  /** Each merged row is a complete table row or a row of NaN. */
  lemma MergedConsistent(raw: seq<Sample>, table: seq<Row>, k: nat)
    requires IsFactorTable(table, k)
    ensures RowsOfWidth(table, k + 1)
    ensures ConsistentRows(MergeAsof(raw, table, k + 1), k)
  {
    TableShape(table, k);
    forall i | 0 <= i < |raw|
      ensures Consistent(NearestCells(table, k + 1, raw[i].freq), k)
    {
      var j := NearestRow(table, raw[i].freq);
      if j.Some? {
        assert table[j.value] in table;
      }
    }
  }

  /** A sample with a table row within 2 MHz gets a total. */
  lemma MatchedCellsKnown(table: seq<Row>, k: nat, f: real, near: nat)
    requires IsFactorTable(table, k)
    requires near < |table| && Dist(table[near].freq, f) <= Tolerance
    ensures RowsOfWidth(table, k + 1)
    ensures NearestCells(table, k + 1, f)[k].Some?
  {
    TableShape(table, k);
    assert !NoneWithin(table, f);
    var j := NearestRow(table, f);
    assert table[j.value] in table;
  }

  /** In consistent rows every column is known exactly where the total is. */
  lemma ConsistentMasks(rows: seq<TraceRow>, k: nat, c: nat)
    requires ConsistentRows(rows, k) && c <= k
    ensures TraceHasColumn(rows, c) && TraceHasColumn(rows, k)
    ensures SameMask(TraceColumn(rows, c), TraceColumn(rows, k))
  {
  }

  /** Interpolating every column over row position keeps the rows consistent:
      the columns are known in the same rows, so a filled row takes each of
      its cells from the same two neighbours, and interpolation is linear. */
  lemma InterpolationKeepsConsistent(rows: seq<TraceRow>, k: nat)
    requires ConsistentRows(rows, k)
    ensures ConsistentRows(InterpolatedTrace(rows, k + 1), k)
  {
    var t := InterpolatedTrace(rows, k + 1);
    forall i | 0 <= i < |rows|
      ensures Consistent(t[i].cells, k)
    {
      var total := TraceColumn(rows, k);
      if total[i].Some? {
        KnownRowKept(rows, k, i);
      } else if InValidSpan(total, i) {
        FilledRowConsistent(rows, k, i);
      } else {
        OutsideRowMissing(rows, k, i);
      }
    }
  }

  lemma KnownRowKept(rows: seq<TraceRow>, k: nat, i: nat)
    requires ConsistentRows(rows, k) && i < |rows| && rows[i].cells[k].Some?
    ensures InterpolatedTrace(rows, k + 1)[i].cells == rows[i].cells
  {
    var t := InterpolatedTrace(rows, k + 1);
    assert !AllMissing(rows[i].cells);
    forall c | 0 <= c <= k
      ensures t[i].cells[c] == rows[i].cells[c]
    {
      var col := TraceColumn(rows, c);
      assert col[i] == rows[i].cells[c];
      assert Interpolate(col, Positions(|rows|))[i] == col[i];
    }
  }

  lemma FilledRowConsistent(rows: seq<TraceRow>, k: nat, i: nat)
    requires ConsistentRows(rows, k) && i < |rows| && rows[i].cells[k].None?
    requires InValidSpan(TraceColumn(rows, k), i)
    ensures AllPresent(InterpolatedTrace(rows, k + 1)[i].cells)
    ensures var cells := InterpolatedTrace(rows, k + 1)[i].cells;
      cells[k].value == SumCells(cells[..k])
  {
    var p, q := SpanNeighbours(TraceColumn(rows, k), i);
    var lo, hi := rows[p].cells, rows[q].cells;
    var cells := InterpolatedTrace(rows, k + 1)[i].cells;
    forall c | 0 <= c <= k
      ensures lo[c].Some? && hi[c].Some?
      ensures cells[c] == Some(Lerp(p as real, lo[c].value, q as real, hi[c].value, i as real))
    {
      FilledCell(rows, k, p, i, q, c);
    }
    assert !AllMissing(lo) && !AllMissing(hi);
    LerpRowConsistent(p as real, q as real, i as real, lo, hi, cells, k);
  }

  /** A row interpolated cell by cell between two consistent complete rows is
      consistent. */
  lemma LerpRowConsistent(x0: real, x1: real, x: real, lo: seq<Option<real>>, hi: seq<Option<real>>, cells: seq<Option<real>>, k: nat)
    requires x0 < x1 && |lo| == |hi| == |cells| == k + 1
    requires AllPresent(lo) && lo[k].value == SumCells(lo[..k])
    requires AllPresent(hi) && hi[k].value == SumCells(hi[..k])
    requires forall c :: 0 <= c <= k ==> cells[c] == Some(Lerp(x0, lo[c].value, x1, hi[c].value, x))
    ensures AllPresent(cells) && cells[k].value == SumCells(cells[..k])
  {
    LerpOfSum(x0, x1, x, lo[..k], hi[..k], cells[..k]);
  }

  /** A cell filled between the rows `p` and `q` where the total is known. */
  lemma FilledCell(rows: seq<TraceRow>, k: nat, p: nat, i: nat, q: nat, c: nat)
    requires ConsistentRows(rows, k) && p < i < q < |rows| && c <= k
    requires Neighbours(TraceColumn(rows, k), p, q)
    ensures rows[p].cells[c].Some? && rows[q].cells[c].Some?
    ensures InterpolatedTrace(rows, k + 1)[i].cells[c]
      == Some(Lerp(p as real, rows[p].cells[c].value, q as real, rows[q].cells[c].value, i as real))
  {
    var col := TraceColumn(rows, c);
    var xs := Positions(|rows|);
    ConsistentMasks(rows, k, c);
    SameMaskSameShape(col, TraceColumn(rows, k));
    assert Neighbours(col, p, q);
    assert Interpolate(col, xs)[i] == Some(Lerp(xs[p], col[p].value, xs[q], col[q].value, xs[i]));
  }

  lemma OutsideRowMissing(rows: seq<TraceRow>, k: nat, i: nat)
    requires ConsistentRows(rows, k) && i < |rows|
    requires !InValidSpan(TraceColumn(rows, k), i)
    ensures AllMissing(InterpolatedTrace(rows, k + 1)[i].cells)
  {
    var t := InterpolatedTrace(rows, k + 1);
    forall c | 0 <= c <= k
      ensures t[i].cells[c].None?
    {
      ConsistentMasks(rows, k, c);
      SameMaskSameShape(TraceColumn(rows, c), TraceColumn(rows, k));
    }
  }

  /** Everything `readCorrectedTrace` promises about the corrected trace: each
      sample is kept in order; its factor cells are either all missing or all
      known with the total their sum; the corrected amplitude is present
      exactly where the total is, and equals amplitude plus the sum of the
      factors. */
  lemma CorrectedTraceTotals(raw: seq<Sample>, table: seq<Row>, k: nat)
    requires IsFactorTable(table, k)
    ensures RowsOfWidth(table, k + 1)
    ensures var t := CorrectedTrace(raw, table, k);
      |t| == |raw| &&
      forall i :: 0 <= i < |t| ==>
        && t[i].freq == raw[i].freq && t[i].amp == raw[i].amp
        && |t[i].cells| == k + 1 && Consistent(t[i].cells, k)
        && (t[i].corrected.Some? <==> t[i].cells[k].Some?)
        && (t[i].corrected.Some? ==> t[i].corrected.value == raw[i].amp + SumCells(t[i].cells[..k]))
  {
    MergedConsistent(raw, table, k);
    InterpolationKeepsConsistent(MergeAsof(raw, table, k + 1), k);
  }

  /** When both ends of the trace find a table row within 2 MHz, every sample
      gets a corrected amplitude. */
  lemma CoveredTraceFullyCorrected(raw: seq<Sample>, table: seq<Row>, k: nat)
    requires IsFactorTable(table, k) && |raw| > 0
    requires exists j :: 0 <= j < |table| && Dist(table[j].freq, raw[0].freq) <= Tolerance
    requires exists j :: 0 <= j < |table| && Dist(table[j].freq, raw[|raw| - 1].freq) <= Tolerance
    ensures RowsOfWidth(table, k + 1)
    ensures forall i :: 0 <= i < |raw| ==> CorrectedTrace(raw, table, k)[i].corrected.Some?
  {
    TableShape(table, k);
    var first :| 0 <= first < |table| && Dist(table[first].freq, raw[0].freq) <= Tolerance;
    var last :| 0 <= last < |table| && Dist(table[last].freq, raw[|raw| - 1].freq) <= Tolerance;
    MatchedCellsKnown(table, k, raw[0].freq, first);
    MatchedCellsKnown(table, k, raw[|raw| - 1].freq, last);
    KnownEndsCorrected(raw, table, k);
  }

  /** The merged ends carry a total, so every corrected amplitude is present. */
  lemma KnownEndsCorrected(raw: seq<Sample>, table: seq<Row>, k: nat)
    requires RowsOfWidth(table, k + 1) && |raw| > 0
    requires NearestCells(table, k + 1, raw[0].freq)[k].Some?
    requires NearestCells(table, k + 1, raw[|raw| - 1].freq)[k].Some?
    ensures forall i :: 0 <= i < |raw| ==> CorrectedTrace(raw, table, k)[i].corrected.Some?
  {
    var m := MergeAsof(raw, table, k + 1);
    assert m[0].cells[k].Some? && m[|raw| - 1].cells[k].Some?;
    EndsKnownFillTotal(m, k);
    var t := InterpolatedTrace(m, k + 1);
    forall i | 0 <= i < |raw|
      ensures CorrectedTrace(raw, table, k)[i].corrected.Some?
    {
      assert CorrectedTrace(raw, table, k)[i] == WithCorrected(t, k)[i];
      assert t[i].cells[k].Some?;
    }
  }

  /** Every row has a known total in column `k`. */
  predicate TotalsKnown(rows: seq<TraceRow>, k: nat)
  {
    forall i :: 0 <= i < |rows| ==> k < |rows[i].cells| && rows[i].cells[k].Some?
  }

  /** A total known in the first and the last row is known in every row once
      interpolated. */
  lemma EndsKnownFillTotal(rows: seq<TraceRow>, k: nat)
    requires TraceWidth(rows, k + 1)
    requires |rows| > 0 && rows[0].cells[k].Some? && rows[|rows| - 1].cells[k].Some?
    ensures TotalsKnown(InterpolatedTrace(rows, k + 1), k)
  {
    var t := InterpolatedTrace(rows, k + 1);
    var total := TraceColumn(rows, k);
    var last := |rows| - 1;
    assert total[0].Some? && total[last].Some?;
    forall i | 0 <= i < |rows|
      ensures t[i].cells[k].Some?
    {
      assert InValidSpan(total, i);
      assert Interpolate(total, Positions(|rows|))[i].Some?;
    }
  }

  // ---------------------------------------------------------------------
  // Bounds scan and results

  /** The two scans of `readCorrectedTrace` over the table's frequencies, whose
      results nothing reads: the highest table frequency strictly below the
      trace's first frequency and the lowest strictly above its last. */
  method ScanBounds(cfFreqs: seq<real>, firstFreq: real, lastFreq: real) returns (firstCf: Option<real>, lastCf: Option<real>)
    requires StrictlyIncreasing(cfFreqs)
    ensures firstCf.Some? ==>
      && firstCf.value in cfFreqs && firstCf.value < firstFreq
      && forall x :: x in cfFreqs && x < firstFreq ==> x <= firstCf.value
    ensures firstCf.None? ==> forall x :: x in cfFreqs ==> firstFreq <= x
    ensures lastCf.Some? ==>
      && lastCf.value in cfFreqs && lastFreq < lastCf.value
      && forall x :: x in cfFreqs && lastFreq < x ==> lastCf.value <= x
    ensures lastCf.None? ==> forall x :: x in cfFreqs ==> x <= lastFreq
  {
    firstCf := None;
    var i := 0;
    while i < |cfFreqs|
      invariant 0 <= i <= |cfFreqs|
      invariant forall j :: 0 <= j < i ==> cfFreqs[j] <= firstFreq
      invariant firstCf.None? ==> forall j :: 0 <= j < i ==> firstFreq <= cfFreqs[j]
      invariant firstCf.Some? ==>
        && firstCf.value in cfFreqs[..i] && firstCf.value < firstFreq
        && forall j :: 0 <= j < i && cfFreqs[j] < firstFreq ==> cfFreqs[j] <= firstCf.value
    {
      if firstFreq > cfFreqs[i] {
        firstCf := Some(cfFreqs[i]);
      } else if firstFreq < cfFreqs[i] {
        break;
      }
      i := i + 1;
    }
    lastCf := None;
    var j := 0;
    while j < |cfFreqs|
      invariant 0 <= j <= |cfFreqs|
      invariant lastCf.None?
      invariant forall m :: 0 <= m < j ==> cfFreqs[m] <= lastFreq
    {
      if lastFreq < cfFreqs[j] {
        lastCf := Some(cfFreqs[j]);
        break;
      }
      j := j + 1;
    }
  }

  /** `golden - measured`, NaN when either side is NaN. */
  function Delta(golden: Option<real>, measured: Option<real>): (d: Option<real>)
    ensures d.Some? <==> golden.Some? && measured.Some?
    ensures d.Some? ==> d.value == golden.value - measured.value
  {
    if golden.Some? && measured.Some? then Some(golden.value - measured.value) else None
  }

  /** The inner merge on the default index of the golden values with the
      measured column, and the `Delta` column. */
  function ResultsFrame(golden: seq<GoldenRow>, peaks: seq<Peak>): (rs: seq<ResultRow>)
    ensures |rs| == if |golden| < |peaks| then |golden| else |peaks|
    ensures forall i :: 0 <= i < |rs| ==>
      && rs[i].freq == golden[i].freq && rs[i].golden == golden[i].amp
      && rs[i].measured == peaks[i].corrected
      && (rs[i].delta.Some? <==> golden[i].amp.Some? && peaks[i].corrected.Some?)
      && (rs[i].delta.Some? ==> rs[i].delta.value == golden[i].amp.value - peaks[i].corrected.value)
  {
    if golden == [] || peaks == [] then []
    else
      [ResultRow(golden[0].freq, golden[0].amp, peaks[0].corrected, Delta(golden[0].amp, peaks[0].corrected))]
      + ResultsFrame(golden[1..], peaks[1..])
  }

  /** A delta that does not fail the check: a NaN compares false both ways,
      so only a known delta above 3 or below -3 fails. */
  predicate WithinLimit(delta: Option<real>)
    ensures WithinLimit(delta) <==> !(delta.Some? && (delta.value > PassLimit || delta.value < -PassLimit))
  {
    delta.None? || -PassLimit <= delta.value <= PassLimit
  }

  predicate AllWithinLimit(rows: seq<ResultRow>)
  {
    forall i :: 0 <= i < |rows| ==> WithinLimit(rows[i].delta)
  }

  /** The trace row `p` is taken from: a row whose frequency is nearest to `f`. */
  ghost predicate IsPeakFor(trace: seq<TraceRow>, p: Peak, f: real)
  {
    exists i :: 0 <= i < |trace| && p == Peak(trace[i].freq, trace[i].corrected) &&
      forall m :: 0 <= m < |trace| ==> Dist(trace[i].freq, f) <= Dist(trace[m].freq, f)
  }

  function TraceFreqs(trace: seq<TraceRow>): (xs: seq<real>)
    ensures |xs| == |trace| && forall i :: 0 <= i < |trace| ==> xs[i] == trace[i].freq
  {
    seq(|trace|, i requires 0 <= i < |trace| => trace[i].freq)
  }

  /** A golden frequency that the trace hits exactly is reported at that frequency. */
  lemma ExactFrequencyIsPicked(trace: seq<TraceRow>, p: Peak, f: real, hit: nat)
    requires IsPeakFor(trace, p, f) && hit < |trace| && trace[hit].freq == f
    ensures p.freq == f
  {
    var i :| 0 <= i < |trace| && p == Peak(trace[i].freq, trace[i].corrected) &&
      forall m :: 0 <= m < |trace| ==> Dist(trace[i].freq, f) <= Dist(trace[m].freq, f);
    assert Dist(trace[i].freq, f) <= Dist(trace[hit].freq, f);
  }

  /** The worksheet of each valid range key. */
  function RangeSheet(val: string): (sheet: Option<string>)
    ensures sheet.Some? <==> val in {"lf", "mf", "hf", "ce"}
  {
    if val == "lf" then Some("RE 30MHz - 1GHz")
    else if val == "mf" then Some("RE 1GHz - 18GHz")
    else if val == "hf" then Some("RE 18GHz - 40GHz")
    else if val == "ce" then Some("CE 150kHz - 30MHz")
    else None
  }

  // ---------------------------------------------------------------------
  // The confidence check object

  class ConfidenceCheck {
    /** The range key `lf`, `mf`, `hf` or `ce`. */
    var fRange: string
    /** The name of the range's worksheet. */
    var sheet: string
    var measuredTable: string
    var deltaTable: string
    var factors: CorrectionFactors
    var trace: seq<TraceRow>
    /** Unset until `findPeaks` runs. */
    var peaks: Option<seq<Peak>>
    /** Unset until `getResultsFrame` runs. */
    var resultData: Option<seq<ResultRow>>

    ghost predicate Valid()
      reads this, factors
    {
      && factors.Valid()
      && RangeSheet(fRange) == Some(sheet)
      && measuredTable == "Measured_" + fRange
      && deltaTable == "Deltas_" + fRange
    }

    constructor (range: string, sources: seq<Source>)
      requires RangeSheet(range).Some? && SourcesWellFormed(sources)
      ensures Valid() && fRange == range && fresh(factors)
      ensures factors.factorCount == |LoadedCurves(sources)| && TableOf(factors.cf, LoadedCurves(sources))
      ensures trace == [] && peaks.None? && resultData.None?
    {
      fRange := range;
      sheet := RangeSheet(range).value;
      measuredTable := "Measured_" + range;
      deltaTable := "Deltas_" + range;
      factors := new CorrectionFactors(range, sources);
      trace := [];
      peaks := None;
      resultData := None;
    }

    /** The `fRange` setter: a valid key selects its worksheet, names the two
        tables after it and loads its correction factors; any other key
        changes nothing. */
    method SetRange(val: string, sources: seq<Source>)
      requires Valid()
      requires RangeSheet(val).Some? ==> SourcesWellFormed(sources)
      modifies this
      ensures Valid()
      ensures trace == old(trace) && peaks == old(peaks) && resultData == old(resultData)
      ensures RangeSheet(val).None? ==>
        && fRange == old(fRange) && sheet == old(sheet) && factors == old(factors)
        && measuredTable == old(measuredTable) && deltaTable == old(deltaTable)
      ensures RangeSheet(val).Some? ==>
        && fRange == val && sheet == RangeSheet(val).value
        && measuredTable == "Measured_" + val && deltaTable == "Deltas_" + val
        && fresh(factors) && factors.fRange == val + "Factors"
        && factors.factorCount == |LoadedCurves(sources)| && TableOf(factors.cf, LoadedCurves(sources))
    {
      if RangeSheet(val).Some? {
        fRange := val;
        sheet := RangeSheet(val).value;
        measuredTable := "Measured_" + val;
        deltaTable := "Deltas_" + val;
        factors := new CorrectionFactors(val, sources);
      }
    }

    /** `readCorrectedTrace` from the instrument read on: the trace is merged
        with the table, each attached column is interpolated over row position
        in place, and the corrected column is added. */
    method ReadCorrectedTrace(raw: seq<Sample>) returns (r: Outcome<seq<TraceRow>>)
      requires factors.Valid()
      modifies this`trace
      ensures factors.factorCount == 0 || !Ascending(raw) ==> r == Fail(ValueError) && trace == RawRows(raw)
      ensures factors.factorCount > 0 && Ascending(raw) && raw == [] ==> r == Fail(IndexError) && trace == []
      ensures Readable(raw, factors.factorCount) ==>
        r == Ok(trace) && trace == CorrectedTrace(raw, factors.cf, factors.factorCount)
    {
      trace := RawRows(raw);
      if factors.factorCount == 0 || !Ascending(raw) {
        return Fail(ValueError);
      }
      var table, k := factors.cf, factors.factorCount;
      TableShape(table, k);
      trace := MergeAsof(raw, table, k + 1);
      if |trace| == 0 {
        return Fail(IndexError);
      }
      var _, _ := ScanBounds(Freqs(table), trace[0].freq, trace[|trace| - 1].freq);
      trace := CorrectMerged(raw, table, trace, k);
      r := Ok(trace);
    }

    /** The rest of `readCorrectedTrace` on the merged trace: the column
        loop, then the corrected amplitude from the total in column `k`. */
    static method CorrectMerged(ghost raw: seq<Sample>, ghost table: seq<Row>, merged: seq<TraceRow>, k: nat)
      returns (t: seq<TraceRow>)
      requires RowsOfWidth(table, k + 1) && merged == MergeAsof(raw, table, k + 1)
      ensures t == CorrectedTrace(raw, table, k)
    {
      t := InterpolateColumns(merged, k + 1);
      t := WithCorrected(t, k);
    }

    /** The column loop of `readCorrectedTrace`: every column in turn is
        interpolated over row position between its own first and last valid
        row. */
    static method InterpolateColumns(rows: seq<TraceRow>, width: nat) returns (out: seq<TraceRow>)
      requires TraceWidth(rows, width)
      ensures out == InterpolatedTrace(rows, width)
    {
      out := rows;
      for c := 0 to width
        invariant |out| == |rows|
        invariant forall i :: 0 <= i < |rows| ==>
          out[i].freq == rows[i].freq && out[i].amp == rows[i].amp &&
          out[i].corrected == rows[i].corrected && |out[i].cells| == width
        invariant forall i, c' {:trigger out[i].cells[c']} :: 0 <= i < |rows| && 0 <= c' < c ==>
          out[i].cells[c'] == Interpolate(TraceColumn(rows, c'), Positions(|rows|))[i]
        invariant forall i, c' {:trigger out[i].cells[c']} :: 0 <= i < |rows| && c <= c' < width ==>
          out[i].cells[c'] == rows[i].cells[c']
      {
        assert TraceColumn(out, c) == TraceColumn(rows, c);
        out := WithTraceColumn(out, c, Interpolate(TraceColumn(out, c), Positions(|out|)));
      }
      var t := InterpolatedTrace(rows, width);
      forall i | 0 <= i < |rows|
        ensures out[i] == t[i]
      {
        assert out[i].cells == t[i].cells;
      }
    }

    /** The row `(traceMax[xcol] - freq).abs().argsort()[:1]` selects, as a peak. */
    static method PeakNearest(trace: seq<TraceRow>, f: real) returns (p: Peak)
      requires |trace| > 0
      ensures IsPeakFor(trace, p, f)
    {
      var k := ArgNearest(TraceFreqs(trace), f);
      p := Peak(trace[k].freq, trace[k].corrected);
    }

    /** `findPeaks`: the peaks are reset, the trace is read and corrected, and
        for each golden frequency in turn the nearest trace row is appended. */
    method FindPeaks(raw: seq<Sample>, golden: seq<GoldenRow>) returns (r: Outcome<seq<Peak>>)
      requires factors.Valid()
      modifies this`trace, this`peaks
      ensures Readable(raw, factors.factorCount) ==> trace == CorrectedTrace(raw, factors.cf, factors.factorCount)
      ensures r.Fail? <==> !Readable(raw, factors.factorCount)
      ensures r.Fail? ==> peaks == Some([])
      ensures r.Fail? ==> r.error == (if factors.factorCount > 0 && Ascending(raw) then IndexError else ValueError)
      ensures r.Fail? ==> trace == (if factors.factorCount > 0 && Ascending(raw) then [] else RawRows(raw))
      ensures r.Ok? ==>
        && peaks == Some(r.value) && |r.value| == |golden|
        && forall j :: 0 <= j < |golden| ==> IsPeakFor(trace, r.value[j], golden[j].freq)
    {
      peaks := Some([]);
      var traceMax := ReadCorrectedTrace(raw);
      if traceMax.Fail? {
        return Fail(traceMax.error);
      }
      AppendPeaks(golden);
      r := Ok(peaks.value);
    }

    /** The lookup loop of `findPeaks`: for each golden frequency in turn the
        nearest row of the trace is appended to the empty peaks. */
    method AppendPeaks(golden: seq<GoldenRow>)
      requires |trace| > 0 && peaks == Some([])
      modifies this`peaks
      ensures peaks.Some? && |peaks.value| == |golden|
      ensures forall j :: 0 <= j < |golden| ==> IsPeakFor(trace, peaks.value[j], golden[j].freq)
    {
      for g := 0 to |golden|
        invariant peaks.Some? && |peaks.value| == g
        invariant forall j :: 0 <= j < g ==> IsPeakFor(trace, peaks.value[j], golden[j].freq)
      {
        var peak := PeakNearest(trace, golden[g].freq);
        peaks := Some(peaks.value + [peak]);
      }
    }

    /** `getResultsFrame`: golden rows paired with the peaks by position,
        cached in `resultData`. */
    method GetResultsFrame(golden: seq<GoldenRow>) returns (r: Outcome<seq<ResultRow>>)
      modifies this`resultData
      ensures peaks.None? ==> r == Fail(AttributeError) && resultData == old(resultData)
      ensures peaks.Some? ==> r == Ok(ResultsFrame(golden, peaks.value)) && resultData == Some(r.value)
    {
      if peaks.None? {
        return Fail(AttributeError);
      }
      var results := ResultsFrame(golden, peaks.value);
      resultData := Some(results);
      r := Ok(results);
    }

    /** `checkPass`: true unless some delta lies outside ±3 dB. */
    method CheckPass() returns (r: Outcome<bool>)
      ensures resultData.None? ==> r == Fail(AttributeError)
      ensures resultData.Some? ==> r.Ok? && (r.value <==> AllWithinLimit(resultData.value))
    {
      if resultData.None? {
        return Fail(AttributeError);
      }
      var rows := resultData.value;
      var passing := true;
      var i := 0;
      while i < |rows|
        invariant 0 <= i <= |rows|
        invariant passing
        invariant forall j :: 0 <= j < i ==> WithinLimit(rows[j].delta)
      {
        var d := rows[i].delta;
        if d.Some? && (d.value > PassLimit || d.value < -PassLimit) {
          passing := false;
          break;
        }
        i := i + 1;
      }
      r := Ok(passing);
    }

    /** The order the window's end-of-sweep handler calls the check in:
        find the peaks, build the results, then judge them. */
    method SweepFinished(raw: seq<Sample>, golden: seq<GoldenRow>) returns (r: Outcome<bool>)
      requires factors.Valid()
      modifies this`trace, this`peaks, this`resultData
      ensures r.Fail? <==> !Readable(raw, factors.factorCount)
      ensures r.Fail? ==> r.error == (if factors.factorCount > 0 && Ascending(raw) then IndexError else ValueError)
      ensures r.Fail? ==> trace == (if factors.factorCount > 0 && Ascending(raw) then [] else RawRows(raw))
      ensures r.Fail? ==> peaks == Some([]) && resultData == old(resultData)
      ensures r.Ok? ==>
        && trace == CorrectedTrace(raw, factors.cf, factors.factorCount)
        && peaks.Some? && |peaks.value| == |golden|
        && (forall j :: 0 <= j < |golden| ==> IsPeakFor(trace, peaks.value[j], golden[j].freq))
        && resultData == Some(ResultsFrame(golden, peaks.value))
        && |resultData.value| == |golden|
        && (r.value <==> AllWithinLimit(resultData.value))
    {
      var found := FindPeaks(raw, golden);
      if found.Fail? {
        return Fail(found.error);
      }
      var results := GetResultsFrame(golden);
      r := CheckPass();
    }
  }
}
