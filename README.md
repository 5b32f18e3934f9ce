# EasyCC confidence check: correction factors, trace correction and pass/fail

A daily confidence check for an EMI test lab works in these steps:

1. It builds a correction-factor table for the selected frequency range from up to five calibration curves (Antenna, Preamp, Cable, Attenuator, LISN).
2. It corrects a raw spectrum-analyser trace with that table.
3. For each golden frequency, it picks the trace row nearest in frequency.
4. It pairs the picks with the golden values.
5. It passes when every difference lies within ±3 dB.

This project models that pipeline in Dafny and proves what each step promises.

Modules:

- `Common`: pandas NaN cells as `Option<real>`, the Python exceptions the pipeline raises (`Outcome`), and row sums taken the way pandas takes them (NaN skipped).
- `Interpolation`: `interpolate(method='index')` applied to the slice of a column between its first and last valid entry. A missing cell with a known value on both sides gets the straight line between its nearest known neighbours. Every other cell keeps what it had.
- `FactorTable`: the value-level steps of `loadDict`:
  - the store entries that are read;
  - the sign rule;
  - the outer merge on frequency;
  - the sort, `dropna` and the total column.

  It also defines `CurveAt`, which reads a curve as a piecewise-linear function of frequency. The finished table is stated against it.
- `Factors`: class `CorrectionFactors`. It has the `cf` frame as a field. `LoadDict` rebuilds `cf` with a loop of outer merges. `InterpolateCf` is the column loop of `interpolate_cf`.
- `CcModel`: class `ConfidenceCheck`. Its fields are the range, the worksheet and table names, the factors object, `trace`, `peaks` and `resultData`. Its methods:
  - `SetRange`: the `fRange` setter.
  - `ReadCorrectedTrace`: the nearest-key merge with 2 MHz tolerance, the per-column interpolation over row position, and the corrected column.
  - `FindPeaks`, `GetResultsFrame` and `CheckPass`.
  - `SweepFinished`: calls them in the order the window's end-of-sweep handler does.

The main results:

- **Table content.** `LoadDict` builds exactly the table `TableOf` describes:
  - One row for each frequency of any curve that lies inside every curve's span. Each factor cell is that curve's piecewise-linear value there, and the total is their sum.
  - Rows sorted by frequency.
  - An empty table when no curve is loaded.
- **Corrected trace.** `CorrectedTraceTotals` holds after the merge and the per-column interpolation of the trace: every row either has all factor cells with the total their sum, or has none.
  - The corrected amplitude is present exactly where the total is, and equals the amplitude plus the sum of the factors.
  - This holds because all attached columns are known in the same rows, so interpolation, being linear, commutes with the sum.
- **Peaks and verdict.**
  - Each peak is an actual trace row at minimal distance from its golden frequency.
  - The results frame pairs rows by position and truncates to the shorter side.
  - `CheckPass` is true exactly when no delta leaves [-3, 3].

Points where the code's behaviour differs from what its comments or a casual reading suggest; the model follows the code:

- **Sign rule.** `factor != ('Preamp' and 'Antenna')` evaluates to `factor != 'Antenna'` (factors.py:50):
  - An Antenna curve is never negated.
  - A Preamp curve is negated whenever its first value is non-zero, so a negative Preamp curve becomes positive.
  - Cable, Attenuator and LISN curves are negated when their first value is negative.
- **Which value sets the sign.** It is taken from the first line of the file (`iloc[0]`), not the lowest frequency.
- **Empty trace.** `merge_asof` returns an empty frame and `iloc[-1]` then raises `IndexError` (ccModel.py:99). `ReadCorrectedTrace` returns `Fail(IndexError)` with the trace empty.
- **No curve loaded.** When no store entry is read, `cf` keeps the frequency column of the empty frame of factors.py:35. That column's dtype is object, and `merge_asof` (ccModel.py:92) refuses keys of different dtypes with `MergeError`, a `ValueError`. `ReadCorrectedTrace` returns `Fail(ValueError)` with the trace as read.
- **Unsorted trace.** `merge_asof` raises `ValueError` (ccModel.py:92). The trace stays as read.
- **Nearest-row ties.** `argsort` is not stable, so a tie between two nearest trace rows may resolve to either. `IsPeakFor` admits any nearest row.
- **Bound scans.** The two scans over the table's frequencies (ccModel.py:99-111) compute values nothing reads. `ScanBounds` models them; they do not influence the trace.
- **`checkPass`.** The `for` line lacks its colon (ccModel.py:190), so the module does not load as written. `CheckPass` models the evidently intended loop.
- **Results frame.** `getResultsFrame` is an inner merge on the default index. Unequal lengths truncate silently.

## Model

| member | source | states |
|---|---|---|
| Interpolation.Interpolate | factors.py:64-66 | a known cell is kept; a cell ends up known exactly when it lies in the column's first..last valid slice; a missing cell between two known neighbours gets the straight line between them, measured on the index |
| Interpolation.LastValidBefore | factors.py:66 | the nearest known cell strictly before a position, or none when every earlier cell is missing |
| Interpolation.FirstValidFrom | factors.py:66 | the nearest known cell at or after a position, or none when every later cell is missing |
| Interpolation.FilledBetweenNeighbours | factors.py:66 | a filled cell lies between the values of its two known neighbours |
| Interpolation.LerpBetween | factors.py:66 | between its ends the interpolating line stays between the end values |
| Interpolation.SpanNeighbours | factors.py:64-66 | a missing cell inside the valid slice has a nearest known cell on each side |
| Interpolation.SameMaskSameShape | ccModel.py:118-121 | columns missing in the same rows have the same valid slices and the same neighbouring pairs |
| Interpolation.LerpOfSum | ccModel.py:118-121 | interpolating cell by cell between two complete rows gives a row whose sum is the interpolation of the two sums |
| FactorTable.LoadedCurves | factors.py:36-51 | the sign-normalised curves of the entries that are read, in store order, each non-empty with distinct frequencies |
| FactorTable.UnreadSourceIsSkipped | factors.py:36-37 | an entry whose path does not exist or is the empty path is skipped silently: removing it gives the same curves |
| FactorTable.FlipsSign | factors.py:45-51 | the sign test taken on the first value; it never fires for an Antenna curve or a first value of zero |
| FactorTable.NormalizedSign | factors.py:45-51 | every frequency kept; an Antenna curve unchanged; a Preamp curve's first value always negated; a Cable, Attenuator or LISN curve starting non-negative |
| FactorTable.SignRuleAsWritten | factors.py:45-51 | Antenna is never negated; Preamp is negated exactly when its first value is non-zero; Cable, Attenuator and LISN exactly when it is negative |
| FactorTable.NormalizedSignWholeCurve | factors.py:45-51 | normalisation keeps every frequency and either keeps every value or negates every value, the choice depending on the first value alone; a Cable, Attenuator or LISN curve then starts non-negative |
| FactorTable.UnionFreqs | factors.py:53 | a frequency is in the union exactly when some curve lists it |
| FactorTable.CurveValue | factors.py:53 | a curve's listed value at a frequency, missing exactly when the curve does not list it |
| FactorTable.MaxBelow | factors.py:66 | the curve's point with the highest frequency strictly below `f`, none when no point lies below |
| FactorTable.MinAbove | factors.py:66 | the curve's point with the lowest frequency strictly above `f`, none when no point lies above |
| FactorTable.CurveAtSpan | factors.py:64-66 | the piecewise-linear reading of a curve has a value exactly inside the curve's [first, last] frequency span |
| FactorTable.CurveAtBetween | factors.py:66 | at a listed frequency the reading is the listed value; elsewhere it lies between the nearest listed values below and above |
| FactorTable.Unmatched | factors.py:53 | the rows the outer merge adds: each frequency of the new curve that the frame lacks, once, with gaps in the earlier columns |
| FactorTable.Extended | factors.py:53 | every existing row kept with the new curve's value, or a gap, appended as its last cell |
| FactorTable.OuterMerge | factors.py:53 | the existing rows first and in order, each with the new curve's listed value or a gap appended; then rows for frequencies only the new curve lists, with gaps in the earlier columns |
| FactorTable.OuterMergeKeepsMerged | factors.py:53 | after the outer merge each frequency of every curve appears once and column `j` holds curve `j`'s listed value or a gap |
| FactorTable.OuterMergeDistinct | factors.py:53 | the outer merge never repeats a frequency |
| FactorTable.OuterMergeFreqs | factors.py:53 | the merged frame's frequencies are the old frame's plus the new curve's |
| FactorTable.OuterMergeCells | factors.py:53 | every merged row has one cell per curve, holding that curve's listed value at the row's frequency |
| FactorTable.Insert | factors.py:55 | inserting a row into a frame sorted by frequency keeps it sorted and adds exactly that row |
| FactorTable.SortRows | factors.py:55 | the sorted frame is ordered by frequency and holds the same rows |
| FactorTable.SortKeepsMerged | factors.py:55 | sorting keeps every merged row and orders the frame by ascending frequency |
| FactorTable.DropNa | factors.py:57 | keeps exactly the rows without a gap |
| FactorTable.DropNaSorted | factors.py:57 | dropping rows keeps a frame sorted by frequency sorted |
| FactorTable.AddTotal | factors.py:58 | every row kept at its frequency, with one more cell: the sum of its cells, missing ones counting nothing |
| FactorTable.ColumnIsCurveValue | factors.py:53 | column `j` of the merged frame holds curve `j`'s listed values |
| FactorTable.InterpolatedColumnIsCurve | factors.py:61-67 | interpolating column `j` of the sorted merged frame over frequency gives, row by row, curve `j`'s piecewise-linear value |
| FactorTable.InsideSpanIsLerp | factors.py:64-66 | a gap that the curve brackets gets the line between the curve's nearest points below and above |
| FactorTable.NearestPointsAreNeighbours | factors.py:66 | the rows holding the curve's nearest points around a gap are the gap's nearest known rows |
| FactorTable.OutsideSpanStaysMissing | factors.py:64-66 | a gap outside the curve's span stays a gap |
| FactorTable.CurvesInterpolated | factors.py:61-67 | after interpolation every cell of every column is the matching curve's piecewise-linear value and the frequencies are the union of the curves' |
| FactorTable.FinishTable | factors.py:57-58 | `dropna` and the total turn the interpolated frame into the table: sorted, no gap, each cell its curve's value, the total the row sum, and a frequency kept exactly when it lies inside every curve's span |
| FactorTable.TotalRow | factors.py:58 | each row of the finished table is a kept row's factor cells followed by their sum |
| FactorTable.TotalKeepsFreqs | factors.py:58 | appending the total keeps the frame's frequencies |
| FactorTable.KeptFreqs | factors.py:57 | `dropna` keeps exactly the frequencies at which every curve has a value |
| FactorTable.TableRowsInsideEverySpan | factors.py:57-58 | every row of the table lies inside every curve's [first, last] span, and with no curve loaded the table is empty |
| Factors.CorrectionFactors.constructor | factors.py:11-22 | naming the range sets the store name to `<range>Factors` and loads its table |
| Factors.CorrectionFactors.LoadDict | factors.py:34-59 | the frame becomes the table of the loaded curves and the factor count their number |
| Factors.CorrectionFactors.Tabulate | factors.py:55-58 | sort, interpolation, `dropna` and total applied to the merged frame give the table of the curves |
| Factors.CorrectionFactors.InterpolateCf | factors.py:61-67 | each column in turn replaced by its interpolation over frequency; frequencies and widths unchanged |
| CcModel.ArgNearest | ccModel.py:151-152 | a position whose value is nearest to `f` |
| CcModel.NearestRow | ccModel.py:92-96 | a table row at minimal distance when one lies within 2 MHz, none when every row is farther |
| CcModel.NearestCells | ccModel.py:92-96 | the cells attached to a sample: the nearest row's, or a row of NaN, always of the table's width |
| CcModel.MergeAsof | ccModel.py:92-96 | every sample kept in order with frequency and amplitude unchanged, carrying the cells of the nearest table row within tolerance |
| CcModel.TableShape | ccModel.py:92-96 | a finished table has the same width in every row and strictly increasing frequencies, as the nearest merge needs |
| CcModel.InterpolatedTrace | ccModel.py:114-121 | every attached column interpolated over row position inside its own valid slice; frequency, amplitude and corrected value unchanged |
| CcModel.WithCorrected | ccModel.py:123 | each row's corrected value is amplitude plus total, NaN where the total is NaN; every other field unchanged |
| CcModel.CorrectedTrace | ccModel.py:92-123 | the merged, interpolated and corrected trace keeps every sample in order with frequency and amplitude, and each corrected value is amplitude plus the row's total |
| CcModel.MergedConsistent | ccModel.py:92-96 | each merged row is either a complete table row, with its total the sum of its factors, or entirely NaN |
| CcModel.MatchedCellsKnown | ccModel.py:92-96 | a sample with a table row within 2 MHz receives a total |
| CcModel.ConsistentMasks | ccModel.py:92-96 | in the merged trace every factor column is known in exactly the rows where the total is |
| CcModel.InterpolationKeepsConsistent | ccModel.py:118-121 | interpolating all columns keeps every row either complete with total equal to the factor sum, or entirely NaN |
| CcModel.KnownRowKept | ccModel.py:118-121 | a row whose total is known keeps all its cells |
| CcModel.FilledRowConsistent | ccModel.py:118-121 | a row filled by interpolation is complete and its total is the sum of its factors |
| CcModel.FilledCell | ccModel.py:118-121 | each column of a filled row takes the line between the same two neighbouring rows as the total |
| CcModel.LerpRowConsistent | ccModel.py:118-121 | a row interpolated between two consistent complete rows is consistent |
| CcModel.OutsideRowMissing | ccModel.py:118-121 | a row outside the total's valid slice stays entirely NaN |
| CcModel.EndsKnownFillTotal | ccModel.py:118-121 | a total known in the first and the last row is known in every row after interpolation |
| CcModel.CorrectedTraceTotals | ccModel.py:92-123 | the corrected trace keeps every sample in order; each row is complete with total equal to the factor sum, or entirely NaN; the corrected amplitude is present exactly where the total is and equals amplitude plus factor sum |
| CcModel.CoveredTraceFullyCorrected | ccModel.py:92-123 | when both ends of the trace have a table row within 2 MHz, every sample gets a corrected amplitude |
| CcModel.KnownEndsCorrected | ccModel.py:114-123 | when both ends of the merged trace carry a total, every corrected amplitude is present |
| CcModel.ScanBounds | ccModel.py:99-111 | the highest table frequency strictly below the first trace frequency and the lowest strictly above the last, each none when there is no such frequency |
| CcModel.Delta | ccModel.py:205-206 | golden minus measured, known exactly when both sides are |
| CcModel.WithinLimit | ccModel.py:191 | a delta passes exactly when it is not a known value above 3 or below -3, so NaN passes |
| CcModel.ResultsFrame | ccModel.py:197-206 | golden row `i` paired with peak `i`, as many rows as the shorter side, delta known exactly when both sides are and equal to golden minus measured |
| CcModel.ExactFrequencyIsPicked | ccModel.py:150-153 | a golden frequency the trace hits exactly is reported at that frequency |
| CcModel.RangeSheet | ccModel.py:23-28 | a worksheet exists exactly for the keys `lf`, `mf`, `hf` and `ce` |
| CcModel.ConfidenceCheck.constructor | ccModel.py:19-29 | a valid range key selects its worksheet, names the tables and loads the factors; trace empty, peaks and results unset |
| CcModel.ConfidenceCheck.SetRange | ccModel.py:53-65 | a valid key sets the range, worksheet, `Measured_<key>` and `Deltas_<key>` and loads a new factors object; any other key changes nothing |
| CcModel.ConfidenceCheck.ReadCorrectedTrace | ccModel.py:87-126 | with no curve loaded, or an unsorted trace, `ValueError` with the trace as read; otherwise an empty trace raises `IndexError`; otherwise the trace becomes the merged, interpolated and corrected trace and is returned |
| CcModel.ConfidenceCheck.CorrectMerged | ccModel.py:114-123 | the column loop and the corrected column applied to the merged trace give the corrected trace |
| CcModel.ConfidenceCheck.InterpolateColumns | ccModel.py:114-121 | the in-place column loop gives the trace with every column interpolated over row position |
| CcModel.ConfidenceCheck.PeakNearest | ccModel.py:151-153 | the selected peak is an actual trace row at minimal distance from the golden frequency |
| CcModel.ConfidenceCheck.FindPeaks | ccModel.py:144-155 | peaks reset; on a trace that can be read, one peak per golden frequency in golden order, each a nearest trace row; otherwise (no curve loaded, an unsorted or an empty trace) the read's exception with the peaks left empty and the trace as read (`ValueError`) or empty (`IndexError`) |
| CcModel.ConfidenceCheck.AppendPeaks | ccModel.py:150-153 | the loop appends, for each golden frequency in turn, a nearest trace row |
| CcModel.ConfidenceCheck.GetResultsFrame | ccModel.py:196-207 | without peaks `AttributeError`; otherwise the positional results frame, cached in `resultData` |
| CcModel.ConfidenceCheck.CheckPass | ccModel.py:187-194 | without results `AttributeError`; otherwise true exactly when every delta is NaN or within [-3, 3] |
| CcModel.ConfidenceCheck.SweepFinished | main.py:131-136 | find peaks, build results, judge: fails exactly when no curve is loaded or the trace is unsorted or empty, with the read's exception, the peaks empty, the trace as read (`ValueError`) or empty (`IndexError`) and `resultData` unchanged; otherwise the trace is the corrected trace, one peak per golden frequency each a nearest trace row, the results are the positional frame of golden values and peaks, and the verdict is true exactly when every delta is within limits |

## Left out

- Instrument I/O is not modelled:
  - opening and closing the analyser resource and `readTrace` are left out; the raw trace is a parameter;
  - `initAnalyzer`, `sweepAntenna` and `syncTower` (tower motion, `sleep`) are left out.
- The workbook is not modelled:
  - the `filepath` setter, the worksheet range lookups, `insertDataToExcel`, `clearResults`, `save_and_exit` and `exit` are left out;
  - the golden values are a parameter instead of the `goldenValues` read.
- The store and file parsing are not modelled:
  - `getFactorsDict`, `saveShelve` and `pd.read_csv` are left out; each store entry is a parameter with its parsed curve and whether its path exists;
  - the `FactorsView` dialog is left out.
- Columns are identified by load order rather than by file stem. Two files with the same stem, which pandas would suffix, are not modelled.
- Floating point is not modelled: values are exact reals and NaN is only a missing cell. Rounding, infinities and NaN arithmetic beyond that are left out.
- FactorTable.OuterMerge: the row order of pandas' outer merge is not modelled, because the frame is sorted right after and the sorted frame is stated in full.
- Factors.CorrectionFactors.LoadDict: requires each curve that is read to be non-empty with distinct frequencies. `read_csv` raises on an empty file, and a repeated frequency would multiply rows in the merge; that duplication is not modelled.
- CcModel.ConfidenceCheck.constructor: requires a valid range key. With any other key the Python object is left without a range, worksheet or factors, and every later call fails; that half-built object is not modelled.
- CcModel.ConfidenceCheck.ReadCorrectedTrace: requires a table satisfying `IsFactorTable`. Every constructor and `SetRange` establish this.
- CcModel.ConfidenceCheck.FindPeaks: requires a table satisfying `IsFactorTable`. Every constructor and `SetRange` establish this.
- CcModel.ConfidenceCheck.SweepFinished: requires a table satisfying `IsFactorTable`. Every constructor and `SetRange` establish this.
- CcModel.ConfidenceCheck.ReadCorrectedTrace: once a curve is loaded, the table's frequency column is taken to be float, as the outer merge with a float curve makes it. Pandas dtype promotion is not modelled beyond the no-curve case.
- CcModel.ConfidenceCheck.SweepFinished: the Qt status-bar messages, the workbook write on a pass and the animation stop are left out; the method returns the verdict.
- CcModel.ArgNearest: picks the first nearest position. The contracts built on it, `IsPeakFor` and `NearestWithin`, admit any nearest row, because pandas' tie-breaking is not fixed.
- `DataFrame.append` in `findPeaks` no longer exists in recent pandas. The model follows the evidently intended append of one row per golden frequency.
