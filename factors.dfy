/** factors.py's `CorrectionFactors`: the correction-factor table of one
    frequency range, rebuilt by `loadDict` from the entries of that range's
    store. */
module Factors {
  import opened Common
  import opened Interpolation
  import opened FactorTable

  class CorrectionFactors {
    /** The store's name, `<range>Factors`. */
    var fRange: string
    /** The frame `self.cf`: rows keyed by frequency, one column per loaded
        curve in store order, then the total. */
    var cf: seq<Row>
    /** How many curves were loaded, i.e. factor columns before the total. */
    var factorCount: nat

    ghost predicate Valid()
      reads this
    {
      IsFactorTable(cf, factorCount)
    }

    /** Setting the range names the store and loads its table. */
    constructor (range: string, sources: seq<Source>)
      requires SourcesWellFormed(sources)
      ensures Valid() && fRange == range + "Factors"
      ensures factorCount == |LoadedCurves(sources)| && TableOf(cf, LoadedCurves(sources))
    {
      fRange := range + "Factors";
      cf := [];
      factorCount := 0;
      new;
      LoadDict(sources);
    }

    /** `loadDict`: merges the curves of the entries that are read, sorts by
        frequency, interpolates each column inside its own span, drops the rows
        that keep a gap and appends the total. */
    method LoadDict(sources: seq<Source>)
      requires SourcesWellFormed(sources)
      modifies this`cf, this`factorCount
      ensures Valid()
      ensures factorCount == |LoadedCurves(sources)|
      ensures TableOf(cf, LoadedCurves(sources))
    {
      cf := [];
      factorCount := 0;
      ghost var curves: seq<Curve> := [];
      for i := 0 to |sources|
        invariant curves == LoadedCurves(sources[..i])
        invariant factorCount == |curves|
        invariant forall j :: 0 <= j < |curves| ==> WellFormed(curves[j])
        invariant Merged(cf, curves)
      {
        assert sources[..i + 1][..i] == sources[..i];
        var s := sources[i];
        if Loaded(s) {
          var local := NormalizedSign(s.factor, s.curve);
          NormalizedSignWholeCurve(s.factor, s.curve, s.curve);
          OuterMergeKeepsMerged(cf, curves, local);
          cf := OuterMerge(cf, factorCount, local);
          curves := curves + [local];
          factorCount := factorCount + 1;
        }
      }
      assert sources[..|sources|] == sources;
      cf := Tabulate(cf, factorCount, curves);
    }

    /** The steps of `loadDict` after the merge: sort by frequency, interpolate
        every column, drop the rows with a gap and append the total. */
    static method Tabulate(merged: seq<Row>, width: nat, ghost curves: seq<Curve>) returns (table: seq<Row>)
      requires Merged(merged, curves) && width == |curves|
      requires forall j :: 0 <= j < |curves| ==> WellFormed(curves[j])
      ensures TableOf(table, curves)
    {
      SortKeepsMerged(merged, curves);
      var sorted := SortRows(merged);
      assert forall r :: r in sorted ==> |r.cells| == |curves|;
      assert forall i :: 0 <= i < |sorted| ==> sorted[i] in sorted;
      var interpolated := InterpolateCf(sorted, width);
      CurvesInterpolated(sorted, interpolated, curves);
      FinishTable(interpolated, curves);
      table := AddTotal(DropNa(interpolated));
    }

    /** `interpolate_cf`: every column in turn is interpolated over frequency
        between its own first and last valid row; the result is the frame with
        each column replaced by its interpolation. */
    static method InterpolateCf(df: seq<Row>, width: nat) returns (out: seq<Row>)
      requires SortedRows(df)
      requires forall i :: 0 <= i < |df| ==> |df[i].cells| == width
      ensures |out| == |df|
      ensures forall i :: 0 <= i < |df| ==> out[i].freq == df[i].freq && |out[i].cells| == width
      ensures forall c :: 0 <= c < width ==> HasColumn(df, c)
      ensures forall i, c {:trigger out[i].cells[c]} :: 0 <= i < |df| && 0 <= c < width ==>
        out[i].cells[c] == Interpolate(Column(df, c), Freqs(df))[i]
    {
      out := df;
      for c := 0 to width
        invariant |out| == |df|
        invariant forall i :: 0 <= i < |df| ==> out[i].freq == df[i].freq && |out[i].cells| == width
        invariant forall i, c' {:trigger out[i].cells[c']} :: 0 <= i < |df| && 0 <= c' < c ==>
          out[i].cells[c'] == Interpolate(Column(df, c'), Freqs(df))[i]
        invariant forall i, c' {:trigger out[i].cells[c']} :: 0 <= i < |df| && c <= c' < width ==> out[i].cells[c'] == df[i].cells[c']
      {
        assert Column(out, c) == Column(df, c);
        assert Freqs(out) == Freqs(df);
        out := WithColumn(out, c, Interpolate(Column(out, c), Freqs(out)));
      }
    }
  }
}
