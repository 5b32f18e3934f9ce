/** Values shared by the correction-factor builder and the confidence check:
    missing cells (pandas NaN), the Python exceptions the pipeline can raise,
    distances and row sums. */
module Common {

  /** A table cell: `None` stands for pandas' NaN. */
  datatype Option<T> = None | Some(value: T)

  /** The Python exceptions raised by the modelled code paths. */
  datatype Exception = IndexError | ValueError | AttributeError

  /** What a Python call returns, or the exception it raises. */
  datatype Outcome<T> = Ok(value: T) | Fail(error: Exception)

  /** |a - b| */
  function Dist(a: real, b: real): real
  {
    if a >= b then a - b else b - a
  }

  /** Row sum as pandas computes it with `skipna`: missing cells add nothing. */
  function SumCells(cells: seq<Option<real>>): real
  {
    if cells == [] then 0.0
    else (if cells[0].Some? then cells[0].value else 0.0) + SumCells(cells[1..])
  }

  predicate AllPresent(cells: seq<Option<real>>)
  {
    forall c :: 0 <= c < |cells| ==> cells[c].Some?
  }

  predicate AllMissing(cells: seq<Option<real>>)
  {
    forall c :: 0 <= c < |cells| ==> cells[c].None?
  }

  /** A row of `n` NaN cells. */
  function Nones(n: nat): (r: seq<Option<real>>)
    ensures |r| == n && AllMissing(r)
  {
    seq(n, _ => None)
  }

  predicate StrictlyIncreasing(xs: seq<real>)
  {
    forall i, j :: 0 <= i < j < |xs| ==> xs[i] < xs[j]
  }
}
