/** Element-wise mapping of one respondent's row, the `[...row].map(f)` that every
    conversion rule is built from. */
module Rows {

  /** Applies `f` to every cell of `row`, keeping the order of the cells. */
  function Map(row: seq<real>, f: real -> bool): (out: seq<bool>)
    ensures |out| == |row|
    ensures forall i :: 0 <= i < |row| ==> out[i] == f(row[i])
  {
    if row == [] then [] else [f(row[0])] + Map(row[1..], f)
  }
}
