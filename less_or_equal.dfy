/** The `lessOrEqual` conversion rule: a cell is covered when its rating is at most the cutoff. */
module LessOrEqualConversion {
  import Rows

  function LessOrEqual(row: seq<real>, cutoffValue: real): (out: seq<bool>)
    ensures |out| == |row|
    ensures forall i :: 0 <= i < |row| ==> out[i] == (row[i] <= cutoffValue)
  {
    Rows.Map(row, v => v <= cutoffValue)
  }

  /** Monotonicity in the cutoff: raising the cutoff never uncovers a covered cell. */
  lemma LessOrEqualMonotone(row: seq<real>, lower: real, higher: real)
    requires lower <= higher
    ensures forall i :: 0 <= i < |row| ==> LessOrEqual(row, lower)[i] ==> LessOrEqual(row, higher)[i]
  {
  }
}
