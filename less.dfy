/** The `less` conversion rule: a cell is covered when its rating is less than the cutoff. */
module LessConversion {
  import Rows

  function Less(row: seq<real>, cutoffValue: real): (out: seq<bool>)
    ensures |out| == |row|
    ensures forall i :: 0 <= i < |row| ==> out[i] == (row[i] < cutoffValue)
  {
    Rows.Map(row, v => v < cutoffValue)
  }

  /** Monotonicity in the cutoff: raising the cutoff never uncovers a covered cell. */
  lemma LessMonotone(row: seq<real>, lower: real, higher: real)
    requires lower <= higher
    ensures forall i :: 0 <= i < |row| ==> Less(row, lower)[i] ==> Less(row, higher)[i]
  {
  }
}
