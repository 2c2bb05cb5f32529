/** The `more` conversion rule: a cell is covered when its rating is greater than the cutoff. */
module MoreConversion {
  import Rows

  function More(row: seq<real>, cutoffValue: real): (out: seq<bool>)
    ensures |out| == |row|
    ensures forall i :: 0 <= i < |row| ==> out[i] == (row[i] > cutoffValue)
  {
    Rows.Map(row, v => v > cutoffValue)
  }

  /** Monotonicity in the cutoff: raising the cutoff never covers an uncovered cell. */
  lemma MoreAntitone(row: seq<real>, lower: real, higher: real)
    requires lower <= higher
    ensures forall i :: 0 <= i < |row| ==> More(row, higher)[i] ==> More(row, lower)[i]
  {
  }
}
