/** The `moreOrEqual` conversion rule: a cell is covered when its rating is at least the cutoff. */
module MoreOrEqualConversion {
  import Rows

  function MoreOrEqual(row: seq<real>, cutoffValue: real): (out: seq<bool>)
    ensures |out| == |row|
    ensures forall i :: 0 <= i < |row| ==> out[i] == (row[i] >= cutoffValue)
  {
    Rows.Map(row, v => v >= cutoffValue)
  }

  /** Monotonicity in the cutoff: raising the cutoff never covers an uncovered cell. */
  lemma MoreOrEqualAntitone(row: seq<real>, lower: real, higher: real)
    requires lower <= higher
    ensures forall i :: 0 <= i < |row| ==> MoreOrEqual(row, higher)[i] ==> MoreOrEqual(row, lower)[i]
  {
  }
}
