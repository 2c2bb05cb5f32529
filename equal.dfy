/** The `equal` conversion rule: a cell is covered when its rating is equal to the cutoff. */
module EqualConversion {
  import Rows

  function Equal(row: seq<real>, cutoffValue: real): (out: seq<bool>)
    ensures |out| == |row|
    ensures forall i :: 0 <= i < |row| ==> out[i] == (row[i] == cutoffValue)
  {
    Rows.Map(row, v => v == cutoffValue)
  }
}
