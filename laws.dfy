/** How the five comparison rules relate to one another, cell by cell, for the same
    row and cutoff. */
module ConversionLaws {
  import LessConversion
  import LessOrEqualConversion
  import MoreConversion
  import MoreOrEqualConversion
  import EqualConversion

  /** `lessOrEqual` covers a cell exactly when `less` or `equal` covers it. */
  lemma LessOrEqualIsLessOrEqualTo(row: seq<real>, cutoffValue: real)
    ensures forall i :: 0 <= i < |row| ==>
      LessOrEqualConversion.LessOrEqual(row, cutoffValue)[i] ==
      (LessConversion.Less(row, cutoffValue)[i] || EqualConversion.Equal(row, cutoffValue)[i])
  {
  }

  /** `moreOrEqual` and `less` are complements. */
  lemma MoreOrEqualIsNotLess(row: seq<real>, cutoffValue: real)
    ensures forall i :: 0 <= i < |row| ==>
      MoreOrEqualConversion.MoreOrEqual(row, cutoffValue)[i] == !LessConversion.Less(row, cutoffValue)[i]
  {
  }

  /** `more` and `lessOrEqual` are complements. */
  lemma MoreIsNotLessOrEqual(row: seq<real>, cutoffValue: real)
    ensures forall i :: 0 <= i < |row| ==>
      MoreConversion.More(row, cutoffValue)[i] == !LessOrEqualConversion.LessOrEqual(row, cutoffValue)[i]
  {
  }

  /** `equal` covers a cell exactly when both `lessOrEqual` and `moreOrEqual` do. */
  lemma EqualIsBothBounds(row: seq<real>, cutoffValue: real)
    ensures forall i :: 0 <= i < |row| ==>
      EqualConversion.Equal(row, cutoffValue)[i] ==
      (LessOrEqualConversion.LessOrEqual(row, cutoffValue)[i] && MoreOrEqualConversion.MoreOrEqual(row, cutoffValue)[i])
  {
  }
}
