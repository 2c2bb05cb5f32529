/** The analysis object: it checks the requested conversion rule against the registry,
    stores its arguments and converts every respondent's ratings into a row of coverage
    flags, one per item. */
module Core {
  import Conversions

  /** The rule names no registered rule answers to. */
  datatype Error = UnknownConversionType

  datatype Result<T> = Success(value: T) | Failure(error: Error)

  /** The coverage matrix of `rows`: each row converted on its own by `convert`, in order. */
  function Convert(convert: (seq<real>, real) -> seq<bool>, rows: seq<seq<real>>, cutoffValue: real): (out: seq<seq<bool>>)
    ensures |out| == |rows|
  {
    if rows == [] then
      []
    else
      Convert(convert, rows[..|rows| - 1], cutoffValue) + [convert(rows[|rows| - 1], cutoffValue)]
  }

  /** Row i of the coverage matrix is `convert` applied to row i of the ratings alone. */
  lemma {:induction false} ConvertRows(convert: (seq<real>, real) -> seq<bool>, rows: seq<seq<real>>, cutoffValue: real)
    ensures forall i :: 0 <= i < |rows| ==> Convert(convert, rows, cutoffValue)[i] == convert(rows[i], cutoffValue)
  {
    if rows != [] {
      var last := |rows| - 1;
      var init := rows[..last];
      ConvertRows(convert, init, cutoffValue);
      forall i | 0 <= i < last
        ensures Convert(convert, rows, cutoffValue)[i] == convert(rows[i], cutoffValue)
      {
        assert rows[i] == init[i];
      }
    }
  }

  /** The rule used when the caller names none. */
  const DefaultMethod: string := "top"

  /** The cutoff used when the caller gives none. */
  const DefaultCutoff: real := 1.0

  class TurfAnalysis {
    var matrix: seq<seq<real>>
    var conversionMethod: string
    var cutoffValue: real
    var preparedMatrix: seq<seq<bool>>

    /** The stored rule name is a registered one. */
    ghost predicate Valid()
      reads this
    {
      conversionMethod in Conversions.Registered
    }

    /** The rule the stored name is registered under. */
    function Rule(): (m: Conversions.Method)
      reads this
      requires Valid()
      ensures Conversions.Name(m) == conversionMethod
    {
      Conversions.Lookup(conversionMethod).value
    }

    /** `preparedMatrix` is `matrix` converted row by row with the stored rule and cutoff. */
    ghost predicate Prepared()
      reads this
      requires Valid()
    {
      preparedMatrix == Convert(Conversions.Registry(Rule()), matrix, cutoffValue)
    }

    /** `new TurfAnalysis(matrix, conversionMethod, cutoffValue)`: an unregistered rule
        name fails before anything is stored or converted; otherwise the arguments are
        stored as given and the matrix is prepared. */
    static method New(matrix: seq<seq<real>>, conversionMethod: string := DefaultMethod,
                      cutoffValue: real := DefaultCutoff)
      returns (r: Result<TurfAnalysis>)
      ensures r.Failure? <==> conversionMethod !in Conversions.Registered
      ensures r.Failure? ==> r.error == UnknownConversionType
      ensures r.Success? ==> fresh(r.value) && r.value.Valid() && r.value.Prepared()
      ensures r.Success? ==> r.value.matrix == matrix && r.value.conversionMethod == conversionMethod &&
                             r.value.cutoffValue == cutoffValue
    {
      if Conversions.Lookup(conversionMethod).None? {
        return Failure(UnknownConversionType);
      }
      var analysis := new TurfAnalysis(matrix, conversionMethod, cutoffValue);
      return Success(analysis);
    }

    /** The part of the constructor after the name check: store, then prepare once. */
    constructor (matrix: seq<seq<real>>, conversionMethod: string, cutoffValue: real)
      requires conversionMethod in Conversions.Registered
      ensures this.matrix == matrix && this.conversionMethod == conversionMethod
      ensures this.cutoffValue == cutoffValue
      ensures Valid() && Prepared()
    {
      this.matrix := matrix;
      this.conversionMethod := conversionMethod;
      this.cutoffValue := cutoffValue;
      preparedMatrix := [];
      new;
      PrepareMatrix();
    }

    /** Converts each row of `matrix` in order into a fresh sequence and stores it as
        `preparedMatrix`; the stored arguments are left as they were. */
    method PrepareMatrix()
      requires Valid()
      modifies this`preparedMatrix
      ensures Valid() && Prepared()
      ensures matrix == old(matrix) && conversionMethod == old(conversionMethod)
      ensures cutoffValue == old(cutoffValue)
    {
      var convert, rows, cutoff := Conversions.Registry(Rule()), matrix, cutoffValue;
      var prepared: seq<seq<bool>> := [];
      var i := 0;
      while i < |rows|
        invariant 0 <= i <= |rows|
        invariant prepared == Convert(convert, rows[..i], cutoff)
      {
        assert rows[..i + 1][..i] == rows[..i];
        prepared := prepared + [convert(rows[i], cutoff)];
        i := i + 1;
      }
      assert rows[..i] == rows;
      preparedMatrix := prepared;
    }
  }

  /** A prepared analysis holds one coverage row per respondent, in order: row i is the
      stored rule applied to `matrix[i]` alone and has as many cells. */
  lemma PreparedRows(analysis: TurfAnalysis)
    requires analysis.Valid() && analysis.Prepared()
    ensures |analysis.preparedMatrix| == |analysis.matrix|
    ensures forall i :: 0 <= i < |analysis.matrix| ==>
      analysis.preparedMatrix[i] == Conversions.Registry(analysis.Rule())(analysis.matrix[i], analysis.cutoffValue) &&
      |analysis.preparedMatrix[i]| == |analysis.matrix[i]|
  {
    ConvertRows(Conversions.Registry(analysis.Rule()), analysis.matrix, analysis.cutoffValue);
  }

  /** Omitting the rule and the cutoff means rule `top` with cutoff 1. */
  method NewWithDefaults(matrix: seq<seq<real>>) returns (r: Result<TurfAnalysis>)
    ensures r.Success?
    ensures r.value.conversionMethod == "top" && r.value.cutoffValue == 1.0
    ensures r.value.matrix == matrix && r.value.Valid() && r.value.Prepared()
  {
    r := TurfAnalysis.New(matrix);
  }

  /** Requesting the unregistered `equal` rule fails with `UnknownConversionType`. */
  method NewWithEqual(matrix: seq<seq<real>>, cutoffValue: real) returns (r: Result<TurfAnalysis>)
    ensures r == Failure(UnknownConversionType)
  {
    Conversions.EqualNotRegistered();
    r := TurfAnalysis.New(matrix, "equal", cutoffValue);
  }
}
