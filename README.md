# TURF analysis: from ratings to coverage

This project models the conversion layer of a TURF (Total Unduplicated Reach and
Frequency) engine. Each respondent rates every item, and a conversion rule turns that row of
ratings into a row of flags that say which items "cover" the respondent. The parts modelled are:

- the five comparison rules `less`, `lessOrEqual`, `more`, `moreOrEqual` and `equal`. Each one
  compares every rating with a cutoff (`rows.dfy` holds the shared element-wise map);
- the `top` rule (`top.dfy`). It ranks each rating within its row and covers the cells whose
  rank is at most the cutoff. The rank is one plus the index of the rating's first occurrence in
  a copy of the row sorted in descending order. The sort is modelled as an insertion sort and
  specified as a descending permutation. Every property of ranks is proved from that
  specification alone, so it holds whatever sorting algorithm is used;
- the registry of rule names (`conversions.dfy`). The rules form a closed datatype, looked up by
  name, and a `match` gives the conversion function of each. `equal` has a rule but no
  registry entry;
- the `TurfAnalysis` class (`core.dfy`). Its constructor rejects an unregistered rule name and
  applies the defaults (rule `top`, cutoff 1). It stores its arguments and prepares the
  coverage matrix row by row in a loop. The loop is proved against `Core.Convert`, a function
  that states the coverage matrix one row at a time.

Ratings and cutoffs are `real`. Ranks are `real` too, because `top` compares them with the same
cutoff through `lessOrEqual`. Rows and matrices are sequences, so no rule can change its input;
this holds by construction.

A Dafny constructor cannot fail. So `Core.TurfAnalysis.New` models the whole JavaScript
constructor: the name check, the defaults and the object. The unnamed constructor models the part
after the check, and it requires a registered name. The JavaScript default arguments become Dafny
default parameter values.

The code and the written design disagree on ties in `top`. The design says ties are broken by
first-seen order. The code gives tied ratings the same rank, because `indexOf` finds the first
occurrence in the sorted copy. The model follows the code (`TopConversion.RankOrder`). As a
result, `top` with cutoff 1 covers every cell that holds the row maximum
(`TopConversion.TopOneMarksMaxima`).

## Model

| member | source | states |
|---|---|---|
| Rows.Map | src/conversions/less.js:8 | `[...row].map(f)`: same length as the row, and cell i is `f(row[i])` |
| LessConversion.Less | src/conversions/less.js:6-8 | output has the row's length; cell i is `row[i] < cutoff` |
| LessConversion.LessMonotone | src/conversions/less.js:8 | raising the cutoff never uncovers a covered cell |
| LessOrEqualConversion.LessOrEqual | src/conversions/lessOrEqual.js:6-8 | output has the row's length; cell i is `row[i] <= cutoff` |
| LessOrEqualConversion.LessOrEqualMonotone | src/conversions/lessOrEqual.js:8 | raising the cutoff never uncovers a covered cell |
| MoreConversion.More | src/conversions/more.js:6-8 | output has the row's length; cell i is `row[i] > cutoff` |
| MoreConversion.MoreAntitone | src/conversions/more.js:8 | raising the cutoff never covers an uncovered cell |
| MoreOrEqualConversion.MoreOrEqual | src/conversions/moreOrEqual.js:6-8 | output has the row's length; cell i is `row[i] >= cutoff` |
| MoreOrEqualConversion.MoreOrEqualAntitone | src/conversions/moreOrEqual.js:8 | raising the cutoff never covers an uncovered cell |
| EqualConversion.Equal | src/conversions/equal.js:6-8 | output has the row's length; cell i is `row[i] == cutoff` |
| ConversionLaws.LessOrEqualIsLessOrEqualTo | src/conversions/lessOrEqual.js:8 | `lessOrEqual` covers a cell exactly when `less` or `equal` does |
| ConversionLaws.MoreOrEqualIsNotLess | src/conversions/moreOrEqual.js:8 | `moreOrEqual` is the cell-wise complement of `less` |
| ConversionLaws.MoreIsNotLessOrEqual | src/conversions/more.js:8 | `more` is the cell-wise complement of `lessOrEqual` |
| ConversionLaws.EqualIsBothBounds | src/conversions/equal.js:8 | `equal` covers a cell exactly when both `lessOrEqual` and `moreOrEqual` do |
| TopConversion.Insert | src/conversions/top.js:8 | inserting into a descending sequence keeps it descending and adds exactly that rating |
| TopConversion.SortDescending | src/conversions/top.js:8 | the sorted copy is descending and a permutation of the row |
| TopConversion.IndexOf | src/conversions/top.js:10 | `indexOf`: -1 exactly when absent, otherwise an index holding the value with no earlier occurrence |
| TopConversion.CountGreaterPermutation | src/conversions/top.js:8 | how many ratings exceed a value does not depend on their order |
| TopConversion.IndexOfDescending | src/conversions/top.js:10 | in a descending sequence the first occurrence of a value comes after exactly the strictly greater values |
| TopConversion.RankOfDescendingPermutation | src/conversions/top.js:8-10 | for any descending permutation used as the sorted copy, the rank is 1 + the number of strictly greater ratings in the row |
| TopConversion.Rank | src/conversions/top.js:7-11 | `rank` has the row's length |
| TopConversion.RankIsOnePlusCountGreater | src/conversions/top.js:7-11 | `rank(arr)[i] == 1 + |{ j : arr[j] > arr[i] }|` for every cell |
| TopConversion.RankBounds | src/conversions/top.js:8-10 | every rank lies in `1..|arr|` |
| TopConversion.RankOrder | src/conversions/top.js:10 | tied ratings share a rank; a strictly larger rating gets a strictly smaller rank |
| TopConversion.Top | src/conversions/top.js:18-22 | output has the row's length; cell i is covered iff `1 + (number of ratings above row[i]) <= cutoff` |
| TopConversion.TopIsRankAtMostCutoff | src/conversions/top.js:18-22 | `top(row, c)[i]` holds iff `rank(row)[i] <= c` |
| TopConversion.TopOneMarksMaxima | src/conversions/top.js:8-22 | with cutoff 1, `top` covers exactly the cells equal to the row maximum |
| TopConversion.TopCoversAll | src/conversions/top.js:8-22 | a cutoff of at least the row length covers every cell |
| TopConversion.TopCoversNone | src/conversions/top.js:8-22 | a cutoff below 1 covers no cell |
| Conversions.Name | src/conversions/index.js:7-13 | every rule's key is one of the registered names |
| Conversions.Lookup | src/conversions/index.js:7-13 | a name is found exactly when it is one of `less`, `lessOrEqual`, `more`, `moreOrEqual`, `top`, and then maps to the rule of that name |
| Conversions.LookupName | src/conversions/index.js:1-13 | each registered rule is found again under its own name |
| Conversions.EqualNotRegistered | src/conversions/index.js:7-13 | `equal` is not registered |
| Conversions.Registry | src/conversions/index.js:1-13 | `conversions[name]`: the function registered for each rule; every one returns a row as long as its input |
| Conversions.RegistryCovers | src/conversions/index.js:7-13 | each registered function decides cell i by its rule's closed form, from `row[i]`, the cutoff and (for `top`) the rest of the same row |
| Core.Convert | src/core.js:17-26 | the coverage matrix has exactly one row per row of ratings |
| Core.ConvertRows | src/core.js:20-24 | row i of the coverage matrix is the conversion applied to row i of the ratings alone, in the same order |
| Core.TurfAnalysis.Rule | src/core.js:22 | the stored name is the registry key of the rule it dispatches to |
| Core.TurfAnalysis.New | src/core.js:5-15 | fails with `UnknownConversionType` exactly when the name is unregistered, and then returns no object; otherwise stores matrix, name and cutoff unchanged and leaves the matrix prepared |
| Core.TurfAnalysis.constructor | src/core.js:10-14 | stores the three arguments unchanged and prepares the matrix once |
| Core.TurfAnalysis.PrepareMatrix | src/core.js:17-27 | `preparedMatrix` has as many rows as `matrix`, in order, and row i is the rule applied to `matrix[i]` alone; the stored arguments are unchanged |
| Core.PreparedRows | src/core.js:17-26 | a prepared analysis has one coverage row per respondent, in order, each the stored rule applied to that respondent's row and as long as it |
| Core.NewWithDefaults | src/core.js:5 | with no rule or cutoff given, the rule is `top` and the cutoff 1 |
| Core.NewWithEqual | src/core.js:6-8 | requesting `equal` fails with `UnknownConversionType` |

## Left out

- The off-thread worker wrapper (message ports, progress channel): it is I/O with no logic of its own.
- Reach, frequency and unique-reach metrics and the randomised ladder search: their code is not part of this model.
- JavaScript number quirks: NaN (where `indexOf` gives -1 and the rank becomes 0), `-0`, mixed-type cells under `===`, and floating-point rounding. Values are exact reals.
- Coercion of non-numeric cells: no modelled code performs it.
- Names inherited through the prototype chain (such as `toString`), which the `in` check also accepts: the registry is a closed set of five names.
- The `UnknownConversionTypeException` class: the exception is an `Error` value in a `Result`.
- The order in which JavaScript's `sort` compares elements: the model fixes one descending permutation (insertion sort), and the rank lemmas hold for any descending permutation.
