/** The `top` conversion rule: each cell is ranked against the other cells of its row
    (rank 1 for the largest rating) and covered when its rank is at most the cutoff.
    A rank is the position, counted from one, of the first occurrence of the rating in a
    copy of the row sorted in descending order, so tied ratings share one rank. */
module TopConversion {
  import LessOrEqualConversion

  /** `s` is in descending order. */
  ghost predicate Descending(s: seq<real>)
  {
    forall i, j :: 0 <= i < j < |s| ==> s[i] >= s[j]
  }

  /** Number of cells of `s` whose rating is strictly greater than `v`. */
  function CountGreater(s: seq<real>, v: real): nat
  {
    if s == [] then 0 else (if s[0] > v then 1 else 0) + CountGreater(s[1..], v)
  }

  /** A rating no smaller than the head of a descending sequence can go in front of it. */
  lemma DescendingCons(head: real, tail: seq<real>)
    requires Descending(tail)
    requires tail != [] ==> head >= tail[0]
    ensures Descending([head] + tail)
  {
  }

  /** Inserts `x` into the descending sequence `s`, in front of the first smaller-or-equal
      rating. */
  function Insert(x: real, s: seq<real>): (r: seq<real>)
    requires Descending(s)
    ensures Descending(r)
    ensures multiset(r) == multiset(s) + multiset{x}
    ensures |r| == |s| + 1 && (r[0] == x || (s != [] && r[0] == s[0]))
  {
    if s == [] || s[0] <= x then
      [x] + s
    else
      var rest := Insert(x, s[1..]);
      assert s == [s[0]] + s[1..];
      DescendingCons(s[0], rest);
      [s[0]] + rest
  }

  /** The copy sorted with the comparator `(a, b) => b - a`: a descending permutation. */
  function SortDescending(s: seq<real>): (r: seq<real>)
    ensures Descending(r)
    ensures multiset(r) == multiset(s)
  {
    if s == [] then
      []
    else
      assert s == [s[0]] + s[1..];
      Insert(s[0], SortDescending(s[1..]))
  }

  /** `Array.prototype.indexOf` with strict equality: the first index of `v` in `s`,
      or -1 when `v` does not occur. */
  function IndexOf(s: seq<real>, v: real): (k: int)
    ensures -1 <= k < |s|
    ensures k == -1 <==> v !in s
    ensures 0 <= k ==> s[k] == v && forall j :: 0 <= j < k ==> s[j] != v
  {
    if s == [] then
      -1
    else if s[0] == v then
      0
    else
      var k := IndexOf(s[1..], v);
      assert v in s <==> v in s[1..] by {
        assert s == [s[0]] + s[1..];
      }
      if k == -1 then -1 else k + 1
  }

  /** `rank(arr)`: the one-based index of each rating's first occurrence in the
      descending copy. */
  function Rank(arr: seq<real>): (r: seq<real>)
    ensures |r| == |arr|
  {
    var sorted := SortDescending(arr);
    seq(|arr|, i requires 0 <= i < |arr| => (IndexOf(sorted, arr[i]) + 1) as real)
  }

  /** `top(row, cutoffValue)`: `lessOrEqual` applied to the ranks of the row. */
  function Top(row: seq<real>, cutoffValue: real): (out: seq<bool>)
    ensures |out| == |row|
    ensures forall i :: 0 <= i < |row| ==>
      out[i] == ((1 + CountGreater(row, row[i])) as real <= cutoffValue)
  {
    RankIsOnePlusCountGreater(row);
    LessOrEqualConversion.LessOrEqual(Rank(row), cutoffValue)
  }

  // ---------------------------------------------------------------------------
  // Counting strictly greater ratings

  lemma {:induction false} CountGreaterAppend(a: seq<real>, b: seq<real>, v: real)
    ensures CountGreater(a + b, v) == CountGreater(a, v) + CountGreater(b, v)
  {
    if a == [] {
      assert a + b == b;
    } else {
      assert (a + b)[1..] == a[1..] + b;
      CountGreaterAppend(a[1..], b, v);
    }
  }

  /** Taking the cell at index `k` out of `t` removes only that cell's contribution. */
  lemma CountGreaterRemove(t: seq<real>, k: int, v: real)
    requires 0 <= k < |t|
    ensures CountGreater(t, v) == CountGreater([t[k]], v) + CountGreater(t[..k] + t[k + 1..], v)
  {
    assert t == t[..k] + ([t[k]] + t[k + 1..]);
    CountGreaterAppend(t[..k], [t[k]] + t[k + 1..], v);
    CountGreaterAppend([t[k]], t[k + 1..], v);
    CountGreaterAppend(t[..k], t[k + 1..], v);
  }

  /** Taking the cell at index `k` out of `t` takes one copy of its rating out of the multiset. */
  lemma MultisetWithout(t: seq<real>, k: int)
    requires 0 <= k < |t|
    ensures multiset(t[..k] + t[k + 1..]) == multiset(t) - multiset{t[k]}
  {
    assert t == t[..k] + [t[k]] + t[k + 1..];
  }

  /** Matching the first rating of `s` with an equal cell of its permutation `t` leaves two
      permutations of each other. */
  lemma PermutationWithout(s: seq<real>, t: seq<real>, k: int)
    requires multiset(s) == multiset(t)
    requires s != [] && 0 <= k < |t| && t[k] == s[0]
    ensures multiset(s[1..]) == multiset(t[..k] + t[k + 1..])
  {
    MultisetWithout(s, 0);
    MultisetWithout(t, k);
    assert s[..0] + s[1..] == s[1..];
  }

  /** The count depends only on the multiset of ratings, not on their order. */
  lemma {:induction false} CountGreaterPermutation(s: seq<real>, t: seq<real>, v: real)
    requires multiset(s) == multiset(t)
    ensures CountGreater(s, v) == CountGreater(t, v)
  {
    if s == [] {
      assert |t| == |multiset(t)| == 0;
    } else {
      assert s[0] in multiset(t) by {
        assert s[0] in s;
      }
      var k := IndexOf(t, s[0]);
      PermutationWithout(s, t, k);
      CountGreaterPermutation(s[1..], t[..k] + t[k + 1..], v);
      CountGreaterRemove(t, k, v);
    }
  }

  /** No rating is counted against itself, so the count stays below the row length. */
  lemma {:induction false} CountGreaterBound(s: seq<real>, v: real)
    ensures CountGreater(s, v) <= |s|
    ensures v in s ==> CountGreater(s, v) < |s|
  {
    if s != [] {
      CountGreaterBound(s[1..], v);
      assert v in s ==> s[0] == v || v in s[1..] by {
        assert s == [s[0]] + s[1..];
      }
    }
  }

  /** The count is zero exactly when no rating exceeds `v`. */
  lemma {:induction false} CountGreaterZero(s: seq<real>, v: real)
    ensures CountGreater(s, v) == 0 <==> forall j :: 0 <= j < |s| ==> s[j] <= v
  {
    if s != [] {
      CountGreaterZero(s[1..], v);
      assert forall j :: 1 <= j < |s| ==> s[j] == s[1..][j - 1];
    }
  }

  /** A larger threshold counts no more ratings; strictly fewer when it occurs in `s`. */
  lemma {:induction false} CountGreaterAntitone(s: seq<real>, a: real, b: real)
    requires b < a
    ensures CountGreater(s, a) <= CountGreater(s, b)
    ensures a in s ==> CountGreater(s, a) < CountGreater(s, b)
  {
    if s != [] {
      CountGreaterAntitone(s[1..], a, b);
      assert a in s ==> s[0] == a || a in s[1..] by {
        assert s == [s[0]] + s[1..];
      }
    }
  }

  // ---------------------------------------------------------------------------
  // Ranks

  /** In a descending sequence the first occurrence of `v` comes right after the
      ratings strictly greater than `v`. */
  lemma {:induction false} IndexOfDescending(s: seq<real>, v: real)
    requires Descending(s)
    requires v in s
    ensures IndexOf(s, v) == CountGreater(s, v)
  {
    if s[0] == v {
      CountGreaterZero(s, v);
    } else {
      assert v in s[1..] by {
        assert s == [s[0]] + s[1..];
      }
      IndexOfDescending(s[1..], v);
    }
  }

  /** Whatever descending permutation the sort produces, the rank of a rating is one
      more than the number of strictly greater ratings in the row. */
  lemma RankOfDescendingPermutation(arr: seq<real>, sorted: seq<real>, i: int)
    requires Descending(sorted)
    requires multiset(sorted) == multiset(arr)
    requires 0 <= i < |arr|
    ensures IndexOf(sorted, arr[i]) + 1 == 1 + CountGreater(arr, arr[i])
  {
    assert arr[i] in multiset(sorted);
    IndexOfDescending(sorted, arr[i]);
    CountGreaterPermutation(sorted, arr, arr[i]);
  }

  /** `rank(arr)[i] == 1 + |{ j : arr[j] > arr[i] }|`. */
  lemma RankIsOnePlusCountGreater(arr: seq<real>)
    ensures |Rank(arr)| == |arr|
    ensures forall i :: 0 <= i < |arr| ==> Rank(arr)[i] == (1 + CountGreater(arr, arr[i])) as real
  {
    forall i | 0 <= i < |arr|
      ensures Rank(arr)[i] == (1 + CountGreater(arr, arr[i])) as real
    {
      RankOfDescendingPermutation(arr, SortDescending(arr), i);
    }
  }

  /** Every rank lies in 1..|arr|. */
  lemma RankBounds(arr: seq<real>)
    ensures forall i :: 0 <= i < |arr| ==> 1.0 <= Rank(arr)[i] <= |arr| as real
  {
    RankIsOnePlusCountGreater(arr);
    forall i | 0 <= i < |arr|
      ensures 1.0 <= Rank(arr)[i] <= |arr| as real
    {
      CountGreaterBound(arr, arr[i]);
    }
  }

  /** Tied ratings share a rank; a strictly larger rating gets a strictly smaller rank. */
  lemma RankOrder(arr: seq<real>, i: int, j: int)
    requires 0 <= i < |arr| && 0 <= j < |arr|
    ensures arr[i] == arr[j] ==> Rank(arr)[i] == Rank(arr)[j]
    ensures arr[i] > arr[j] ==> Rank(arr)[i] < Rank(arr)[j]
  {
    RankIsOnePlusCountGreater(arr);
    if arr[i] > arr[j] {
      CountGreaterAntitone(arr, arr[i], arr[j]);
    }
  }

  // ---------------------------------------------------------------------------
  // The `top` rule

  /** `top(row, c)[i]` holds exactly when `rank(row)[i] <= c`. */
  lemma TopIsRankAtMostCutoff(row: seq<real>, cutoffValue: real)
    ensures forall i :: 0 <= i < |row| ==> Top(row, cutoffValue)[i] == (Rank(row)[i] <= cutoffValue)
  {
    RankIsOnePlusCountGreater(row);
  }

  /** With the default cutoff 1, `top` covers exactly the cells holding the row maximum. */
  lemma TopOneMarksMaxima(row: seq<real>)
    ensures forall i :: 0 <= i < |row| ==>
      Top(row, 1.0)[i] == (forall j :: 0 <= j < |row| ==> row[j] <= row[i])
  {
    forall i | 0 <= i < |row|
      ensures Top(row, 1.0)[i] == (forall j :: 0 <= j < |row| ==> row[j] <= row[i])
    {
      CountGreaterZero(row, row[i]);
    }
  }

  /** A cutoff of at least the row length covers every cell. */
  lemma TopCoversAll(row: seq<real>, cutoffValue: real)
    requires |row| as real <= cutoffValue
    ensures forall i :: 0 <= i < |row| ==> Top(row, cutoffValue)[i]
  {
    forall i | 0 <= i < |row|
      ensures Top(row, cutoffValue)[i]
    {
      CountGreaterBound(row, row[i]);
    }
  }

  /** A cutoff below 1 covers no cell. */
  lemma TopCoversNone(row: seq<real>, cutoffValue: real)
    requires cutoffValue < 1.0
    ensures forall i :: 0 <= i < |row| ==> !Top(row, cutoffValue)[i]
  {
  }
}
