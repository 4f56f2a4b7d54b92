/** The distance oracle of the BK-tree: the Levenshtein distance of
    `levenshtein_distance`, with an optional substitution-weight function and
    an optional `max_distance` that lets the row-by-row computation stop early. */
module EditDistance {
  import opened Wrappers

  /** A substitution-cost function. Insertion and deletion always cost 1. */
  type Weights = (char, char) -> nat

  /** The substitution cost used when no weight function is given. */
  function Unit(c1: char, c2: char): nat { 1 }

  /** The cost function the computation actually uses. */
  function WeightsOf(fnWeights: Option<Weights>): Weights
  {
    match fnWeights
    case None => Unit
    case Some(w) => w
  }

  function Min3(x: int, y: int, z: int): (m: int)
    ensures m <= x && m <= y && m <= z
    ensures m == x || m == y || m == z
  {
    if x <= y && x <= z then x else if y <= z then y else z
  }

  /** The recursive edit distance between the prefixes a[..i] and b[..j]:
      a matching character costs nothing, a substitution costs `w`, an
      insertion or a deletion costs 1. The rolling rows compute exactly this. */
  function Lev(a: string, b: string, w: Weights, i: nat, j: nat): nat
    requires i <= |a| && j <= |b|
    decreases i + j
  {
    if i == 0 then j
    else if j == 0 then i
    else if a[i - 1] == b[j - 1] then Lev(a, b, w, i - 1, j - 1)
    else Min3(Lev(a, b, w, i - 1, j - 1) + w(a[i - 1], b[j - 1]),
              Lev(a, b, w, i - 1, j) + 1,
              Lev(a, b, w, i, j - 1) + 1)
  }

  /** The distance `levenshtein_distance` reports without `max_distance`:
      the longer string is always placed first. */
  function Distance(s1: string, s2: string, w: Weights): nat
  {
    if |s1| < |s2| then Lev(s2, s1, w, |s2|, |s1|) else Lev(s1, s2, w, |s1|, |s2|)
  }

  /** The inputs after the optional case folding. */
  function Normalise(s: string, caseSensitive: bool, fold: string -> string): string
  {
    if caseSensitive then s else fold(s)
  }

  /** Exchanging the roles of the two strings transposes the weight function. */
  predicate Transposed(w: Weights, w': Weights)
  {
    forall x, y :: w'(x, y) == w(y, x)
  }

  predicate Symmetric(w: Weights)
  {
    Transposed(w, w)
  }

  lemma UnitIsSymmetric()
    ensures Symmetric(Unit)
  {
  }

  /** A prefix compared with itself costs nothing. */
  lemma {:induction false} LevSelf(a: string, w: Weights, i: nat)
    requires i <= |a|
    ensures Lev(a, a, w, i, i) == 0
  {
    if i > 0 {
      LevSelf(a, w, i - 1);
    }
  }

  /** Swapping the strings and transposing the weights gives the same cost. */
  lemma {:induction false} LevSwap(a: string, b: string, w: Weights, w': Weights, i: nat, j: nat)
    requires i <= |a| && j <= |b|
    requires Transposed(w, w')
    ensures Lev(a, b, w, i, j) == Lev(b, a, w', j, i)
    decreases i + j
  {
    if i > 0 && j > 0 {
      LevSwap(a, b, w, w', i - 1, j - 1);
      if a[i - 1] != b[j - 1] {
        LevSwap(a, b, w, w', i - 1, j);
        LevSwap(a, b, w, w', i, j - 1);
        assert w'(b[j - 1], a[i - 1]) == w(a[i - 1], b[j - 1]);
        var x, y, z := Lev(a, b, w, i - 1, j - 1) + w(a[i - 1], b[j - 1]), Lev(a, b, w, i - 1, j) + 1, Lev(a, b, w, i, j - 1) + 1;
        assert Lev(b, a, w', j, i) == Min3(x, z, y);
        assert Min3(x, z, y) == Min3(x, y, z);
      }
    }
  }

  /** With a symmetric weight function (in particular with none) the
      reported distance does not depend on the argument order, and it is the
      recursive edit distance of the strings in the order given. */
  lemma DistanceSymmetric(s1: string, s2: string, w: Weights)
    requires Symmetric(w)
    ensures Distance(s1, s2, w) == Distance(s2, s1, w)
    ensures Distance(s1, s2, w) == Lev(s1, s2, w, |s1|, |s2|)
  {
    LevSwap(s1, s2, w, w, |s1|, |s2|);
  }

  /** For any weights, the distance of two strings of different lengths is
      the recursive distance from the longer to the shorter one. */
  lemma DistanceLongerFirst(s1: string, s2: string, w: Weights)
    requires |s1| != |s2|
    ensures Distance(s1, s2, w) == Distance(s2, s1, w)
  {
  }

  /** The empty string is as far from any string as that string is long. */
  lemma DistanceFromEmpty(s: string, w: Weights)
    ensures Distance("", s, w) == |s| && Distance(s, "", w) == |s|
  {
    assert Lev(s, "", w, |s|, 0) == |s|;
  }

  /** Every string is at distance 0 from itself. */
  lemma DistanceToSelf(s: string, w: Weights)
    ensures Distance(s, s, w) == 0
  {
    LevSelf(s, w, |s|);
  }

  /** A value below every entry of row i is below every entry of every later
      row: costs never decrease from one row to the next by more than they
      can, because weights are non-negative. */
  lemma {:induction false} RowMinIsLowerBound(a: string, b: string, w: Weights, i: nat, i': nat, j: nat, m: int)
    requires i <= i' <= |a| && j <= |b|
    requires forall k :: 0 <= k <= |b| ==> m <= Lev(a, b, w, i, k)
    ensures m <= Lev(a, b, w, i', j)
    decreases i' + j
  {
    if i' == i {
    } else if j == 0 {
      assert m <= Lev(a, b, w, i, 0);
    } else if a[i' - 1] == b[j - 1] {
      RowMinIsLowerBound(a, b, w, i, i' - 1, j - 1, m);
    } else {
      RowMinIsLowerBound(a, b, w, i, i' - 1, j - 1, m);
      RowMinIsLowerBound(a, b, w, i, i' - 1, j, m);
      RowMinIsLowerBound(a, b, w, i, i', j - 1, m);
    }
  }

  /** The worked example: one substitution separates "cake" from "Cake". */
  lemma CakeExample()
    ensures Distance("cake", "Cake", Unit) == 1
  {
    var a, b := "cake", "Cake";
    assert Lev(a, b, Unit, 1, 1) == 1;
    assert Lev(a, b, Unit, 2, 2) == 1;
    assert Lev(a, b, Unit, 3, 3) == 1;
  }

  /** When folding makes the two strings equal, the distance is 0. */
  lemma FoldedEqualStrings(s1: string, s2: string, fold: string -> string, w: Weights)
    requires fold(s1) == fold(s2)
    ensures Distance(Normalise(s1, false, fold), Normalise(s2, false, fold), w) == 0
  {
    DistanceToSelf(fold(s1), w);
  }

  /** m is the smallest entry of row i of the table. */
  ghost predicate RowMinimum(a: string, b: string, w: Weights, i: nat, m: int)
    requires i <= |a|
  {
    && (forall k :: 0 <= k <= |b| ==> m <= Lev(a, b, w, i, k))
    && (exists k :: 0 <= k <= |b| && m == Lev(a, b, w, i, k))
  }

  /** No entry of row i is below the bound: the row that stops the loop. */
  ghost predicate RowReaches(a: string, b: string, w: Weights, i: nat, bound: int)
    requires i <= |a|
  {
    forall k :: 0 <= k <= |b| ==> bound <= Lev(a, b, w, i, k)
  }

  /** Row i (after row 0) is where the loop stops: it reaches the bound and
      no earlier row does. */
  ghost predicate StopRow(a: string, b: string, w: Weights, maxDistance: Option<int>, i: nat)
  {
    && 1 <= i <= |a| && maxDistance.Some?
    && RowReaches(a, b, w, i, maxDistance.value)
    && NoStopBefore(a, b, w, maxDistance, i - 1)
  }

  /** What the rolling rows return: the minimum of the row where the loop
      stops, or, when no row stops it, the last entry of the table. */
  ghost predicate RowsResult(a: string, b: string, w: Weights, maxDistance: Option<int>, r: int)
  {
    || (exists i :: StopRow(a, b, w, maxDistance, i) && RowMinimum(a, b, w, i, r))
    || (NoStopBefore(a, b, w, maxDistance, |a|) && r == Lev(a, b, w, |a|, |b|))
  }

  /** No row from row 1 to row i reaches the bound. */
  ghost predicate NoStopBefore(a: string, b: string, w: Weights, maxDistance: Option<int>, i: nat)
    requires i <= |a|
  {
    maxDistance.Some? ==> forall i' :: 1 <= i' <= i ==> !RowReaches(a, b, w, i', maxDistance.value)
  }

  /** One pass of the inner loop of `levenshtein_distance`: from the row of
      a[..i] it builds the row of a[..i+1] and tracks its smallest entry. */
  method NextRow(a: string, b: string, w: Weights, i: nat, previous: seq<nat>)
    returns (current: seq<nat>, minRow: nat)
    requires i < |a| && |previous| == |b| + 1
    requires forall k :: 0 <= k <= |b| ==> previous[k] == Lev(a, b, w, i, k)
    ensures |current| == |b| + 1
    ensures forall k :: 0 <= k <= |b| ==> current[k] == Lev(a, b, w, i + 1, k)
    ensures forall k :: 0 <= k <= |b| ==> minRow <= current[k]
    ensures exists k :: 0 <= k <= |b| && minRow == current[k]
  {
    current := [i + 1];
    minRow := current[0];
    ghost var m := 0;
    var j := 0;
    while j < |b|
      invariant 0 <= j <= |b|
      invariant |current| == j + 1
      invariant forall k :: 0 <= k <= j ==> current[k] == Lev(a, b, w, i + 1, k)
      invariant forall k :: 0 <= k <= j ==> minRow <= current[k]
      invariant 0 <= m <= j && minRow == current[m]
    {
      var cost := if a[i] == b[j] then previous[j]
                  else Min3(previous[j] + w(a[i], b[j]), previous[j + 1] + 1, current[j] + 1);
      current := current + [cost];
      if cost < minRow {
        minRow, m := cost, j + 1;
      }
      j := j + 1;
    }
  }

  /** The main loop of `levenshtein_distance`, once the longer string has
      been placed first: one row per character of `a`, stopping after the
      first row whose smallest entry reaches `maxDistance`. */
  method RollingRows(a: string, b: string, w: Weights, maxDistance: Option<int>)
    returns (r: nat)
    ensures RowsResult(a, b, w, maxDistance, r)
    ensures var exact := Lev(a, b, w, |a|, |b|);
            && (maxDistance.None? || exact < maxDistance.value ==> r == exact)
            && (r == exact || (maxDistance.Some? && maxDistance.value <= r <= exact))
  {
    assert forall k :: 0 <= k <= |b| ==> Lev(a, b, w, 0, k) == k;

    var current: seq<nat> := seq(|b| + 1, k => k);
    var i := 0;
    while i < |a|
      invariant 0 <= i <= |a|
      invariant |current| == |b| + 1
      invariant forall k :: 0 <= k <= |b| ==> current[k] == Lev(a, b, w, i, k)
      invariant NoStopBefore(a, b, w, maxDistance, i)
    {
      var row, minRow, stop := RowStep(a, b, w, maxDistance, i, current);
      if stop {
        return minRow;
      }
      current := row;
      i := i + 1;
    }
    RunsThrough(a, b, w, maxDistance);
    return current[|b|];
  }

  /** One turn of the main loop: the next row, its minimum, and whether the
      bound stops the loop there, in which case that minimum is the result. */
  method RowStep(a: string, b: string, w: Weights, maxDistance: Option<int>, i: nat, previous: seq<nat>)
    returns (current: seq<nat>, minRow: nat, stop: bool)
    requires i < |a| && |previous| == |b| + 1
    requires forall k :: 0 <= k <= |b| ==> previous[k] == Lev(a, b, w, i, k)
    requires NoStopBefore(a, b, w, maxDistance, i)
    ensures |current| == |b| + 1
    ensures forall k :: 0 <= k <= |b| ==> current[k] == Lev(a, b, w, i + 1, k)
    ensures stop <==> maxDistance.Some? && maxDistance.value <= minRow
    ensures stop ==> RowsResult(a, b, w, maxDistance, minRow) && minRow <= Lev(a, b, w, |a|, |b|)
    ensures !stop ==> NoStopBefore(a, b, w, maxDistance, i + 1)
  {
    current, minRow := NextRow(a, b, w, i, previous);
    stop := maxDistance.Some? && maxDistance.value <= minRow;
    StepOutcome(a, b, w, maxDistance, i + 1, current, minRow);
  }

  /** Whether row i stops the loop, and what the loop then returns. */
  lemma StepOutcome(a: string, b: string, w: Weights, maxDistance: Option<int>, i: nat, row: seq<nat>, m: int)
    requires 1 <= i <= |a| && |row| == |b| + 1
    requires forall k :: 0 <= k <= |b| ==> row[k] == Lev(a, b, w, i, k)
    requires forall k :: 0 <= k <= |b| ==> m <= row[k]
    requires exists k :: 0 <= k <= |b| && m == row[k]
    requires NoStopBefore(a, b, w, maxDistance, i - 1)
    ensures maxDistance.Some? && maxDistance.value <= m ==> RowsResult(a, b, w, maxDistance, m) && m <= Lev(a, b, w, |a|, |b|)
    ensures !(maxDistance.Some? && maxDistance.value <= m) ==> NoStopBefore(a, b, w, maxDistance, i)
  {
    MinimumOfRow(a, b, w, i, row, m);
    if maxDistance.Some? && maxDistance.value <= m {
      StopsAt(a, b, w, maxDistance.value, i, m);
      RowMinIsLowerBound(a, b, w, i, |a|, |b|, m);
    } else if maxDistance.Some? {
      NotReached(a, b, w, maxDistance, i, m);
    }
  }

  /** The smallest entry of a computed row is that row's minimum. */
  lemma MinimumOfRow(a: string, b: string, w: Weights, i: nat, row: seq<nat>, m: int)
    requires i <= |a| && |row| == |b| + 1
    requires forall k :: 0 <= k <= |b| ==> row[k] == Lev(a, b, w, i, k)
    requires forall k :: 0 <= k <= |b| ==> m <= row[k]
    requires exists k :: 0 <= k <= |b| && m == row[k]
    ensures RowMinimum(a, b, w, i, m)
  {
    var k :| 0 <= k <= |b| && m == row[k];
    assert m == Lev(a, b, w, i, k);
  }

  /** A row whose minimum is below the bound does not stop the loop. */
  lemma NotReached(a: string, b: string, w: Weights, maxDistance: Option<int>, i: nat, m: int)
    requires 1 <= i <= |a| && maxDistance.Some? && RowMinimum(a, b, w, i, m) && m < maxDistance.value
    requires NoStopBefore(a, b, w, maxDistance, i - 1)
    ensures NoStopBefore(a, b, w, maxDistance, i)
  {
    var k :| 0 <= k <= |b| && m == Lev(a, b, w, i, k);
    assert !RowReaches(a, b, w, i, maxDistance.value);
  }

  /** The loop stops at the first row whose minimum reaches the bound. */
  lemma StopsAt(a: string, b: string, w: Weights, bound: int, i: nat, m: int)
    requires 1 <= i <= |a| && RowMinimum(a, b, w, i, m) && bound <= m
    requires forall i' :: 1 <= i' < i ==> !RowReaches(a, b, w, i', bound)
    ensures RowsResult(a, b, w, Some(bound), m)
  {
    assert RowReaches(a, b, w, i, bound);
  }

  /** Without a row that reaches the bound, the loop runs to the last row. */
  lemma RunsThrough(a: string, b: string, w: Weights, maxDistance: Option<int>)
    requires maxDistance.Some? ==> forall i' :: 1 <= i' <= |a| ==> !RowReaches(a, b, w, i', maxDistance.value)
    ensures RowsResult(a, b, w, maxDistance, Lev(a, b, w, |a|, |b|))
  {
  }

  /** `levenshtein_distance`: the rolling-row dynamic programme. Without a
      bound, or when the true distance is below the bound, the result is the
      exact distance; when the bound stops the computation early, the result
      is at least the bound and never more than the exact distance. */
  method LevenshteinDistance(s1: string, s2: string, maxDistance: Option<int> := None,
                             fnWeights: Option<Weights> := None, caseSensitive: bool := true,
                             fold: string -> string)
    returns (r: nat)
    ensures var exact := Distance(Normalise(s1, caseSensitive, fold),
                                  Normalise(s2, caseSensitive, fold),
                                  WeightsOf(fnWeights));
            && (maxDistance.None? || exact < maxDistance.value ==> r == exact)
            && (r == exact || (maxDistance.Some? && maxDistance.value <= r <= exact))
    ensures var x, y := Normalise(s1, caseSensitive, fold), Normalise(s2, caseSensitive, fold);
            |x| > 0 && |y| > 0 && x != y ==>
              if |x| < |y| then RowsResult(y, x, WeightsOf(fnWeights), maxDistance, r)
              else RowsResult(x, y, WeightsOf(fnWeights), maxDistance, r)
    ensures var x, y := Normalise(s1, caseSensitive, fold), Normalise(s2, caseSensitive, fold);
            |x| == 0 || |y| == 0 ==> r == if |x| < |y| then |y| else |x|
  {
    var w := WeightsOf(fnWeights);
    var a, b := Normalise(s1, caseSensitive, fold), Normalise(s2, caseSensitive, fold);
    ghost var exact := Distance(a, b, w);
    if |a| == 0 || |b| == 0 {
      DistanceFromEmpty(if |a| == 0 then b else a, w);
      return if |a| < |b| then |b| else |a|;
    } else if a == b {
      DistanceToSelf(a, w);
      return 0;
    } else if |a| < |b| {
      a, b := b, a;
    }
    assert exact == Lev(a, b, w, |a|, |b|);
    r := RollingRows(a, b, w, maxDistance);
  }
}
