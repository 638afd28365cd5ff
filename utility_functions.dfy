/**
 * `operations/utility_functions.rs`: the smooth maximum unit and the fold that keeps the two
 * smallest (or, by negating, the two largest) child distances.
 *
 * The children's distances arrive as a sequence: evaluating each child at the query point is
 * the scene graph's business (`SceneNode.ChildDistances`).
 */
module UtilityFunctions {
  import opened Math
  import opened Constants

  function MinOf(a: real, b: real): real { if a <= b then a else b }

  function MaxOf(a: real, b: real): real { if a >= b then a else b }

  // ---------------------------------------------------------------- smooth maximum unit

  /** `smooth_maximum_unit`: `(a + b + sqrt((a - b)^2 + epsilon)) / 2`. */
  function SmoothMaximumUnit(a: real, b: real, epsilon: real, sqrt: real -> real): real {
    (a + b + sqrt((a - b) * (a - b) + epsilon)) / 2.0
  }

  lemma SmoothMaximumUnitSymmetric(a: real, b: real, epsilon: real, sqrt: real -> real)
    ensures SmoothMaximumUnit(a, b, epsilon, sqrt) == SmoothMaximumUnit(b, a, epsilon, sqrt)
  {
    assert (a - b) * (a - b) == (b - a) * (b - a);
  }

  /** `|a - b|` squared is `(a - b)^2`. */
  lemma SquaredDifference(a: real, b: real)
    ensures (MaxOf(a, b) - MinOf(a, b)) * (MaxOf(a, b) - MinOf(a, b)) == (a - b) * (a - b)
  {
  }

  /** With no smoothing the smooth maximum is the maximum. */
  lemma SmoothMaximumUnitOfZero(a: real, b: real, sqrt: real -> real)
    requires IsSqrt(sqrt)
    ensures SmoothMaximumUnit(a, b, 0.0, sqrt) == MaxOf(a, b)
  {
    SquaredDifference(a, b);
    SqrtUnique(sqrt, (a - b) * (a - b) + 0.0, MaxOf(a, b) - MinOf(a, b));
  }

  /** With non-negative smoothing the smooth maximum never falls below the maximum ... */
  lemma SmoothMaximumUnitAtLeastMax(a: real, b: real, epsilon: real, sqrt: real -> real)
    requires IsSqrt(sqrt) && epsilon >= 0.0
    ensures SmoothMaximumUnit(a, b, epsilon, sqrt) >= MaxOf(a, b)
  {
    SquaredDifference(a, b);
    SquareNonNegative(a - b);
    SqrtUnique(sqrt, (a - b) * (a - b), MaxOf(a, b) - MinOf(a, b));
    SqrtMonotone(sqrt, (a - b) * (a - b), (a - b) * (a - b) + epsilon);
  }

  /** ... and exceeds it by at most `sqrt(epsilon) / 2`. */
  lemma SmoothMaximumUnitAtMost(a: real, b: real, epsilon: real, sqrt: real -> real)
    requires IsSqrt(sqrt) && epsilon >= 0.0
    ensures SmoothMaximumUnit(a, b, epsilon, sqrt) <= MaxOf(a, b) + sqrt(epsilon) / 2.0
  {
    SquaredDifference(a, b);
    SquareNonNegative(a - b);
    SqrtUnique(sqrt, (a - b) * (a - b), MaxOf(a, b) - MinOf(a, b));
    SqrtSubadditive(sqrt, (a - b) * (a - b), epsilon);
  }

  // ---------------------------------------------------------------- what the fold computes

  ghost predicate IsMinimum(ds: seq<real>, m: real) {
    (exists i :: 0 <= i < |ds| && ds[i] == m) && forall k :: 0 <= k < |ds| ==> m <= ds[k]
  }

  ghost predicate IsMaximum(ds: seq<real>, m: real) {
    (exists i :: 0 <= i < |ds| && ds[i] == m) && forall k :: 0 <= k < |ds| ==> ds[k] <= m
  }

  /** No two entries, at different positions, lie strictly below `s`. */
  ghost predicate NoTwoBelow(ds: seq<real>, s: real) {
    forall i, j :: 0 <= i < j < |ds| ==> s <= MaxOf(ds[i], ds[j])
  }

  /** No two entries, at different positions, lie strictly above `s`. */
  ghost predicate NoTwoAbove(ds: seq<real>, s: real) {
    forall i, j :: 0 <= i < j < |ds| ==> MinOf(ds[i], ds[j]) <= s
  }

  /** `a` and `b` occur in `ds` at two different positions. */
  ghost predicate AtTwoPlaces(ds: seq<real>, a: real, b: real) {
    exists i, j :: 0 <= i < |ds| && 0 <= j < |ds| && i != j && ds[i] == a && ds[j] == b
  }

  /** `b` and `s` are the smallest and second-smallest entries of `ds`, counting duplicates. */
  ghost predicate IsSmallestTwo(ds: seq<real>, b: real, s: real) {
    IsMinimum(ds, b) && AtTwoPlaces(ds, b, s) && NoTwoBelow(ds, s)
  }

  /** `b` and `s` are the largest and second-largest entries of `ds`, counting duplicates. */
  ghost predicate IsLargestTwo(ds: seq<real>, b: real, s: real) {
    IsMaximum(ds, b) && AtTwoPlaces(ds, b, s) && NoTwoAbove(ds, s)
  }

  /** Every entry is a finite `f32` from above (min mode) ... */
  ghost predicate AllAtMost(ds: seq<real>, bound: real) {
    forall k :: 0 <= k < |ds| ==> ds[k] <= bound
  }

  /** ... or from below (max mode). */
  ghost predicate AllAtLeast(ds: seq<real>, bound: real) {
    forall k :: 0 <= k < |ds| ==> bound <= ds[k]
  }

  /** A minimum, and a maximum, is unique. */
  lemma MinimumUnique(ds: seq<real>, m: real, n: real)
    requires IsMinimum(ds, m) && IsMinimum(ds, n)
    ensures m == n
  {
    var i :| 0 <= i < |ds| && ds[i] == m;
    var j :| 0 <= j < |ds| && ds[j] == n;
    assert m <= ds[j] && n <= ds[i];
  }

  lemma MaximumUnique(ds: seq<real>, m: real, n: real)
    requires IsMaximum(ds, m) && IsMaximum(ds, n)
    ensures m == n
  {
    var i :| 0 <= i < |ds| && ds[i] == m;
    var j :| 0 <= j < |ds| && ds[j] == n;
    assert ds[j] <= m && ds[i] <= n;
  }

  // ---------------------------------------------------------------- the fold

  /** The fold's closure: `current` displaces the best, or else the second best, or neither. */
  function BestTwoStep(acc: (real, real), current: real): (real, real) {
    if current < acc.0 then (current, acc.0)
    else if current < acc.1 then (acc.0, current)
    else acc
  }

  /** The fold over `ds`, from `(f32::MAX, f32::MAX)`, left to right. */
  function FoldBestTwo(ds: seq<real>): (real, real) {
    if ds == [] then (MaxF32, MaxF32)
    else BestTwoStep(FoldBestTwo(ds[..|ds| - 1]), ds[|ds| - 1])
  }

  function Negated(ds: seq<real>): (r: seq<real>)
    ensures |r| == |ds| && forall k :: 0 <= k < |ds| ==> r[k] == -ds[k]
  {
    seq(|ds|, k requires 0 <= k < |ds| => -ds[k])
  }

  /** `best_two_distances`: in max mode the fold runs over the negated distances and its pair is negated back. */
  function BestTwo(ds: seq<real>, lookingForMin: bool): (real, real) {
    if lookingForMin then FoldBestTwo(ds)
    else
      var r := FoldBestTwo(Negated(ds));
      (-r.0, -r.1)
  }

  /** `best_two_distances`, with the closure's two mutable locals. */
  method BestTwoDistances(distances: seq<real>, lookingForMin: bool) returns (bestDistance: real, secondBestDistance: real)
    ensures (bestDistance, secondBestDistance) == BestTwo(distances, lookingForMin)
  {
    ghost var mapped := if lookingForMin then distances else Negated(distances);
    var best, secondBest := MaxF32, MaxF32;
    for i := 0 to |distances|
      invariant (best, secondBest) == FoldBestTwo(mapped[..i])
    {
      var currentDistance := if lookingForMin then distances[i] else -distances[i];
      var bestLocal, secondBestLocal := best, secondBest;
      if currentDistance < bestLocal {
        secondBestLocal := bestLocal;
        bestLocal := currentDistance;
      } else if currentDistance < secondBestLocal {
        secondBestLocal := currentDistance;
      }
      assert mapped[..i + 1][..i] == mapped[..i];
      best, secondBest := bestLocal, secondBestLocal;
    }
    assert mapped[..|distances|] == mapped;
    if lookingForMin {
      return best, secondBest;
    }
    return -best, -secondBest;
  }

  // ---------------------------------------------------------------- properties of the fold

  /** After any prefix the best is no larger than the second best. */
  lemma {:induction false} FoldBestTwoOrdered(ds: seq<real>)
    ensures FoldBestTwo(ds).0 <= FoldBestTwo(ds).1
  {
    if ds != [] {
      FoldBestTwoOrdered(ds[..|ds| - 1]);
    }
  }

  /**
   * On finite distances the fold yields the minimum and the second-smallest entry counting
   * duplicates; the sentinel survives where fewer than two entries exist.
   */
  lemma {:induction false} FoldBestTwoCorrect(ds: seq<real>)
    requires AllAtMost(ds, MaxF32)
    ensures FoldBestTwo(ds).1 <= MaxF32
    ensures |ds| == 0 ==> FoldBestTwo(ds) == (MaxF32, MaxF32)
    ensures |ds| >= 1 ==> IsMinimum(ds, FoldBestTwo(ds).0) && NoTwoBelow(ds, FoldBestTwo(ds).1)
    ensures |ds| == 1 ==> FoldBestTwo(ds).1 == MaxF32
    ensures |ds| >= 2 ==> AtTwoPlaces(ds, FoldBestTwo(ds).0, FoldBestTwo(ds).1)
  {
    if ds != [] {
      var n := |ds| - 1;
      var prefix := ds[..n];
      var c := ds[n];
      assert AllAtMost(prefix, MaxF32);
      FoldBestTwoCorrect(prefix);
      FoldBestTwoOrdered(prefix);
      var b, s := FoldBestTwo(prefix).0, FoldBestTwo(prefix).1;
      if n == 0 {
        assert ds == [c];
      } else {
        assert forall k :: 0 <= k < n ==> ds[k] == prefix[k];
        var i0 :| 0 <= i0 < n && prefix[i0] == b;
        if c < b {
          FoldStepNewBest(ds, b, s, i0);
        } else if c < s {
          FoldStepNewSecond(ds, b, s, i0);
        } else {
          FoldStepUnchanged(ds, b, s, i0);
        }
      }
    }
  }

  lemma FoldStepNewBest(ds: seq<real>, b: real, s: real, i0: nat)
    requires |ds| >= 2 && i0 < |ds| - 1 && ds[i0] == b && b <= s && ds[|ds| - 1] < b
    requires IsMinimum(ds[..|ds| - 1], b) && NoTwoBelow(ds[..|ds| - 1], s)
    ensures IsMinimum(ds, ds[|ds| - 1]) && NoTwoBelow(ds, b) && AtTwoPlaces(ds, ds[|ds| - 1], b)
  {
    var n := |ds| - 1;
    assert forall k :: 0 <= k < n ==> ds[k] == ds[..n][k];
    assert ds[n] == ds[|ds| - 1];
  }

  lemma FoldStepNewSecond(ds: seq<real>, b: real, s: real, i0: nat)
    requires |ds| >= 2 && i0 < |ds| - 1 && ds[i0] == b && b <= ds[|ds| - 1] < s
    requires IsMinimum(ds[..|ds| - 1], b) && NoTwoBelow(ds[..|ds| - 1], s)
    ensures IsMinimum(ds, b) && NoTwoBelow(ds, ds[|ds| - 1]) && AtTwoPlaces(ds, b, ds[|ds| - 1])
  {
    var n := |ds| - 1;
    assert forall k :: 0 <= k < n ==> ds[k] == ds[..n][k];
    assert ds[i0] == b;
  }

  lemma FoldStepUnchanged(ds: seq<real>, b: real, s: real, i0: nat)
    requires |ds| >= 2 && i0 < |ds| - 1 && ds[i0] == b && b <= s <= ds[|ds| - 1] <= MaxF32
    requires IsMinimum(ds[..|ds| - 1], b) && NoTwoBelow(ds[..|ds| - 1], s)
    requires |ds| == 2 ==> s == MaxF32
    requires |ds| >= 3 ==> AtTwoPlaces(ds[..|ds| - 1], b, s)
    ensures IsMinimum(ds, b) && NoTwoBelow(ds, s) && AtTwoPlaces(ds, b, s)
  {
    var n := |ds| - 1;
    var prefix := ds[..n];
    forall k | 0 <= k < |ds| ensures b <= ds[k] {
      if k < n {
        assert ds[k] == prefix[k];
      }
    }
    forall i, j | 0 <= i < j < |ds| ensures s <= MaxOf(ds[i], ds[j]) {
      if j < n {
        assert ds[i] == prefix[i] && ds[j] == prefix[j];
      }
    }
    if n == 1 {
      assert ds[0] == b && ds[1] == s;
    } else {
      var i, j :| 0 <= i < n && 0 <= j < n && i != j && prefix[i] == b && prefix[j] == s;
      assert ds[i] == b && ds[j] == s;
    }
  }

  // ---------------------------------------------------------------- properties of best_two_distances

  /** In both modes the best comes first: no larger than the second in min mode, no smaller in max mode. */
  lemma BestTwoOrdered(ds: seq<real>, lookingForMin: bool)
    ensures lookingForMin ==> BestTwo(ds, lookingForMin).0 <= BestTwo(ds, lookingForMin).1
    ensures !lookingForMin ==> BestTwo(ds, lookingForMin).0 >= BestTwo(ds, lookingForMin).1
  {
    if lookingForMin {
      FoldBestTwoOrdered(ds);
    } else {
      FoldBestTwoOrdered(Negated(ds));
    }
  }

  /** Min mode with at least two distances: the smallest and the second-smallest, counting duplicates. */
  lemma BestTwoSmallest(ds: seq<real>)
    requires |ds| >= 2 && AllAtMost(ds, MaxF32)
    ensures BestTwo(ds, true).0 <= BestTwo(ds, true).1
    ensures IsSmallestTwo(ds, BestTwo(ds, true).0, BestTwo(ds, true).1)
  {
    FoldBestTwoCorrect(ds);
    FoldBestTwoOrdered(ds);
  }

  /** Min mode with at least one distance: the best is the minimum. */
  lemma BestTwoMinimum(ds: seq<real>)
    requires |ds| >= 1 && AllAtMost(ds, MaxF32)
    ensures IsMinimum(ds, BestTwo(ds, true).0)
  {
    FoldBestTwoCorrect(ds);
  }

  /** The two results agree exactly when the minimum occurs twice. */
  lemma BestTwoTie(ds: seq<real>)
    requires |ds| >= 2 && AllAtMost(ds, MaxF32)
    ensures BestTwo(ds, true).0 == BestTwo(ds, true).1 <==> AtTwoPlaces(ds, BestTwo(ds, true).0, BestTwo(ds, true).0)
  {
    FoldBestTwoCorrect(ds);
    FoldBestTwoOrdered(ds);
    var b, s := BestTwo(ds, true).0, BestTwo(ds, true).1;
    if AtTwoPlaces(ds, b, b) {
      var i, j :| 0 <= i < |ds| && 0 <= j < |ds| && i != j && ds[i] == b && ds[j] == b;
      if i < j {
        assert s <= MaxOf(ds[i], ds[j]);
      } else {
        assert s <= MaxOf(ds[j], ds[i]);
      }
    }
  }

  /** With no distances both results are the sentinel, negated in max mode. */
  lemma BestTwoEmpty()
    ensures BestTwo([], true) == (MaxF32, MaxF32)
    ensures BestTwo([], false) == (-MaxF32, -MaxF32)
  {
    assert Negated([]) == [];
  }

  /** With one distance the second best stays at the sentinel ... */
  lemma BestTwoSingleMin(d: real)
    requires d <= MaxF32
    ensures BestTwo([d], true) == (d, MaxF32)
  {
    assert [d][..0] == [];
    assert FoldBestTwo([d]) == BestTwoStep((MaxF32, MaxF32), d);
  }

  /** ... and at the negated sentinel in max mode. */
  lemma BestTwoSingleMax(d: real)
    requires -MaxF32 <= d
    ensures BestTwo([d], false) == (d, -MaxF32)
  {
    assert Negated([d]) == [-d];
    BestTwoSingleMin(-d);
  }

  /** Max mode with at least two distances: the largest and the second-largest, counting duplicates. */
  lemma BestTwoLargest(ds: seq<real>)
    requires |ds| >= 2 && AllAtLeast(ds, -MaxF32)
    ensures BestTwo(ds, false).0 >= BestTwo(ds, false).1
    ensures IsLargestTwo(ds, BestTwo(ds, false).0, BestTwo(ds, false).1)
  {
    var neg := Negated(ds);
    assert AllAtMost(neg, MaxF32);
    BestTwoSmallest(neg);
    var b, s := FoldBestTwo(neg).0, FoldBestTwo(neg).1;
    var i, j :| 0 <= i < |neg| && 0 <= j < |neg| && i != j && neg[i] == b && neg[j] == s;
    assert ds[i] == -b && ds[j] == -s;
    var k0 :| 0 <= k0 < |neg| && neg[k0] == b;
    assert ds[k0] == -b;
    forall k | 0 <= k < |ds| ensures ds[k] <= -b {
      assert b <= neg[k];
    }
    forall p, q | 0 <= p < q < |ds| ensures MinOf(ds[p], ds[q]) <= -s {
      assert s <= MaxOf(neg[p], neg[q]);
    }
  }

  /** Max mode with at least one distance: the best is the maximum. */
  lemma BestTwoMaximum(ds: seq<real>)
    requires |ds| >= 1 && AllAtLeast(ds, -MaxF32)
    ensures IsMaximum(ds, BestTwo(ds, false).0)
  {
    var neg := Negated(ds);
    assert AllAtMost(neg, MaxF32);
    FoldBestTwoCorrect(neg);
    var b := FoldBestTwo(neg).0;
    var k0 :| 0 <= k0 < |neg| && neg[k0] == b;
    assert ds[k0] == -b;
    forall k | 0 <= k < |ds| ensures ds[k] <= -b {
      assert b <= neg[k];
    }
  }
}
