/**
 * `objects/utility_functions.rs`, the older helpers: the same smooth maximum unit (modelled
 * by `UtilityFunctions.SmoothMaximumUnit`, its formula being identical) and a
 * `best_two_distances` that only looks for the two smallest distances.
 */
module LegacyUtilityFunctions {
  import opened Constants
  import opened UtilityFunctions

  /** The min-only fold over the distances, with the closure's two mutable locals. */
  method BestTwoDistances(distances: seq<real>) returns (bestDistance: real, secondBestDistance: real)
    ensures (bestDistance, secondBestDistance) == BestTwo(distances, true)
  {
    var best, secondBest := MaxF32, MaxF32;
    for i := 0 to |distances|
      invariant (best, secondBest) == FoldBestTwo(distances[..i])
    {
      var currentDistance := distances[i];
      var bestLocal, secondBestLocal := best, secondBest;
      if currentDistance < bestLocal {
        secondBestLocal := bestLocal;
        bestLocal := currentDistance;
      } else if currentDistance < secondBestLocal {
        secondBestLocal := currentDistance;
      }
      assert distances[..i + 1][..i] == distances[..i];
      best, secondBest := bestLocal, secondBestLocal;
    }
    assert distances[..|distances|] == distances;
    return best, secondBest;
  }

  /**
   * What the older fold computes: for a non-empty list the minimum and, counting duplicates,
   * the second-smallest distance, or the sentinel when there is a single distance.
   */
  lemma BestTwoDistancesCorrect(distances: seq<real>)
    requires |distances| >= 1 && AllAtMost(distances, MaxF32)
    ensures BestTwo(distances, true).0 <= BestTwo(distances, true).1
    ensures IsMinimum(distances, BestTwo(distances, true).0)
    ensures |distances| == 1 ==> BestTwo(distances, true).1 == MaxF32
    ensures |distances| >= 2 ==> IsSmallestTwo(distances, BestTwo(distances, true).0, BestTwo(distances, true).1)
  {
    FoldBestTwoCorrect(distances);
    FoldBestTwoOrdered(distances);
  }
}
