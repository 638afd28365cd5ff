/**
 * `objects/soft_union.rs`, the older soft union: it folds the children's distances into the
 * smallest and second-smallest and returns `best - smoothing_parameter / second_best`.
 */
module LegacySoftUnions {
  import opened Math
  import opened Constants
  import opened UtilityFunctions
  import SceneNode
  import LegacyUtilityFunctions

  /** The blended distance; the division needs `second_best != 0`. */
  function SoftUnionDistance(ds: seq<real>, smoothingParameter: real): real
    requires FoldBestTwo(ds).1 != 0.0
  {
    FoldBestTwo(ds).0 - smoothingParameter / FoldBestTwo(ds).1
  }

  class SoftUnion {
    const objects: seq<SceneNode.Node>
    const smoothingParameter: real
    var center: Vec3
    var inverseOrientationMatrix: Mat3

    /** `SoftUnion::from_objects`: the children and the smoothing, at the origin, with the identity orientation. */
    constructor FromObjects(objects: seq<SceneNode.Node>, smoothingParameter: real)
      ensures this.objects == objects && this.smoothingParameter == smoothingParameter
      ensures center == Zero && inverseOrientationMatrix == Identity()
    {
      this.objects := objects;
      this.smoothingParameter := smoothingParameter;
      center := Zero;
      inverseOrientationMatrix := Identity();
    }

    /**
     * `signed_distance_function_centered`: the inline fold over the children's distances (the
     * same closure as the older `best_two_distances`), then the blend.
     */
    method SignedDistanceFunctionCentered(position: Vec3, sqrt: real -> real) returns (r: real)
      requires SceneNode.AllWellFormed(objects)
      requires FoldBestTwo(SceneNode.ChildDistances(objects, position, sqrt)).1 != 0.0
      ensures r == SoftUnionDistance(SceneNode.ChildDistances(objects, position, sqrt), smoothingParameter)
    {
      var distances := SceneNode.ChildDistances(objects, position, sqrt);
      var bestDistance, secondBestDistance := LegacyUtilityFunctions.BestTwoDistances(distances);
      r := bestDistance - smoothingParameter / secondBestDistance;
    }

    /** A write through `get_center_mut`: only the center changes. */
    method SetCenter(c: Vec3)
      modifies this
      ensures center == c && inverseOrientationMatrix == old(inverseOrientationMatrix)
    {
      center := c;
    }

    /** A write through `get_inverse_orientation_matrix_mut`: only the matrix changes. */
    method SetInverseOrientationMatrix(m: Mat3)
      modifies this
      ensures inverseOrientationMatrix == m && center == old(center)
    {
      inverseOrientationMatrix := m;
    }
  }

  /** Without smoothing the older soft union is the hard union: the smallest distance. */
  lemma SoftUnionDistanceOfZero(ds: seq<real>)
    requires |ds| >= 1 && AllAtMost(ds, MaxF32) && FoldBestTwo(ds).1 != 0.0
    ensures SoftUnionDistance(ds, 0.0) == SceneNode.Minimum(ds)
  {
    var best := FoldBestTwo(ds);
    assert best.0 == SceneNode.Minimum(ds) by {
      FoldBestTwoCorrect(ds);
      MinimumUnique(ds, best.0, SceneNode.Minimum(ds));
    }
    assert 0.0 / best.1 == 0.0;
  }

  /** With positive smoothing and a positive second-best distance the result lies strictly below the smallest distance. */
  lemma SoftUnionDistanceBelowMinimum(ds: seq<real>, smoothingParameter: real)
    requires |ds| >= 1 && AllAtMost(ds, MaxF32)
    requires smoothingParameter > 0.0 && FoldBestTwo(ds).1 > 0.0
    ensures SoftUnionDistance(ds, smoothingParameter) < SceneNode.Minimum(ds)
  {
    var best := FoldBestTwo(ds);
    assert best.0 == SceneNode.Minimum(ds) by {
      FoldBestTwoCorrect(ds);
      MinimumUnique(ds, best.0, SceneNode.Minimum(ds));
    }
    QuotientPositive(smoothingParameter, best.1);
  }

  lemma QuotientPositive(a: real, b: real)
    requires a > 0.0 && b > 0.0
    ensures a / b > 0.0
  {
  }
}
