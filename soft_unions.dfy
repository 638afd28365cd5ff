/**
 * `objects/operations/soft_union.rs`: the soft union blends the two smallest child distances
 * as `-smu(-best, -second_best, epsilon)`, a smooth minimum that rounds the seam between
 * the two nearest children.
 */
module SoftUnions {
  import opened Math
  import opened Constants
  import opened UtilityFunctions
  import SceneNode

  class SoftUnion {
    const objects: seq<SceneNode.Node>
    var center: Vec3
    var inverseOrientationMatrix: Mat3
    const smuEpsilon: real

    /** `SoftUnion::from_objects`: the children and `smu_epsilon`, at the origin, with the identity orientation. */
    constructor FromObjects(objects: seq<SceneNode.Node>, smuEpsilon: real)
      ensures this.objects == objects && this.smuEpsilon == smuEpsilon
      ensures center == Zero && inverseOrientationMatrix == Identity()
    {
      this.objects := objects;
      center := Zero;
      inverseOrientationMatrix := Identity();
      this.smuEpsilon := smuEpsilon;
    }

    function AsNode(): SceneNode.Node
      reads this
    {
      SceneNode.Node.SoftUnion(objects, center, inverseOrientationMatrix, smuEpsilon)
    }

    /** A write through `get_center_mut`: only the center changes. */
    method SetCenter(c: Vec3)
      modifies this
      ensures center == c && inverseOrientationMatrix == old(inverseOrientationMatrix)
      ensures AsNode() == SceneNode.WithCenter(old(AsNode()), c)
    {
      center := c;
    }

    /** A write through `get_inverse_orientation_matrix_mut`: only the matrix changes. */
    method SetInverseOrientationMatrix(m: Mat3)
      modifies this
      ensures inverseOrientationMatrix == m && center == old(center)
      ensures AsNode() == SceneNode.WithInverseOrientation(old(AsNode()), m)
    {
      inverseOrientationMatrix := m;
    }
  }

  /**
   * With at least two children the soft union blends exactly the smallest and the
   * second-smallest child distance (counting duplicates).
   */
  lemma SoftUnionBlendsSmallestTwo(objects: seq<SceneNode.Node>, c: Vec3, m: Mat3, epsilon: real, q: Vec3, sqrt: real -> real)
    requires |objects| >= 2 && SceneNode.AllWellFormed(objects)
    requires AllAtMost(SceneNode.ChildDistances(objects, q, sqrt), MaxF32)
    ensures exists b, s :: IsSmallestTwo(SceneNode.ChildDistances(objects, q, sqrt), b, s)
              && SceneNode.Centered(SceneNode.Node.SoftUnion(objects, c, m, epsilon), q, sqrt)
                 == -SmoothMaximumUnit(-b, -s, epsilon, sqrt)
  {
    var ds := SceneNode.ChildDistances(objects, q, sqrt);
    BestTwoSmallest(ds);
    var best := BestTwo(ds, true);
    assert IsSmallestTwo(ds, best.0, best.1);
  }

  /**
   * For `epsilon >= 0` the soft union is no larger than the hard union: no larger than any
   * child's distance.
   */
  lemma SoftUnionAtMostUnion(objects: seq<SceneNode.Node>, c: Vec3, m: Mat3, epsilon: real, q: Vec3, sqrt: real -> real)
    requires IsSqrt(sqrt) && epsilon >= 0.0
    requires |objects| >= 1 && SceneNode.AllWellFormed(objects)
    requires AllAtMost(SceneNode.ChildDistances(objects, q, sqrt), MaxF32)
    ensures SceneNode.WellFormed(SceneNode.Node.Union(objects, c, m))
    ensures SceneNode.Centered(SceneNode.Node.SoftUnion(objects, c, m, epsilon), q, sqrt)
         <= SceneNode.Centered(SceneNode.Node.Union(objects, c, m), q, sqrt)
    ensures forall k :: 0 <= k < |objects| ==>
              SceneNode.Centered(SceneNode.Node.SoftUnion(objects, c, m, epsilon), q, sqrt)
              <= SceneNode.Distance(objects[k], q, sqrt)
  {
    var ds := SceneNode.ChildDistances(objects, q, sqrt);
    var best := BestTwo(ds, true);
    BestTwoMinimum(ds);
    MinimumUnique(ds, best.0, SceneNode.Minimum(ds));
    SmoothMaximumUnitAtLeastMax(-best.0, -best.1, epsilon, sqrt);
  }

  /** With `epsilon = 0` the soft union is the hard union. */
  lemma SoftUnionOfZero(objects: seq<SceneNode.Node>, c: Vec3, m: Mat3, q: Vec3, sqrt: real -> real)
    requires IsSqrt(sqrt)
    requires |objects| >= 1 && SceneNode.AllWellFormed(objects)
    requires AllAtMost(SceneNode.ChildDistances(objects, q, sqrt), MaxF32)
    ensures SceneNode.WellFormed(SceneNode.Node.Union(objects, c, m))
    ensures SceneNode.Centered(SceneNode.Node.SoftUnion(objects, c, m, 0.0), q, sqrt)
         == SceneNode.Centered(SceneNode.Node.Union(objects, c, m), q, sqrt)
  {
    var ds := SceneNode.ChildDistances(objects, q, sqrt);
    var best := BestTwo(ds, true);
    BestTwoMinimum(ds);
    BestTwoOrdered(ds, true);
    MinimumUnique(ds, best.0, SceneNode.Minimum(ds));
    SmoothMaximumUnitOfZero(-best.0, -best.1, sqrt);
  }
}
