/**
 * `objects/operations/soft_intersection.rs`: the soft intersection blends the two largest child
 * distances as `smu(best, second_best, epsilon)`, a smooth maximum that rounds the edge where
 * the two outermost children meet.
 */
module SoftIntersections {
  import opened Math
  import opened Constants
  import opened UtilityFunctions
  import SceneNode

  class SoftIntersection {
    const objects: seq<SceneNode.Node>
    var center: Vec3
    var inverseOrientationMatrix: Mat3
    const smuEpsilon: real

    /** `SoftIntersection::from_objects`: the children and `smu_epsilon`, at the origin, with the identity orientation. */
    constructor FromObjects(objects: seq<SceneNode.Node>, smuEpsilon: real)
      ensures this.objects == objects && this.smuEpsilon == smuEpsilon
      ensures center == Zero && inverseOrientationMatrix == Identity()
    {
      this.objects := objects;
      center := Zero;
      inverseOrientationMatrix := Identity();
      this.smuEpsilon := smuEpsilon;
    }

    function AsNode(): SceneNode.Node
      reads this
    {
      SceneNode.Node.SoftIntersection(objects, center, inverseOrientationMatrix, smuEpsilon)
    }

    /** A write through `get_center_mut`: only the center changes. */
    method SetCenter(c: Vec3)
      modifies this
      ensures center == c && inverseOrientationMatrix == old(inverseOrientationMatrix)
      ensures AsNode() == SceneNode.WithCenter(old(AsNode()), c)
    {
      center := c;
    }

    /** A write through `get_inverse_orientation_matrix_mut`: only the matrix changes. */
    method SetInverseOrientationMatrix(m: Mat3)
      modifies this
      ensures inverseOrientationMatrix == m && center == old(center)
      ensures AsNode() == SceneNode.WithInverseOrientation(old(AsNode()), m)
    {
      inverseOrientationMatrix := m;
    }
  }

  /**
   * With at least two children the soft intersection blends exactly the largest and the
   * second-largest child distance (counting duplicates).
   */
  lemma SoftIntersectionBlendsLargestTwo(objects: seq<SceneNode.Node>, c: Vec3, m: Mat3, epsilon: real, q: Vec3, sqrt: real -> real)
    requires |objects| >= 2 && SceneNode.AllWellFormed(objects)
    requires AllAtLeast(SceneNode.ChildDistances(objects, q, sqrt), -MaxF32)
    ensures exists b, s :: IsLargestTwo(SceneNode.ChildDistances(objects, q, sqrt), b, s)
              && SceneNode.Centered(SceneNode.Node.SoftIntersection(objects, c, m, epsilon), q, sqrt)
                 == SmoothMaximumUnit(b, s, epsilon, sqrt)
  {
    var ds := SceneNode.ChildDistances(objects, q, sqrt);
    BestTwoLargest(ds);
    var best := BestTwo(ds, false);
    assert IsLargestTwo(ds, best.0, best.1);
  }

  /**
   * For `epsilon >= 0` the soft intersection is no smaller than the hard intersection: no
   * smaller than any child's distance.
   */
  lemma SoftIntersectionAtLeastIntersection(objects: seq<SceneNode.Node>, c: Vec3, m: Mat3, epsilon: real, q: Vec3, sqrt: real -> real)
    requires IsSqrt(sqrt) && epsilon >= 0.0
    requires |objects| >= 1 && SceneNode.AllWellFormed(objects)
    requires AllAtLeast(SceneNode.ChildDistances(objects, q, sqrt), -MaxF32)
    ensures SceneNode.WellFormed(SceneNode.Node.Intersection(objects, c, m))
    ensures SceneNode.Centered(SceneNode.Node.Intersection(objects, c, m), q, sqrt)
         <= SceneNode.Centered(SceneNode.Node.SoftIntersection(objects, c, m, epsilon), q, sqrt)
    ensures forall k :: 0 <= k < |objects| ==>
              SceneNode.Distance(objects[k], q, sqrt)
              <= SceneNode.Centered(SceneNode.Node.SoftIntersection(objects, c, m, epsilon), q, sqrt)
  {
    var ds := SceneNode.ChildDistances(objects, q, sqrt);
    var best := BestTwo(ds, false);
    BestTwoMaximum(ds);
    MaximumUnique(ds, best.0, SceneNode.Maximum(ds));
    SmoothMaximumUnitAtLeastMax(best.0, best.1, epsilon, sqrt);
  }

  /** With `epsilon = 0` the soft intersection is the hard intersection. */
  lemma SoftIntersectionOfZero(objects: seq<SceneNode.Node>, c: Vec3, m: Mat3, q: Vec3, sqrt: real -> real)
    requires IsSqrt(sqrt)
    requires |objects| >= 1 && SceneNode.AllWellFormed(objects)
    requires AllAtLeast(SceneNode.ChildDistances(objects, q, sqrt), -MaxF32)
    ensures SceneNode.WellFormed(SceneNode.Node.Intersection(objects, c, m))
    ensures SceneNode.Centered(SceneNode.Node.SoftIntersection(objects, c, m, 0.0), q, sqrt)
         == SceneNode.Centered(SceneNode.Node.Intersection(objects, c, m), q, sqrt)
  {
    var ds := SceneNode.ChildDistances(objects, q, sqrt);
    var best := BestTwo(ds, false);
    BestTwoMaximum(ds);
    BestTwoOrdered(ds, false);
    MaximumUnique(ds, best.0, SceneNode.Maximum(ds));
    SmoothMaximumUnitOfZero(best.0, best.1, sqrt);
  }
}
