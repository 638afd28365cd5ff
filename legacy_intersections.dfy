/**
 * `objects/intersection.rs`, the older hard intersection: the maximum over the children,
 * with an `orientation_matrix` field; its world distance is the default `Object3D` method.
 */
module LegacyIntersections {
  import opened Math
  import SceneNode

  class Intersection {
    const objects: seq<SceneNode.Node>
    var center: Vec3
    var orientationMatrix: Mat3

    /** `Intersection::from_objects`: at the origin, with the identity matrix. */
    constructor FromObjects(objects: seq<SceneNode.Node>)
      ensures this.objects == objects && center == Zero && orientationMatrix == Identity()
    {
      this.objects := objects;
      center := Zero;
      orientationMatrix := Identity();
    }

    function AsNode(): SceneNode.Node
      reads this
    {
      SceneNode.Node.Intersection(objects, center, orientationMatrix)
    }

    /** `get_orientation_matrix` returns the stored matrix, the one the world distance applies. */
    function GetOrientationMatrix(): (m: Mat3)
      reads this
      ensures m == SceneNode.InverseOrientationOf(AsNode())
    {
      orientationMatrix
    }

    /** `signed_distance_function_centered`: the largest of the children's distances. */
    function SignedDistanceFunctionCentered(q: Vec3, sqrt: real -> real): (r: real)
      reads this
      requires |objects| >= 1 && SceneNode.AllWellFormed(objects)
      ensures forall k :: 0 <= k < |objects| ==> SceneNode.Distance(objects[k], q, sqrt) <= r
      ensures exists k :: 0 <= k < |objects| && r == SceneNode.Distance(objects[k], q, sqrt)
    {
      SceneNode.Centered(AsNode(), q, sqrt)
    }

    /**
     * `impl Object3D for Intersection {}`: the default world distance, the maximum evaluated
     * at `M * (p - c)`.
     */
    function SignedDistanceFunction(p: Vec3, sqrt: real -> real): (r: real)
      reads this
      requires |objects| >= 1 && SceneNode.AllWellFormed(objects)
      ensures r == SignedDistanceFunctionCentered(MatVec(orientationMatrix, Sub(p, center)), sqrt)
    {
      SceneNode.Distance(AsNode(), p, sqrt)
    }

    /** A write through `get_center_mut`: the matrix and the children stay. */
    method SetCenter(c: Vec3)
      modifies this
      ensures center == c && orientationMatrix == old(orientationMatrix)
      ensures AsNode() == SceneNode.WithCenter(old(AsNode()), c)
    {
      center := c;
    }

    /** A write through `get_orientation_matrix_mut`. */
    method SetOrientationMatrix(m: Mat3)
      modifies this
      ensures orientationMatrix == m && center == old(center)
      ensures AsNode() == SceneNode.WithInverseOrientation(old(AsNode()), m)
    {
      orientationMatrix := m;
    }
  }
}
