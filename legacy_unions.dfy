/**
 * `objects/union.rs`, the older hard union: the same minimum over the children, with its
 * matrix field named `orientation_matrix` and handed out as the inverse orientation.
 */
module LegacyUnions {
  import opened Math
  import SceneNode

  class Union {
    const objects: seq<SceneNode.Node>
    var center: Vec3
    var orientationMatrix: Mat3

    /** `Union::from_objects`: at the origin, with the identity matrix. */
    constructor FromObjects(objects: seq<SceneNode.Node>)
      ensures this.objects == objects && center == Zero && orientationMatrix == Identity()
    {
      this.objects := objects;
      center := Zero;
      orientationMatrix := Identity();
    }

    function AsNode(): SceneNode.Node
      reads this
    {
      SceneNode.Node.Union(objects, center, orientationMatrix)
    }

    /** `get_inverse_orientation_matrix` returns the stored `orientation_matrix`, the matrix the world distance applies. */
    function GetInverseOrientationMatrix(): (m: Mat3)
      reads this
      ensures m == SceneNode.InverseOrientationOf(AsNode())
    {
      orientationMatrix
    }

    /** `signed_distance_function_centered`: the smallest of the children's distances. */
    function SignedDistanceFunctionCentered(q: Vec3, sqrt: real -> real): (r: real)
      reads this
      requires |objects| >= 1 && SceneNode.AllWellFormed(objects)
      ensures forall k :: 0 <= k < |objects| ==> r <= SceneNode.Distance(objects[k], q, sqrt)
      ensures exists k :: 0 <= k < |objects| && r == SceneNode.Distance(objects[k], q, sqrt)
    {
      SceneNode.Centered(AsNode(), q, sqrt)
    }

    /** A write through `get_center_mut`: the matrix and the children stay. */
    method SetCenter(c: Vec3)
      modifies this
      ensures center == c && orientationMatrix == old(orientationMatrix)
      ensures AsNode() == SceneNode.WithCenter(old(AsNode()), c)
    {
      center := c;
    }

    /** A write through `get_inverse_orientation_matrix_mut`, which reaches `orientation_matrix`. */
    method SetInverseOrientationMatrix(m: Mat3)
      modifies this
      ensures orientationMatrix == m && center == old(center)
      ensures AsNode() == SceneNode.WithInverseOrientation(old(AsNode()), m)
    {
      orientationMatrix := m;
    }
  }
}
