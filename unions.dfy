/** `objects/operations/union.rs`: the hard union, the smallest of the children's distances. */
module Unions {
  import opened Math
  import opened UtilityFunctions
  import SceneNode

  class Union {
    const objects: seq<SceneNode.Node>
    var center: Vec3
    var inverseOrientationMatrix: Mat3

    /** `Union::from_objects`: the children in order, at the origin, with the identity orientation. */
    constructor FromObjects(objects: seq<SceneNode.Node>)
      ensures this.objects == objects && center == Zero && inverseOrientationMatrix == Identity()
    {
      this.objects := objects;
      center := Zero;
      inverseOrientationMatrix := Identity();
    }

    function AsNode(): SceneNode.Node
      reads this
    {
      SceneNode.Node.Union(objects, center, inverseOrientationMatrix)
    }

    /**
     * `signed_distance_function_centered`: no larger than any child's distance and equal to one
     * of them. With no children `min_by` yields `None`, which is unwrapped: a panic.
     */
    function SignedDistanceFunctionCentered(q: Vec3, sqrt: real -> real): (r: real)
      reads this
      requires |objects| >= 1 && SceneNode.AllWellFormed(objects)
      ensures forall k :: 0 <= k < |objects| ==> r <= SceneNode.Distance(objects[k], q, sqrt)
      ensures exists k :: 0 <= k < |objects| && r == SceneNode.Distance(objects[k], q, sqrt)
    {
      SceneNode.Centered(AsNode(), q, sqrt)
    }

    /** A write through `get_center_mut`: the children and the matrix stay as they were. */
    method SetCenter(c: Vec3)
      modifies this
      ensures center == c && inverseOrientationMatrix == old(inverseOrientationMatrix)
      ensures AsNode() == SceneNode.WithCenter(old(AsNode()), c)
    {
      center := c;
    }

    /** A write through `get_inverse_orientation_matrix_mut`: the children and the center stay. */
    method SetInverseOrientationMatrix(m: Mat3)
      modifies this
      ensures inverseOrientationMatrix == m && center == old(center)
      ensures AsNode() == SceneNode.WithInverseOrientation(old(AsNode()), m)
    {
      inverseOrientationMatrix := m;
    }
  }

  /** An empty union is not well formed: its distance would unwrap `None`. */
  lemma EmptyUnionPanics(c: Vec3, m: Mat3)
    ensures !SceneNode.WellFormed(SceneNode.Node.Union([], c, m))
  {
  }

  /** Appending a child never increases the union's distance. */
  lemma UnionAppend(objects: seq<SceneNode.Node>, o: SceneNode.Node, c: Vec3, m: Mat3, q: Vec3, sqrt: real -> real)
    requires SceneNode.WellFormed(SceneNode.Node.Union(objects, c, m)) && SceneNode.WellFormed(o)
    ensures SceneNode.WellFormed(SceneNode.Node.Union(objects + [o], c, m))
    ensures SceneNode.Centered(SceneNode.Node.Union(objects + [o], c, m), q, sqrt)
         <= SceneNode.Centered(SceneNode.Node.Union(objects, c, m), q, sqrt)
  {
    SceneNode.ChildDistancesAppend(objects, o, q, sqrt);
    SceneNode.MinimumAppend(SceneNode.ChildDistances(objects, q, sqrt), SceneNode.Distance(o, q, sqrt));
  }
}
