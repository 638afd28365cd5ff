/** `objects/operations/intersection.rs`: the hard intersection, the largest of the children's distances. */
module Intersections {
  import opened Math
  import opened UtilityFunctions
  import SceneNode

  class Intersection {
    const objects: seq<SceneNode.Node>
    var center: Vec3
    var inverseOrientationMatrix: Mat3

    /** `Intersection::from_objects`: the children in order, at the origin, with the identity orientation. */
    constructor FromObjects(objects: seq<SceneNode.Node>)
      ensures this.objects == objects && center == Zero && inverseOrientationMatrix == Identity()
    {
      this.objects := objects;
      center := Zero;
      inverseOrientationMatrix := Identity();
    }

    /** `ObjectOperation::from_objects_default`: the same as `from_objects`. */
    constructor FromObjectsDefault(objects: seq<SceneNode.Node>)
      ensures this.objects == objects && center == Zero && inverseOrientationMatrix == Identity()
    {
      this.objects := objects;
      center := Zero;
      inverseOrientationMatrix := Identity();
    }

    function AsNode(): SceneNode.Node
      reads this
    {
      SceneNode.Node.Intersection(objects, center, inverseOrientationMatrix)
    }

    /**
     * `signed_distance_function_centered`: no smaller than any child's distance and equal to one
     * of them. With no children `max_by` yields `None`, which is unwrapped: a panic.
     */
    function SignedDistanceFunctionCentered(q: Vec3, sqrt: real -> real): (r: real)
      reads this
      requires |objects| >= 1 && SceneNode.AllWellFormed(objects)
      ensures forall k :: 0 <= k < |objects| ==> SceneNode.Distance(objects[k], q, sqrt) <= r
      ensures exists k :: 0 <= k < |objects| && r == SceneNode.Distance(objects[k], q, sqrt)
    {
      SceneNode.Centered(AsNode(), q, sqrt)
    }

    /** A write through `get_center_mut`: the children and the matrix stay as they were. */
    method SetCenter(c: Vec3)
      modifies this
      ensures center == c && inverseOrientationMatrix == old(inverseOrientationMatrix)
      ensures AsNode() == SceneNode.WithCenter(old(AsNode()), c)
    {
      center := c;
    }

    /** A write through `get_inverse_orientation_matrix_mut`: the children and the center stay. */
    method SetInverseOrientationMatrix(m: Mat3)
      modifies this
      ensures inverseOrientationMatrix == m && center == old(center)
      ensures AsNode() == SceneNode.WithInverseOrientation(old(AsNode()), m)
    {
      inverseOrientationMatrix := m;
    }
  }

  /** An empty intersection is not well formed: its distance would unwrap `None`. */
  lemma EmptyIntersectionPanics(c: Vec3, m: Mat3)
    ensures !SceneNode.WellFormed(SceneNode.Node.Intersection([], c, m))
  {
  }

  /** Appending a child never decreases the intersection's distance. */
  lemma IntersectionAppend(objects: seq<SceneNode.Node>, o: SceneNode.Node, c: Vec3, m: Mat3, q: Vec3, sqrt: real -> real)
    requires SceneNode.WellFormed(SceneNode.Node.Intersection(objects, c, m)) && SceneNode.WellFormed(o)
    ensures SceneNode.WellFormed(SceneNode.Node.Intersection(objects + [o], c, m))
    ensures SceneNode.Centered(SceneNode.Node.Intersection(objects, c, m), q, sqrt)
         <= SceneNode.Centered(SceneNode.Node.Intersection(objects + [o], c, m), q, sqrt)
  {
    SceneNode.ChildDistancesAppend(objects, o, q, sqrt);
    SceneNode.MaximumAppend(SceneNode.ChildDistances(objects, q, sqrt), SceneNode.Distance(o, q, sqrt));
  }
}
