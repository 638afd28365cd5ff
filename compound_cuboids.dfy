/**
 * `objects/compound_objects/cuboid.rs`, seen through the blanket implementations of
 * `objects/compound_objects/mod.rs`: the same six faces and smoothing as the plain cuboid, but
 * the struct only hands out its soft intersection, and the distance, center and orientation are
 * those of that root.
 */
module CompoundCuboids {
  import opened Math
  import SceneNode
  import SoftIntersections
  import Cuboids

  class Cuboid {
    const components: SoftIntersections.SoftIntersection

    /** `Cuboid::new`: a fresh soft intersection of the six faces, with the cuboid smoothing. */
    constructor New(sideA: real, sideB: real, sideC: real)
      ensures fresh(components)
      ensures components.objects == Cuboids.CuboidPlanes(sideA, sideB, sideC)
      ensures components.smuEpsilon == Cuboids.CuboidSmoothing(sideA, sideB, sideC)
      ensures components.center == Zero && components.inverseOrientationMatrix == Identity()
    {
      components := new SoftIntersections.SoftIntersection.FromObjects(Cuboids.CuboidPlanes(sideA, sideB, sideC),
                                                                         Cuboids.CuboidSmoothing(sideA, sideB, sideC));
    }

    /** `get_components` (and `get_components_mut`): the root, the same object each time. */
    function GetComponents(): (r: SoftIntersections.SoftIntersection)
      reads this
      ensures r == components
    {
      components
    }

    /** The cuboid as a node: a compound around its root. */
    function AsNode(): SceneNode.Node
      reads this, components
    {
      SceneNode.Node.Compound(GetComponents().AsNode())
    }

    /** The blanket `signed_distance_function_centered`: the root's centered distance. */
    function SignedDistanceFunctionCentered(q: Vec3, sqrt: real -> real): (r: real)
      reads this, components
      requires SceneNode.AllWellFormed(components.objects)
      ensures r == SceneNode.Centered(components.AsNode(), q, sqrt)
    {
      SceneNode.Centered(AsNode(), q, sqrt)
    }

    /** The blanket `get_center`: the root's center. */
    function GetCenter(): (c: Vec3)
      reads this, components
      ensures c == components.center
    {
      assert AsNode() == SceneNode.Node.Compound(components.AsNode());
      assert SceneNode.CenterOf(components.AsNode()) == components.center;
      SceneNode.CenterOf(AsNode())
    }

    /** The blanket `get_inverse_orientation_matrix`: the root's matrix. */
    function GetInverseOrientationMatrix(): (m: Mat3)
      reads this, components
      ensures m == components.inverseOrientationMatrix
    {
      assert AsNode() == SceneNode.Node.Compound(components.AsNode());
      assert SceneNode.InverseOrientationOf(components.AsNode()) == components.inverseOrientationMatrix;
      SceneNode.InverseOrientationOf(AsNode())
    }

    /**
     * The blanket `get_center_mut`: the write lands in the root, so `get_center` then returns
     * it, and the root's matrix is untouched.
     */
    method SetCenter(c: Vec3)
      modifies components
      ensures GetCenter() == c
      ensures components.inverseOrientationMatrix == old(components.inverseOrientationMatrix)
      ensures AsNode() == SceneNode.WithCenter(old(AsNode()), c)
    {
      GetComponents().SetCenter(c);
    }

    /** The blanket `get_inverse_orientation_matrix_mut`: the write lands in the root's matrix. */
    method SetInverseOrientationMatrix(m: Mat3)
      modifies components
      ensures GetInverseOrientationMatrix() == m
      ensures components.center == old(components.center)
      ensures AsNode() == SceneNode.WithInverseOrientation(old(AsNode()), m)
    {
      GetComponents().SetInverseOrientationMatrix(m);
    }
  }

  /** The compound's world distance is its root's: the compound adds no transform of its own. */
  lemma CompoundCuboidDistance(sideA: real, sideB: real, sideC: real, c: Vec3, m: Mat3, p: Vec3, sqrt: real -> real)
    ensures SceneNode.WellFormed(SceneNode.Node.SoftIntersection(Cuboids.CuboidPlanes(sideA, sideB, sideC), c, m,
                                                                 Cuboids.CuboidSmoothing(sideA, sideB, sideC)))
    ensures SceneNode.Distance(SceneNode.Node.Compound(SceneNode.Node.SoftIntersection(Cuboids.CuboidPlanes(sideA, sideB, sideC), c, m,
                                                                                        Cuboids.CuboidSmoothing(sideA, sideB, sideC))), p, sqrt)
         == SceneNode.Distance(SceneNode.Node.SoftIntersection(Cuboids.CuboidPlanes(sideA, sideB, sideC), c, m,
                                                                Cuboids.CuboidSmoothing(sideA, sideB, sideC)), p, sqrt)
  {
    Cuboids.CuboidPlanesWellFormed(sideA, sideB, sideC);
    SceneNode.CompoundDistance(SceneNode.Node.SoftIntersection(Cuboids.CuboidPlanes(sideA, sideB, sideC), c, m,
                                                               Cuboids.CuboidSmoothing(sideA, sideB, sideC)), p, sqrt);
  }
}
