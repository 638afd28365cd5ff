/**
 * `objects/cuboid.rs`: a box with sides `a`, `b`, `c` centered at the origin, built as the soft
 * intersection of its six face planes, rounded with one hundredth of the longest side.
 */
module Cuboids {
  import opened Math
  import opened Constants
  import opened UtilityFunctions
  import SceneNode
  import Planes
  import SoftIntersections

  /** `max_by` over the three sides, divided by 100: a hundredth of the longest side. */
  function CuboidSmoothing(sideA: real, sideB: real, sideC: real): (r: real)
    ensures IsMaximum([sideA, sideB, sideC], 100.0 * r)
  {
    SceneNode.Maximum([sideA, sideB, sideC]) / 100.0
  }

  /** The six faces of `Cuboid::new`, in order -x, +x, -y, +y, -z, +z. */
  function CuboidPlanes(sideA: real, sideB: real, sideC: real): seq<SceneNode.Node> {
    [ SceneNode.Node.Plane(Scale(-sideA / 2.0, UnitX), Neg(UnitX)),
      SceneNode.Node.Plane(Scale(sideA / 2.0, UnitX), UnitX),
      SceneNode.Node.Plane(Scale(-sideB / 2.0, UnitY), Neg(UnitY)),
      SceneNode.Node.Plane(Scale(sideB / 2.0, UnitY), UnitY),
      SceneNode.Node.Plane(Scale(-sideC / 2.0, UnitZ), Neg(UnitZ)),
      SceneNode.Node.Plane(Scale(sideC / 2.0, UnitZ), UnitZ) ]
  }

  /** The outward normal of face `k`. */
  function FaceNormal(k: int): Vec3
    requires 0 <= k < 6
  {
    [Neg(UnitX), UnitX, Neg(UnitY), UnitY, Neg(UnitZ), UnitZ][k]
  }

  /** The distance of face `k` from the center: half of the side across it. */
  function HalfSide(sideA: real, sideB: real, sideC: real, k: int): real
    requires 0 <= k < 6
  {
    [sideA / 2.0, sideA / 2.0, sideB / 2.0, sideB / 2.0, sideC / 2.0, sideC / 2.0][k]
  }

  /** Face `k` passes through the point half a side out along its normal, and the normal has length one. */
  lemma FaceLayout(sideA: real, sideB: real, sideC: real, k: int)
    requires 0 <= k < 6
    ensures |CuboidPlanes(sideA, sideB, sideC)| == 6
    ensures CuboidPlanes(sideA, sideB, sideC)[k]
         == SceneNode.Node.Plane(Scale(HalfSide(sideA, sideB, sideC, k), FaceNormal(k)), FaceNormal(k))
    ensures NormSquared(FaceNormal(k)) == 1.0
  {
  }

  /** Planes need nothing: the six faces are always well formed. */
  lemma CuboidPlanesWellFormed(sideA: real, sideB: real, sideC: real)
    ensures SceneNode.AllWellFormed(CuboidPlanes(sideA, sideB, sideC))
  {
  }

  /** From the center every face is half a side away, on its inner side. */
  lemma FaceDistanceAtCenter(sideA: real, sideB: real, sideC: real, k: int, sqrt: real -> real)
    requires 0 <= k < 6
    ensures SceneNode.AllWellFormed(CuboidPlanes(sideA, sideB, sideC))
    ensures SceneNode.Distance(CuboidPlanes(sideA, sideB, sideC)[k], Zero, sqrt) == -HalfSide(sideA, sideB, sideC, k)
  {
    CuboidPlanesWellFormed(sideA, sideB, sideC);
    FaceLayout(sideA, sideB, sideC, k);
    UnitPlaneAtOrigin(HalfSide(sideA, sideB, sideC, k), FaceNormal(k), sqrt);
  }

  /** A plane with a unit normal through `h n` is `h` away from the origin, on its inner side. */
  lemma UnitPlaneAtOrigin(h: real, n: Vec3, sqrt: real -> real)
    requires NormSquared(n) == 1.0
    ensures SceneNode.Distance(SceneNode.Node.Plane(Scale(h, n), n), Zero, sqrt) == -h
  {
    Planes.PlaneAlongNormal(Scale(h, n), n, -h, sqrt);
    assert Add(Scale(h, n), Scale(-h, n)) == Zero;
  }

  /** For positive sides the center is strictly inside every face. */
  lemma CenterBehindEveryFace(sideA: real, sideB: real, sideC: real, sqrt: real -> real)
    requires sideA > 0.0 && sideB > 0.0 && sideC > 0.0
    ensures SceneNode.AllWellFormed(CuboidPlanes(sideA, sideB, sideC))
    ensures forall k :: 0 <= k < 6 ==> SceneNode.Distance(CuboidPlanes(sideA, sideB, sideC)[k], Zero, sqrt) < 0.0
  {
    FaceDistanceAtCenter(sideA, sideB, sideC, 0, sqrt);
    forall k | 0 <= k < 6
      ensures SceneNode.Distance(CuboidPlanes(sideA, sideB, sideC)[k], Zero, sqrt) < 0.0
    {
      FaceDistanceAtCenter(sideA, sideB, sideC, k, sqrt);
    }
  }

  /**
   * With a non-negative longest side the rounding never cuts into the box: its centered
   * distance is no smaller than the distance to any face.
   */
  lemma CuboidAtLeastEveryFace(sideA: real, sideB: real, sideC: real, c: Vec3, m: Mat3, q: Vec3, sqrt: real -> real)
    requires IsSqrt(sqrt) && SceneNode.Maximum([sideA, sideB, sideC]) >= 0.0
    requires SceneNode.AllWellFormed(CuboidPlanes(sideA, sideB, sideC))
    requires AllAtLeast(SceneNode.ChildDistances(CuboidPlanes(sideA, sideB, sideC), q, sqrt), -MaxF32)
    ensures forall k :: 0 <= k < 6 ==>
              SceneNode.Distance(CuboidPlanes(sideA, sideB, sideC)[k], q, sqrt)
              <= SceneNode.Centered(SceneNode.Node.SoftIntersection(CuboidPlanes(sideA, sideB, sideC), c, m,
                                                                    CuboidSmoothing(sideA, sideB, sideC)), q, sqrt)
  {
    SoftIntersections.SoftIntersectionAtLeastIntersection(CuboidPlanes(sideA, sideB, sideC), c, m,
                                                          CuboidSmoothing(sideA, sideB, sideC), q, sqrt);
  }

  /** The soft intersection's lower bound, for whatever faces a cuboid holds. */
  lemma BlendAtLeastEveryFace(faces: seq<SceneNode.Node>, c: Vec3, m: Mat3, epsilon: real, q: Vec3, sqrt: real -> real)
    requires SceneNode.AllWellFormed(faces)
    ensures IsSqrt(sqrt) && epsilon >= 0.0 && |faces| >= 1
            && AllAtLeast(SceneNode.ChildDistances(faces, q, sqrt), -MaxF32)
            ==> forall k :: 0 <= k < |faces| ==>
                  SceneNode.Distance(faces[k], q, sqrt)
                  <= SceneNode.Centered(SceneNode.Node.SoftIntersection(faces, c, m, epsilon), q, sqrt)
  {
    if IsSqrt(sqrt) && epsilon >= 0.0 && |faces| >= 1 && AllAtLeast(SceneNode.ChildDistances(faces, q, sqrt), -MaxF32) {
      SoftIntersections.SoftIntersectionAtLeastIntersection(faces, c, m, epsilon, q, sqrt);
    }
  }

  class Cuboid {
    const components: SoftIntersections.SoftIntersection

    /** `Cuboid::new`: a fresh soft intersection of the six faces, with the cuboid smoothing. */
    constructor New(sideA: real, sideB: real, sideC: real)
      ensures fresh(components)
      ensures components.objects == CuboidPlanes(sideA, sideB, sideC)
      ensures components.smuEpsilon == CuboidSmoothing(sideA, sideB, sideC)
      ensures components.center == Zero && components.inverseOrientationMatrix == Identity()
    {
      components := new SoftIntersections.SoftIntersection.FromObjects(CuboidPlanes(sideA, sideB, sideC),
                                                                         CuboidSmoothing(sideA, sideB, sideC));
    }

    function AsNode(): SceneNode.Node
      reads this, components
    {
      components.AsNode()
    }

    /**
     * `signed_distance_function_centered`: the soft intersection's blend of the two outermost
     * faces. With a non-negative smoothing it is at least every face's distance.
     */
    function SignedDistanceFunctionCentered(q: Vec3, sqrt: real -> real): (r: real)
      reads this, components
      requires SceneNode.AllWellFormed(components.objects)
      ensures var best := BestTwo(SceneNode.ChildDistances(components.objects, q, sqrt), false);
              r == SmoothMaximumUnit(best.0, best.1, components.smuEpsilon, sqrt)
      ensures IsSqrt(sqrt) && components.smuEpsilon >= 0.0 && |components.objects| >= 1
              && AllAtLeast(SceneNode.ChildDistances(components.objects, q, sqrt), -MaxF32)
              ==> forall k :: 0 <= k < |components.objects| ==>
                    SceneNode.Distance(components.objects[k], q, sqrt) <= r
    {
      BlendAtLeastEveryFace(components.objects, components.center, components.inverseOrientationMatrix,
                            components.smuEpsilon, q, sqrt);
      SceneNode.Centered(AsNode(), q, sqrt)
    }

    /** `get_center`: the soft intersection's center. */
    function GetCenter(): (c: Vec3)
      reads this, components
      ensures c == SceneNode.CenterOf(AsNode())
    {
      components.center
    }

    /** `get_inverse_orientation_matrix`: the soft intersection's matrix. */
    function GetInverseOrientationMatrix(): (m: Mat3)
      reads this, components
      ensures m == SceneNode.InverseOrientationOf(AsNode())
    {
      components.inverseOrientationMatrix
    }

    /** A write through `get_center_mut`: the soft intersection's center, and nothing else, changes. */
    method SetCenter(c: Vec3)
      modifies components
      ensures components.center == c
      ensures components.inverseOrientationMatrix == old(components.inverseOrientationMatrix)
      ensures AsNode() == SceneNode.WithCenter(old(AsNode()), c)
    {
      components.SetCenter(c);
    }

    /** A write through `get_inverse_orientation_matrix_mut`: the soft intersection's matrix, and nothing else, changes. */
    method SetInverseOrientationMatrix(m: Mat3)
      modifies components
      ensures components.inverseOrientationMatrix == m
      ensures components.center == old(components.center)
      ensures AsNode() == SceneNode.WithInverseOrientation(old(AsNode()), m)
    {
      components.SetInverseOrientationMatrix(m);
    }
  }
}
