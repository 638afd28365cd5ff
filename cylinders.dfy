/**
 * `objects/cylinder.rs`: a capped cylinder, built as the intersection of an infinite cylinder
 * with the two planes that close it at the base and at `height` along the axis. The struct
 * holds only that intersection and forwards everything to it.
 */
module Cylinders {
  import opened Math
  import opened UtilityFunctions
  import SceneNode
  import Intersections
  import InfiniteCylinders

  /** The three children of `Cylinder::new`, in order. */
  function CylinderParts(baseCenter: Vec3, height: real, radius: real, shaftAxis: Vec3): seq<SceneNode.Node> {
    [ SceneNode.Node.InfiniteCylinder(baseCenter, Identity(), radius, shaftAxis),
      SceneNode.Node.Plane(baseCenter, Neg(shaftAxis)),
      SceneNode.Node.Plane(Add(baseCenter, Scale(height, shaftAxis)), shaftAxis) ]
  }

  /** The parts are usable exactly when the axis is not zero (the infinite cylinder divides by its length). */
  lemma CylinderPartsWellFormed(baseCenter: Vec3, height: real, radius: real, shaftAxis: Vec3)
    ensures SceneNode.AllWellFormed(CylinderParts(baseCenter, height, radius, shaftAxis))
        <==> shaftAxis != Zero
  {
    var parts := CylinderParts(baseCenter, height, radius, shaftAxis);
    if shaftAxis != Zero {
      forall k | 0 <= k < |parts|
        ensures SceneNode.WellFormed(parts[k])
      {
      }
    } else {
      assert !SceneNode.WellFormed(parts[0]);
    }
  }

  class Cylinder {
    const components: Intersections.Intersection

    /** `Cylinder::new`: a fresh intersection of the three parts, at the origin with the identity orientation. */
    constructor New(baseCenter: Vec3, height: real, radius: real, shaftAxis: Vec3)
      ensures fresh(components)
      ensures components.objects == CylinderParts(baseCenter, height, radius, shaftAxis)
      ensures components.center == Zero && components.inverseOrientationMatrix == Identity()
    {
      components := new Intersections.Intersection.FromObjects(CylinderParts(baseCenter, height, radius, shaftAxis));
    }

    function AsNode(): SceneNode.Node
      reads this, components
    {
      components.AsNode()
    }

    /** `get_center`: the intersection's center. */
    function GetCenter(): (c: Vec3)
      reads this, components
      ensures c == SceneNode.CenterOf(AsNode())
    {
      components.center
    }

    /** `get_inverse_orientation_matrix`: the intersection's matrix. */
    function GetInverseOrientationMatrix(): (m: Mat3)
      reads this, components
      ensures m == SceneNode.InverseOrientationOf(AsNode())
    {
      components.inverseOrientationMatrix
    }

    /** `signed_distance_function_centered`: the intersection's, the largest of the parts' distances. */
    function SignedDistanceFunctionCentered(q: Vec3, sqrt: real -> real): (r: real)
      reads this, components
      requires |components.objects| >= 1 && SceneNode.AllWellFormed(components.objects)
      ensures forall k :: 0 <= k < |components.objects| ==> SceneNode.Distance(components.objects[k], q, sqrt) <= r
      ensures exists k :: 0 <= k < |components.objects| && r == SceneNode.Distance(components.objects[k], q, sqrt)
    {
      components.SignedDistanceFunctionCentered(q, sqrt)
    }

    /** A write through `get_center_mut`: the intersection's center, and nothing else, changes. */
    method SetCenter(c: Vec3)
      modifies components
      ensures components.center == c
      ensures components.inverseOrientationMatrix == old(components.inverseOrientationMatrix)
      ensures AsNode() == SceneNode.WithCenter(old(AsNode()), c)
    {
      components.SetCenter(c);
    }

    /** A write through `get_inverse_orientation_matrix_mut`: the intersection's matrix, and nothing else, changes. */
    method SetInverseOrientationMatrix(m: Mat3)
      modifies components
      ensures components.inverseOrientationMatrix == m
      ensures components.center == old(components.center)
      ensures AsNode() == SceneNode.WithInverseOrientation(old(AsNode()), m)
    {
      components.SetInverseOrientationMatrix(m);
    }
  }

  /**
   * At the point `t` axis-lengths up the axis from the base, the parts measure `-radius`
   * (the point is on the axis), `-t s` below the base plane and `(t - height) s` under the
   * top plane, where `s = |a|^2`.
   */
  lemma AxisPointDistances(baseCenter: Vec3, height: real, radius: real, shaftAxis: Vec3, t: real, s: real, sqrt: real -> real)
    requires s == NormSquared(shaftAxis) && s != 0.0 && IsSqrt(sqrt)
    ensures SceneNode.AllWellFormed(CylinderParts(baseCenter, height, radius, shaftAxis))
    ensures SceneNode.ChildDistances(CylinderParts(baseCenter, height, radius, shaftAxis), Add(baseCenter, Scale(t, shaftAxis)), sqrt)
         == [-radius, -t * s, (t - height) * s]
  {
    var parts := CylinderParts(baseCenter, height, radius, shaftAxis);
    var p := Add(baseCenter, Scale(t, shaftAxis));
    NormSquaredZeroIff(shaftAxis);
    CylinderPartsWellFormed(baseCenter, height, radius, shaftAxis);
    var ds := SceneNode.ChildDistances(parts, p, sqrt);
    CylinderOnAxisDistance(baseCenter, radius, shaftAxis, t, sqrt);
    assert ds[0] == -radius;
    BasePlaneDistance(baseCenter, shaftAxis, t, sqrt);
    assert ds[1] == -t * s;
    TopPlaneDistance(baseCenter, height, shaftAxis, t, sqrt);
    assert ds[2] == (t - height) * s;
  }

  lemma CylinderOnAxisDistance(baseCenter: Vec3, radius: real, shaftAxis: Vec3, t: real, sqrt: real -> real)
    requires NormSquared(shaftAxis) != 0.0 && IsSqrt(sqrt)
    ensures SceneNode.Distance(SceneNode.Node.InfiniteCylinder(baseCenter, Identity(), radius, shaftAxis),
                               Add(baseCenter, Scale(t, shaftAxis)), sqrt) == -radius
  {
    assert Sub(Add(baseCenter, Scale(t, shaftAxis)), baseCenter) == Scale(t, shaftAxis);
    MatVecIdentity(Scale(t, shaftAxis));
    InfiniteCylinders.CenteredOnAxis(baseCenter, Identity(), radius, shaftAxis, t, sqrt);
  }

  lemma BasePlaneDistance(baseCenter: Vec3, shaftAxis: Vec3, t: real, sqrt: real -> real)
    ensures SceneNode.Distance(SceneNode.Node.Plane(baseCenter, Neg(shaftAxis)), Add(baseCenter, Scale(t, shaftAxis)), sqrt)
         == -t * NormSquared(shaftAxis)
  {
    assert Sub(Add(baseCenter, Scale(t, shaftAxis)), baseCenter) == Scale(t, shaftAxis);
    MatVecIdentity(Scale(t, shaftAxis));
    DotScale(Neg(shaftAxis), t, shaftAxis);
    assert Dot(shaftAxis, Neg(shaftAxis)) == -NormSquared(shaftAxis);
  }

  lemma TopPlaneDistance(baseCenter: Vec3, height: real, shaftAxis: Vec3, t: real, sqrt: real -> real)
    ensures SceneNode.Distance(SceneNode.Node.Plane(Add(baseCenter, Scale(height, shaftAxis)), shaftAxis),
                               Add(baseCenter, Scale(t, shaftAxis)), sqrt)
         == (t - height) * NormSquared(shaftAxis)
  {
    var top := Add(baseCenter, Scale(height, shaftAxis));
    assert Sub(Add(baseCenter, Scale(t, shaftAxis)), top) == Scale(t - height, shaftAxis);
    MatVecIdentity(Scale(t - height, shaftAxis));
    DotScale(shaftAxis, t - height, shaftAxis);
  }

  /** The cylinder's centered distance at a point of the axis: the largest of the three parts' distances. */
  lemma AxisPointCentered(baseCenter: Vec3, height: real, radius: real, shaftAxis: Vec3, t: real, s: real, c: Vec3, m: Mat3, sqrt: real -> real)
    requires s == NormSquared(shaftAxis) && s != 0.0 && IsSqrt(sqrt)
    ensures SceneNode.WellFormed(SceneNode.Node.Intersection(CylinderParts(baseCenter, height, radius, shaftAxis), c, m))
    ensures SceneNode.Centered(SceneNode.Node.Intersection(CylinderParts(baseCenter, height, radius, shaftAxis), c, m),
                               Add(baseCenter, Scale(t, shaftAxis)), sqrt)
         == SceneNode.Maximum([-radius, -t * s, (t - height) * s])
  {
    AxisPointDistances(baseCenter, height, radius, shaftAxis, t, s, sqrt);
    IntersectionCentered(CylinderParts(baseCenter, height, radius, shaftAxis), c, m, Add(baseCenter, Scale(t, shaftAxis)), sqrt);
  }

  /** With a non-negative radius, the segment of the axis between the caps is inside (or on) the cylinder. */
  lemma AxisSegmentInside(baseCenter: Vec3, height: real, radius: real, shaftAxis: Vec3, t: real, c: Vec3, m: Mat3, sqrt: real -> real)
    requires NormSquared(shaftAxis) != 0.0 && IsSqrt(sqrt)
    requires radius >= 0.0 && 0.0 <= t <= height
    ensures SceneNode.WellFormed(SceneNode.Node.Intersection(CylinderParts(baseCenter, height, radius, shaftAxis), c, m))
    ensures SceneNode.Centered(SceneNode.Node.Intersection(CylinderParts(baseCenter, height, radius, shaftAxis), c, m),
                               Add(baseCenter, Scale(t, shaftAxis)), sqrt) <= 0.0
  {
    var s := NormSquared(shaftAxis);
    AxisPointCentered(baseCenter, height, radius, shaftAxis, t, s, c, m, sqrt);
    MaximumBetweenCaps(radius, height, t, s);
  }

  /** Beyond either cap the axis is outside the cylinder, whatever the radius. */
  lemma AxisBeyondCapsOutside(baseCenter: Vec3, height: real, radius: real, shaftAxis: Vec3, t: real, c: Vec3, m: Mat3, sqrt: real -> real)
    requires NormSquared(shaftAxis) != 0.0 && IsSqrt(sqrt)
    requires t < 0.0 || t > height
    ensures SceneNode.WellFormed(SceneNode.Node.Intersection(CylinderParts(baseCenter, height, radius, shaftAxis), c, m))
    ensures SceneNode.Centered(SceneNode.Node.Intersection(CylinderParts(baseCenter, height, radius, shaftAxis), c, m),
                               Add(baseCenter, Scale(t, shaftAxis)), sqrt) > 0.0
  {
    var s := NormSquared(shaftAxis);
    AxisPointCentered(baseCenter, height, radius, shaftAxis, t, s, c, m, sqrt);
    MaximumBeyondCaps(radius, height, t, s);
  }

  lemma MaximumBetweenCaps(radius: real, height: real, t: real, s: real)
    requires s >= 0.0 && radius >= 0.0 && 0.0 <= t <= height
    ensures SceneNode.Maximum([-radius, -t * s, (t - height) * s]) <= 0.0
  {
    NonPositiveProduct(-t, s);
    NonPositiveProduct(t - height, s);
    MaximumOfThreeNonPositive(-radius, -t * s, (t - height) * s);
  }

  lemma MaximumBeyondCaps(radius: real, height: real, t: real, s: real)
    requires s >= 0.0 && s != 0.0 && (t < 0.0 || t > height)
    ensures SceneNode.Maximum([-radius, -t * s, (t - height) * s]) > 0.0
  {
    if t < 0.0 {
      MulPositive(-t, s);
      MaximumWithPositive(-radius, -t * s, (t - height) * s);
    } else {
      MulPositive(t - height, s);
      MaximumWithPositive(-radius, -t * s, (t - height) * s);
    }
  }

  lemma MaximumWithPositive(x: real, y: real, z: real)
    requires y > 0.0 || z > 0.0
    ensures SceneNode.Maximum([x, y, z]) > 0.0
  {
    var ds := [x, y, z];
    assert ds[1] <= SceneNode.Maximum(ds) && ds[2] <= SceneNode.Maximum(ds);
  }

  lemma IntersectionCentered(objects: seq<SceneNode.Node>, c: Vec3, m: Mat3, q: Vec3, sqrt: real -> real)
    requires |objects| >= 1 && SceneNode.AllWellFormed(objects)
    ensures SceneNode.WellFormed(SceneNode.Node.Intersection(objects, c, m))
    ensures SceneNode.Centered(SceneNode.Node.Intersection(objects, c, m), q, sqrt)
         == SceneNode.Maximum(SceneNode.ChildDistances(objects, q, sqrt))
  {
  }

  lemma NonPositiveProduct(a: real, s: real)
    requires a <= 0.0 && s >= 0.0
    ensures a * s <= 0.0
  {
  }

  lemma MaximumOfThreeNonPositive(x: real, y: real, z: real)
    requires x <= 0.0 && y <= 0.0 && z <= 0.0
    ensures SceneNode.Maximum([x, y, z]) <= 0.0
  {
    var m := SceneNode.Maximum([x, y, z]);
    var i :| 0 <= i < 3 && [x, y, z][i] == m;
  }
}
