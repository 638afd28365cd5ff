/**
 * `objects/infinite_cylinder.rs`: the points at distance `radius` from the line through the
 * center along `shaft_axis`; the centered distance subtracts the projection onto the axis.
 */
module InfiniteCylinders {
  import opened Math
  import SceneNode

  class InfiniteCylinder {
    var center: Vec3
    const radius: real
    const shaftAxis: Vec3
    var inverseOrientationMatrix: Mat3

    /** `InfiniteCylinder::new`: the given fields, the identity as inverse orientation. */
    constructor New(center: Vec3, radius: real, shaftAxis: Vec3)
      ensures this.center == center && this.radius == radius && this.shaftAxis == shaftAxis
      ensures inverseOrientationMatrix == Identity()
    {
      this.center := center;
      this.radius := radius;
      this.shaftAxis := shaftAxis;
      inverseOrientationMatrix := Identity();
    }

    function AsNode(): SceneNode.Node
      reads this
    {
      SceneNode.Node.InfiniteCylinder(center, inverseOrientationMatrix, radius, shaftAxis)
    }

    /** A write through `get_center_mut`: only the center changes. */
    method SetCenter(c: Vec3)
      modifies this
      ensures center == c && inverseOrientationMatrix == old(inverseOrientationMatrix)
      ensures AsNode() == SceneNode.WithCenter(old(AsNode()), c)
    {
      center := c;
    }

    /** A write through `get_inverse_orientation_matrix_mut`: only the matrix changes. */
    method SetInverseOrientationMatrix(m: Mat3)
      modifies this
      ensures inverseOrientationMatrix == m && center == old(center)
      ensures AsNode() == SceneNode.WithInverseOrientation(old(AsNode()), m)
    {
      inverseOrientationMatrix := m;
    }
  }

  /** The radial part `q - proj(a, q)` of a point, whose length the centered distance measures. */
  function Radial(axis: Vec3, q: Vec3): (r: Vec3)
    requires NormSquared(axis) != 0.0
    ensures Dot(axis, r) == 0.0
  {
    Sub(q, Proj(axis, q))
  }

  lemma CenteredIsRadial(c: Vec3, m: Mat3, radius: real, axis: Vec3, q: Vec3, sqrt: real -> real)
    requires NormSquared(axis) != 0.0
    ensures SceneNode.Centered(SceneNode.Node.InfiniteCylinder(c, m, radius, axis), q, sqrt)
         == Norm(Radial(axis, q), sqrt) - radius
  {
  }

  /** Sliding the point along the axis leaves the radial part, hence the distance, unchanged. */
  lemma RadialAlongAxis(axis: Vec3, q: Vec3, t: real)
    requires NormSquared(axis) != 0.0
    ensures Radial(axis, Add(q, Scale(t, axis))) == Radial(axis, q)
  {
    var w := Scale(t, axis);
    var k := Dot(axis, q) / NormSquared(axis);
    ProjAlongAxis(axis, q, t);
    assert Proj(axis, Add(q, w)) == Scale(k + t, axis);
    ScaleAdd(k, t, axis);
    assert Proj(axis, q) == Scale(k, axis);
    assert Sub(Add(q, w), Add(Scale(k, axis), w)) == Sub(q, Scale(k, axis));
  }

  /** The projection of `q + t a` onto `a` has coefficient `(a.q) / |a|^2 + t`. */
  lemma ProjAlongAxis(axis: Vec3, q: Vec3, t: real)
    requires NormSquared(axis) != 0.0
    ensures Dot(axis, Add(q, Scale(t, axis))) / NormSquared(axis) == Dot(axis, q) / NormSquared(axis) + t
  {
    DotAdd(axis, q, Scale(t, axis));
    DotScale(axis, t, axis);
    CoefficientShift(Dot(axis, q), t, NormSquared(axis));
  }

  lemma ScaleAdd(a: real, b: real, v: Vec3)
    ensures Scale(a + b, v) == Add(Scale(a, v), Scale(b, v))
  {
  }

  lemma CoefficientShift(d: real, t: real, s: real)
    requires s != 0.0
    ensures (d + t * s) / s == d / s + t
  {
  }

  lemma CenteredAlongAxis(c: Vec3, m: Mat3, radius: real, axis: Vec3, q: Vec3, t: real, sqrt: real -> real)
    requires NormSquared(axis) != 0.0
    ensures SceneNode.Centered(SceneNode.Node.InfiniteCylinder(c, m, radius, axis), Add(q, Scale(t, axis)), sqrt)
         == SceneNode.Centered(SceneNode.Node.InfiniteCylinder(c, m, radius, axis), q, sqrt)
  {
    RadialAlongAxis(axis, q, t);
  }

  /** Scaling the axis by any non-zero `k` describes the same cylinder. */
  lemma RadialScaledAxis(axis: Vec3, k: real, q: Vec3)
    requires NormSquared(axis) != 0.0 && k != 0.0
    ensures NormSquared(Scale(k, axis)) != 0.0
    ensures Radial(Scale(k, axis), q) == Radial(axis, q)
  {
    ScaledAxisLength(axis, k);
    var c := Dot(axis, q) / NormSquared(axis);
    ProjScaledAxis(axis, k, q);
    assert Proj(Scale(k, axis), q) == Scale(c / k, Scale(k, axis));
    ScaleScale(c / k, k, axis);
    assert c / k * k == c;
  }

  lemma ScaledAxisLength(axis: Vec3, k: real)
    requires NormSquared(axis) != 0.0 && k != 0.0
    ensures NormSquared(Scale(k, axis)) == k * k * NormSquared(axis)
    ensures NormSquared(Scale(k, axis)) != 0.0
  {
    ScaleNormSquared(k, axis);
    ScaleNonDegenerate(k, axis);
  }

  /** The projection coefficient onto `k a` is that onto `a`, divided by `k`. */
  lemma ProjScaledAxis(axis: Vec3, k: real, q: Vec3)
    requires NormSquared(axis) != 0.0 && k != 0.0
    ensures NormSquared(Scale(k, axis)) != 0.0
    ensures Dot(Scale(k, axis), q) / NormSquared(Scale(k, axis)) == Dot(axis, q) / NormSquared(axis) / k
  {
    ScaledAxisLength(axis, k);
    DotScale(q, k, axis);
    ScaledCoefficient(Dot(Scale(k, axis), q), NormSquared(Scale(k, axis)), Dot(axis, q), k, NormSquared(axis));
  }

  lemma ScaledCoefficient(numerator: real, denominator: real, d: real, k: real, s: real)
    requires k != 0.0 && s != 0.0 && denominator != 0.0
    requires numerator == k * d && denominator == k * k * s
    ensures numerator / denominator == d / s / k
  {
    var v := d / s / k;
    assert v * k == d / s;
    assert v * k * s == d;
    assert v * denominator == numerator;
  }

  lemma CenteredScaledAxis(c: Vec3, m: Mat3, radius: real, axis: Vec3, k: real, q: Vec3, sqrt: real -> real)
    requires NormSquared(axis) != 0.0 && k != 0.0
    ensures SceneNode.WellFormed(SceneNode.Node.InfiniteCylinder(c, m, radius, Scale(k, axis)))
    ensures SceneNode.Centered(SceneNode.Node.InfiniteCylinder(c, m, radius, Scale(k, axis)), q, sqrt)
         == SceneNode.Centered(SceneNode.Node.InfiniteCylinder(c, m, radius, axis), q, sqrt)
  {
    RadialScaledAxis(axis, k, q);
  }

  /** Points on the axis, the origin among them, lie `radius` inside. */
  lemma CenteredOnAxis(c: Vec3, m: Mat3, radius: real, axis: Vec3, t: real, sqrt: real -> real)
    requires NormSquared(axis) != 0.0 && IsSqrt(sqrt)
    ensures SceneNode.Centered(SceneNode.Node.InfiniteCylinder(c, m, radius, axis), Scale(t, axis), sqrt) == -radius
  {
    RadialAlongAxis(axis, Zero, t);
    assert Add(Zero, Scale(t, axis)) == Scale(t, axis);
    DotSymmetric(axis, Zero);
    DotZero(axis);
    assert Proj(axis, Zero) == Scale(0.0, axis);
    assert Radial(axis, Zero) == Zero;
    NormZero(sqrt);
  }

  /** With a unit axis and no rotation the distance is `|r - (r.a) a| - radius` for `r = p - center`. */
  lemma UnitAxisDistance(c: Vec3, radius: real, axis: Vec3, p: Vec3, sqrt: real -> real)
    requires NormSquared(axis) == 1.0
    ensures SceneNode.WellFormed(SceneNode.Node.InfiniteCylinder(c, Identity(), radius, axis))
    ensures SceneNode.Distance(SceneNode.Node.InfiniteCylinder(c, Identity(), radius, axis), p, sqrt)
         == Norm(Sub(Sub(p, c), Scale(Dot(Sub(p, c), axis), axis)), sqrt) - radius
  {
    MatVecIdentity(Sub(p, c));
    ProjOntoUnit(axis, Sub(p, c));
  }
}
