/** `objects/sphere.rs`: a sphere whose center and inverse orientation are updated in place. */
module Spheres {
  import opened Math
  import SceneNode

  class Sphere {
    var center: Vec3
    const radius: real
    var inverseOrientationMatrix: Mat3

    /** `Sphere::new`: the given center and radius, the identity as inverse orientation. */
    constructor New(center: Vec3, radius: real)
      ensures this.center == center && this.radius == radius
      ensures inverseOrientationMatrix == Identity()
    {
      this.center := center;
      this.radius := radius;
      inverseOrientationMatrix := Identity();
    }

    /** The sphere as a node of the scene graph. */
    function AsNode(): SceneNode.Node
      reads this
    {
      SceneNode.Node.Sphere(center, inverseOrientationMatrix, radius)
    }

    /** A write through `get_center_mut`: only the center changes. */
    method SetCenter(c: Vec3)
      modifies this
      ensures center == c && inverseOrientationMatrix == old(inverseOrientationMatrix)
      ensures AsNode() == SceneNode.WithCenter(old(AsNode()), c)
    {
      center := c;
    }

    /** A write through `get_inverse_orientation_matrix_mut`: only the matrix changes. */
    method SetInverseOrientationMatrix(m: Mat3)
      modifies this
      ensures inverseOrientationMatrix == m && center == old(center)
      ensures AsNode() == SceneNode.WithInverseOrientation(old(AsNode()), m)
    {
      inverseOrientationMatrix := m;
    }
  }

  /** The centered distance is never below `-radius`, and is `-radius` at the origin. */
  lemma CenteredAtLeastMinusRadius(c: Vec3, m: Mat3, radius: real, q: Vec3, sqrt: real -> real)
    requires IsSqrt(sqrt)
    ensures SceneNode.Centered(SceneNode.Node.Sphere(c, m, radius), q, sqrt) >= -radius
    ensures q == Zero ==> SceneNode.Centered(SceneNode.Node.Sphere(c, m, radius), q, sqrt) == -radius
  {
    NormNonNegative(q, sqrt);
    if q == Zero {
      NormZero(sqrt);
    }
  }

  /** A point lies on the surface exactly when it is `radius` away from the center. */
  lemma SurfaceIsAtRadius(c: Vec3, m: Mat3, radius: real, p: Vec3, sqrt: real -> real)
    ensures SceneNode.Distance(SceneNode.Node.Sphere(c, m, radius), p, sqrt) == 0.0
        <==> Norm(MatVec(m, Sub(p, c)), sqrt) == radius
  {
  }

  /** At the center the distance is `-radius`, whatever the orientation. */
  lemma DistanceAtCenter(c: Vec3, m: Mat3, radius: real, sqrt: real -> real)
    requires IsSqrt(sqrt)
    ensures SceneNode.Distance(SceneNode.Node.Sphere(c, m, radius), c, sqrt) == -radius
  {
    SceneNode.DistanceAtCenter(SceneNode.Node.Sphere(c, m, radius), sqrt);
    CenteredAtLeastMinusRadius(c, m, radius, Zero, sqrt);
  }
}
