/**
 * `objects/plane.rs`: a plane through `r0` with normal `n`, `n` pointing into empty space.
 * `get_center` hands out `r0` and `get_rotatable_vectors` hands out `n` only, both for
 * update in place.
 */
module Planes {
  import opened Math
  import SceneNode

  class Plane {
    var r0: Vec3
    var n: Vec3

    /** `Plane::new(point, normal)`. */
    constructor New(point: Vec3, normal: Vec3)
      ensures r0 == point && n == normal
    {
      r0 := point;
      n := normal;
    }

    function AsNode(): SceneNode.Node
      reads this
    {
      SceneNode.Node.Plane(r0, n)
    }

    /** The vectors a rotation acts on: the normal, and not `r0`. */
    function RotatableVectors(): (vs: seq<Vec3>)
      reads this
      ensures |vs| == 1 && vs[0] == n
    {
      [n]
    }

    /** A write through `get_center`: the plane moves, its normal stays. */
    method SetCenter(c: Vec3)
      modifies this
      ensures r0 == c && n == old(n)
      ensures AsNode() == SceneNode.WithCenter(old(AsNode()), c)
    {
      r0 := c;
    }

    /** A write through the one rotatable vector: the normal turns, `r0` stays. */
    method SetNormal(normal: Vec3)
      modifies this
      ensures n == normal && r0 == old(r0)
    {
      n := normal;
    }
  }

  /** `signed_distance_function`: `(p - r0) . n`, in world coordinates. */
  lemma PlaneDistance(r0: Vec3, n: Vec3, p: Vec3, sqrt: real -> real)
    ensures SceneNode.Distance(SceneNode.Node.Plane(r0, n), p, sqrt) == Dot(Sub(p, r0), n)
  {
    MatVecIdentity(Sub(p, r0));
  }

  /** `r0` lies on the plane. */
  lemma PlaneThroughCenter(r0: Vec3, n: Vec3, sqrt: real -> real)
    ensures SceneNode.Distance(SceneNode.Node.Plane(r0, n), r0, sqrt) == 0.0
  {
    PlaneDistance(r0, n, r0, sqrt);
    assert Sub(r0, r0) == Zero;
    DotZero(n);
    DotSymmetric(Zero, n);
  }

  /**
   * Along the normal the distance grows as `t * |n|^2`: positive on the side `n` points to,
   * negative behind the plane.
   */
  lemma PlaneAlongNormal(r0: Vec3, n: Vec3, t: real, sqrt: real -> real)
    ensures SceneNode.Distance(SceneNode.Node.Plane(r0, n), Add(r0, Scale(t, n)), sqrt) == t * NormSquared(n)
    ensures NormSquared(n) != 0.0 ==>
              (SceneNode.Distance(SceneNode.Node.Plane(r0, n), Add(r0, Scale(t, n)), sqrt) > 0.0 <==> t > 0.0)
  {
    PlaneDistance(r0, n, Add(r0, Scale(t, n)), sqrt);
    assert Sub(Add(r0, Scale(t, n)), r0) == Scale(t, n);
    DotScale(n, t, n);
    if NormSquared(n) != 0.0 {
      PositiveTimesPositive(t, NormSquared(n));
    }
  }

  /** For `s > 0`, `t * s > 0` exactly when `t > 0`. */
  lemma PositiveTimesPositive(t: real, s: real)
    requires s >= 0.0 && s != 0.0
    ensures t * s > 0.0 <==> t > 0.0
  {
    if t > 0.0 {
      MulPositive(t, s);
    } else {
      assert t * s == -((-t) * s);
      if t < 0.0 {
        MulPositive(-t, s);
      }
    }
  }

  /** Moving `r0` by `v` and querying at `p + v` gives the distance at `p`. */
  lemma PlaneTranslated(r0: Vec3, n: Vec3, p: Vec3, v: Vec3, sqrt: real -> real)
    ensures SceneNode.Distance(SceneNode.Node.Plane(Add(r0, v), n), Add(p, v), sqrt)
         == SceneNode.Distance(SceneNode.Node.Plane(r0, n), p, sqrt)
  {
    SceneNode.DistanceTranslated(SceneNode.Node.Plane(r0, n), p, v, sqrt);
  }
}
