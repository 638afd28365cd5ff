/**
 * `objects/pp.rs`: the stateless `PP` figure, two balls, a shaft and a head, written as one
 * hand-made signed distance function out of plane and sphere distances combined with `min!` and
 * `max!`. The lemmas show that each part is the scene-graph node it imitates (a union of two
 * spheres, the capped cylinder of `objects/cylinder.rs`, a half ball) and that the whole figure
 * is the union of those nodes.
 */
module PP {
  import opened Math
  import opened UtilityFunctions
  import SceneNode
  import Cylinders
  import InfiniteCylinders

  const LeftCenter: Vec3 := Vec3(-0.3, 0.0, 0.0)
  const RightCenter: Vec3 := Vec3(0.3, 0.0, 0.0)
  const BallRadius: real := 0.5
  /** The shaft runs along the z axis through this point, from `z = 0` to `z = ShaftLength`. */
  const ShaftOffset: Vec3 := Vec3(0.0, 0.2, 0.0)
  const ShaftLength: real := 2.5
  const ShaftRadius: real := 0.4
  const HeadCenter: Vec3 := Vec3(0.0, 0.2, 2.5)
  const HeadRadius: real := 0.5

  /** `min!(x, y)`: `y` when `y < x`, otherwise `x`; the smaller of the two. */
  function MinMacro(x: real, y: real): (r: real)
    ensures r == MinOf(x, y)
  {
    if y < x then y else x
  }

  /** `max!(x, y)`: `y` when `y > x`, otherwise `x`; the larger of the two. */
  function MaxMacro(x: real, y: real): (r: real)
    ensures r == MaxOf(x, y)
  {
    if y > x then y else x
  }

  /** `sdf_plane`: the signed distance to the plane through `r0` with normal `normal`. */
  function SdfPlane(position: Vec3, r0: Vec3, normal: Vec3): real {
    Dot(Sub(position, r0), normal)
  }

  /** `sdf_sphere`: the distance to the center less the radius. */
  function SdfSphere(position: Vec3, sphereCenter: Vec3, sphereRadius: real, sqrt: real -> real): real {
    Norm(Sub(position, sphereCenter), sqrt) - sphereRadius
  }

  /** `sdf_balls`: the nearer of the two balls. */
  function SdfBalls(position: Vec3, sqrt: real -> real): real {
    MinMacro(SdfSphere(position, LeftCenter, BallRadius, sqrt), SdfSphere(position, RightCenter, BallRadius, sqrt))
  }

  /** The distance from the line through `offset` along the unit vector `axis`, less `radius`. */
  function AxisDistance(position: Vec3, offset: Vec3, axis: Vec3, radius: real, sqrt: real -> real): real {
    var rRelative := Sub(position, offset);
    Norm(Sub(rRelative, Scale(Dot(rRelative, axis), axis)), sqrt) - radius
  }

  /** `sdf_shaft`'s cylinder term: the distance from the z axis through `ShaftOffset`, less the radius. */
  function ShaftCylinder(position: Vec3, sqrt: real -> real): real {
    AxisDistance(position, ShaftOffset, UnitZ, ShaftRadius, sqrt)
  }

  /** `sdf_shaft`: the cylinder cut off below `z = 0` and above `z = 2.5`. */
  function SdfShaft(position: Vec3, sqrt: real -> real): real {
    var lowerPlane := SdfPlane(position, Zero, Vec3(0.0, 0.0, -1.0));
    var upperPlane := SdfPlane(position, Vec3(0.0, 0.0, 2.5), UnitZ);
    MaxMacro(lowerPlane, MaxMacro(upperPlane, ShaftCylinder(position, sqrt)))
  }

  /** `sdf_head`: the ball around `HeadCenter` cut by the plane through it with normal `-z`. */
  function SdfHead(position: Vec3, sqrt: real -> real): real {
    MaxMacro(SdfSphere(position, HeadCenter, HeadRadius, sqrt), SdfPlane(position, HeadCenter, Scale(-1.0, UnitZ)))
  }

  /** `signed_distance_function`: the nearest of the three parts. */
  function Sdf(position: Vec3, sqrt: real -> real): (r: real)
    ensures r <= SdfBalls(position, sqrt) && r <= SdfShaft(position, sqrt) && r <= SdfHead(position, sqrt)
    ensures r == SdfBalls(position, sqrt) || r == SdfShaft(position, sqrt) || r == SdfHead(position, sqrt)
  {
    MinMacro(SdfBalls(position, sqrt), MinMacro(SdfShaft(position, sqrt), SdfHead(position, sqrt)))
  }

  // ---------------------------------------------------------------- the parts as scene nodes

  /** `sdf_plane` at its own point is zero. */
  lemma SdfPlaneAtPoint(r0: Vec3, normal: Vec3)
    ensures SdfPlane(r0, r0, normal) == 0.0
  {
    assert Sub(r0, r0) == Zero;
    DotZero(normal);
  }

  /** `sdf_sphere` at the center is `-radius`. */
  lemma SdfSphereAtCenter(sphereCenter: Vec3, sphereRadius: real, sqrt: real -> real)
    requires IsSqrt(sqrt)
    ensures SdfSphere(sphereCenter, sphereCenter, sphereRadius, sqrt) == -sphereRadius
  {
    assert Sub(sphereCenter, sphereCenter) == Zero;
    NormZero(sqrt);
  }

  /** `sdf_plane` is the distance of a plane node. */
  lemma SdfPlaneIsPlane(position: Vec3, r0: Vec3, normal: Vec3, sqrt: real -> real)
    ensures SdfPlane(position, r0, normal) == SceneNode.Distance(SceneNode.Node.Plane(r0, normal), position, sqrt)
  {
    MatVecIdentity(Sub(position, r0));
  }

  /** `sdf_sphere` is the distance of an unrotated sphere node. */
  lemma SdfSphereIsSphere(position: Vec3, sphereCenter: Vec3, sphereRadius: real, sqrt: real -> real)
    ensures SdfSphere(position, sphereCenter, sphereRadius, sqrt)
         == SceneNode.Distance(SceneNode.Node.Sphere(sphereCenter, Identity(), sphereRadius), position, sqrt)
  {
    MatVecIdentity(Sub(position, sphereCenter));
  }

  /** With a unit axis, the distance from the axis line is that of an unrotated infinite cylinder. */
  lemma AxisDistanceIsInfiniteCylinder(position: Vec3, offset: Vec3, axis: Vec3, radius: real, sqrt: real -> real)
    requires NormSquared(axis) == 1.0
    ensures SceneNode.WellFormed(SceneNode.Node.InfiniteCylinder(offset, Identity(), radius, axis))
    ensures AxisDistance(position, offset, axis, radius, sqrt)
         == SceneNode.Distance(SceneNode.Node.InfiniteCylinder(offset, Identity(), radius, axis), position, sqrt)
  {
    InfiniteCylinders.UnitAxisDistance(offset, radius, axis, position, sqrt);
  }

  /** The shaft's cylinder term is the distance of the infinite cylinder along `z` through `ShaftOffset`. */
  lemma ShaftCylinderIsInfiniteCylinder(position: Vec3, sqrt: real -> real)
    ensures SceneNode.WellFormed(SceneNode.Node.InfiniteCylinder(ShaftOffset, Identity(), ShaftRadius, UnitZ))
    ensures ShaftCylinder(position, sqrt)
         == SceneNode.Distance(SceneNode.Node.InfiniteCylinder(ShaftOffset, Identity(), ShaftRadius, UnitZ), position, sqrt)
  {
    UnitZLength();
    AxisDistanceIsInfiniteCylinder(position, ShaftOffset, UnitZ, ShaftRadius, sqrt);
  }

  // ---------------------------------------------------------------- the figure as a scene graph

  /** The two balls: a union of two unrotated spheres. */
  function BallsNode(): SceneNode.Node {
    SceneNode.Node.Union([SceneNode.Node.Sphere(LeftCenter, Identity(), BallRadius),
                          SceneNode.Node.Sphere(RightCenter, Identity(), BallRadius)], Zero, Identity())
  }

  /** The shaft: the capped cylinder of `objects/cylinder.rs` with base `ShaftOffset`, height 2.5, radius 0.4, axis `z`. */
  function ShaftNode(): SceneNode.Node {
    SceneNode.Node.Intersection(Cylinders.CylinderParts(ShaftOffset, ShaftLength, ShaftRadius, UnitZ), Zero, Identity())
  }

  /** The head: a ball cut by the plane through its center, keeping the half above it. */
  function HeadNode(): SceneNode.Node {
    SceneNode.Node.Intersection([SceneNode.Node.Sphere(HeadCenter, Identity(), HeadRadius),
                                 SceneNode.Node.Plane(HeadCenter, Scale(-1.0, UnitZ))], Zero, Identity())
  }

  /** The whole figure: the union of its three parts. */
  function FigureNode(): SceneNode.Node {
    SceneNode.Node.Union([BallsNode(), ShaftNode(), HeadNode()], Zero, Identity())
  }

  /** `sdf_balls` is the distance of the union of the two spheres. */
  lemma BallsAreUnion(position: Vec3, sqrt: real -> real)
    ensures SceneNode.WellFormed(BallsNode())
    ensures SdfBalls(position, sqrt) == SceneNode.Distance(BallsNode(), position, sqrt)
  {
    var left := SceneNode.Node.Sphere(LeftCenter, Identity(), BallRadius);
    var right := SceneNode.Node.Sphere(RightCenter, Identity(), BallRadius);
    SdfSphereIsSphere(position, LeftCenter, BallRadius, sqrt);
    SdfSphereIsSphere(position, RightCenter, BallRadius, sqrt);
    UnionOfTwo(left, right, position, sqrt);
  }

  /** `sdf_shaft` is the distance of the capped cylinder: its planes are the cylinder's caps. */
  lemma ShaftIsCylinder(position: Vec3, sqrt: real -> real)
    ensures SceneNode.WellFormed(ShaftNode())
    ensures SdfShaft(position, sqrt) == SceneNode.Distance(ShaftNode(), position, sqrt)
  {
    var parts := Cylinders.CylinderParts(ShaftOffset, ShaftLength, ShaftRadius, UnitZ);
    assert SceneNode.AllWellFormed(parts) by {
      Cylinders.CylinderPartsWellFormed(ShaftOffset, ShaftLength, ShaftRadius, UnitZ);
    }
    assert parts == [parts[0], parts[1], parts[2]];
    var d0 := SceneNode.Distance(parts[0], position, sqrt);
    var d1 := SceneNode.Distance(parts[1], position, sqrt);
    var d2 := SceneNode.Distance(parts[2], position, sqrt);
    assert d0 == ShaftCylinder(position, sqrt) by {
      ShaftCylinderIsInfiniteCylinder(position, sqrt);
    }
    assert d1 == SdfPlane(position, Zero, Vec3(0.0, 0.0, -1.0)) by {
      SdfPlaneIsPlane(position, ShaftOffset, Neg(UnitZ), sqrt);
      LowerCap(position);
    }
    assert d2 == SdfPlane(position, Vec3(0.0, 0.0, 2.5), UnitZ) by {
      SdfPlaneIsPlane(position, Add(ShaftOffset, Scale(ShaftLength, UnitZ)), UnitZ, sqrt);
      UpperCap(position);
    }
    IntersectionOfThree(parts[0], parts[1], parts[2], position, sqrt);
  }

  /** The plane through the origin with normal `-z` is the one through `ShaftOffset`. */
  lemma LowerCap(position: Vec3)
    ensures SdfPlane(position, Zero, Vec3(0.0, 0.0, -1.0)) == SdfPlane(position, ShaftOffset, Neg(UnitZ))
  {
  }

  /** The plane through `(0, 0, 2.5)` with normal `z` is the one through the top of the shaft's axis. */
  lemma UpperCap(position: Vec3)
    ensures SdfPlane(position, Vec3(0.0, 0.0, 2.5), UnitZ) == SdfPlane(position, Add(ShaftOffset, Scale(ShaftLength, UnitZ)), UnitZ)
  {
  }

  /** `sdf_head` is the distance of the half ball. */
  lemma HeadIsHalfBall(position: Vec3, sqrt: real -> real)
    ensures SceneNode.WellFormed(HeadNode())
    ensures SdfHead(position, sqrt) == SceneNode.Distance(HeadNode(), position, sqrt)
  {
    var ball := SceneNode.Node.Sphere(HeadCenter, Identity(), HeadRadius);
    var cut := SceneNode.Node.Plane(HeadCenter, Scale(-1.0, UnitZ));
    SdfSphereIsSphere(position, HeadCenter, HeadRadius, sqrt);
    SdfPlaneIsPlane(position, HeadCenter, Scale(-1.0, UnitZ), sqrt);
    IntersectionOfTwo(ball, cut, position, sqrt);
  }

  /** `signed_distance_function` is the distance of the union of the three parts. */
  lemma SdfIsUnion(position: Vec3, sqrt: real -> real)
    ensures SceneNode.WellFormed(FigureNode())
    ensures Sdf(position, sqrt) == SceneNode.Distance(FigureNode(), position, sqrt)
  {
    BallsAreUnion(position, sqrt);
    ShaftIsCylinder(position, sqrt);
    HeadIsHalfBall(position, sqrt);
    UnionOfThree(BallsNode(), ShaftNode(), HeadNode(), position, sqrt);
  }

  /** The segment of the shaft's axis between its caps is inside (or on) the figure. */
  lemma ShaftAxisInside(t: real, sqrt: real -> real)
    requires IsSqrt(sqrt) && 0.0 <= t <= ShaftLength
    ensures Sdf(Vec3(0.0, 0.2, t), sqrt) <= 0.0
  {
    var p := Vec3(0.0, 0.2, t);
    assert SdfPlane(p, Zero, Vec3(0.0, 0.0, -1.0)) == -t;
    assert SdfPlane(p, Vec3(0.0, 0.0, 2.5), UnitZ) == t - 2.5;
    assert ShaftCylinder(p, sqrt) == -ShaftRadius by {
      var rRelative := Sub(p, ShaftOffset);
      assert rRelative == Vec3(0.0, 0.0, t);
      assert Scale(Dot(rRelative, UnitZ), UnitZ) == rRelative;
      assert Sub(rRelative, rRelative) == Zero;
      NormZero(sqrt);
    }
  }

  /** The centers of the balls are inside the figure, half a radius deep at least. */
  lemma BallCentersInside(sqrt: real -> real)
    requires IsSqrt(sqrt)
    ensures Sdf(LeftCenter, sqrt) <= -BallRadius && Sdf(RightCenter, sqrt) <= -BallRadius
  {
    assert SdfBalls(LeftCenter, sqrt) <= -BallRadius by {
      SdfSphereAtCenter(LeftCenter, BallRadius, sqrt);
    }
    assert SdfBalls(RightCenter, sqrt) <= -BallRadius by {
      SdfSphereAtCenter(RightCenter, BallRadius, sqrt);
    }
  }

  // ---------------------------------------------------------------- small unions and intersections at the origin

  lemma UnionOfTwo(a: SceneNode.Node, b: SceneNode.Node, p: Vec3, sqrt: real -> real)
    requires SceneNode.WellFormed(a) && SceneNode.WellFormed(b)
    ensures SceneNode.WellFormed(SceneNode.Node.Union([a, b], Zero, Identity()))
    ensures SceneNode.Distance(SceneNode.Node.Union([a, b], Zero, Identity()), p, sqrt)
         == MinMacro(SceneNode.Distance(a, p, sqrt), SceneNode.Distance(b, p, sqrt))
  {
    var node := SceneNode.Node.Union([a, b], Zero, Identity());
    SceneNode.DistanceUntransformed(node, p, sqrt);
    var ds := SceneNode.ChildDistances([a, b], p, sqrt);
    assert ds == [SceneNode.Distance(a, p, sqrt), SceneNode.Distance(b, p, sqrt)];
    assert ds[..1] == [ds[0]];
  }

  lemma UnionOfThree(a: SceneNode.Node, b: SceneNode.Node, c: SceneNode.Node, p: Vec3, sqrt: real -> real)
    requires SceneNode.WellFormed(a) && SceneNode.WellFormed(b) && SceneNode.WellFormed(c)
    ensures SceneNode.WellFormed(SceneNode.Node.Union([a, b, c], Zero, Identity()))
    ensures SceneNode.Distance(SceneNode.Node.Union([a, b, c], Zero, Identity()), p, sqrt)
         == MinMacro(SceneNode.Distance(a, p, sqrt), MinMacro(SceneNode.Distance(b, p, sqrt), SceneNode.Distance(c, p, sqrt)))
  {
    var node := SceneNode.Node.Union([a, b, c], Zero, Identity());
    SceneNode.DistanceUntransformed(node, p, sqrt);
    var ds := SceneNode.ChildDistances([a, b, c], p, sqrt);
    assert ds == [SceneNode.Distance(a, p, sqrt), SceneNode.Distance(b, p, sqrt), SceneNode.Distance(c, p, sqrt)];
    assert ds[..2] == [ds[0], ds[1]];
    assert ds[..2][..1] == [ds[0]];
  }

  lemma IntersectionOfTwo(a: SceneNode.Node, b: SceneNode.Node, p: Vec3, sqrt: real -> real)
    requires SceneNode.WellFormed(a) && SceneNode.WellFormed(b)
    ensures SceneNode.WellFormed(SceneNode.Node.Intersection([a, b], Zero, Identity()))
    ensures SceneNode.Distance(SceneNode.Node.Intersection([a, b], Zero, Identity()), p, sqrt)
         == MaxMacro(SceneNode.Distance(a, p, sqrt), SceneNode.Distance(b, p, sqrt))
  {
    var node := SceneNode.Node.Intersection([a, b], Zero, Identity());
    SceneNode.DistanceUntransformed(node, p, sqrt);
    var ds := SceneNode.ChildDistances([a, b], p, sqrt);
    assert ds == [SceneNode.Distance(a, p, sqrt), SceneNode.Distance(b, p, sqrt)];
    assert ds[..1] == [ds[0]];
  }

  /** The cylinder's parts come as cylinder, lower cap, upper cap; `max!` takes them as lower, upper, cylinder. */
  lemma IntersectionOfThree(a: SceneNode.Node, b: SceneNode.Node, c: SceneNode.Node, p: Vec3, sqrt: real -> real)
    requires SceneNode.WellFormed(a) && SceneNode.WellFormed(b) && SceneNode.WellFormed(c)
    ensures SceneNode.WellFormed(SceneNode.Node.Intersection([a, b, c], Zero, Identity()))
    ensures SceneNode.Distance(SceneNode.Node.Intersection([a, b, c], Zero, Identity()), p, sqrt)
         == MaxMacro(SceneNode.Distance(b, p, sqrt), MaxMacro(SceneNode.Distance(c, p, sqrt), SceneNode.Distance(a, p, sqrt)))
  {
    var node := SceneNode.Node.Intersection([a, b, c], Zero, Identity());
    SceneNode.DistanceUntransformed(node, p, sqrt);
    var ds := SceneNode.ChildDistances([a, b, c], p, sqrt);
    assert ds == [SceneNode.Distance(a, p, sqrt), SceneNode.Distance(b, p, sqrt), SceneNode.Distance(c, p, sqrt)];
    assert ds[..2] == [ds[0], ds[1]];
    assert ds[..2][..1] == [ds[0]];
  }
}
