/**
 * The scene graph behind `Box<dyn Object3D>`: every node has a center, an inverse orientation
 * matrix and a signed distance function in its own frame (`SDF_Centered`); its distance in the
 * world is the centered distance at `M * (p - c)` (the default method of `objects/mod.rs`).
 *
 * Leaves are spheres, planes and infinite cylinders; the operations combine the world distances
 * of their children, evaluated at the operation's local point; a compound object delegates
 * its center, orientation and centered distance to the root of its components.
 */
module SceneNode {
  import opened Math
  import opened UtilityFunctions

  datatype Node =
    | Sphere(center: Vec3, inverseOrientation: Mat3, radius: real)
      /** `r0` is a point of the plane and its center; `n` points into empty space. */
    | Plane(r0: Vec3, n: Vec3)
    | InfiniteCylinder(center: Vec3, inverseOrientation: Mat3, radius: real, shaftAxis: Vec3)
    | Union(objects: seq<Node>, center: Vec3, inverseOrientation: Mat3)
    | Intersection(objects: seq<Node>, center: Vec3, inverseOrientation: Mat3)
    | SoftUnion(objects: seq<Node>, center: Vec3, inverseOrientation: Mat3, smuEpsilon: real)
    | SoftIntersection(objects: seq<Node>, center: Vec3, inverseOrientation: Mat3, smuEpsilon: real)
      /** A `CompoundObject` (or a struct delegating by hand) around the root of its components. */
    | Compound(components: Node)

  /**
   * The cases that panic or divide by zero are excluded: `min_by`/`max_by` of no children
   * is `None` and is unwrapped, and an infinite cylinder divides by its axis' squared length.
   */
  predicate WellFormed(node: Node)
    decreases node, 1
  {
    match node
    case Sphere(_, _, _) => true
    case Plane(_, _) => true
    case InfiniteCylinder(_, _, _, axis) => axis != Zero
    case Union(objects, _, _) => |objects| >= 1 && AllWellFormed(objects)
    case Intersection(objects, _, _) => |objects| >= 1 && AllWellFormed(objects)
    case SoftUnion(objects, _, _, _) => AllWellFormed(objects)
    case SoftIntersection(objects, _, _, _) => AllWellFormed(objects)
    case Compound(components) => WellFormed(components)
  }

  predicate AllWellFormed(objects: seq<Node>)
    decreases objects, 0
  {
    forall k :: 0 <= k < |objects| ==> WellFormed(objects[k])
  }

  /** `get_center`; a plane's center is `r0`, a compound's that of its components. */
  function CenterOf(node: Node): Vec3 {
    match node
    case Sphere(c, _, _) => c
    case Plane(r0, _) => r0
    case InfiniteCylinder(c, _, _, _) => c
    case Union(_, c, _) => c
    case Intersection(_, c, _) => c
    case SoftUnion(_, c, _, _) => c
    case SoftIntersection(_, c, _, _) => c
    case Compound(components) => CenterOf(components)
  }

  /** `get_inverse_orientation_matrix`; a plane is never transformed, so its matrix is the identity. */
  function InverseOrientationOf(node: Node): Mat3 {
    match node
    case Sphere(_, m, _) => m
    case Plane(_, _) => Identity()
    case InfiniteCylinder(_, m, _, _) => m
    case Union(_, _, m) => m
    case Intersection(_, _, m) => m
    case SoftUnion(_, _, m, _) => m
    case SoftIntersection(_, _, m, _) => m
    case Compound(components) => InverseOrientationOf(components)
  }

  // ---------------------------------------------------------------- min_by and max_by

  /** `min_by(..).unwrap()` over the values. */
  function Minimum(ds: seq<real>): (m: real)
    requires |ds| >= 1
    ensures IsMinimum(ds, m)
  {
    if |ds| == 1 then ds[0]
    else
      var prefix := ds[..|ds| - 1];
      var m0 := Minimum(prefix);
      assert forall k :: 0 <= k < |ds| - 1 ==> ds[k] == prefix[k];
      MinOf(m0, ds[|ds| - 1])
  }

  /** `max_by(..).unwrap()` over the values. */
  function Maximum(ds: seq<real>): (m: real)
    requires |ds| >= 1
    ensures IsMaximum(ds, m)
  {
    if |ds| == 1 then ds[0]
    else
      var prefix := ds[..|ds| - 1];
      var m0 := Maximum(prefix);
      assert forall k :: 0 <= k < |ds| - 1 ==> ds[k] == prefix[k];
      MaxOf(m0, ds[|ds| - 1])
  }

  /** Adding a value on the end: the new minimum is the smaller of the old one and the value. */
  lemma MinimumAppend(ds: seq<real>, x: real)
    requires |ds| >= 1
    ensures Minimum(ds + [x]) == MinOf(Minimum(ds), x)
  {
    assert (ds + [x])[..|ds|] == ds;
  }

  lemma MaximumAppend(ds: seq<real>, x: real)
    requires |ds| >= 1
    ensures Maximum(ds + [x]) == MaxOf(Maximum(ds), x)
  {
    assert (ds + [x])[..|ds|] == ds;
  }

  // ---------------------------------------------------------------- distances

  /** `Object3D::signed_distance_function`: the centered distance at `M * (p - c)`. */
  function Distance(node: Node, p: Vec3, sqrt: real -> real): real
    requires WellFormed(node)
    decreases node, 1
  {
    Centered(node, MatVec(InverseOrientationOf(node), Sub(p, CenterOf(node))), sqrt)
  }

  /** `signed_distance_function_centered` of each kind of node. */
  function Centered(node: Node, q: Vec3, sqrt: real -> real): real
    requires WellFormed(node)
    decreases node, 0
  {
    match node
    case Sphere(_, _, radius) => Norm(q, sqrt) - radius
    case Plane(_, n) => Dot(q, n)
    case InfiniteCylinder(_, _, radius, axis) =>
      NonZeroHasLength(axis);
      Norm(Sub(q, Proj(axis, q)), sqrt) - radius
    case Union(objects, _, _) => Minimum(ChildDistances(objects, q, sqrt))
    case Intersection(objects, _, _) => Maximum(ChildDistances(objects, q, sqrt))
    case SoftUnion(objects, _, _, epsilon) =>
      var best := BestTwo(ChildDistances(objects, q, sqrt), true);
      -SmoothMaximumUnit(-best.0, -best.1, epsilon, sqrt)
    case SoftIntersection(objects, _, _, epsilon) =>
      var best := BestTwo(ChildDistances(objects, q, sqrt), false);
      SmoothMaximumUnit(best.0, best.1, epsilon, sqrt)
    case Compound(components) => Centered(components, q, sqrt)
  }

  /** The world distance of every child at `p`, in order (the `map` before the reduction). */
  function ChildDistances(objects: seq<Node>, p: Vec3, sqrt: real -> real): (r: seq<real>)
    requires AllWellFormed(objects)
    decreases objects, 2
    ensures |r| == |objects|
    ensures forall k :: 0 <= k < |objects| ==> r[k] == Distance(objects[k], p, sqrt)
  {
    if objects == [] then []
    else
      var prefix := objects[..|objects| - 1];
      assert forall k :: 0 <= k < |prefix| ==> prefix[k] == objects[k];
      ChildDistances(prefix, p, sqrt) + [Distance(objects[|objects| - 1], p, sqrt)]
  }

  /** Appending a child appends its distance. */
  lemma ChildDistancesAppend(objects: seq<Node>, o: Node, p: Vec3, sqrt: real -> real)
    requires AllWellFormed(objects) && WellFormed(o)
    ensures AllWellFormed(objects + [o])
    ensures ChildDistances(objects + [o], p, sqrt) == ChildDistances(objects, p, sqrt) + [Distance(o, p, sqrt)]
  {
    assert (objects + [o])[..|objects|] == objects;
  }

  // ---------------------------------------------------------------- moving a node

  /** The node after `*get_center_mut() = c`: only the center changes. */
  function WithCenter(node: Node, c: Vec3): (r: Node)
    ensures CenterOf(r) == c && InverseOrientationOf(r) == InverseOrientationOf(node)
    ensures WellFormed(node) ==> WellFormed(r)
  {
    match node
    case Sphere(_, m, radius) => Sphere(c, m, radius)
    case Plane(_, n) => Plane(c, n)
    case InfiniteCylinder(_, m, radius, axis) => InfiniteCylinder(c, m, radius, axis)
    case Union(objects, _, m) => Union(objects, c, m)
    case Intersection(objects, _, m) => Intersection(objects, c, m)
    case SoftUnion(objects, _, m, epsilon) => SoftUnion(objects, c, m, epsilon)
    case SoftIntersection(objects, _, m, epsilon) => SoftIntersection(objects, c, m, epsilon)
    case Compound(components) => Compound(WithCenter(components, c))
  }

  /** Every node but a plane, or a compound around one, carries an orientation matrix. */
  predicate HasOrientation(node: Node) {
    match node
    case Plane(_, _) => false
    case Compound(components) => HasOrientation(components)
    case _ => true
  }

  /**
   * The node after `*get_inverse_orientation_matrix_mut() = m`. A plane has no matrix (its
   * normal is rotated instead) and stays as it is.
   */
  function WithInverseOrientation(node: Node, m: Mat3): (r: Node)
    ensures CenterOf(r) == CenterOf(node)
    ensures HasOrientation(node) ==> InverseOrientationOf(r) == m
    ensures WellFormed(node) ==> WellFormed(r)
  {
    match node
    case Sphere(c, _, radius) => Sphere(c, m, radius)
    case Plane(_, _) => node
    case InfiniteCylinder(c, _, radius, axis) => InfiniteCylinder(c, m, radius, axis)
    case Union(objects, c, _) => Union(objects, c, m)
    case Intersection(objects, c, _) => Intersection(objects, c, m)
    case SoftUnion(objects, c, _, epsilon) => SoftUnion(objects, c, m, epsilon)
    case SoftIntersection(objects, c, _, epsilon) => SoftIntersection(objects, c, m, epsilon)
    case Compound(components) => Compound(WithInverseOrientation(components, m))
  }

  /** Moving a node leaves its centered distance as it was. */
  lemma {:induction false} WithCenterCentered(node: Node, c: Vec3, q: Vec3, sqrt: real -> real)
    requires WellFormed(node)
    ensures Centered(WithCenter(node, c), q, sqrt) == Centered(node, q, sqrt)
  {
    if node.Compound? {
      WithCenterCentered(node.components, c, q, sqrt);
    }
  }

  // ---------------------------------------------------------------- the world-to-local transform

  /** A node at the origin with the identity orientation measures in world coordinates. */
  lemma DistanceUntransformed(node: Node, p: Vec3, sqrt: real -> real)
    requires WellFormed(node) && CenterOf(node) == Zero && InverseOrientationOf(node) == Identity()
    ensures Distance(node, p, sqrt) == Centered(node, p, sqrt)
  {
    assert Sub(p, Zero) == p;
    MatVecIdentity(p);
  }

  /** Shifting the center and the query point by the same `v` leaves the distance unchanged. */
  lemma DistanceTranslated(node: Node, p: Vec3, v: Vec3, sqrt: real -> real)
    requires WellFormed(node)
    ensures Distance(WithCenter(node, Add(CenterOf(node), v)), Add(p, v), sqrt) == Distance(node, p, sqrt)
  {
    var moved := WithCenter(node, Add(CenterOf(node), v));
    assert Sub(Add(p, v), Add(CenterOf(node), v)) == Sub(p, CenterOf(node));
    WithCenterCentered(node, Add(CenterOf(node), v), MatVec(InverseOrientationOf(node), Sub(p, CenterOf(node))), sqrt);
  }

  /** At its own center a node's distance is its centered distance at the origin, whatever its orientation. */
  lemma DistanceAtCenter(node: Node, sqrt: real -> real)
    requires WellFormed(node)
    ensures Distance(node, CenterOf(node), sqrt) == Centered(node, Zero, sqrt)
  {
    assert Sub(CenterOf(node), CenterOf(node)) == Zero;
    MatVecZero(InverseOrientationOf(node));
  }

  // ---------------------------------------------------------------- compound objects

  /** A compound's world distance is its components' world distance. */
  lemma CompoundDistance(components: Node, p: Vec3, sqrt: real -> real)
    requires WellFormed(components)
    ensures Distance(Compound(components), p, sqrt) == Distance(components, p, sqrt)
  {
  }
}
