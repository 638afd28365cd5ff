# spinner, modelled in Dafny

`spinner` renders a figure in the terminal by sphere tracing. Each frame, a camera casts one
ray per character cell. Each ray is marched along a signed distance function until it comes
close to the surface or runs away. The cell then gets a character from a brightness ramp that
depends on the angle between the surface normal and the ray. The figure is built as a scene
graph:

- leaves: spheres, planes and infinite cylinders;
- operations: unions, intersections, and their smooth variants, which blend the two nearest
  (or farthest) children with the smooth maximum unit;
- compound objects: a bounded cylinder and a cuboid, each delegating to an operation;
- the stateless `PP` figure, written as one hand-made distance function.

Every object has a center and an inverse orientation matrix. Its distance in the world is its
centered distance at `M * (p - c)`.

This project models that core:

- `math.dfy` (`Math`): vectors, 3x3 matrices, the projection, normalisation and
  `matrix_from_columns`.
- `gram_schmidt.dfy` (`GramSchmidt`): the Gram-Schmidt orthogonalisation. It processes the
  columns cyclically from a pivot, updates the column list in place, then normalises.
- `utility_functions.dfy` (`UtilityFunctions`): the smooth maximum unit, and the fold keeping
  the two smallest (or largest) child distances. `legacy_utility_functions.dfy` models the
  older, min-only fold.
- `scene_node.dfy` (`SceneNode`): the scene graph as a recursive datatype. It holds the world
  distance `Distance`, the per-kind centered distance `Centered`, and the effect of moving or
  rotating a node.
- One module per object file:
  - leaves: `spheres.dfy`, `planes.dfy`, `infinite_cylinders.dfy`;
  - operations: `unions.dfy`, `intersections.dfy`, `soft_unions.dfy`,
    `soft_intersections.dfy`;
  - older operations: `legacy_unions.dfy`, `legacy_intersections.dfy`,
    `legacy_soft_unions.dfy`;
  - compound objects: `cylinders.dfy`, `cuboids.dfy`, `compound_cuboids.dfy`.

  Each struct whose center and matrix are handed out as `&mut` is a class with those fields.
  Its setters state exactly what changes. `AsNode` gives its value in the scene graph.
- `pp.dfy` (`PP`): the `PP` figure. Lemmas show that each hand-written part is the scene node
  it imitates.
- `scene.dfy` (`Scene`): the camera ray, the march (as a loop and as a function, with a
  characterisation of when it hits, misses or runs out of steps), and the shading.
- `terminal.dfy` (`Terminal`) and `main_loop.dfy` (`MainLoop`): the screen buffer as a 2D
  array whose border is drawn once. The render loop writes only the interior cells.

Modelling choices:

- `f32` is modelled as `real`.
- The square root (nalgebra's `norm`) is a parameter `sqrt: real -> real`. Lemmas that need
  it to be a square root require `IsSqrt(sqrt)`: `sqrt(x) >= 0` and `sqrt(x) * sqrt(x) == x`
  for `x >= 0`.
- `f32::MAX`, the fold's starting value, is the named constant `MaxF32`.
- A call that panics is excluded by a precondition (`WellFormed`), or becomes an error
  result:
  - `unwrap` of an empty `min_by`/`max_by`;
  - the `assert!` in the Gram-Schmidt routine;
  - a division by a zero length.

The march in `compute_intersection` (src/scene.rs:31-56) decides at the current point only:

- a distance below `0.003`, negative ones included, is a hit, so a camera inside the figure
  sees a hit at once;
- a distance above `7.0` at the current point is a miss;
- no travelled distance is accumulated, and there is no cap on the number of steps.

## Model

| member | source | states |
|---|---|---|
| Math.Normalise | src/math.rs:12-16 | `v / |v|`; the zero vector is returned as it is (see "Left out"). `Math.NormaliseUnit` and `Math.NormaliseOfUnit` state what it yields |
| Math.NormaliseUnit | src/math.rs:12-16 | normalising a non-zero vector divides it by its norm; the result has length 1 |
| Math.NormaliseOfUnit | src/math.rs:12-16 | normalising a vector of length 1 returns it unchanged |
| Math.Proj | src/math.rs:27-29 | needs `u.u != 0`; `v - proj(u, v)` is orthogonal to `u` |
| Math.DotProj | src/math.rs:27-29 | `w . proj(u, v) = (u.v / u.u) (w.u)` |
| Math.ProjOntoUnit | src/math.rs:27-29 | onto a unit vector, the projection is `(v.u) u` |
| Math.MatrixFromColumns | src/math.rs:56-58 | `columns[i]` becomes column `i` of the matrix |
| Math.MatrixFromColumnsDiagonalSquare | src/math.rs:85-88 | with columns `2 e_x, 2 e_y, 2 e_z`, `A * A == 2 A` |
| GramSchmidt.ProjectionSumOrthogonal | src/math.rs:41-49 | a vector orthogonal to every earlier output is orthogonal to the sum of projections on them |
| GramSchmidt.ProjectionSumComponent | src/math.rs:41-49 | against mutually orthogonal earlier outputs, the sum of projections has the same component along each of them as the current column |
| GramSchmidt.ProjectionSumOfOrthogonal | src/math.rs:41-49 | a column already orthogonal to the earlier outputs has nothing subtracted |
| GramSchmidt.Processed | src/math.rs:39-51 | after `i` steps, with no zero column met, there are `i` outputs, none of zero length |
| GramSchmidt.ProcessedOrthogonal | src/math.rs:39-51 | the outputs before normalisation are pairwise orthogonal |
| GramSchmidt.ProcessedPivot | src/math.rs:39-50 | the pivot column, processed first, has nothing subtracted |
| GramSchmidt.WrittenSlot | src/math.rs:40-50 | after `i` steps, the slot `(x + first) % 3` holds the `x`-th output when `x < i`, and is still the input column otherwise |
| GramSchmidt.WrittenStep | src/math.rs:50 | one step overwrites exactly the slot `(i + first) % 3` of the column list |
| GramSchmidt.NormaliseAll | src/math.rs:52 | every column is replaced by its normalisation, in order |
| GramSchmidt.NormaliseAllOrthonormal | src/math.rs:52 | normalising pairwise orthogonal non-zero columns gives pairwise orthogonal unit columns |
| GramSchmidt.GramSchmidtResult | src/math.rs:32-54 | what the routine returns: `FirstElementOutOfRange` for a pivot above 2, `DegenerateColumn` when a processed column is zero, otherwise the matrix of the processed columns, each normalised. `GramSchmidt.GramSchmidtOrthonormal` states its meaning |
| GramSchmidt.GramSchmidtOrthogonalization | src/math.rs:32-54 | the loop computes `GramSchmidtResult`; it fails with `FirstElementOutOfRange` exactly when `first_element > 2` |
| GramSchmidt.GramSchmidtOrthonormal | src/math.rs:30-54 | a successful result is orthonormal, and its pivot column is the normalised input pivot (the direction of the first element is kept) |
| GramSchmidt.GramSchmidtOfOrthogonal | src/math.rs:30-54 | an input with pairwise orthogonal non-zero columns is only normalised, whatever the pivot |
| GramSchmidt.GramSchmidtDiagonal | src/math.rs:90-97 | a diagonal matrix with positive entries maps to the identity, for every pivot |
| GramSchmidt.GramSchmidtIdentityTest | src/math.rs:90-93 | the identity with pivot 0 maps to the identity |
| GramSchmidt.GramSchmidtScaledIdentity | src/math.rs:95-97 | `k I` with `k > 0` maps to the identity, for every pivot |
| GramSchmidt.GramSchmidtTwiceIdentityTest | src/math.rs:95-97 | `2 I` with pivot 1 maps to the identity |
| UtilityFunctions.SmoothMaximumUnit | src/objects/operations/utility_functions.rs:4-6 | `(a + b + sqrt((a - b)^2 + epsilon)) / 2`. The `SmoothMaximumUnit…` lemmas give its symmetry, its value `max(a, b)` at `epsilon = 0`, and its bounds |
| UtilityFunctions.SmoothMaximumUnitSymmetric | src/objects/operations/utility_functions.rs:4-6 | the smooth maximum unit is symmetric in `a` and `b`; the older copy in `src/objects/utility_functions.rs` has the same formula and is modelled by the same function |
| UtilityFunctions.SmoothMaximumUnitOfZero | src/objects/operations/utility_functions.rs:2-6 | with `epsilon = 0` it is `max(a, b)` |
| UtilityFunctions.SmoothMaximumUnitAtLeastMax | src/objects/operations/utility_functions.rs:2-6 | for `epsilon >= 0` it is at least `max(a, b)` |
| UtilityFunctions.SmoothMaximumUnitAtMost | src/objects/operations/utility_functions.rs:2-6 | for `epsilon >= 0` it is at most `max(a, b) + sqrt(epsilon) / 2` |
| UtilityFunctions.BestTwoDistances | src/objects/operations/utility_functions.rs:11-45 | the loop with the two accumulators computes `BestTwo` of the distances in either mode |
| UtilityFunctions.BestTwoStep | src/objects/operations/utility_functions.rs:27-38 | the fold's closure: a distance below the best displaces it and the old best becomes the second; a distance between the two displaces the second; otherwise the pair is unchanged |
| UtilityFunctions.FoldBestTwo | src/objects/operations/utility_functions.rs:25-39 | the fold from `(f32::MAX, f32::MAX)` over the distances, left to right. `UtilityFunctions.FoldBestTwoCorrect` states what it yields |
| UtilityFunctions.FoldBestTwoOrdered | src/objects/operations/utility_functions.rs:25-39 | after any number of steps from `(MAX, MAX)`, `best <= second_best` |
| UtilityFunctions.FoldBestTwoCorrect | src/objects/operations/utility_functions.rs:25-39 | if all distances are at most `MAX`: with none, `(MAX, MAX)`; otherwise `best` is the minimum and nothing else lies below `second_best`; with one distance, `second_best` is `MAX`; with two or more, both values occur at different positions. The older soft union's inline fold (`src/objects/soft_union.rs`, lines 44-62) is the same closure and is modelled by the same function |
| UtilityFunctions.BestTwo | src/objects/operations/utility_functions.rs:11-45 | `best_two_distances` on the children's distances: in min mode the fold itself; in max mode the fold of the negated distances, negated back. `BestTwoSmallest` and `BestTwoLargest` state its meaning |
| UtilityFunctions.BestTwoOrdered | src/objects/operations/utility_functions.rs:16-44 | in min mode `first <= second`; in max mode `first >= second` |
| UtilityFunctions.BestTwoMinimum | src/objects/operations/utility_functions.rs:16-41 | in min mode, with at least one object, `best` is the minimum child distance |
| UtilityFunctions.BestTwoSmallest | src/objects/operations/utility_functions.rs:31-36 | with at least two objects, the pair is the smallest and the second-smallest, counting duplicates |
| UtilityFunctions.BestTwoTie | src/objects/operations/utility_functions.rs:31-36 | `best == second_best` exactly when the minimum occurs twice |
| UtilityFunctions.BestTwoEmpty | src/objects/operations/utility_functions.rs:26-44 | with no objects the result is `(MAX, MAX)` in min mode and `(-MAX, -MAX)` in max mode |
| UtilityFunctions.BestTwoSingleMin | src/objects/operations/utility_functions.rs:26-41 | with one object in min mode, `second_best` stays at `MAX` |
| UtilityFunctions.BestTwoSingleMax | src/objects/operations/utility_functions.rs:26-44 | with one object in max mode, the second value is `-MAX` |
| UtilityFunctions.BestTwoLargest | src/objects/operations/utility_functions.rs:18-44 | in max mode (negate, select, negate), with at least two objects, the pair is the largest and second-largest, `first >= second` |
| UtilityFunctions.BestTwoMaximum | src/objects/operations/utility_functions.rs:18-44 | in max mode, with at least one object, the first value is the maximum |
| LegacyUtilityFunctions.BestTwoDistances | src/objects/utility_functions.rs:8-28 | the older min-only fold returns exactly the min-mode result of the newer one, ties included |
| LegacyUtilityFunctions.BestTwoDistancesCorrect | src/objects/utility_functions.rs:11-27 | for a non-empty list: `best <= second_best`; `best` is the minimum; `second_best` is `MAX` for one child, else the second-smallest counting duplicates |
| SceneNode.WellFormed | src/objects/operations/union.rs:36-42 | the nodes whose distance is defined. A union or intersection needs at least one child, because the `unwrap` of `min_by`/`max_by` (here and at src/objects/operations/intersection.rs:37-43) panics on none. An infinite cylinder needs a non-zero axis, because its distance divides by the axis' squared length. The condition holds recursively for every child |
| SceneNode.Minimum | src/objects/operations/union.rs:36-42 | `min_by(..).unwrap()` of a non-empty list is one of its values and is at most every value |
| SceneNode.Maximum | src/objects/operations/intersection.rs:36-43 | `max_by(..).unwrap()` of a non-empty list is one of its values and is at least every value |
| SceneNode.Distance | src/objects/mod.rs:14-20 | the default `signed_distance_function`: the node's centered distance at `M * (p - c)`, with `c` its center and `M` its inverse orientation matrix. `DistanceUntransformed`, `DistanceTranslated`, `DistanceAtCenter` and `CompoundDistance` state its properties |
| SceneNode.Centered | src/objects/mod.rs:22-27 | `signed_distance_function_centered` of each kind of node. A sphere gives `|q| - r`, a plane `q . n`, an infinite cylinder `|q - proj_a(q)| - r`. A union gives the minimum of its children's world distances at `q`, an intersection the maximum. The soft operations give the smooth maximum unit of the best two. A compound gives the centered distance of its components |
| SceneNode.ChildDistances | src/objects/operations/union.rs:38-40 | one distance per child, in order: the `k`-th is child `k`'s world distance |
| SceneNode.WithCenter | src/objects/mod.rs:9-12 | moving a node sets its center and keeps its orientation and well-formedness |
| SceneNode.WithInverseOrientation | src/objects/mod.rs:9-12 | rotating a node keeps its center, sets its matrix (every node but a plane has one) and keeps well-formedness |
| SceneNode.WithCenterCentered | src/objects/mod.rs:14-19 | moving a node does not change its centered distance |
| SceneNode.DistanceUntransformed | src/objects/mod.rs:15-19 | with `M = I` and `c = 0`, world distance equals centered distance |
| SceneNode.DistanceTranslated | src/objects/mod.rs:17 | shifting the center and the query point by the same `v` leaves the distance unchanged |
| SceneNode.DistanceAtCenter | src/objects/mod.rs:17 | at `p = c` the distance is the centered distance at the origin, for any `M` |
| SceneNode.CompoundDistance | src/objects/compound_objects/mod.rs:15-30 | a compound object's world distance is its components' world distance (same center, matrix and centered distance) |
| Spheres.Sphere.New | src/objects/sphere.rs:12-18 | stores the center and radius, with the identity inverse orientation |
| Spheres.Sphere.SetCenter | src/objects/sphere.rs:36-38 | a write through `get_center_mut` changes the center only |
| Spheres.Sphere.SetInverseOrientationMatrix | src/objects/sphere.rs:39-41 | a write through the matrix accessor changes the matrix only |
| Spheres.CenteredAtLeastMinusRadius | src/objects/sphere.rs:22-24 | the centered distance `abs(p) - r` is at least `-r`, with equality at `p = 0` |
| Spheres.SurfaceIsAtRadius | src/objects/sphere.rs:22-24 | the distance is zero exactly when the local point is at distance `r` from the center |
| Spheres.DistanceAtCenter | src/objects/sphere.rs:22-24 | at its center a sphere's distance is `-r` |
| Planes.Plane.New | src/objects/plane.rs:3-8 | a plane is a point `r0` (its center) and a normal `n` |
| Planes.Plane.RotatableVectors | src/objects/plane.rs:21-24 | only `n` is rotatable; `r0` is not rotated |
| Planes.Plane.SetCenter | src/objects/plane.rs:10-14 | a write through `get_center` changes `r0` only |
| Planes.Plane.SetNormal | src/objects/plane.rs:21-24 | a write through the rotatable vector changes `n` only |
| Planes.PlaneDistance | src/objects/plane.rs:15-19 | the distance is `(p - r0) . n` |
| Planes.PlaneThroughCenter | src/objects/plane.rs:15-19 | the distance at `r0` is 0 |
| Planes.PlaneAlongNormal | src/objects/plane.rs:6-17 | at `r0 + t n` the distance is `t abs(n)^2`; for non-zero `n` it is positive exactly on the normal's side (`t > 0`) |
| Planes.PlaneTranslated | src/objects/plane.rs:10-17 | moving `r0` by `v` and querying at `p + v` gives the same value |
| InfiniteCylinders.InfiniteCylinder.New | src/objects/infinite_cylinder.rs:12-19 | stores center, radius and axis, with the identity inverse orientation |
| InfiniteCylinders.InfiniteCylinder.SetCenter | src/objects/infinite_cylinder.rs:40-42 | changes the center only |
| InfiniteCylinders.InfiniteCylinder.SetInverseOrientationMatrix | src/objects/infinite_cylinder.rs:43-45 | changes the matrix only |
| InfiniteCylinders.Radial | src/objects/infinite_cylinder.rs:24-25 | `p - (p.a / abs(a)^2) a` is orthogonal to the axis `a` |
| InfiniteCylinders.CenteredIsRadial | src/objects/infinite_cylinder.rs:22-28 | the centered distance is the length of the radial part less the radius |
| InfiniteCylinders.RadialAlongAxis | src/objects/infinite_cylinder.rs:24-25 | moving `p` along the axis does not change its radial part |
| InfiniteCylinders.CenteredAlongAxis | src/objects/infinite_cylinder.rs:22-28 | the distance is unchanged when `p` moves to `p + t a` |
| InfiniteCylinders.RadialScaledAxis | src/objects/infinite_cylinder.rs:25 | scaling the axis by a non-zero `k` does not change the radial part |
| InfiniteCylinders.CenteredScaledAxis | src/objects/infinite_cylinder.rs:22-28 | scaling the axis by a non-zero `k` leaves the distance unchanged |
| InfiniteCylinders.CenteredOnAxis | src/objects/infinite_cylinder.rs:22-28 | points on the axis, the origin included, have distance `-radius` |
| InfiniteCylinders.UnitAxisDistance | src/objects/infinite_cylinder.rs:22-28 | with a unit axis and no rotation, the distance is `abs((p - c) - ((p - c).a) a) - radius` |
| Cylinders.CylinderParts | src/objects/cylinder.rs:10-21 | the three children of `Cylinder::new`, in order: the infinite cylinder through the base center, `Plane(base, -axis)`, and `Plane(base + height * axis, axis)` |
| Cylinders.CylinderPartsWellFormed | src/objects/cylinder.rs:8-23 | the three parts are well formed exactly when the axis is not the zero vector |
| Cylinders.Cylinder.New | src/objects/cylinder.rs:8-23 | the root is an Intersection of exactly: the infinite cylinder, `Plane(base, -axis)`, `Plane(base + h axis, axis)`, in that order; it sits at the origin with the identity |
| Cylinders.Cylinder.GetCenter | src/objects/cylinder.rs:32-35 | the center is the Intersection's |
| Cylinders.Cylinder.GetInverseOrientationMatrix | src/objects/cylinder.rs:36-38 | the matrix is the Intersection's |
| Cylinders.Cylinder.SignedDistanceFunctionCentered | src/objects/cylinder.rs:26-30 | the centered distance is the largest of the parts' distances: at least each, equal to one |
| Cylinders.Cylinder.SetCenter | src/objects/cylinder.rs:40-43 | the write lands in the Intersection's center only |
| Cylinders.Cylinder.SetInverseOrientationMatrix | src/objects/cylinder.rs:44-46 | the write lands in the Intersection's matrix only |
| Cylinders.AxisPointDistances | src/objects/cylinder.rs:10-21 | at `base + t axis` the parts' distances are `-radius`, `-t abs(axis)^2`, `(t - h) abs(axis)^2` |
| Cylinders.AxisPointCentered | src/objects/cylinder.rs:26-30 | on the axis the cylinder's distance is the maximum of those three |
| Cylinders.AxisSegmentInside | src/objects/cylinder.rs:8-29 | with `radius >= 0`, the axis between the caps is inside or on the cylinder |
| Cylinders.AxisBeyondCapsOutside | src/objects/cylinder.rs:8-29 | the axis beyond either cap is outside |
| Unions.Union.FromObjects | src/objects/operations/union.rs:9-15 | keeps the children in order, at the origin with the identity |
| Unions.Union.SignedDistanceFunctionCentered | src/objects/operations/union.rs:35-42 | the minimum of the children's distances: at most each, equal to one |
| Unions.Union.SetCenter | src/objects/operations/union.rs:27-29 | changes the center only; the children and matrix stay |
| Unions.Union.SetInverseOrientationMatrix | src/objects/operations/union.rs:30-32 | changes the matrix only |
| Unions.EmptyUnionPanics | src/objects/operations/union.rs:41 | a union with no children is not well formed (`unwrap` of `None`) |
| Unions.UnionAppend | src/objects/operations/union.rs:35-42 | appending a child never increases the distance |
| Intersections.Intersection.FromObjects | src/objects/operations/intersection.rs:10-16 | keeps the children, at the origin with the identity |
| Intersections.Intersection.FromObjectsDefault | src/objects/operations/intersection.rs:46-50 | builds the same object as `from_objects` |
| Intersections.Intersection.SignedDistanceFunctionCentered | src/objects/operations/intersection.rs:36-44 | the maximum of the children's distances: at least each, equal to one |
| Intersections.Intersection.SetCenter | src/objects/operations/intersection.rs:28-30 | changes the center only |
| Intersections.Intersection.SetInverseOrientationMatrix | src/objects/operations/intersection.rs:31-33 | changes the matrix only |
| Intersections.EmptyIntersectionPanics | src/objects/operations/intersection.rs:42 | an intersection with no children is not well formed |
| Intersections.IntersectionAppend | src/objects/operations/intersection.rs:36-44 | appending a child never decreases the distance |
| SoftUnions.SoftUnion.FromObjects | src/objects/operations/soft_union.rs:13-21 | stores the children and epsilon, at the origin with the identity |
| SoftUnions.SoftUnion.SetCenter | src/objects/operations/soft_union.rs:33-35 | changes the center only |
| SoftUnions.SoftUnion.SetInverseOrientationMatrix | src/objects/operations/soft_union.rs:36-38 | changes the matrix only |
| SoftUnions.SoftUnionBlendsSmallestTwo | src/objects/operations/soft_union.rs:41-51 | with two or more children the distance is `-smu(-b, -s, epsilon)` for the smallest and second-smallest child distances `b`, `s` |
| SoftUnions.SoftUnionAtMostUnion | src/objects/operations/soft_union.rs:46-50 | for `epsilon >= 0` the result is at most the hard union, and at most every child |
| SoftUnions.SoftUnionOfZero | src/objects/operations/soft_union.rs:46-50 | with `epsilon = 0` it equals the hard union (the smallest child distance) |
| SoftIntersections.SoftIntersection.FromObjects | src/objects/operations/soft_intersection.rs:11-18 | stores the children and epsilon, at the origin with the identity |
| SoftIntersections.SoftIntersection.SetCenter | src/objects/operations/soft_intersection.rs:30-32 | changes the center only |
| SoftIntersections.SoftIntersection.SetInverseOrientationMatrix | src/objects/operations/soft_intersection.rs:33-35 | changes the matrix only |
| SoftIntersections.SoftIntersectionBlendsLargestTwo | src/objects/operations/soft_intersection.rs:38-47 | with two or more children the distance is `smu(b, s, epsilon)` for the largest and second-largest child distances |
| SoftIntersections.SoftIntersectionAtLeastIntersection | src/objects/operations/soft_intersection.rs:42-46 | for `epsilon >= 0` the result is at least the hard intersection, and at least every child |
| SoftIntersections.SoftIntersectionOfZero | src/objects/operations/soft_intersection.rs:42-46 | with `epsilon = 0` it equals the hard intersection |
| LegacyUnions.Union.FromObjects | src/objects/union.rs:10-16 | keeps the children, at the origin with the identity `orientation_matrix` |
| LegacyUnions.Union.GetInverseOrientationMatrix | src/objects/union.rs:23-25 | returns the stored `orientation_matrix` field unchanged |
| LegacyUnions.Union.SignedDistanceFunctionCentered | src/objects/union.rs:36-43 | the minimum over the children, which must be non-empty |
| LegacyUnions.Union.SetCenter | src/objects/union.rs:28-30 | changes the center only; the matrix and children stay |
| LegacyUnions.Union.SetInverseOrientationMatrix | src/objects/union.rs:31-33 | changes the matrix only |
| LegacyIntersections.Intersection.FromObjects | src/objects/intersection.rs:10-16 | keeps the children, at the origin with the identity |
| LegacyIntersections.Intersection.GetOrientationMatrix | src/objects/intersection.rs:23-25 | returns the stored matrix |
| LegacyIntersections.Intersection.SignedDistanceFunctionCentered | src/objects/intersection.rs:36-43 | the maximum over the children, which must be non-empty |
| LegacyIntersections.Intersection.SignedDistanceFunction | src/objects/intersection.rs:45 | the world distance is the default method's: the maximum evaluated at `M (p - c)` |
| LegacyIntersections.Intersection.SetCenter | src/objects/intersection.rs:28-30 | changes the center only |
| LegacyIntersections.Intersection.SetOrientationMatrix | src/objects/intersection.rs:31-33 | changes the matrix only |
| LegacySoftUnions.SoftUnion.FromObjects | src/objects/soft_union.rs:13-20 | stores the children and the smoothing, at the origin with the identity |
| LegacySoftUnions.SoftUnion.SignedDistanceFunctionCentered | src/objects/soft_union.rs:41-64 | the fold followed by `best - smoothing / second_best`, given `second_best != 0` |
| LegacySoftUnions.SoftUnion.SetCenter | src/objects/soft_union.rs:32-34 | changes the center only |
| LegacySoftUnions.SoftUnion.SetInverseOrientationMatrix | src/objects/soft_union.rs:35-37 | changes the matrix only |
| LegacySoftUnions.SoftUnionDistance | src/objects/soft_union.rs:63 | `best - smoothing_parameter / second_best`, over the fold's pair, defined when `second_best` is not zero |
| LegacySoftUnions.SoftUnionDistanceOfZero | src/objects/soft_union.rs:63 | with smoothing 0 the result is the smallest child distance |
| LegacySoftUnions.SoftUnionDistanceBelowMinimum | src/objects/soft_union.rs:63 | with smoothing `> 0` and `second_best > 0` the result is strictly below the smallest child distance |
| Cuboids.CuboidSmoothing | src/objects/cuboid.rs:9-13 | the smoothing is `max(side_a, side_b, side_c) / 100` |
| Cuboids.CuboidPlanes | src/objects/cuboid.rs:16-23 | the six faces of `Cuboid::new`, in order `-x`, `+x`, `-y`, `+y`, `-z`, `+z`, each at half its side from the origin with an outward unit normal |
| Cuboids.FaceLayout | src/objects/cuboid.rs:17-22 | six planes in the order `-x, +x, -y, +y, -z, +z`, each at half its side along its outward unit normal |
| Cuboids.CuboidPlanesWellFormed | src/objects/cuboid.rs:15-23 | the six planes are well formed |
| Cuboids.FaceDistanceAtCenter | src/objects/cuboid.rs:17-22 | each plane's distance at the origin is minus half its side |
| Cuboids.CenterBehindEveryFace | src/objects/cuboid.rs:17-22 | for positive sides the origin is behind every face |
| Cuboids.CuboidAtLeastEveryFace | src/objects/cuboid.rs:15-33 | the cuboid's smooth distance is at least every face's distance |
| Cuboids.Cuboid.New | src/objects/cuboid.rs:8-27 | the root is a SoftIntersection of the six planes with that smoothing, at the origin with the identity |
| Cuboids.Cuboid.SignedDistanceFunctionCentered | src/objects/cuboid.rs:30-34 | the smooth maximum unit of the two largest face distances; with a non-negative smoothing it is at least every face's distance |
| Cuboids.Cuboid.GetCenter | src/objects/cuboid.rs:37-39 | the SoftIntersection's center |
| Cuboids.Cuboid.GetInverseOrientationMatrix | src/objects/cuboid.rs:40-42 | the SoftIntersection's matrix |
| Cuboids.Cuboid.SetCenter | src/objects/cuboid.rs:45-47 | the write lands in the SoftIntersection's center only |
| Cuboids.Cuboid.SetInverseOrientationMatrix | src/objects/cuboid.rs:48-50 | the write lands in the SoftIntersection's matrix only |
| CompoundCuboids.Cuboid.New | src/objects/compound_objects/cuboid.rs:8-27 | the same six planes and smoothing, at the origin with the identity |
| CompoundCuboids.Cuboid.GetComponents | src/objects/compound_objects/cuboid.rs:30-36 | returns the SoftIntersection it holds; the mutable accessor returns the same node |
| CompoundCuboids.Cuboid.SignedDistanceFunctionCentered | src/objects/compound_objects/mod.rs:15-18 | the components' centered distance |
| CompoundCuboids.Cuboid.GetCenter | src/objects/compound_objects/mod.rs:25-27 | the components' center |
| CompoundCuboids.Cuboid.GetInverseOrientationMatrix | src/objects/compound_objects/mod.rs:28-30 | the components' matrix |
| CompoundCuboids.Cuboid.SetCenter | src/objects/compound_objects/mod.rs:37-39 | the write through `get_center_mut` changes exactly the components' center; `get_center` then returns it |
| CompoundCuboids.Cuboid.SetInverseOrientationMatrix | src/objects/compound_objects/mod.rs:40-43 | the write changes exactly the components' matrix |
| CompoundCuboids.CompoundCuboidDistance | src/objects/compound_objects/mod.rs:11-30 | the compound cuboid's world distance is that of its SoftIntersection |
| PP.MinMacro | src/math.rs:106-116 | `min!` of two values is their minimum |
| PP.MaxMacro | src/math.rs:118-128 | `max!` of two values is their maximum |
| PP.Sdf | src/objects/pp.rs:42-50 | the figure's distance is at most each of balls, shaft and head, and equal to one of them |
| PP.SdfPlane | src/objects/pp.rs:33-35 | `(p - r0) . n`. `PP.SdfPlaneIsPlane` shows it is the plane node's distance |
| PP.SdfSphere | src/objects/pp.rs:37-39 | `|p - center| - radius`. `PP.SdfSphereIsSphere` shows it is the sphere node's distance |
| PP.SdfBalls | src/objects/pp.rs:6-13 | the nearer of the two radius-0.5 balls at `x = -0.3` and `x = 0.3`. `PP.BallsAreUnion` shows it is their union node |
| PP.SdfPlaneAtPoint | src/objects/pp.rs:33-35 | `sdf_plane(r0, r0, n) = 0` |
| PP.SdfSphereAtCenter | src/objects/pp.rs:37-39 | `sdf_sphere(c, c, r) = -r` |
| PP.SdfPlaneIsPlane | src/objects/pp.rs:33-35 | `sdf_plane` is a plane node's distance |
| PP.SdfSphereIsSphere | src/objects/pp.rs:37-39 | `sdf_sphere` is an unrotated sphere node's distance |
| PP.ShaftCylinder | src/objects/pp.rs:17-20 | the distance from the z-parallel line through `(0, 0.2, 0)`, less `0.4` |
| PP.SdfShaft | src/objects/pp.rs:15-23 | the largest of the lower cap (`z = 0`, normal `-z`), the upper cap (`z = 2.5`, normal `+z`) and the cylinder term. `PP.ShaftIsCylinder` shows it is a capped cylinder node |
| PP.SdfHead | src/objects/pp.rs:25-31 | the larger of the radius-0.5 ball around `(0, 0.2, 2.5)` and the plane through that point with normal `-z`. `PP.HeadIsHalfBall` shows it is their intersection node |
| PP.AxisDistanceIsInfiniteCylinder | src/objects/pp.rs:18-20 | the distance from a line along a unit axis, less a radius, is the distance of the infinite cylinder node with that axis, center and radius |
| PP.ShaftCylinderIsInfiniteCylinder | src/objects/pp.rs:18-20 | the shaft's cylinder term is a radius-0.4 infinite cylinder about z through `(0, 0.2, 0)` |
| PP.LowerCap | src/objects/pp.rs:16 | the lower plane (z = 0, normal `-z`) is the cylinder's base cap |
| PP.UpperCap | src/objects/pp.rs:17 | the upper plane (z = 2.5, normal `+z`) is the cylinder's top cap |
| PP.BallsAreUnion | src/objects/pp.rs:6-13 | `sdf_balls` is the union of two radius-0.5 spheres at `(-0.3, 0, 0)` and `(0.3, 0, 0)` |
| PP.ShaftIsCylinder | src/objects/pp.rs:15-23 | `sdf_shaft`, the max of the two planes and the cylinder term, is a height-2.5 capped cylinder node |
| PP.HeadIsHalfBall | src/objects/pp.rs:25-31 | `sdf_head` is the intersection of a radius-0.5 sphere at `(0, 0.2, 2.5)` with the plane through it with normal `-z` |
| PP.SdfIsUnion | src/objects/pp.rs:42-50 | the figure is the union of those three nodes |
| PP.ShaftAxisInside | src/objects/pp.rs:15-23 | the shaft's axis from z = 0 to z = 2.5 is inside the figure |
| PP.BallCentersInside | src/objects/pp.rs:6-13 | each ball's center is at least half a unit inside the figure |
| Scene.CameraFrameRay | src/scene.rs:17-22 | in the camera frame the forward component is 1; the right component is 0 exactly at column `WIDTH/2`; the up component is 0 exactly at row `HEIGHT/2` |
| Scene.RightGrowsWithColumn | src/scene.rs:19 | the right component grows with the column |
| Scene.UpShrinksWithRow | src/scene.rs:21 | the up component shrinks as the row grows |
| Scene.GetRayFromCamera | src/scene.rs:17-25 | the camera-frame ray of pixel `(y, x)`, taken into the world by the camera matrix and normalised |
| Scene.RayIsUnit | src/scene.rs:17-25 | the world ray is normalised |
| Scene.CenterRayIsForward | src/scene.rs:17-25 | with the identity matrix, the center pixel's ray is the forward axis `y` |
| Scene.March | src/scene.rs:31-56 | the loop's decision at each point, given `fuel` steps. A distance above `7.0` is a miss. A distance below `0.003` is a hit with the surface normal there. Otherwise the point moves by the distance along the direction. `OutOfFuel` is returned when the steps run out. `MarchHit`, `MarchMiss` and `MarchOutOfFuel` characterise it |
| Scene.SurfaceNormal | src/scene.rs:37-51 | the normal at a hit: the forward differences of the distance along x, y and z with step `0.003`, divided by `0.003`, then normalised |
| Scene.ComputeIntersection | src/scene.rs:29-57 | the loop starting at the camera position computes `March` |
| Scene.MarchIsFinish | src/scene.rs:31-56 | the march is its end point (where it stopped, or `OutOfFuel`) followed by the decision taken there |
| Scene.MarchEnds | src/scene.rs:32-52 | a distance outside `[0.003, 7]` ends the march at once: miss above, hit with the normal there below |
| Scene.MarchContinues | src/scene.rs:53-55 | otherwise the march goes on from `point + direction * distance` |
| Scene.MarchEndOutOfFuel | src/scene.rs:31-56 | the steps run out exactly when every visited point kept the distance within the band |
| Scene.MarchEndStops | src/scene.rs:31-56 | otherwise the march stops at the first point whose distance leaves the band |
| Scene.MarchMiss | src/scene.rs:34-35 | the march returns `None` exactly when, at the first point that leaves the band, the distance exceeds 7.0 |
| Scene.MarchHit | src/scene.rs:36-52 | the march returns `Some(n)` exactly when, at the first point that leaves the band, the distance is below 0.003 (negative included), and `n` is the normal there |
| Scene.MarchOutOfFuel | src/scene.rs:31-56 | the march runs out of steps exactly when every visited point stays in the band |
| Scene.SurfaceNormalIsUnit | src/scene.rs:37-51 | the normal, normalised forward differences with step 0.003, has length 1 when the differences are not all zero |
| Scene.ShadeChar | src/scene.rs:65-71 | the character is `' '` or one of the ramp `",:;+*@%$#@"` (the index stays in bounds) |
| Scene.BlankNotInRamp | src/scene.rs:60 | `' '` is not a ramp character |
| Scene.ShadeCharBlank | src/scene.rs:66-67 | the character is `' '` exactly when the intensity is negative |
| Scene.ShadeCharBand | src/scene.rs:65-71 | an index (intensity times 10) in `[k, k + 1)` gives the `k`-th ramp character |
| Scene.ShadeCharDensest | src/scene.rs:68-69 | an index of 9 or more gives the last ramp character |
| Scene.LightChar | src/scene.rs:59-75 | a miss (and, in the model, running out of steps) gives `' '`; otherwise `' '` or a ramp character |
| Scene.ComputeLightIntensity | src/scene.rs:59-75 | shades the march's result; the character is `' '` or a ramp character |
| Scene.PixelChar | src/main.rs:68-69 | the character of a pixel is `' '` or a ramp character |
| Terminal.InitialCell | src/terminal.rs:29-40 | a cell of the fresh buffer is non-blank exactly on the border |
| Terminal.InitializeScreenBuffer | src/terminal.rs:30-41 | a fresh `HEIGHT x WIDTH` grid: the bar character in columns 0 and `WIDTH-1` (corners included), `'-'` in the rest of rows 0 and `HEIGHT-1`, `' '` elsewhere |
| MainLoop.InitializeScreenBuffer | src/main.rs:33-44 | the copy in `main.rs` draws the same grid |
| MainLoop.InteriorIsNotBorder | src/main.rs:66-67 | inside the grid, the cells the render loop visits are exactly the non-border cells |
| MainLoop.RenderFrame | src/main.rs:66-73 | every interior cell gets its pixel's character for that frame; every other cell is unchanged, so a drawn border stays drawn |
| MainLoop.RenderFrames | src/main.rs:49-73 | after any sequence of frames, the border is as first drawn and the interior shows the last frame |

## Left out

- Floating point: `f32` rounding, overflow, `NaN`, and the `partial_cmp().unwrap()` panic on `NaN` are not modelled. Arithmetic is on reals.
- The square root is a parameter. Lemmas that need its defining property require `IsSqrt(sqrt)`.
- Tolerance-based test claims (such as the normalised `(3, 4, 5)` within `0.001`) are not modelled.
- Math.Normalise: maps the zero vector to itself, where `f32` gives `NaN`. Every property about normalisation requires a non-zero vector.
- GramSchmidt.GramSchmidtOrthogonalization: returns `Err(DegenerateColumn)` when an orthogonalised column is zero, where `f32` would go on with `NaN`. `Err(FirstElementOutOfRange)` stands for the `assert!` panic.
- Terminal I/O and timing are not modelled:
  - `print_to_screen` and `fps_cap` (src/terminal.rs);
  - the `queue!` calls, the FPS printout and the endless `loop` of `main`;
  - `move_camera`, which reads the clock and needs `sin`, `cos` and the cross product. `MainLoop.RenderFrames` takes the frames' cameras as a parameter instead.
- The march's termination: the loop in `compute_intersection` has no iteration cap (`MAX_ITERATIONS` is never used) and can run forever.
  - `Scene.March` and `Scene.ComputeIntersection` take `fuel` steps and answer `OutOfFuel` when those run out. Shading treats `OutOfFuel` like a miss.
  - No termination is claimed.
- `SoftUnion::from_objects_default` is not modelled: it returns a `SoftIntersection` where a `SoftUnion` is declared, so it does not type-check.
- The second `ObjectOperation for Intersection` (src/objects/operations/union.rs:45-49) is not modelled: it duplicates the one in `intersection.rs`. `Intersections.Intersection.FromObjectsDefault` models the one in `intersection.rs`.
- The `PP` figure of src/objects/compound_objects/pp.rs is not modelled: it is literal data built with the broken `SoftUnion::from_objects_default`.
- The old traits' `get_center`/`get_orientation_matrix` take `&mut self` but are called from `&self` in src/objects/mod.rs. The model reads the fields directly.
- src/objects/pp.rs uses `min!` and `max!`, which src/math.rs has commented out. `PP.MinMacro` and `PP.MaxMacro` follow those commented-out definitions.
- LegacySoftUnions.SoftUnion.SetCenter: states only the field update, with no scene-graph node, because the older soft union's formula (`best - s / second_best`) has no `SceneNode.Node` kind.
- LegacySoftUnions.SoftUnion.SetInverseOrientationMatrix: the same, for the matrix.
- Scene.LightChar: the intensity of a hit is left as the ramp lookup of `normal . normalise(-direction)`. No relation to the surface's angle is proved beyond the bands of `Scene.ShadeCharBand`.
- Scene.SurfaceNormalIsUnit: requires the three forward differences not to be all zero. When they are, `f32` gives `NaN` and the model gives the zero vector.
