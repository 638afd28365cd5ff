/**
 * `scene.rs`: the camera, the sphere-tracing march along a ray and the character a pixel gets.
 *
 * The object being rendered is any signed distance function (`impl Object3D` only asks for
 * `signed_distance_function`), so it arrives as a function `sdf`. The march loops until the
 * distance leaves the band `[MinDistance, MaxDistance]` and has no iteration cap; the model
 * gives it `fuel` steps and reports `OutOfFuel` when they are spent.
 */
module Scene {
  import opened Math
  import opened Constants

  const MaxDistance: real := 7.0
  const MinDistance: real := 0.003

  /** The brightness ramp, faintest first. */
  const AsciiTable: seq<char> := ",:;+*@%$#@"

  /** `Camera`: its position in the world, and the matrix taking camera coordinates to the world's. */
  datatype Camera = Camera(position: Vec3, matrix: Mat3)

  /** What `compute_intersection` returns: `Some(normal)`, `None`, or, in the model, no answer yet. */
  datatype MarchResult = Hit(normal: Vec3) | Miss | OutOfFuel

  // ---------------------------------------------------------------- rays

  /**
   * The ray through pixel `(y, x)` in camera coordinates: right, forward, up. The integer
   * halves `WIDTH / 2` and `HEIGHT / 2` are exact (360 and 100 are even).
   */
  function CameraFrameRay(y: int, x: int): (r: Vec3)
    ensures r.y == 1.0
    ensures r.x == 0.0 <==> x == Width / 2
    ensures r.z == 0.0 <==> y == Height / 2
  {
    Vec3(Fov / Width as real * ((x - Width / 2) as real),
         1.0,
         -Fov / Width as real * HeightWidthRatio * ((y - Height / 2) as real))
  }

  /** Further right on the screen, further right in the camera frame. */
  lemma RightGrowsWithColumn(y: int, x1: int, x2: int)
    requires x1 < x2
    ensures CameraFrameRay(y, x1).x < CameraFrameRay(y, x2).x
  {
  }

  /** Further down the screen, further down in the camera frame. */
  lemma UpShrinksWithRow(y1: int, y2: int, x: int)
    requires y1 < y2
    ensures CameraFrameRay(y2, x).z < CameraFrameRay(y1, x).z
  {
  }

  /** `get_ray_from_camera`: the camera-frame ray taken into the world and normalised. */
  function GetRayFromCamera(camera: Camera, y: int, x: int, sqrt: real -> real): Vec3 {
    Normalise(MatVec(camera.matrix, CameraFrameRay(y, x)), sqrt)
  }

  /** Unless the camera matrix sends it to zero, the ray has unit length. */
  lemma RayIsUnit(camera: Camera, y: int, x: int, sqrt: real -> real)
    requires IsSqrt(sqrt) && NormSquared(MatVec(camera.matrix, CameraFrameRay(y, x))) != 0.0
    ensures NormSquared(GetRayFromCamera(camera, y, x, sqrt)) == 1.0
  {
    NormaliseUnit(MatVec(camera.matrix, CameraFrameRay(y, x)), sqrt);
  }

  /** With the identity as camera matrix the ray through the screen's center looks straight ahead. */
  lemma CenterRayIsForward(position: Vec3, sqrt: real -> real)
    requires IsSqrt(sqrt)
    ensures GetRayFromCamera(Camera(position, Identity()), Height / 2, Width / 2, sqrt) == UnitY
  {
    MatVecIdentity(CameraFrameRay(Height / 2, Width / 2));
    UnitYLength();
    NormaliseOfUnit(UnitY, sqrt);
  }

  // ---------------------------------------------------------------- the march

  /** One step of the march: forward along `direction` by the distance at `p`. */
  function Advance(sdf: Vec3 -> real, p: Vec3, direction: Vec3): Vec3 {
    Add(p, Scale(sdf(p), direction))
  }

  /** The normal at a hit: forward differences of `sdf` along x, y and z with step `MinDistance`, normalised. */
  function SurfaceNormal(sdf: Vec3 -> real, p: Vec3, sqrt: real -> real): Vec3 {
    var d := sdf(p);
    Normalise(Vec3((sdf(Add(p, Scale(MinDistance, UnitX))) - d) / MinDistance,
                   (sdf(Add(p, Scale(MinDistance, UnitY))) - d) / MinDistance,
                   (sdf(Add(p, Scale(MinDistance, UnitZ))) - d) / MinDistance), sqrt)
  }

  /** The march keeps going while the distance lies in `[MinDistance, MaxDistance]`. */
  predicate Continues(d: real) {
    MinDistance <= d <= MaxDistance
  }

  /** How the march ends at a point where it does not continue. */
  function StopAt(sdf: Vec3 -> real, p: Vec3, sqrt: real -> real): MarchResult {
    if sdf(p) > MaxDistance then Miss else Hit(SurfaceNormal(sdf, p, sqrt))
  }

  /** `compute_intersection` from `p`, with at most `fuel` evaluations of the loop. */
  function March(sdf: Vec3 -> real, p: Vec3, direction: Vec3, fuel: nat, sqrt: real -> real): MarchResult
    decreases fuel
  {
    if fuel == 0 then OutOfFuel
    else
      var distance := sdf(p);
      if distance > MaxDistance then Miss
      else if distance < MinDistance then Hit(SurfaceNormal(sdf, p, sqrt))
      else March(sdf, Add(p, Scale(distance, direction)), direction, fuel - 1, sqrt)
  }

  /** `compute_intersection`: march from the camera's position along `direction`. */
  method ComputeIntersection(camera: Camera, sdf: Vec3 -> real, direction: Vec3, fuel: nat, sqrt: real -> real)
    returns (r: MarchResult)
    ensures r == March(sdf, camera.position, direction, fuel, sqrt)
  {
    var rayFront := camera.position;
    var left := fuel;
    while left > 0
      invariant March(sdf, rayFront, direction, left, sqrt) == March(sdf, camera.position, direction, fuel, sqrt)
      decreases left
    {
      var distance := sdf(rayFront);
      if distance > MaxDistance {
        return Miss;
      } else if distance < MinDistance {
        var dx, dy, dz := Scale(MinDistance, UnitX), Scale(MinDistance, UnitY), Scale(MinDistance, UnitZ);
        var gradient := Vec3((sdf(Add(rayFront, dx)) - distance) / MinDistance,
                             (sdf(Add(rayFront, dy)) - distance) / MinDistance,
                             (sdf(Add(rayFront, dz)) - distance) / MinDistance);
        return Hit(Normalise(gradient, sqrt));
      } else {
        rayFront := Add(rayFront, Scale(distance, direction));
      }
      left := left - 1;
    }
    return OutOfFuel;
  }

  // ---------------------------------------------------------------- what the march does, step by step

  /** The point the march has reached after `k` steps from `start`. */
  function RayFront(sdf: Vec3 -> real, start: Vec3, direction: Vec3, k: nat): Vec3 {
    if k == 0 then start else Advance(sdf, RayFront(sdf, start, direction, k - 1), direction)
  }

  /** The first `k` points of the march all lie in the band where it continues. */
  ghost predicate MarchesOn(sdf: Vec3 -> real, start: Vec3, direction: Vec3, k: nat) {
    forall j: nat :: j < k ==> Continues(sdf(RayFront(sdf, start, direction, j)))
  }

  /** The march continues for `k` steps and leaves the band at the `k`-th point. */
  ghost predicate StopsAt(sdf: Vec3 -> real, start: Vec3, direction: Vec3, k: nat) {
    MarchesOn(sdf, start, direction, k) && !Continues(sdf(RayFront(sdf, start, direction, k)))
  }

  /**
   * Where the march ends and how much fuel it has left there: it takes steps while it has
   * fuel and the distance is in the band. No fuel left means it ran out.
   */
  function MarchEnd(sdf: Vec3 -> real, p: Vec3, direction: Vec3, fuel: nat): (Vec3, nat)
    decreases fuel
  {
    if fuel == 0 || !Continues(sdf(p)) then (p, fuel)
    else MarchEnd(sdf, Advance(sdf, p, direction), direction, fuel - 1)
  }

  /** The outcome at the end: out of fuel, or whatever the point where the march left the band calls for. */
  function Finish(sdf: Vec3 -> real, end: (Vec3, nat), sqrt: real -> real): MarchResult {
    if end.1 == 0 then OutOfFuel else StopAt(sdf, end.0, sqrt)
  }

  /** The march, as the source runs it, is the outcome at its end. */
  lemma {:induction false} MarchIsFinish(sdf: Vec3 -> real, p: Vec3, direction: Vec3, fuel: nat, sqrt: real -> real)
    ensures March(sdf, p, direction, fuel, sqrt) == Finish(sdf, MarchEnd(sdf, p, direction, fuel), sqrt)
    decreases fuel
  {
    if fuel > 0 && Continues(sdf(p)) {
      MarchIsFinish(sdf, Advance(sdf, p, direction), direction, fuel - 1, sqrt);
      MarchContinues(sdf, p, direction, fuel, sqrt);
    } else if fuel > 0 {
      MarchEnds(sdf, p, direction, fuel, sqrt);
    }
  }

  /** Where the distance leaves the band, the march ends on the spot ... */
  lemma MarchEnds(sdf: Vec3 -> real, start: Vec3, direction: Vec3, fuel: nat, sqrt: real -> real)
    requires fuel > 0 && !Continues(sdf(start))
    ensures March(sdf, start, direction, fuel, sqrt) == StopAt(sdf, start, sqrt)
  {
  }

  /** ... and inside the band it takes one step and goes on with one unit of fuel less. */
  lemma MarchContinues(sdf: Vec3 -> real, start: Vec3, direction: Vec3, fuel: nat, sqrt: real -> real)
    requires fuel > 0 && Continues(sdf(start))
    ensures March(sdf, start, direction, fuel, sqrt) == March(sdf, Advance(sdf, start, direction), direction, fuel - 1, sqrt)
  {
  }

  /** Taking one step first and then `k` is taking `k + 1` steps. */
  lemma {:induction false} RayFrontShift(sdf: Vec3 -> real, start: Vec3, direction: Vec3, k: nat)
    ensures RayFront(sdf, Advance(sdf, start, direction), direction, k) == RayFront(sdf, start, direction, k + 1)
  {
    if k > 0 {
      RayFrontShift(sdf, start, direction, k - 1);
    }
  }

  /** The march continues from `start` for `k + 1` steps exactly when it continues there and from the next point for `k`. */
  lemma MarchesOnShift(sdf: Vec3 -> real, start: Vec3, direction: Vec3, k: nat)
    ensures MarchesOn(sdf, start, direction, k + 1)
        <==> Continues(sdf(start)) && MarchesOn(sdf, Advance(sdf, start, direction), direction, k)
  {
    forall j: nat | j < k
      ensures RayFront(sdf, Advance(sdf, start, direction), direction, j) == RayFront(sdf, start, direction, j + 1)
    {
      RayFrontShift(sdf, start, direction, j);
    }
    if Continues(sdf(start)) && MarchesOn(sdf, Advance(sdf, start, direction), direction, k) {
      forall j: nat | j < k + 1
        ensures Continues(sdf(RayFront(sdf, start, direction, j)))
      {
        if j > 0 {
          assert RayFront(sdf, Advance(sdf, start, direction), direction, j - 1) == RayFront(sdf, start, direction, j);
        }
      }
    }
    if MarchesOn(sdf, start, direction, k + 1) {
      assert RayFront(sdf, start, direction, 0) == start;
    }
  }

  /** The march runs out of fuel exactly when every point it visits lies in the band, and it is then `fuel` steps out. */
  lemma {:induction false} MarchEndOutOfFuel(sdf: Vec3 -> real, start: Vec3, direction: Vec3, fuel: nat)
    ensures MarchEnd(sdf, start, direction, fuel).1 == 0 <==> MarchesOn(sdf, start, direction, fuel)
    ensures MarchEnd(sdf, start, direction, fuel).1 == 0 ==> MarchEnd(sdf, start, direction, fuel).0 == RayFront(sdf, start, direction, fuel)
    decreases fuel
  {
    if fuel > 0 {
      MarchEndOutOfFuel(sdf, Advance(sdf, start, direction), direction, fuel - 1);
      MarchesOnShift(sdf, start, direction, fuel - 1);
      RayFrontShift(sdf, start, direction, fuel - 1);
      if !Continues(sdf(start)) {
        assert RayFront(sdf, start, direction, 0) == start;
      }
    }
  }

  /** Otherwise it stops at the first point, within its fuel, where the distance leaves the band. */
  lemma {:induction false} MarchEndStops(sdf: Vec3 -> real, start: Vec3, direction: Vec3, fuel: nat)
    requires MarchEnd(sdf, start, direction, fuel).1 != 0
    ensures exists k: nat :: k < fuel && StopsAt(sdf, start, direction, k)
                          && MarchEnd(sdf, start, direction, fuel) == (RayFront(sdf, start, direction, k), fuel - k)
    decreases fuel
  {
    if !Continues(sdf(start)) {
      assert RayFront(sdf, start, direction, 0) == start;
      assert StopsAt(sdf, start, direction, 0);
    } else {
      var next := Advance(sdf, start, direction);
      MarchEndStops(sdf, next, direction, fuel - 1);
      var k: nat :| k < fuel - 1 && StopsAt(sdf, next, direction, k)
                    && MarchEnd(sdf, next, direction, fuel - 1) == (RayFront(sdf, next, direction, k), fuel - 1 - k);
      MarchesOnShift(sdf, start, direction, k);
      RayFrontShift(sdf, start, direction, k);
      assert StopsAt(sdf, start, direction, k + 1);
    }
  }

  /** Conversely, wherever the march first leaves the band, that is where it ends. */
  lemma {:induction false} MarchEndAt(sdf: Vec3 -> real, start: Vec3, direction: Vec3, fuel: nat, k: nat)
    requires k < fuel && StopsAt(sdf, start, direction, k)
    ensures MarchEnd(sdf, start, direction, fuel) == (RayFront(sdf, start, direction, k), fuel - k)
    decreases k
  {
    if k > 0 {
      var next := Advance(sdf, start, direction);
      MarchesOnShift(sdf, start, direction, k - 1);
      RayFrontShift(sdf, start, direction, k - 1);
      assert StopsAt(sdf, next, direction, k - 1);
      MarchEndAt(sdf, next, direction, fuel - 1, k - 1);
    } else {
      assert RayFront(sdf, start, direction, 0) == start;
    }
  }

  /** `compute_intersection` answers `None` exactly when the distance at the current point exceeds `MaxDistance`. */
  lemma MarchMiss(sdf: Vec3 -> real, start: Vec3, direction: Vec3, fuel: nat, sqrt: real -> real)
    ensures March(sdf, start, direction, fuel, sqrt) == Miss
        <==> exists k: nat :: k < fuel && MarchesOn(sdf, start, direction, k)
                            && sdf(RayFront(sdf, start, direction, k)) > MaxDistance
  {
    var end := MarchEnd(sdf, start, direction, fuel);
    MarchIsFinish(sdf, start, direction, fuel, sqrt);
    if March(sdf, start, direction, fuel, sqrt) == Miss {
      MarchEndStops(sdf, start, direction, fuel);
    }
    if exists k: nat :: k < fuel && MarchesOn(sdf, start, direction, k) && sdf(RayFront(sdf, start, direction, k)) > MaxDistance {
      var k: nat :| k < fuel && MarchesOn(sdf, start, direction, k) && sdf(RayFront(sdf, start, direction, k)) > MaxDistance;
      MarchEndAt(sdf, start, direction, fuel, k);
    }
  }

  /**
   * It answers `Some(n)` exactly when the distance at the current point falls below `MinDistance`,
   * a negative one included, with `n` the surface normal there.
   */
  lemma MarchHit(sdf: Vec3 -> real, start: Vec3, direction: Vec3, fuel: nat, n: Vec3, sqrt: real -> real)
    ensures March(sdf, start, direction, fuel, sqrt) == Hit(n)
        <==> exists k: nat :: k < fuel && MarchesOn(sdf, start, direction, k)
                            && sdf(RayFront(sdf, start, direction, k)) < MinDistance
                            && n == SurfaceNormal(sdf, RayFront(sdf, start, direction, k), sqrt)
  {
    MarchIsFinish(sdf, start, direction, fuel, sqrt);
    if March(sdf, start, direction, fuel, sqrt) == Hit(n) {
      MarchEndStops(sdf, start, direction, fuel);
    }
    if exists k: nat :: k < fuel && MarchesOn(sdf, start, direction, k) && sdf(RayFront(sdf, start, direction, k)) < MinDistance
                        && n == SurfaceNormal(sdf, RayFront(sdf, start, direction, k), sqrt) {
      var k: nat :| k < fuel && MarchesOn(sdf, start, direction, k) && sdf(RayFront(sdf, start, direction, k)) < MinDistance
                    && n == SurfaceNormal(sdf, RayFront(sdf, start, direction, k), sqrt);
      MarchEndAt(sdf, start, direction, fuel, k);
    }
  }

  /** It runs out of fuel exactly when every point it reaches lies in the band. */
  lemma MarchOutOfFuel(sdf: Vec3 -> real, start: Vec3, direction: Vec3, fuel: nat, sqrt: real -> real)
    ensures March(sdf, start, direction, fuel, sqrt) == OutOfFuel <==> MarchesOn(sdf, start, direction, fuel)
  {
    MarchIsFinish(sdf, start, direction, fuel, sqrt);
    MarchEndOutOfFuel(sdf, start, direction, fuel);
  }

  /** A hit's normal has unit length unless the forward differences all vanish. */
  lemma SurfaceNormalIsUnit(sdf: Vec3 -> real, p: Vec3, sqrt: real -> real)
    requires IsSqrt(sqrt)
    requires var d := sdf(p);
             NormSquared(Vec3((sdf(Add(p, Scale(MinDistance, UnitX))) - d) / MinDistance,
                              (sdf(Add(p, Scale(MinDistance, UnitY))) - d) / MinDistance,
                              (sdf(Add(p, Scale(MinDistance, UnitZ))) - d) / MinDistance)) != 0.0
    ensures NormSquared(SurfaceNormal(sdf, p, sqrt)) == 1.0
  {
    var d := sdf(p);
    NormaliseUnit(Vec3((sdf(Add(p, Scale(MinDistance, UnitX))) - d) / MinDistance,
                       (sdf(Add(p, Scale(MinDistance, UnitY))) - d) / MinDistance,
                       (sdf(Add(p, Scale(MinDistance, UnitZ))) - d) / MinDistance), sqrt);
  }

  // ---------------------------------------------------------------- shading

  /**
   * The character for a lighting intensity: blank below zero, the densest character above
   * `9 / 10`, otherwise the character at the truncated index `intensity * 10`.
   */
  function ShadeChar(intensity: real): (c: char)
    ensures c == ' ' || c in AsciiTable
  {
    var nChars := |AsciiTable|;
    var index := intensity * nChars as real;
    if index < 0.0 then ' '
    else if index > nChars as real - 1.0 then AsciiTable[nChars - 1]
    else AsciiTable[index.Floor]
  }

  /** The blank character is not part of the ramp. */
  lemma BlankNotInRamp()
    ensures ' ' !in AsciiTable
  {
    assert AsciiTable == [',', ':', ';', '+', '*', '@', '%', '$', '#', '@'];
  }

  /** An intensity is drawn blank exactly when it is negative. */
  lemma ShadeCharBlank(intensity: real)
    ensures ShadeChar(intensity) == ' ' <==> intensity < 0.0
  {
    BlankNotInRamp();
  }

  /** Between `k / 10` and `(k + 1) / 10` the intensity gets the `k`-th character: the index truncates. */
  lemma ShadeCharBand(intensity: real, k: int)
    requires 0 <= k < |AsciiTable| && k as real <= intensity * 10.0 < k as real + 1.0
    ensures ShadeChar(intensity) == AsciiTable[k]
  {
    var index := intensity * 10.0;
    if index <= 9.0 {
      assert index.Floor == k;
    }
  }

  /** From `9 / 10` on, every intensity gets the densest character. */
  lemma ShadeCharDensest(intensity: real)
    requires intensity * 10.0 >= 9.0
    ensures ShadeChar(intensity) == AsciiTable[|AsciiTable| - 1]
  {
    if intensity * 10.0 <= 9.0 {
      assert (intensity * 10.0).Floor == 9;
    }
  }

  /** The character a march result gets when the ray travelled along `direction`; a miss is blank. */
  function LightChar(r: MarchResult, direction: Vec3, sqrt: real -> real): (c: char)
    ensures !r.Hit? ==> c == ' '
    ensures c == ' ' || c in AsciiTable
  {
    match r
    case Hit(normal) => ShadeChar(Dot(normal, Normalise(Sub(Zero, direction), sqrt)))
    case _ => ' '
  }

  /** `compute_light_intensity`: march, then shade the hit against the direction back to the camera. */
  method ComputeLightIntensity(camera: Camera, sdf: Vec3 -> real, direction: Vec3, fuel: nat, sqrt: real -> real)
    returns (c: char)
    ensures c == LightChar(March(sdf, camera.position, direction, fuel, sqrt), direction, sqrt)
    ensures c == ' ' || c in AsciiTable
  {
    var asciiTable := AsciiTable;
    var nChars := |asciiTable|;
    var hit := ComputeIntersection(camera, sdf, direction, fuel, sqrt);
    match hit {
      case Hit(normalVec) =>
        var intensity := Dot(normalVec, Normalise(Sub(Zero, direction), sqrt));
        var index := intensity * nChars as real;
        if index < 0.0 {
          return ' ';
        } else if index > nChars as real - 1.0 {
          return asciiTable[nChars - 1];
        }
        return asciiTable[index.Floor];
      case _ =>
        return ' ';
    }
  }

  /** The character of pixel `(row, col)`: the shading of the march along the camera's ray through it. */
  function PixelChar(camera: Camera, sdf: Vec3 -> real, row: int, col: int, fuel: nat, sqrt: real -> real): (c: char)
    ensures c == ' ' || c in AsciiTable
  {
    var ray := GetRayFromCamera(camera, row, col, sqrt);
    LightChar(March(sdf, camera.position, ray, fuel, sqrt), ray, sqrt)
  }
}
