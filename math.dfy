/**
 * Three-vectors and 3x3 matrices over the reals (the nalgebra `f32` types of `math.rs`),
 * the projection used by Gram-Schmidt, the orthogonalisation itself and
 * `matrix_from_columns`.
 *
 * nalgebra's `norm` is a square root we cannot see, so every operation that takes a
 * norm receives the square root as a parameter `sqrt`; the lemmas that need exact roots
 * require `IsSqrt(sqrt)`.
 */
module Math {
  import opened Wrappers

  datatype Vec3 = Vec3(x: real, y: real, z: real)

  /** A 3x3 matrix stored by its columns, as nalgebra stores it. */
  datatype Mat3 = Mat3(c0: Vec3, c1: Vec3, c2: Vec3)

  const Zero: Vec3 := Vec3(0.0, 0.0, 0.0)
  const UnitX: Vec3 := Vec3(1.0, 0.0, 0.0)
  const UnitY: Vec3 := Vec3(0.0, 1.0, 0.0)
  const UnitZ: Vec3 := Vec3(0.0, 0.0, 1.0)

  function Add(a: Vec3, b: Vec3): Vec3 { Vec3(a.x + b.x, a.y + b.y, a.z + b.z) }

  function Sub(a: Vec3, b: Vec3): Vec3 { Vec3(a.x - b.x, a.y - b.y, a.z - b.z) }

  function Neg(a: Vec3): Vec3 { Vec3(-a.x, -a.y, -a.z) }

  function Scale(k: real, a: Vec3): Vec3 { Vec3(k * a.x, k * a.y, k * a.z) }

  function Dot(a: Vec3, b: Vec3): real { a.x * b.x + a.y * b.y + a.z * b.z }

  /** `a.dot(a)`, the squared length; never negative. */
  function NormSquared(a: Vec3): (r: real)
    ensures r >= 0.0
  {
    SquareNonNegative(a.x);
    SquareNonNegative(a.y);
    SquareNonNegative(a.z);
    Dot(a, a)
  }

  ghost predicate NonNegative(x: real) { 0.0 <= x }

  /**
   * `sqrt` is the non-negative square root on the non-negative reals. The quantifier is
   * instantiated only through `SqrtFacts`, which keeps the nonlinear facts out of proofs that
   * do not ask for them.
   */
  ghost predicate IsSqrt(sqrt: real -> real) {
    forall x {:trigger NonNegative(x)} :: NonNegative(x) ==> 0.0 <= sqrt(x) && sqrt(x) * sqrt(x) == x
  }

  lemma SqrtFacts(sqrt: real -> real, x: real)
    requires IsSqrt(sqrt) && 0.0 <= x
    ensures 0.0 <= sqrt(x) && sqrt(x) * sqrt(x) == x
  {
    assert NonNegative(x);
  }

  /** Lengths are never negative. */
  lemma NormNonNegative(v: Vec3, sqrt: real -> real)
    requires IsSqrt(sqrt)
    ensures Norm(v, sqrt) >= 0.0
  {
    SqrtFacts(sqrt, NormSquared(v));
  }

  /** nalgebra's `norm`. */
  function Norm(a: Vec3, sqrt: real -> real): real { sqrt(NormSquared(a)) }

  /**
   * `normalise`: `v / |v|`. A vector of norm zero, which f32 turns into NaN components, is
   * returned as it is.
   */
  function Normalise(v: Vec3, sqrt: real -> real): Vec3 {
    var n := Norm(v, sqrt);
    if n == 0.0 then v else Scale(1.0 / n, v)
  }

  /** With a valid square root a vector of non-zero length becomes `v / |v|`, of unit length. */
  lemma NormaliseUnit(v: Vec3, sqrt: real -> real)
    requires IsSqrt(sqrt) && NormSquared(v) != 0.0
    ensures Norm(v, sqrt) > 0.0
    ensures Normalise(v, sqrt) == Scale(1.0 / Norm(v, sqrt), v)
    ensures NormSquared(Normalise(v, sqrt)) == 1.0
  {
    var n := Norm(v, sqrt);
    SqrtFacts(sqrt, NormSquared(v));
    ScaleNormSquared(1.0 / n, v);
    InverseSquare(n, NormSquared(v));
  }

  /** The zero vector has length zero. */
  lemma NormZero(sqrt: real -> real)
    requires IsSqrt(sqrt)
    ensures Norm(Zero, sqrt) == 0.0
  {
    NormSquaredZero();
    SqrtZero(sqrt);
  }

  lemma NormSquaredZero()
    ensures NormSquared(Zero) == 0.0
  {
  }

  /** Only the zero vector has squared length zero. */
  lemma NormSquaredZeroIff(a: Vec3)
    ensures NormSquared(a) == 0.0 <==> a == Zero
  {
    if NormSquared(a) == 0.0 {
      SquaresSumZero(a.x, a.y, a.z);
    }
  }

  lemma NonZeroHasLength(a: Vec3)
    requires a != Zero
    ensures NormSquared(a) != 0.0
  {
    NormSquaredZeroIff(a);
  }

  lemma SquaresSumZero(x: real, y: real, z: real)
    requires x * x + y * y + z * z == 0.0
    ensures x == 0.0 && y == 0.0 && z == 0.0
  {
    SquareNonNegative(x);
    SquareNonNegative(y);
    SquareNonNegative(z);
    SumOfNonNegativesZero(x * x, y * y, z * z);
    ZeroProduct(x, x);
    ZeroProduct(y, y);
    ZeroProduct(z, z);
  }

  lemma SumOfNonNegativesZero(x: real, y: real, z: real)
    requires x >= 0.0 && y >= 0.0 && z >= 0.0 && x + y + z == 0.0
    ensures x == 0.0 && y == 0.0 && z == 0.0
  {
  }

  lemma SqrtZero(sqrt: real -> real)
    requires IsSqrt(sqrt)
    ensures sqrt(0.0) == 0.0
  {
    SqrtUnique(sqrt, 0.0, 0.0);
  }

  /** A unit vector is its own normalisation. */
  lemma NormaliseOfUnit(v: Vec3, sqrt: real -> real)
    requires IsSqrt(sqrt) && NormSquared(v) == 1.0
    ensures Normalise(v, sqrt) == v
  {
    SqrtUnique(sqrt, 1.0, 1.0);
    assert Norm(v, sqrt) == 1.0;
    ScaleOne(v);
  }

  // ---------------------------------------------------------------- real arithmetic

  lemma MulPositive(a: real, b: real)
    requires a > 0.0 && b > 0.0
    ensures a * b > 0.0
  {
  }

  lemma SquareNonNegative(a: real)
    ensures a * a >= 0.0
  {
    if a > 0.0 {
      MulPositive(a, a);
    } else if a < 0.0 {
      MulPositive(-a, -a);
    }
  }

  lemma ZeroProduct(a: real, b: real)
    requires a * b == 0.0
    ensures a == 0.0 || b == 0.0
  {
  }

  lemma InverseSquare(n: real, s: real)
    requires n > 0.0 && n * n == s
    ensures (1.0 / n) * (1.0 / n) * s == 1.0
  {
  }

  /** Among non-negative numbers, squaring preserves order. */
  lemma SquareMonotone(s: real, t: real)
    requires 0.0 <= s && 0.0 <= t && s * s <= t * t
    ensures s <= t
  {
    if s > t {
      assert s * s - t * t == (s - t) * (s + t);
      MulPositive(s - t, s + t);
    }
  }

  // ---------------------------------------------------------------- square roots

  lemma SqrtUnique(sqrt: real -> real, x: real, s: real)
    requires IsSqrt(sqrt) && 0.0 <= s && s * s == x
    ensures sqrt(x) == s
  {
    var t := sqrt(x);
    SqrtFacts(sqrt, x);
    SquareMonotone(t, s);
    SquareMonotone(s, t);
  }

  lemma SqrtMonotone(sqrt: real -> real, x: real, y: real)
    requires IsSqrt(sqrt) && 0.0 <= x <= y
    ensures sqrt(x) <= sqrt(y)
  {
    SqrtFacts(sqrt, x);
    SqrtFacts(sqrt, y);
    SquareMonotone(sqrt(x), sqrt(y));
  }

  /** `sqrt(x + y) <= sqrt(x) + sqrt(y)`. */
  lemma SqrtSubadditive(sqrt: real -> real, x: real, y: real)
    requires IsSqrt(sqrt) && 0.0 <= x && 0.0 <= y
    ensures sqrt(x + y) <= sqrt(x) + sqrt(y)
  {
    var s, t, u := sqrt(x), sqrt(y), sqrt(x + y);
    SqrtFacts(sqrt, x);
    SqrtFacts(sqrt, y);
    SqrtFacts(sqrt, x + y);
    assert 0.0 <= s && s * s == x && 0.0 <= t && t * t == y && 0.0 <= u && u * u == x + y;
    assert (s + t) * (s + t) == x + y + 2.0 * (s * t);
    assert s * t >= 0.0;
    SquareMonotone(u, s + t);
  }

  // ---------------------------------------------------------------- dot-product algebra

  lemma DotSymmetric(a: Vec3, b: Vec3)
    ensures Dot(a, b) == Dot(b, a)
  {
  }

  lemma DotAdd(a: Vec3, b: Vec3, c: Vec3)
    ensures Dot(a, Add(b, c)) == Dot(a, b) + Dot(a, c)
  {
  }

  lemma DotSub(a: Vec3, b: Vec3, c: Vec3)
    ensures Dot(a, Sub(b, c)) == Dot(a, b) - Dot(a, c)
  {
  }

  lemma DotScale(a: Vec3, k: real, b: Vec3)
    ensures Dot(a, Scale(k, b)) == k * Dot(a, b)
    ensures Dot(Scale(k, b), a) == k * Dot(b, a)
  {
  }

  lemma ScaleScale(a: real, b: real, v: Vec3)
    ensures Scale(a, Scale(b, v)) == Scale(a * b, v)
  {
  }

  lemma ScaleOne(v: Vec3)
    ensures Scale(1.0, v) == v
  {
  }

  lemma ScaleNormSquared(k: real, a: Vec3)
    ensures NormSquared(Scale(k, a)) == k * k * NormSquared(a)
  {
    DotScale(Scale(k, a), k, a);
    DotScale(a, k, a);
  }

  /** Scaling by a non-zero factor keeps a vector of non-zero length non-zero. */
  lemma ScaleNonDegenerate(k: real, a: Vec3)
    requires k != 0.0 && NormSquared(a) != 0.0
    ensures NormSquared(Scale(k, a)) != 0.0
  {
    ScaleNormSquared(k, a);
    if NormSquared(Scale(k, a)) == 0.0 {
      ZeroProduct(k * k, NormSquared(a));
      ZeroProduct(k, k);
      assert false;
    }
  }

  lemma DotZero(a: Vec3)
    ensures Dot(a, Zero) == 0.0 && Dot(Zero, a) == 0.0
  {
  }

  // ---------------------------------------------------------------- matrices

  function Identity(): Mat3 { Mat3(UnitX, UnitY, UnitZ) }

  function ScaleMat(k: real, m: Mat3): Mat3 { Mat3(Scale(k, m.c0), Scale(k, m.c1), Scale(k, m.c2)) }

  function Columns(m: Mat3): (r: seq<Vec3>)
    ensures |r| == 3
  {
    [m.c0, m.c1, m.c2]
  }

  /** `m * v`: row `i` of the result is row `i` of `m` dotted with `v`. */
  function MatVec(m: Mat3, v: Vec3): Vec3 {
    Vec3(m.c0.x * v.x + m.c1.x * v.y + m.c2.x * v.z,
         m.c0.y * v.x + m.c1.y * v.y + m.c2.y * v.z,
         m.c0.z * v.x + m.c1.z * v.y + m.c2.z * v.z)
  }

  function MatMul(a: Mat3, b: Mat3): Mat3 { Mat3(MatVec(a, b.c0), MatVec(a, b.c1), MatVec(a, b.c2)) }

  /** `m * v` is the combination of the columns of `m` weighted by the components of `v`. */
  lemma MatVecColumns(m: Mat3, v: Vec3)
    ensures MatVec(m, v) == Add(Add(Scale(v.x, m.c0), Scale(v.y, m.c1)), Scale(v.z, m.c2))
  {
  }

  lemma MatVecIdentity(v: Vec3)
    ensures MatVec(Identity(), v) == v
  {
  }

  lemma MatVecZero(m: Mat3)
    ensures MatVec(m, Zero) == Zero
  {
  }

  /** `matrix_from_columns`: `columns[i]` becomes column `i`. */
  function MatrixFromColumns(columns: seq<Vec3>): (m: Mat3)
    requires |columns| == 3
    ensures Columns(m) == columns
  {
    Mat3(columns[0], columns[1], columns[2])
  }

  function Diagonal(a: real, b: real, c: real): Mat3 {
    Mat3(Vec3(a, 0.0, 0.0), Vec3(0.0, b, 0.0), Vec3(0.0, 0.0, c))
  }

  /** Diagonal matrices multiply entrywise along the diagonal. */
  lemma DiagonalSquare(a: real, b: real, c: real)
    ensures MatMul(Diagonal(a, b, c), Diagonal(a, b, c)) == Diagonal(a * a, b * b, c * c)
  {
  }

  /** The unit test on `matrix_from_columns`: diag(2, 2, 2) squared is twice itself. */
  lemma MatrixFromColumnsDiagonalSquare()
    ensures var d := MatrixFromColumns([Vec3(2.0, 0.0, 0.0), Vec3(0.0, 2.0, 0.0), Vec3(0.0, 0.0, 2.0)]);
            MatMul(d, d) == ScaleMat(2.0, d)
  {
    var d := MatrixFromColumns([Vec3(2.0, 0.0, 0.0), Vec3(0.0, 2.0, 0.0), Vec3(0.0, 0.0, 2.0)]);
    assert d == Diagonal(2.0, 2.0, 2.0);
    DiagonalSquare(2.0, 2.0, 2.0);
  }

  // ---------------------------------------------------------------- projection

  /** `proj(u, v) = (u.v / u.u) u`; the division needs `u.u` to be non-zero. */
  function Proj(u: Vec3, v: Vec3): (r: Vec3)
    requires NormSquared(u) != 0.0
    ensures Dot(u, Sub(v, r)) == 0.0
  {
    var k := Dot(u, v) / NormSquared(u);
    DotSub(u, v, Scale(k, u));
    DotScale(u, k, u);
    Scale(k, u)
  }

  /** The dot product of any `w` with a projection onto `u` is a multiple of `w.u`. */
  lemma DotProj(w: Vec3, u: Vec3, v: Vec3)
    requires NormSquared(u) != 0.0
    ensures Dot(w, Proj(u, v)) == Dot(u, v) / NormSquared(u) * Dot(w, u)
  {
    DotScale(w, Dot(u, v) / NormSquared(u), u);
  }

  /** Onto a unit vector the projection is `(v.u) u`, with no division left. */
  lemma ProjOntoUnit(u: Vec3, v: Vec3)
    requires NormSquared(u) == 1.0
    ensures Proj(u, v) == Scale(Dot(v, u), u)
  {
    DotSymmetric(u, v);
  }

  lemma UnitXLength() ensures NormSquared(UnitX) == 1.0 {}
  lemma UnitYLength() ensures NormSquared(UnitY) == 1.0 {}
  lemma UnitZLength() ensures NormSquared(UnitZ) == 1.0 {}
}
