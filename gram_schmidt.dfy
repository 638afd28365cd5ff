/**
 * `gram_schmidt_orthogonalization` of `math.rs`: starting from the pivot column
 * `first_element`, each column in cyclic order `first_element, first_element + 1,
 * first_element + 2 (mod 3)` loses its projections onto the columns already processed;
 * finally every column is normalised.
 */
module GramSchmidt {
  import opened Wrappers
  import opened Math

  datatype GramSchmidtError =
    | FirstElementOutOfRange  // the `assert!(first_element <= 2)` panic
    | DegenerateColumn        // an orthogonalised column has length zero; f32 yields NaN there

  /** The column handled at step `x`: `(x + firstElement) % 3`. */
  function Slot(x: nat, firstElement: nat): (c: nat)
    requires x < 3 && firstElement < 3
    ensures c < 3 && c == (x + firstElement) % 3
  {
    if x + firstElement < 3 then x + firstElement else x + firstElement - 3
  }

  /** The step at which column `c` is handled, the inverse of `Slot`. */
  function Step(c: nat, firstElement: nat): (x: nat)
    requires c < 3 && firstElement < 3
    ensures x < 3 && Slot(x, firstElement) == c
  {
    if c >= firstElement then c - firstElement else c + 3 - firstElement
  }

  lemma StepSlot(x: nat, firstElement: nat)
    requires x < 3 && firstElement < 3
    ensures Step(Slot(x, firstElement), firstElement) == x
  {
  }

  ghost predicate NonDegenerate(vs: seq<Vec3>) {
    forall k :: 0 <= k < |vs| ==> NormSquared(vs[k]) != 0.0
  }

  ghost predicate PairwiseOrthogonal(vs: seq<Vec3>) {
    forall j, k :: 0 <= j < |vs| && 0 <= k < |vs| && j != k ==> Dot(vs[j], vs[k]) == 0.0
  }

  /**
   * `vector_to_subtract`: the sum, from the zero vector and in order, of the projections
   * of `v` onto each of `previous`.
   */
  function ProjectionSum(previous: seq<Vec3>, v: Vec3): Vec3
    requires NonDegenerate(previous)
  {
    if previous == [] then Zero
    else Add(ProjectionSum(previous[..|previous| - 1], v), Proj(previous[|previous| - 1], v))
  }

  /** A vector orthogonal to all of `previous` is orthogonal to every projection sum onto them. */
  lemma {:induction false} ProjectionSumOrthogonal(w: Vec3, previous: seq<Vec3>, v: Vec3)
    requires NonDegenerate(previous)
    requires forall k :: 0 <= k < |previous| ==> Dot(w, previous[k]) == 0.0
    ensures Dot(w, ProjectionSum(previous, v)) == 0.0
  {
    if previous == [] {
      DotZero(w);
    } else {
      var n := |previous| - 1;
      ProjectionSumOrthogonal(w, previous[..n], v);
      DotAdd(w, ProjectionSum(previous[..n], v), Proj(previous[n], v));
      DotProj(w, previous[n], v);
    }
  }

  /** Against pairwise orthogonal `previous`, the projection sum keeps exactly each `previous[k]`'s share of `v`. */
  lemma {:induction false} ProjectionSumComponent(previous: seq<Vec3>, v: Vec3, k: nat)
    requires NonDegenerate(previous) && PairwiseOrthogonal(previous) && k < |previous|
    ensures Dot(previous[k], ProjectionSum(previous, v)) == Dot(previous[k], v)
  {
    var n := |previous| - 1;
    var w := previous[k];
    DotAdd(w, ProjectionSum(previous[..n], v), Proj(previous[n], v));
    DotProj(w, previous[n], v);
    if k == n {
      ProjectionSumOrthogonal(w, previous[..n], v);
      DotSymmetric(w, v);
      assert Dot(w, v) / NormSquared(w) * NormSquared(w) == Dot(w, v);
    } else {
      ProjectionSumComponent(previous[..n], v, k);
    }
  }

  /** A vector orthogonal to every one of `previous` has no projection on them. */
  lemma {:induction false} ProjectionSumOfOrthogonal(previous: seq<Vec3>, v: Vec3)
    requires NonDegenerate(previous)
    requires forall k :: 0 <= k < |previous| ==> Dot(previous[k], v) == 0.0
    ensures ProjectionSum(previous, v) == Zero
  {
    if previous != [] {
      var n := |previous| - 1;
      ProjectionSumOfOrthogonal(previous[..n], v);
      assert Dot(previous[n], v) / NormSquared(previous[n]) == 0.0;
    }
  }

  /**
   * The first `i` columns orthogonalised, in processing order and before normalisation:
   * entry `x` is input column `Slot(x, firstElement)` minus its projections on the
   * entries before it.
   */
  function Processed(columns: seq<Vec3>, firstElement: nat, i: nat): (r: Result<seq<Vec3>, GramSchmidtError>)
    requires |columns| == 3 && firstElement < 3 && i <= 3
    ensures r.Ok? ==> |r.value| == i && NonDegenerate(r.value)
  {
    if i == 0 then Ok([])
    else
      match Processed(columns, firstElement, i - 1)
      case Err(e) => Err(e)
      case Ok(previous) =>
        var current := columns[Slot(i - 1, firstElement)];
        var o := Sub(current, ProjectionSum(previous, current));
        if NormSquared(o) == 0.0 then Err(DegenerateColumn) else Ok(previous + [o])
  }

  /** Over the reals the orthogonalised columns are exactly pairwise orthogonal. */
  lemma {:induction false} ProcessedOrthogonal(columns: seq<Vec3>, firstElement: nat, i: nat)
    requires |columns| == 3 && firstElement < 3 && i <= 3
    requires Processed(columns, firstElement, i).Ok?
    ensures PairwiseOrthogonal(Processed(columns, firstElement, i).value)
  {
    if i > 0 {
      ProcessedOrthogonal(columns, firstElement, i - 1);
      var previous := Processed(columns, firstElement, i - 1).value;
      var current := columns[Slot(i - 1, firstElement)];
      var o := Sub(current, ProjectionSum(previous, current));
      var vs := previous + [o];
      forall k | 0 <= k < |previous|
        ensures Dot(previous[k], o) == 0.0 && Dot(o, previous[k]) == 0.0
      {
        ProjectionSumComponent(previous, current, k);
        DotSub(previous[k], current, ProjectionSum(previous, current));
        DotSymmetric(previous[k], o);
      }
      forall j, k | 0 <= j < |vs| && 0 <= k < |vs| && j != k
        ensures Dot(vs[j], vs[k]) == 0.0
      {
        if j < |previous| && k < |previous| {
          assert vs[j] == previous[j] && vs[k] == previous[k];
        }
      }
    }
  }

  /**
   * The column vector after the first `|processed|` steps: the columns handled so far
   * hold their orthogonalised values, the others still hold the input.
   */
  function Written(columns: seq<Vec3>, processed: seq<Vec3>, firstElement: nat): (r: seq<Vec3>)
    requires |columns| == 3 && |processed| <= 3 && firstElement < 3
    ensures |r| == 3
  {
    seq(3, c requires 0 <= c < 3 =>
      if Step(c, firstElement) < |processed| then processed[Step(c, firstElement)] else columns[c])
  }

  /** Column `Slot(x)` holds step `x`'s result once step `x` has run, and the input before. */
  lemma WrittenSlot(columns: seq<Vec3>, processed: seq<Vec3>, firstElement: nat, x: nat)
    requires |columns| == 3 && |processed| <= 3 && firstElement < 3 && x < 3
    ensures Written(columns, processed, firstElement)[Slot(x, firstElement)] ==
            if x < |processed| then processed[x] else columns[Slot(x, firstElement)]
  {
    StepSlot(x, firstElement);
  }

  /** One more step writes exactly its own column. */
  lemma WrittenStep(columns: seq<Vec3>, processed: seq<Vec3>, firstElement: nat, o: Vec3)
    requires |columns| == 3 && |processed| < 3 && firstElement < 3
    ensures Written(columns, processed + [o], firstElement) ==
            Written(columns, processed, firstElement)[Slot(|processed|, firstElement) := o]
  {
    var i := |processed|;
    forall c | 0 <= c < 3
      ensures Written(columns, processed + [o], firstElement)[c] ==
              Written(columns, processed, firstElement)[Slot(i, firstElement) := o][c]
    {
      StepSlot(i, firstElement);
    }
  }

  /** The columns already handled, read back in processing order. */
  function HandledColumns(outputColumns: seq<Vec3>, firstElement: nat, i: nat): (r: seq<Vec3>)
    requires |outputColumns| == 3 && firstElement < 3 && i <= 3
    ensures |r| == i
  {
    seq(i, x requires 0 <= x < i => outputColumns[Slot(x, firstElement)])
  }

  lemma HandledWritten(columns: seq<Vec3>, processed: seq<Vec3>, firstElement: nat)
    requires |columns| == 3 && |processed| <= 3 && firstElement < 3
    ensures HandledColumns(Written(columns, processed, firstElement), firstElement, |processed|) == processed
  {
    forall x | 0 <= x < |processed|
      ensures HandledColumns(Written(columns, processed, firstElement), firstElement, |processed|)[x] == processed[x]
    {
      WrittenSlot(columns, processed, firstElement, x);
    }
  }

  function NormaliseAll(vs: seq<Vec3>, sqrt: real -> real): (r: seq<Vec3>)
    ensures |r| == |vs| && forall k :: 0 <= k < |vs| ==> r[k] == Normalise(vs[k], sqrt)
  {
    seq(|vs|, k requires 0 <= k < |vs| => Normalise(vs[k], sqrt))
  }

  /** What `gram_schmidt_orthogonalization` computes. */
  function GramSchmidtResult(input: Mat3, firstElement: nat, sqrt: real -> real): Result<Mat3, GramSchmidtError> {
    if firstElement > 2 then Err(FirstElementOutOfRange)
    else
      match Processed(Columns(input), firstElement, 3)
      case Err(e) => Err(e)
      case Ok(processed) => Ok(MatrixFromColumns(NormaliseAll(Written(Columns(input), processed, firstElement), sqrt)))
  }

  /**
   * `gram_schmidt_orthogonalization`: column `Slot(i)` is replaced, for i = 0, 1, 2, by
   * itself minus its projections on the columns already replaced; then every column is
   * normalised.
   */
  method GramSchmidtOrthogonalization(input: Mat3, firstElement: nat, sqrt: real -> real)
    returns (r: Result<Mat3, GramSchmidtError>)
    ensures r == GramSchmidtResult(input, firstElement, sqrt)
    ensures r == Err(FirstElementOutOfRange) <==> firstElement > 2
  {
    if firstElement > 2 {
      return Err(FirstElementOutOfRange);
    }
    var inputColumns := Columns(input);
    var outputColumns := inputColumns;
    ghost var processed: seq<Vec3> := [];
    for i := 0 to 3
      invariant |processed| == i
      invariant Processed(inputColumns, firstElement, i) == Ok(processed)
      invariant outputColumns == Written(inputColumns, processed, firstElement)
    {
      var currentColumn := inputColumns[Slot(i, firstElement)];
      HandledWritten(inputColumns, processed, firstElement);
      var vectorToSubtract := ProjectionSum(HandledColumns(outputColumns, firstElement, i), currentColumn);
      WrittenSlot(inputColumns, processed, firstElement, i);
      var o := Sub(outputColumns[Slot(i, firstElement)], vectorToSubtract);
      if NormSquared(o) == 0.0 {
        ProcessedErrorPersists(inputColumns, firstElement, i + 1);
        return Err(DegenerateColumn);
      }
      WrittenStep(inputColumns, processed, firstElement, o);
      outputColumns := outputColumns[Slot(i, firstElement) := o];
      processed := processed + [o];
    }
    r := Ok(MatrixFromColumns(NormaliseAll(outputColumns, sqrt)));
  }

  /** Once a step fails, the whole orthogonalisation fails with that error. */
  lemma {:induction false} ProcessedErrorPersists(columns: seq<Vec3>, firstElement: nat, i: nat)
    requires |columns| == 3 && firstElement < 3 && i <= 3
    requires Processed(columns, firstElement, i).Err?
    ensures Processed(columns, firstElement, 3) == Processed(columns, firstElement, i)
    decreases 3 - i
  {
    if i < 3 {
      ProcessedErrorPersists(columns, firstElement, i + 1);
    }
  }

  ghost predicate Orthonormal(m: Mat3) {
    var cs := Columns(m);
    PairwiseOrthogonal(cs) && forall k :: 0 <= k < 3 ==> NormSquared(cs[k]) == 1.0
  }

  /** The pivot column is handled first, against nothing, so it is kept as it is. */
  lemma ProcessedPivot(columns: seq<Vec3>, firstElement: nat)
    requires |columns| == 3 && firstElement < 3
    requires Processed(columns, firstElement, 3).Ok?
    ensures Processed(columns, firstElement, 3).value[0] == columns[firstElement]
  {
    assert Processed(columns, firstElement, 1).Ok?;
    assert Processed(columns, firstElement, 2).Ok?;
    assert Processed(columns, firstElement, 1).value == [columns[firstElement]];
  }

  /** Writing every step's result back at its column keeps orthogonality and non-zero length. */
  lemma WrittenFull(columns: seq<Vec3>, processed: seq<Vec3>, firstElement: nat)
    requires |columns| == 3 && |processed| == 3 && firstElement < 3
    requires NonDegenerate(processed) && PairwiseOrthogonal(processed)
    ensures NonDegenerate(Written(columns, processed, firstElement))
    ensures PairwiseOrthogonal(Written(columns, processed, firstElement))
  {
    var w := Written(columns, processed, firstElement);
    forall c | 0 <= c < 3 ensures w[c] == processed[Step(c, firstElement)] {
    }
    forall j, k | 0 <= j < 3 && 0 <= k < 3 && j != k ensures Dot(w[j], w[k]) == 0.0 {
      assert Step(j, firstElement) != Step(k, firstElement);
    }
  }

  /** Normalising pairwise orthogonal vectors of non-zero length gives an orthonormal set. */
  lemma NormaliseAllOrthonormal(vs: seq<Vec3>, sqrt: real -> real)
    requires IsSqrt(sqrt) && NonDegenerate(vs) && PairwiseOrthogonal(vs)
    ensures PairwiseOrthogonal(NormaliseAll(vs, sqrt))
    ensures forall k :: 0 <= k < |vs| ==> NormSquared(NormaliseAll(vs, sqrt)[k]) == 1.0
  {
    var ns := NormaliseAll(vs, sqrt);
    forall k | 0 <= k < |vs| ensures NormSquared(ns[k]) == 1.0 {
      NormaliseUnit(vs[k], sqrt);
    }
    forall j, k | 0 <= j < |vs| && 0 <= k < |vs| && j != k ensures Dot(ns[j], ns[k]) == 0.0 {
      NormaliseUnit(vs[j], sqrt);
      NormaliseUnit(vs[k], sqrt);
      var a, b := 1.0 / Norm(vs[j], sqrt), 1.0 / Norm(vs[k], sqrt);
      DotScale(ns[j], b, vs[k]);
      DotScale(vs[k], a, vs[j]);
      DotSymmetric(vs[k], vs[j]);
    }
  }

  /**
   * For a valid square root every successful result is orthonormal (`M^T M = I` exactly
   * over the reals), and its pivot column is the normalised input pivot column.
   */
  lemma GramSchmidtOrthonormal(input: Mat3, firstElement: nat, sqrt: real -> real)
    requires IsSqrt(sqrt)
    requires GramSchmidtResult(input, firstElement, sqrt).Ok?
    ensures Orthonormal(GramSchmidtResult(input, firstElement, sqrt).value)
    ensures Columns(GramSchmidtResult(input, firstElement, sqrt).value)[firstElement] ==
            Normalise(Columns(input)[firstElement], sqrt)
  {
    var processed := Processed(Columns(input), firstElement, 3).value;
    ProcessedOrthogonal(Columns(input), firstElement, 3);
    WrittenFull(Columns(input), processed, firstElement);
    var w := Written(Columns(input), processed, firstElement);
    NormaliseAllOrthonormal(w, sqrt);
    ProcessedPivot(Columns(input), firstElement);
    WrittenSlot(Columns(input), processed, firstElement, 0);
  }

  /** Input columns that are already orthogonal and of non-zero length are only normalised. */
  lemma GramSchmidtOfOrthogonal(input: Mat3, firstElement: nat, sqrt: real -> real)
    requires firstElement < 3
    requires NonDegenerate(Columns(input)) && PairwiseOrthogonal(Columns(input))
    ensures GramSchmidtResult(input, firstElement, sqrt) == Ok(MatrixFromColumns(NormaliseAll(Columns(input), sqrt)))
  {
    var cs := Columns(input);
    var ordered := HandledColumns(cs, firstElement, 3);
    forall i | 0 <= i <= 3 ensures Processed(cs, firstElement, i) == Ok(ordered[..i]) {
      ProcessedOfOrthogonal(cs, firstElement, i);
    }
    assert ordered[..3] == ordered;
    forall c | 0 <= c < 3 ensures Written(cs, ordered, firstElement)[c] == cs[c] {
    }
    assert Written(cs, ordered, firstElement) == cs;
  }

  lemma {:induction false} ProcessedOfOrthogonal(cs: seq<Vec3>, firstElement: nat, i: nat)
    requires |cs| == 3 && firstElement < 3 && i <= 3
    requires NonDegenerate(cs) && PairwiseOrthogonal(cs)
    ensures Processed(cs, firstElement, i) == Ok(HandledColumns(cs, firstElement, 3)[..i])
  {
    var ordered := HandledColumns(cs, firstElement, 3);
    if i > 0 {
      ProcessedOfOrthogonal(cs, firstElement, i - 1);
      var previous := ordered[..i - 1];
      var current := cs[Slot(i - 1, firstElement)];
      forall k | 0 <= k < |previous| ensures Dot(previous[k], current) == 0.0 {
        StepSlot(k, firstElement);
        StepSlot(i - 1, firstElement);
      }
      ProjectionSumOfOrthogonal(previous, current);
      assert Sub(current, Zero) == current;
      assert ordered[..i] == previous + [current];
    }
  }

  /** A unit vector scaled by a positive `k` normalises back to itself. */
  lemma NormaliseScaledUnit(e: Vec3, k: real, sqrt: real -> real)
    requires IsSqrt(sqrt) && k > 0.0 && NormSquared(e) == 1.0
    ensures NormSquared(Scale(k, e)) != 0.0
    ensures Normalise(Scale(k, e), sqrt) == e
  {
    var v := Scale(k, e);
    ScaleNonDegenerate(k, e);
    assert NormSquared(v) == k * k by { ScaleNormSquared(k, e); }
    assert Norm(v, sqrt) == k by { SqrtUnique(sqrt, k * k, k); }
    assert Normalise(v, sqrt) == Scale(1.0 / k, v) by { NormaliseUnit(v, sqrt); }
    assert Scale(1.0 / k, v) == Scale((1.0 / k) * k, e) by { ScaleScale(1.0 / k, k, e); }
    assert (1.0 / k) * k == 1.0;
    ScaleOne(e);
  }

  /** The columns of a diagonal matrix are pairwise orthogonal. */
  lemma DiagonalOrthogonal(a: real, b: real, c: real)
    ensures PairwiseOrthogonal(Columns(Diagonal(a, b, c)))
  {
    var cs := Columns(Diagonal(a, b, c));
    forall j, k | 0 <= j < 3 && 0 <= k < 3 && j != k ensures Dot(cs[j], cs[k]) == 0.0 {
    }
  }

  /** Each column of a positive diagonal matrix has non-zero length and normalises to its unit axis. */
  lemma AxisXNormalise(a: real, sqrt: real -> real)
    requires IsSqrt(sqrt) && a > 0.0
    ensures NormSquared(Vec3(a, 0.0, 0.0)) != 0.0 && Normalise(Vec3(a, 0.0, 0.0), sqrt) == UnitX
  {
    assert Vec3(a, 0.0, 0.0) == Scale(a, UnitX);
    UnitXLength();
    NormaliseScaledUnit(UnitX, a, sqrt);
  }

  lemma AxisYNormalise(b: real, sqrt: real -> real)
    requires IsSqrt(sqrt) && b > 0.0
    ensures NormSquared(Vec3(0.0, b, 0.0)) != 0.0 && Normalise(Vec3(0.0, b, 0.0), sqrt) == UnitY
  {
    assert Vec3(0.0, b, 0.0) == Scale(b, UnitY);
    UnitYLength();
    NormaliseScaledUnit(UnitY, b, sqrt);
  }

  lemma AxisZNormalise(c: real, sqrt: real -> real)
    requires IsSqrt(sqrt) && c > 0.0
    ensures NormSquared(Vec3(0.0, 0.0, c)) != 0.0 && Normalise(Vec3(0.0, 0.0, c), sqrt) == UnitZ
  {
    assert Vec3(0.0, 0.0, c) == Scale(c, UnitZ);
    UnitZLength();
    NormaliseScaledUnit(UnitZ, c, sqrt);
  }

  /** The columns of a positive diagonal matrix have non-zero length and normalise to the unit axes. */
  lemma DiagonalNormalise(a: real, b: real, c: real, sqrt: real -> real)
    requires IsSqrt(sqrt) && a > 0.0 && b > 0.0 && c > 0.0
    ensures NonDegenerate(Columns(Diagonal(a, b, c)))
    ensures NormaliseAll(Columns(Diagonal(a, b, c)), sqrt) == [UnitX, UnitY, UnitZ]
  {
    AxisXNormalise(a, sqrt);
    AxisYNormalise(b, sqrt);
    AxisZNormalise(c, sqrt);
  }

  /** A positive diagonal matrix orthonormalises to the identity, whatever the pivot. */
  lemma GramSchmidtDiagonal(a: real, b: real, c: real, firstElement: nat, sqrt: real -> real)
    requires IsSqrt(sqrt) && a > 0.0 && b > 0.0 && c > 0.0 && firstElement < 3
    ensures GramSchmidtResult(Diagonal(a, b, c), firstElement, sqrt) == Ok(Identity())
  {
    DiagonalNormalise(a, b, c, sqrt);
    DiagonalOrthogonal(a, b, c);
    GramSchmidtOfOrthogonal(Diagonal(a, b, c), firstElement, sqrt);
  }

  lemma ScaledIdentity(k: real)
    ensures ScaleMat(k, Identity()) == Diagonal(k, k, k)
  {
  }

  /** The source's first unit test: the identity with pivot 0 stays the identity. */
  lemma GramSchmidtIdentityTest(sqrt: real -> real)
    requires IsSqrt(sqrt)
    ensures GramSchmidtResult(Identity(), 0, sqrt) == Ok(Identity())
  {
    ScaledIdentity(1.0);
    ScaleOne(UnitX);
    ScaleOne(UnitY);
    ScaleOne(UnitZ);
    GramSchmidtDiagonal(1.0, 1.0, 1.0, 0, sqrt);
  }

  /** A positive multiple of the identity orthonormalises to the identity, whatever the pivot. */
  lemma GramSchmidtScaledIdentity(k: real, firstElement: nat, sqrt: real -> real)
    requires IsSqrt(sqrt) && k > 0.0 && firstElement < 3
    ensures GramSchmidtResult(ScaleMat(k, Identity()), firstElement, sqrt) == Ok(Identity())
  {
    ScaledIdentity(k);
    GramSchmidtDiagonal(k, k, k, firstElement, sqrt);
  }

  /** The source's second unit test: twice the identity with pivot 1 gives the identity. */
  lemma GramSchmidtTwiceIdentityTest(sqrt: real -> real)
    requires IsSqrt(sqrt)
    ensures GramSchmidtResult(ScaleMat(2.0, Identity()), 1, sqrt) == Ok(Identity())
  {
    GramSchmidtScaledIdentity(2.0, 1, sqrt);
  }
}
