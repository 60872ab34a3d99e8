/** The error evaluator `totalSquaredError` of site/app.js: the reconstruction
    p·qᵗ and the sum of squared residuals over the observed cells. */
module Evaluation {
  import opened Matrices
  import opened Masks

  /** `r` and `rHat` share one rectangular shape, and the mask covers it. */
  predicate Comparable(r: Matrix, rHat: Matrix, mask: Mask) {
    IsRect(r, |r|, Cols(r)) && IsRect(rHat, |r|, Cols(r)) && mask.Fits(|r|, Cols(r))
  }

  /** Cell (a, b) comes before cell (i, j) in row-major order. */
  predicate Before(a: nat, b: nat, i: nat, j: nat) {
    a < i || (a == i && b < j)
  }

  /** diff·diff, the contribution of one observed cell. */
  function Square(x: real): (s: real)
    ensures s >= 0.0
    ensures s == 0.0 <==> x == 0.0
  {
    TimesSign(x, x);
    Times(x, x)
  }

  /** The sum of squared residuals over the observed cells before (i, j), taken in
      row-major order; (|r|, 0) stands for "after the last cell". */
  function CellsError(r: Matrix, rHat: Matrix, mask: Mask, i: nat, j: nat): (s: real)
    requires Comparable(r, rHat, mask)
    requires (i < |r| && j <= Cols(r)) || (i == |r| && j == 0)
    ensures s >= 0.0
    decreases i, j
  {
    if j == 0 then
      if i == 0 then 0.0 else CellsError(r, rHat, mask, i - 1, Cols(r))
    else
      CellsError(r, rHat, mask, i, j - 1)
        + (if mask.Observes(i, j - 1) then Square(r[i][j - 1] - rHat[i][j - 1]) else 0.0)
  }

  /** Σ over observed cells of (r[i][j] − rHat[i][j])². */
  function MaskedError(r: Matrix, rHat: Matrix, mask: Mask): (s: real)
    requires Comparable(r, rHat, mask)
    ensures s >= 0.0
  {
    CellsError(r, rHat, mask, |r|, 0)
  }

  /** Two (matrix, mask) pairs of one shape that observe the same cells and agree on
      them give the same partial error. */
  lemma {:induction false} CellsErrorCongruent(r: Matrix, mask: Mask, r2: Matrix, mask2: Mask, rHat: Matrix, i: nat, j: nat)
    requires Comparable(r, rHat, mask) && Comparable(r2, rHat, mask2) && |r2| == |r| && Cols(r2) == Cols(r)
    requires forall a, b :: 0 <= a < |r| && 0 <= b < Cols(r) ==> mask.Observes(a, b) == mask2.Observes(a, b)
    requires forall a, b :: 0 <= a < |r| && 0 <= b < Cols(r) && mask.Observes(a, b) ==> r[a][b] == r2[a][b]
    requires (i < |r| && j <= Cols(r)) || (i == |r| && j == 0)
    ensures CellsError(r, rHat, mask, i, j) == CellsError(r2, rHat, mask2, i, j)
    decreases i, j
  {
    if j == 0 {
      if i > 0 {
        CellsErrorCongruent(r, mask, r2, mask2, rHat, i - 1, Cols(r));
      }
    } else {
      CellsErrorCongruent(r, mask, r2, mask2, rHat, i, j - 1);
    }
  }

  /** Changing `r` at a cell the mask leaves out does not change the error. */
  lemma MaskedOutCellIrrelevant(r: Matrix, rHat: Matrix, mask: Mask, i: nat, j: nat, x: real)
    requires Comparable(r, rHat, mask) && mask.Present?
    requires i < |r| && j < Cols(r) && !mask.cells[i][j]
    ensures Comparable(r[i := r[i][j := x]], rHat, mask)
    ensures MaskedError(r[i := r[i][j := x]], rHat, mask) == MaskedError(r, rHat, mask)
  {
    var r2 := r[i := r[i][j := x]];
    assert Cols(r2) == Cols(r);
    CellsErrorCongruent(r, mask, r2, mask, rHat, |r|, 0);
  }

  /** No mask gives the same error as a mask of only true cells. */
  lemma AbsentMaskObservesAll(r: Matrix, rHat: Matrix)
    requires Comparable(r, rHat, Absent)
    ensures Comparable(r, rHat, AllTrue(|r|, Cols(r)))
    ensures MaskedError(r, rHat, Absent) == MaskedError(r, rHat, AllTrue(|r|, Cols(r)))
  {
    CellsErrorCongruent(r, Absent, r, AllTrue(|r|, Cols(r)), rHat, |r|, 0);
  }

  /** The partial error is 0 exactly when every observed cell before (i, j) is
      reproduced exactly. */
  lemma {:induction false} CellsErrorZeroIff(r: Matrix, rHat: Matrix, mask: Mask, i: nat, j: nat)
    requires Comparable(r, rHat, mask)
    requires (i < |r| && j <= Cols(r)) || (i == |r| && j == 0)
    ensures CellsError(r, rHat, mask, i, j) == 0.0 <==>
      forall a, b :: 0 <= a < |r| && 0 <= b < Cols(r) && Before(a, b, i, j) && mask.Observes(a, b) ==> r[a][b] == rHat[a][b]
    decreases i, j
  {
    if j == 0 {
      if i > 0 {
        CellsErrorZeroIff(r, rHat, mask, i - 1, Cols(r));
        assert forall a, b :: 0 <= b < Cols(r) ==> (Before(a, b, i, 0) <==> Before(a, b, i - 1, Cols(r)));
      }
    } else {
      CellsErrorZeroIff(r, rHat, mask, i, j - 1);
      assert forall a, b :: Before(a, b, i, j) <==> Before(a, b, i, j - 1) || (a == i && b == j - 1);
    }
  }

  /** The error is 0 exactly when the reconstruction matches every observed cell. */
  lemma MaskedErrorZeroIff(r: Matrix, rHat: Matrix, mask: Mask)
    requires Comparable(r, rHat, mask)
    ensures MaskedError(r, rHat, mask) == 0.0 <==>
      forall i, j :: 0 <= i < |r| && 0 <= j < Cols(r) && mask.Observes(i, j) ==> r[i][j] == rHat[i][j]
  {
    CellsErrorZeroIff(r, rHat, mask, |r|, 0);
  }

  /** The shapes `totalSquaredError` works on: p is users×k, q is items×k with k ≥ 1
      and items ≥ 1, r is users×items and the mask covers r. */
  predicate Factorable(r: Matrix, p: Matrix, q: Matrix, mask: Mask) {
    && FactorShapes(p, q)
    && IsRect(r, |p|, |q|)
    && mask.Fits(|p|, |q|)
  }

  /** `totalSquaredError(r, p, q, mask)`: returns the reconstruction p·qᵗ, whose cell
      [i][j] is dot(p[i], q[j]), and the squared error over the observed cells. The
      arguments are values, so nothing of r, p or q can change. */
  method TotalSquaredError(r: Matrix, p: Matrix, q: Matrix, mask: Mask) returns (sum: real, rHat: Matrix)
    requires Factorable(r, p, q, mask)
    ensures Multipliable(p, Transposed(q)) && rHat == Product(p, Transposed(q))
    ensures IsRect(rHat, |p|, |q|)
    ensures forall i, j :: 0 <= i < |p| && 0 <= j < |q| ==> rHat[i][j] == InnerProduct(p[i], q[j], |q[0]|)
    ensures Comparable(r, rHat, mask) && sum == MaskedError(r, rHat, mask)
    ensures sum >= 0.0
  {
    var qT := Transpose(q);
    rHat := MatMul(p, qT);
    forall i, j | 0 <= i < |p| && 0 <= j < |q|
      ensures rHat[i][j] == InnerProduct(p[i], q[j], |q[0]|)
    {
      ProductTransposeAt(p, q, |q[0]|, i, j);
    }
    sum := ObservedSquaredError(r, rHat, mask);
  }

  /** The accumulation loop of `totalSquaredError`: the sum of (r[i][j] − rHat[i][j])²
      over the observed cells, in row-major order. */
  method ObservedSquaredError(r: Matrix, rHat: Matrix, mask: Mask) returns (sum: real)
    requires Comparable(r, rHat, mask)
    ensures sum == MaskedError(r, rHat, mask)
  {
    sum := 0.0;
    for i := 0 to |r|
      invariant sum == CellsError(r, rHat, mask, i, 0)
    {
      for j := 0 to |r[0]|
        invariant sum == CellsError(r, rHat, mask, i, j)
      {
        if mask.Present? && !mask.cells[i][j] {
          continue;
        }
        var diff := r[i][j] - rHat[i][j];
        sum := sum + diff * diff;
      }
    }
  }
}
