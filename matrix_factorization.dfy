/** matrix_factorization.py, the NumPy twin of the engine: `generate_random_factors`,
    `predict_ratings`, `total_squared_error` and `sgd_step`. Arrays are NumPy
    2-D arrays; `sgd_step` assigns whole rows of p and q in place. */
module MatrixFactorization {
  import opened Matrices
  import opened Masks
  import Evaluation
  import Optimizer

  // ---------------------------------------------------------------------------
  // generate_random_factors

  /** `uniform(low, high)` applied to a standard uniform u. */
  function Scale(low: real, high: real, u: real): real {
    low + (high - low) * u
  }

  /** `generate_random_factors(num_users, num_items, k, seed, low, high)`: the
      generator's standard-uniform stream is the parameter `units` (NumPy's own
      generator is not part of this model); `uniform(low, high)` maps u to
      low + (high − low)·u, p taking the first num_users·k values and q the rest. */
  function GenerateRandomFactors(numUsers: nat, numItems: nat, k: nat, low: real, high: real, units: seq<real>)
    : (pq: (Matrix, Matrix))
    requires |units| == (numUsers + numItems) * k
    ensures IsRect(pq.0, numUsers, k) && IsRect(pq.1, numItems, k)
  {
    var scaled := seq(|units|, t requires 0 <= t < |units| => Scale(low, high, units[t]));
    (FromRowMajor(scaled[..numUsers * k], numUsers, k), FromRowMajor(scaled[numUsers * k..], numItems, k))
  }

  /** Read back in row-major order, p then q are the scaled stream. */
  lemma GeneratedFactorsOrder(numUsers: nat, numItems: nat, k: nat, low: real, high: real, units: seq<real>)
    requires |units| == (numUsers + numItems) * k
    ensures Flatten(GenerateRandomFactors(numUsers, numItems, k, low, high, units).0)
          + Flatten(GenerateRandomFactors(numUsers, numItems, k, low, high, units).1)
         == seq(|units|, t requires 0 <= t < |units| => Scale(low, high, units[t]))
  {
    var scaled := seq(|units|, t requires 0 <= t < |units| => Scale(low, high, units[t]));
    var n := numUsers * k;
    assert |scaled[n..]| == numItems * k;
    FlattenFromRowMajor(scaled[..n], numUsers, k);
    FlattenFromRowMajor(scaled[n..], numItems, k);
    assert scaled[..n] + scaled[n..] == scaled;
  }

  /** Every entry lies in [low, high) when the units lie in [0, 1), as NumPy's
      `uniform(low, high)` promises. */
  lemma GeneratedFactorsRange(numUsers: nat, numItems: nat, k: nat, low: real, high: real, units: seq<real>)
    requires |units| == (numUsers + numItems) * k
    requires low < high && forall t :: 0 <= t < |units| ==> 0.0 <= units[t] < 1.0
    ensures forall i, j :: 0 <= i < numUsers && 0 <= j < k ==>
      low <= GenerateRandomFactors(numUsers, numItems, k, low, high, units).0[i][j] < high
    ensures forall i, j :: 0 <= i < numItems && 0 <= j < k ==>
      low <= GenerateRandomFactors(numUsers, numItems, k, low, high, units).1[i][j] < high
  {
    var scaled := seq(|units|, t requires 0 <= t < |units| => Scale(low, high, units[t]));
    var n := numUsers * k;
    ScaledAllInRange(low, high, units);
    assert |scaled[n..]| == numItems * k;
    EntriesInRange(scaled[..n], numUsers, k, low, high);
    EntriesInRange(scaled[n..], numItems, k, low, high);
  }

  lemma ScaledAllInRange(low: real, high: real, units: seq<real>)
    requires low < high && forall t :: 0 <= t < |units| ==> 0.0 <= units[t] < 1.0
    ensures forall t :: 0 <= t < |units| ==> low <= Scale(low, high, units[t]) < high
  {
    forall t | 0 <= t < |units|
      ensures low <= Scale(low, high, units[t]) < high
    {
      ScaledInRange(low, high, units[t]);
    }
  }

  /** A matrix cut from values in [low, high) has its entries in [low, high). */
  lemma EntriesInRange(xs: seq<real>, rows: nat, cols: nat, low: real, high: real)
    requires |xs| == rows * cols && forall t :: 0 <= t < |xs| ==> low <= xs[t] < high
    ensures forall i, j :: 0 <= i < rows && 0 <= j < cols ==> low <= FromRowMajor(xs, rows, cols)[i][j] < high
  {
    forall i, j | 0 <= i < rows && 0 <= j < cols
      ensures low <= FromRowMajor(xs, rows, cols)[i][j] < high
    {
      FromRowMajorAt(xs, rows, cols, i, j);
    }
  }

  lemma ScaledInRange(low: real, high: real, u: real)
    requires low < high && 0.0 <= u < 1.0
    ensures low <= Scale(low, high, u) < high
  {
    TimesSign(high - low, 1.0 - u);
    assert Times(high - low, 1.0 - u) == (high - low) - (high - low) * u;
    if u > 0.0 {
      TimesSign(high - low, u);
    }
  }

  // ---------------------------------------------------------------------------
  // predict_ratings

  /** `predict_ratings(p, q)`, i.e. `p @ q.T`: cell [i][j] is p[i]·q[j]. */
  function PredictRatings(p: Matrix, q: Matrix): (rHat: Matrix)
    requires SameWidth(p, q)
    ensures IsRect(rHat, |p|, |q|)
  {
    seq(|p|, i requires 0 <= i < |p| =>
      seq(|q|, j requires 0 <= j < |q| => InnerProduct(p[i], q[j], |p[i]|)))
  }

  /** `p @ q.T` is the matrix product of p with the transpose of q, as `matmul(p,
      transpose(q))` computes it in site/app.js. */
  lemma PredictRatingsIsProduct(p: Matrix, q: Matrix)
    requires FactorShapes(p, q)
    ensures SameWidth(p, q) && Multipliable(p, Transposed(q))
    ensures PredictRatings(p, q) == Product(p, Transposed(q))
  {
    var a, b := PredictRatings(p, q), Product(p, Transposed(q));
    forall i | 0 <= i < |p|
      ensures a[i] == b[i]
    {
      forall j | 0 <= j < |q|
        ensures a[i][j] == b[i][j]
      {
        ProductTransposeAt(p, q, |q[0]|, i, j);
      }
    }
  }

  /** Users and items play symmetric parts: (p qᵀ)ᵀ = q pᵀ. */
  lemma PredictRatingsTransposed(p: Matrix, q: Matrix)
    requires SameWidth(p, q) && |p| > 0
    ensures SameWidth(q, p) && Transposable(PredictRatings(p, q))
    ensures Transposed(PredictRatings(p, q)) == PredictRatings(q, p)
  {
    var a, b := Transposed(PredictRatings(p, q)), PredictRatings(q, p);
    forall j | 0 <= j < |q|
      ensures a[j] == b[j]
    {
      forall i | 0 <= i < |p|
        ensures a[j][i] == b[j][i]
      {
        InnerProductSymmetric(p[i], q[j], |p[i]|);
      }
    }
  }

  // ---------------------------------------------------------------------------
  // total_squared_error

  /** `r - r_hat`, entry by entry. */
  function Difference(r: Matrix, rHat: Matrix): (d: Matrix)
    requires IsRect(r, |r|, Cols(r)) && IsRect(rHat, |r|, Cols(r))
    ensures IsRect(d, |r|, Cols(r)) && Cols(d) == Cols(r)
    ensures forall i, j :: 0 <= i < |r| && 0 <= j < Cols(r) ==> d[i][j] == r[i][j] - rHat[i][j]
  {
    seq(|r|, i requires 0 <= i < |r| => seq(Cols(r), j requires 0 <= j < Cols(r) => r[i][j] - rHat[i][j]))
  }

  /** The entries of `row` whose flag is true, in order. */
  function Keep(row: seq<real>, flags: seq<bool>): seq<real>
    requires |flags| == |row|
  {
    if |row| == 0 then []
    else Keep(row[..|row| - 1], flags[..|row| - 1]) + (if flags[|row| - 1] then [row[|row| - 1]] else [])
  }

  /** The entries `diff[mask]` selects, in row-major order; every entry without a mask. */
  function Selected(d: Matrix, mask: Mask): seq<real>
    requires IsRect(d, |d|, Cols(d)) && mask.Fits(|d|, Cols(d))
  {
    if mask.Absent? then Flatten(d)
    else Flatten(seq(|d|, i requires 0 <= i < |d| => Keep(d[i], mask.cells[i])))
  }

  /** `np.sum(diff * diff)`. */
  function SumOfSquares(xs: seq<real>): (s: real)
    ensures s >= 0.0
  {
    if |xs| == 0 then 0.0 else SumOfSquares(xs[..|xs| - 1]) + Evaluation.Square(xs[|xs| - 1])
  }

  /** `total_squared_error(r, p, q, mask)`. */
  function TotalSquaredError(r: Matrix, p: Matrix, q: Matrix, mask: Mask): (e: real)
    requires SameWidth(p, q) && IsRect(r, |p|, |q|) && mask.Fits(|p|, |q|)
    ensures e >= 0.0
  {
    var rHat := PredictRatings(p, q);
    assert Cols(r) == Cols(rHat);
    SumOfSquares(Selected(Difference(r, rHat), mask))
  }

  /** The NumPy error is the error of the loop in site/app.js. */
  lemma TotalSquaredErrorIsMaskedError(r: Matrix, p: Matrix, q: Matrix, mask: Mask)
    requires SameWidth(p, q) && IsRect(r, |p|, |q|) && mask.Fits(|p|, |q|)
    ensures Evaluation.Comparable(r, PredictRatings(p, q), mask)
    ensures TotalSquaredError(r, p, q, mask) == Evaluation.MaskedError(r, PredictRatings(p, q), mask)
  {
    var rHat := PredictRatings(p, q);
    assert Cols(r) == Cols(rHat);
    SelectedSumIsMaskedError(r, rHat, mask);
  }

  /** 0 exactly when every selected cell is reproduced exactly. */
  lemma TotalSquaredErrorZeroIff(r: Matrix, p: Matrix, q: Matrix, mask: Mask)
    requires SameWidth(p, q) && IsRect(r, |p|, |q|) && mask.Fits(|p|, |q|)
    ensures TotalSquaredError(r, p, q, mask) == 0.0 <==>
      forall i, j :: 0 <= i < |p| && 0 <= j < |q| && mask.Observes(i, j) ==> r[i][j] == InnerProduct(p[i], q[j], |p[i]|)
  {
    TotalSquaredErrorIsMaskedError(r, p, q, mask);
    Evaluation.MaskedErrorZeroIff(r, PredictRatings(p, q), mask);
  }

  /** The selected entries of row i before column j. */
  function RowSelection(d: Matrix, mask: Mask, i: nat, j: nat): seq<real>
    requires IsRect(d, |d|, Cols(d)) && mask.Fits(|d|, Cols(d)) && i < |d| && j <= Cols(d)
  {
    if mask.Absent? then d[i][..j] else Keep(d[i][..j], mask.cells[i][..j])
  }

  function RowSelections(d: Matrix, mask: Mask): seq<seq<real>>
    requires IsRect(d, |d|, Cols(d)) && mask.Fits(|d|, Cols(d))
  {
    seq(|d|, i requires 0 <= i < |d| => RowSelection(d, mask, i, Cols(d)))
  }

  lemma SelectedByRows(d: Matrix, mask: Mask)
    requires IsRect(d, |d|, Cols(d)) && mask.Fits(|d|, Cols(d))
    ensures Selected(d, mask) == Flatten(RowSelections(d, mask))
  {
    var rows := RowSelections(d, mask);
    if mask.Absent? {
      assert forall i :: 0 <= i < |d| ==> d[i][..Cols(d)] == d[i];
      assert rows == d;
    } else {
      assert forall i :: 0 <= i < |d| ==> d[i][..Cols(d)] == d[i] && mask.cells[i][..Cols(d)] == mask.cells[i];
      assert rows == seq(|d|, i requires 0 <= i < |d| => Keep(d[i], mask.cells[i]));
    }
  }

  lemma RowSelectionSnoc(d: Matrix, mask: Mask, i: nat, j: nat)
    requires IsRect(d, |d|, Cols(d)) && mask.Fits(|d|, Cols(d)) && i < |d| && 0 < j <= Cols(d)
    ensures RowSelection(d, mask, i, j)
         == RowSelection(d, mask, i, j - 1) + (if mask.Observes(i, j - 1) then [d[i][j - 1]] else [])
  {
    if mask.Absent? {
      assert d[i][..j] == d[i][..j - 1] + [d[i][j - 1]];
    } else {
      assert d[i][..j][..j - 1] == d[i][..j - 1];
      assert mask.cells[i][..j][..j - 1] == mask.cells[i][..j - 1];
    }
  }

  lemma SumOfSquaresSnoc(xs: seq<real>, z: real)
    ensures SumOfSquares(xs + [z]) == SumOfSquares(xs) + Evaluation.Square(z)
  {
    assert (xs + [z])[..|xs|] == xs;
  }

  /** The entries selected before cell (i, j) in row-major order; (|d|, 0) stands
      for "after the last cell". */
  function SelectedBefore(d: Matrix, mask: Mask, i: nat, j: nat): seq<real>
    requires IsRect(d, |d|, Cols(d)) && mask.Fits(|d|, Cols(d))
    requires (i < |d| && j <= Cols(d)) || (i == |d| && j == 0)
  {
    Flatten(RowSelections(d, mask)[..i]) + (if i < |d| then RowSelection(d, mask, i, j) else [])
  }

  lemma SelectedBeforeFirst(d: Matrix, mask: Mask)
    requires IsRect(d, |d|, Cols(d)) && mask.Fits(|d|, Cols(d))
    ensures SelectedBefore(d, mask, 0, 0) == []
  {
    assert RowSelections(d, mask)[..0] == [];
    if |d| > 0 && mask.Present? {
      assert d[0][..0] == [];
    }
  }

  lemma SelectedBeforeRowStart(d: Matrix, mask: Mask, i: nat)
    requires IsRect(d, |d|, Cols(d)) && mask.Fits(|d|, Cols(d)) && 0 < i <= |d|
    ensures SelectedBefore(d, mask, i, 0) == SelectedBefore(d, mask, i - 1, Cols(d))
  {
    var rows := RowSelections(d, mask);
    assert rows[..i] == rows[..i - 1] + [rows[i - 1]];
    FlattenConcat(rows[..i - 1], [rows[i - 1]]);
    assert Flatten([rows[i - 1]]) == rows[i - 1] by {
      assert [rows[i - 1]][1..] == [];
    }
    if i < |d| && mask.Present? {
      assert d[i][..0] == [];
    }
  }

  lemma SelectedBeforeCell(d: Matrix, mask: Mask, i: nat, j: nat)
    requires IsRect(d, |d|, Cols(d)) && mask.Fits(|d|, Cols(d)) && i < |d| && 0 < j <= Cols(d)
    ensures SelectedBefore(d, mask, i, j)
         == SelectedBefore(d, mask, i, j - 1) + (if mask.Observes(i, j - 1) then [d[i][j - 1]] else [])
  {
    RowSelectionSnoc(d, mask, i, j);
  }

  /** The loop's partial error before (i, j) is the sum of squares of the entries
      selected before (i, j). */
  lemma {:induction false} PartialSelection(r: Matrix, rHat: Matrix, mask: Mask, i: nat, j: nat)
    requires Evaluation.Comparable(r, rHat, mask)
    requires (i < |r| && j <= Cols(r)) || (i == |r| && j == 0)
    ensures Evaluation.CellsError(r, rHat, mask, i, j) == SumOfSquares(SelectedBefore(Difference(r, rHat), mask, i, j))
    decreases i, j
  {
    if j == 0 {
      if i == 0 {
        SelectedBeforeFirst(Difference(r, rHat), mask);
      } else {
        PartialSelection(r, rHat, mask, i - 1, Cols(r));
        PartialSelectionRowStart(r, rHat, mask, i);
      }
    } else {
      PartialSelection(r, rHat, mask, i, j - 1);
      PartialSelectionCell(r, rHat, mask, i, j);
    }
  }

  lemma PartialSelectionRowStart(r: Matrix, rHat: Matrix, mask: Mask, i: nat)
    requires Evaluation.Comparable(r, rHat, mask) && 0 < i <= |r|
    requires Evaluation.CellsError(r, rHat, mask, i - 1, Cols(r))
          == SumOfSquares(SelectedBefore(Difference(r, rHat), mask, i - 1, Cols(r)))
    ensures Evaluation.CellsError(r, rHat, mask, i, 0) == SumOfSquares(SelectedBefore(Difference(r, rHat), mask, i, 0))
  {
    SelectedBeforeRowStart(Difference(r, rHat), mask, i);
  }

  lemma PartialSelectionCell(r: Matrix, rHat: Matrix, mask: Mask, i: nat, j: nat)
    requires Evaluation.Comparable(r, rHat, mask) && i < |r| && 0 < j <= Cols(r)
    requires Evaluation.CellsError(r, rHat, mask, i, j - 1)
          == SumOfSquares(SelectedBefore(Difference(r, rHat), mask, i, j - 1))
    ensures Evaluation.CellsError(r, rHat, mask, i, j) == SumOfSquares(SelectedBefore(Difference(r, rHat), mask, i, j))
  {
    var d := Difference(r, rHat);
    SelectedBeforeCell(d, mask, i, j);
    if mask.Observes(i, j - 1) {
      var before := SelectedBefore(d, mask, i, j - 1);
      SumOfSquaresSnoc(before, d[i][j - 1]);
      assert d[i][j - 1] == r[i][j - 1] - rHat[i][j - 1];
      assert SelectedBefore(d, mask, i, j) == before + [d[i][j - 1]];
      assert Evaluation.CellsError(r, rHat, mask, i, j)
          == Evaluation.CellsError(r, rHat, mask, i, j - 1) + Evaluation.Square(d[i][j - 1]);
    } else {
      assert SelectedBefore(d, mask, i, j) == SelectedBefore(d, mask, i, j - 1);
      assert Evaluation.CellsError(r, rHat, mask, i, j) == Evaluation.CellsError(r, rHat, mask, i, j - 1);
    }
  }

  lemma SelectedSumIsMaskedError(r: Matrix, rHat: Matrix, mask: Mask)
    requires Evaluation.Comparable(r, rHat, mask)
    ensures SumOfSquares(Selected(Difference(r, rHat), mask)) == Evaluation.MaskedError(r, rHat, mask)
  {
    var d := Difference(r, rHat);
    PartialSelection(r, rHat, mask, |r|, 0);
    SelectedByRows(d, mask);
    var rows := RowSelections(d, mask);
    assert rows[..|r|] == rows;
    assert SelectedBefore(d, mask, |r|, 0) == Flatten(rows);
  }

  // ---------------------------------------------------------------------------
  // sgd_step

  /** `a[i] = row`: NumPy's assignment of a whole row. */
  method AssignRow(a: array2<real>, i: nat, row: seq<real>)
    requires i < a.Length0 && |row| == a.Length1
    modifies a
    ensures Rows(a) == old(Rows(a))[i := row]
  {
    ghost var before := Rows(a);
    forall k | 0 <= k < a.Length1 {
      a[i, k] := row[k];
    }
    RowsAre(a, before[i := row]);
  }

  /** The body of the cell loop of `sgd_step` for an observed cell. */
  method VisitCell(rij: real, p: array2<real>, q: array2<real>, i: nat, j: nat, alpha: real)
    requires p != q && i < p.Length0 && j < q.Length0 && p.Length1 == q.Length1
    modifies p, q
    ensures Optimizer.Factors(Rows(p), Rows(q))
         == Optimizer.CellUpdate(old(Optimizer.Factors(Rows(p), Rows(q))), i, j, rij, alpha)
  {
    ghost var f := Optimizer.Factors(Rows(p), Rows(q));
    var dot := Dot(Row(p, i), Row(q, j));
    var eij := rij - dot;
    var pOld := Row(p, i);
    // the scalar 2·α·e multiplies the row as one factor
    var c := 2.0 * alpha * eij;
    assert c == Optimizer.Gain(alpha, Optimizer.Residual(f, i, j, rij));
    AssignRow(p, i, Axpy(pOld, c, Row(q, j)));
    AssignRow(q, j, Axpy(Row(q, j), c, pOld));
  }

  /** `sgd_step(r, p, q, alpha, mask)`: the same epoch as `sgdStep` of site/app.js. */
  method SgdStep(r: Matrix, p: array2<real>, q: array2<real>, alpha: real, mask: Mask)
    requires p != q
    requires IsRect(r, p.Length0, q.Length0) && p.Length1 == q.Length1 && mask.Fits(p.Length0, q.Length0)
    modifies p, q
    ensures Optimizer.Fits(r, mask, old(Optimizer.Factors(Rows(p), Rows(q))))
    ensures Optimizer.Factors(Rows(p), Rows(q))
         == Optimizer.Epoch(r, mask, alpha, old(Optimizer.Factors(Rows(p), Rows(q))))
  {
    ghost var f0 := Optimizer.Factors(Rows(p), Rows(q));
    assert Optimizer.Fits(r, mask, f0);
    for i := 0 to |r|
      invariant Optimizer.Factors(Rows(p), Rows(q)) == Optimizer.Upto(r, mask, alpha, f0, i, 0)
    {
      SgdRow(r, p, q, alpha, mask, i, f0);
    }
  }

  /** The iterations of the cell loop of `sgd_step` for user i. */
  method SgdRow(r: Matrix, p: array2<real>, q: array2<real>, alpha: real, mask: Mask, i: nat,
                ghost f0: Optimizer.Factors)
    requires p != q && p.Length1 == q.Length1 && i < p.Length0
    requires Optimizer.Fits(r, mask, f0) && i < |f0.p|
    requires Optimizer.Factors(Rows(p), Rows(q)) == Optimizer.Upto(r, mask, alpha, f0, i, 0)
    modifies p, q
    ensures Optimizer.Factors(Rows(p), Rows(q)) == Optimizer.Upto(r, mask, alpha, f0, i + 1, 0)
  {
    for j := 0 to q.Length0
      invariant Optimizer.Factors(Rows(p), Rows(q)) == Optimizer.Upto(r, mask, alpha, f0, i, j)
    {
      if mask.Present? && !mask.cells[i][j] {
        continue;
      }
      VisitCell(r[i][j], p, q, i, j, alpha);
    }
  }
}
