/** The SGD optimizer `sgdStep` of site/app.js: one Gauss–Seidel epoch over the
    observed cells, in row-major order, updating the factor matrices in place.

    The specification is a fold over the cells: `Upto(.., i, j)` is the pair of
    factor matrices after every cell before (i, j) has been visited, so a later
    cell sees the updates of the earlier ones. Within one cell both rows move by
    the same residual, and q's row moves along p's row as it was before the cell. */
module Optimizer {
  import opened Matrices
  import opened Masks

  /** The factor matrices P (users×k) and Q (items×k). */
  datatype Factors = Factors(p: Matrix, q: Matrix)

  /** `g` has the shape of `f`, row by row. */
  predicate SameShape(f: Factors, g: Factors) {
    && |g.p| == |f.p| && |g.q| == |f.q|
    && (forall i :: 0 <= i < |f.p| ==> |g.p[i]| == |f.p[i]|)
    && (forall j :: 0 <= j < |f.q| ==> |g.q[j]| == |f.q[j]|)
  }

  /** r is users×items, the mask covers it, and the factors agree on k. */
  predicate Fits(r: Matrix, mask: Mask, f: Factors) {
    IsRect(r, |f.p|, |f.q|) && mask.Fits(|f.p|, |f.q|) && SameWidth(f.p, f.q)
  }

  lemma SameShapeFits(r: Matrix, mask: Mask, f: Factors, g: Factors)
    requires Fits(r, mask, f) && SameShape(f, g)
    ensures Fits(r, mask, g)
  {
    forall i, j | 0 <= i < |g.p| && 0 <= j < |g.q|
      ensures |g.p[i]| == |g.q[j]|
    {
      assert |g.p[i]| == |f.p[i]| == |f.q[j]| == |g.q[j]|;
    }
  }

  /** The residual e = r_ij − p[i]·q[j] of cell (i, j). */
  function Residual(f: Factors, i: nat, j: nat, rij: real): real
    requires i < |f.p| && j < |f.q| && |f.p[i]| == |f.q[j]|
  {
    rij - InnerProduct(f.p[i], f.q[j], |f.p[i]|)
  }

  /** The step size 2αe of a cell with residual e. */
  function Gain(alpha: real, e: real): real {
    2.0 * alpha * e
  }

  /** The update for one observed cell (i, j): with e its residual,
      p[i] += 2αe·q[j] and q[j] += 2αe·pOld, where pOld is p[i] before this cell. */
  function CellUpdate(f: Factors, i: nat, j: nat, rij: real, alpha: real): (g: Factors)
    requires i < |f.p| && j < |f.q| && |f.p[i]| == |f.q[j]|
    ensures SameShape(f, g)
    ensures forall a :: 0 <= a < |f.p| && a != i ==> g.p[a] == f.p[a]
    ensures forall b :: 0 <= b < |f.q| && b != j ==> g.q[b] == f.q[b]
  {
    var c := Gain(alpha, Residual(f, i, j, rij));
    var pOld := f.p[i];
    Factors(f.p[i := Axpy(pOld, c, f.q[j])], f.q[j := Axpy(f.q[j], c, pOld)])
  }

  /** Cell (i, j) of the sweep: updated when observed, skipped otherwise. */
  function Visit(r: Matrix, mask: Mask, alpha: real, f: Factors, i: nat, j: nat): (g: Factors)
    requires Fits(r, mask, f) && i < |f.p| && j < |f.q|
    ensures SameShape(f, g)
  {
    if mask.Observes(i, j) then CellUpdate(f, i, j, r[i][j], alpha) else f
  }

  /** The factors after visiting, from `f0`, every cell before (i, j) in row-major
      order; (|p|, 0) stands for "after the last cell". */
  function Upto(r: Matrix, mask: Mask, alpha: real, f0: Factors, i: nat, j: nat): (f: Factors)
    requires Fits(r, mask, f0)
    requires (i < |f0.p| && j <= |f0.q|) || (i == |f0.p| && j == 0)
    ensures SameShape(f0, f)
    decreases i, j
  {
    if j == 0 then
      if i == 0 then f0 else Upto(r, mask, alpha, f0, i - 1, |f0.q|)
    else
      var f := Upto(r, mask, alpha, f0, i, j - 1);
      SameShapeFits(r, mask, f0, f);
      Visit(r, mask, alpha, f, i, j - 1)
  }

  /** One epoch: every cell visited once, in row-major order. */
  function Epoch(r: Matrix, mask: Mask, alpha: real, f0: Factors): (f: Factors)
    requires Fits(r, mask, f0)
    ensures SameShape(f0, f)
  {
    Upto(r, mask, alpha, f0, |f0.p|, 0)
  }

  // ---------------------------------------------------------------------------
  // Properties of the epoch

  lemma {:induction false} UptoKeepsRow(r: Matrix, mask: Mask, alpha: real, f0: Factors, a: nat, i: nat, j: nat)
    requires Fits(r, mask, f0) && a < |f0.p|
    requires forall b :: 0 <= b < |f0.q| ==> !mask.Observes(a, b)
    requires (i < |f0.p| && j <= |f0.q|) || (i == |f0.p| && j == 0)
    ensures Upto(r, mask, alpha, f0, i, j).p[a] == f0.p[a]
    decreases i, j
  {
    if j == 0 {
      if i > 0 {
        UptoKeepsRow(r, mask, alpha, f0, a, i - 1, |f0.q|);
      }
    } else {
      UptoKeepsRow(r, mask, alpha, f0, a, i, j - 1);
    }
  }

  lemma {:induction false} UptoKeepsColumn(r: Matrix, mask: Mask, alpha: real, f0: Factors, b: nat, i: nat, j: nat)
    requires Fits(r, mask, f0) && b < |f0.q|
    requires forall a :: 0 <= a < |f0.p| ==> !mask.Observes(a, b)
    requires (i < |f0.p| && j <= |f0.q|) || (i == |f0.p| && j == 0)
    ensures Upto(r, mask, alpha, f0, i, j).q[b] == f0.q[b]
    decreases i, j
  {
    if j == 0 {
      if i > 0 {
        UptoKeepsColumn(r, mask, alpha, f0, b, i - 1, |f0.q|);
      }
    } else {
      UptoKeepsColumn(r, mask, alpha, f0, b, i, j - 1);
    }
  }

  /** A user row with no observed cell, and an item row with no observed cell, come
      out of the epoch unchanged. */
  lemma UnobservedRowsUntouched(r: Matrix, mask: Mask, alpha: real, f0: Factors)
    requires Fits(r, mask, f0)
    ensures forall a :: 0 <= a < |f0.p| && (forall b :: 0 <= b < |f0.q| ==> !mask.Observes(a, b)) ==>
      Epoch(r, mask, alpha, f0).p[a] == f0.p[a]
    ensures forall b :: 0 <= b < |f0.q| && (forall a :: 0 <= a < |f0.p| ==> !mask.Observes(a, b)) ==>
      Epoch(r, mask, alpha, f0).q[b] == f0.q[b]
  {
    forall a | 0 <= a < |f0.p| && (forall b :: 0 <= b < |f0.q| ==> !mask.Observes(a, b))
      ensures Epoch(r, mask, alpha, f0).p[a] == f0.p[a]
    {
      UptoKeepsRow(r, mask, alpha, f0, a, |f0.p|, 0);
    }
    forall b | 0 <= b < |f0.q| && (forall a :: 0 <= a < |f0.p| ==> !mask.Observes(a, b))
      ensures Epoch(r, mask, alpha, f0).q[b] == f0.q[b]
    {
      UptoKeepsColumn(r, mask, alpha, f0, b, |f0.p|, 0);
    }
  }

  /** With every mask cell false, the epoch changes nothing. */
  lemma NothingObservedNothingChanges(r: Matrix, mask: Mask, alpha: real, f0: Factors)
    requires Fits(r, mask, f0) && mask.Present?
    requires forall a, b :: 0 <= a < |f0.p| && 0 <= b < |f0.q| ==> !mask.cells[a][b]
    ensures Epoch(r, mask, alpha, f0) == f0
  {
    UnobservedRowsUntouched(r, mask, alpha, f0);
    var f := Epoch(r, mask, alpha, f0);
    assert f.p == f0.p;
    assert f.q == f0.q;
  }

  /** A present mask of the factors' shape with every cell true. */
  predicate AllObserved(mask: Mask, f: Factors) {
    && mask.Present? && mask.Fits(|f.p|, |f.q|)
    && forall a, b :: 0 <= a < |f.p| && 0 <= b < |f.q| ==> mask.cells[a][b]
  }

  lemma {:induction false} UptoAbsentIsAllTrue(r: Matrix, all: Mask, alpha: real, f0: Factors, i: nat, j: nat)
    requires Fits(r, Absent, f0) && AllObserved(all, f0)
    requires (i < |f0.p| && j <= |f0.q|) || (i == |f0.p| && j == 0)
    ensures Fits(r, all, f0)
    ensures Upto(r, Absent, alpha, f0, i, j) == Upto(r, all, alpha, f0, i, j)
    decreases i, j, 1
  {
    if j == 0 {
      if i > 0 {
        UptoAbsentNextRow(r, all, alpha, f0, i);
      }
    } else {
      UptoAbsentNextCell(r, all, alpha, f0, i, j);
    }
  }

  lemma {:induction false} UptoAbsentNextRow(r: Matrix, all: Mask, alpha: real, f0: Factors, i: nat)
    requires Fits(r, Absent, f0) && AllObserved(all, f0) && 0 < i <= |f0.p|
    ensures Fits(r, all, f0)
    ensures Upto(r, Absent, alpha, f0, i, 0) == Upto(r, all, alpha, f0, i, 0)
    decreases i, 0, 0
  {
    UptoAbsentIsAllTrue(r, all, alpha, f0, i - 1, |f0.q|);
  }

  lemma {:induction false} UptoAbsentNextCell(r: Matrix, all: Mask, alpha: real, f0: Factors, i: nat, j: nat)
    requires Fits(r, Absent, f0) && AllObserved(all, f0) && i < |f0.p| && 0 < j <= |f0.q|
    ensures Fits(r, all, f0)
    ensures Upto(r, Absent, alpha, f0, i, j) == Upto(r, all, alpha, f0, i, j)
    decreases i, j, 0
  {
    UptoAbsentIsAllTrue(r, all, alpha, f0, i, j - 1);
    var f := Upto(r, Absent, alpha, f0, i, j - 1);
    assert all.cells[i][j - 1];
    SameShapeFits(r, all, f0, f);
  }

  /** No mask visits every cell, as a mask of only true cells does. */
  lemma AbsentMaskVisitsEveryCell(r: Matrix, all: Mask, alpha: real, f0: Factors)
    requires Fits(r, Absent, f0) && AllObserved(all, f0)
    ensures Fits(r, all, f0)
    ensures Epoch(r, Absent, alpha, f0) == Epoch(r, all, alpha, f0)
  {
    UptoAbsentIsAllTrue(r, all, alpha, f0, |f0.p|, 0);
  }

  /** A cell that the factors already reproduce exactly (residual 0) changes nothing. */
  lemma ExactCellUnchanged(f: Factors, i: nat, j: nat, rij: real, alpha: real)
    requires i < |f.p| && j < |f.q| && |f.p[i]| == |f.q[j]|
    requires rij == InnerProduct(f.p[i], f.q[j], |f.p[i]|)
    ensures CellUpdate(f, i, j, rij, alpha) == f
  {
    assert Gain(alpha, Residual(f, i, j, rij)) == 0.0;
    AxpyByZero(f.p[i], f.q[j]);
    AxpyByZero(f.q[j], f.p[i]);
  }

  lemma {:induction false} UptoPerfectFit(r: Matrix, mask: Mask, alpha: real, f0: Factors, i: nat, j: nat)
    requires Fits(r, mask, f0)
    requires forall a, b :: 0 <= a < |f0.p| && 0 <= b < |f0.q| && mask.Observes(a, b) ==>
      r[a][b] == InnerProduct(f0.p[a], f0.q[b], |f0.p[a]|)
    requires (i < |f0.p| && j <= |f0.q|) || (i == |f0.p| && j == 0)
    ensures Upto(r, mask, alpha, f0, i, j) == f0
    decreases i, j
  {
    if j == 0 {
      if i > 0 {
        UptoPerfectFit(r, mask, alpha, f0, i - 1, |f0.q|);
      }
    } else {
      UptoPerfectFit(r, mask, alpha, f0, i, j - 1);
      if mask.Observes(i, j - 1) {
        ExactCellUnchanged(f0, i, j - 1, r[i][j - 1], alpha);
      }
    }
  }

  /** Factors that reproduce every observed cell exactly are a fixed point of the epoch. */
  lemma PerfectFitIsFixedPoint(r: Matrix, mask: Mask, alpha: real, f0: Factors)
    requires Fits(r, mask, f0)
    requires forall a, b :: 0 <= a < |f0.p| && 0 <= b < |f0.q| && mask.Observes(a, b) ==>
      r[a][b] == InnerProduct(f0.p[a], f0.q[b], |f0.p[a]|)
    ensures Epoch(r, mask, alpha, f0) == f0
  {
    UptoPerfectFit(r, mask, alpha, f0, |f0.p|, 0);
  }

  /** The cell update treats users and items alike: exchanging the roles of P and Q
      exchanges the results. This is what the pOld snapshot buys. */
  lemma CellUpdateSymmetric(f: Factors, i: nat, j: nat, rij: real, alpha: real)
    requires i < |f.p| && j < |f.q| && |f.p[i]| == |f.q[j]|
    ensures CellUpdate(Factors(f.q, f.p), j, i, rij, alpha)
         == Factors(CellUpdate(f, i, j, rij, alpha).q, CellUpdate(f, i, j, rij, alpha).p)
  {
    InnerProductSymmetric(f.p[i], f.q[j], |f.p[i]|);
    assert Residual(Factors(f.q, f.p), j, i, rij) == Residual(f, i, j, rij);
  }

  // ---------------------------------------------------------------------------
  // The in-place epoch

  /** One observed cell of `sgdStep`: its residual against the current rows, then
      the row updates. */
  method VisitCell(rij: real, p: array2<real>, q: array2<real>, i: nat, j: nat, alpha: real)
    requires p != q && i < p.Length0 && j < q.Length0 && p.Length1 == q.Length1
    modifies p, q
    ensures Factors(Rows(p), Rows(q)) == CellUpdate(old(Factors(Rows(p), Rows(q))), i, j, rij, alpha)
  {
    ghost var f := Factors(Rows(p), Rows(q));
    var dot := Dot(Row(p, i), Row(q, j));
    var eij := rij - dot;
    // 2·α·e is evaluated left to right in the source, so it is one factor c
    var c := 2.0 * alpha * eij;
    assert c == Gain(alpha, Residual(f, i, j, rij));
    MoveRows(p, q, i, j, c);
  }

  /** The loop over the k factors of one cell: p[i] += c·q[j] and q[j] += c·pOld,
      with pOld the copy of p[i] taken before the loop. */
  method MoveRows(p: array2<real>, q: array2<real>, i: nat, j: nat, c: real)
    requires p != q && i < p.Length0 && j < q.Length0 && p.Length1 == q.Length1
    modifies p, q
    ensures Rows(p) == old(Rows(p))[i := Axpy(old(Row(p, i)), c, old(Row(q, j)))]
    ensures Rows(q) == old(Rows(q))[j := Axpy(old(Row(q, j)), c, old(Row(p, i)))]
  {
    var pOld := Row(p, i);
    ghost var p0, q0 := Rows(p), Rows(q);
    ghost var pi, qj := Axpy(pOld, c, q0[j]), Axpy(q0[j], c, pOld);
    for k := 0 to p.Length1
      invariant forall a, b :: 0 <= a < p.Length0 && 0 <= b < p.Length1 ==>
        p[a, b] == if a == i && b < k then pi[b] else p0[a][b]
      invariant forall a, b :: 0 <= a < q.Length0 && 0 <= b < q.Length1 ==>
        q[a, b] == if a == j && b < k then qj[b] else q0[a][b]
    {
      p[i, k] := p[i, k] + c * q[j, k];
      q[j, k] := q[j, k] + c * pOld[k];
    }
    RowsAre(p, p0[i := pi]);
    RowsAre(q, q0[j := qj]);
  }

  /** `sgdStep(r, p, q, alpha, mask)`: p and q end as one epoch of the specification
      makes them; r and the mask are values and cannot change. */
  method SgdStep(r: Matrix, p: array2<real>, q: array2<real>, alpha: real, mask: Mask)
    requires p != q
    requires IsRect(r, p.Length0, q.Length0) && p.Length1 == q.Length1 && mask.Fits(p.Length0, q.Length0)
    modifies p, q
    ensures Fits(r, mask, old(Factors(Rows(p), Rows(q))))
    ensures Factors(Rows(p), Rows(q)) == Epoch(r, mask, alpha, old(Factors(Rows(p), Rows(q))))
  {
    ghost var f0 := Factors(Rows(p), Rows(q));
    assert Fits(r, mask, f0);
    for i := 0 to |r|
      invariant Factors(Rows(p), Rows(q)) == Upto(r, mask, alpha, f0, i, 0)
    {
      SgdRow(r, p, q, alpha, mask, i, f0);
    }
  }

  /** The iterations of the inner loop of `sgdStep` for user i. */
  method SgdRow(r: Matrix, p: array2<real>, q: array2<real>, alpha: real, mask: Mask, i: nat, ghost f0: Factors)
    requires p != q && p.Length1 == q.Length1 && i < p.Length0
    requires Fits(r, mask, f0) && i < |f0.p|
    requires Factors(Rows(p), Rows(q)) == Upto(r, mask, alpha, f0, i, 0)
    modifies p, q
    ensures Factors(Rows(p), Rows(q)) == Upto(r, mask, alpha, f0, i + 1, 0)
  {
    for j := 0 to q.Length0
      invariant Factors(Rows(p), Rows(q)) == Upto(r, mask, alpha, f0, i, j)
    {
      if mask.Present? && !mask.cells[i][j] {
        continue;
      }
      VisitCell(r[i][j], p, q, i, j, alpha);
    }
  }
}
