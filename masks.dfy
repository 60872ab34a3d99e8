/** Observation masks and `sampleMask` of site/app.js. An absent mask (the
    source's `null`) means every cell is observed. */
module Masks {
  import opened Matrices
  import opened Random

  datatype Mask = Absent | Present(cells: seq<seq<bool>>) {

    /** The mask covers a rows×cols matrix. */
    predicate Fits(rows: nat, cols: nat) {
      Absent? || IsRect(cells, rows, cols)
    }

    /** Cell (i, j) takes part in fitting and in the error: no mask, or a true cell. */
    predicate Observes(i: nat, j: nat)
      requires Present? ==> i < |cells| && j < |cells[i]|
    {
      Absent? || cells[i][j]
    }
  }

  /** A present mask of rows×cols true cells. */
  function AllTrue(rows: nat, cols: nat): (mask: Mask)
    ensures mask.Present? && mask.Fits(rows, cols)
  {
    Present(seq(rows, _ => seq(cols, _ => true)))
  }

  /** Each value compared with `density`. */
  function Below(xs: seq<real>, density: real): (bs: seq<bool>)
    ensures |bs| == |xs|
    ensures forall t :: 0 <= t < |xs| ==> bs[t] == (xs[t] < density)
  {
    seq(|xs|, t requires 0 <= t < |xs| => xs[t] < density)
  }

  lemma BelowConcat(xs: seq<real>, ys: seq<real>, density: real)
    ensures Below(xs + ys, density) == Below(xs, density) + Below(ys, density)
  {
    assert forall t :: |xs| <= t < |xs| + |ys| ==> (xs + ys)[t] == ys[t - |xs|];
  }

  /** The mask that `sampleMask` builds from draw number `start` of `seed` on. */
  function MaskFrom(seed: int, start: nat, rows: nat, cols: nat, density: real): (mask: Mask)
    ensures mask.Fits(rows, cols)
  {
    if density >= 1.0 then Absent
    else Present(FromRowMajor(Below(Draws(seed, start, rows * cols), density), rows, cols))
  }

  /** How many draws `sampleMask` consumes. */
  function MaskDraws(rows: nat, cols: nat, density: real): nat {
    if density >= 1.0 then 0 else rows * cols
  }

  /** `sampleMask(rows, cols, density, rng)`: `null` without drawing when density ≥ 1,
      otherwise one draw per cell in row-major order, the cell true when the draw is
      below `density`. */
  method SampleMask(rows: nat, cols: nat, density: real, rng: Lcg) returns (mask: Mask)
    requires rng.Valid()
    modifies rng
    ensures rng.Valid() && rng.count == old(rng.count) + MaskDraws(rows, cols, density)
    ensures mask == MaskFrom(rng.seed, old(rng.count), rows, cols, density)
  {
    if density >= 1.0 {
      return Absent;
    }
    ghost var c0 := rng.count;
    var m: seq<seq<bool>> := [];
    for i := 0 to rows
      invariant rng.Valid() && rng.count == c0 + i * cols
      invariant m == FromRowMajor(Below(Draws(rng.seed, c0, i * cols), density), i, cols)
    {
      var row: seq<bool> := [];
      for j := 0 to cols
        invariant rng.Valid() && rng.count == c0 + i * cols + j
        invariant row == Below(Draws(rng.seed, c0 + i * cols, j), density)
      {
        var x := rng.Next();
        DrawsSplit(rng.seed, c0 + i * cols, j, 1);
        BelowConcat(Draws(rng.seed, c0 + i * cols, j), [x], density);
        row := row + [x < density];
      }
      DrawsSplit(rng.seed, c0, i * cols, cols);
      BelowConcat(Draws(rng.seed, c0, i * cols), Draws(rng.seed, c0 + i * cols, cols), density);
      FromRowMajorSnoc(Below(Draws(rng.seed, c0, i * cols), density), row, i, cols);
      assert i * cols + cols == (i + 1) * cols;
      m := m + [row];
    }
    mask := Present(m);
  }

  /** Below density 1, cell [i][j] is whether draw start + i·cols + j fell below the density. */
  lemma MaskAt(seed: int, start: nat, rows: nat, cols: nat, density: real, i: nat, j: nat)
    requires density < 1.0 && i < rows && j < cols
    ensures MaskFrom(seed, start, rows, cols, density).Present?
    ensures MaskFrom(seed, start, rows, cols, density).cells[i][j] == (Draw(seed, start + i * cols + j) < density)
  {
    var bs := Below(Draws(seed, start, rows * cols), density);
    FromRowMajorAt(bs, rows, cols, i, j);
    BelowDrawAt(seed, start, rows * cols, density, i * cols + j);
  }

  lemma BelowDrawAt(seed: int, start: nat, n: nat, density: real, t: nat)
    requires t < n
    ensures Below(Draws(seed, start, n), density)[t] == (Draw(seed, start + t) < density)
  {
  }

  /** A density of 0 or less observes no cell, since every draw is at least 0. */
  lemma NonPositiveDensityObservesNothing(seed: int, start: nat, rows: nat, cols: nat, density: real)
    requires density <= 0.0
    ensures MaskFrom(seed, start, rows, cols, density).Present?
    ensures forall i, j :: 0 <= i < rows && 0 <= j < cols ==> !MaskFrom(seed, start, rows, cols, density).Observes(i, j)
  {
    forall i, j | 0 <= i < rows && 0 <= j < cols
      ensures !MaskFrom(seed, start, rows, cols, density).Observes(i, j)
    {
      MaskAt(seed, start, rows, cols, density, i, j);
    }
  }
}
