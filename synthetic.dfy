/** The synthetic data of site/app.js: `randMatrix` for the factor matrices and
    the noise map that turns the reconstruction into observed ratings. Both draw
    from a shared generator in row-major order. */
module Synthetic {
  import opened Matrices
  import opened Random

  /** The rows×cols matrix that `randMatrix` fills from draw number `start` of `seed` on. */
  function DrawnMatrix(seed: int, start: nat, rows: nat, cols: nat): (m: Matrix)
    ensures IsRect(m, rows, cols)
  {
    FromRowMajor(Draws(seed, start, rows * cols), rows, cols)
  }

  /** Entry [i][j] of a drawn matrix is draw number start + i·cols + j, so it lies in [0, 1). */
  lemma DrawnMatrixAt(seed: int, start: nat, rows: nat, cols: nat, i: nat, j: nat)
    requires i < rows && j < cols
    ensures DrawnMatrix(seed, start, rows, cols)[i][j] == Draw(seed, start + i * cols + j)
    ensures 0.0 <= DrawnMatrix(seed, start, rows, cols)[i][j] < 1.0
  {
    FromRowMajorAt(Draws(seed, start, rows * cols), rows, cols, i, j);
  }

  /** `randMatrix(rows, cols, rng)`: one draw per entry, row by row, pushed in order. */
  method RandMatrix(rows: nat, cols: nat, rng: Lcg) returns (m: Matrix)
    requires rng.Valid()
    modifies rng
    ensures rng.Valid() && rng.count == old(rng.count) + rows * cols
    ensures m == DrawnMatrix(rng.seed, old(rng.count), rows, cols)
  {
    ghost var c0 := rng.count;
    m := [];
    for i := 0 to rows
      invariant rng.Valid() && rng.count == c0 + i * cols
      invariant m == FromRowMajor(Draws(rng.seed, c0, i * cols), i, cols)
    {
      var row: seq<real> := [];
      for j := 0 to cols
        invariant rng.Valid() && rng.count == c0 + i * cols + j
        invariant row == Draws(rng.seed, c0 + i * cols, j)
      {
        var x := rng.Next();
        DrawsSplit(rng.seed, c0 + i * cols, j, 1);
        row := row + [x];
      }
      DrawsSplit(rng.seed, c0, i * cols, cols);
      FromRowMajorSnoc(Draws(rng.seed, c0, i * cols), row, i, cols);
      assert i * cols + cols == (i + 1) * cols;
      m := m + [row];
    }
  }

  /** The entrywise sum of two vectors. */
  function Plus(x: seq<real>, y: seq<real>): (z: seq<real>)
    requires |x| == |y|
    ensures |z| == |x|
  {
    seq(|x|, t requires 0 <= t < |x| => x[t] + y[t])
  }

  lemma PlusSnoc(x: seq<real>, y: seq<real>, a: real, b: real)
    requires |x| == |y|
    ensures Plus(x + [a], y + [b]) == Plus(x, y) + [a + b]
  {
    assert forall t :: 0 <= t < |x| ==> (x + [a])[t] == x[t] && (y + [b])[t] == y[t];
  }

  /** The observed ratings built from `rHat`: row i gets the `cols` samples of
      `gaussian(rng, 0, noise)` that follow the i·cols samples of the earlier rows,
      in a stream of samples that starts at draw `start`. */
  function Noisy(rHat: Matrix, cols: nat, seed: int, start: nat, noise: real,
                 boxMuller: (real, real) -> real): (r: Matrix)
    requires IsRect(rHat, |rHat|, cols)
    ensures IsRect(r, |rHat|, cols)
  {
    seq(|rHat|, i requires 0 <= i < |rHat| =>
      Plus(rHat[i], Gaussians(seed, GaussiansEnd(seed, start, i * cols), cols, 0.0, noise, boxMuller)))
  }

  /** Sample t of k successive calls is the call made after the first t calls. */
  lemma {:induction false} GaussiansAt(seed: int, n: nat, k: nat, mean: real, std: real,
                                       boxMuller: (real, real) -> real, t: nat)
    requires t < k
    ensures Gaussians(seed, n, k, mean, std, boxMuller)[t] == GaussianAt(seed, GaussiansEnd(seed, n, t), mean, std, boxMuller)
  {
    if t < k - 1 {
      GaussiansAt(seed, n, k - 1, mean, std, boxMuller, t);
    }
  }

  /** Cell [i][j] of the noisy ratings is rHat[i][j] plus its own sample: the call
      made after the samples of the i·cols + j cells before it in row-major order. */
  lemma NoisyCellAt(rHat: Matrix, cols: nat, seed: int, start: nat, noise: real,
                    boxMuller: (real, real) -> real, i: nat, j: nat)
    requires IsRect(rHat, |rHat|, cols) && i < |rHat| && j < cols
    ensures Noisy(rHat, cols, seed, start, noise, boxMuller)[i][j]
         == rHat[i][j] + GaussianAt(seed, GaussiansEnd(seed, start, i * cols + j), 0.0, noise, boxMuller)
  {
    var rowStart := GaussiansEnd(seed, start, i * cols);
    NoisyAt(rHat, cols, seed, start, noise, boxMuller, i);
    GaussiansAt(seed, rowStart, cols, 0.0, noise, boxMuller, j);
    SplitAt(seed, start, i * cols, j, i * cols + j);
  }

  /** With zero noise every sample is 0·z + 0. */
  lemma {:induction false} NoiselessSamplesAreZero(seed: int, n: nat, k: nat, boxMuller: (real, real) -> real)
    ensures forall t :: 0 <= t < k ==> Gaussians(seed, n, k, 0.0, 0.0, boxMuller)[t] == 0.0
  {
    if k > 0 {
      NoiselessSamplesAreZero(seed, n, k - 1, boxMuller);
      var m := GaussiansEnd(seed, n, k - 1);
      var u := Draw(seed, NonZeroFrom(seed, m));
      var v := Draw(seed, NonZeroFrom(seed, NonZeroFrom(seed, m) + 1));
      assert GaussianAt(seed, m, 0.0, 0.0, boxMuller) == boxMuller(u, v) * 0.0 + 0.0 == 0.0;
    }
  }

  /** With zero noise the ratings are the reconstruction. */
  lemma NoiselessIsExact(rHat: Matrix, cols: nat, seed: int, start: nat, boxMuller: (real, real) -> real)
    requires IsRect(rHat, |rHat|, cols)
    ensures Noisy(rHat, cols, seed, start, 0.0, boxMuller) == rHat
  {
    var r := Noisy(rHat, cols, seed, start, 0.0, boxMuller);
    forall i | 0 <= i < |rHat|
      ensures r[i] == rHat[i]
    {
      NoiselessSamplesAreZero(seed, GaussiansEnd(seed, start, i * cols), cols, boxMuller);
    }
  }

  /** `rHat.map((row) => row.map((val) => val + gaussian(rng, 0, noise)))` of `run`:
      one Gaussian sample per cell, in row-major order. */
  method AddNoise(rHat: Matrix, cols: nat, noise: real, rng: Lcg, boxMuller: (real, real) -> real)
    returns (r: Matrix)
    requires IsRect(rHat, |rHat|, cols) && rng.Valid()
    modifies rng
    ensures rng.Valid() && rng.count == GaussiansEnd(rng.seed, old(rng.count), |rHat| * cols)
    ensures r == Noisy(rHat, cols, rng.seed, old(rng.count), noise, boxMuller)
  {
    ghost var c0 := rng.count;
    ghost var target := Noisy(rHat, cols, rng.seed, c0, noise, boxMuller);
    r := [];
    for i := 0 to |rHat|
      invariant rng.Valid() && rng.count == GaussiansEnd(rng.seed, c0, i * cols)
      invariant r == target[..i]
    {
      var row := NoisyRowOf(rHat, cols, i, noise, rng, boxMuller, c0);
      assert target[..i + 1] == target[..i] + [row];
      r := r + [row];
    }
  }

  /** Row i of the noisy ratings, drawn after the samples of rows 0..i-1. */
  method NoisyRowOf(rHat: Matrix, cols: nat, i: nat, noise: real, rng: Lcg,
                    boxMuller: (real, real) -> real, ghost c0: nat) returns (row: seq<real>)
    requires IsRect(rHat, |rHat|, cols) && i < |rHat|
    requires rng.Valid() && rng.count == GaussiansEnd(rng.seed, c0, i * cols)
    modifies rng
    ensures rng.Valid() && rng.count == GaussiansEnd(rng.seed, c0, (i + 1) * cols)
    ensures row == Noisy(rHat, cols, rng.seed, c0, noise, boxMuller)[i]
  {
    row := NoisyRow(rHat[i], noise, rng, boxMuller);
    NoisyAt(rHat, cols, rng.seed, c0, noise, boxMuller, i);
    NextRowStart(rng.seed, c0, i, cols);
  }

  lemma NoisyAt(rHat: Matrix, cols: nat, seed: int, start: nat, noise: real,
                boxMuller: (real, real) -> real, i: nat)
    requires IsRect(rHat, |rHat|, cols) && i < |rHat|
    ensures Noisy(rHat, cols, seed, start, noise, boxMuller)[i]
         == Plus(rHat[i], Gaussians(seed, GaussiansEnd(seed, start, i * cols), cols, 0.0, noise, boxMuller))
  {
  }

  /** Row i + 1 starts where the cols samples of row i end. */
  lemma NextRowStart(seed: int, start: nat, i: nat, cols: nat)
    ensures GaussiansEnd(seed, start, (i + 1) * cols) == GaussiansEnd(seed, GaussiansEnd(seed, start, i * cols), cols)
  {
    MulSucc(i, cols);
    SplitAt(seed, start, i * cols, cols, (i + 1) * cols);
  }

  lemma SplitAt(seed: int, start: nat, k: nat, l: nat, m: nat)
    requires m == k + l
    ensures GaussiansEnd(seed, start, m) == GaussiansEnd(seed, GaussiansEnd(seed, start, k), l)
  {
    GaussiansEndSplit(seed, start, k, l);
  }

  lemma MulSucc(i: nat, cols: nat)
    ensures (i + 1) * cols == i * cols + cols
  {
  }

  /** The inner `map` of the noise over one row. */
  method NoisyRow(values: seq<real>, noise: real, rng: Lcg, boxMuller: (real, real) -> real)
    returns (row: seq<real>)
    requires rng.Valid()
    modifies rng
    ensures rng.Valid() && rng.count == GaussiansEnd(rng.seed, old(rng.count), |values|)
    ensures row == Plus(values, Gaussians(rng.seed, old(rng.count), |values|, 0.0, noise, boxMuller))
  {
    ghost var c0 := rng.count;
    row := [];
    for j := 0 to |values|
      invariant rng.Valid() && rng.count == GaussiansEnd(rng.seed, c0, j)
      invariant row == Plus(values[..j], Gaussians(rng.seed, c0, j, 0.0, noise, boxMuller))
    {
      row := NoisyCell(values, j, noise, rng, boxMuller, c0, row);
    }
    assert values[..|values|] == values;
  }

  /** One iteration of the inner `map`: the row so far, extended by value j plus its sample. */
  method NoisyCell(values: seq<real>, j: nat, noise: real, rng: Lcg, boxMuller: (real, real) -> real,
                   ghost c0: nat, row: seq<real>) returns (row': seq<real>)
    requires j < |values| && rng.Valid() && rng.count == GaussiansEnd(rng.seed, c0, j)
    requires row == Plus(values[..j], Gaussians(rng.seed, c0, j, 0.0, noise, boxMuller))
    modifies rng
    ensures rng.Valid() && rng.count == GaussiansEnd(rng.seed, c0, j + 1)
    ensures row' == Plus(values[..j + 1], Gaussians(rng.seed, c0, j + 1, 0.0, noise, boxMuller))
  {
    var g := NextSample(noise, rng, boxMuller, c0, j);
    TakeOneMore(values, j);
    PlusSnoc(values[..j], Gaussians(rng.seed, c0, j, 0.0, noise, boxMuller), values[j], g);
    row' := row + [values[j] + g];
  }

  lemma TakeOneMore(values: seq<real>, j: nat)
    requires j < |values|
    ensures values[..j + 1] == values[..j] + [values[j]]
  {
  }

  /** Sample number j of a stream of `gaussian(rng, 0, noise)` calls begun at draw c0. */
  method NextSample(noise: real, rng: Lcg, boxMuller: (real, real) -> real, ghost c0: nat, ghost j: nat)
    returns (g: real)
    requires rng.Valid() && rng.count == GaussiansEnd(rng.seed, c0, j)
    modifies rng
    ensures rng.Valid() && rng.count == GaussiansEnd(rng.seed, c0, j + 1)
    ensures Gaussians(rng.seed, c0, j + 1, 0.0, noise, boxMuller)
         == Gaussians(rng.seed, c0, j, 0.0, noise, boxMuller) + [g]
  {
    g := Gaussian(rng, 0.0, noise, boxMuller);
  }
}
