/** One session of site/app.js: `run` generates factors, ratings and mask from one
    seeded generator, and `step` applies one SGD epoch and re-evaluates. The page's
    global state is replaced by values passed in and out. */
module Session {
  import opened Matrices
  import opened Random
  import opened Masks
  import opened Synthetic
  import Evaluation
  import Optimizer

  /** The learning rate `step` passes to `sgdStep`. */
  const LearningRate: real := 0.01

  /** The generation of `run` (site/app.js:137-147): p takes the first users·k draws,
      q the next items·k, the noise one `gaussian` per rating after that, the mask
      one draw per rating after the noise; the error is taken over the mask. */
  method Run(users: nat, items: nat, factors: nat, seed: int, maskDensity: real, noise: real,
             boxMuller: (real, real) -> real)
    returns (p: Matrix, q: Matrix, rHat: Matrix, r: Matrix, mask: Mask, sum: real)
    requires items > 0 && factors > 0
    ensures p == DrawnMatrix(seed, 0, users, factors)
    ensures q == DrawnMatrix(seed, users * factors, items, factors)
    ensures Multipliable(p, Transposed(q)) && rHat == Product(p, Transposed(q))
    ensures IsRect(rHat, users, items)
    ensures r == Noisy(rHat, items, seed, (users + items) * factors, noise, boxMuller)
    ensures mask == MaskFrom(seed, GaussiansEnd(seed, (users + items) * factors, users * items),
                             users, items, maskDensity)
    ensures Evaluation.Comparable(r, rHat, mask) && sum == Evaluation.MaskedError(r, rHat, mask)
    ensures noise == 0.0 ==> r == rHat && sum == 0.0
  {
    var rng := new Lcg(seed);
    p, q := DrawFactors(users, items, factors, rng);
    var qT := Transpose(q);
    rHat := MatMul(p, qT);
    r, mask := DrawObservations(rHat, items, noise, maskDensity, rng, boxMuller);
    var rHat2;
    sum, rHat2 := Evaluation.TotalSquaredError(r, p, q, mask);
    if noise == 0.0 {
      NoiselessIsExact(rHat, items, seed, (users + items) * factors, boxMuller);
      Evaluation.MaskedErrorZeroIff(r, rHat, mask);
    }
  }

  /** Lines 138-139 of `run`: p, then q, from a fresh generator. */
  method DrawFactors(users: nat, items: nat, factors: nat, rng: Lcg) returns (p: Matrix, q: Matrix)
    requires rng.Valid() && rng.count == 0
    modifies rng
    ensures rng.Valid() && rng.count == (users + items) * factors
    ensures p == DrawnMatrix(rng.seed, 0, users, factors)
    ensures q == DrawnMatrix(rng.seed, users * factors, items, factors)
  {
    p := RandMatrix(users, factors, rng);
    q := RandMatrix(items, factors, rng);
    assert users * factors + items * factors == (users + items) * factors;
  }

  /** Lines 141-144 of `run`: the noisy ratings, then the mask, from where the
      factors left the generator. */
  method DrawObservations(rHat: Matrix, items: nat, noise: real, maskDensity: real, rng: Lcg,
                          boxMuller: (real, real) -> real) returns (r: Matrix, mask: Mask)
    requires IsRect(rHat, |rHat|, items) && rng.Valid()
    modifies rng
    ensures rng.Valid()
    ensures rng.count == GaussiansEnd(rng.seed, old(rng.count), |rHat| * items) + MaskDraws(|rHat|, items, maskDensity)
    ensures r == Noisy(rHat, items, rng.seed, old(rng.count), noise, boxMuller)
    ensures mask == MaskFrom(rng.seed, GaussiansEnd(rng.seed, old(rng.count), |rHat| * items),
                             |rHat|, items, maskDensity)
  {
    r := AddNoise(rHat, items, noise, rng, boxMuller);
    mask := SampleMask(|rHat|, items, maskDensity, rng);
  }

  /** `step` (site/app.js:154-155): one epoch at the learning rate, then the error
      and the reconstruction of the updated factors. */
  method Step(r: Matrix, p: array2<real>, q: array2<real>, mask: Mask) returns (sum: real, rHat: Matrix)
    requires p != q && q.Length0 > 0 && q.Length1 > 0 && p.Length1 == q.Length1
    requires IsRect(r, p.Length0, q.Length0) && mask.Fits(p.Length0, q.Length0)
    modifies p, q
    ensures Optimizer.Fits(r, mask, old(Optimizer.Factors(Rows(p), Rows(q))))
    ensures Optimizer.Factors(Rows(p), Rows(q))
         == Optimizer.Epoch(r, mask, LearningRate, old(Optimizer.Factors(Rows(p), Rows(q))))
    ensures Multipliable(Rows(p), Transposed(Rows(q))) && rHat == Product(Rows(p), Transposed(Rows(q)))
    ensures Evaluation.Comparable(r, rHat, mask) && sum == Evaluation.MaskedError(r, rHat, mask)
  {
    Optimizer.SgdStep(r, p, q, LearningRate, mask);
    sum, rHat := Evaluation.TotalSquaredError(r, Rows(p), Rows(q), mask);
  }

  /** Factors whose product is the rating matrix itself are a fixed point of the epoch,
      whatever the mask and the learning rate. */
  lemma NoiselessFactorsAreFixedPoint(p: Matrix, q: Matrix, mask: Mask, alpha: real)
    requires FactorShapes(p, q)
    requires mask.Fits(|p|, |q|)
    ensures Multipliable(p, Transposed(q))
    ensures Optimizer.Fits(Product(p, Transposed(q)), mask, Optimizer.Factors(p, q))
    ensures Optimizer.Epoch(Product(p, Transposed(q)), mask, alpha, Optimizer.Factors(p, q))
         == Optimizer.Factors(p, q)
  {
    var r := Product(p, Transposed(q));
    forall i, j | 0 <= i < |p| && 0 <= j < |q|
      ensures r[i][j] == InnerProduct(p[i], q[j], |p[i]|)
    {
      ProductTransposeAt(p, q, |q[0]|, i, j);
    }
    Optimizer.PerfectFitIsFixedPoint(r, mask, alpha, Optimizer.Factors(p, q));
  }

  /** When `totalSquaredError` reports 0, the next `sgdStep` changes nothing. */
  lemma ZeroErrorIsFixedPoint(r: Matrix, p: Matrix, q: Matrix, mask: Mask, alpha: real)
    requires Evaluation.Factorable(r, p, q, mask)
    requires Multipliable(p, Transposed(q))
    requires Evaluation.Comparable(r, Product(p, Transposed(q)), mask)
    requires Evaluation.MaskedError(r, Product(p, Transposed(q)), mask) == 0.0
    ensures Optimizer.Fits(r, mask, Optimizer.Factors(p, q))
    ensures Optimizer.Epoch(r, mask, alpha, Optimizer.Factors(p, q)) == Optimizer.Factors(p, q)
  {
    var rHat := Product(p, Transposed(q));
    Evaluation.MaskedErrorZeroIff(r, rHat, mask);
    forall i, j | 0 <= i < |p| && 0 <= j < |q| && mask.Observes(i, j)
      ensures r[i][j] == InnerProduct(p[i], q[j], |p[i]|)
    {
      ProductTransposeAt(p, q, |q[0]|, i, j);
    }
    Optimizer.PerfectFitIsFixedPoint(r, mask, alpha, Optimizer.Factors(p, q));
  }
}
