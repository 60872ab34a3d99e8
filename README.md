# Matrix factorisation engine, verified in Dafny

This project models the numeric engine of a small matrix-factorisation demo. The
page script `site/app.js` does the following:
- it fits users×k and items×k factor matrices P and Q so that P·Qᵀ approximates a
  rating matrix R;
- the fit is one plain, unregularised SGD sweep per "step";
- R is synthetic: it is P·Qᵀ plus Gaussian noise, drawn from a seeded linear
  congruential generator (LCG), with a random observation mask.

`matrix_factorization.py` is the NumPy twin of the same engine.

The modules follow the program's parts:

| module | file | models |
|---|---|---|
| `Random` | random.dfy | `lcg` as a class `Lcg` whose field `state` holds the 32-bit state, and `gaussian`'s two rejection loops |
| `Matrices` | matrices.dfy | `dot`, `matmul`, `transpose` as loop methods, proved against `InnerProduct`, `Product` and `Transposed` |
| `Masks` | masks.dfy | the mask (`null` or a boolean matrix) and `sampleMask` |
| `Synthetic` | synthetic.dfy | `randMatrix` and the noise `map` of `run` |
| `Evaluation` | evaluation.dfy | `totalSquaredError` |
| `Optimizer` | optimizer.dfy | `sgdStep` on two-dimensional arrays; the epoch's specification is a row-major fold `Upto`/`Epoch` of the single-cell update `CellUpdate` |
| `Session` | session.dfy | the generation order of `run` and the body of `step` |
| `Preview` | preview.dfy | `renderMatrix` |
| `MatrixFactorization` | matrix_factorization.dfy | the Python twin, tied to the modules above |

Modelling conventions:
- Cells are exact `real`s.
- The generator's integer arithmetic is exact, including the `>>> 0` reduction, which is `mod 2³²`.
- Draws are named by position: draw n of seed s is `Random.Draw(s, n)`. The ghost fields `seed` and `count` of `Lcg` record where a generator stands in its stream.

Three behaviours of the code that the model keeps as they are:
- **Shapes are never checked.** The code raises no shape error. What a wrong shape
  does depends on the mismatch:
  - some give `NaN` cells, reads of `undefined` or a `TypeError`;
  - others silently produce a result built from a prefix. `matmul` sums only
    `b.length` terms of a longer row of `a`, `dot` sums `a.length` terms of a
    longer `b`, and `transpose` ignores the entries of rows longer than `a[0]`.
    `totalSquaredError` and `sgdStep` visit only the cells of `r` when `r` is
    smaller than p·qᵀ.

  The page always supplies consistent shapes. The model requires those shapes
  and does not model the other cases, except `Matrices.Dot`, which accepts a
  longer `b` and sums |a| terms as the code does.
- **Values are joined by two spaces.** `renderMatrix` puts two spaces between the
  values of a preview line.
- **Each rejection loop of `gaussian` runs at most twice.** An LCG state of 0 steps
  to 1013904223, so a draw of 0 is always followed by a draw that is not 0
  (`Random.ZeroIsFollowedByNonZero`).

## Model

| member | source | states |
|---|---|---|
| Random.Step | site/app.js:58 | one transition (1664525·s + 1013904223) mod 2³² is a 32-bit state |
| Random.StateAt | site/app.js:56-58 | the state after n draws is below 2³²; the seed is first reduced mod 2³² |
| Random.Draw | site/app.js:59 | every draw lies in [0, 1) |
| Random.DrawsSplit | site/app.js:57-60 | drawing a+b values is drawing a values and then b more from where they stopped |
| Random.Lcg.constructor | site/app.js:55-56 | a new generator holds `seed mod 2³²` and stands at the start of its seed's stream |
| Random.Lcg.Next | site/app.js:57-60 | `rng()` advances the state by one transition and returns draw number `count` of its seed, a value in [0, 1) |
| Random.SameSeedSameDraws | site/app.js:55-61 | two generators from the same seed return identical sequences, the first n draws of that seed |
| Random.ZeroIsFollowedByNonZero | site/app.js:58-59 | a draw of 0 is never followed by another 0 |
| Random.NonZeroFrom | site/app.js:66-67 | the first non-zero draw at or after n is n or n+1, and it is n+1 exactly when draw n is 0 |
| Random.GaussianAt | site/app.js:66-69 | the value of one `gaussian` call applies the transform only to draws u and v in (0, 1), where ln u is defined, and with std 0 the sample is the mean |
| Random.GaussianNext | site/app.js:63-70 | a `gaussian` call consumes between 2 and 4 draws |
| Random.GaussiansEnd | site/app.js:141-143 | k successive `gaussian` calls consume between 2k and 4k draws |
| Random.Gaussians | site/app.js:141-143 | k successive `gaussian` calls give exactly k samples |
| Random.GaussiansEndSplit | site/app.js:141-143 | k+l calls are k calls, then l calls from where those stopped |
| Random.Gaussian | site/app.js:63-70 | `gaussian` takes u as the first non-zero draw, then v as the next non-zero draw, and returns boxMuller(u, v)·std + mean; the generator ends just after v |
| Random.RedrawWhileZero | site/app.js:66-67 | a rejection loop ends just after the first non-zero draw and returns that draw |
| Matrices.InnerProductSymmetric | site/app.js:49-53 | the dot product does not depend on the order of its arguments |
| Matrices.ProductAt | site/app.js:26-31 | cell [i][j] of a·b is Σ_t a[i][t]·b[t][j] |
| Matrices.TransposedAt | site/app.js:43 | cell [j][i] of the transpose is cell [i][j] of the original |
| Matrices.TransposeInvolution | site/app.js:37-47 | `transpose(transpose(a)) == a` for a non-empty rectangle |
| Matrices.ProductIdentity | site/app.js:20-35 | multiplying by the identity matrix gives back the matrix |
| Matrices.ProductAssociative | site/app.js:20-35 | (a·b)·c and a·(b·c) are both defined and equal, so chaining `matmul` calls does not depend on their grouping |
| Matrices.ProductTransposeAt | site/app.js:74-75 | cell [i][j] of `matmul(p, transpose(q))` is the dot product of p[i] with q[j] |
| Matrices.FromRowMajorAt | site/app.js:10-16 | entry [i][j] of a matrix filled in row-major order is stream element i·cols + j |
| Matrices.FlattenFromRowMajor | site/app.js:10-16 | reading back row by row a matrix filled row-major gives the stream |
| Matrices.FromRowMajorFlatten | site/app.js:10-16 | a rectangle is rebuilt by filling the stream read from it |
| Matrices.Dot | site/app.js:49-53 | `dot(a, b)` returns Σ_{t<|a|} a[t]·b[t] |
| Matrices.MatMul | site/app.js:20-35 | `matmul(a, b)` returns the |a|×|b[0]| product a·b |
| Matrices.Transpose | site/app.js:37-47 | `transpose(a)` returns the |a[0]|×|a| transpose of a |
| Masks.AllTrue | site/app.js:78 | a mask of all-true cells covers its shape |
| Masks.MaskFrom | site/app.js:100-111 | the mask sampled from a stream covers rows×cols |
| Masks.SampleMask | site/app.js:100-111 | `sampleMask` returns `null` without drawing when density ≥ 1; otherwise it consumes exactly rows·cols draws and returns the row-major mask of those draws |
| Masks.MaskAt | site/app.js:106 | below density 1, cell [i][j] is true exactly when draw start + i·cols + j is below the density |
| Masks.NonPositiveDensityObservesNothing | site/app.js:106 | a density ≤ 0 gives a present mask in which no cell is observed |
| Evaluation.CellsError | site/app.js:76-82 | the error accumulated before a cell is never negative |
| Evaluation.MaskedError | site/app.js:72-84 | the squared error over the observed cells is never negative |
| Evaluation.CellsErrorCongruent | site/app.js:78-80 | the partial error depends only on which cells are observed and on the observed values |
| Evaluation.MaskedOutCellIrrelevant | site/app.js:78 | changing r at a masked-out cell leaves the error unchanged |
| Evaluation.AbsentMaskObservesAll | site/app.js:78 | no mask gives the same error as an all-true mask |
| Evaluation.CellsErrorZeroIff | site/app.js:76-82 | the partial error is 0 exactly when every observed cell before (i, j) is reproduced exactly |
| Evaluation.MaskedErrorZeroIff | site/app.js:72-84 | the error is 0 exactly when the reconstruction matches every observed cell |
| Evaluation.TotalSquaredError | site/app.js:72-84 | `totalSquaredError` returns rHat = p·qᵀ with rHat[i][j] = dot(p[i], q[j]), and a non-negative sum of squared residuals over the observed cells; r, p and q are values and are not changed |
| Evaluation.ObservedSquaredError | site/app.js:76-82 | the accumulation loop computes the masked error |
| Optimizer.CellUpdate | site/app.js:90-95 | one observed cell updates only row p[i] and row q[j], and keeps every shape |
| Optimizer.Visit | site/app.js:89-95 | visiting a cell keeps the shapes of p and q |
| Optimizer.Upto | site/app.js:87-97 | the first cells of the sweep keep the shapes of p and q |
| Optimizer.Epoch | site/app.js:86-98 | a whole epoch keeps the shapes of p and q |
| Optimizer.UnobservedRowsUntouched | site/app.js:86-98 | a row of p or of q that belongs to no observed cell comes out of the epoch unchanged |
| Optimizer.NothingObservedNothingChanges | site/app.js:89 | with every mask cell false, the epoch changes neither p nor q |
| Optimizer.AbsentMaskVisitsEveryCell | site/app.js:89 | with no mask the epoch visits every cell, as an all-true mask does |
| Optimizer.ExactCellUnchanged | site/app.js:90-95 | a cell that the factors already reproduce exactly (e = 0) changes nothing |
| Optimizer.PerfectFitIsFixedPoint | site/app.js:86-98 | factors that reproduce every observed cell exactly are a fixed point of the epoch |
| Optimizer.CellUpdateSymmetric | site/app.js:90-95 | because of the pOld snapshot, exchanging the roles of p and q exchanges the results of a cell's update |
| Optimizer.VisitCell | site/app.js:90-95 | the in-place updates of one observed cell: both rows move by the same residual, taken before the update, and q[j] moves along pOld |
| Optimizer.MoveRows | site/app.js:91-95 | the k loop sets p[i] += c·q[j] and q[j] += c·pOld, and writes no other cell |
| Optimizer.SgdStep | site/app.js:86-98 | `sgdStep` leaves p and q as one row-major epoch leaves them; r and the mask are values and are not changed |
| Optimizer.SgdRow | site/app.js:88-96 | the inner j loop for user i takes the factors from the state before row i to the state before row i+1 of the row-major epoch |
| Synthetic.DrawnMatrix | site/app.js:8-18 | the matrix drawn from a stream is rows×cols |
| Synthetic.DrawnMatrixAt | site/app.js:8-18 | entry [i][j] of a drawn matrix is draw number start + i·cols + j, and it lies in [0, 1) |
| Synthetic.RandMatrix | site/app.js:8-18 | `randMatrix` consumes exactly rows·cols draws and fills the matrix with them in row-major order |
| Synthetic.Noisy | site/app.js:141-143 | the noisy ratings have the shape of the reconstruction |
| Synthetic.NoiselessIsExact | site/app.js:141-143 | with noise 0 the observed ratings are the reconstruction itself |
| Synthetic.AddNoise | site/app.js:141-143 | the noise `map` adds one `gaussian` sample per cell, in row-major order, and consumes the draws of |rHat|·cols calls |
| Synthetic.NoisyRow | site/app.js:142 | the inner `map` adds the next |row| samples to one row |
| Synthetic.NoisyRowOf | site/app.js:141-143 | row i of the noisy ratings is drawn right after the samples of rows 0..i-1, and the generator ends where the samples of row i end |
| Synthetic.NoisyCell | site/app.js:142 | one step of the inner `map` appends value j plus the next sample to the row |
| Synthetic.GaussiansAt | site/app.js:141-143 | sample t of k successive `gaussian` calls is the call made after the first t calls |
| Synthetic.NoisyCellAt | site/app.js:141-143 | cell [i][j] of the noisy ratings is rHat[i][j] plus the sample drawn after those of the i·cols + j cells before it in row-major order |
| Synthetic.NextSample | site/app.js:142 | one `gaussian(rng, 0, noise)` call adds exactly the next sample of the stream and advances the generator by one call |
| Session.Run | site/app.js:137-147 | `run` draws p from the first users·k draws, then q, then one noise sample per rating, then the mask; the error is taken over that mask; with noise 0 the error is 0 |
| Session.DrawFactors | site/app.js:137-139 | from a fresh generator, p takes the first users·k draws and q the next items·k |
| Session.DrawObservations | site/app.js:141-144 | the noise takes one sample per rating from where the factors left the generator, the mask takes its draws after the last noise sample, and the generator is left exactly past the mask's draws (none when the density is at least 1) |
| Session.Step | site/app.js:152-158 | `step` applies one epoch at learning rate 0.01, then reports the error and reconstruction of the updated factors |
| Session.NoiselessFactorsAreFixedPoint | site/app.js:86-98 | factors whose product is the rating matrix are not moved by an epoch, whatever the mask and learning rate |
| Session.ZeroErrorIsFixedPoint | site/app.js:152-158 | once `totalSquaredError` reports 0, the next `sgdStep` changes nothing |
| Preview.RenderLines | site/app.js:113-125 | the preview has min(|m|, maxRows) value lines, plus a final "..." line exactly when rows or columns were cut off, so it always has at least one line |
| Preview.Render | site/app.js:113-127 | with a formatting that never yields a line break, the text holds one line break fewer than there are lines |
| Preview.RenderMatrix | site/app.js:113 | with the default caps 4 and 5, the preview has min(|m|, 4) value lines and a "..." line exactly when m has more than 4 rows or more than 5 columns |
| Preview.RenderSplitsIntoLines | site/app.js:113-127 | for a rectangle with at least one column shown, the returned text split at its line breaks is exactly the list of preview lines, in order |
| Preview.RenderMatrixSplitsIntoLines | site/app.js:113-127 | with the default caps, the text splits at its line breaks into min(|m|, 4) lines, line i being the first min(|m[0]|, 5) values of row i joined by two spaces, then "..." exactly when m has more than 4 rows or 5 columns |
| Preview.ShownValues | site/app.js:118-123 | each value line of a rectangular matrix holds min(|m[0]|, maxCols) values joined by two spaces |
| Preview.ShownValuesInOrder | site/app.js:118-123 | value line i, split at its spaces, reads back as fmt of the first min(|m[0]|, maxCols) entries of row i, in order (fewer when the row is shorter, as `slice` gives) |
| MatrixFactorization.GenerateRandomFactors | matrix_factorization.py:4-11 | p is num_users×k and q is num_items×k |
| MatrixFactorization.GeneratedFactorsOrder | matrix_factorization.py:8-10 | p takes the first num_users·k values of the uniform stream and q the rest, in row-major order |
| MatrixFactorization.GeneratedFactorsRange | matrix_factorization.py:9-10 | every entry lies in [low, high) |
| MatrixFactorization.PredictRatings | matrix_factorization.py:14-18 | `predict_ratings` is num_users×num_items |
| MatrixFactorization.PredictRatingsIsProduct | matrix_factorization.py:18 | `p @ q.T` is the product `matmul(p, transpose(q))` of site/app.js |
| MatrixFactorization.PredictRatingsTransposed | matrix_factorization.py:18 | (p qᵀ)ᵀ = q pᵀ |
| MatrixFactorization.SumOfSquares | matrix_factorization.py:29 | a sum of squares is never negative |
| MatrixFactorization.TotalSquaredError | matrix_factorization.py:21-31 | `total_squared_error` is never negative |
| MatrixFactorization.TotalSquaredErrorIsMaskedError | matrix_factorization.py:21-31 | with no mask the error is over all entries, and with a mask it is over the cells where the mask is true; it equals the masked error of site/app.js |
| MatrixFactorization.TotalSquaredErrorZeroIff | matrix_factorization.py:21-31 | the error is 0 exactly when every selected cell is reproduced exactly |
| MatrixFactorization.AssignRow | matrix_factorization.py:48-49 | assigning `a[i] = row` replaces row i and no other |
| MatrixFactorization.VisitCell | matrix_factorization.py:46-49 | one observed cell of `sgd_step` performs exactly the update of site/app.js: the same e_ij for both rows, and q[j] moves along p_i_old |
| MatrixFactorization.SgdStep | matrix_factorization.py:34-49 | `sgd_step` leaves p and q as the row-major epoch of site/app.js leaves them, skipping only the cells the mask marks false |
| MatrixFactorization.SgdRow | matrix_factorization.py:43-49 | the j loop for user i takes the factors from the state before row i to the state before row i+1 of the row-major epoch |

## Left out

- DOM access and event wiring (site/app.js:129-136, 148-149, 155-163): this is page I/O.
  - `Session.Run` takes the form's values as parameters and returns the error and the reconstruction.
  - The page formats those as `sum.toFixed(4)` and `renderMatrix(rHat)`. `Run` and `Session.Step` do not compute that text; `Preview.RenderMatrix` models it on its own.
- The global `state` singleton (site/app.js:1-6, 146, 153), including `step`'s `if (!state.p) run()`. P, Q, R and the mask are passed in and out explicitly.
- `gaussian`'s transcendental part, `sqrt(-2 ln u)·cos(2πv)` (site/app.js:68): it is the function parameter `boxMuller`. The draws each call consumes are modelled exactly.
- IEEE-754 rounding: cells are exact reals, so `NaN`, infinities and accumulated rounding are absent.
- `toFixed` (site/app.js:121, 148, 156): it is the function parameter `fmt`.
- Convergence or error decrease over repeated steps: the code does not promise either. Only the exact fixed points are proved.
- Non-integer, `NaN` or out-of-range inputs from the form: seeds are integers, and sizes are natural numbers. `maxRows` and `maxCols` are natural numbers.
- Mismatched shapes: every operation requires the shapes the page supplies. What the code does with other shapes is not modelled. That is `NaN`, `undefined` or a `TypeError` for some mismatches, and a silent prefix result for others: a long row of `a` in `matmul`, a long row in `transpose`, or an `r` smaller than p·qᵀ in `totalSquaredError` and `sgdStep`.
- Preview.ShownValuesInOrder: assumes that `fmt` never yields the empty string or a space. Every output of `toFixed(3)`, `"NaN"` and the exponent form from 1e21 on included, is non-empty and holds no space.
- Preview.RenderSplitsIntoLines: assumes that `fmt` never yields the empty string or a line break, and that the matrix is rectangular with at least one column; every output of `toFixed(3)` is non-empty and holds no line break. On a ragged matrix whose row is shorter than the first, or with `maxCols` 0, an empty line can appear, and splitting that drops it.
- Preview.RenderMatrixSplitsIntoLines: the same assumptions as Preview.RenderSplitsIntoLines, with the default caps.
- Aliasing of rows of p and q: `sgdStep` and `sgd_step` take p and q as two distinct two-dimensional arrays. Aliased rows cannot be expressed.
- NumPy's `default_rng`, `uniform` and `normal` (matrix_factorization.py:8-10, 59-60): a foreign generator.
  - `MatrixFactorization.GenerateRandomFactors` takes its standard-uniform stream as the parameter `units`, so the `seed` argument is not modelled.
- `demo`'s printing (matrix_factorization.py:52-68): console I/O.
