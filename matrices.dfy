/** Dense matrices as sequences of rows, and the three primitives of site/app.js:
    `dot`, `matmul` and `transpose`. Cells are exact reals: floating-point rounding
    is abstracted away. Each primitive is a method with the loops of the source,
    proved against a specification function defined here. */
module Matrices {

  type Matrix = seq<seq<real>>

  /** `m` has `rows` rows of exactly `cols` entries each. */
  predicate IsRect<T>(m: seq<seq<T>>, rows: nat, cols: nat) {
    |m| == rows && forall i :: 0 <= i < |m| ==> |m[i]| == cols
  }

  /** The column count of a matrix, read from its first row as the source does. */
  function Cols<T>(m: seq<seq<T>>): nat {
    if |m| == 0 then 0 else |m[0]|
  }

  /** Every row of p is as long as every row of q, so that p[i]·q[j] is defined. */
  predicate SameWidth(p: Matrix, q: Matrix) {
    forall i, j :: 0 <= i < |p| && 0 <= j < |q| ==> |p[i]| == |q[j]|
  }

  /** The factor shapes p·qᵀ is taken on: q is a non-empty rectangle of k ≥ 1
      columns and p is a rectangle of the same k columns. */
  predicate FactorShapes(p: Matrix, q: Matrix) {
    |q| > 0 && |q[0]| > 0 && IsRect(q, |q|, |q[0]|) && IsRect(p, |p|, |q[0]|)
  }

  // ---------------------------------------------------------------------------
  // Specification functions

  /** a·b, kept as a function of two arguments so that its sign facts below are
      stated on a product of distinct variables. */
  function Times(a: real, b: real): real {
    a * b
  }

  lemma TimesSign(a: real, b: real)
    ensures (a > 0.0 && b > 0.0) || (a < 0.0 && b < 0.0) ==> Times(a, b) > 0.0
    ensures a == 0.0 ==> Times(a, b) == 0.0
  {
  }

  /** Σ_{t<n} u[t]·v[t], accumulated from t = 0 upwards. */
  function InnerProduct(u: seq<real>, v: seq<real>, n: nat): real
    requires n <= |u| && n <= |v|
  {
    if n == 0 then 0.0 else InnerProduct(u, v, n - 1) + u[n - 1] * v[n - 1]
  }

  /** Σ_{t<n} row[t]·b[t][j]: the sum of one cell of a product. */
  function ColumnDot(row: seq<real>, b: Matrix, j: nat, n: nat): real
    requires n <= |row| && n <= |b|
    requires forall t :: 0 <= t < n ==> j < |b[t]|
  {
    if n == 0 then 0.0 else ColumnDot(row, b, j, n - 1) + row[n - 1] * b[n - 1][j]
  }

  /** `a·b` is defined: `b` is a non-empty rectangle and every row of `a` has |b| entries. */
  predicate Multipliable(a: Matrix, b: Matrix) {
    |b| > 0 && IsRect(b, |b|, |b[0]|) && forall i :: 0 <= i < |a| ==> |a[i]| == |b|
  }

  /** The matrix product a·b. */
  function Product(a: Matrix, b: Matrix): (c: Matrix)
    requires Multipliable(a, b)
    ensures IsRect(c, |a|, |b[0]|)
  {
    seq(|a|, i requires 0 <= i < |a| =>
      seq(|b[0]|, j requires 0 <= j < |b[0]| => ColumnDot(a[i], b, j, |b|)))
  }

  /** `a` has a first row and is rectangular, so that its transpose is defined. */
  predicate Transposable<T>(a: seq<seq<T>>) {
    |a| > 0 && IsRect(a, |a|, |a[0]|)
  }

  /** The transpose of `a`. */
  function Transposed(a: Matrix): (t: Matrix)
    requires Transposable(a)
    ensures IsRect(t, |a[0]|, |a|)
  {
    seq(|a[0]|, j requires 0 <= j < |a[0]| => seq(|a|, i requires 0 <= i < |a| => a[i][j]))
  }

  /** The n×n identity matrix. */
  function Identity(n: nat): (id: Matrix)
    ensures IsRect(id, n, n)
  {
    seq(n, i requires 0 <= i < n => seq(n, j requires 0 <= j < n => if i == j then 1.0 else 0.0))
  }

  /** The vector x + c·y, entry by entry. */
  function Axpy(x: seq<real>, c: real, y: seq<real>): (z: seq<real>)
    requires |x| == |y|
    ensures |z| == |x|
  {
    seq(|x|, t requires 0 <= t < |x| => x[t] + c * y[t])
  }

  /** Cuts a row-major stream `xs` into `rows` rows of `cols` entries. */
  function FromRowMajor<T>(xs: seq<T>, rows: nat, cols: nat): (m: seq<seq<T>>)
    requires |xs| == rows * cols
    ensures IsRect(m, rows, cols)
  {
    if rows == 0 then []
    else [xs[..cols]] + FromRowMajor(xs[cols..], rows - 1, cols)
  }

  /** The entries of `m` in row-major order. */
  function Flatten<T>(m: seq<seq<T>>): seq<T> {
    if |m| == 0 then [] else m[0] + Flatten(m[1..])
  }

  // ---------------------------------------------------------------------------
  // Lemmas

  /** The inner product does not depend on the order of its operands. */
  lemma {:induction false} InnerProductSymmetric(u: seq<real>, v: seq<real>, n: nat)
    requires n <= |u| && n <= |v|
    ensures InnerProduct(u, v, n) == InnerProduct(v, u, n)
  {
    if n > 0 {
      InnerProductSymmetric(u, v, n - 1);
    }
  }

  /** Each cell of a product holds the column sum of the source. */
  lemma ProductAt(a: Matrix, b: Matrix, i: nat, j: nat)
    requires Multipliable(a, b) && i < |a| && j < |b[0]|
    ensures Product(a, b)[i][j] == ColumnDot(a[i], b, j, |b|)
  {
  }

  /** Cell [j][i] of the transpose is cell [i][j] of the original. */
  lemma TransposedAt(a: Matrix, i: nat, j: nat)
    requires Transposable(a) && i < |a| && j < |a[0]|
    ensures Transposed(a)[j][i] == a[i][j]
  {
  }

  /** Transposing twice gives back any rectangle with at least one column. */
  lemma TransposeInvolution(a: Matrix)
    requires Transposable(a) && |a[0]| > 0
    ensures Transposable(Transposed(a))
    ensures Transposed(Transposed(a)) == a
  {
    var t := Transposed(a);
    var tt := Transposed(t);
    assert |tt| == |a|;
    forall i | 0 <= i < |a|
      ensures tt[i] == a[i]
    {
      assert |tt[i]| == |a[i]|;
      forall j | 0 <= j < |a[i]|
        ensures tt[i][j] == a[i][j]
      {
        assert tt[i][j] == t[j][i];
      }
    }
  }

  lemma {:induction false} ColumnDotIdentity(row: seq<real>, n: nat, j: nat, m: nat)
    requires j < n && m <= n && |row| == n
    ensures ColumnDot(row, Identity(n), j, m) == if j < m then row[j] else 0.0
  {
    if m > 0 {
      ColumnDotIdentity(row, n, j, m - 1);
    }
  }

  /** a·I == a. */
  lemma ProductIdentity(a: Matrix, n: nat)
    requires n > 0 && IsRect(a, |a|, n)
    ensures Multipliable(a, Identity(n))
    ensures Product(a, Identity(n)) == a
  {
    var c := Product(a, Identity(n));
    forall i | 0 <= i < |a|
      ensures c[i] == a[i]
    {
      forall j | 0 <= j < n
        ensures c[i][j] == a[i][j]
      {
        ColumnDotIdentity(a[i], n, j, n);
      }
    }
  }

  /** Σ_{t<n} x[t]·(Σ_{s<k} b[t][s]·c[s][j]): cell j of the row x·(b·c), with the
      inner sum cut at k. */
  function RowTimesProduct(x: seq<real>, b: Matrix, c: Matrix, j: nat, n: nat, k: nat): real
    requires Multipliable(b, c) && n <= |x| && n <= |b| && k <= |c| && j < |c[0]|
  {
    if n == 0 then 0.0 else RowTimesProduct(x, b, c, j, n - 1, k) + x[n - 1] * ColumnDot(b[n - 1], c, j, k)
  }

  /** Raising the inner bound by one adds the column of b at k - 1, weighted by x,
      times c[k - 1][j]. */
  lemma {:induction false} RowTimesProductStep(x: seq<real>, b: Matrix, c: Matrix, j: nat, n: nat, k: nat)
    requires Multipliable(b, c) && n <= |x| && n <= |b| && 0 < k <= |c| && j < |c[0]|
    ensures RowTimesProduct(x, b, c, j, n, k)
         == RowTimesProduct(x, b, c, j, n, k - 1) + ColumnDot(x, b, k - 1, n) * c[k - 1][j]
  {
    if n > 0 {
      RowTimesProductStep(x, b, c, j, n - 1, k);
      var w, y, z := c[k - 1][j], x[n - 1], b[n - 1][k - 1];
      var inner, column := ColumnDot(b[n - 1], c, j, k - 1), ColumnDot(x, b, k - 1, n - 1);
      assert ColumnDot(b[n - 1], c, j, k) == inner + z * w;
      assert ColumnDot(x, b, k - 1, n) == column + y * z;
      assert y * (inner + z * w) == y * inner + (y * z) * w;
      assert (column + y * z) * w == column * w + (y * z) * w;
    }
  }

  /** With an empty inner sum every term is x[t]·0. */
  lemma {:induction false} RowTimesProductEmpty(x: seq<real>, b: Matrix, c: Matrix, j: nat, n: nat)
    requires Multipliable(b, c) && n <= |x| && n <= |b| && j < |c[0]|
    ensures RowTimesProduct(x, b, c, j, n, 0) == 0.0
  {
    if n > 0 {
      RowTimesProductEmpty(x, b, c, j, n - 1);
    }
  }

  /** Cell j of (x·b)·c, with the outer sum cut at k, is RowTimesProduct at k;
      `u` is the row x·b. */
  lemma {:induction false} RowOfProductTimes(x: seq<real>, u: seq<real>, b: Matrix, c: Matrix, j: nat, k: nat)
    requires Multipliable(b, c) && |x| == |b| && |u| == |c| && k <= |c| && j < |c[0]|
    requires forall s :: 0 <= s < |u| ==> u[s] == ColumnDot(x, b, s, |b|)
    ensures ColumnDot(u, c, j, k) == RowTimesProduct(x, b, c, j, |b|, k)
  {
    if k > 0 {
      RowOfProductTimes(x, u, b, c, j, k - 1);
      RowTimesProductStep(x, b, c, j, |b|, k);
    } else {
      RowTimesProductEmpty(x, b, c, j, |b|);
    }
  }

  /** Cell j of x·(b·c), with the sum cut at n, is RowTimesProduct at n. */
  lemma {:induction false} RowTimesProductOf(x: seq<real>, b: Matrix, c: Matrix, j: nat, n: nat)
    requires Multipliable(b, c) && |x| == |b| && n <= |b| && j < |c[0]|
    ensures ColumnDot(x, Product(b, c), j, n) == RowTimesProduct(x, b, c, j, n, |c|)
  {
    if n > 0 {
      RowTimesProductOf(x, b, c, j, n - 1);
      ProductAt(b, c, n - 1, j);
    }
  }

  /** The matrix product is associative: (a·b)·c == a·(b·c). */
  lemma ProductAssociative(a: Matrix, b: Matrix, c: Matrix)
    requires Multipliable(a, b) && Multipliable(b, c)
    ensures Multipliable(Product(a, b), c) && Multipliable(a, Product(b, c))
    ensures Product(Product(a, b), c) == Product(a, Product(b, c))
  {
    var ab, bc := Product(a, b), Product(b, c);
    var left, right := Product(ab, c), Product(a, bc);
    forall i | 0 <= i < |a|
      ensures left[i] == right[i]
    {
      forall j | 0 <= j < |c[0]|
        ensures left[i][j] == right[i][j]
      {
        RowOfProductTimes(a[i], ab[i], b, c, j, |c|);
        RowTimesProductOf(a[i], b, c, j, |b|);
      }
    }
  }

  lemma {:induction false} ColumnDotTransposed(row: seq<real>, q: Matrix, j: nat, n: nat)
    requires Transposable(q) && j < |q| && n <= |q[0]| && |row| >= n
    ensures ColumnDot(row, Transposed(q), j, n) == InnerProduct(row, q[j], n)
  {
    if n > 0 {
      ColumnDotTransposed(row, q, j, n - 1);
    }
  }

  /** Cell [i][j] of p·qᵗ is the inner product of row i of p with row j of q. */
  lemma ProductTransposeAt(p: Matrix, q: Matrix, k: nat, i: nat, j: nat)
    requires k > 0 && IsRect(p, |p|, k) && IsRect(q, |q|, k) && |q| > 0
    requires i < |p| && j < |q|
    ensures Multipliable(p, Transposed(q))
    ensures IsRect(Product(p, Transposed(q)), |p|, |q|)
    ensures Product(p, Transposed(q))[i][j] == InnerProduct(p[i], q[j], k)
  {
    ColumnDotTransposed(p[i], q, j, k);
  }

  lemma {:induction false} FromRowMajorAt<T>(xs: seq<T>, rows: nat, cols: nat, i: nat, j: nat)
    requires |xs| == rows * cols && i < rows && j < cols
    ensures i * cols + j < |xs|
    ensures FromRowMajor(xs, rows, cols)[i][j] == xs[i * cols + j]
  {
    if i > 0 {
      FromRowMajorAt(xs[cols..], rows - 1, cols, i - 1, j);
      assert (i - 1) * cols + j + cols == i * cols + j;
    }
  }

  /** Appending one more row of `cols` values to the stream appends one row to the matrix. */
  lemma {:induction false} FromRowMajorSnoc<T>(xs: seq<T>, ys: seq<T>, rows: nat, cols: nat)
    requires |xs| == rows * cols && |ys| == cols
    ensures |xs + ys| == (rows + 1) * cols
    ensures FromRowMajor(xs + ys, rows + 1, cols) == FromRowMajor(xs, rows, cols) + [ys]
  {
    if rows > 0 {
      FromRowMajorSnoc(xs[cols..], ys, rows - 1, cols);
      assert (xs + ys)[cols..] == xs[cols..] + ys;
      assert (xs + ys)[..cols] == xs[..cols];
    } else {
      assert xs + ys == ys && ys[..cols] == ys;
    }
  }

  /** Flattening undoes cutting into rows. */
  lemma {:induction false} FlattenFromRowMajor<T>(xs: seq<T>, rows: nat, cols: nat)
    requires |xs| == rows * cols
    ensures Flatten(FromRowMajor(xs, rows, cols)) == xs
  {
    if rows > 0 {
      var m := FromRowMajor(xs, rows, cols);
      assert |xs[cols..]| == (rows - 1) * cols;
      FlattenFromRowMajor(xs[cols..], rows - 1, cols);
      assert m[0] == xs[..cols] && m[1..] == FromRowMajor(xs[cols..], rows - 1, cols);
      assert xs == xs[..cols] + xs[cols..];
    }
  }

  /** Cutting into rows undoes flattening a rectangle. */
  lemma {:induction false} FromRowMajorFlatten<T>(m: seq<seq<T>>, rows: nat, cols: nat)
    requires IsRect(m, rows, cols)
    ensures |Flatten(m)| == rows * cols
    ensures FromRowMajor(Flatten(m), rows, cols) == m
  {
    if rows > 0 {
      FromRowMajorFlatten(m[1..], rows - 1, cols);
      assert Flatten(m)[..cols] == m[0];
      assert Flatten(m)[cols..] == Flatten(m[1..]);
      assert m == [m[0]] + m[1..];
    }
  }

  /** Flattening distributes over putting rows one after the other. */
  lemma {:induction false} FlattenConcat<T>(a: seq<seq<T>>, b: seq<seq<T>>)
    ensures Flatten(a + b) == Flatten(a) + Flatten(b)
  {
    if |a| > 0 {
      FlattenConcat(a[1..], b);
      assert (a + b)[1..] == a[1..] + b;
    } else {
      assert a + b == b;
    }
  }

  /** Adding zero times y leaves x as it is. */
  lemma AxpyByZero(x: seq<real>, y: seq<real>)
    requires |x| == |y|
    ensures Axpy(x, 0.0, y) == x
  {
    var z := Axpy(x, 0.0, y);
    forall t | 0 <= t < |x|
      ensures z[t] == x[t]
    {
      assert z[t] == x[t] + 0.0 * y[t];
    }
  }

  // ---------------------------------------------------------------------------
  // The primitives of site/app.js

  /** `dot(a, b)`: one accumulator over the length of `a`. */
  method Dot(a: seq<real>, b: seq<real>) returns (s: real)
    requires |a| <= |b|
    ensures s == InnerProduct(a, b, |a|)
  {
    s := 0.0;
    for i := 0 to |a|
      invariant s == InnerProduct(a, b, i)
    {
      s := s + a[i] * b[i];
    }
  }

  /** `matmul(a, b)`: a zero-filled |a|×|b[0]| result whose cells are overwritten by their sums. */
  method MatMul(a: Matrix, b: Matrix) returns (out: Matrix)
    requires Multipliable(a, b)
    ensures out == Product(a, b)
  {
    var rows, cols, k := |a|, |b[0]|, |b|;
    out := seq(rows, _ => seq(cols, _ => 0.0));
    for i := 0 to rows
      invariant IsRect(out, rows, cols)
      invariant forall x, y :: 0 <= x < i && 0 <= y < cols ==> out[x][y] == ColumnDot(a[x], b, y, k)
    {
      for j := 0 to cols
        invariant IsRect(out, rows, cols)
        invariant forall x, y :: 0 <= x < i && 0 <= y < cols ==> out[x][y] == ColumnDot(a[x], b, y, k)
        invariant forall y :: 0 <= y < j ==> out[i][y] == ColumnDot(a[i], b, y, k)
      {
        var sum := 0.0;
        for t := 0 to k
          invariant sum == ColumnDot(a[i], b, j, t)
        {
          sum := sum + a[i][t] * b[t][j];
        }
        out := out[i := out[i][j := sum]];
      }
    }
    assert forall x :: 0 <= x < rows ==> out[x] == Product(a, b)[x];
  }

  /** `transpose(a)`: a zero-filled |a[0]|×|a| result filled cell by cell. */
  method Transpose(a: Matrix) returns (out: Matrix)
    requires Transposable(a)
    ensures out == Transposed(a)
  {
    var rows, cols := |a|, |a[0]|;
    out := seq(cols, _ => seq(rows, _ => 0.0));
    for i := 0 to rows
      invariant IsRect(out, cols, rows)
      invariant forall y, x :: 0 <= y < cols && 0 <= x < i ==> out[y][x] == a[x][y]
    {
      for j := 0 to cols
        invariant IsRect(out, cols, rows)
        invariant forall y, x :: 0 <= y < cols && 0 <= x < i ==> out[y][x] == a[x][y]
        invariant forall y :: 0 <= y < j ==> out[y][i] == a[i][y]
      {
        out := out[j := out[j][i := a[i][j]]];
      }
    }
    assert forall y :: 0 <= y < cols ==> out[y] == Transposed(a)[y];
  }

  // ---------------------------------------------------------------------------
  // Matrices held in place

  /** Row i of a two-dimensional array, as a value. */
  function Row(a: array2<real>, i: nat): (s: seq<real>)
    reads a
    requires i < a.Length0
    ensures |s| == a.Length1
    ensures forall t :: 0 <= t < a.Length1 ==> s[t] == a[i, t]
  {
    seq(a.Length1, t requires 0 <= t < a.Length1 reads a => a[i, t])
  }

  /** The whole of a two-dimensional array, as a value. */
  function Rows(a: array2<real>): (m: Matrix)
    reads a
    ensures IsRect(m, a.Length0, a.Length1)
    ensures forall i :: 0 <= i < a.Length0 ==> m[i] == Row(a, i)
  {
    seq(a.Length0, i requires 0 <= i < a.Length0 reads a => Row(a, i))
  }

  /** An array whose cells agree with a matrix of its shape reads as that matrix. */
  lemma RowsAre(a: array2<real>, m: Matrix)
    requires IsRect(m, a.Length0, a.Length1)
    requires forall x, y :: 0 <= x < a.Length0 && 0 <= y < a.Length1 ==> a[x, y] == m[x][y]
    ensures Rows(a) == m
  {
    forall x | 0 <= x < a.Length0
      ensures Rows(a)[x] == m[x]
    {
      assert Row(a, x) == m[x];
    }
  }
}
