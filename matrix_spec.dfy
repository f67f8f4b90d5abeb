/** Pure reference definitions for the integer matrix library: a matrix is a
    sequence of rows, and every operation of MatrixTools is specified by a
    function over such sequences. Arithmetic is over mathematical integers. */
module MatrixSpec {

  type Matrix = seq<seq<int>>

  /** A has r rows of c entries each. */
  predicate IsMatrix(A: Matrix, r: nat, c: nat) {
    |A| == r && forall i :: 0 <= i < |A| ==> |A[i]| == c
  }

  /** A has as many entries in every row as it has rows. */
  predicate IsSquare(A: Matrix) {
    IsMatrix(A, |A|, |A|)
  }

  /** Every cell (i, j) with i < r and j < c exists in A: A has at least r rows,
      each of its first r rows has at least c entries, unless c is 0 and no cell is read. */
  predicate Covers(A: Matrix, r: nat, c: nat) {
    c > 0 ==> |A| >= r && forall i :: 0 <= i < r ==> |A[i]| >= c
  }

  /** The contents of a two-dimensional array, row by row. */
  function Rows(m: array2<int>): (A: Matrix)
    reads m
    ensures IsMatrix(A, m.Length0, m.Length1)
    ensures forall i, j :: 0 <= i < m.Length0 && 0 <= j < m.Length1 ==> A[i][j] == m[i, j]
  {
    seq(m.Length0, i requires 0 <= i < m.Length0 reads m =>
      seq(m.Length1, j requires 0 <= j < m.Length1 reads m => m[i, j]))
  }

  /** Two matrices of the same shape that agree in every cell are equal. */
  lemma SameCells(P: Matrix, Q: Matrix, r: nat, c: nat)
    requires IsMatrix(P, r, c) && IsMatrix(Q, r, c)
    requires forall i, j :: 0 <= i < r && 0 <= j < c ==> P[i][j] == Q[i][j]
    ensures P == Q
  {
    assert forall i | 0 <= i < r :: P[i] == Q[i];
  }

  /** A 2 x 2 matrix is the display of its four cells. */
  lemma TwoByTwo(P: Matrix, a: int, b: int, c: int, d: int)
    requires IsMatrix(P, 2, 2)
    requires P[0][0] == a && P[0][1] == b && P[1][0] == c && P[1][1] == d
    ensures P == [[a, b], [c, d]]
  {
    assert P[0] == [a, b] && P[1] == [c, d];
  }

  // ---------------------------------------------------------------- transpose

  /** The transpose of an r x c matrix A (r = |A|): a c x r matrix. */
  function Transposed(A: Matrix, c: nat): (T: Matrix)
    requires IsMatrix(A, |A|, c)
    ensures IsMatrix(T, c, |A|)
    ensures forall i, j :: 0 <= i < |A| && 0 <= j < c ==> T[j][i] == A[i][j]
  {
    seq(c, j requires 0 <= j < c => seq(|A|, i requires 0 <= i < |A| => A[i][j]))
  }

  /** Transposing twice gives back the original matrix. */
  lemma TransposeInvolution(A: Matrix, c: nat)
    requires IsMatrix(A, |A|, c)
    ensures Transposed(Transposed(A, c), |A|) == A
  {
    var T := Transposed(A, c);
    SameCells(Transposed(T, |A|), A, |A|, c);
  }

  // ---------------------------------------------------------------- addition

  /** Sum of cell (i, j) over the matrices of As, added in list order. */
  function CellSum(As: seq<Matrix>, i: nat, j: nat): int
    requires forall k :: 0 <= k < |As| ==> i < |As[k]| && j < |As[k][i]|
  {
    if As == [] then 0 else CellSum(As[..|As| - 1], i, j) + As[|As| - 1][i][j]
  }

  /** The r x c cell-by-cell sum of a list of matrices, each at least r x c. */
  function Sum(As: seq<Matrix>, r: nat, c: nat): (S: Matrix)
    requires forall k :: 0 <= k < |As| ==> Covers(As[k], r, c)
    ensures IsMatrix(S, r, c)
  {
    seq(r, i requires 0 <= i < r =>
      seq(c, j requires 0 <= j < c => CoveredCell(As, r, c, i, j); CellSum(As, i, j)))
  }

  lemma CoveredCell(As: seq<Matrix>, r: nat, c: nat, i: nat, j: nat)
    requires forall k :: 0 <= k < |As| ==> Covers(As[k], r, c)
    requires i < r && j < c
    ensures forall k :: 0 <= k < |As| ==> i < |As[k]| && j < |As[k][i]|
  {
    forall k | 0 <= k < |As| ensures i < |As[k]| && j < |As[k][i]| {
      assert Covers(As[k], r, c);
    }
  }

  /** Summing the concatenation of two lists adds their sums cell by cell. */
  lemma {:induction false} CellSumAppend(As: seq<Matrix>, Bs: seq<Matrix>, i: nat, j: nat)
    requires forall k :: 0 <= k < |As| ==> i < |As[k]| && j < |As[k][i]|
    requires forall k :: 0 <= k < |Bs| ==> i < |Bs[k]| && j < |Bs[k][i]|
    ensures CellSum(As + Bs, i, j) == CellSum(As, i, j) + CellSum(Bs, i, j)
    decreases |Bs|
  {
    if Bs == [] {
      assert As + Bs == As;
    } else {
      var Cs := Bs[..|Bs| - 1];
      assert (As + Bs)[..|As + Bs| - 1] == As + Cs;
      CellSumAppend(As, Cs, i, j);
    }
  }

  /** The sum of one matrix is that matrix. */
  lemma SumOfOne(A: Matrix, r: nat, c: nat)
    requires IsMatrix(A, r, c)
    ensures Sum([A], r, c) == A
  {
    forall i, j | 0 <= i < r && 0 <= j < c
      ensures Sum([A], r, c)[i][j] == A[i][j]
    {
      assert [A][..0] == [];
      assert CellSum([A], i, j) == CellSum([], i, j) + A[i][j];
    }
    SameCells(Sum([A], r, c), A, r, c);
  }

  /** Adding the matrices of two lists is adding the two partial sums. */
  lemma SumConcat(As: seq<Matrix>, Bs: seq<Matrix>, r: nat, c: nat, i: nat, j: nat)
    requires forall k :: 0 <= k < |As| ==> Covers(As[k], r, c)
    requires forall k :: 0 <= k < |Bs| ==> Covers(Bs[k], r, c)
    requires i < r && j < c
    ensures Sum(As + Bs, r, c)[i][j] == Sum(As, r, c)[i][j] + Sum(Bs, r, c)[i][j]
  {
    CellSumAppend(As, Bs, i, j);
  }

  /** Two matrices sum cell by cell. */
  lemma SumOfTwo(A: Matrix, B: Matrix, r: nat, c: nat, i: nat, j: nat)
    requires Covers(A, r, c) && Covers(B, r, c)
    requires i < r && j < c
    ensures Sum([A, B], r, c)[i][j] == A[i][j] + B[i][j]
  {
    assert [A, B] == [A] + [B];
    CellSumAppend([A], [B], i, j);
    assert [A][..0] == [] && [B][..0] == [];
  }

  // ---------------------------------------------------------------- product

  /** The first k terms of row i of A times column j of B. */
  function Dot(A: Matrix, B: Matrix, i: nat, j: nat, k: nat): int
    requires i < |A| && k <= |A[i]| && k <= |B|
    requires forall t :: 0 <= t < k ==> j < |B[t]|
  {
    if k == 0 then 0 else Dot(A, B, i, j, k - 1) + A[i][k - 1] * B[k - 1][j]
  }

  /** The product of an r x n matrix A and an n x p matrix B (r = |A|). */
  function Product(A: Matrix, B: Matrix, n: nat, p: nat): (P: Matrix)
    requires IsMatrix(A, |A|, n) && IsMatrix(B, n, p)
    ensures IsMatrix(P, |A|, p)
  {
    seq(|A|, i requires 0 <= i < |A| => seq(p, j requires 0 <= j < p => Dot(A, B, i, j, n)))
  }

  /** Row i of A times column j of B equals row j of B^T times column i of A^T. */
  lemma {:induction false} DotTransposed(A: Matrix, B: Matrix, n: nat, p: nat, i: nat, j: nat, k: nat)
    requires IsMatrix(A, |A|, n) && IsMatrix(B, n, p)
    requires i < |A| && j < p && k <= n
    ensures Dot(A, B, i, j, k) == Dot(Transposed(B, p), Transposed(A, n), j, i, k)
  {
    if k > 0 {
      DotTransposed(A, B, n, p, i, j, k - 1);
    }
  }

  /** (A B)^T == B^T A^T. */
  lemma ProductTransposed(A: Matrix, B: Matrix, n: nat, p: nat)
    requires IsMatrix(A, |A|, n) && IsMatrix(B, n, p)
    ensures Transposed(Product(A, B, n, p), p) == Product(Transposed(B, p), Transposed(A, n), n, |A|)
  {
    var L := Transposed(Product(A, B, n, p), p);
    var R := Product(Transposed(B, p), Transposed(A, n), n, |A|);
    forall j, i | 0 <= j < p && 0 <= i < |A| ensures L[j][i] == R[j][i] {
      DotTransposed(A, B, n, p, i, j, n);
    }
    SameCells(L, R, p, |A|);
  }

  /** The n x n identity matrix. */
  function Identity(n: nat): (I: Matrix)
    ensures IsMatrix(I, n, n)
  {
    seq(n, i requires 0 <= i < n => seq(n, j requires 0 <= j < n => if i == j then 1 else 0))
  }

  lemma {:induction false} DotIdentity(A: Matrix, n: nat, i: nat, j: nat, k: nat)
    requires IsMatrix(A, |A|, n) && i < |A| && j < n && k <= n
    ensures Dot(A, Identity(n), i, j, k) == if j < k then A[i][j] else 0
  {
    if k > 0 {
      DotIdentity(A, n, i, j, k - 1);
    }
  }

  /** Multiplying by the identity on the right changes nothing. */
  lemma ProductIdentity(A: Matrix, n: nat)
    requires IsMatrix(A, |A|, n)
    ensures Product(A, Identity(n), n, n) == A
  {
    forall i, j | 0 <= i < |A| && 0 <= j < n ensures Product(A, Identity(n), n, n)[i][j] == A[i][j] {
      DotIdentity(A, n, i, j, n);
    }
    SameCells(Product(A, Identity(n), n, n), A, |A|, n);
  }

  // ---------------------------------------------------------------- minors and determinants

  /** Index b of a sequence from which position r was deleted, as an index of the original. */
  function Skip(b: nat, r: nat): nat {
    if b < r then b else b + 1
  }

  /** The minor of a square A: row r and column c deleted. */
  function Minor(A: Matrix, r: nat, c: nat): (M: Matrix)
    requires IsSquare(A) && r < |A| && c < |A|
    ensures IsSquare(M) && |M| == |A| - 1
    ensures forall a, b :: 0 <= a < |M| && 0 <= b < |M| ==> M[a][b] == A[Skip(a, r)][Skip(b, c)]
  {
    var rows := A[..r] + A[r + 1..];
    seq(|rows|, a requires 0 <= a < |rows| => rows[a][..c] + rows[a][c + 1..])
  }

  /** +1 at even positions, -1 at odd ones. */
  function Sign(k: nat): int {
    if k % 2 == 0 then 1 else -1
  }

  /** Determinant of a non-empty square matrix by Laplace expansion along the first row. */
  function Det(A: Matrix): int
    requires IsSquare(A) && |A| >= 1
    decreases |A|, 1, 0
  {
    if |A| == 1 then A[0][0] else Expansion(A, |A|)
  }

  /** The first k terms of the first-row expansion of A. */
  function Expansion(A: Matrix, k: nat): int
    requires IsSquare(A) && |A| >= 2 && k <= |A|
    decreases |A|, 0, k
  {
    if k == 0 then 0
    else Expansion(A, k - 1) + Sign(k - 1) * A[0][k - 1] * Det(Minor(A, 0, k - 1))
  }

  /** The first k terms of the first-row expansion of A with every zero entry
      left out, its minor never evaluated: the sum the library's loop forms. */
  function NonzeroExpansion(A: Matrix, k: nat): int
    requires IsSquare(A) && |A| >= 2 && k <= |A|
  {
    if k == 0 then 0
    else if A[0][k - 1] == 0 then NonzeroExpansion(A, k - 1)
    else NonzeroExpansion(A, k - 1) + Sign(k - 1) * A[0][k - 1] * Det(Minor(A, 0, k - 1))
  }

  /** Leaving out the zero entries of the first row does not change the expansion. */
  lemma {:induction false} NonzeroExpansionIsExpansion(A: Matrix, k: nat)
    requires IsSquare(A) && |A| >= 2 && k <= |A|
    ensures NonzeroExpansion(A, k) == Expansion(A, k)
  {
    if k > 0 {
      NonzeroExpansionIsExpansion(A, k - 1);
    }
  }

  /** The explicit 2 x 2 formula. */
  lemma Det2(A: Matrix)
    requires IsSquare(A) && |A| == 2
    ensures Det(A) == A[0][0] * A[1][1] - A[0][1] * A[1][0]
  {
    var M0, M1 := Minor(A, 0, 0), Minor(A, 0, 1);
    assert Det(M0) == A[1][1];
    assert Det(M1) == A[1][0];
    assert Expansion(A, 1) == A[0][0] * A[1][1];
  }

  /** The rule of Sarrus for the 3 x 3 matrix [[a, b, c], [d, e, f], [g, h, i]]. */
  function Sarrus(a: int, b: int, c: int, d: int, e: int, f: int, g: int, h: int, i: int): int {
    a * (e * i - f * h) - b * (d * i - f * g) + c * (d * h - e * g)
  }

  /** The explicit 3 x 3 formula. */
  lemma Det3(A: Matrix)
    requires IsSquare(A) && |A| == 3
    ensures Det(A) == Sarrus(A[0][0], A[0][1], A[0][2], A[1][0], A[1][1], A[1][2], A[2][0], A[2][1], A[2][2])
  {
    var M0, M1, M2 := Minor(A, 0, 0), Minor(A, 0, 1), Minor(A, 0, 2);
    var d0, d1, d2 := Det(M0), Det(M1), Det(M2);
    assert Det(A) == A[0][0] * d0 - A[0][1] * d1 + A[0][2] * d2 by {
      assert Expansion(A, 1) == A[0][0] * d0;
      assert Expansion(A, 2) == Expansion(A, 1) - A[0][1] * d1;
    }
    assert d0 == A[1][1] * A[2][2] - A[1][2] * A[2][1] by { Det2(M0); }
    assert d1 == A[1][0] * A[2][2] - A[1][2] * A[2][0] by { Det2(M1); }
    assert d2 == A[1][0] * A[2][1] - A[1][1] * A[2][0] by { Det2(M2); }
  }

  /** Transposing a 2 x 2 matrix keeps its determinant. */
  lemma DetTransposed2(A: Matrix)
    requires IsSquare(A) && |A| == 2
    ensures Det(Transposed(A, 2)) == Det(A)
  {
    var T := Transposed(A, 2);
    assert Det(A) == A[0][0] * A[1][1] - A[0][1] * A[1][0] by { Det2(A); }
    assert Det(T) == A[0][0] * A[1][1] - A[1][0] * A[0][1] by { Det2(T); }
  }

  /** Transposing a 3 x 3 matrix keeps its determinant. */
  lemma DetTransposed3(A: Matrix)
    requires IsSquare(A) && |A| == 3
    ensures Det(Transposed(A, 3)) == Det(A)
  {
    var T := Transposed(A, 3);
    var a, b, c := A[0][0], A[0][1], A[0][2];
    var d, e, f := A[1][0], A[1][1], A[1][2];
    var g, h, i := A[2][0], A[2][1], A[2][2];
    assert Det(A) == Sarrus(a, b, c, d, e, f, g, h, i) by { Det3(A); }
    assert Det(T) == Sarrus(a, d, g, b, e, h, c, f, i) by { Det3(T); }
  }

  /** The determinant of a product of 2 x 2 matrices is the product of their determinants. */
  lemma DetProduct2(A: Matrix, B: Matrix)
    requires IsSquare(A) && IsSquare(B) && |A| == |B| == 2
    ensures Det(Product(A, B, 2, 2)) == Det(A) * Det(B)
  {
    var P := Product(A, B, 2, 2);
    var a, b, c, d := A[0][0], A[0][1], A[1][0], A[1][1];
    var e, f, g, h := B[0][0], B[0][1], B[1][0], B[1][1];
    var p, q, r, s := P[0][0], P[0][1], P[1][0], P[1][1];
    assert p == a * e + b * g && q == a * f + b * h && r == c * e + d * g && s == c * f + d * h by {
      forall i, j | 0 <= i < 2 && 0 <= j < 2
        ensures P[i][j] == A[i][0] * B[0][j] + A[i][1] * B[1][j]
      {
        assert Dot(A, B, i, j, 1) == A[i][0] * B[0][j];
      }
    }
    assert Det(P) == p * s - q * r by { Det2(P); }
    assert Det(A) == a * d - b * c by { Det2(A); }
    assert Det(B) == e * h - f * g by { Det2(B); }
    ProductRule2(a, b, c, d, e, f, g, h, p, q, r, s);
  }

  /** The product rule for determinants, written out for 2 x 2 entries. */
  lemma ProductRule2(a: int, b: int, c: int, d: int, e: int, f: int, g: int, h: int, p: int, q: int, r: int, s: int)
    requires p == a * e + b * g && q == a * f + b * h
    requires r == c * e + d * g && s == c * f + d * h
    ensures p * s - q * r == (a * d - b * c) * (e * h - f * g)
  {
    ExpandProduct(p, s, a * e, b * g, c * f, d * h);
    ExpandProduct(q, r, a * f, b * h, c * e, d * g);
    Regroup(a, e, c, f);
    Regroup(b, g, d, h);
    Regroup(a, e, d, h);
    Regroup(b, g, c, f);
    Regroup(a, f, d, g);
    Regroup(b, h, c, e);
    ExpandDifference(a * d, b * c, e * h, f * g);
  }

  /** A product of two sums, multiplied out. */
  lemma ExpandProduct(u: int, v: int, x: int, y: int, z: int, w: int)
    requires u == x + y && v == z + w
    ensures u * v == x * z + x * w + y * z + y * w
  {
  }

  /** A product of two differences, multiplied out. */
  lemma ExpandDifference(x: int, y: int, z: int, w: int)
    ensures (x - y) * (z - w) == x * z - x * w - y * z + y * w
  {
  }

  /** Three regroupings of a product of four factors. */
  lemma Regroup(x: int, y: int, z: int, w: int)
    ensures (x * y) * (z * w) == (x * w) * (z * y)
    ensures (x * y) * (z * w) == (x * z) * (y * w)
    ensures (x * y) * (z * w) == (x * z) * (w * y)
  {
  }

  /** The matrix of signed minors: entry (i, j) is (-1)^(i+j) times the determinant of Minor(A, i, j). */
  function CofactorMatrix(A: Matrix): (C: Matrix)
    requires IsSquare(A) && |A| >= 2
    ensures IsSquare(C) && |C| == |A|
  {
    seq(|A|, i requires 0 <= i < |A| =>
      seq(|A|, j requires 0 <= j < |A| => Sign(i + j) * Det(Minor(A, i, j))))
  }

  /** The cofactor matrix of a 2 x 2 matrix swaps the diagonal and negates the rest. */
  lemma Cofactor2(A: Matrix)
    requires IsSquare(A) && |A| == 2
    ensures CofactorMatrix(A) == [[A[1][1], -A[1][0]], [-A[0][1], A[0][0]]]
  {
    var C := CofactorMatrix(A);
    forall i, j | 0 <= i < 2 && 0 <= j < 2
      ensures C[i][j] == [[A[1][1], -A[1][0]], [-A[0][1], A[0][0]]][i][j]
    {
      var M := Minor(A, i, j);
      assert Det(M) == M[0][0] == A[1 - i][1 - j];
    }
    SameCells(C, [[A[1][1], -A[1][0]], [-A[0][1], A[0][0]]], 2, 2);
  }

  /** The first k terms of row 0 of A weighted by row 0 of C. */
  function RowDot(A: Matrix, C: Matrix, k: nat): int
    requires |A| >= 1 && |C| >= 1 && k <= |A[0]| && k <= |C[0]|
  {
    if k == 0 then 0 else RowDot(A, C, k - 1) + A[0][k - 1] * C[0][k - 1]
  }

  /** Weighting the first row by its cofactors gives the determinant. */
  lemma CofactorRowZero(A: Matrix)
    requires IsSquare(A) && |A| >= 2
    ensures RowDot(A, CofactorMatrix(A), |A|) == Det(A)
  {
    CofactorPrefix(A, CofactorMatrix(A), |A|);
  }

  lemma {:induction false} CofactorPrefix(A: Matrix, C: Matrix, k: nat)
    requires IsSquare(A) && |A| >= 2 && k <= |A|
    requires C == CofactorMatrix(A)
    ensures RowDot(A, C, k) == Expansion(A, k)
  {
    if k > 0 {
      CofactorPrefix(A, C, k - 1);
      var s, a, d := Sign(k - 1), A[0][k - 1], Det(Minor(A, 0, k - 1));
      assert C[0][k - 1] == Sign(0 + (k - 1)) * d;
      assert a * (s * d) == s * a * d;
    }
  }
}
