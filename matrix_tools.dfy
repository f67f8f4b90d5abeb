/** The operations of MatrixTools over two-dimensional integer arrays. Transpose,
    Add, Multiply and Cofactor allocate and fill a fresh result array, as the
    library does; Determinant reads its argument only. Each is proved equal to
    the reference function of MatrixSpec. */
module MatrixTools {
  import opened MatrixSpec
  import opened SkipColumns

  /** The library's failure conditions (all raised as MatrixException). */
  datatype MatrixError =
    | EmptyList       // add of an empty list
    | Incompatible    // multiply with m1's column count != m2's row count
    | TooSmall        // det or cofactor of a 0 x 0 or 1 x 1 matrix
    | NotSquare       // det or cofactor of a matrix whose rows are not as long as it is high

  datatype Result<T> = Success(value: T) | Failure(error: MatrixError)

  /** The transpose of m, into a fresh m.Length1 x m.Length0 array. */
  method Transpose(m: array2<int>) returns (t: array2<int>)
    requires m.Length0 > 0  // the column count is read from row 0
    ensures fresh(t) && t.Length0 == m.Length1 && t.Length1 == m.Length0
    ensures forall i, j :: 0 <= i < m.Length0 && 0 <= j < m.Length1 ==> t[j, i] == m[i, j]
    ensures Rows(t) == Transposed(Rows(m), m.Length1)
  {
    t := new int[m.Length1, m.Length0];
    for i := 0 to m.Length0
      invariant forall a, b :: 0 <= a < i && 0 <= b < m.Length1 ==> t[b, a] == m[a, b]
    {
      for j := 0 to m.Length1
        invariant forall a, b :: 0 <= a < i && 0 <= b < m.Length1 ==> t[b, a] == m[a, b]
        invariant forall b :: 0 <= b < j ==> t[b, i] == m[i, b]
      {
        t[j, i] := m[i, j];
      }
    }
    SameCells(Rows(t), Transposed(Rows(m), m.Length1), m.Length1, m.Length0);
  }

  /** The contents of every array of ms, in list order. */
  function Views(ms: seq<array2<int>>): (As: seq<Matrix>)
    reads ms
    ensures |As| == |ms|
    ensures forall k :: 0 <= k < |ms| ==> As[k] == Rows(ms[k])
  {
    seq(|ms|, k requires 0 <= k < |ms| reads ms => Rows(ms[k]))
  }

  /** The cell-by-cell sum of the matrices of ms, shaped like ms[0]. The library
      reads only the first ms[0].Length0 x ms[0].Length1 cells of every matrix and
      does not check shapes, so later matrices need only be at least as large,
      and need nothing at all when ms[0] has no columns. */
  method Add(ms: seq<array2<int>>) returns (r: Result<array2<int>>)
    requires |ms| > 0 ==> ms[0].Length0 > 0  // the column count is read from row 0
    requires |ms| > 0 && ms[0].Length1 > 0 ==>
      forall k :: 0 <= k < |ms| ==> ms[k].Length0 >= ms[0].Length0 && ms[k].Length1 >= ms[0].Length1
    ensures |ms| == 0 <==> r == Failure(EmptyList)
    ensures |ms| > 0 ==>
      r.Success? && fresh(r.value) &&
      r.value.Length0 == ms[0].Length0 && r.value.Length1 == ms[0].Length1 &&
      Rows(r.value) == Sum(Views(ms), ms[0].Length0, ms[0].Length1)
  {
    if |ms| == 0 {
      return Failure(EmptyList);
    }
    var rows, cols := ms[0].Length0, ms[0].Length1;
    ghost var As := Views(ms);
    assert forall k :: 0 <= k < |As| ==> Covers(As[k], rows, cols);
    var temp := new int[rows, cols]((i, j) => 0);
    for i := 0 to rows
      invariant Views(ms) == As
      invariant forall a, b :: 0 <= a < i && 0 <= b < cols ==> temp[a, b] == CellSum(As, a, b)
      invariant forall a, b :: i <= a < rows && 0 <= b < cols ==> temp[a, b] == 0
    {
      AddRow(temp, ms, As, i);
    }
    SameCells(Rows(temp), Sum(As, rows, cols), rows, cols);
    return Success(temp);
  }

  /** The middle loop of add: fills row i of the zeroed temp with the sums of
      the cells of row i, and changes no other row. */
  method AddRow(temp: array2<int>, ms: seq<array2<int>>, ghost As: seq<Matrix>, i: nat)
    requires i < temp.Length0
    requires forall k :: 0 <= k < |ms| ==> ms[k] != temp
    requires temp.Length1 > 0 ==> forall k :: 0 <= k < |ms| ==> i < ms[k].Length0 && temp.Length1 <= ms[k].Length1
    requires As == Views(ms)
    requires forall b :: 0 <= b < temp.Length1 ==> temp[i, b] == 0
    modifies temp
    ensures forall b :: 0 <= b < temp.Length1 ==> temp[i, b] == CellSum(As, i, b)
    ensures forall a, b :: 0 <= a < temp.Length0 && 0 <= b < temp.Length1 && a != i ==>
      temp[a, b] == old(temp[a, b])
  {
    for j := 0 to temp.Length1
      invariant forall a, b :: 0 <= a < temp.Length0 && 0 <= b < temp.Length1 && a != i ==>
        temp[a, b] == old(temp[a, b])
      invariant forall b :: 0 <= b < j ==> temp[i, b] == CellSum(As, i, b)
      invariant forall b :: j <= b < temp.Length1 ==> temp[i, b] == 0
    {
      AddCell(temp, ms, As, i, j);
    }
  }

  /** The innermost loop of add: adds cell (i, j) of every matrix of ms, in list
      order, to temp[i, j], and changes no other cell. */
  method AddCell(temp: array2<int>, ms: seq<array2<int>>, ghost As: seq<Matrix>, i: nat, j: nat)
    requires i < temp.Length0 && j < temp.Length1
    requires forall k :: 0 <= k < |ms| ==> ms[k] != temp && i < ms[k].Length0 && j < ms[k].Length1
    requires As == Views(ms)
    modifies temp
    ensures temp[i, j] == old(temp[i, j]) + CellSum(As, i, j)
    ensures forall a, b :: 0 <= a < temp.Length0 && 0 <= b < temp.Length1 && (a != i || b != j) ==>
      temp[a, b] == old(temp[a, b])
  {
    for k := 0 to |ms|
      invariant forall a, b :: 0 <= a < temp.Length0 && 0 <= b < temp.Length1 && (a != i || b != j) ==>
        temp[a, b] == old(temp[a, b])
      invariant temp[i, j] == old(temp[i, j]) + CellSum(As[..k], i, j)
    {
      assert As[..k + 1][..k] == As[..k];
      temp[i, j] := temp[i, j] + ms[k][i, j];
    }
    assert As[..|ms|] == As;
  }

  /** The product of m1 and m2, or Incompatible when m1 has not as many columns as m2 has rows. */
  method Multiply(m1: array2<int>, m2: array2<int>) returns (r: Result<array2<int>>)
    requires m1.Length0 > 0  // the column count of m1 is read from row 0
    requires m1.Length1 == m2.Length0 ==> m2.Length0 > 0  // so is that of m2
    ensures m1.Length1 != m2.Length0 <==> r == Failure(Incompatible)
    ensures m1.Length1 == m2.Length0 ==>
      r.Success? && fresh(r.value) &&
      r.value.Length0 == m1.Length0 && r.value.Length1 == m2.Length1 &&
      Rows(r.value) == Product(Rows(m1), Rows(m2), m1.Length1, m2.Length1)
  {
    if m1.Length1 != m2.Length0 {
      return Failure(Incompatible);
    }
    var n, p := m1.Length1, m2.Length1;
    ghost var A, B := Rows(m1), Rows(m2);
    var temp := new int[m1.Length0, p]((i, j) => 0);
    for i := 0 to m1.Length0
      invariant forall a, b :: 0 <= a < i && 0 <= b < p ==> temp[a, b] == Dot(A, B, a, b, n)
      invariant forall a, b :: i <= a < m1.Length0 && 0 <= b < p ==> temp[a, b] == 0
    {
      MultiplyRow(temp, m1, m2, i);
    }
    SameCells(Rows(temp), Product(A, B, n, p), m1.Length0, p);
    return Success(temp);
  }

  /** The middle loop of multiply: fills row i of the zeroed temp with row i of
      m1 times each column of m2, and changes no other row. */
  method MultiplyRow(temp: array2<int>, m1: array2<int>, m2: array2<int>, i: nat)
    requires m1.Length1 == m2.Length0 && i < m1.Length0
    requires i < temp.Length0 && temp.Length1 == m2.Length1 && temp != m1 && temp != m2
    requires forall b :: 0 <= b < temp.Length1 ==> temp[i, b] == 0
    modifies temp
    ensures forall b :: 0 <= b < temp.Length1 ==> temp[i, b] == Dot(Rows(m1), Rows(m2), i, b, m1.Length1)
    ensures forall a, b :: 0 <= a < temp.Length0 && 0 <= b < temp.Length1 && a != i ==>
      temp[a, b] == old(temp[a, b])
  {
    ghost var A, B := Rows(m1), Rows(m2);
    for j := 0 to temp.Length1
      invariant forall a, b :: 0 <= a < temp.Length0 && 0 <= b < temp.Length1 && a != i ==>
        temp[a, b] == old(temp[a, b])
      invariant forall b :: 0 <= b < j ==> temp[i, b] == Dot(A, B, i, b, m1.Length1)
      invariant forall b :: j <= b < temp.Length1 ==> temp[i, b] == 0
    {
      MultiplyCell(temp, m1, m2, i, j);
    }
  }

  /** The innermost loop of multiply: adds row i of m1 times column j of m2 to
      temp[i, j], and changes no other cell. */
  method MultiplyCell(temp: array2<int>, m1: array2<int>, m2: array2<int>, i: nat, j: nat)
    requires m1.Length1 == m2.Length0 && i < m1.Length0 && j < m2.Length1
    requires i < temp.Length0 && j < temp.Length1 && temp != m1 && temp != m2
    modifies temp
    ensures temp[i, j] == old(temp[i, j]) + Dot(Rows(m1), Rows(m2), i, j, m1.Length1)
    ensures forall a, b :: 0 <= a < temp.Length0 && 0 <= b < temp.Length1 && (a != i || b != j) ==>
      temp[a, b] == old(temp[a, b])
  {
    ghost var A, B := Rows(m1), Rows(m2);
    for k := 0 to m1.Length1
      invariant forall a, b :: 0 <= a < temp.Length0 && 0 <= b < temp.Length1 && (a != i || b != j) ==>
        temp[a, b] == old(temp[a, b])
      invariant temp[i, j] == old(temp[i, j]) + Dot(A, B, i, j, k)
    {
      temp[i, j] := temp[i, j] + m1[i, k] * m2[k, j];
    }
  }

  /** The determinant of m; TooSmall for fewer than two rows, NotSquare when the
      rows are not as long as the matrix is high. */
  method Determinant(m: array2<int>) returns (r: Result<int>)
    ensures m.Length0 < 2 ==> r == Failure(TooSmall)
    ensures m.Length0 >= 2 && m.Length1 != m.Length0 ==> r == Failure(NotSquare)
    ensures m.Length0 >= 2 && m.Length1 == m.Length0 ==> r == Success(Det(Rows(m)))
  {
    if m.Length0 == 0 || m.Length0 == 1 {
      return Failure(TooSmall);
    }
    // every row of a two-dimensional array is m.Length1 long
    if m.Length1 != m.Length0 {
      return Failure(NotSquare);
    }
    var d := DetSkipping(m, [], 0);
    SubMatrixWhole(Rows(m));
    return Success(d);
  }

  /** The determinant of the submatrix of m made of rows vOffset.. and of the
      columns not in skipCols: Laplace expansion along its top row, with an
      explicit formula when two columns remain. */
  method DetSkipping(m: array2<int>, skipCols: seq<int>, vOffset: nat) returns (d: int)
    requires m.Length0 == m.Length1 && vOffset + 2 <= m.Length0
    requires |skipCols| == vOffset && SkipList(skipCols, m.Length0)
    ensures d == Det(SubMatrix(Rows(m), vOffset, Remaining(m.Length0, skipCols)))
    decreases m.Length0 - vOffset, 1
  {
    var n := m.Length0;
    if n - vOffset == 2 {
      d := LastTwoRows(m, skipCols, vOffset);
      return;
    }

    ghost var A := Rows(m);
    ghost var S := SubMatrix(A, vOffset, Remaining(n, skipCols));
    var det, count := 0, 0;
    for i := 0 to n
      invariant count == |Unskipped(0, i, skipCols)| <= n - vOffset
      invariant det == Expansion(S, count)
    {
      if i !in skipCols {
        ExpansionStep(A, vOffset, skipCols, i, count);
        var term := TopRowTerm(m, skipCols, vOffset, i, count);
        det := det + term;
        count := count + 1;
      } else {
        UnskippedSnoc(0, i, skipCols);
      }
    }
    return det;
  }

  /** The term of the unskipped column i, the count-th remaining one, in the
      expansion at row vOffset: its signed entry times the determinant of the
      submatrix one row lower with i skipped too. A zero entry contributes
      nothing, so its minor is not evaluated. */
  method TopRowTerm(m: array2<int>, skipCols: seq<int>, vOffset: nat, i: int, count: nat) returns (term: int)
    requires m.Length0 == m.Length1 && vOffset + 3 <= m.Length0
    requires |skipCols| == vOffset && SkipList(skipCols, m.Length0)
    requires 0 <= i < m.Length0 && i !in skipCols
    ensures SkipList(skipCols + [i], m.Length0)
    ensures term == Sign(count) * Rows(m)[vOffset][i] * Det(SubMatrix(Rows(m), vOffset + 1, Remaining(m.Length0, skipCols + [i])))
    decreases m.Length0 - vOffset, 0
  {
    PushBounds(m.Length0, vOffset, skipCols, i);
    term := 0;
    if m[vOffset, i] != 0 {
      // the column is pushed on a copy of the caller's list for the recursive call
      var sub := DetSkipping(m, skipCols + [i], vOffset + 1);
      term := (if count % 2 == 0 then 1 else -1) * m[vOffset, i] * sub;
    }
  }

  /** The base case of the expansion: the determinant of the 2 x 2 matrix made of
      the last two rows and the two columns not in skipCols. */
  method LastTwoRows(m: array2<int>, skipCols: seq<int>, vOffset: nat) returns (d: int)
    requires m.Length0 == m.Length1 && vOffset + 2 == m.Length0
    requires |skipCols| == vOffset && SkipList(skipCols, m.Length0)
    ensures d == Det(SubMatrix(Rows(m), vOffset, Remaining(m.Length0, skipCols)))
  {
    var n := m.Length0;
    // the two columns left, in ascending order
    var col1, col2 := -1, -1;
    var i := 0;
    while i < n
      invariant 0 <= i <= n && col2 == -1 && -1 <= col1 < i
      invariant Unskipped(0, i, skipCols) == if col1 == -1 then [] else [col1]
    {
      UnskippedSnoc(0, i, skipCols);
      if i !in skipCols {
        if col1 > -1 {
          col2 := i;
          break;
        } else {
          col1 := i;
        }
      }
      i := i + 1;
    }
    UnskippedLength(n, skipCols);
    assert 0 <= col1 < col2 < n && Unskipped(0, col2 + 1, skipCols) == [col1, col2];
    BaseCase(Rows(m), vOffset, skipCols, col1, col2);
    return m[vOffset, col1] * m[vOffset + 1, col2] - m[vOffset, col2] * m[vOffset + 1, col1];
  }

  /** Cell (a, b) of buf is cell (Skip(a, i), Skip(b, j)) of m. */
  ghost predicate MinorCell(buf: array2<int>, m: array2<int>, i: nat, j: nat, a: nat, b: nat)
    reads buf, m
  {
    a < buf.Length0 && b < buf.Length1 && Skip(a, i) < m.Length0 && Skip(b, j) < m.Length1 &&
    buf[a, b] == m[Skip(a, i), Skip(b, j)]
  }

  /** buf holds the minor of m without row i and column j. */
  ghost predicate HoldsMinor(buf: array2<int>, m: array2<int>, i: nat, j: nat)
    reads buf, m
  {
    forall a: nat, b: nat :: a < buf.Length0 && b < buf.Length1 ==> MinorCell(buf, m, i, j, a, b)
  }

  /** A fresh buffer holding the minor of the square m without row i and column 0. */
  method MinorBuffer(m: array2<int>, i: nat) returns (temp: array2<int>)
    requires m.Length0 == m.Length1 >= 2 && i < m.Length0
    ensures fresh(temp) && temp.Length0 == temp.Length1 == m.Length0 - 1
    ensures HoldsMinor(temp, m, i, 0)
  {
    var n := m.Length0;
    temp := new int[n - 1, n - 1];
    var skippedRow := false;
    for j := 0 to n - 1
      invariant skippedRow == (i < j)
      invariant forall a, b :: 0 <= a < j && 0 <= b < n - 1 ==> temp[a, b] == m[Skip(a, i), b + 1]
    {
      if j == i {
        skippedRow := true;
      }
      for k := 1 to n
        invariant forall a, b :: 0 <= a < j && 0 <= b < n - 1 ==> temp[a, b] == m[Skip(a, i), b + 1]
        invariant forall b :: 0 <= b < k - 1 ==> temp[j, b] == m[Skip(j, i), b + 1]
      {
        temp[j, k - 1] := m[j + (if skippedRow then 1 else 0), k];
      }
    }
    FirstMinor(temp, m, i);
  }

  /** A buffer whose cell (a, b) is m[Skip(a, i), b + 1] holds the minor without row i and column 0. */
  lemma FirstMinor(buf: array2<int>, m: array2<int>, i: nat)
    requires m.Length0 == m.Length1 && i < m.Length0 && buf.Length0 == buf.Length1 == m.Length0 - 1
    requires forall a, b :: 0 <= a < buf.Length0 && 0 <= b < buf.Length1 ==> buf[a, b] == m[Skip(a, i), b + 1]
    ensures HoldsMinor(buf, m, i, 0)
  {
    forall a: nat, b: nat | a < buf.Length0 && b < buf.Length1
      ensures MinorCell(buf, m, i, 0, a, b)
    {
      assert Skip(b, 0) == b + 1;
    }
  }

  /** Slides the buffer from the minor without column j to the minor without
      column j + 1 by overwriting its column j with column j of m (row i left out). */
  method SlideMinor(temp: array2<int>, m: array2<int>, i: nat, j: nat)
    requires m.Length0 == m.Length1 && i < m.Length0 && j + 1 < m.Length0
    requires temp.Length0 == temp.Length1 == m.Length0 - 1 && temp != m
    requires HoldsMinor(temp, m, i, j)
    modifies temp
    ensures HoldsMinor(temp, m, i, j + 1)
  {
    var n := m.Length0;
    forall a: nat, b: nat | a < n - 1 && b < n - 1
      ensures temp[a, b] == m[Skip(a, i), Skip(b, j)]
    {
      assert MinorCell(temp, m, i, j, a, b);
    }
    var skippedCol := false;
    for k := 0 to n - 1
      invariant skippedCol == (i < k)
      invariant forall a, b :: 0 <= a < n - 1 && 0 <= b < n - 1 && b != j ==> temp[a, b] == m[Skip(a, i), Skip(b, j)]
      invariant forall a :: 0 <= a < k ==> temp[a, j] == m[Skip(a, i), j]
    {
      if k == i {
        skippedCol := true;
      }
      temp[k, j] := m[k + (if skippedCol then 1 else 0), j];
    }
    SlidBufferHoldsMinor(temp, m, i, j);
  }

  /** A buffer that holds the minor without row i and column j everywhere except
      in column j, where it holds column j of m, holds the minor without column j + 1. */
  lemma SlidBufferHoldsMinor(buf: array2<int>, m: array2<int>, i: nat, j: nat)
    requires m.Length0 == m.Length1 && i < m.Length0 && j + 1 < m.Length0
    requires buf.Length0 == buf.Length1 == m.Length0 - 1
    requires forall a, b :: 0 <= a < buf.Length0 && 0 <= b < buf.Length1 && b != j ==> buf[a, b] == m[Skip(a, i), Skip(b, j)]
    requires forall a :: 0 <= a < buf.Length0 ==> buf[a, j] == m[Skip(a, i), j]
    ensures HoldsMinor(buf, m, i, j + 1)
  {
    var next := j + 1;
    forall a: nat, b: nat | a < buf.Length0 && b < buf.Length1
      ensures MinorCell(buf, m, i, next, a, b)
    {
      if b != j {
        assert Skip(b, j) == Skip(b, j + 1);
      }
    }
  }

  /** A buffer holding the minor without row i and column j has the contents of
      that minor, and its signed determinant is cofactor (i, j). */
  lemma BufferCofactor(buf: array2<int>, m: array2<int>, C: Matrix, i: nat, j: nat)
    requires m.Length0 == m.Length1 >= 2 && i < m.Length0 && j < m.Length0
    requires buf.Length0 == buf.Length1 == m.Length0 - 1
    requires HoldsMinor(buf, m, i, j)
    requires C == CofactorMatrix(Rows(m))
    ensures Rows(buf) == Minor(Rows(m), i, j)
    ensures C[i][j] == Sign(i + j) * Det(Rows(buf))
  {
    forall a: nat, b: nat | a < buf.Length0 && b < buf.Length0
      ensures Rows(buf)[a][b] == Minor(Rows(m), i, j)[a][b]
    {
      assert MinorCell(buf, m, i, j, a, b);
    }
    SameCells(Rows(buf), Minor(Rows(m), i, j), buf.Length0, buf.Length0);
  }

  /** The matrix of cofactors of m, with the same failures as Determinant. */
  method Cofactor(m: array2<int>) returns (r: Result<array2<int>>)
    ensures m.Length0 < 2 ==> r == Failure(TooSmall)
    ensures m.Length0 >= 2 && m.Length1 != m.Length0 ==> r == Failure(NotSquare)
    ensures m.Length0 >= 2 && m.Length1 == m.Length0 ==>
      r.Success? && fresh(r.value) && Rows(r.value) == CofactorMatrix(Rows(m))
  {
    if m.Length0 == 0 || m.Length0 == 1 {
      return Failure(TooSmall);
    }
    if m.Length1 != m.Length0 {
      return Failure(NotSquare);
    }
    var n := m.Length0;
    ghost var A := Rows(m);
    if n == 2 {
      // the explicit 2 x 2 cofactor matrix, which Cofactor2 shows to be the general one
      var c := new int[2, 2];
      c[0, 0], c[0, 1] := m[1, 1], -m[1, 0];
      c[1, 0], c[1, 1] := -m[0, 1], m[0, 0];
      TwoByTwo(Rows(c), m[1, 1], -m[1, 0], -m[0, 1], m[0, 0]);
      Cofactor2(A);
      return Success(c);
    }

    ghost var C := CofactorMatrix(A);
    var cofactors := new int[n, n];
    for i := 0 to n
      invariant forall a, b :: 0 <= a < i && 0 <= b < n ==> cofactors[a, b] == C[a][b]
    {
      CofactorRow(cofactors, m, C, i);
    }
    SameCells(Rows(cofactors), C, n, n);
    return Success(cofactors);
  }

  /** The value cofactor stores at (i, j): the determinant of the buffer holding
      the minor without row i and column j, negated when i + j is odd. */
  method SignedMinorDet(temp: array2<int>, m: array2<int>, ghost C: Matrix, i: nat, j: nat) returns (v: int)
    requires m.Length0 == m.Length1 >= 3 && i < m.Length0 && j < m.Length0
    requires temp.Length0 == temp.Length1 == m.Length0 - 1
    requires HoldsMinor(temp, m, i, j)
    requires C == CofactorMatrix(Rows(m))
    ensures v == C[i][j]
  {
    BufferCofactor(temp, m, C, i, j);
    var d := Determinant(temp);
    v := (if (i + j) % 2 == 0 then 1 else -1) * d.value;
  }

  /** One pass of the outer loop of cofactor: fills row i of cofactors with the
      signed determinants of the minors of m along row i, sliding one buffer from
      the minor without column 0 to the minor without column n - 1. */
  method CofactorRow(cofactors: array2<int>, m: array2<int>, ghost C: Matrix, i: nat)
    requires m.Length0 == m.Length1 >= 3 && i < m.Length0
    requires cofactors.Length0 == cofactors.Length1 == m.Length0 && cofactors != m
    requires C == CofactorMatrix(Rows(m))
    modifies cofactors
    ensures forall b :: 0 <= b < m.Length0 ==> cofactors[i, b] == C[i][b]
    ensures forall a, b :: 0 <= a < m.Length0 && 0 <= b < m.Length0 && a != i ==>
      cofactors[a, b] == old(cofactors[a, b])
  {
    var n := m.Length0;
    var temp := MinorBuffer(m, i);
    for j := 0 to n
      invariant fresh(temp) && temp.Length0 == temp.Length1 == n - 1
      invariant forall a, b :: 0 <= a < n && 0 <= b < n && a != i ==> cofactors[a, b] == old(cofactors[a, b])
      invariant forall b :: 0 <= b < j ==> cofactors[i, b] == C[i][b]
      invariant j < n ==> HoldsMinor(temp, m, i, j)
    {
      cofactors[i, j] := SignedMinorDet(temp, m, C, i, j);
      if j == n - 1 {
        continue;
      }
      SlideMinor(temp, m, i, j);
    }
  }
}
