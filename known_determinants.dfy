/** The determinants that the library's tester expects for its sample matrices
    up to 4 x 4, derived from the reference definition Det. */
module KnownDeterminants {
  import opened MatrixSpec

  /** Deleting row 0 and column k of a 4 x 4 matrix leaves rows 1 to 3 of the
      three other columns x < y < z, whose determinant is given by the rule of Sarrus. */
  lemma MinorSarrus(A: Matrix, k: nat, x: nat, y: nat, z: nat)
    requires IsSquare(A) && |A| == 4 && k < 4
    requires x == Skip(0, k) && y == Skip(1, k) && z == Skip(2, k)
    ensures Det(Minor(A, 0, k)) == Sarrus(A[1][x], A[1][y], A[1][z], A[2][x], A[2][y], A[2][z], A[3][x], A[3][y], A[3][z])
  {
    var M := Minor(A, 0, k);
    Det3(M);
    assert M[0] == [A[1][x], A[1][y], A[1][z]];
    assert M[1] == [A[2][x], A[2][y], A[2][z]];
    assert M[2] == [A[3][x], A[3][y], A[3][z]];
  }

  /** A 4 x 4 determinant, expanded along its first row. */
  lemma Det4(A: Matrix)
    requires IsSquare(A) && |A| == 4
    ensures Det(A) == A[0][0] * Det(Minor(A, 0, 0)) - A[0][1] * Det(Minor(A, 0, 1))
                    + A[0][2] * Det(Minor(A, 0, 2)) - A[0][3] * Det(Minor(A, 0, 3))
  {
    assert Expansion(A, 1) == A[0][0] * Det(Minor(A, 0, 0));
    assert Expansion(A, 2) == Expansion(A, 1) - A[0][1] * Det(Minor(A, 0, 1));
    assert Expansion(A, 3) == Expansion(A, 2) + A[0][2] * Det(Minor(A, 0, 2));
  }

  /** The determinant the tester expects for its first sample matrix. */
  lemma KnownDet1(A: Matrix)
    requires A == [[1, 0], [-1, 2]]
    ensures Det(A) == 2
  {
    Det2(A);
  }

  /** The determinant the tester expects for its second sample matrix. */
  lemma KnownDet2(A: Matrix)
    requires A == [[-1, 2, 5], [1, 0, -2], [1, 1, 3]]
    ensures Det(A) == -7
  {
    Det3(A);
  }

  /** The determinant the tester expects for its third sample matrix. */
  lemma KnownDet3(A: Matrix)
    requires A == [[1, 2, 3], [2, 3, 4], [3, 4, 5]]
    ensures Det(A) == 0
  {
    Det3(A);
  }

  /** The determinant the tester expects for its fourth sample matrix. */
  lemma KnownDet4(A: Matrix)
    requires A == [[5, 8, 9, 0], [-2, 4, -1, 7], [8, 1, 0, 2], [5, 3, 6, 6]]
    ensures Det(A) == -3385
  {
    assert Det(Minor(A, 0, 0)) == -6 by { MinorSarrus(A, 0, 1, 2, 3); }
    assert Det(Minor(A, 0, 1)) == 398 by { MinorSarrus(A, 1, 0, 2, 3); }
    assert Det(Minor(A, 0, 2)) == -19 by { MinorSarrus(A, 2, 0, 1, 3); }
    assert Det(Minor(A, 0, 3)) == -223 by { MinorSarrus(A, 3, 0, 1, 2); }
    assert Det(A) == A[0][0] * Det(Minor(A, 0, 0)) - A[0][1] * Det(Minor(A, 0, 1))
                    + A[0][2] * Det(Minor(A, 0, 2)) - A[0][3] * Det(Minor(A, 0, 3)) by { Det4(A); }
  }

  /** The determinant the tester expects for its fifth sample matrix. */
  lemma KnownDet5(A: Matrix)
    requires A == [[-8, 5, -4, 0], [2, -9, 7, -9], [2, 0, -9, 5], [0, -6, -1, 3]]
    ensures Det(A) == -4340
  {
    assert Det(Minor(A, 0, 0)) == 474 by { MinorSarrus(A, 0, 1, 2, 3); }
    assert Det(Minor(A, 0, 1)) == -68 by { MinorSarrus(A, 1, 0, 2, 3); }
    assert Det(Minor(A, 0, 2)) == 222 by { MinorSarrus(A, 2, 0, 1, 3); }
    assert Det(Minor(A, 0, 3)) == -210 by { MinorSarrus(A, 3, 0, 1, 2); }
    assert Det(A) == A[0][0] * Det(Minor(A, 0, 0)) - A[0][1] * Det(Minor(A, 0, 1))
                    + A[0][2] * Det(Minor(A, 0, 2)) - A[0][3] * Det(Minor(A, 0, 3)) by { Det4(A); }
  }

  /** The determinant the tester expects for its sixth sample matrix. */
  lemma KnownDet6(A: Matrix)
    requires A == [[-1, -5, 3, 0], [8, 4, -7, 2], [9, 7, 1, 0], [-4, -7, 8, -4]]
    ensures Det(A) == -1024
  {
    assert Det(Minor(A, 0, 0)) == -86 by { MinorSarrus(A, 0, 1, 2, 3); }
    assert Det(Minor(A, 0, 1)) == -132 by { MinorSarrus(A, 1, 0, 2, 3); }
    assert Det(Minor(A, 0, 2)) == -150 by { MinorSarrus(A, 2, 0, 1, 3); }
    assert Det(Minor(A, 0, 3)) == 445 by { MinorSarrus(A, 3, 0, 1, 2); }
    assert Det(A) == A[0][0] * Det(Minor(A, 0, 0)) - A[0][1] * Det(Minor(A, 0, 1))
                    + A[0][2] * Det(Minor(A, 0, 2)) - A[0][3] * Det(Minor(A, 0, 3)) by { Det4(A); }
  }

  /** The determinant the tester expects for its seventh sample matrix. */
  lemma KnownDet7(A: Matrix)
    requires A == [[1, 1, 8, -6], [6, 0, -1, 8], [-3, 0, 8, 8], [8, 6, -6, 9]]
    ensures Det(A) == -5769
  {
    assert Det(Minor(A, 0, 0)) == -432 by { MinorSarrus(A, 0, 1, 2, 3); }
    assert Det(Minor(A, 0, 1)) == 261 by { MinorSarrus(A, 1, 0, 2, 3); }
    assert Det(Minor(A, 0, 2)) == -432 by { MinorSarrus(A, 2, 0, 1, 3); }
    assert Det(Minor(A, 0, 3)) == -270 by { MinorSarrus(A, 3, 0, 1, 2); }
    assert Det(A) == A[0][0] * Det(Minor(A, 0, 0)) - A[0][1] * Det(Minor(A, 0, 1))
                    + A[0][2] * Det(Minor(A, 0, 2)) - A[0][3] * Det(Minor(A, 0, 3)) by { Det4(A); }
  }

  /** The determinant the tester expects for its eighth sample matrix. */
  lemma KnownDet8(A: Matrix)
    requires A == [[8, 1, 8, -6], [3, 0, -1, 8], [2, 0, 8, 8], [-3, 6, -6, 9]]
    ensures Det(A) == -5274
  {
    assert Det(Minor(A, 0, 0)) == -432 by { MinorSarrus(A, 0, 1, 2, 3); }
    assert Det(Minor(A, 0, 1)) == 498 by { MinorSarrus(A, 1, 0, 2, 3); }
    assert Det(Minor(A, 0, 2)) == -48 by { MinorSarrus(A, 2, 0, 1, 3); }
    assert Det(Minor(A, 0, 3)) == -156 by { MinorSarrus(A, 3, 0, 1, 2); }
    assert Det(A) == A[0][0] * Det(Minor(A, 0, 0)) - A[0][1] * Det(Minor(A, 0, 1))
                    + A[0][2] * Det(Minor(A, 0, 2)) - A[0][3] * Det(Minor(A, 0, 3)) by { Det4(A); }
  }

  /** The determinant the tester expects for its ninth sample matrix. */
  lemma KnownDet9(A: Matrix)
    requires A == [[8, 1, 8, -6], [3, 6, -1, 8], [2, -3, 8, 8], [-3, 8, -6, 9]]
    ensures Det(A) == -3464
  {
    assert Det(Minor(A, 0, 0)) == 261 by { MinorSarrus(A, 0, 1, 2, 3); }
    assert Det(Minor(A, 0, 1)) == 498 by { MinorSarrus(A, 1, 0, 2, 3); }
    assert Det(Minor(A, 0, 2)) == -469 by { MinorSarrus(A, 2, 0, 1, 3); }
    assert Det(Minor(A, 0, 3)) == -217 by { MinorSarrus(A, 3, 0, 1, 2); }
    assert Det(A) == A[0][0] * Det(Minor(A, 0, 0)) - A[0][1] * Det(Minor(A, 0, 1))
                    + A[0][2] * Det(Minor(A, 0, 2)) - A[0][3] * Det(Minor(A, 0, 3)) by { Det4(A); }
  }

  /** The determinant the tester expects for its tenth sample matrix. */
  lemma KnownDet10(A: Matrix)
    requires A == [[8, 1, 1, -6], [3, 6, 0, 8], [2, -3, 0, 8], [-3, 8, 6, 9]]
    ensures Det(A) == -4633
  {
    assert Det(Minor(A, 0, 0)) == -432 by { MinorSarrus(A, 0, 1, 2, 3); }
    assert Det(Minor(A, 0, 1)) == -48 by { MinorSarrus(A, 1, 0, 2, 3); }
    assert Det(Minor(A, 0, 2)) == -469 by { MinorSarrus(A, 2, 0, 1, 3); }
    assert Det(Minor(A, 0, 3)) == -126 by { MinorSarrus(A, 3, 0, 1, 2); }
    assert Det(A) == A[0][0] * Det(Minor(A, 0, 0)) - A[0][1] * Det(Minor(A, 0, 1))
                    + A[0][2] * Det(Minor(A, 0, 2)) - A[0][3] * Det(Minor(A, 0, 3)) by { Det4(A); }
  }

  /** The determinant the tester expects for its eleventh sample matrix. */
  lemma KnownDet11(A: Matrix)
    requires A == [[8, 1, 1, 8], [3, 6, 0, -1], [2, -3, 0, 8], [-3, 8, 6, -6]]
    ensures Det(A) == -1213
  {
    assert Det(Minor(A, 0, 0)) == -270 by { MinorSarrus(A, 0, 1, 2, 3); }
    assert Det(Minor(A, 0, 1)) == -156 by { MinorSarrus(A, 1, 0, 2, 3); }
    assert Det(Minor(A, 0, 2)) == -217 by { MinorSarrus(A, 2, 0, 1, 3); }
    assert Det(Minor(A, 0, 3)) == -126 by { MinorSarrus(A, 3, 0, 1, 2); }
    assert Det(A) == A[0][0] * Det(Minor(A, 0, 0)) - A[0][1] * Det(Minor(A, 0, 1))
                    + A[0][2] * Det(Minor(A, 0, 2)) - A[0][3] * Det(Minor(A, 0, 3)) by { Det4(A); }
  }
}
