/** Column bookkeeping of the recursive determinant: which columns an expansion
    at a given depth still sees, and the square submatrix they cut out. */
module SkipColumns {
  import opened MatrixSpec

  /** The columns in [lo, hi) that are not in skip, in ascending order. */
  function Unskipped(lo: int, hi: int, skip: seq<int>): seq<int>
    decreases hi - lo
  {
    if lo >= hi then [] else (if lo in skip then [] else [lo]) + Unskipped(lo + 1, hi, skip)
  }

  /** The remaining columns lie in [lo, hi) and none of them is skipped. */
  lemma {:induction false} UnskippedBounds(lo: int, hi: int, skip: seq<int>)
    ensures forall k :: 0 <= k < |Unskipped(lo, hi, skip)| ==>
      lo <= Unskipped(lo, hi, skip)[k] < hi && Unskipped(lo, hi, skip)[k] !in skip
    decreases hi - lo
  {
    if lo < hi {
      UnskippedBounds(lo + 1, hi, skip);
    }
  }

  /** skip lists distinct columns of an n-column matrix. */
  predicate SkipList(skip: seq<int>, n: nat) {
    (forall k :: 0 <= k < |skip| ==> 0 <= skip[k] < n) &&
    (forall k, l :: 0 <= k < l < |skip| ==> skip[k] != skip[l])
  }

  /** xs with position k deleted. */
  function RemoveAt(xs: seq<int>, k: nat): (r: seq<int>)
    requires k < |xs|
    ensures |r| == |xs| - 1
    ensures forall b :: 0 <= b < |r| ==> r[b] == xs[Skip(b, k)]
  {
    xs[..k] + xs[k + 1..]
  }

  lemma {:induction false} UnskippedSplit(lo: int, mid: int, hi: int, skip: seq<int>)
    requires lo <= mid <= hi
    ensures Unskipped(lo, hi, skip) == Unskipped(lo, mid, skip) + Unskipped(mid, hi, skip)
    decreases mid - lo
  {
    if lo < mid {
      UnskippedSplit(lo + 1, mid, hi, skip);
    }
  }

  /** Extending the range by one column appends that column unless it is skipped. */
  lemma UnskippedSnoc(lo: int, hi: int, skip: seq<int>)
    requires lo <= hi
    ensures Unskipped(lo, hi + 1, skip) == Unskipped(lo, hi, skip) + (if hi in skip then [] else [hi])
  {
    UnskippedSplit(lo, hi, hi + 1, skip);
  }

  /** Only membership inside [lo, hi) matters. */
  lemma {:induction false} UnskippedAgree(lo: int, hi: int, s: seq<int>, t: seq<int>)
    requires forall c :: lo <= c < hi ==> (c in s <==> c in t)
    ensures Unskipped(lo, hi, s) == Unskipped(lo, hi, t)
    decreases hi - lo
  {
    if lo < hi {
      UnskippedAgree(lo + 1, hi, s, t);
    }
  }

  /** An unskipped column c splits the remaining columns into those before it, c, and those after it. */
  lemma UnskippedAround(n: nat, skip: seq<int>, c: int)
    requires 0 <= c < n && c !in skip
    ensures Unskipped(0, n, skip) == Unskipped(0, c, skip) + [c] + Unskipped(c + 1, n, skip)
  {
    UnskippedSplit(0, c, n, skip);
    assert Unskipped(c, n, skip) == [c] + Unskipped(c + 1, n, skip);
  }

  /** Once c is skipped too, only the columns before and after it remain. */
  lemma UnskippedWithout(n: nat, skip: seq<int>, c: int)
    requires 0 <= c < n
    ensures Unskipped(0, n, skip + [c]) == Unskipped(0, c, skip) + Unskipped(c + 1, n, skip)
  {
    var pushed := skip + [c];
    assert forall x :: x in pushed <==> x in skip || x == c;
    UnskippedSplit(0, c, n, pushed);
    assert Unskipped(c, n, pushed) == Unskipped(c + 1, n, pushed);
    UnskippedAgree(0, c, skip, pushed);
    UnskippedAgree(c + 1, n, skip, pushed);
  }

  /** Skipping one more unskipped column c removes exactly c. */
  lemma UnskippedPush(n: nat, skip: seq<int>, c: int)
    requires 0 <= c < n && c !in skip
    ensures Unskipped(0, n, skip) == Unskipped(0, c, skip) + [c] + Unskipped(c + 1, n, skip)
    ensures Unskipped(0, n, skip + [c]) == Unskipped(0, c, skip) + Unskipped(c + 1, n, skip)
  {
    UnskippedAround(n, skip, c);
    UnskippedWithout(n, skip, c);
  }

  /** With nothing skipped, every column of [lo, hi) remains, in order. */
  lemma {:induction false} UnskippedNone(lo: int, hi: int)
    requires lo <= hi
    ensures |Unskipped(lo, hi, [])| == hi - lo
    ensures forall k :: 0 <= k < hi - lo ==> Unskipped(lo, hi, [])[k] == lo + k
    decreases hi - lo
  {
    if lo < hi {
      UnskippedNone(lo + 1, hi);
    }
  }

  /** Skipping |skip| distinct in-range columns leaves n - |skip| of them. */
  lemma {:induction false} UnskippedLength(n: nat, skip: seq<int>)
    requires SkipList(skip, n)
    ensures |Unskipped(0, n, skip)| == n - |skip|
    decreases |skip|
  {
    if skip == [] {
      UnskippedNone(0, n);
    } else {
      var s, c := skip[..|skip| - 1], skip[|skip| - 1];
      assert skip == s + [c];
      assert c !in s by {
        forall k | 0 <= k < |s| ensures s[k] != c {
          assert s[k] == skip[k];
        }
      }
      assert SkipList(s, n);
      UnskippedLength(n, s);
      UnskippedPush(n, s, c);
    }
  }

  /** The columns an expansion with skip list skip still sees. */
  function Remaining(n: nat, skip: seq<int>): (cols: seq<int>)
    requires SkipList(skip, n) && |skip| <= n
    ensures |cols| == n - |skip|
    ensures forall k :: 0 <= k < |cols| ==> 0 <= cols[k] < n
  {
    UnskippedLength(n, skip);
    UnskippedBounds(0, n, skip);
    Unskipped(0, n, skip)
  }

  /** Rows v.. of A restricted to the columns cols, in that order. */
  function SubMatrix(A: Matrix, v: nat, cols: seq<int>): (S: Matrix)
    requires IsSquare(A) && v <= |A|
    requires forall k :: 0 <= k < |cols| ==> 0 <= cols[k] < |A|
    ensures IsMatrix(S, |A| - v, |cols|)
    ensures forall a, b :: 0 <= a < |S| && 0 <= b < |cols| ==> S[a][b] == A[v + a][cols[b]]
  {
    seq(|A| - v, a requires 0 <= a < |A| - v =>
      seq(|cols|, b requires 0 <= b < |cols| => A[v + a][cols[b]]))
  }

  /** Deleting the top row and column k of a submatrix is the submatrix one row lower without cols[k]. */
  lemma SubMatrixMinor(A: Matrix, v: nat, cols: seq<int>, k: nat)
    requires IsSquare(A) && v < |A| && |cols| == |A| - v && k < |cols|
    requires forall t :: 0 <= t < |cols| ==> 0 <= cols[t] < |A|
    ensures Minor(SubMatrix(A, v, cols), 0, k) == SubMatrix(A, v + 1, RemoveAt(cols, k))
  {
    var S := SubMatrix(A, v, cols);
    SameCells(Minor(S, 0, k), SubMatrix(A, v + 1, RemoveAt(cols, k)), |A| - v - 1, |A| - v - 1);
  }

  /** The expansion at depth 0 with nothing skipped sees the whole matrix. */
  lemma SubMatrixWhole(A: Matrix)
    requires IsSquare(A)
    ensures SubMatrix(A, 0, Remaining(|A|, [])) == A
  {
    UnskippedNone(0, |A|);
    SameCells(SubMatrix(A, 0, Remaining(|A|, [])), A, |A|, |A|);
  }

  /** An unskipped column c is at position |Unskipped(0, c, skip)| of the remaining
      columns, and skipping it too deletes exactly that position. */
  lemma PushPosition(n: nat, skip: seq<int>, c: int)
    requires 0 <= c < n && c !in skip
    ensures |Unskipped(0, c, skip)| < |Unskipped(0, n, skip)|
    ensures Unskipped(0, n, skip)[|Unskipped(0, c, skip)|] == c
    ensures Unskipped(0, n, skip + [c]) == RemoveAt(Unskipped(0, n, skip), |Unskipped(0, c, skip)|)
  {
    UnskippedPush(n, skip, c);
    var before, after := Unskipped(0, c, skip), Unskipped(c + 1, n, skip);
    var rem := before + [c] + after;
    assert rem[..|before|] == before;
    assert rem[|before| + 1..] == after;
  }

  /** Skipping one more unskipped column keeps the skip list valid, and that
      column's position among the remaining ones is in range. */
  lemma PushBounds(n: nat, v: nat, skip: seq<int>, i: int)
    requires |skip| == v < n && SkipList(skip, n)
    requires 0 <= i < n && i !in skip
    ensures SkipList(skip + [i], n)
    ensures |Unskipped(0, i, skip)| < n - v
  {
    PushPosition(n, skip, i);
    UnskippedLength(n, skip);
  }

  /** One step of the expansion loop at depth v: column i, unskipped, is the
      count-th remaining column, and its term uses the submatrix where i is skipped too. */
  lemma ExpansionStep(A: Matrix, v: nat, skip: seq<int>, i: int, count: nat)
    requires IsSquare(A) && v + 3 <= |A| && |skip| == v && SkipList(skip, |A|)
    requires 0 <= i < |A| && i !in skip && count == |Unskipped(0, i, skip)|
    ensures SkipList(skip + [i], |A|)
    ensures count + 1 == |Unskipped(0, i + 1, skip)| <= |A| - v
    ensures Expansion(SubMatrix(A, v, Remaining(|A|, skip)), count + 1) ==
      Expansion(SubMatrix(A, v, Remaining(|A|, skip)), count) + Sign(count) * A[v][i] * Det(SubMatrix(A, v + 1, Remaining(|A|, skip + [i])))
  {
    var n := |A|;
    var rem := Remaining(n, skip);
    PushBounds(n, v, skip, i);
    PushPosition(n, skip, i);
    UnskippedSnoc(0, i, skip);
    var S := SubMatrix(A, v, rem);
    assert S[0][count] == A[v][i];
    SubMatrixMinor(A, v, rem, count);
    assert Minor(S, 0, count) == SubMatrix(A, v + 1, Remaining(n, skip + [i]));
  }

  /** The base case: the two remaining columns are the first two unskipped ones, c1 < c2. */
  lemma BaseCase(A: Matrix, v: nat, skip: seq<int>, c1: int, c2: int)
    requires IsSquare(A) && v + 2 == |A| && |skip| == v && SkipList(skip, |A|)
    requires 0 <= c1 < c2 < |A| && Unskipped(0, c2 + 1, skip) == [c1, c2]
    ensures Det(SubMatrix(A, v, Remaining(|A|, skip))) == A[v][c1] * A[v + 1][c2] - A[v][c2] * A[v + 1][c1]
  {
    UnskippedSplit(0, c2 + 1, |A|, skip);
    assert Remaining(|A|, skip) == [c1, c2];
    Det2(SubMatrix(A, v, [c1, c2]));
  }
}
