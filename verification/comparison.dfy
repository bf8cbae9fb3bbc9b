/**
 Matrix comparisons. `operator<` compares columns 0..N-2 with `lexComp`;
 the last column is never read. Both `operator==` overloads compare only the
 lower-right triangle, the entries with col + row >= N - 1; the rest is taken
 to follow from orthogonality, which this model does not claim.
 */
module Comparison {
  import opened Entry
  import opened Columns
  import opened Canonical

  /** Reference for `operator<`: at the first of columns 0..N-2 where A and
      B differ, A's column sorts before B's. */
  ghost predicate MatrixLess<T>(lt: (T, T) -> bool, A: seq<seq<T>>, B: seq<seq<T>>)
    requires IsMatrix(A) && IsMatrix(B)
  {
    exists c :: 0 <= c < N - 1 && (forall d :: 0 <= d < c ==> A[d] == B[d]) && LexLess(lt, A[c], B[c])
  }

  /** `operator<`. */
  method LessThan<T(==)>(r: Ring<T>, A: seq<seq<T>>, B: seq<seq<T>>) returns (less: bool)
    requires IsMatrix(A) && IsMatrix(B)
    ensures less <==> MatrixLess(r.lt, A, B)
  {
    var col := 0;
    while col < N - 1
      invariant 0 <= col <= N - 1
      invariant forall d :: 0 <= d < col ==> A[d] == B[d]
    {
      var cmp := LexComp(r.lt, A[col], B[col]);
      LexCompCorrect(r.lt, A[col], B[col]);
      if cmp == -1 {
        return true;
      }
      if cmp == 1 {
        forall d | 0 <= d < col {
          LexLessIrreflexive(r.lt, A[d]);
        }
        return false;
      }
      col := col + 1;
    }
    forall d | 0 <= d < N - 1 {
      LexLessIrreflexive(r.lt, A[d]);
    }
    return false;
  }

  /** No matrix is below itself; this needs nothing of `<`. */
  lemma MatrixLessIrreflexive<T>(lt: (T, T) -> bool, A: seq<seq<T>>)
    requires IsMatrix(A)
    ensures !MatrixLess(lt, A, A)
  {
    forall d | 0 <= d < N {
      LexLessIrreflexive(lt, A[d]);
    }
  }

  /** The column deciding `operator<`. */
  lemma DecidingColumn<T>(lt: (T, T) -> bool, A: seq<seq<T>>, B: seq<seq<T>>) returns (c: int)
    requires IsMatrix(A) && IsMatrix(B) && MatrixLess(lt, A, B)
    ensures 0 <= c < N - 1 && (forall d :: 0 <= d < c ==> A[d] == B[d]) && LexLess(lt, A[c], B[c])
  {
    c :| 0 <= c < N - 1 && (forall d :: 0 <= d < c ==> A[d] == B[d]) && LexLess(lt, A[c], B[c]);
  }

  lemma MatrixLessAsymmetric<T(!new)>(lt: (T, T) -> bool, A: seq<seq<T>>, B: seq<seq<T>>)
    requires StrictTotalOrder(lt) && IsMatrix(A) && IsMatrix(B)
    ensures MatrixLess(lt, A, B) ==> !MatrixLess(lt, B, A)
  {
    if MatrixLess(lt, A, B) && MatrixLess(lt, B, A) {
      var c := DecidingColumn(lt, A, B);
      var e := DecidingColumn(lt, B, A);
      LexLessIrreflexive(lt, A[c]);
      LexLessIrreflexive(lt, A[e]);
      LexLessAsymmetric(lt, A[c], B[c]);
    }
  }

  lemma MatrixLessTransitive<T(!new)>(lt: (T, T) -> bool, A: seq<seq<T>>, B: seq<seq<T>>, C: seq<seq<T>>)
    requires StrictTotalOrder(lt) && IsMatrix(A) && IsMatrix(B) && IsMatrix(C)
    requires MatrixLess(lt, A, B) && MatrixLess(lt, B, C)
    ensures MatrixLess(lt, A, C)
  {
    var c := DecidingColumn(lt, A, B);
    var e := DecidingColumn(lt, B, C);
    if c < e {
      assert B[c] == C[c];
    } else if e < c {
      assert A[e] == B[e];
    } else {
      LexLessTransitive(lt, A[c], B[c], C[c]);
    }
  }

  /** `operator<` never reads the last column. */
  lemma MatrixLessIgnoresLastColumn<T>(lt: (T, T) -> bool, A: seq<seq<T>>, B: seq<seq<T>>, x: seq<T>, y: seq<T>)
    requires IsMatrix(A) && IsMatrix(B) && |x| == N && |y| == N
    ensures MatrixLess(lt, A, B) <==> MatrixLess(lt, A[N - 1 := x], B[N - 1 := y])
  {
    var A', B' := A[N - 1 := x], B[N - 1 := y];
    assert forall d :: 0 <= d < N - 1 ==> A'[d] == A[d] && B'[d] == B[d];
    if MatrixLess(lt, A, B) {
      var c := DecidingColumn(lt, A, B);
      assert LexLess(lt, A'[c], B'[c]);
    }
    if MatrixLess(lt, A', B') {
      var c := DecidingColumn(lt, A', B');
      assert LexLess(lt, A[c], B[c]);
    }
  }

  /** A and B agree on the lower-right triangle col + row >= N - 1. */
  ghost predicate TriangleAgree<T>(A: seq<seq<T>>, B: seq<seq<T>>)
    requires IsMatrix(A) && IsMatrix(B)
  {
    forall col, row :: 0 <= col < N && 0 <= row < N && col + row >= N - 1 ==> A[col][row] == B[col][row]
  }

  /** Neither entry of the triangle is below the other. */
  ghost predicate TriangleIncomparable<T>(lt: (T, T) -> bool, A: seq<seq<T>>, B: seq<seq<T>>)
    requires IsMatrix(A) && IsMatrix(B)
  {
    forall col, row :: 0 <= col < N && 0 <= row < N && col + row >= N - 1 ==>
      !lt(A[col][row], B[col][row]) && !lt(B[col][row], A[col][row])
  }

  /** `operator==(SO6&)`: compares the triangle entries with `!=`, from the
      last column and the last row backwards. */
  method TriangleEquals<T(==)>(A: seq<seq<T>>, B: seq<seq<T>>) returns (eq: bool)
    requires IsMatrix(A) && IsMatrix(B)
    ensures eq <==> TriangleAgree(A, B)
  {
    var col := N - 1;
    while col >= 0
      invariant -1 <= col <= N - 1
      invariant forall c, row :: col < c < N && 0 <= row < N && c + row >= N - 1 ==> A[c][row] == B[c][row]
    {
      var row := N - 1;
      while row > N - 1 - col - 1
        invariant N - 2 - col <= row <= N - 1
        invariant forall k :: row < k < N ==> A[col][k] == B[col][k]
      {
        if A[col][row] != B[col][row] {
          return false;
        }
        row := row - 1;
      }
      col := col - 1;
    }
    return true;
  }

  /** `operator==(const SO6&) const`: the same triangle, but an entry pair
      differs when one is `<` the other. */
  method TriangleEqualsByOrder<T>(r: Ring<T>, A: seq<seq<T>>, B: seq<seq<T>>) returns (eq: bool)
    requires IsMatrix(A) && IsMatrix(B)
    ensures eq <==> TriangleIncomparable(r.lt, A, B)
  {
    var col := N - 1;
    while col >= 0
      invariant -1 <= col <= N - 1
      invariant forall c, row :: col < c < N && 0 <= row < N && c + row >= N - 1 ==>
        !r.lt(A[c][row], B[c][row]) && !r.lt(B[c][row], A[c][row])
    {
      var row := N - 1;
      while row > N - 1 - col - 1
        invariant N - 2 - col <= row <= N - 1
        invariant forall k :: row < k < N ==> !r.lt(A[col][k], B[col][k]) && !r.lt(B[col][k], A[col][k])
      {
        if r.lt(A[col][row], B[col][row]) || r.lt(B[col][row], A[col][row]) {
          return false;
        }
        row := row - 1;
      }
      col := col - 1;
    }
    return true;
  }

  /** When `<` is a strict total order the two overloads agree. */
  lemma TriangleIncomparableIsAgree<T(!new)>(lt: (T, T) -> bool, A: seq<seq<T>>, B: seq<seq<T>>)
    requires StrictTotalOrder(lt) && IsMatrix(A) && IsMatrix(B)
    ensures TriangleIncomparable(lt, A, B) <==> TriangleAgree(A, B)
  {
  }

  /** `operator==` is reflexive, symmetric and transitive. */
  lemma TriangleAgreeEquivalence<T>(A: seq<seq<T>>, B: seq<seq<T>>, C: seq<seq<T>>)
    requires IsMatrix(A) && IsMatrix(B) && IsMatrix(C)
    ensures TriangleAgree(A, A)
    ensures TriangleAgree(A, B) ==> TriangleAgree(B, A)
    ensures TriangleAgree(A, B) && TriangleAgree(B, C) ==> TriangleAgree(A, C)
  {
  }

  /** `operator==` never reads an entry outside the triangle: overwriting
      entry (col, row) with col + row < N - 1 in either matrix leaves the
      answer unchanged. */
  lemma TriangleAgreeReadsOnlyTriangle<T>(A: seq<seq<T>>, B: seq<seq<T>>, col: int, row: int, x: T)
    requires IsMatrix(A) && IsMatrix(B) && 0 <= col < N && 0 <= row < N && col + row < N - 1
    ensures TriangleAgree(A[col := A[col][row := x]], B) <==> TriangleAgree(A, B)
    ensures TriangleAgree(A, B[col := B[col][row := x]]) <==> TriangleAgree(A, B)
  {
  }
}
