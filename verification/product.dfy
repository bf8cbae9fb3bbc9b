/**
 The exact matrix product `operator*`, column-major:
 C[col][row] is the sum over k of A[k][row] * B[col][k]. Terms in which a
 factor has a zero leading coefficient are skipped, and the product is
 canonicalized before it is returned.
 */
module Product {
  import opened Entry
  import opened Canonical

  /** The first k terms of entry (col, row) accumulated from zero as the
      code does, skipping every term with a zero-lead factor. */
  function SkippingSum<T>(r: Ring<T>, A: seq<seq<T>>, B: seq<seq<T>>, col: nat, row: nat, k: nat): T
    requires IsMatrix(A) && IsMatrix(B) && col < N && row < N && k <= N
  {
    if k == 0 then r.zero
    else
      var acc := SkippingSum(r, A, B, col, row, k - 1);
      if r.leadIsZero(A[k - 1][row]) || r.leadIsZero(B[col][k - 1]) then acc
      else r.add(acc, r.mul(A[k - 1][row], B[col][k - 1]))
  }

  /** Reference sum of the first k terms A[i][row] * B[col][i], none skipped. */
  function DotSum<T>(r: Ring<T>, A: seq<seq<T>>, B: seq<seq<T>>, col: nat, row: nat, k: nat): T
    requires IsMatrix(A) && IsMatrix(B) && col < N && row < N && k <= N
  {
    if k == 0 then r.zero
    else r.add(DotSum(r, A, B, col, row, k - 1), r.mul(A[k - 1][row], B[col][k - 1]))
  }

  /** The product as the triple loop computes it, before canonicalization. */
  function RawProduct<T>(r: Ring<T>, A: seq<seq<T>>, B: seq<seq<T>>): (P: seq<seq<T>>)
    requires IsMatrix(A) && IsMatrix(B)
    ensures IsMatrix(P)
  {
    seq(N, col requires 0 <= col < N =>
      seq(N, row requires 0 <= row < N => SkippingSum(r, A, B, col, row, N)))
  }

  /** The textbook product, every term included. */
  function PlainProduct<T>(r: Ring<T>, A: seq<seq<T>>, B: seq<seq<T>>): (P: seq<seq<T>>)
    requires IsMatrix(A) && IsMatrix(B)
    ensures IsMatrix(P)
  {
    seq(N, col requires 0 <= col < N =>
      seq(N, row requires 0 <= row < N => DotSum(r, A, B, col, row, N)))
  }

  /** `operator*`: every column of the result is a sign-fixed column of the
      raw product. */
  function Multiply<T(==)>(r: Ring<T>, A: seq<seq<T>>, B: seq<seq<T>>): (C: seq<seq<T>>)
    requires IsMatrix(A) && IsMatrix(B)
    ensures IsMatrix(C)
    ensures forall col :: 0 <= col < N ==>
      exists k :: 0 <= k < N && C[col] == FixSignColumn(r, RawProduct(r, A, B)[k])
  {
    Canonicalize(r, RawProduct(r, A, B))
  }

  /** Skipping the terms with a zero-lead factor leaves the sum unchanged,
      given that such an entry is the ring's zero. */
  lemma {:induction false} SkippingSumIsDotSum<T(!new)>(r: Ring<T>, A: seq<seq<T>>, B: seq<seq<T>>,
                                                        col: nat, row: nat, k: nat)
    requires ZeroLaws(r) && IsMatrix(A) && IsMatrix(B) && col < N && row < N && k <= N
    ensures SkippingSum(r, A, B, col, row, k) == DotSum(r, A, B, col, row, k)
  {
    if k > 0 {
      SkippingSumIsDotSum(r, A, B, col, row, k - 1);
      var x, y := A[k - 1][row], B[col][k - 1];
      if r.leadIsZero(x) || r.leadIsZero(y) {
        assert r.mul(x, y) == r.zero;
      }
    }
  }

  /** `operator*` returns the canonical form of the textbook product
      C[col][row] = sum of A[k][row] * B[col][k]. */
  lemma MultiplyCorrect<T(!new)>(r: Ring<T>, A: seq<seq<T>>, B: seq<seq<T>>)
    requires ZeroLaws(r) && IsMatrix(A) && IsMatrix(B)
    ensures RawProduct(r, A, B) == PlainProduct(r, A, B)
    ensures Multiply(r, A, B) == Canonicalize(r, PlainProduct(r, A, B))
  {
    forall col, row | 0 <= col < N && 0 <= row < N
      ensures RawProduct(r, A, B)[col][row] == PlainProduct(r, A, B)[col][row]
    {
      SkippingSumIsDotSum(r, A, B, col, row, N);
    }
    assert forall col | 0 <= col < N :: RawProduct(r, A, B)[col] == PlainProduct(r, A, B)[col];
  }

  /** The product is canonical, its columns are the sign-fixed columns of the
      raw product rearranged, and canonicalizing it again changes nothing. */
  lemma MultiplyCanonical<T(!new)>(r: Ring<T>, A: seq<seq<T>>, B: seq<seq<T>>)
    requires CanonLaws(r) && IsMatrix(A) && IsMatrix(B)
    ensures IsCanonical(r, Multiply(r, A, B))
    ensures multiset(Multiply(r, A, B)) == multiset(FixSign(r, RawProduct(r, A, B)))
    ensures Canonicalize(r, Multiply(r, A, B)) == Multiply(r, A, B)
  {
    CanonicalizeCanonical(r, RawProduct(r, A, B));
    CanonicalFixedPoint(r, Multiply(r, A, B));
  }
}
