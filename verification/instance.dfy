/**
 The engine over integer entries, on the identity matrix: the identity is
 already canonical (its columns e0..e5 are in `lexLess` order), and the
 product of the identity with itself is the identity.
 */
module IntInstance {
  import opened Entry
  import opened Columns
  import opened Canonical
  import opened Product

  function Identity(): (I: seq<seq<int>>)
    ensures IsMatrix(I)
  {
    seq(N, col requires 0 <= col < N => seq(N, row requires 0 <= row < N => if col == row then 1 else 0))
  }

  /** Column e_j never sorts before e_i for i < j: they first differ at row
      i, where e_i holds 1 and e_j holds 0. */
  lemma IdentitySorted()
    ensures Sorted(IntRing().lt, Identity())
  {
    var I, lt := Identity(), IntRing().lt;
    forall i, j | 0 <= i < j < N
      ensures !LexLess(lt, I[j], I[i])
    {
      LexLessCorrect(lt, I[j], I[i]);
      assert FirstDiff(I[j], I[i], i);
      forall r | FirstDiff(I[j], I[i], r)
        ensures !lt(I[i][r], I[j][r])
      {
        FirstDiffUnique(I[j], I[i], r, i);
      }
    }
  }

  /** Column e_c leads with 1 at row c, which is not below zero. */
  lemma IdentitySignFixed()
    ensures SignFixed(IntRing(), Identity())
  {
    var I, r := Identity(), IntRing();
    forall col | 0 <= col < N
      ensures SignFixedColumn(r, I[col])
    {
      forall p | LeadingRow(r, I[col], p)
        ensures !r.lt(I[col][p], r.zero)
      {
      }
    }
  }

  /** The identity is canonical: canonicalizing it returns it unchanged. */
  lemma IdentityCanonical()
    ensures Canonicalize(IntRing(), Identity()) == Identity()
  {
    IntRingLaws();
    IdentitySorted();
    IdentitySignFixed();
    CanonicalFixedPoint(IntRing(), Identity());
  }

  lemma {:induction false} IdentityDotSum(col: nat, row: nat, k: nat)
    requires col < N && row < N && k <= N
    ensures DotSum(IntRing(), Identity(), Identity(), col, row, k) == if col == row && row < k then 1 else 0
  {
    if k > 0 {
      IdentityDotSum(col, row, k - 1);
    }
  }

  lemma IdentityPlainProduct()
    ensures PlainProduct(IntRing(), Identity(), Identity()) == Identity()
  {
    var I, r := Identity(), IntRing();
    forall col, row | 0 <= col < N && 0 <= row < N
      ensures PlainProduct(r, I, I)[col][row] == I[col][row]
    {
      IdentityDotSum(col, row, N);
    }
    assert forall col | 0 <= col < N :: PlainProduct(r, I, I)[col] == I[col];
  }

  /** The identity times itself is the identity. */
  lemma IdentityProduct()
    ensures Multiply(IntRing(), Identity(), Identity()) == Identity()
  {
    IntRingLaws();
    MultiplyCorrect(IntRing(), Identity(), Identity());
    IdentityPlainProduct();
    IdentityCanonical();
  }
}
