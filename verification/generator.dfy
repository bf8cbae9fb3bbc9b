/**
 Generator application, `tMultiply`. Generator (i, j) mixes rows i and j of
 every column into a sum and a difference, raises the denominator exponent of
 both new entries, and canonicalizes the result. The single-index overload
 enumerates the 15 pairs i < j.
 */
module Generator {
  import opened Entry
  import opened Canonical

  /** `tMultiply(int)`: the pair of rows selected by generator index n.
      Negative indices and indices past 14 are not rejected: n == -1 gives
      (0, 0) and every n >= 14 gives (4, 5). */
  function GeneratorPair(n: int): (p: (int, int))
    ensures 0 <= n < 15 ==> 0 <= p.0 < p.1 < N
    ensures n >= 14 ==> p == (4, 5)
  {
    if n < 5 then (0, n + 1)
    else if n < 9 then (1, n - 3)
    else if n < 12 then (2, n - 6)
    else if n < 14 then (3, n - 8)
    else (4, 5)
  }

  /** The generator index of the pair (i, j), i < j. */
  function PairIndex(i: int, j: int): (n: int)
    requires 0 <= i < j < N
    ensures 0 <= n < 15
  {
    if i == 0 then j - 1
    else if i == 1 then j + 3
    else if i == 2 then j + 6
    else if i == 3 then j + 8
    else 14
  }

  /** The index map is a bijection from 0..14 onto the 15 pairs i < j. */
  lemma GeneratorPairBijective()
    ensures forall n :: 0 <= n < 15 ==> PairIndex(GeneratorPair(n).0, GeneratorPair(n).1) == n
    ensures forall i, j :: 0 <= i < j < N ==> GeneratorPair(PairIndex(i, j)) == (i, j)
    ensures forall n, n' :: 0 <= n < 15 && 0 <= n' < 15 && GeneratorPair(n) == GeneratorPair(n') ==> n == n'
  {
  }

  /** The `i - j == 1` and `i - j == -1` cases of the switch. */
  predicate Adjacent(i: int, j: int) {
    i - j == 1 || i - j == -1
  }

  /** One column under generator (i, j). Both new entries are computed from
      the original column; row j is written last, so for i == j it wins. */
  function GeneratorColumn<T>(r: Ring<T>, c: seq<T>, i: int, j: int): (d: seq<T>)
    requires |c| == N && 0 <= i < N && 0 <= j < N
    ensures |d| == N
    ensures forall k :: 0 <= k < N && k != i && k != j ==> d[k] == c[k]
    ensures i != j ==>
      d[i] == r.increaseDE(if Adjacent(i, j) then r.sub(c[i], c[j]) else r.add(c[i], c[j]))
    ensures d[j] == r.increaseDE(if Adjacent(i, j) then r.add(c[j], c[i]) else r.sub(c[j], c[i]))
  {
    var (x, y) :=
      if Adjacent(i, j) then (r.sub(c[i], c[j]), r.add(c[j], c[i]))
      else (r.add(c[i], c[j]), r.sub(c[j], c[i]));
    c[i := r.increaseDE(x)][j := r.increaseDE(y)]
  }

  /** The update loop of `tMultiply(i, j)`, before canonicalization: only
      rows i and j of each column change. */
  function ApplyGenerator<T>(r: Ring<T>, m: seq<seq<T>>, i: int, j: int): (g: seq<seq<T>>)
    requires IsMatrix(m) && 0 <= i < N && 0 <= j < N
    ensures IsMatrix(g)
    ensures forall col, k :: 0 <= col < N && 0 <= k < N && k != i && k != j ==> g[col][k] == m[col][k]
    ensures forall col :: 0 <= col < N ==> g[col] == GeneratorColumn(r, m[col], i, j)
  {
    seq(N, col requires 0 <= col < N => GeneratorColumn(r, m[col], i, j))
  }

  /** `tMultiply(i, j)`: every column of the result is a sign-fixed
      generated column. */
  function TMultiply<T(==)>(r: Ring<T>, m: seq<seq<T>>, i: int, j: int): (t: seq<seq<T>>)
    requires IsMatrix(m) && 0 <= i < N && 0 <= j < N
    ensures IsMatrix(t)
    ensures forall col :: 0 <= col < N ==>
      exists k :: 0 <= k < N && t[col] == FixSignColumn(r, GeneratorColumn(r, m[k], i, j))
  {
    Canonicalize(r, ApplyGenerator(r, m, i, j))
  }

  /** `tMultiply(int)`; indices below -1 would address row -1 and beyond. */
  function TMultiplyIndex<T(==)>(r: Ring<T>, m: seq<seq<T>>, n: int): (t: seq<seq<T>>)
    requires IsMatrix(m) && n >= -1
    ensures IsMatrix(t)
    ensures 0 <= n < 15 ==>
      exists i, j :: 0 <= i < j < N && PairIndex(i, j) == n && t == TMultiply(r, m, i, j)
    ensures n >= 14 ==> t == TMultiply(r, m, 4, 5)
    ensures n == -1 ==> t == TMultiply(r, m, 0, 0)
  {
    var (i, j) := GeneratorPair(n);
    GeneratorPairBijective();
    TMultiply(r, m, i, j)
  }

  /** The result of a generator is canonical, its columns are the sign-fixed
      generated columns rearranged, and canonicalizing it again changes
      nothing. */
  lemma TMultiplyCanonical<T(!new)>(r: Ring<T>, m: seq<seq<T>>, i: int, j: int)
    requires CanonLaws(r) && IsMatrix(m) && 0 <= i < N && 0 <= j < N
    ensures IsCanonical(r, TMultiply(r, m, i, j))
    ensures multiset(TMultiply(r, m, i, j)) == multiset(FixSign(r, ApplyGenerator(r, m, i, j)))
    ensures Canonicalize(r, TMultiply(r, m, i, j)) == TMultiply(r, m, i, j)
  {
    CanonicalizeCanonical(r, ApplyGenerator(r, m, i, j));
    CanonicalFixedPoint(r, TMultiply(r, m, i, j));
  }
}
