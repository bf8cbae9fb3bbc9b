/**
 The two column comparators, `lexLess` and `lexComp`. Both scan rows 0..5 and
 stop at the first row where the columns differ; there the column whose entry
 is LARGER sorts first, so ordering by `lexLess` puts columns in descending
 lexicographic order.
 */
module Columns {
  import opened Entry

  /** Columns a and b agree on rows 0..r-1. */
  ghost predicate AgreeBelow<T>(a: seq<T>, b: seq<T>, r: int)
    requires |a| == N && |b| == N && 0 <= r <= N
  {
    forall k :: 0 <= k < r ==> a[k] == b[k]
  }

  /** Row r is the first row where columns a and b differ. */
  ghost predicate FirstDiff<T>(a: seq<T>, b: seq<T>, r: int) {
    && |a| == N && |b| == N && 0 <= r < N
    && AgreeBelow(a, b, r)
    && a[r] != b[r]
  }

  /** Reference order: a sorts before b when, at the first row where they
      differ, b's entry is below a's. */
  ghost predicate SortsBefore<T>(lt: (T, T) -> bool, a: seq<T>, b: seq<T>) {
    exists r :: FirstDiff(a, b, r) && lt(b[r], a[r])
  }

  /** The scan of `lexLess` from row i on. */
  function LexLessFrom<T(==)>(lt: (T, T) -> bool, a: seq<T>, b: seq<T>, i: nat): bool
    requires |a| == N && |b| == N && i <= N
    decreases N - i
  {
    if i == N then false
    else if a[i] != b[i] then lt(b[i], a[i])
    else LexLessFrom(lt, a, b, i + 1)
  }

  /** `lexLess(first, second)`: does `first` sort before `second`? */
  function LexLess<T(==)>(lt: (T, T) -> bool, a: seq<T>, b: seq<T>): bool
    requires |a| == N && |b| == N
  {
    LexLessFrom(lt, a, b, 0)
  }

  /** The scan of `lexComp` from row i on. */
  function LexCompFrom<T(==)>(lt: (T, T) -> bool, a: seq<T>, b: seq<T>, i: nat): (c: int)
    requires |a| == N && |b| == N && i <= N
    ensures -1 <= c <= 1
    decreases N - i
  {
    if i == N then 0
    else if a[i] == b[i] then LexCompFrom(lt, a, b, i + 1)
    else if lt(b[i], a[i]) then -1
    else 1
  }

  /** `lexComp(first, second)`: -1, 0 or 1. */
  function LexComp<T(==)>(lt: (T, T) -> bool, a: seq<T>, b: seq<T>): (c: int)
    requires |a| == N && |b| == N
    ensures -1 <= c <= 1
  {
    LexCompFrom(lt, a, b, 0)
  }

  lemma FirstDiffUnique<T>(a: seq<T>, b: seq<T>, r: int, s: int)
    requires FirstDiff(a, b, r) && FirstDiff(a, b, s)
    ensures r == s
  {
  }

  /** Two different columns have a first differing row. */
  lemma FindFirstDiff<T>(a: seq<T>, b: seq<T>) returns (r: int)
    requires |a| == N && |b| == N && a != b
    ensures FirstDiff(a, b, r)
  {
    r := 0;
    while r < N && a[r] == b[r]
      invariant 0 <= r <= N
      invariant AgreeBelow(a, b, r)
    {
      r := r + 1;
    }
  }

  lemma {:induction false} LexLessFromCorrect<T>(lt: (T, T) -> bool, a: seq<T>, b: seq<T>, i: nat)
    requires |a| == N && |b| == N && i <= N && AgreeBelow(a, b, i)
    ensures LexLessFrom(lt, a, b, i) <==> SortsBefore(lt, a, b)
    decreases N - i
  {
    if i == N {
    } else if a[i] != b[i] {
      assert FirstDiff(a, b, i);
      if SortsBefore(lt, a, b) {
        var r :| FirstDiff(a, b, r) && lt(b[r], a[r]);
        FirstDiffUnique(a, b, r, i);
      }
    } else {
      LexLessFromCorrect(lt, a, b, i + 1);
    }
  }

  /** `lexLess(a, b)` holds exactly when b's entry is below a's at the first
      row where the two columns differ. */
  lemma LexLessCorrect<T>(lt: (T, T) -> bool, a: seq<T>, b: seq<T>)
    requires |a| == N && |b| == N
    ensures LexLess(lt, a, b) <==> SortsBefore(lt, a, b)
  {
    LexLessFromCorrect(lt, a, b, 0);
  }

  lemma {:induction false} LexCompFromCorrect<T>(lt: (T, T) -> bool, a: seq<T>, b: seq<T>, i: nat)
    requires |a| == N && |b| == N && i <= N
    ensures LexCompFrom(lt, a, b, i) == -1 <==> LexLessFrom(lt, a, b, i)
    ensures LexCompFrom(lt, a, b, i) == 0 <==> forall k :: i <= k < N ==> a[k] == b[k]
    decreases N - i
  {
    if i < N && a[i] == b[i] {
      LexCompFromCorrect(lt, a, b, i + 1);
      assert (forall k :: i <= k < N ==> a[k] == b[k]) <==> (forall k :: i + 1 <= k < N ==> a[k] == b[k]);
    }
  }

  /** `lexComp` is 0 exactly on equal columns, -1 exactly when `lexLess`
      holds, and 1 on the remaining pairs. */
  lemma LexCompCorrect<T>(lt: (T, T) -> bool, a: seq<T>, b: seq<T>)
    requires |a| == N && |b| == N
    ensures LexComp(lt, a, b) == 0 <==> a == b
    ensures LexComp(lt, a, b) == -1 <==> LexLess(lt, a, b)
    ensures LexComp(lt, a, b) == 1 <==> a != b && !LexLess(lt, a, b)
  {
    LexCompFromCorrect(lt, a, b, 0);
    if forall k :: 0 <= k < N ==> a[k] == b[k] {
      assert a == b;
    }
  }

  /** No column sorts before itself; this needs nothing of `<`. */
  lemma LexLessIrreflexive<T>(lt: (T, T) -> bool, a: seq<T>)
    requires |a| == N
    ensures !LexLess(lt, a, a)
  {
    LexLessCorrect(lt, a, a);
  }

  lemma LexLessAsymmetric<T(!new)>(lt: (T, T) -> bool, a: seq<T>, b: seq<T>)
    requires StrictTotalOrder(lt) && |a| == N && |b| == N
    ensures LexLess(lt, a, b) ==> !LexLess(lt, b, a)
  {
    LexLessCorrect(lt, a, b);
    LexLessCorrect(lt, b, a);
  }

  lemma LexLessTransitive<T(!new)>(lt: (T, T) -> bool, a: seq<T>, b: seq<T>, c: seq<T>)
    requires StrictTotalOrder(lt) && |a| == N && |b| == N && |c| == N
    requires LexLess(lt, a, b) && LexLess(lt, b, c)
    ensures LexLess(lt, a, c)
  {
    LexLessCorrect(lt, a, b);
    LexLessCorrect(lt, b, c);
    LexLessCorrect(lt, a, c);
    var r :| FirstDiff(a, b, r) && lt(b[r], a[r]);
    var s :| FirstDiff(b, c, s) && lt(c[s], b[s]);
    if r < s {
      assert FirstDiff(a, c, r) && lt(c[r], a[r]);
    } else if s < r {
      assert FirstDiff(a, c, s) && lt(c[s], a[s]);
    } else {
      assert lt(c[r], a[r]);
      assert FirstDiff(a, c, r);
    }
  }

  /** Any two different columns are ordered one way or the other. */
  lemma LexLessConnected<T(!new)>(lt: (T, T) -> bool, a: seq<T>, b: seq<T>)
    requires StrictTotalOrder(lt) && |a| == N && |b| == N
    ensures a != b ==> LexLess(lt, a, b) || LexLess(lt, b, a)
  {
    if a != b {
      var r := FindFirstDiff(a, b);
      assert FirstDiff(b, a, r);
      LexLessCorrect(lt, a, b);
      LexLessCorrect(lt, b, a);
    }
  }

  /** "Does not sort before" is transitive, the fact insertion relies on. */
  lemma NotLexLessTransitive<T(!new)>(lt: (T, T) -> bool, a: seq<T>, b: seq<T>, c: seq<T>)
    requires StrictTotalOrder(lt) && |a| == N && |b| == N && |c| == N
    requires !LexLess(lt, a, b) && !LexLess(lt, b, c)
    ensures !LexLess(lt, a, c)
  {
    if LexLess(lt, a, c) && a != b && b != c {
      LexLessConnected(lt, a, b);
      LexLessTransitive(lt, b, a, c);
    }
  }
}
