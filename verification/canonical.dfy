/**
 Canonical form of a matrix: `fixSign` makes the first entry with a nonzero
 leading coefficient of every column non-negative, then `lexOrder` sorts the
 columns by `lexLess`. A matrix is a sequence of N columns of N entries each,
 indexed `m[col][row]`.
 */
module Canonical {
  import opened Entry
  import opened Columns

  /** Every element of s is a column of N entries. */
  predicate AllColumns<T>(s: seq<seq<T>>) {
    forall i :: 0 <= i < |s| ==> |s[i]| == N
  }

  /** An N x N matrix stored column-major. */
  predicate IsMatrix<T>(m: seq<seq<T>>) {
    |m| == N && AllColumns(m)
  }

  // ---------------------------------------------------------------- fixSign

  /** Row p holds the first entry of column c with a nonzero leading coefficient. */
  ghost predicate LeadingRow<T>(r: Ring<T>, c: seq<T>, p: int) {
    && |c| == N && 0 <= p < N
    && !r.leadIsZero(c[p])
    && forall k :: 0 <= k < p ==> r.leadIsZero(c[k])
  }

  /** Every entry of column c has a zero leading coefficient. */
  ghost predicate AllLeadZero<T>(r: Ring<T>, c: seq<T>)
    requires |c| == N
  {
    forall k :: 0 <= k < N ==> r.leadIsZero(c[k])
  }

  /** The first entry of c with a nonzero leading coefficient is not below zero. */
  ghost predicate SignFixedColumn<T>(r: Ring<T>, c: seq<T>) {
    forall p :: LeadingRow(r, c, p) ==> !r.lt(c[p], r.zero)
  }

  ghost predicate SignFixed<T>(r: Ring<T>, m: seq<seq<T>>) {
    forall col :: 0 <= col < |m| ==> SignFixedColumn(r, m[col])
  }

  /** Column c with rows p..N-1 negated. */
  function NegateFrom<T>(r: Ring<T>, c: seq<T>, p: nat): (d: seq<T>)
    requires |c| == N && p < N
    ensures |d| == N
  {
    seq(N, k requires 0 <= k < N => if k < p then c[k] else r.negate(c[k]))
  }

  /** The row scan of `fixSign` for one column, from row `row` on. */
  function FixSignFrom<T>(r: Ring<T>, c: seq<T>, row: nat): (d: seq<T>)
    requires |c| == N && row <= N
    ensures |d| == N
    decreases N - row
  {
    if row == N then c
    else if r.leadIsZero(c[row]) then FixSignFrom(r, c, row + 1)
    else if r.lt(c[row], r.zero) then NegateFrom(r, c, row)
    else c
  }

  function FixSignColumn<T>(r: Ring<T>, c: seq<T>): (d: seq<T>)
    requires |c| == N
    ensures |d| == N
  {
    FixSignFrom(r, c, 0)
  }

  /** `fixSign`, applied to every column. */
  function FixSign<T>(r: Ring<T>, m: seq<seq<T>>): (f: seq<seq<T>>)
    requires IsMatrix(m)
    ensures IsMatrix(f)
    ensures forall col :: 0 <= col < N ==> f[col] == FixSignColumn(r, m[col])
  {
    seq(N, col requires 0 <= col < N => FixSignColumn(r, m[col]))
  }

  lemma {:induction false} FixSignFromCorrect<T>(r: Ring<T>, c: seq<T>, row: nat)
    requires |c| == N && row <= N
    requires forall k :: 0 <= k < row ==> r.leadIsZero(c[k])
    ensures AllLeadZero(r, c) ==> FixSignFrom(r, c, row) == c
    ensures forall p :: LeadingRow(r, c, p) ==>
      FixSignFrom(r, c, row) == (if r.lt(c[p], r.zero) then NegateFrom(r, c, p) else c)
    decreases N - row
  {
    if row < N && r.leadIsZero(c[row]) {
      FixSignFromCorrect(r, c, row + 1);
    } else if row < N {
      assert LeadingRow(r, c, row);
      forall p | LeadingRow(r, c, p)
        ensures p == row
      {
      }
    }
  }

  /** What `fixSign` does to one column: a column whose entries all have a
      zero leading coefficient is untouched; otherwise, with p the first row
      whose leading coefficient is nonzero, rows above p are untouched and
      rows p..N-1 are all negated when entry p is below zero, all untouched
      when it is not. */
  lemma FixSignColumnCorrect<T>(r: Ring<T>, c: seq<T>)
    requires |c| == N
    ensures AllLeadZero(r, c) ==> FixSignColumn(r, c) == c
    ensures forall p :: LeadingRow(r, c, p) ==>
      && FixSignColumn(r, c)[..p] == c[..p]
      && (forall k :: p <= k < N ==>
            FixSignColumn(r, c)[k] == (if r.lt(c[p], r.zero) then r.negate(c[k]) else c[k]))
  {
    FixSignFromCorrect(r, c, 0);
  }

  lemma LeadingRowUnique<T>(r: Ring<T>, c: seq<T>, p: int, q: int)
    requires LeadingRow(r, c, p) && LeadingRow(r, c, q)
    ensures p == q
  {
  }

  /** A column with no leading row has only zero-lead entries. */
  lemma FindLeadingRow<T>(r: Ring<T>, c: seq<T>) returns (p: int)
    requires |c| == N && !AllLeadZero(r, c)
    ensures LeadingRow(r, c, p)
  {
    p := 0;
    while r.leadIsZero(c[p])
      invariant 0 <= p < N
      invariant forall k :: 0 <= k < p ==> r.leadIsZero(c[k])
      decreases N - p
    {
      p := p + 1;
    }
  }

  /** Under the negation laws, negating rows p..N-1 keeps p the leading row. */
  lemma NegateFromKeepsLeadingRow<T(!new)>(r: Ring<T>, c: seq<T>, p: int)
    requires NegateLaws(r) && LeadingRow(r, c, p)
    ensures LeadingRow(r, NegateFrom(r, c, p), p)
  {
    assert r.leadIsZero(r.negate(c[p])) == r.leadIsZero(c[p]);
  }

  /** After `fixSign` the first entry of a column with a nonzero leading
      coefficient is not below zero. */
  lemma FixSignColumnSignFixed<T(!new)>(r: Ring<T>, c: seq<T>)
    requires NegateLaws(r) && |c| == N
    ensures SignFixedColumn(r, FixSignColumn(r, c))
  {
    FixSignColumnCorrect(r, c);
    if !AllLeadZero(r, c) {
      var p := FindLeadingRow(r, c);
      var d := FixSignColumn(r, c);
      if r.lt(c[p], r.zero) {
        NegateFromKeepsLeadingRow(r, c, p);
        assert d == NegateFrom(r, c, p);
      }
      assert LeadingRow(r, d, p);
      forall q | LeadingRow(r, d, q)
        ensures !r.lt(d[q], r.zero)
      {
        LeadingRowUnique(r, d, p, q);
      }
    }
  }

  /** The columns `fixSign` leaves alone are exactly the sign-fixed ones. */
  lemma FixSignColumnFixedPoint<T(!new)>(r: Ring<T>, c: seq<T>)
    requires NegateLaws(r) && |c| == N
    ensures FixSignColumn(r, c) == c <==> SignFixedColumn(r, c)
  {
    FixSignColumnCorrect(r, c);
    FixSignColumnSignFixed(r, c);
    if !AllLeadZero(r, c) {
      var p := FindLeadingRow(r, c);
      if SignFixedColumn(r, c) {
        assert !r.lt(c[p], r.zero);
        assert FixSignColumn(r, c) == c;
      }
    }
  }

  lemma FixSignColumnIdempotent<T(!new)>(r: Ring<T>, c: seq<T>)
    requires NegateLaws(r) && |c| == N
    ensures FixSignColumn(r, FixSignColumn(r, c)) == FixSignColumn(r, c)
  {
    FixSignColumnSignFixed(r, c);
    FixSignColumnFixedPoint(r, FixSignColumn(r, c));
  }

  /** After `fixSign` every column is sign-fixed, and applying `fixSign` a
      second time changes nothing. */
  lemma FixSignCorrect<T(!new)>(r: Ring<T>, m: seq<seq<T>>)
    requires NegateLaws(r) && IsMatrix(m)
    ensures SignFixed(r, FixSign(r, m))
    ensures FixSign(r, FixSign(r, m)) == FixSign(r, m)
  {
    forall col | 0 <= col < N
      ensures SignFixedColumn(r, FixSign(r, m)[col])
      ensures FixSignColumn(r, FixSign(r, m)[col]) == FixSign(r, m)[col]
    {
      FixSignColumnSignFixed(r, m[col]);
      FixSignColumnIdempotent(r, m[col]);
    }
  }

  /** A matrix is a fixed point of `fixSign` exactly when it is sign-fixed. */
  lemma FixSignFixedPoint<T(!new)>(r: Ring<T>, m: seq<seq<T>>)
    requires NegateLaws(r) && IsMatrix(m)
    ensures FixSign(r, m) == m <==> SignFixed(r, m)
  {
    forall col | 0 <= col < N
      ensures FixSignColumn(r, m[col]) == m[col] <==> SignFixedColumn(r, m[col])
    {
      FixSignColumnFixedPoint(r, m[col]);
    }
    if SignFixed(r, m) {
      assert FixSign(r, m) == m;
    }
  }

  // --------------------------------------------------------------- lexOrder

  /** No column sorts (by `lexLess`) before an earlier one. */
  ghost predicate Sorted<T>(lt: (T, T) -> bool, s: seq<seq<T>>) {
    && AllColumns(s)
    && forall i, j :: 0 <= i < j < |s| ==> !LexLess(lt, s[j], s[i])
  }

  /** Inserts x in front of the first element that x does not sort after. */
  function Insert<T(==)>(lt: (T, T) -> bool, x: seq<T>, s: seq<seq<T>>): (t: seq<seq<T>>)
    requires |x| == N && AllColumns(s)
    ensures multiset(t) == multiset(s) + multiset{x}
    ensures |t| == |s| + 1 && AllColumns(t)
  {
    if |s| == 0 then [x]
    else if LexLess(lt, s[0], x) then
      assert s == [s[0]] + s[1..];
      [s[0]] + Insert(lt, x, s[1..])
    else [x] + s
  }

  /** Insertion sort of the columns by `lexLess`. */
  function SortColumns<T(==)>(lt: (T, T) -> bool, s: seq<seq<T>>): (t: seq<seq<T>>)
    requires AllColumns(s)
    ensures multiset(t) == multiset(s)
    ensures |t| == |s| && AllColumns(t)
  {
    if |s| == 0 then []
    else
      assert s == [s[0]] + s[1..];
      Insert(lt, s[0], SortColumns(lt, s[1..]))
  }

  /** `lexOrder`. */
  function LexOrder<T(==)>(r: Ring<T>, m: seq<seq<T>>): (o: seq<seq<T>>)
    requires IsMatrix(m)
    ensures IsMatrix(o)
    ensures multiset(o) == multiset(m)
  {
    SortColumns(r.lt, m)
  }

  lemma {:induction false} InsertSorted<T(!new)>(lt: (T, T) -> bool, x: seq<T>, s: seq<seq<T>>)
    requires StrictTotalOrder(lt) && |x| == N && Sorted(lt, s)
    ensures Sorted(lt, Insert(lt, x, s))
  {
    var t := Insert(lt, x, s);
    if |s| == 0 {
    } else if LexLess(lt, s[0], x) {
      var u := Insert(lt, x, s[1..]);
      InsertSorted(lt, x, s[1..]);
      assert t == [s[0]] + u;
      forall j | 0 < j < |t|
        ensures !LexLess(lt, t[j], s[0])
      {
        assert t[j] == u[j - 1];
        assert t[j] in multiset(u);
        if t[j] == x {
          LexLessAsymmetric(lt, s[0], x);
        } else {
          assert t[j] in multiset(s[1..]);
          var k :| 0 <= k < |s[1..]| && s[1..][k] == t[j];
          assert s[k + 1] == t[j];
        }
      }
    } else {
      assert t == [x] + s;
      forall j | 0 < j < |t|
        ensures !LexLess(lt, t[j], x)
      {
        assert t[j] == s[j - 1];
        if j > 1 {
          NotLexLessTransitive(lt, s[j - 1], s[0], x);
        }
      }
    }
  }

  /** The columns `lexOrder` returns never sort before their predecessors. */
  lemma {:induction false} SortColumnsSorted<T(!new)>(lt: (T, T) -> bool, s: seq<seq<T>>)
    requires StrictTotalOrder(lt) && AllColumns(s)
    ensures Sorted(lt, SortColumns(lt, s))
  {
    if |s| > 0 {
      SortColumnsSorted(lt, s[1..]);
      InsertSorted(lt, s[0], SortColumns(lt, s[1..]));
    }
  }

  /** Sorting columns that are already sorted changes nothing; no property
      of `<` is needed. */
  lemma {:induction false} SortColumnsOfSorted<T>(lt: (T, T) -> bool, s: seq<seq<T>>)
    requires Sorted(lt, s)
    ensures SortColumns(lt, s) == s
  {
    if |s| > 0 {
      assert Sorted(lt, s[1..]);
      SortColumnsOfSorted(lt, s[1..]);
      if |s| > 1 {
        assert s[1..][0] == s[1];
      }
      assert s == [s[0]] + s[1..];
    }
  }

  lemma SortedTail<T>(lt: (T, T) -> bool, s: seq<seq<T>>)
    requires Sorted(lt, s) && |s| > 0
    ensures Sorted(lt, s[1..])
  {
    forall i, j | 0 <= i < j < |s| - 1
      ensures !LexLess(lt, s[1..][j], s[1..][i])
    {
      assert s[1..][j] == s[j + 1] && s[1..][i] == s[i + 1];
    }
  }

  /** Two sorted arrangements of the same columns are identical. So the
      sorted permutation is unique, and every comparison sort (the insertion
      sort here, or an unstable library sort) yields the same columns. */
  lemma {:induction false} SortedUnique<T(!new)>(lt: (T, T) -> bool, s: seq<seq<T>>, t: seq<seq<T>>)
    requires StrictTotalOrder(lt) && Sorted(lt, s) && Sorted(lt, t)
    requires multiset(s) == multiset(t)
    ensures s == t
  {
    assert |s| == |multiset(s)| == |multiset(t)| == |t|;
    if |s| > 0 {
      assert s[0] in multiset(t);
      var k :| 0 <= k < |t| && t[k] == s[0];
      assert t[0] in multiset(s);
      var m :| 0 <= m < |s| && s[m] == t[0];
      if s[0] != t[0] {
        assert m != 0 && !LexLess(lt, s[m], s[0]);
        assert k != 0 && !LexLess(lt, t[k], t[0]);
        LexLessConnected(lt, s[0], t[0]);
      }
      assert s[0] == t[0];
      assert s == [s[0]] + s[1..];
      assert t == [t[0]] + t[1..];
      assert multiset(s) == multiset{s[0]} + multiset(s[1..]);
      assert multiset(t) == multiset{t[0]} + multiset(t[1..]);
      assert multiset(s[1..]) == multiset(s) - multiset{s[0]};
      assert multiset(t[1..]) == multiset(t) - multiset{t[0]};
      assert multiset(s[1..]) == multiset(t[1..]);
      SortedTail(lt, s);
      SortedTail(lt, t);
      SortedUnique(lt, s[1..], t[1..]);
    }
  }

  /** `lexOrder` returns a permutation of the columns in which no column
      sorts before its predecessor, and applying it again changes nothing. */
  lemma LexOrderCorrect<T(!new)>(r: Ring<T>, m: seq<seq<T>>)
    requires StrictTotalOrder(r.lt) && IsMatrix(m)
    ensures multiset(LexOrder(r, m)) == multiset(m)
    ensures Sorted(r.lt, LexOrder(r, m))
    ensures LexOrder(r, LexOrder(r, m)) == LexOrder(r, m)
  {
    SortColumnsSorted(r.lt, m);
    SortColumnsOfSorted(r.lt, LexOrder(r, m));
  }

  // ----------------------------------------------------------- canonical form

  /** Sign-fixed with columns in `lexLess` order. */
  ghost predicate IsCanonical<T>(r: Ring<T>, m: seq<seq<T>>) {
    IsMatrix(m) && SignFixed(r, m) && Sorted(r.lt, m)
  }

  /** `fixSign` followed by `lexOrder`, the last step of both products. */
  function Canonicalize<T(==)>(r: Ring<T>, m: seq<seq<T>>): (c: seq<seq<T>>)
    requires IsMatrix(m)
    ensures IsMatrix(c)
    ensures forall col :: 0 <= col < N ==>
      exists k :: 0 <= k < N && c[col] == FixSignColumn(r, m[k])
  {
    var f := FixSign(r, m);
    var c := LexOrder(r, f);
    assert forall col :: 0 <= col < N ==> c[col] in multiset(f);
    c
  }

  /** Canonicalizing yields a canonical matrix whose columns are those of the
      sign-fixed input, rearranged. */
  lemma CanonicalizeCanonical<T(!new)>(r: Ring<T>, m: seq<seq<T>>)
    requires CanonLaws(r) && IsMatrix(m)
    ensures IsCanonical(r, Canonicalize(r, m))
    ensures multiset(Canonicalize(r, m)) == multiset(FixSign(r, m))
  {
    var f := FixSign(r, m);
    var c := Canonicalize(r, m);
    FixSignCorrect(r, m);
    SortColumnsSorted(r.lt, f);
    forall col | 0 <= col < N
      ensures SignFixedColumn(r, c[col])
    {
      assert c[col] in multiset(f);
      var k :| 0 <= k < N && f[k] == c[col];
    }
  }

  /** A matrix is canonical exactly when canonicalizing leaves it unchanged;
      in particular canonicalizing twice is the same as once. */
  lemma CanonicalFixedPoint<T(!new)>(r: Ring<T>, m: seq<seq<T>>)
    requires CanonLaws(r) && IsMatrix(m)
    ensures IsCanonical(r, m) <==> Canonicalize(r, m) == m
    ensures Canonicalize(r, Canonicalize(r, m)) == Canonicalize(r, m)
  {
    CanonicalizeCanonical(r, m);
    if IsCanonical(r, m) {
      FixSignFixedPoint(r, m);
      SortColumnsOfSorted(r.lt, m);
    }
    var c := Canonicalize(r, m);
    FixSignFixedPoint(r, c);
    SortColumnsOfSorted(r.lt, c);
  }
}
