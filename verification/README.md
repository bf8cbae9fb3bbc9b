# SO6 matrix engine in Dafny

A model of the exact 6x6 matrix engine `SO6` of TOperators. A matrix is
stored column-major, `m[col][row]`, and its entries are exact ring elements
(`Z2`). The engine multiplies matrices exactly and applies the 15 "T"
generators. It also brings a matrix to a canonical form under signed column
permutation: first `fixSign`, then `lexOrder`. Finally it compares matrices
with `operator<` and with the triangle-only `operator==`.

The entry type is kept abstract. Every member takes a type parameter `T` and
a `Ring<T>` record holding the only entry operations the engine calls:

- `zero`
- `<`
- the leading-coefficient test `x[0] == 0`
- `negate`, `+`, `-`, `*`
- `increaseDE`

Entry equality (`==`/`!=`) is Dafny equality on `T`, that is, identity of
the value. Apart from that, the facts the engine relies on are explicit
preconditions, stated in `Entry`:

- `StrictTotalOrder`: `<` is a strict total order.
- `NegateLaws`: `negate` keeps the leading-coefficient test, and it maps an
  entry below zero to one that is not below zero. The `fixSign` lemmas
  need only this.
- `CanonLaws`: both of the above. The sorting and canonical-form lemmas need
  this.
- `ZeroLaws`: an entry with a zero leading coefficient annihilates products,
  and adding zero changes nothing.

`IntRing` instantiates the record with integers, and `IntRingLaws` shows
that it meets `CanonLaws` and `ZeroLaws`. So no precondition is vacuous.

Modules, one per part of `SO6.cpp`:

- `Entry`: the entry operations and the assumptions about them.
- `Columns`: the comparators `lexLess` and `lexComp`.
- `Canonical`: `fixSign`, `lexOrder` and the canonical form.
- `Product`: `operator*`.
- `Generator`: both `tMultiply` overloads.
- `Comparison`: `operator<` and both `operator==` overloads.
- `IntInstance`: the identity matrix over integers.

`lexOrder` calls `std::sort`, which is not stable. The model sorts with an
insertion sort. `SortedUnique` shows that two sorted arrangements of the same
columns are identical when `<` is a strict total order. So the model returns
exactly what any correct comparison sort returns, provided entries that `Z2`
calls equal are also identical (see "## Left out").

Points of the code's behaviour that the model keeps as written:

- `increaseDE` is applied to both new entries of a generator step, even when
  an entry is zero (SO6.cpp:117-142).
- `fixSign` tests only the leading coefficient (`[0] == 0`) when it looks for
  the first nonzero entry (SO6.cpp:157).
- Generator indices are not range-checked. Index -1 selects the pair (0, 0),
  and every index of 14 or more selects (4, 5) (SO6.cpp:101-107).

## Model

| member | source | states |
|---|---|---|
| `Columns.LexLessCorrect` | SO6.cpp:18-26 | `lexLess(a, b)` is true exactly when, at the first row where a and b differ, b's entry is `<` a's entry |
| `Columns.LexLessIrreflexive` | SO6.cpp:18-26 | no column is `lexLess` than itself, whatever `<` is |
| `Columns.LexLessAsymmetric` | SO6.cpp:18-26 | if `<` is a strict total order, `lexLess(a, b)` excludes `lexLess(b, a)` |
| `Columns.LexLessTransitive` | SO6.cpp:18-26 | if `<` is a strict total order, `lexLess` is transitive |
| `Columns.LexLessConnected` | SO6.cpp:18-26 | if `<` is a strict total order, of two different columns one is `lexLess` than the other |
| `Columns.LexCompCorrect` | SO6.cpp:36-47 | `lexComp` is 0 exactly when all six entries are equal, -1 exactly when `lexLess(a, b)`, and 1 on all other pairs |
| `Canonical.FixSignColumnCorrect` | SO6.cpp:151-167 | a column whose entries all have a zero leading coefficient is untouched; otherwise, with p the first row whose leading coefficient is nonzero, rows above p are untouched and rows p..5 are all negated if entry p is `< 0`, all untouched if not |
| `Canonical.FixSignCorrect` | SO6.cpp:151-167 | after `fixSign`, in every column the first entry with a nonzero leading coefficient is not `< 0`; applying `fixSign` twice equals applying it once |
| `Canonical.FixSignFixedPoint` | SO6.cpp:151-167 | `fixSign` leaves a matrix unchanged exactly when the matrix is already sign-fixed |
| `Canonical.LexOrderCorrect` | SO6.cpp:171-191 | `lexOrder` returns the same multiset of columns; no column is `lexLess` than an earlier one (descending lexicographic order); applying it again changes nothing |
| `Canonical.SortedUnique` | SO6.cpp:173-175 | two sorted arrangements of the same columns are equal, so an unstable sort yields the same matrix as the model's sort |
| `Canonical.CanonicalizeCanonical` | SO6.cpp:96-97 | `fixSign` then `lexOrder` yields a sign-fixed, sorted matrix whose columns are the sign-fixed input columns, rearranged (same multiset) |
| `Canonical.CanonicalFixedPoint` | SO6.cpp:96-97 | a matrix is canonical exactly when canonicalizing leaves it unchanged; canonicalizing twice equals canonicalizing once |
| `Product.SkippingSumIsDotSum` | SO6.cpp:87-93 | if a zero leading coefficient means the entry is zero, the loop that skips such terms yields the full sum of A[k][row] * B[col][k] |
| `Product.Multiply` | SO6.cpp:76-99 | every column of the product is a sign-fixed column of the raw product |
| `Product.MultiplyCorrect` | SO6.cpp:76-99 | `operator*` returns the canonical form of the textbook product C[col][row] = sum over k of A[k][row] * B[col][k] |
| `Product.MultiplyCanonical` | SO6.cpp:96-98 | the product is canonical, its columns are the sign-fixed columns of the raw product rearranged (same multiset), and canonicalizing it again changes nothing |
| `Generator.GeneratorPair` | SO6.cpp:101-107 | every index 0..14 selects a pair (i, j) with 0 <= i < j <= 5, and every index from 14 up selects (4, 5) |
| `Generator.GeneratorPairBijective` | SO6.cpp:101-107 | the index map is injective on 0..14 and covers all 15 pairs i < j; `PairIndex` is its inverse |
| `Generator.GeneratorColumn` | SO6.cpp:114-143 | only rows i and j change; both new values come from the original entries; when i - j = ±1 they are `increaseDE(x_i - x_j)` and `increaseDE(x_j + x_i)`, otherwise `increaseDE(x_i + x_j)` and `increaseDE(x_j - x_i)`; `increaseDE` is applied to both, unconditionally |
| `Generator.ApplyGenerator` | SO6.cpp:111-143 | before canonicalization, every column gets the generator's row update and rows other than i and j are unchanged |
| `Generator.TMultiply` | SO6.cpp:109-149 | every column of `tMultiply(i, j)` is a sign-fixed, generator-updated column of the input |
| `Generator.TMultiplyIndex` | SO6.cpp:101-107 | for n in 0..14, `tMultiply(n)` applies the generator of the pair i < j whose index is n; every n >= 14 applies (4, 5) and n = -1 applies (0, 0) |
| `Generator.TMultiplyCanonical` | SO6.cpp:109-149 | the result of a generator is canonical, its columns are the sign-fixed generator-updated columns rearranged (same multiset), and canonicalizing it again changes nothing |
| `Comparison.LessThan` | SO6.cpp:193-206 | `operator<` is true exactly when, at the first of columns 0..4 where the matrices differ, A's column is `lexLess` than B's |
| `Comparison.MatrixLessIrreflexive` | SO6.cpp:193-206 | no matrix is `<` itself |
| `Comparison.MatrixLessAsymmetric` | SO6.cpp:193-206 | if `<` on entries is a strict total order, A < B excludes B < A |
| `Comparison.MatrixLessTransitive` | SO6.cpp:193-206 | if `<` on entries is a strict total order, `operator<` is transitive |
| `Comparison.MatrixLessIgnoresLastColumn` | SO6.cpp:195-196 | replacing column 5 of either matrix never changes the answer of `operator<` |
| `Comparison.TriangleEquals` | SO6.cpp:212-225 | `operator==` is true exactly when the matrices agree on every entry with col + row >= 5 |
| `Comparison.TriangleEqualsByOrder` | SO6.cpp:227-240 | the const `operator==` is true exactly when no triangle entry of one matrix is `<` the corresponding entry of the other |
| `Comparison.TriangleIncomparableIsAgree` | SO6.cpp:227-240 | if `<` is a strict total order, the two `operator==` overloads agree |
| `Comparison.TriangleAgreeEquivalence` | SO6.cpp:212-225 | `operator==` is reflexive, symmetric and transitive |
| `Comparison.TriangleAgreeReadsOnlyTriangle` | SO6.cpp:216-223 | changing an entry with col + row < 5 in either matrix never changes the answer of `operator==` |
| `IntInstance.IdentityCanonical` | SO6.cpp:171-191 | over integers, the identity matrix is already canonical, with e0..e5 in `lexLess` order |
| `IntInstance.IdentityProduct` | SO6.cpp:76-99 | over integers, the identity times itself is the identity |

## Left out

- `operator<<` (SO6.cpp:248-260) is stream output for display only.
- The internals of `Z2` are not part of this model (`Z2.hpp`): its
  representation, the exact meaning of `increaseDE`, its multiplication rule
  and its value order. They are abstract operations constrained by the
  `Entry` predicates and by the identity assumption below. For the same
  reason, integer overflow inside `Z2` is not modelled.
- Entry equality: `Z2`'s `==` and `!=` are modelled as identity of values.
  This assumes that every entry operation, including the raw-coefficient
  test `x[0] == 0` (SO6.cpp:89, SO6.cpp:157), gives the same answer on
  entries that `Z2`'s `==` calls equal. If `Z2` has several representations
  of one value, two sorted arrangements could differ in representation, and
  `SortedUnique` does not cover that case.
- The leading denominator exponent and the pattern are not modelled. `getLDE`
  is a stub returning 0. `genLDE` and the `SO6(Z2[6][6])` constructor are
  declared but not defined. No pattern routine exists.
- The default constructor `SO6()` is not modelled. Its entries are default
  `Z2` values. The product's accumulator, which starts from such a value, is
  modelled as `zero`.
- The accessors `operator()` and `operator[]` are modelled as sequence
  indexing.
- The pointer vector and the copy loops of `lexOrder`, and sort stability, are
  not modelled. `lexOrder` is specified by its result, which `SortedUnique`
  shows is unique.
- Orthogonality, associativity of the product, and whether the triangle-only
  `operator==` is sound need real `Z2` arithmetic, so none is claimed.
  `operator==` is not claimed to equal full matrix equality.
- `Generator.TMultiplyIndex`: requires n >= -1. A smaller index selects a
  negative row, which is out of bounds in the code.
- `Generator.TMultiply`: requires both indices in 0..5, the array bounds.
  i == j is modelled as the code behaves: row j is written last.
