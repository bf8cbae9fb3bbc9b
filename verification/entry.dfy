/**
 The matrix entries. The ring element type of the engine (an exact value in an
 integer ring extended by an irrational unit and scaled by a power of two) is
 kept abstract: the matrix code only ever uses the handful of operations
 collected in `Ring`, and the facts it relies on are stated as the predicates
 below, which the lemmas of the other modules take as preconditions.
 */
module Entry {

  /** Side of the 6x6 matrices: rows and columns are indexed 0..N-1. */
  const N: nat := 6

  /** The operations of a ring element that the matrix engine calls.
      Equality of entries is Dafny equality on `T`. */
  datatype Ring<!T> = Ring(
    zero: T,                  // the value 0, also the default-constructed entry
    lt: (T, T) -> bool,       // the value order `<`
    leadIsZero: T -> bool,    // the leading-coefficient test `x[0] == 0`
    negate: T -> T,           // in-place negation, as a function
    add: (T, T) -> T,
    sub: (T, T) -> T,
    mul: (T, T) -> T,
    increaseDE: T -> T        // raise the denominator exponent by one
  )

  /** `<` is a strict total order on entries. */
  ghost predicate StrictTotalOrder<T(!new)>(lt: (T, T) -> bool) {
    && (forall x :: !lt(x, x))
    && (forall x, y, z :: lt(x, y) && lt(y, z) ==> lt(x, z))
    && (forall x, y :: x != y ==> lt(x, y) || lt(y, x))
  }

  /** What sign fixing relies on: negation keeps the leading-coefficient
      test and turns an entry below zero into one that is not below zero. */
  ghost predicate NegateLaws<T(!new)>(r: Ring<T>) {
    && (forall x :: r.leadIsZero(r.negate(x)) == r.leadIsZero(x))
    && (forall x :: r.lt(x, r.zero) ==> !r.lt(r.negate(x), r.zero))
  }

  /** What canonicalization relies on: the negation laws, and `<` a strict
      total order so that sorting columns has a unique result. */
  ghost predicate CanonLaws<T(!new)>(r: Ring<T>) {
    StrictTotalOrder(r.lt) && NegateLaws(r)
  }

  /** What skipping terms in the product relies on: an entry whose leading
      coefficient is zero is the zero of the ring, so it annihilates products,
      and adding zero changes nothing. */
  ghost predicate ZeroLaws<T(!new)>(r: Ring<T>) {
    && (forall x, y :: r.leadIsZero(x) ==> r.mul(x, y) == r.zero && r.mul(y, x) == r.zero)
    && (forall x :: r.add(x, r.zero) == x)
  }

  /** Integers as an instance of the entry type, with doubling as the
      exponent increase. */
  function IntRing(): Ring<int> {
    Ring(0, (x: int, y: int) => x < y, (x: int) => x == 0, (x: int) => -x,
         (x: int, y: int) => x + y, (x: int, y: int) => x - y,
         (x: int, y: int) => x * y, (x: int) => 2 * x)
  }

  /** The integer instance meets every assumption the matrix lemmas make, so
      none of those preconditions is vacuous. */
  lemma IntRingLaws()
    ensures CanonLaws(IntRing()) && ZeroLaws(IntRing())
  {
  }
}
