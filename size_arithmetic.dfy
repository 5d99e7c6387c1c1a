/**
 * The unsigned size arithmetic L1.cpp uses to size the result of `+`, `-`,
 * scalar `*` and `derivative`, as written. Each builds
 * `Polynomial result(d)` with `d` computed from an operand size by a
 * `size_t` subtraction, and that constructor asks `std::vector` for `d + 1`
 * elements, again in `size_t`. `size_t` is taken to be 64 bits wide. The
 * library's `max_size()` is a parameter: it is implementation-defined, and
 * for `std::vector<int>` it is always below SIZE_MAX.
 *
 * The lemmas here compute the length the source's result vector starts
 * with. The class in module Polynomials guards the small sizes with
 * explicit branches that build the same length, except for the derivative
 * of the zero polynomial, where the source throws.
 */
module SizeArithmetic {
  import opened Coefficients

  /** 2^64: `size_t` arithmetic is modulo this. */
  const SIZE_MODULUS: int := 0x1_0000_0000_0000_0000

  type SizeT = x: int | 0 <= x < SIZE_MODULUS

  /** A mathematical integer reduced to `size_t`, as unsigned wrap-around does. */
  function Wrap(x: int): SizeT
  {
    x % SIZE_MODULUS
  }

  /** What asking `std::vector` for storage yields: that many elements, or `std::length_error`. */
  datatype Storage = Allocated(length: nat) | LengthError

  /** `Polynomial(size_t degree)`: a vector of `degree + 1` zeros, the sum taken in `size_t`. */
  function DegreeConstructorStorage(degree: SizeT, maxSize: nat): Storage
  {
    var n := Wrap(degree + 1);
    if n > maxSize then LengthError else Allocated(n)
  }

  /** The initial result of `operator+` and `operator-`: `Polynomial result(max_degree - 1)`. */
  function SumStorage(lhsSize: SizeT, rhsSize: SizeT, maxSize: nat): Storage
  {
    DegreeConstructorStorage(Wrap(Max(lhsSize, rhsSize) - 1), maxSize)
  }

  /** The initial result of scalar `operator*`: `Polynomial result(coefficients.size() - 1)`. */
  function ScaleStorage(size: SizeT, maxSize: nat): Storage
  {
    DegreeConstructorStorage(Wrap(size - 1), maxSize)
  }

  /** The initial result of `derivative`: `Polynomial result(coefficients.size() - 2)`. */
  function DerivativeStorage(size: SizeT, maxSize: nat): Storage
  {
    DegreeConstructorStorage(Wrap(size - 2), maxSize)
  }

  /**
   * For `+` and `-` the wrap-around is harmless: for operands the library
   * could hold, the result starts as max(a, b) zeros, which for two empty
   * operands is the empty vector the guarded model builds.
   */
  lemma SumStorageIsMaxSize(lhsSize: SizeT, rhsSize: SizeT, maxSize: nat)
    requires lhsSize <= maxSize && rhsSize <= maxSize
    ensures SumStorage(lhsSize, rhsSize, maxSize) == Allocated(Max(lhsSize, rhsSize))
  {
    if Max(lhsSize, rhsSize) == 0 {
      assert Wrap(0 - 1) == SIZE_MODULUS - 1;
      assert Wrap(SIZE_MODULUS - 1 + 1) == 0;
    }
  }

  /** For scalar `*` the wrap-around is harmless likewise: the result starts as `size` zeros. */
  lemma ScaleStorageIsSize(size: SizeT, maxSize: nat)
    requires size <= maxSize
    ensures ScaleStorage(size, maxSize) == Allocated(size)
  {
    if size == 0 {
      assert Wrap(0 - 1) == SIZE_MODULUS - 1;
      assert Wrap(SIZE_MODULUS - 1 + 1) == 0;
    }
  }

  /**
   * For the derivative of the zero polynomial, `0 - 2` wraps to SIZE_MAX - 1
   * and the constructor asks for SIZE_MAX elements, more than any
   * `max_size()`: the source throws instead of returning the zero polynomial.
   */
  lemma DerivativeOfZeroPolynomialThrows(maxSize: nat)
    requires maxSize < SIZE_MODULUS - 1
    ensures DerivativeStorage(0, maxSize) == LengthError
  {
    assert Wrap(0 - 2) == SIZE_MODULUS - 2;
    assert Wrap(SIZE_MODULUS - 2 + 1) == SIZE_MODULUS - 1;
  }

  /**
   * For every non-empty operand the unguarded sizing agrees with the guarded
   * one: size one wraps to an empty vector, larger sizes give size - 1 zeros.
   */
  lemma DerivativeStorageOfNonEmpty(size: SizeT, maxSize: nat)
    requires 1 <= size <= maxSize
    ensures DerivativeStorage(size, maxSize) == Allocated(size - 1)
  {
    if size == 1 {
      assert Wrap(1 - 2) == SIZE_MODULUS - 1;
      assert Wrap(SIZE_MODULUS - 1 + 1) == 0;
    }
  }
}
