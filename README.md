# Polynomial<int>: a verified model of L1.cpp

L1.cpp defines one class template, `Polynomial<T>`. It is a dense
univariate polynomial that stores its coefficients in a `std::vector<T>`,
indexed by ascending power. This project models that class with `T`
instantiated as `int` and proves what the class promises:

- the trailing-zero normal form;
- the total coefficient read;
- the in-place updates `set`, `expand` and `shrink_to_fit`;
- pointwise addition, subtraction and scaling;
- evaluation by a running power of x;
- differentiation.

Files:

- `coefficients.dfy`, module `Coefficients`: the value-level view. Each
  operation is a function on the coefficient sequence, and the laws of the
  polynomial are lemmas about those functions. Among them: normal form,
  uniqueness of the normal form, commutativity, identities and agreement
  with Horner's rule.
- `polynomial.dfy`, module `Polynomials`: `class Polynomial`, with field
  `coefficients: seq<int>` standing for the vector. There is one member per
  modelled C++ member (the rest are under "Left out"). The mutating methods
  say what the new vector is and which reads did not change. The operators return a fresh object, are proved
  against the functions of `Coefficients`, and change neither operand (they
  have no `modifies` clause). `Scenarios` replays the example polynomials
  using the contracts alone. Examples: `{1,0,-3,4}` evaluates to 21 at 2 and
  differentiates to `{0,-6,12}`; `{0,0,0}` has size 0.
- `size_arithmetic.dfy`, module `SizeArithmetic`: the `size_t` degree
  arithmetic of the operators as written, with wrap-around modulo 2^64. The
  lemmas compute the length the source's result vector starts with. The
  class's guarded branches (`FromSeq([])`, or `OfDegree(n - 1)`, which
  holds `n` zeros) build the same length, except for the derivative of the
  zero polynomial, where the source throws.

Two places where the code does something a reader may not expect:

- The degree constructor (L1.cpp:14) stores `degree + 1` zeros and does not
  trim them. Only the vector constructor and `set` establish the normal form,
  so `Polynomial` has no class invariant. The arithmetic results are proved
  normalised.
- `evaluate` (L1.cpp:78-86) sums `c[i] * x^i` with a running power; it is not
  Horner's rule. The model specifies it by that sum (`EvalSum`). A lemma
  proves the sum equal to Horner's rule.

## Model

| member | source | states |
|---|---|---|
| Coefficients.Trim | L1.cpp:89-93 | removing trailing zeros gives a normalised prefix of the input; only zeros were removed, and every index reads as before |
| Coefficients.TrimFixesNormalized | L1.cpp:89-93 | trimming leaves a sequence unchanged exactly when it is already normalised (both directions) |
| Coefficients.TrimIdempotent | L1.cpp:89-93 | a second `shrink_to_fit` is a no-op |
| Coefficients.NormalizedUnique | L1.cpp:89-93 | two normalised coefficient vectors that read alike at every index are equal: the normal form is canonical |
| Coefficients.TrimUnique | L1.cpp:89-93 | the trimmed vector is the only normalised vector with the same reads as the input |
| Coefficients.Expanded | L1.cpp:96-100 | `expand(d)` gives length max(size, d + 1): the old prefix is kept, the new slots are zero, every read is preserved |
| Coefficients.TrimExpanded | L1.cpp:96-100 | expanding does not change the normal form |
| Coefficients.Updated | L1.cpp:40-46 | after `set(d, v)`, the vector is normalised, index d reads v, and every other index reads as before |
| Coefficients.UpdateZeroWithZero | L1.cpp:40-46 | writing zero at any index of the zero polynomial leaves it empty |
| Coefficients.AddCoeffs | L1.cpp:49-56 | the sum is normalised, no longer than the longer operand, and reads a[i] + b[i] at every index |
| Coefficients.SubCoeffs | L1.cpp:59-66 | the difference is normalised, no longer than the longer operand, and reads a[i] - b[i] at every index |
| Coefficients.ScaleCoeffs | L1.cpp:69-75 | the scaled vector is normalised, no longer than the operand, and reads a[i] * s at every index |
| Coefficients.DerivCoeffs | L1.cpp:103-109 | the derivative reads a[i+1] * (i+1) at every index i; it is normalised, at most size - 1 long, and empty for size at most 1 |
| Coefficients.AddCommutative | L1.cpp:49-56 | a + b and b + a are equal |
| Coefficients.AddZeroRight | L1.cpp:49-56 | adding the zero polynomial gives the normal form of the other operand |
| Coefficients.SubSelf | L1.cpp:59-66 | a - a is the zero polynomial (size 0) |
| Coefficients.ScaleByZero | L1.cpp:69-75 | scaling by 0 gives the zero polynomial |
| Coefficients.ScaleByOne | L1.cpp:69-75 | scaling by 1 gives the normal form of the operand |
| Coefficients.EvalSumHead | L1.cpp:78-86 | the running-power sum equals its lowest coefficient plus x times the sum of the rest |
| Coefficients.EvalSumIsHorner | L1.cpp:78-86 | the running-power sum equals Horner's rule for every sequence and point |
| Coefficients.EvalAtZero | L1.cpp:78-86 | the value at 0 is the coefficient of x^0 (zero for the zero polynomial) |
| Coefficients.EvalTrim | L1.cpp:78-86 | trailing zeros do not change the value at any point |
| Polynomials.Polynomial.OfDegree | L1.cpp:14 | the degree constructor stores exactly degree + 1 zeros and does not trim them |
| Polynomials.Polynomial.FromSeq | L1.cpp:17-19 | the vector constructor gives the trimmed input: normalised, with every read equal to the input's element or zero past its end |
| Polynomials.Polynomial.Get | L1.cpp:32-37 | `operator[]` is total: the stored coefficient below the size and zero at or beyond it; it reads the object and changes nothing |
| Polynomials.Polynomial.ShrinkToFit | L1.cpp:89-93 | the pop loop leaves the trimmed vector: normalised, a prefix of the old one, every read preserved |
| Polynomials.Polynomial.Set | L1.cpp:40-46 | the new vector is `Updated(old, d, v)`: normalised, index d reads v at any d, every other index reads as before |
| Polynomials.Polynomial.Expand | L1.cpp:96-100 | the new vector is `Expanded(old, d)`: size at least d + 1, old prefix kept, new slots zero, all reads preserved |
| Polynomials.Polynomial.Add | L1.cpp:49-56 | a fresh result equal to `AddCoeffs` of the operands: normalised, reading this[i] + other[i] everywhere; operands unchanged |
| Polynomials.Polynomial.Sub | L1.cpp:59-66 | a fresh result equal to `SubCoeffs` of the operands: normalised, reading this[i] - other[i] everywhere; operands unchanged |
| Polynomials.Polynomial.Scale | L1.cpp:69-75 | a fresh result equal to `ScaleCoeffs`: normalised, reading this[i] * s everywhere; operand unchanged |
| Polynomials.Polynomial.Evaluate | L1.cpp:78-86 | the running-power loop returns the sum of c[i] * x^i over the stored indices, equal to Horner's rule; at x = 0 it returns `operator[](0)`; the zero polynomial gives 0 |
| Polynomials.Polynomial.Derivative | L1.cpp:103-109 | a fresh result equal to `DerivCoeffs`: reads c[i+1] * (i+1), size at most size - 1, zero polynomial for size at most 1 |
| SizeArithmetic.SumStorageIsMaxSize | L1.cpp:50-51 | for any operand sizes the library can hold, `Polynomial result(max_degree - 1)` starts as max(a, b) zeros; for two empty operands the wrap-around gives the empty vector |
| SizeArithmetic.ScaleStorageIsSize | L1.cpp:70 | `Polynomial result(size - 1)` starts as `size` zeros, so size 0 wraps around to the empty vector |
| SizeArithmetic.DerivativeOfZeroPolynomialThrows | L1.cpp:104 | for size 0, `size - 2` wraps and the constructor asks for SIZE_MAX elements, so the vector throws `std::length_error` |
| SizeArithmetic.DerivativeStorageOfNonEmpty | L1.cpp:104 | for every non-empty operand the unguarded sizing gives size - 1 zeros (size 1 wraps to empty), as the guarded `Derivative` does |

## Findings

| source | as written | input that shows it | evidently intended | confidence | as-written member | corrected member |
|---|---|---|---|---|---|---|
| L1.cpp:104 | `Polynomial result(coefficients.size() - 2)` is computed in `size_t`: for an empty vector it wraps to SIZE_MAX - 1, and the constructor then asks for SIZE_MAX elements, which exceeds `max_size()` and throws `std::length_error` | `derivative()` of the zero polynomial (size 0), e.g. `Polynomial<int>(std::vector<int>{0}).derivative()` | the derivative of the zero polynomial is the zero polynomial | high, from the arithmetic; not executed | SizeArithmetic.DerivativeOfZeroPolynomialThrows | Polynomials.Polynomial.Derivative |

## Left out

- `print` (L1.cpp:112-118) and `input` (L1.cpp:121-141): console output and interactive stream parsing, with no contract beyond formatting.
- `main` (L1.cpp:145-161): a demo driver over `double`. Floating-point coefficients are not modelled; `T` is `int`. `Scenarios` replays the same example over `int`.
- The copy constructor and copy assignment (L1.cpp:22-29): deep copies of the vector. A `seq` field is already a value, and the self-assignment test compares addresses only.
- Generic `T`: only `int` is modelled. Unbounded Dafny integers stand for it, so overflow of `T` itself is not modelled.
- Polynomials.Polynomial.Set: the index is an unbounded `nat`. The `size_t` wrap of `degree + 1` at `degree == SIZE_MAX` is not modelled, and neither are allocation failures of `resize`.
- Polynomials.Polynomial.Expand: as for `Set`, the `size_t` wrap of `new_degree + 1` and allocation failures are not modelled.
- Polynomials.Polynomial.OfDegree: as for `Set`, the `size_t` wrap of `degree + 1` is not modelled. Its wrapped uses in the operators are modelled separately in `SizeArithmetic`.
- Polynomials.Polynomial.Derivative: for the zero polynomial it returns the zero polynomial, where the source throws (see Findings). For every other size it does what the source does.
