/**
 * The class `Polynomial<T>` of L1.cpp with `T` instantiated as `int`: a
 * dense univariate polynomial whose coefficient vector, in ascending power,
 * is updated in place by `shrink_to_fit`, `set` and `expand`. The arithmetic
 * operators build a fresh result through repeated `set` and never change
 * their operands. Every method is specified by a function of module
 * Coefficients on the coefficient vector.
 */
module Polynomials {
  import opened Coefficients

  class Polynomial {
    /** `std::vector<T> coefficients`: index i holds the coefficient of x^i. */
    var coefficients: seq<int>

    /** `Polynomial(size_t degree)`: degree + 1 zero coefficients, not trimmed. */
    constructor OfDegree(degree: nat)
      ensures coefficients == Zeros(degree + 1)
    {
      coefficients := Zeros(degree + 1);
    }

    /** `Polynomial(const std::vector<T>&)`: a copy of the vector, then trimmed. */
    constructor FromSeq(coeffs: seq<int>)
      ensures coefficients == Trim(coeffs)
      ensures Normalized(coefficients)
      ensures forall i: nat :: Get(i) == At(coeffs, i)
    {
      coefficients := coeffs;
      new;
      ShrinkToFit();
    }

    /** `operator[]`: the stored coefficient of x^i, or zero past the stored length. */
    function Get(i: nat): (r: int)
      reads this
      ensures i < |coefficients| ==> r == coefficients[i]
      ensures i >= |coefficients| ==> r == 0
    {
      At(coefficients, i)
    }

    /** `shrink_to_fit`: pops trailing zeros until the vector is normalised. */
    method ShrinkToFit()
      modifies this
      ensures coefficients == Trim(old(coefficients))
      ensures Normalized(coefficients)
      ensures coefficients <= old(coefficients)
      ensures forall i: nat :: Get(i) == old(Get(i))
    {
      while coefficients != [] && coefficients[|coefficients| - 1] == 0
        invariant Trim(coefficients) == Trim(old(coefficients))
        decreases |coefficients|
      {
        coefficients := coefficients[..|coefficients| - 1];
      }
      TrimFixesNormalized(coefficients);
    }

    /** `set`: grows the vector to store `degree`, writes `value` there, then trims. */
    method Set(degree: nat, value: int)
      modifies this
      ensures coefficients == Updated(old(coefficients), degree, value)
      ensures Normalized(coefficients)
      ensures Get(degree) == value
      ensures forall j: nat :: j != degree ==> Get(j) == old(Get(j))
    {
      if degree >= |coefficients| {
        coefficients := coefficients + Zeros(degree + 1 - |coefficients|);
      }
      coefficients := coefficients[degree := value];
      ShrinkToFit();
    }

    /** `expand`: grows the vector with zeros so that `newDegree` is stored; never shrinks, never trims. */
    method Expand(newDegree: nat)
      modifies this
      ensures coefficients == Expanded(old(coefficients), newDegree)
      ensures |coefficients| >= newDegree + 1
      ensures old(coefficients) <= coefficients
      ensures forall k :: |old(coefficients)| <= k < |coefficients| ==> coefficients[k] == 0
      ensures forall i: nat :: Get(i) == old(Get(i))
    {
      if newDegree >= |coefficients| {
        coefficients := coefficients + Zeros(newDegree + 1 - |coefficients|);
      }
    }

    /** `operator+`: the pointwise sum, normalised; neither operand changes. */
    method Add(other: Polynomial) returns (result: Polynomial)
      ensures fresh(result)
      ensures result.coefficients == AddCoeffs(coefficients, other.coefficients)
      ensures Normalized(result.coefficients)
      ensures forall i: nat :: result.Get(i) == Get(i) + other.Get(i)
    {
      var maxDegree := Max(|coefficients|, |other.coefficients|);
      // `max_degree - 1` wraps for two empty operands and the constructor then
      // stores no coefficient; the empty vector is built explicitly here.
      if maxDegree == 0 {
        result := new Polynomial.FromSeq([]);
      } else {
        result := new Polynomial.OfDegree(maxDegree - 1);
      }
      for i := 0 to maxDegree
        invariant i > 0 || maxDegree == 0 ==> Normalized(result.coefficients)
        invariant forall j: nat :: result.Get(j) == if j < i then Get(j) + other.Get(j) else 0
      {
        result.Set(i, Get(i) + other.Get(i));
      }
      forall j: nat
        ensures At(result.coefficients, j) == At(AddCoeffs(coefficients, other.coefficients), j)
      {
        assert result.Get(j) == Get(j) + other.Get(j);
      }
      NormalizedUnique(result.coefficients, AddCoeffs(coefficients, other.coefficients));
    }

    /** `operator-`: the pointwise difference, normalised; neither operand changes. */
    method Sub(other: Polynomial) returns (result: Polynomial)
      ensures fresh(result)
      ensures result.coefficients == SubCoeffs(coefficients, other.coefficients)
      ensures Normalized(result.coefficients)
      ensures forall i: nat :: result.Get(i) == Get(i) - other.Get(i)
    {
      var maxDegree := Max(|coefficients|, |other.coefficients|);
      if maxDegree == 0 {
        result := new Polynomial.FromSeq([]);
      } else {
        result := new Polynomial.OfDegree(maxDegree - 1);
      }
      for i := 0 to maxDegree
        invariant i > 0 || maxDegree == 0 ==> Normalized(result.coefficients)
        invariant forall j: nat :: result.Get(j) == if j < i then Get(j) - other.Get(j) else 0
      {
        result.Set(i, Get(i) - other.Get(i));
      }
      forall j: nat
        ensures At(result.coefficients, j) == At(SubCoeffs(coefficients, other.coefficients), j)
      {
        assert result.Get(j) == Get(j) - other.Get(j);
      }
      NormalizedUnique(result.coefficients, SubCoeffs(coefficients, other.coefficients));
    }

    /** `operator*` by a scalar: every coefficient multiplied, normalised; the operand does not change. */
    method Scale(scalar: int) returns (result: Polynomial)
      ensures fresh(result)
      ensures result.coefficients == ScaleCoeffs(coefficients, scalar)
      ensures Normalized(result.coefficients)
      ensures forall i: nat :: result.Get(i) == Get(i) * scalar
    {
      // `size - 1` wraps for the zero polynomial; built explicitly as empty.
      if |coefficients| == 0 {
        result := new Polynomial.FromSeq([]);
      } else {
        result := new Polynomial.OfDegree(|coefficients| - 1);
      }
      for i := 0 to |coefficients|
        invariant i > 0 || |coefficients| == 0 ==> Normalized(result.coefficients)
        invariant forall j: nat :: result.Get(j) == if j < i then coefficients[j] * scalar else 0
      {
        result.Set(i, coefficients[i] * scalar);
      }
      forall j: nat
        ensures At(result.coefficients, j) == At(ScaleCoeffs(coefficients, scalar), j)
      {
        assert result.Get(j) == Get(j) * scalar;
      }
      NormalizedUnique(result.coefficients, ScaleCoeffs(coefficients, scalar));
    }

    /** `evaluate`: the sum of coefficients[i] * x^i, with a running power of x. */
    method Evaluate(x: int) returns (r: int)
      ensures r == EvalSum(coefficients, x)
      ensures r == Horner(coefficients, x)
      ensures x == 0 ==> r == Get(0)
      ensures coefficients == [] ==> r == 0
    {
      r := 0;
      var powerOfX := 1;
      for i := 0 to |coefficients|
        invariant r == EvalSum(coefficients[..i], x)
        invariant powerOfX == Pow(x, i)
      {
        assert coefficients[..i + 1][..i] == coefficients[..i];
        r := r + coefficients[i] * powerOfX;
        powerOfX := powerOfX * x;
      }
      assert coefficients[..|coefficients|] == coefficients;
      EvalSumIsHorner(coefficients, x);
      EvalAtZero(coefficients);
    }

    /**
     * `derivative`: coefficient i of the result is (i + 1) times coefficient
     * i + 1 of this polynomial. A constant or the zero polynomial gives the
     * zero polynomial; the source's `size - 2` is guarded for sizes below 2.
     */
    method Derivative() returns (result: Polynomial)
      ensures fresh(result)
      ensures result.coefficients == DerivCoeffs(coefficients)
      ensures Normalized(result.coefficients)
      ensures |coefficients| <= 1 ==> result.coefficients == []
      ensures |coefficients| >= 1 ==> |result.coefficients| <= |coefficients| - 1
      ensures forall i: nat :: result.Get(i) == Get(i + 1) * (i + 1)
    {
      if |coefficients| <= 1 {
        result := new Polynomial.FromSeq([]);
      } else {
        result := new Polynomial.OfDegree(|coefficients| - 2);
        for i := 1 to |coefficients|
          invariant i > 1 ==> Normalized(result.coefficients)
          invariant forall j: nat :: result.Get(j) == if j + 1 < i then Get(j + 1) * (j + 1) else 0
        {
          result.Set(i - 1, coefficients[i] * i);
        }
        forall j: nat
          ensures At(result.coefficients, j) == At(DerivCoeffs(coefficients), j)
        {
          assert result.Get(j) == Get(j + 1) * (j + 1);
        }
        NormalizedUnique(result.coefficients, DerivCoeffs(coefficients));
      }
    }
  }

  /**
   * Worked examples through the contracts: the polynomial from `main`,
   * `{0,0,0}`, `set(4, 0)` on it, and `{1,2} + {1,-2}`.
   */
  method Scenarios()
  {
    var p := new Polynomial.FromSeq([1, 0, -3, 4]);
    assert p.coefficients == [1, 0, -3, 4];
    var value := p.Evaluate(2);
    assert value == 21;
    var dp := p.Derivative();
    assert dp.coefficients == [0, -6, 12];

    var z := new Polynomial.FromSeq([0, 0, 0]);
    assert |z.coefficients| == 0 && z.Get(5) == 0;
    z.Set(4, 0);
    assert z.coefficients == [];

    var a := new Polynomial.FromSeq([1, 2]);
    var b := new Polynomial.FromSeq([1, -2]);
    var sum := a.Add(b);
    assert sum.Get(0) == 2 && sum.Get(1) == 0;
    assert |sum.coefficients| == 1;
    assert sum.coefficients == [2];
  }
}
