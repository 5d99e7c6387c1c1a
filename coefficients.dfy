/**
 * Coefficient sequences of a dense univariate polynomial over `int`, in
 * ascending power: `s[i]` is the coefficient of x^i. This module is the
 * value-level view of `Polynomial<int>`: every operation of the class is
 * specified by one of the functions below, and the laws the polynomial
 * promises are proved about these functions.
 */
module Coefficients {

  /** The larger of two lengths (`std::max` on sizes). */
  function Max(a: nat, b: nat): nat
  {
    if a < b then b else a
  }

  /** The total read: the coefficient of x^i, zero past the stored length. */
  function At(s: seq<int>, i: nat): int
  {
    if i < |s| then s[i] else 0
  }

  /** Normal form: no trailing zero, so the zero polynomial is the empty sequence. */
  predicate Normalized(s: seq<int>)
  {
    s == [] || s[|s| - 1] != 0
  }

  /** `n` zero coefficients, as `std::vector<T>(n, T())` builds them. */
  function Zeros(n: nat): (r: seq<int>)
    ensures |r| == n
    ensures forall k :: 0 <= k < n ==> r[k] == 0
  {
    seq(n, _ => 0)
  }

  /**
   * Removal of trailing zeros, one `pop_back` at a time. The result is in
   * normal form, is a prefix of the input, and only zeros were removed, so
   * every read is preserved.
   */
  ghost function Trim(s: seq<int>): (r: seq<int>)
    ensures Normalized(r)
    ensures r <= s
    ensures forall k :: |r| <= k < |s| ==> s[k] == 0
    ensures forall i: nat :: At(r, i) == At(s, i)
    decreases |s|
  {
    if s != [] && s[|s| - 1] == 0 then Trim(s[..|s| - 1]) else s
  }

  /** Trimming changes nothing exactly when the sequence is already normalised. */
  lemma TrimFixesNormalized(s: seq<int>)
    ensures Trim(s) == s <==> Normalized(s)
  {
  }

  /** A second trim is a no-op. */
  lemma TrimIdempotent(s: seq<int>)
    ensures Trim(Trim(s)) == Trim(s)
  {
    TrimFixesNormalized(Trim(s));
  }

  /**
   * A normalised sequence is determined by its reads: two normalised
   * sequences that read the same at every index are equal. This is what makes
   * the normal form a canonical representation of the polynomial.
   */
  lemma NormalizedUnique(a: seq<int>, b: seq<int>)
    requires Normalized(a) && Normalized(b)
    requires forall i: nat :: At(a, i) == At(b, i)
    ensures a == b
  {
    // The last stored coefficient of each is non-zero, so it is stored in the other too.
    if a != [] {
      assert At(b, |a| - 1) == At(a, |a| - 1) != 0;
    }
    if b != [] {
      assert At(a, |b| - 1) == At(b, |b| - 1) != 0;
    }
    assert |a| == |b|;
    forall k | 0 <= k < |a|
      ensures a[k] == b[k]
    {
      assert At(a, k) == At(b, k);
    }
  }

  /** Trim(s) is the one normalised sequence that reads as `s` does. */
  lemma TrimUnique(s: seq<int>, r: seq<int>)
    requires Normalized(r)
    requires forall i: nat :: At(r, i) == At(s, i)
    ensures r == Trim(s)
  {
    NormalizedUnique(r, Trim(s));
  }

  /**
   * The coefficient vector after `expand(degree)`: zeros appended so that
   * index `degree` is stored; never shorter than before and not trimmed.
   */
  ghost function Expanded(s: seq<int>, degree: nat): (r: seq<int>)
    ensures |r| == Max(|s|, degree + 1)
    ensures s <= r
    ensures forall k :: |s| <= k < |r| ==> r[k] == 0
    ensures forall i: nat :: At(r, i) == At(s, i)
  {
    if degree >= |s| then s + Zeros(degree + 1 - |s|) else s
  }

  /** Expanding does not change the polynomial's normal form. */
  lemma TrimExpanded(s: seq<int>, degree: nat)
    ensures Trim(Expanded(s, degree)) == Trim(s)
  {
    NormalizedUnique(Trim(Expanded(s, degree)), Trim(s));
  }

  /**
   * The coefficient vector after `set(degree, value)`: grown to store
   * `degree`, written there, then trimmed. The index written reads the new
   * value, every other index reads as before.
   */
  ghost function Updated(s: seq<int>, degree: nat, value: int): (r: seq<int>)
    ensures Normalized(r)
    ensures At(r, degree) == value
    ensures forall j: nat :: j != degree ==> At(r, j) == At(s, j)
  {
    var grown := Expanded(s, degree);
    Trim(grown[degree := value])
  }

  /** Writing zero anywhere into the zero polynomial leaves it the zero polynomial. */
  lemma UpdateZeroWithZero(degree: nat)
    ensures Updated([], degree, 0) == []
  {
    NormalizedUnique(Updated([], degree, 0), []);
  }

  /** The coefficient vector of `a + b`. */
  ghost function AddCoeffs(a: seq<int>, b: seq<int>): (r: seq<int>)
    ensures Normalized(r)
    ensures |r| <= Max(|a|, |b|)
    ensures forall i: nat :: At(r, i) == At(a, i) + At(b, i)
  {
    Trim(seq(Max(|a|, |b|), i requires 0 <= i => At(a, i) + At(b, i)))
  }

  /** The coefficient vector of `a - b`. */
  ghost function SubCoeffs(a: seq<int>, b: seq<int>): (r: seq<int>)
    ensures Normalized(r)
    ensures |r| <= Max(|a|, |b|)
    ensures forall i: nat :: At(r, i) == At(a, i) - At(b, i)
  {
    Trim(seq(Max(|a|, |b|), i requires 0 <= i => At(a, i) - At(b, i)))
  }

  /** The coefficient vector of `a * scalar`. */
  ghost function ScaleCoeffs(a: seq<int>, scalar: int): (r: seq<int>)
    ensures Normalized(r)
    ensures |r| <= |a|
    ensures forall i: nat :: At(r, i) == At(a, i) * scalar
  {
    Trim(seq(|a|, i requires 0 <= i < |a| => a[i] * scalar))
  }

  /**
   * The coefficient vector of the derivative: the coefficient of x^i is
   * (i + 1) times the input's coefficient of x^(i+1); a constant or the zero
   * polynomial differentiates to the zero polynomial.
   */
  ghost function DerivCoeffs(a: seq<int>): (r: seq<int>)
    ensures Normalized(r)
    ensures |a| <= 1 ==> r == []
    ensures |a| >= 1 ==> |r| <= |a| - 1
    ensures forall i: nat :: At(r, i) == At(a, i + 1) * (i + 1)
  {
    if |a| <= 1 then []
    else Trim(seq(|a| - 1, i requires 0 <= i < |a| - 1 => a[i + 1] * (i + 1)))
  }

  /** Addition is commutative. */
  lemma AddCommutative(a: seq<int>, b: seq<int>)
    ensures AddCoeffs(a, b) == AddCoeffs(b, a)
  {
    NormalizedUnique(AddCoeffs(a, b), AddCoeffs(b, a));
  }

  /** Adding the zero polynomial gives the normal form of the other operand. */
  lemma AddZeroRight(a: seq<int>)
    ensures AddCoeffs(a, []) == Trim(a)
  {
    TrimUnique(a, AddCoeffs(a, []));
  }

  /** Subtracting a polynomial from itself gives the zero polynomial. */
  lemma SubSelf(a: seq<int>)
    ensures SubCoeffs(a, a) == []
  {
    NormalizedUnique(SubCoeffs(a, a), []);
  }

  /** Scaling by zero gives the zero polynomial. */
  lemma ScaleByZero(a: seq<int>)
    ensures ScaleCoeffs(a, 0) == []
  {
    NormalizedUnique(ScaleCoeffs(a, 0), []);
  }

  /** Scaling by one gives the normal form of the operand. */
  lemma ScaleByOne(a: seq<int>)
    ensures ScaleCoeffs(a, 1) == Trim(a)
  {
    TrimUnique(a, ScaleCoeffs(a, 1));
  }

  /** x^n over the integers. */
  ghost function Pow(x: int, n: nat): int
  {
    if n == 0 then 1 else x * Pow(x, n - 1)
  }

  /** The value at x: the sum of s[i] * x^i over the stored indices, accumulated from index 0 upward. */
  ghost function EvalSum(s: seq<int>, x: int): int
  {
    if s == [] then 0 else EvalSum(s[..|s| - 1], x) + s[|s| - 1] * Pow(x, |s| - 1)
  }

  /** Horner's rule: an independent definition of the value at x. */
  ghost function Horner(s: seq<int>, x: int): int
  {
    if s == [] then 0 else s[0] + x * Horner(s[1..], x)
  }

  /** The running-power sum peels off its lowest term as Horner's rule does. */
  lemma {:induction false} EvalSumHead(s: seq<int>, x: int)
    requires s != []
    ensures EvalSum(s, x) == s[0] + x * EvalSum(s[1..], x)
    decreases |s|
  {
    if |s| == 1 {
      assert s[..0] == [] && s[1..] == [];
    } else {
      var t := s[..|s| - 1];
      var z := s[|s| - 1];
      var n := |s|;
      EvalSumHead(t, x);
      assert t[0] == s[0];
      assert s[1..][..|s[1..]| - 1] == t[1..];
      assert s[1..][|s[1..]| - 1] == z;
      assert EvalSum(s[1..], x) == EvalSum(t[1..], x) + z * Pow(x, n - 2);
      assert Pow(x, n - 1) == x * Pow(x, n - 2);
      calc {
        EvalSum(s, x);
        EvalSum(t, x) + z * Pow(x, n - 1);
        s[0] + x * EvalSum(t[1..], x) + z * (x * Pow(x, n - 2));
        { assert z * (x * Pow(x, n - 2)) == x * (z * Pow(x, n - 2)); }
        s[0] + x * (EvalSum(t[1..], x) + z * Pow(x, n - 2));
      }
    }
  }

  /** The running-power sum and Horner's rule agree on every input. */
  lemma {:induction false} EvalSumIsHorner(s: seq<int>, x: int)
    ensures EvalSum(s, x) == Horner(s, x)
    decreases |s|
  {
    if s != [] {
      EvalSumHead(s, x);
      EvalSumIsHorner(s[1..], x);
    }
  }

  /** The value at zero is the constant coefficient. */
  lemma EvalAtZero(s: seq<int>)
    ensures EvalSum(s, 0) == At(s, 0)
  {
    EvalSumIsHorner(s, 0);
  }

  /** Trailing zeros do not change the value: a polynomial and its normal form evaluate alike. */
  lemma {:induction false} EvalTrim(s: seq<int>, x: int)
    ensures EvalSum(Trim(s), x) == EvalSum(s, x)
    decreases |s|
  {
    if s != [] && s[|s| - 1] == 0 {
      EvalTrim(s[..|s| - 1], x);
    }
  }
}
