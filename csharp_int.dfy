/** The C# `int` semantics the filter depends on: the 32-bit two's-complement
    range, unchecked wrap-around of `+`, `*`, `++` and `<<`, the truncating
    remainder `%`, and `Math.Abs`, which throws on the one value it cannot
    negate. Values are kept as mathematical integers inside the `int` range. */
module CSharpInt {
  const MinInt32: int := -0x8000_0000
  const MaxInt32: int := 0x7FFF_FFFF
  const Modulus: int := 0x1_0000_0000

  predicate IsInt32(x: int) { MinInt32 <= x <= MaxInt32 }

  /** A value of C# type `int`. */
  type Int32 = x: int | MinInt32 <= x <= MaxInt32

  /** A non-negative C# `int`, such as an array length or a hash count. */
  type NatInt32 = x: int | 0 <= x <= MaxInt32

  /** Mathematical absolute value. */
  function Abs(x: int): nat { if x < 0 then -x else x }

  /** Unchecked C# arithmetic: the one `int` congruent to `x` modulo 2^32. */
  function Wrap(x: int): (r: Int32)
    ensures (x - r) % Modulus == 0
    ensures IsInt32(x) ==> r == x
  {
    var m := x % Modulus;
    if m <= MaxInt32 then m else m - Modulus
  }

  /** An `int` congruent to `x` modulo 2^32 is the wrapped value of `x`. */
  lemma WrapUnique(x: int, r: int)
    requires IsInt32(r) && (x - r) % Modulus == 0
    ensures r == Wrap(x)
  {
    var w := Wrap(x);
    var q := (x - r) / Modulus;
    var q' := (x - w) / Modulus;
    assert x - r == q * Modulus;
    assert x - w == q' * Modulus;
    assert w - r == (q - q') * Modulus;
  }

  /** Wrapping after every step, as `Count++` does, is the same as wrapping once. */
  lemma WrapAdd(a: int, b: int)
    ensures Wrap(Wrap(a) + b) == Wrap(a + b)
  {
    var w := Wrap(Wrap(a) + b);
    var q := (a - Wrap(a)) / Modulus;
    var q' := (Wrap(a) + b - w) / Modulus;
    assert a - Wrap(a) == q * Modulus;
    assert Wrap(a) + b - w == q' * Modulus;
    assert a + b - w == (q + q') * Modulus;
    WrapUnique(a + b, w);
  }

  /** `x++` on a C# `int`: one past `int.MaxValue` is `int.MinValue`. */
  function Increment(x: Int32): Int32
  {
    if x == MaxInt32 then MinInt32 else x + 1
  }

  /** `x++` is addition of one modulo 2^32. */
  lemma IncrementIsWrap(x: Int32)
    ensures Increment(x) == Wrap(x + 1)
  {
    if x == MaxInt32 {
      WrapUnique(x + 1, MinInt32);
    }
  }

  /** `x++` done `n` times. */
  function Increments(x: Int32, n: nat): Int32
  {
    if n == 0 then x else Increment(Increments(x, n - 1))
  }

  /** Incrementing `n` times adds `n` and wraps once. */
  lemma {:induction false} IncrementsAdd(x: Int32, n: nat)
    ensures Increments(x, n) == Wrap(x + n)
  {
    if n > 0 {
      IncrementsAdd(x, n - 1);
      IncrementIsWrap(Increments(x, n - 1));
      WrapAdd(x + (n - 1), 1);
    }
  }

  /** C#'s `a % b` on `int`: it truncates toward zero, so the remainder has
      the sign of the dividend (Dafny's `%` is Euclidean and never negative).
      Only positive divisors occur in the filter. */
  function TruncRem(a: int, b: int): (r: int)
    requires b > 0
    ensures Abs(r) == Abs(a) % b
    ensures a >= 0 ==> r >= 0
    ensures a <= 0 ==> r <= 0
  {
    if a >= 0 then a % b else -((-a) % b)
  }

  /** C#'s `Math.Abs` on `int`; it throws OverflowException on `int.MinValue`,
      whose negation is not an `int`. */
  function MathAbs(x: Int32): (r: Int32)
    requires x != MinInt32
    ensures r >= 0 && (r == x || r == -(x as int))
  {
    if x < 0 then -(x as int) else x
  }
}
