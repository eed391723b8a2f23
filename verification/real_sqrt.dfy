/** The square root as the model uses it. Dafny has no square root on `real`, so every
    operation that takes one receives it as a parameter `sqrt`, and the facts about it are
    proved from the single property `IsSqrt`: on the non-negative reals it returns the
    non-negative root (what np.sqrt computes, in exact arithmetic). */
module RealSqrt {

  /** `sqrt` applied to `x`; the property below is stated on this name so that it is used
      only where a proof asks for it with `RootOf`, not on every root in sight. */
  function Root(sqrt: real -> real, x: real): real
  {
    sqrt(x)
  }

  ghost predicate IsSqrt(sqrt: real -> real)
  {
    forall x: real {:trigger Root(sqrt, x)} :: 0.0 <= x ==> 0.0 <= Root(sqrt, x) && Root(sqrt, x) * Root(sqrt, x) == x
  }

  /** The defining property of the root at one argument. */
  lemma RootOf(sqrt: real -> real, x: real)
    requires IsSqrt(sqrt)
    requires 0.0 <= x
    ensures 0.0 <= sqrt(x) && sqrt(x) * sqrt(x) == x
  {
    assert Root(sqrt, x) == sqrt(x);
  }

  /** Two non-negative reals with equal squares are equal. */
  lemma SquareInjective(a: real, b: real)
    requires 0.0 <= a && 0.0 <= b
    requires a * a == b * b
    ensures a == b
  {
    if a + b != 0.0 {
      assert a - b == (a * a - b * b) / (a + b);
    }
  }

  /** The root of a square is the number itself. */
  lemma SqrtOfSquare(sqrt: real -> real, y: real)
    requires IsSqrt(sqrt)
    requires 0.0 <= y
    ensures sqrt(y * y) == y
  {
    var r := sqrt(y * y);
    RootOf(sqrt, y * y);
    SquareInjective(r, y);
  }

  lemma SqrtZero(sqrt: real -> real)
    requires IsSqrt(sqrt)
    ensures sqrt(0.0) == 0.0
  {
    SqrtOfSquare(sqrt, 0.0);
  }

  /** The root is monotone on the non-negative reals. */
  lemma SqrtMonotone(sqrt: real -> real, x: real, y: real)
    requires IsSqrt(sqrt)
    requires 0.0 <= x <= y
    ensures sqrt(x) <= sqrt(y)
  {
    var a, b := sqrt(x), sqrt(y);
    RootOf(sqrt, x);
    RootOf(sqrt, y);
    if a + b != 0.0 {
      var d := a + b;
      assert d > 0.0;
      assert a - b == (x - y) / d;
      assert x - y <= 0.0;
      assert (x - y) / d <= 0.0;
    }
  }

  /** A lower bound on the argument gives a lower bound on the root. */
  lemma SqrtAtLeast(sqrt: real -> real, x: real, b: real)
    requires IsSqrt(sqrt)
    requires 0.0 <= b && b * b <= x
    ensures b <= sqrt(x)
  {
    SqrtMonotone(sqrt, b * b, x);
    SqrtOfSquare(sqrt, b);
  }

  /** A non-negative factor whose square multiplies the argument comes out of the root. */
  lemma SqrtScale(sqrt: real -> real, k: real, x: real)
    requires IsSqrt(sqrt)
    requires 0.0 <= k && 0.0 <= x
    ensures sqrt(k * k * x) == k * sqrt(x)
  {
    var s := sqrt(x);
    RootOf(sqrt, x);
    var y := k * s;
    assert y * y == k * k * x;
    SqrtOfSquare(sqrt, y);
    calc {
      sqrt(k * k * x);
      sqrt(y * y);
      y;
    }
  }
}
