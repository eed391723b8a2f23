/** Failure-carrying wrappers shared by the rugosity model, and the outcome of a
    float64 division, which numpy returns instead of raising when the divisor is zero. */
module Base {

  datatype Option<T> = None | Some(value: T)

  datatype Result<T, E> = Ok(value: T) | Err(error: E)

  /** What a numpy float64 division yields: a finite value, an infinity, or NaN. */
  datatype Quotient = Finite(value: real) | PosInfinity | NegInfinity | NotANumber

  /** `num / den` on float64 values (exact arithmetic when `den` is non-zero):
      a zero divisor gives an infinity of the numerator's sign, or NaN for 0/0. */
  function FloatDiv(num: real, den: real): (q: Quotient)
    ensures q.Finite? <==> den != 0.0
    ensures q.Finite? ==> q.value * den == num
    ensures q.NotANumber? <==> den == 0.0 && num == 0.0
    ensures q.PosInfinity? <==> den == 0.0 && num > 0.0
  {
    if den != 0.0 then Finite(num / den)
    else if num > 0.0 then PosInfinity
    else if num < 0.0 then NegInfinity
    else NotANumber
  }

  /** A quotient x / y of a numerator at least its positive denominator is at least 1. */
  lemma QuotientAtLeastOne(q: real, x: real, y: real)
    requires 0.0 < y <= x && q * y == x
    ensures 1.0 <= q
  {
    assert (q - 1.0) * y == x - y;
    assert 0.0 <= (q - 1.0) * y;
  }

  function Max(a: int, b: int): int
  {
    if a < b then b else a
  }

  function Abs(a: int): nat
  {
    if a < 0 then -a else a
  }
}
