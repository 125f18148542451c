/** Shared vocabulary: optional results and the source's 64-bit signed integers. */
module Common {

  /** A value, or the reason there is none (an NGX_ERROR return, a NULL node). */
  datatype Option<+T> = None | Some(value: T) {
    predicate IsFailure() { None? }

    function PropagateFailure<U>(): Option<U>
      requires None?
    {
      None
    }

    function Extract(): T
      requires Some?
    {
      value
    }
  }

  /** An unsigned char. */
  type Byte = x: int | 0 <= x < 256

  const INT64_MAX: int := 0x7fff_ffff_ffff_ffff
  const INT64_MIN: int := -0x8000_0000_0000_0000

  predicate InInt64(n: int) {
    INT64_MIN <= n <= INT64_MAX
  }

  /** C division: truncates toward zero, unlike Dafny's Euclidean `/`. */
  function TruncDiv(a: int, b: int): (q: int)
    requires b > 0
    ensures a >= 0 ==> q * b <= a < q * b + b
    ensures a <= 0 ==> q * b - b < a <= q * b
  {
    if a >= 0 then a / b else -((-a) / b)
  }

  /** C remainder: takes the sign of the dividend. */
  function TruncRem(a: int, b: int): (r: int)
    requires b > 0
    ensures a == TruncDiv(a, b) * b + r
    ensures -b < r < b && (a >= 0 ==> r >= 0) && (a <= 0 ==> r <= 0)
  {
    a - TruncDiv(a, b) * b
  }
}
