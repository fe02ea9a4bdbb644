/** Types and arithmetic facts shared by every part of the snow storm model. */
module Common {

  /** An unsigned 8-bit value (C#'s `byte`). */
  type byte = b: int | 0 <= b < 256

  /** C#'s `int.MaxValue`, used as the "no index" marker of the flake pool. */
  const IntMax: int := 0x7fff_ffff

  /** An integer grid point (System.Drawing.Point). */
  datatype Point = Point(x: int, y: int)

  datatype Option<T> = None | Some(value: T)

  /** The exceptions the modelled code can raise. */
  datatype Error =
    | OutOfRange          // explicit bounds check failed (System.Exception in GetPixel/SetPixel)
    | UnsupportedFormat   // NotImplementedException for a pixel format or operation
    | LengthMismatch      // the two colour arrays of ChangeColors differ in length
    | DivideByZero        // integer division by zero (DrawImage with both alphas 0)
    | IndexOutOfRange     // an array access past the end of the pixel array
    | InvalidArgument     // ArgumentException
    | Overflow            // OverflowException: an array of negative length
    | NullReference       // a null list dereferenced (a rotation-table cell never filled)

  /** A call that either completes or throws. */
  datatype Outcome = Pass | Fail(error: Error)

  /** A call that either returns a value or throws. */
  datatype Result<T> = Ok(value: T) | Err(error: Error)

  /** Saturates an integer into the byte range, as the channel shifts do. */
  function Clamp(v: int): (r: byte)
    ensures v < 0 ==> r == 0
    ensures v > 255 ==> r == 255
    ensures 0 <= v <= 255 ==> r == v
  {
    if v < 0 then 0 else if v > 255 then 255 else v
  }

  lemma MulAtLeast(a: int, b: int)
    requires a >= 1 && b > 0
    ensures a * b >= b
  {
    assert a * b == (a - 1) * b + b;
    assert (a - 1) * b >= 0;
  }

  /** Euclidean division has exactly one quotient and remainder. */
  lemma DivModUnique(y: int, b: int, q: int, r: int)
    requires b > 0 && 0 <= r < b && y == q * b + r
    ensures y / b == q && y % b == r
  {
    var q', r' := y / b, y % b;
    assert y == q' * b + r';
    assert q * b - q' * b == (q - q') * b;
    assert (q - q') * b == r' - r;
    if q > q' {
      MulAtLeast(q - q', b);
    } else if q < q' {
      MulAtLeast(q' - q, b);
    }
  }

  lemma MulAddMod(m: int, b: int, d: int)
    requires b > 0 && 0 <= d < b
    ensures (m * b + d) % b == d && (m * b + d) / b == m
  {
    DivModUnique(m * b + d, b, m, d);
  }
}
