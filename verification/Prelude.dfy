/** Sum types shared by every component. */
module Prelude {

  /** A Go pointer to a value that is never written through: nil or a value. */
  datatype Option<+T> = None | Some(value: T)

  /** A Go `(value, error)` pair. */
  datatype Result<+T, +E> = Ok(value: T) | Err(error: E)

  function Min(a: int, b: int): (r: int)
    ensures r <= a && r <= b && (r == a || r == b)
  {
    if a <= b then a else b
  }

  /** The conversion `int32(n)` keeps the low 32 bits. */
  function ToInt32(n: int): (r: int)
    ensures -0x8000_0000 <= r < 0x8000_0000 && (n - r) % 0x1_0000_0000 == 0
  {
    (n + 0x8000_0000) % 0x1_0000_0000 - 0x8000_0000
  }
}
