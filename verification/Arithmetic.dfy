/** The integer operators of C++ that differ from those of Dafny. */
module Arithmetic {

  /** Division toward zero. */
  function TruncDiv(a: int, b: int): int
    requires 0 < b
  {
    if 0 <= a then a / b else -((-a) / b)
  }
}
