/** The few Java-language notions the queue's contract mentions: `int` range,
    `null`, the unchecked exceptions it throws, and `Math.min`. */
module Java {

  const IntMin: int := -0x8000_0000
  const IntMax: int := 0x7fff_ffff

  /** True if x fits a Java `int`. */
  predicate IsInt(x: int) {
    IntMin <= x <= IntMax
  }

  /** A reference that may be `null`. */
  datatype Nullable<T> = Null | NonNull(value: T)

  datatype Exception =
    | NullPointerException
    | IllegalArgumentException
    | NoSuchElementException

  /** Either a normal return or a thrown exception. */
  datatype Result<T> = Ok(value: T) | Throws(exception: Exception)

  function Min(a: int, b: int): int {
    if a <= b then a else b
  }

  function Max(a: int, b: int): int {
    if a <= b then b else a
  }
}
