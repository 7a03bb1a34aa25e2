/** The few pieces of the Kotlin/JVM and Swift runtimes the reader's code
    leans on: nullable values, thrown exceptions, bytes and 32-bit integers. */
module Runtime {

  /** A Kotlin `T?` / Swift `T?`: absent (null / nil) or present. */
  datatype Option<+T> = None | Some(value: T)

  /** What an exception looks like to a `catch` clause of the reader. Only
      the class matters: `IOException` (and its subclasses such as
      `EOFException`), any other `java.lang.Exception`, and `Error`s, which a
      `catch (e: Exception)` does not catch. */
  datatype Throwable =
    | IOException(message: string)
    | OtherException(kind: ExceptionKind, message: string)
    | OutOfMemoryError
  {
    /** True for everything a `catch (e: Exception)` clause catches. */
    predicate IsException() {
      !OutOfMemoryError?
    }
  }

  /** The non-IO exception classes the modelled code can raise itself; the
      oracles standing for library code use `Library`. */
  datatype ExceptionKind =
    | NumberFormat
    | NegativeArraySize
    | IndexOutOfBounds
    | IllegalArgument
    | NullPointer
    | Parse
    | Json    // org.json's `JSONException`
    | Library
    | Plain   // a bare `Exception("...")` thrown by the reader itself

  /** A computation that either returns a value or throws. */
  datatype Try<+T> = Ok(value: T) | Threw(error: Throwable)

  /** An unsigned byte, as `InputStream.read()` returns it. */
  type byte = x: int | 0 <= x < 256

  const TWO_POW_32: int := 0x1_0000_0000
  const INT_MIN: int := -0x8000_0000
  const INT_MAX: int := 0x7FFF_FFFF

  /** Kotlin `Int` arithmetic: the mathematical value reduced to 32-bit
      two's complement. */
  function Wrap32(x: int): (r: int)
    ensures INT_MIN <= r <= INT_MAX
    ensures (r - x) % TWO_POW_32 == 0
    ensures INT_MIN <= x <= INT_MAX ==> r == x
  {
    var m := x % TWO_POW_32;
    if m <= INT_MAX then m else m - TWO_POW_32
  }

  /** The Kotlin `Byte` that holds the unsigned byte `b`. */
  function Signed(b: byte): (r: int)
    ensures -128 <= r < 128
    ensures (r - b) % 256 == 0
  {
    if b < 128 then b else b - 256
  }
}
