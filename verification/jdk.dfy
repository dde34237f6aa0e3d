/**
 * The few pieces of the Java platform that the adaptor code leans on, stated as
 * values: null as `None`, thrown exceptions as `Failure`, and Java's fixed-width
 * integer arithmetic written out explicitly.
 */
module Jdk {

  /** A Java reference that may be null. */
  datatype Option<+T> = None | Some(value: T)

  /** The exceptions the modelled code throws or lets escape. */
  datatype Exception =
    | IllegalArgument(message: string)
    | IllegalState(cause: Exception)
    | NullPointer
    | StringIndexOutOfBounds
    | UnsupportedEncoding(charsetName: string)
    | UnsupportedOperation

  /** A value returned normally, or the exception thrown instead. */
  datatype Result<+T> = Success(value: T) | Failure(error: Exception)

  /** Java `int`. */
  newtype Int32 = x: int | -0x8000_0000 <= x < 0x8000_0000

  /** Java `long`. */
  newtype Int64 = x: int | -0x8000_0000_0000_0000 <= x < 0x8000_0000_0000_0000

  /** The `int` that Java's two's-complement arithmetic leaves of the mathematical value `x`. */
  function WrapInt32(x: int): (r: Int32)
    ensures (r as int - x) % 0x1_0000_0000 == 0
    ensures -0x8000_0000 <= x < 0x8000_0000 ==> r as int == x
  {
    var m := x % 0x1_0000_0000;
    if m < 0x8000_0000 then m as Int32 else (m - 0x1_0000_0000) as Int32
  }

  /** The `long` that Java's two's-complement arithmetic leaves of the mathematical value `x`. */
  function WrapInt64(x: int): (r: Int64)
    ensures (r as int - x) % 0x1_0000_0000_0000_0000 == 0
    ensures -0x8000_0000_0000_0000 <= x < 0x8000_0000_0000_0000 ==> r as int == x
  {
    var m := x % 0x1_0000_0000_0000_0000;
    if m < 0x8000_0000_0000_0000 then m as Int64 else (m - 0x1_0000_0000_0000_0000) as Int64
  }

  /** `String.hashCode`: h = 31 * h + c over the characters, in `int` arithmetic. */
  function StringHash(s: string): Int32
  {
    if s == [] then 0 else WrapInt32(31 * StringHash(s[..|s| - 1]) as int + s[|s| - 1] as int)
  }

  /** `Boolean.toString`. */
  function BoolText(b: bool): string
  {
    if b then "true" else "false"
  }

  /** `Boolean.hashCode`. */
  function BoolHash(b: bool): Int32
  {
    if b then 1231 else 1237
  }
}
