/** The Java notions the configuration reader relies on: the 64-bit `long`
    and the exceptions its calls can raise. */
module JavaTypes {

  const MinLong: int := -0x8000_0000_0000_0000
  const MaxLong: int := 0x7fff_ffff_ffff_ffff

  /** A Java `long`: a signed 64-bit integer. */
  type Long = x: int | MinLong <= x <= MaxLong

  /** What a call may throw. Only `IOException` is checked and caught by the
      loaders; `NumberFormatException` is what `Long.parseLong` throws on a
      property that is not a number, and `Unchecked` stands for every other
      runtime exception (a malformed S3 URI, an S3 client or service error). */
  datatype Exception =
    | IOException(message: string)
    | NumberFormatException(input: string)
    | Unchecked(message: string)
}
