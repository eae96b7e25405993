/** Value types shared by the whole codec. */
module Types {

  /** A raw input symbol: one 8-bit byte. */
  type Byte = x: int | 0 <= x < 256

  const U64_MAX: int := 0xFFFF_FFFF_FFFF_FFFF

  /** The 64-bit unsigned counter of a frequency-table slot. */
  type U64 = x: int | 0 <= x <= 0xFFFF_FFFF_FFFF_FFFF

  datatype Option<T> = None | Some(value: T)

  /** The codec's two error cases (the program reports them as strings). */
  datatype Error =
    | EmptyFrequencyTable
    | DecodedLengthMismatch(expected: nat, got: nat)

  datatype Result<T> = Ok(value: T) | Err(error: Error)
}
