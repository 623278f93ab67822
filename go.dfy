/**
 * The pieces of Go's semantics that the relay's core leans on: fixed-width
 * integers (with their two's-complement wrap-around), bytes, and the
 * "value or error" shape every operation of the core returns.
 */
module Go {

  /** A Go `byte`. */
  type byte = x: int | 0 <= x < 0x100

  /** A Go `[]byte` (and a Go `string` used only as a byte container). */
  type Bytes = seq<byte>

  newtype int32 = x: int | -0x8000_0000 <= x < 0x8000_0000
  newtype int64 = x: int | -0x8000_0000_0000_0000 <= x < 0x8000_0000_0000_0000

  const MinInt32: int32 := -0x8000_0000
  const MaxInt32: int := 0x7fff_ffff
  const MaxInt64: int := 0x7fff_ffff_ffff_ffff
  const TwoTo64: int := 0x1_0000_0000_0000_0000

  /** Go's unary minus on an int32: in two's complement the most negative value is its own negation. */
  function Neg32(x: int32): (r: int32)
    ensures (r as int + x as int) % 0x1_0000_0000 == 0
    ensures x != MinInt32 ==> r as int == -(x as int)
  {
    if x == MinInt32 then x else -x
  }

  /** The int64 a Go addition produces: the mathematical value reduced modulo 2^64 into the int64 range. */
  function Wrap64(x: int): (r: int64)
    ensures (r as int - x) % TwoTo64 == 0
    ensures -0x8000_0000_0000_0000 <= x <= MaxInt64 ==> r as int == x
    ensures MaxInt64 < x < MaxInt64 + TwoTo64 ==> r as int == x - TwoTo64
  {
    ((x + 0x8000_0000_0000_0000) % TwoTo64 - 0x8000_0000_0000_0000) as int64
  }

  datatype Option<+T> = None | Some(value: T)

  /** The errors the core returns or passes on. */
  datatype Error =
    | UnmarshalError(reason: string)   // json.Unmarshal rejected its input
    | CorruptInputError                // base64 decoding met illegal data (the byte offset is not modelled)
    | TimeNotSetError                  // "the execution time is not set"
    | TransportError(reason: string)   // an error reported by the Kafka writer or the asynq client

  datatype Result<+T> = Ok(value: T) | Err(error: Error)
}
