/** Go's fixed-width integer types and byte strings, as the cache-key code uses them.
    A Go `string` is an immutable sequence of bytes, so it is modelled as `Bytes`. */
module GoTypes {

  type Byte = x: int | 0 <= x < 256
  type Bytes = seq<Byte>

  const MinInt64: int := -0x8000_0000_0000_0000
  const MaxInt64: int := 0x7fff_ffff_ffff_ffff

  type Int64 = x: int | MinInt64 <= x <= MaxInt64
  type Uint32 = x: int | 0 <= x < 0x1_0000_0000
  type Uint64 = x: int | 0 <= x < 0x1_0000_0000_0000_0000

  /** A Go pointer that may be nil. */
  datatype Option<+T> = None | Some(value: T)

  /** ASCII codes of the characters the key format uses. */
  const Underscore: Byte := 95  // '_'
  const Minus: Byte := 45       // '-'
  const Zero: Byte := 48        // '0'

  function Abs(x: int): nat { if x < 0 then -x else x }
}
