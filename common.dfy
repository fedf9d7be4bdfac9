/** Basic value types shared by the byte-level readers and the section model. */
module Common {

  /** One byte of a file or buffer, as an unsigned value. */
  type Byte = x: int | 0 <= x < 0x100

  /** Qt's fixed-width unsigned integers. */
  type UInt16 = x: int | 0 <= x < 0x1_0000
  type UInt32 = x: int | 0 <= x < 0x1_0000_0000
  type UInt64 = x: int | 0 <= x < 0x1_0000_0000_0000_0000

  /** A signed C `char` (the model takes `char` to be signed, as on the usual targets). */
  type Int8 = x: int | -0x80 <= x < 0x80

  datatype Option<+T> = None | Some(value: T)

  /** The signed `char` that has the same bit pattern as byte `b`. */
  function SignedChar(b: Byte): (c: Int8)
    ensures 0 <= c ==> c == b
    ensures c < 0 ==> c + 0x100 == b
  {
    if b < 0x80 then b else b - 0x100
  }
}
