/** Bytes, 32-bit wrap-around and the result codes shared by every component. */
module Bytes {

  type byte = b: int | 0 <= b < 256
  type bytes = seq<byte>
  type uint16 = w: int | 0 <= w < 0x1_0000
  type uint32 = w: int | 0 <= w < 0x1_0000_0000

  const TWO_32: int := 0x1_0000_0000

  /** One more than the largest value a variable byte integer can carry. */
  const VARINT_LIMIT: int := 0x1000_0000

  const NUL: byte := 0x00
  const HASH: byte := 0x23
  const DOLLAR: byte := 0x24
  const PLUS: byte := 0x2B
  const SLASH: byte := 0x2F

  datatype Option<T> = None | Some(value: T)

  /** The MOSQ_ERR_* codes the modelled functions return. */
  datatype Rc =
    | Success
    | Inval
    | Protocol
    | NoConn
    | ConnLost
    | Errno
    | NotFound
    | PayloadSize
    | MalformedPacket
    | MalformedUtf8
    | DuplicateProperty
    | OversizePacket
    | ConnRefused
    | Nomem
    | NoSubscribers

  /** Unsigned 32-bit addition and subtraction, with the wrap-around of C. */
  function Add32(a: uint32, b: uint32): uint32 {
    if a + b < TWO_32 then a + b else a + b - TWO_32
  }

  function Sub32(a: uint32, b: uint32): uint32 {
    if b <= a then a - b else a - b + TWO_32
  }
}
