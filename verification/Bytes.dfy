/** The bytes of the wire and the constants of the frame format. */
module Bytes {
  type byte = bv8

  const SEPARATOR_BYTE: byte := 0xFF
  const SEPARATOR_POST_BYTE: byte := 0x55
  const FRAME_SEPARATORS_COUNT := 2
  const FRAME_HEADER_SIZE := 10
  const PURE_HEADER_SIZE := 8
  const MAX_FRAME_SIZE := 0xF1

  const SEPARATORS: seq<byte> := [SEPARATOR_BYTE, SEPARATOR_BYTE]

  datatype Option<+T> = None | Some(value: T)
}
