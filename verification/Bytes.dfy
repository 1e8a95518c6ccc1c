/** The byte type shared by the codecs and the streams. */
module Bytes {

  type Byte = x: int | 0 <= x < 256 witness 0

  const NUL: Byte := '\0' as int
  const TAB: Byte := '\t' as int
  const LF: Byte := '\n' as int
  const CR: Byte := '\r' as int
  const SPACE: Byte := ' ' as int
}
