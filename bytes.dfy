/** The .NET `byte`: an unsigned 8-bit integer. */
module Bytes {

  type byte = x: int | 0 <= x < 256
}
