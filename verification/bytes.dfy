/** Raw bytes. The unpacker reads the whole packaged executable into a
    `Vec<u8>` and works on slices of it; here a byte is an integer in
    0..255 and a binary is a `seq<byte>`. */
module Bytes {

  type byte = x: int | 0 <= x < 256
}
