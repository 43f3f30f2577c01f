/** Octets, as a Node.js `Buffer` and a GridFS chunk hold them. */
module Bytes {
  newtype byte = x: int | 0 <= x < 256
}
