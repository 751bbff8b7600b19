/** Octets, as Node's `Buffer` holds them. */
module Bytes {

  type Byte = bv8
}
