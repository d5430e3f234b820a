/** Cryptographic digests, taken as collision free. */
module Hashing {
  datatype Digest<T> = Digest(preimage: T)
}
