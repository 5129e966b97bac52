/** Parameters all Dilithium levels share (params.h). */
module Dilithium {

  const N: int := 256
  const Q: int := 8380417
}
