/** The signature interface: key derivation, signing and verification as functions. */
module Signatures {
  import opened ByteStrings

  datatype Scheme = Scheme(
    publicKey: int -> Result<Bytes>, sign: (Bytes, int) -> Result<Bytes>, verify: (Bytes, Bytes, Bytes) -> bool) {
    /** Keys and signatures have their widths, and what a secret signs its key verifies. */
    ghost predicate Correct() {
      forall secret: int, m: Bytes ::
        publicKey(secret).Ok? && sign(m, secret).Ok? ==>
          && |publicKey(secret).value| == 32 && |sign(m, secret).value| == 64
          && verify(m, publicKey(secret).value, sign(m, secret).value)
    }
  }
}
