/** Bytes and their SHA-256 digests. */
module Digests {
  type Bytes = seq<int>

  /** SHA-256 as an injective function: a digest of some bytes, or any other text. */
  datatype Digest = Sha256(content: Bytes) | OtherText(text: string)
}
