/** Characters as the C code sees them: `char` is a signed byte and strings end at NUL. */
module Bytes {

  type Byte = b: int | -128 <= b < 128

  const NUL: Byte := 0
  const MAX_BYTE: Byte := 127

  /** The character at `p` of a NUL-terminated text. */
  function At(text: seq<Byte>, p: nat): Byte {
    if p < |text| then text[p] else NUL
  }

  predicate NulFree(w: seq<Byte>) {
    forall i | 0 <= i < |w| :: w[i] != NUL
  }
}
