/** Bytes of the old content, the new content and the revision script, and the
    ASCII bytes the revision format gives a meaning to. */
module Bytes {

  /** A `char` of the C++ strings, read as an unsigned byte. */
  type Byte = b: int | 0 <= b < 256

  const HASH: Byte := 35       // '#', tag of a copy instruction
  const PLUS: Byte := 43       // '+', tag of a literal instruction
  const COMMA: Byte := 44      // ',', separates offset and length
  const SLASH: Byte := 47      // '/', default literal delimiter
  const ZERO: Byte := 48       // '0'
  const SEMICOLON: Byte := 59  // ';', alternate literal delimiter

  /** `isdigit` on a byte. */
  predicate IsDigit(b: Byte) {
    ZERO <= b <= ZERO + 9
  }

  datatype Option<T> = None | Some(value: T)
}
