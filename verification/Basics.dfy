/** What the components share: optional values, bytes, and words of 32 and 64 bits. */
module Basics {

  datatype Option<+T> = None | Some(value: T)

  type Byte = b: int | 0 <= b < 0x100

  const I32: int := 0x8000_0000
  const U32: int := 0x1_0000_0000
  const I64: int := 0x8000_0000_0000_0000
  const U64: int := 0x1_0000_0000_0000_0000

  type Word = w: int | 0 <= w < U64

  /** Addition of 64-bit words. */
  function Plus(x: Word, y: Word): Word {
    (x + y) % U64
  }

  lemma PlusIs(x: Word, y: Word)
    ensures Plus(x, y) == if x + y < U64 then x + y else x + y - U64
  {
  }

  predicate IsDigit(c: char) {
    '0' <= c <= '9'
  }
}
