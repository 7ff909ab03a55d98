/** The limits of the reader on integer parts. */
module Limits {
  import opened Bytes
  import opened Decimal

  /** huge(minus, digits): the double the reader computed from these leading digits is at
      least 1E307. Every result holds for every such function, so none depends on rounding. */
  type Rounding = (bool, seq<byte>) -> bool

  function Max32(minus: bool): nat { if minus then 0x8000_0000 else 0xFFFF_FFFF }

  function Max64(minus: bool): nat { if minus then 0x8000_0000_0000_0000 else 0xFFFF_FFFF_FFFF_FFFF }

  /** Another digit follows the first j digits, which overflow 64 bits with it, and the double
      computed from those j digits is too big. */
  predicate Overlong(huge: Rounding, minus: bool, digits: seq<byte>, j: nat) {
    0 < j < |digits| && Val(digits[..j + 1]) > Max64(minus) && huge(minus, digits[..j])
  }

  predicate TooHuge(huge: Rounding, minus: bool, digits: seq<byte>) {
    exists j: nat | j < |digits| :: Overlong(huge, minus, digits, j)
  }
}
