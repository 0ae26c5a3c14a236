/**
  The C integer types of both converters. Values are kept as bounded integers;
  where the sources combine them with shifts and ORs of non-overlapping bit
  fields, the model uses the equal arithmetic (a shift by k is a multiplication
  or division by 2^k, an OR of disjoint fields is a sum) and proves the
  equality against the bit-vector expression next to each use.
*/
module Bytes {
  /** An unsigned 8-bit value (BYTE). */
  type Byte = x: int | 0 <= x < 0x100

  /** An unsigned 16-bit value (WORD). */
  type Word = x: int | 0 <= x < 0x1_0000
}
