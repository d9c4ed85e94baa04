/**
  Fixed-width unsigned integers of the C code, as bounded integers. Every
  wrap-around and every narrowing store is written out where it happens.
*/
module Words {

  /** uint16_t */
  newtype uint16 = x: int | 0 <= x < 0x1_0000

  /** uint32_t */
  newtype uint32 = x: int | 0 <= x < 0x1_0000_0000
}
