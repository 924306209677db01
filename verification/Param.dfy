// Machine parameters: the range of 64-bit words and the size of a page.
module Param {

  const SIZE_T_RANGE := 0x1_0000_0000_0000_0000
  const PAGESIZE := 4096
}
