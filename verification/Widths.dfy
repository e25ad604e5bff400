/** The sizes of the machine's unsigned words, and what is left of a number in them. */
module Widths {
  const U32: nat := 0x1_0000_0000
  const U64: nat := 0x1_0000_0000_0000_0000

  function Wrap32(n: int): (r: nat)
    ensures r < U32
  {
    n % U32
  }

  function Wrap64(n: int): (r: nat)
    ensures r < U64
  {
    n % U64
  }

  function Min(a: int, b: int): (m: int)
    ensures m <= a && m <= b && (m == a || m == b)
  {
    if a < b then a else b
  }
}
