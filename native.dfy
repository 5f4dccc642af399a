/** Unsigned machine-width arithmetic shared by the modelled C++ code. */
module Native {

  /** size_t values are taken modulo 2^64. */
  const SizeModulus: int := 0x1_0000_0000_0000_0000

  /** The size_t value of an integer expression. */
  function SizeT(x: int): (r: nat)
    ensures r < SizeModulus
    ensures 0 <= x < SizeModulus ==> r == x
    ensures -SizeModulus <= x < 0 ==> r == x + SizeModulus
  {
    x % SizeModulus
  }
}
