/** The source's 32-bit `unsigned` arithmetic, shared by the modules that use it. */
module MachineInt {

  const U32_MODULUS: int := 0x1_0000_0000

  /** The conversion of an integer to `unsigned`, and `unsigned` arithmetic. */
  function U32(x: int): (r: nat)
    ensures r < U32_MODULUS
    ensures (x - r) % U32_MODULUS == 0
    ensures 0 <= x < U32_MODULUS ==> r == x
  {
    x % U32_MODULUS
  }

  lemma MulAtLeast(e: int, n: int)
    requires e >= 1 && n > 0
    ensures e * n >= n
  {
    assert e * n == (e - 1) * n + n;
    assert (e - 1) * n >= 0;
  }
}
