/** The C# `int` type and its unchecked arithmetic. */
module Int32 {

  const Modulus: int := 0x1_0000_0000

  newtype int32 = x: int | -0x8000_0000 <= x < 0x8000_0000

  predicate InRange(x: int) {
    -0x8000_0000 <= x < 0x8000_0000
  }

  /** Two's-complement truncation of a mathematical integer to 32 bits, as an
      unchecked C# operation does with its exact result. */
  function Wrap(x: int): (r: int32)
    ensures (x - r as int) % Modulus == 0
    ensures InRange(x) ==> r as int == x
  {
    ((x + 0x8000_0000) % Modulus - 0x8000_0000) as int32
  }

  /** Unchecked multiplication `a * b` of two C# ints. */
  function MulUnchecked(a: int32, b: int32): (r: int32)
    ensures (a as int * b as int - r as int) % Modulus == 0
    ensures InRange(a as int * b as int) ==> r as int == a as int * b as int
  {
    Wrap(a as int * b as int)
  }
}
