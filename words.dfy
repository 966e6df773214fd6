/**
 * Unsigned 64-bit machine words (uint64_t, pointers, phys_addr_t) as integers in
 * [0, 2^64). Addition and subtraction wrap around as the C arithmetic does; the
 * wrap is written out so that every overflow in the model is explicit.
 */
module Words {

  const TWO_64: int := 0x1_0000_0000_0000_0000

  type U64 = x: int | 0 <= x < TWO_64

  /** a + b on uint64_t. */
  function Add64(a: U64, b: U64): (r: U64)
    ensures a + b < TWO_64 ==> r == a + b
  {
    if a + b < TWO_64 then a + b else a + b - TWO_64
  }

  /** a - b on uint64_t. */
  function Sub64(a: U64, b: U64): (r: U64)
    ensures b <= a ==> r == a - b
  {
    if b <= a then a - b else a - b + TWO_64
  }

  /** Both operations are the exact result reduced modulo 2^64. */
  lemma WrapIsMod(a: U64, b: U64)
    ensures Add64(a, b) == (a + b) % TWO_64
    ensures Sub64(a, b) == (a - b) % TWO_64
  {
    if a + b >= TWO_64 {
      assert a + b == 1 * TWO_64 + Add64(a, b);
    }
    if b > a {
      assert a - b == -1 * TWO_64 + Sub64(a, b);
    }
  }

  /** Subtracting what was added gives the word back, overflow or not. */
  lemma AddSub(a: U64, b: U64)
    ensures Sub64(Add64(a, b), b) == a
    ensures Add64(b, Sub64(a, b)) == a
  {}
}
