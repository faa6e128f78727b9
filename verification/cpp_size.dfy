/** The fixed-width unsigned arithmetic of C++ `size_t` (64 bits). */
module CppSize {

  const SizeMax: nat := 0x1_0000_0000_0000_0000

  type SizeT = x: nat | x < SizeMax

  /** The value a `size_t` holds after storing the count `n`. */
  function ToSize(n: nat): (r: SizeT)
    ensures n < SizeMax ==> r == n
    ensures r <= n
    ensures (n - r) % SizeMax == 0
  {
    n % SizeMax
  }

  /** `a + b` in `size_t`: wraps around modulo 2^64. */
  function AddW(a: SizeT, b: SizeT): (r: SizeT)
    ensures a + b < SizeMax ==> r == a + b
    ensures a + b >= SizeMax ==> r == a + b - SizeMax
  {
    if a + b < SizeMax then a + b else a + b - SizeMax
  }

  /** `a - b` in `size_t`: wraps around modulo 2^64 when `b > a`. */
  function SubW(a: SizeT, b: SizeT): (r: SizeT)
    ensures a >= b ==> r == a - b
    ensures a < b ==> r >= SizeMax - b
  {
    if a >= b then a - b else SizeMax - (b - a)
  }

  /** Wrapping subtraction is undone by wrapping addition. */
  lemma SubWThenAddW(a: SizeT, b: SizeT)
    ensures AddW(SubW(a, b), b) == a
  {
  }
}
