/** Fixed-width integer ranges of the Rust source, written out explicitly
    because Dafny integers are unbounded. */
module Ints {

  /** Rust `u8`. */
  newtype u8 = x: int | 0 <= x < 0x100

  const U32_LIMIT: int := 0x1_0000_0000
  const I32_MIN: int := -0x8000_0000
  const I32_MAX: int := 0x7FFF_FFFF

  predicate IsU32(x: int) {
    0 <= x < U32_LIMIT
  }

  predicate IsI32(x: int) {
    I32_MIN <= x <= I32_MAX
  }

  /** Rust's `x as u8` for a non-negative value: keeps the low eight bits. */
  function TruncateU8(x: nat): (r: u8)
    ensures x < 0x100 ==> r as int == x
    ensures (r as int - x) % 0x100 == 0
  {
    (x % 0x100) as u8
  }

  /** Quotient and remainder by a positive divisor are unique. */
  lemma DivModUnique(n: int, q: int, r: int, d: int)
    requires d > 0 && 0 <= r < d && n == q * d + r
    ensures n / d == q && n % d == r
  {
    var q', r' := n / d, n % d;
    assert n == q' * d + r';
    assert (q - q') * d == r' - r;
    SmallMultiple(q - q', d);
  }

  lemma SmallMultiple(k: int, d: int)
    requires d > 0 && -d < k * d < d
    ensures k == 0
  {
  }
}
