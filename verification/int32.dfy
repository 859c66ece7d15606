/** Java `int` arithmetic: every result of `+`, `-` and `*` on two `int`s is
    reduced to the signed 32-bit two's-complement range. */
module Int32 {

  const Modulus: int := 0x1_0000_0000
  const MinValue: int := -0x8000_0000
  const MaxValue: int := 0x7fff_ffff

  predicate InRange(x: int) {
    MinValue <= x <= MaxValue
  }

  /** The unique value of the 32-bit signed range congruent to `x` modulo 2^32. */
  function Wrap(x: int): (r: int)
    ensures InRange(r)
    ensures (x - r) % Modulus == 0
  {
    var m := x % Modulus;
    if m > MaxValue then m - Modulus else m
  }

  /** Two integers congruent modulo 2^32 wrap to the same 32-bit value. */
  lemma WrapCongruent(x: int, y: int)
    requires (x - y) % Modulus == 0
    ensures Wrap(x) == Wrap(y)
  {
    var k := (x - y) / Modulus;
    assert x == y + k * Modulus;
    assert x % Modulus == y % Modulus;
  }

  /** Values already in range are left alone, so wrapping only matters on overflow. */
  lemma WrapIdentity(x: int)
    requires InRange(x)
    ensures Wrap(x) == x
  {
  }

  /** Wrapping an intermediate product does not change the final wrapped product. */
  lemma WrapMulLeft(a: int, b: int)
    ensures Wrap(Wrap(a) * b) == Wrap(a * b)
  {
    var w := Wrap(a);
    var k := (a - w) / Modulus;
    assert a - w == k * Modulus;
    assert a * b - w * b == (k * b) * Modulus by {
      assert a * b - w * b == (a - w) * b;
    }
    assert (a * b - w * b) % Modulus == 0;
    WrapCongruent(w * b, a * b);
  }

  /** A result just above the range comes back 2^32 lower, and one just
      below it 2^32 higher: the two ways one `+` or `-` of two ints overflows. */
  lemma WrapOverflow(x: int)
    requires 2 * MinValue <= x <= 2 * MaxValue
    ensures x > MaxValue ==> Wrap(x) == x - Modulus
    ensures x < MinValue ==> Wrap(x) == x + Modulus
  {
    if x > MaxValue {
      WrapCongruent(x, x - Modulus);
      WrapIdentity(x - Modulus);
    } else if x < MinValue {
      WrapCongruent(x, x + Modulus);
      WrapIdentity(x + Modulus);
    }
  }

  /** Incrementing the largest int gives the smallest one. */
  lemma IncrementOverflows()
    ensures Wrap(MaxValue + 1) == MinValue
  {
  }
}
