/**
 * The 32- and 64-bit signed integer ranges of the runtime, and the
 * two's-complement wrap-around of an unchecked `long` addition.
 */
module Int64 {

  const Int32Max: int := 0x7fff_ffff
  const Int64Min: int := -0x8000_0000_0000_0000
  const Int64Max: int := 0x7fff_ffff_ffff_ffff
  const Modulus: int := 0x1_0000_0000_0000_0000

  predicate InLong(x: int) {
    Int64Min <= x <= Int64Max
  }

  /** The `long` that an unchecked operation whose exact result is `x` yields. */
  function Wrap(x: int): (r: int)
    ensures InLong(r)
    ensures InLong(x) ==> r == x
    ensures (x - r) % Modulus == 0
  {
    var q := (x - Int64Min) / Modulus;
    assert x - Int64Min == q * Modulus + (x - Int64Min) % Modulus;
    (x - Int64Min) % Modulus + Int64Min
  }

  /** Equal residues modulo 2^64 wrap to the same `long`. */
  lemma WrapCongruent(x: int, y: int)
    requires (x - y) % Modulus == 0
    ensures Wrap(x) == Wrap(y)
  {
    var k := (x - y) / Modulus;
    assert x - y == k * Modulus;
    var a, b := x - Int64Min, y - Int64Min;
    assert a == b + k * Modulus;
    var qa, qb := a / Modulus, b / Modulus;
    assert a == qa * Modulus + a % Modulus;
    assert b == qb * Modulus + b % Modulus;
    assert a == (qb + k) * Modulus + b % Modulus;
    assert a % Modulus == b % Modulus;
  }

  /** Accumulating with wrap-around step by step equals wrapping the exact total once. */
  lemma WrapAdd(a: int, b: int)
    ensures Wrap(Wrap(a) + b) == Wrap(a + b)
  {
    assert ((Wrap(a) + b) - (a + b)) % Modulus == 0 by {
      assert (a - Wrap(a)) % Modulus == 0;
      var k := (a - Wrap(a)) / Modulus;
      assert (Wrap(a) + b) - (a + b) == -(k * Modulus);
    }
    WrapCongruent(Wrap(a) + b, a + b);
  }
}
