/** The numbers of JavaScript: the finite doubles of IEEE 754, and the rest. */
module Numbers {

  function Pow2(k: nat): (p: nat)
    ensures p >= 1
  {
    if k == 0 then 1 else 2 * Pow2(k - 1)
  }

  /** The bits of a significand, and the exponents: from -1074 up to 971. */
  const SIGNIFICAND_BITS := 53
  const FINEST := 1074
  const EXPONENTS := 2045

  /** `r` is `m` times two to the power `k`, less the finest exponent. */
  ghost predicate Written(r: real, m: int, k: nat) {
    && k <= EXPONENTS
    && m < Pow2(SIGNIFICAND_BITS) && -m < Pow2(SIGNIFICAND_BITS)
    && r * Pow2(FINEST) as real == (m * Pow2(k)) as real
  }

  ghost predicate IsDouble(r: real) {
    exists m: int, k: nat :: Written(r, m, k)
  }

  /** A finite number of JavaScript; its two zeros are one here. */
  type Double = r: real | IsDouble(r) ghost witness (IntegerIsDouble(0); 0.0)

  lemma BitsGrow(a: nat, b: nat)
    requires a <= b
    ensures Pow2(a) <= Pow2(b)
  {
    if a < b {
      BitsGrow(a, b - 1);
    }
  }

  /** Every integer of at most 53 bits is a double. */
  lemma IntegerIsDouble(n: int)
    requires n < Pow2(SIGNIFICAND_BITS) && -n < Pow2(SIGNIFICAND_BITS)
    ensures IsDouble(n as real)
  {
    hide Pow2;
    assert Written(n as real, n, FINEST);
  }

  lemma SmallInteger(n: int)
    requires -1024 < n < 1024
    ensures IsDouble(n as real)
  {
    assert Pow2(10) == 1024;
    BitsGrow(10, SIGNIFICAND_BITS);
    hide Pow2;
    IntegerIsDouble(n);
  }

  datatype Number = Finite(value: Double) | NotFinite

  function WholeNumber(n: int): Number
    requires -1024 < n < 1024
  {
    SmallInteger(n);
    Finite(n as real)
  }
}
