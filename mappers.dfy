/** Scalar mappers and quantisers of the unit-normal codec.

    Single-precision floats are idealised as exact reals throughout: the
    affine maps between the signed range [-1, 1] and the unsigned range
    [0, 1] are exact, and the two quantisers scale by 2^15 - 1 or 2^16 - 1
    and round to the nearest integer, ties away from zero (std::round).
    The conversion of the rounded float to `uint32_t` is defined only when
    the value fits, which the quantisers' preconditions state. */
module Mappers {

  import opened Bits

  /** The largest 15-bit and 16-bit codes, the scale factors of the
      quantisers (2^15 - 1 and 2^16 - 1). */
  const Max15: int := 32767
  const Max16: int := 65535

  /** Signed [-1, 1] to unsigned [0, 1]: (x + 1) * 0.5, with no clamping. */
  function MapUfnorm(x: real): (r: real)
    ensures -1.0 <= x <= 1.0 <==> 0.0 <= r <= 1.0
    ensures x < 0.0 <==> r < 0.5
  {
    (x + 1.0) * 0.5
  }

  /** Unsigned [0, 1] to signed [-1, 1]: x * 2 - 1, with no clamping. */
  function MapSfnorm(x: real): (r: real)
    ensures 0.0 <= x <= 1.0 <==> -1.0 <= r <= 1.0
    ensures x < 0.5 <==> r < 0.0
  {
    x * 2.0 - 1.0
  }

  /** Rounding to the nearest integer, halfway cases away from zero. */
  function Round(v: real): (r: int)
    ensures v >= 0.0 ==> v - 0.5 < r as real <= v + 0.5
    ensures v < 0.0 ==> v - 0.5 <= r as real < v + 0.5
  {
    if v >= 0.0 then (v + 0.5).Floor else -((-v + 0.5).Floor)
  }

  /** The `(uint32_t)` conversion of a rounded product is defined. */
  predicate CastDefined(v: real)
  {
    0 <= Round(v) < Word
  }

  /** Quantise to a "15-bit" code: round(x * 32767) converted to
      `uint32_t`, then masked with 0xFFFF, a mask that keeps 16 bits. */
  function MapFtou15(x: real): (r: U32)
    requires CastDefined(x * Max15 as real)
    ensures r <= 0xFFFF
    ensures Round(x * Max15 as real) <= 0xFFFF ==> r == Round(x * Max15 as real)
    ensures 0.0 <= x <= 1.0 ==> r <= 0x7FFF && r == Round(x * Max15 as real)
  {
    var q := Round(x * Max15 as real);
    LowMasks(q);
    And(q, 0xFFFF)
  }

  /** Quantise to a 16-bit code: round(x * 65535) converted to `uint32_t`,
      with no mask. */
  function MapFtou16(x: real): (r: U32)
    requires CastDefined(x * Max16 as real)
    ensures 0.0 <= x <= 1.0 ==> r <= 0xFFFF
  {
    Round(x * Max16 as real)
  }

  lemma UfnormThenSfnorm(x: real)
    ensures MapSfnorm(MapUfnorm(x)) == x
  {
  }

  lemma SfnormThenUfnorm(x: real)
    ensures MapUfnorm(MapSfnorm(x)) == x
  {
  }

  lemma UfnormEndpoints()
    ensures MapUfnorm(-1.0) == 0.0 && MapUfnorm(0.0) == 0.5 && MapUfnorm(1.0) == 1.0
  {
  }

  lemma SfnormEndpoints()
    ensures MapSfnorm(0.0) == -1.0 && MapSfnorm(0.5) == 0.0 && MapSfnorm(1.0) == 1.0
  {
  }

  /** Rounding an integer gives it back. */
  lemma RoundInteger(n: int)
    ensures Round(n as real) == n
  {
  }

  lemma QuantiserEndpoints()
    ensures CastDefined(0.0 * Max15 as real) && MapFtou15(0.0) == 0
    ensures CastDefined(1.0 * Max15 as real) && MapFtou15(1.0) == 32767
    ensures CastDefined(0.0 * Max16 as real) && MapFtou16(0.0) == 0
    ensures CastDefined(1.0 * Max16 as real) && MapFtou16(1.0) == 65535
  {
    RoundInteger(0);
    RoundInteger(Max15);
    RoundInteger(Max16);
  }

  /** Every input of the unit range can be quantised (the conversions are
      defined there). */
  lemma QuantisersDefinedOnUnitRange(x: real)
    requires 0.0 <= x <= 1.0
    ensures CastDefined(x * Max15 as real) && CastDefined(x * Max16 as real)
  {
  }

  /** A 15-bit code is the nearest code: it differs from x * 32767 by at
      most one half. */
  lemma Ftou15Nearest(x: real)
    requires 0.0 <= x <= 1.0
    ensures CastDefined(x * Max15 as real)
    ensures -0.5 <= MapFtou15(x) as real - x * Max15 as real <= 0.5
  {
  }

  /** A 16-bit code differs from x * 65535 by at most one half. */
  lemma Ftou16Nearest(x: real)
    requires 0.0 <= x <= 1.0
    ensures CastDefined(x * Max16 as real)
    ensures -0.5 <= MapFtou16(x) as real - x * Max16 as real <= 0.5
  {
  }

  /** The 0xFFFF mask does not keep a code inside 15 bits: an input above
      the unit range gives a code with bit 15 set. */
  lemma Ftou15MaskKeeps16Bits()
    ensures CastDefined(1.5 * Max15 as real) && MapFtou15(1.5) == 0xBFFF
  {
    assert 1.5 * Max15 as real + 0.5 == 49151.0;
    RoundInteger(49151);
  }
}
