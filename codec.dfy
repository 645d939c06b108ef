/** The 32-bit unit-normal codec.

    A packed normal is one `uint32_t`: bits 31..16 hold a 16-bit code of x,
    bits 15..1 a 15-bit code of y, and bit 0 is set when z is negative.
    Only the sign of z is stored; the decoder recovers z's magnitude from
    the unit-length identity with a square root, which is not part of this
    model (see `ZRadicand`). */
module Codec {

  import opened Bits
  import opened Mappers

  /** A 3D vector of (idealised) floats. */
  datatype Vec3 = Vec3(x: real, y: real, z: real)

  /** The three integer fields of a packed word: the x code, the y code and
      the sign flag of z. */
  datatype Fields = Fields(ux: U32, uy: U32, ua: U32)

  /** The fields fit their bit ranges: 16, 15 and 1 bits. */
  predicate Fits(f: Fields)
  {
    f.ux < 0x10000 && f.uy < 0x8000 && f.ua <= 1
  }

  /** `(ux << 16) | (uy << 1) | ua`. Nothing keeps the fields inside their
      ranges: a y code of 16 bits reaches bit 16, the low bit of x. */
  function Assemble(f: Fields): (p: U32)
    ensures p % 2 == 1 <==> f.ua % 2 == 1
    ensures Fits(f) ==> p == f.ux * 0x10000 + f.uy * 2 + f.ua
  {
    AssembleBound(f.ux, f.uy, f.ua);
    AssembleParity(f.ux, f.uy, f.ua);
    if Fits(f) then
      AssembleFits(f.ux, f.uy, f.ua);
      Or(Or(Shl(f.ux, 16), Shl(f.uy, 1)), f.ua)
    else
      Or(Or(Shl(f.ux, 16), Shl(f.uy, 1)), f.ua)
  }

  /** The result of the ORs is a `uint32_t`. */
  lemma AssembleBound(ux: U32, uy: U32, ua: U32)
    ensures Or(Or(Shl(ux, 16), Shl(uy, 1)), ua) < Word
  {
    Pow2Values();
    OrBound(Shl(ux, 16), Shl(uy, 1), 32);
    OrBound(Or(Shl(ux, 16), Shl(uy, 1)), ua, 32);
  }

  /** Fields that fit their ranges occupy disjoint bits, so the ORs add. */
  lemma AssembleFits(ux: U32, uy: U32, ua: U32)
    requires ux < 0x10000 && uy < 0x8000 && ua <= 1
    ensures Or(Or(Shl(ux, 16), Shl(uy, 1)), ua) == ux * 0x10000 + uy * 2 + ua
  {
    AssembleLayout(ux, uy, ua);
    DivModUnique(ux, 0x10000, 0, ux);
    DivModUnique(uy, 0x8000, 0, uy);
    DivModUnique(ux, 2, ux / 2, ux % 2);
    assert XField(ux, uy) == ux;
  }

  /** Bit 0 of the word is bit 0 of `ua`: the two shifted fields have it
      clear. */
  lemma AssembleParity(ux: U32, uy: U32, ua: U32)
    ensures Or(Or(Shl(ux, 16), Shl(uy, 1)), ua) % 2 == ua % 2
  {
    var hi, mid := Shl(ux, 16), Shl(uy, 1);
    ShiftsAreEven(ux, uy);
    OrStep(hi, mid);
    Halve(Or(hi / 2, mid / 2), 0);
    OrStep(Or(hi, mid), ua);
    Halve(Or(Or(hi, mid) / 2, ua / 2), ua % 2);
  }

  /** Both shifted fields have bit 0 clear. */
  lemma ShiftsAreEven(ux: U32, uy: U32)
    ensures Shl(ux, 16) % 2 == 0 && Shl(uy, 1) % 2 == 0
  {
    EvenModWord(ShiftUp(ux, 15));
    EvenModWord(ShiftUp(uy, 0));
  }

  /** An even number stays even modulo 2^32. */
  lemma EvenModWord(k: nat)
    ensures (2 * k) % Word % 2 == 0
  {
    var q, r := (2 * k) / Word, (2 * k) % Word;
    DivModUnique(r, 2, k - 0x8000_0000 * q, 0);
  }

  /** The x field `unpack` finds in the word `pack` builds from the codes
      ux and uy, when uy has at most 16 bits: bits 15..1 of ux, and in bit 0
      the OR of bit 0 of ux and bit 15 of uy. */
  function XField(ux: U32, uy: U32): (x: U32)
    ensures x < 0x10000
  {
    (ux % 0x10000) / 2 * 2 + (if ux % 2 == 1 || uy >= 0x8000 then 1 else 0)
  }

  /** The word `pack` assembles from a y code of up to 16 bits. */
  lemma AssembleLayout(ux: U32, uy: U32, ua: U32)
    requires uy < 0x10000 && ua <= 1
    ensures Or(Or(Shl(ux, 16), Shl(uy, 1)), ua) == XField(ux, uy) * 0x10000 + (uy % 0x8000) * 2 + ua
  {
    var both := Or(Shl(ux, 16), Shl(uy, 1));
    ShiftedFields(ux, uy);
    OrWithBit(both, ua);
  }

  /** The two shifted codes ORed together: bits 31..16 hold `XField`, bits
      15..1 the low 15 bits of the y code. */
  lemma ShiftedFields(ux: U32, uy: U32)
    requires uy < 0x10000
    ensures Or(Shl(ux, 16), Shl(uy, 1)) == XField(ux, uy) * 0x10000 + (uy % 0x8000) * 2
  {
    var x, y1, y0 := ux % 0x10000, uy / 0x8000, uy % 0x8000;
    ShlHigh(ux);
    ShlLow(uy);
    Pow2Values();
    OrSplit(x, 0, y1, y0 * 2, 16);
    assert Or(x, y1) == XField(ux, uy) by {
      OrWithBit(x, y1);
      DivModUnique(ux, 2, ux / 0x10000 * 0x8000 + x / 2, x % 2);
    }
    assert Or(0, y0 * 2) == y0 * 2;
    ShiftUp16(Or(x, y1));
  }

  /** `ux << 16` keeps the low 16 bits of ux, moved to bits 31..16. */
  lemma ShlHigh(ux: U32)
    ensures Shl(ux, 16) == ShiftUp(ux % 0x10000, 16) + 0
  {
    Pow2Values();
    Shifts(ux);
    DivModUnique(ux * 0x10000, Word, ux / 0x10000, ux % 0x10000 * 0x10000);
    ShiftUp16(ux % 0x10000);
  }

  /** `uy << 1` of a 16-bit y code: bit 15 lands on bit 16. */
  lemma ShlLow(uy: U32)
    requires uy < 0x10000
    ensures Shl(uy, 1) == ShiftUp(uy / 0x8000, 16) + uy % 0x8000 * 2
  {
    Pow2Values();
    Shifts(uy);
    DivModUnique(uy * 2, Word, 0, uy * 2);
    ShiftUp16(uy / 0x8000);
  }

  /** `x = p >> 16`, `y = (p & 0xFFFF) >> 1`, `a = p & 1`: the three fields
      fit their ranges and together make up the whole word. */
  function Extract(p: U32): (f: Fields)
    ensures Fits(f)
    ensures p == f.ux * 0x10000 + f.uy * 2 + f.ua
    ensures f.ua == 1 <==> p % 2 == 1
  {
    LowMasks(p);
    Pow2Values();
    Shifts(p);
    Shifts(p % 0x10000);
    DivModUnique(p, 2, p / 0x10000 * 0x8000 + p % 0x10000 / 2, p % 0x10000 % 2);
    Fields(Shr(p, 16), Shr(And(p, 0xFFFF), 1), And(p, 1))
  }

  /** A word laid out from fields of 16, 15 and 1 bits reads back as those
      fields. */
  lemma ExtractWord(x: int, y: int, a: int)
    requires 0 <= x < 0x10000 && 0 <= y < 0x8000 && 0 <= a <= 1
    ensures Extract(x * 0x10000 + y * 2 + a) == Fields(x, y, a)
  {
    var p := x * 0x10000 + y * 2 + a;
    var f := Extract(p);
    DivModUnique(p, 0x10000, x, y * 2 + a);
    DivModUnique(p, 0x10000, f.ux, f.uy * 2 + f.ua);
    DivModUnique(y * 2 + a, 2, y, a);
    DivModUnique(y * 2 + a, 2, f.uy, f.ua);
  }

  /** Fields that fit their ranges are read back unchanged. */
  lemma ExtractAssemble(f: Fields)
    requires Fits(f)
    ensures Extract(Assemble(f)) == f
  {
    ExtractWord(f.ux, f.uy, f.ua);
  }

  /** Every word is the assembly of its own fields: the three fields cover
      all 32 bits. */
  lemma AssembleExtract(p: U32)
    ensures Assemble(Extract(p)) == p
  {
  }

  /** What is read back from fields whose y code has up to 16 bits: the
      x field of `XField`, the low 15 bits of the y code, and the flag. */
  lemma ExtractAssembleWide(f: Fields)
    requires f.uy < 0x10000 && f.ua <= 1
    ensures Extract(Assemble(f)) == Fields(XField(f.ux, f.uy), f.uy % 0x8000, f.ua)
  {
    AssembleLayout(f.ux, f.uy, f.ua);
    ExtractWord(XField(f.ux, f.uy), f.uy % 0x8000, f.ua);
  }

  /** The layout is injective only on fields that fit: a y code with bit 15
      set collides with the low bit of the x code. */
  lemma AssembleOverlap()
    ensures !Fits(Fields(0, 0x8000, 0))
    ensures Assemble(Fields(0, 0x8000, 0)) == Assemble(Fields(1, 0, 0))
  {
    ExtractAssembleWide(Fields(0, 0x8000, 0));
    ExtractAssemble(Fields(1, 0, 0));
    AssembleExtract(Assemble(Fields(0, 0x8000, 0)));
    AssembleExtract(Assemble(Fields(1, 0, 0)));
  }

  /** The codes of n's x and y can be converted to `uint32_t`. */
  predicate Packable(n: Vec3)
  {
    CastDefined(MapUfnorm(n.x) * Max16 as real) && CastDefined(MapUfnorm(n.y) * Max15 as real)
  }

  /** x and y lie in the signed unit range, as they do for a unit vector. */
  predicate InUnitSquare(n: Vec3)
  {
    -1.0 <= n.x <= 1.0 && -1.0 <= n.y <= 1.0
  }

  /** The field values `pack` computes for n. */
  function Quantise(n: Vec3): (f: Fields)
    requires Packable(n)
    ensures f.ua == 1 <==> n.z < 0.0
    ensures f.ua <= 1 && f.uy <= 0xFFFF
    ensures InUnitSquare(n) ==> Fits(f)
  {
    var ufx := MapUfnorm(n.x);
    var ufy := MapUfnorm(n.y);
    Fields(MapFtou16(ufx), MapFtou15(ufy), if n.z < 0.0 then 1 else 0)
  }

  /** Encode a vector as one word. */
  function Pack(n: Vec3): (p: U32)
    requires Packable(n)
    ensures p % 2 == 1 <==> n.z < 0.0
    ensures InUnitSquare(n) ==> Extract(p) == Quantise(n)
  {
    var f := Quantise(n);
    var p := Assemble(f);
    assert p % 2 == 1 <==> f.ua == 1;
    if InUnitSquare(n) then
      ExtractAssemble(f);
      p
    else
      p
  }

  /** A decoded word: x, y and the factor (+1 or -1) that gives z its sign. */
  datatype Decoded = Decoded(x: real, y: real, zFactor: real)

  /** Decode a word, up to the magnitude of z. */
  function Unpack(p: U32): (d: Decoded)
    ensures -1.0 <= d.x <= 1.0 && -1.0 <= d.y <= 1.0
    ensures d.zFactor == 1.0 || d.zFactor == -1.0
    ensures d.zFactor == -1.0 <==> p % 2 == 1
  {
    var f := Extract(p);
    var fx := MapSfnorm(f.ux as real / Max16 as real);
    var fy := MapSfnorm(f.uy as real / Max15 as real);
    var fa := if f.ua == 1 then -1.0 else 1.0;
    Decoded(fx, fy, fa)
  }

  /** The argument of the square root that gives |z|: 1 - (x^2 + y^2). */
  function ZRadicand(d: Decoded): (r: real)
    ensures -1.0 <= d.x <= 1.0 && -1.0 <= d.y <= 1.0 ==> -1.0 <= r <= 1.0
  {
    if -1.0 <= d.x <= 1.0 && -1.0 <= d.y <= 1.0 then
      SquareAtMostOne(d.x);
      SquareAtMostOne(d.y);
      1.0 - (d.x * d.x + d.y * d.y)
    else
      1.0 - (d.x * d.x + d.y * d.y)
  }

  lemma SquareAtMostOne(v: real)
    requires -1.0 <= v <= 1.0
    ensures 0.0 <= v * v <= 1.0
  {
    if v >= 0.0 {
      assert v * v <= v * 1.0;
    } else {
      assert v * v <= (-v) * 1.0;
    }
  }

  /** Some words give the square root a negative argument: the two words
      with bits 31..1 all set decode to x = y = 1. */
  lemma ZRadicandCanBeNegative(p: U32)
    requires p >= 0xFFFF_FFFE
    ensures Unpack(p).x == 1.0 && Unpack(p).y == 1.0
    ensures ZRadicand(Unpack(p)) < 0.0
  {
    var f := Extract(p);
    assert f.ux == 0xFFFF && f.uy == 0x7FFF;
    var d := Unpack(p);
    assert d.x == MapSfnorm(0xFFFF as real / Max16 as real) == 1.0;
    assert d.y == MapSfnorm(0x7FFF as real / Max15 as real) == 1.0;
  }

  /** The sign of z survives the round trip, for every input that can be
      packed: a negative z gives the factor -1, any other z the factor +1. */
  lemma SignRoundTrip(n: Vec3)
    requires Packable(n)
    ensures Unpack(Pack(n)).zFactor == (if n.z < 0.0 then -1.0 else 1.0)
  {
  }

  /** What `unpack` reads back from any packable vector, in range or not:
      the x code loses its bits above 15 and takes bit 15 of the y code
      into its bit 0 (see `XField`). */
  lemma ExtractPack(n: Vec3)
    requires Packable(n)
    ensures Extract(Pack(n)) == Fields(XField(Quantise(n).ux, Quantise(n).uy), Quantise(n).uy % 0x8000, Quantise(n).ua)
  {
    ExtractAssembleWide(Quantise(n));
  }

  /** Two vectors that differ only in the sign of z pack to words that
      differ only in bit 0. */
  lemma OppositeZDiffersInBit0(n: Vec3, m: Vec3)
    requires Packable(n) && n.x == m.x && n.y == m.y
    requires n.z < 0.0 <= m.z
    ensures Packable(m)
    ensures Pack(n) / 2 == Pack(m) / 2
    ensures Pack(n) % 2 == 1 && Pack(m) % 2 == 0
  {
    var pn, pm := Pack(n), Pack(m);
    ExtractPack(n);
    ExtractPack(m);
    var fn, fm := Extract(pn), Extract(pm);
    AssembleExtract(pn);
    AssembleExtract(pm);
    assert pn == fm.ux * 0x10000 + fm.uy * 2 + 1;
    assert pm == fm.ux * 0x10000 + fm.uy * 2 + 0;
    DivModUnique(pn, 2, fm.ux * 0x8000 + fm.uy, 1);
    DivModUnique(pm, 2, fm.ux * 0x8000 + fm.uy, 0);
  }

  /** The word of the vector (x, y, z) when the codes of x and y fit. */
  lemma PackFitting(n: Vec3, ux: int, uy: int)
    requires Packable(n) && Quantise(n).ux == ux && Quantise(n).uy == uy
    requires 0 <= ux < 0x10000 && 0 <= uy < 0x8000
    ensures Pack(n) == ux * 0x10000 + uy * 2 + (if n.z < 0.0 then 1 else 0)
  {
  }

  /** The words of the axis vectors: (0, 0, 1) and (0, 0, -1) pack to
      0x80008000 and 0x80008001, (1, 0, 0) to 0xFFFF8000, (-1, 0, 0) to
      0x00008000, (0, 1, 0) to 0x8000FFFE and (0, -1, 0) to 0x80000000. */
  lemma PackAxes(z: real)
    ensures Packable(Vec3(0.0, 0.0, z)) && Pack(Vec3(0.0, 0.0, z)) == if z < 0.0 then 0x8000_8001 else 0x8000_8000
    ensures Packable(Vec3(1.0, 0.0, 0.0)) && Pack(Vec3(1.0, 0.0, 0.0)) == 0xFFFF_8000
    ensures Packable(Vec3(-1.0, 0.0, 0.0)) && Pack(Vec3(-1.0, 0.0, 0.0)) == 0x0000_8000
    ensures Packable(Vec3(0.0, 1.0, 0.0)) && Pack(Vec3(0.0, 1.0, 0.0)) == 0x8000_FFFE
    ensures Packable(Vec3(0.0, -1.0, 0.0)) && Pack(Vec3(0.0, -1.0, 0.0)) == 0x8000_0000
  {
    RoundInteger(0);
    RoundInteger(0x4000);
    RoundInteger(0x8000);
    RoundInteger(0x7FFF);
    RoundInteger(0xFFFF);
    assert MapUfnorm(0.0) * Max16 as real + 0.5 == 0x8000 as real;
    assert MapUfnorm(0.0) * Max15 as real + 0.5 == 0x4000 as real;
    PackFitting(Vec3(0.0, 0.0, z), 0x8000, 0x4000);
    PackFitting(Vec3(1.0, 0.0, 0.0), 0xFFFF, 0x4000);
    PackFitting(Vec3(-1.0, 0.0, 0.0), 0, 0x4000);
    PackFitting(Vec3(0.0, 1.0, 0.0), 0x8000, 0x7FFF);
    PackFitting(Vec3(0.0, -1.0, 0.0), 0x8000, 0);
  }

  /** A y of 2 yields the y code 0xBFFF, of 16 bits, whose bit 15 sets
      bit 0 of the x code: (-1, 2, z) reads back with x code 1 instead of 0. */
  lemma PackYOverflowCorruptsX(n: Vec3)
    requires -1.0 <= n.x <= 1.0 && n.y == 2.0
    ensures Packable(n)
    ensures Quantise(n).uy == 0xBFFF
    ensures Extract(Pack(n)).ux == Quantise(n).ux / 2 * 2 + 1
    ensures n.x == -1.0 ==> Quantise(n).ux == 0 && Extract(Pack(n)).ux == 1
  {
    QuantisersDefinedOnUnitRange(MapUfnorm(n.x));
    assert MapUfnorm(n.y) == 1.5;
    Ftou15MaskKeeps16Bits();
    var f := Quantise(n);
    assert f.uy == 0xBFFF;
    assert f.ux <= 0xFFFF;
    DivModUnique(f.ux, 0x10000, 0, f.ux);
    ExtractPack(n);
    assert XField(f.ux, f.uy) == f.ux / 2 * 2 + 1;
    if n.x == -1.0 {
      assert MapUfnorm(n.x) * Max16 as real == 0 as real;
      RoundInteger(0);
      assert f.ux == 0;
      assert Extract(Pack(n)).ux == 0 / 2 * 2 + 1;
    }
  }

  /** An x of 3 has no mask to stop it: its code 131070 has 17 bits, and
      bit 16 is shifted out of the word, so it reads back as 65534. */
  lemma PackXOverflowWraps(n: Vec3)
    requires n.x == 3.0 && -1.0 <= n.y <= 1.0
    ensures Packable(n)
    ensures Quantise(n).ux == 131070
    ensures Extract(Pack(n)).ux == 0xFFFE
  {
    QuantisersDefinedOnUnitRange(MapUfnorm(n.y));
    assert MapUfnorm(n.x) * Max16 as real == 131070 as real;
    RoundInteger(131070);
    var f := Quantise(n);
    assert f.ux == 131070 && f.uy <= 0x7FFF;
    DivModUnique(f.ux, 0x10000, 1, 0xFFFE);
    assert XField(f.ux, f.uy) == 0xFFFE;
    ExtractPack(n);
  }

  /** Over exact arithmetic, unpacking a packed vector recovers x within
      one 16-bit step (1/65535) and y within one 15-bit step (1/32767). */
  lemma XYRoundTripError(n: Vec3)
    requires InUnitSquare(n)
    ensures Packable(n)
    ensures -1.0 / Max16 as real <= Unpack(Pack(n)).x - n.x <= 1.0 / Max16 as real
    ensures -1.0 / Max15 as real <= Unpack(Pack(n)).y - n.y <= 1.0 / Max15 as real
  {
    QuantisersDefinedOnUnitRange(MapUfnorm(n.x));
    QuantisersDefinedOnUnitRange(MapUfnorm(n.y));
    Ftou16Nearest(MapUfnorm(n.x));
    Ftou15Nearest(MapUfnorm(n.y));
    var f := Quantise(n);
    var d := Unpack(Pack(n));
    assert d.x - n.x == 2.0 * (f.ux as real - MapUfnorm(n.x) * Max16 as real) / Max16 as real;
    assert d.y - n.y == 2.0 * (f.uy as real - MapUfnorm(n.y) * Max15 as real) / Max15 as real;
  }

  /** Every decoded word encodes back to itself, given any z of the sign
      the word records: each word is the code of its own decoding. */
  lemma Repack(p: U32, z: real)
    requires z < 0.0 <==> p % 2 == 1
    ensures Packable(Vec3(Unpack(p).x, Unpack(p).y, z))
    ensures Pack(Vec3(Unpack(p).x, Unpack(p).y, z)) == p
  {
    var f := Extract(p);
    var d := Unpack(p);
    UfnormThenSfnorm(f.ux as real / Max16 as real);
    SfnormThenUfnorm(f.ux as real / Max16 as real);
    SfnormThenUfnorm(f.uy as real / Max15 as real);
    assert MapUfnorm(d.x) * Max16 as real == f.ux as real;
    assert MapUfnorm(d.y) * Max15 as real == f.uy as real;
    RoundInteger(f.ux);
    RoundInteger(f.uy);
    assert Quantise(Vec3(d.x, d.y, z)) == f;
    AssembleExtract(p);
  }
}
