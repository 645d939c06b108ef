# Unit-normal codec in 32 bits

A Dafny model of `pack.cpp`, which stores a unit 3D normal in one
`uint32_t`:

- bits 31..16 hold the x component, mapped from [-1, 1] to [0, 1] and
  quantised to a 16-bit code (`round(u * 65535)`);
- bits 15..1 hold the y component, quantised the same way to a 15-bit code
  (`round(u * 32767)`, then `& 0xFFFF`);
- bit 0 is set when z is negative.

`unpack` reads the three fields back, maps them to [-1, 1] again and
rebuilds |z| as `sqrt(1 - (x^2 + y^2))`, giving it the stored sign.

The project has three modules:

- `Bits` (`bits.dfy`) defines the `uint32_t` operations the codec uses on
  unbounded integers: `|`, `&`, `<<` (modulo 2^32) and `>>`. `|` and `&` are
  defined bit by bit. The lemmas characterise them: OR and AND act on each
  bit, the high and low parts of an OR can be taken separately, and a mask
  2^k - 1 keeps the low k bits.
- `Mappers` (`mappers.dfy`) holds `map_ufnorm`, `map_sfnorm`, `map_ftou15`
  and `map_ftou16`. Floats are exact reals here. `glm::round` is rounding to
  the nearest integer with halfway cases away from zero. The conversion of
  the rounded value to `uint32_t` is undefined in C++ when the value does
  not fit. The quantisers therefore require it to fit (`CastDefined`).
- `Codec` (`codec.dfy`) holds the bit layout and `pack`/`unpack`, with the
  round-trip, sign and layout properties.

What the code does beyond its evident purpose:

- The mask `& 0xFFFF` in `map_ftou15` keeps 16 bits, not 15. A y above the
  unit range gives a code with bit 15 set. `uy << 1` then moves that bit
  onto bit 16, the low bit of the x code (`ExtractAssembleWide`,
  `PackYOverflowCorruptsX`).
- `map_ftou16` has no mask. An x above the unit range gives a code of 17
  bits, and `ux << 16` pushes the top bit out of the word
  (`PackXOverflowWraps`).
- `unpack` does not clamp the radicand of the square root. The two words
  with bits 31..1 all set decode to x = y = 1, and the radicand is then
  -1 (`ZRadicandCanBeNegative`). A clamp `max(0, ...)` is sometimes
  described as part of the scheme, but the code has none, and the model
  follows the code.

## Model

| member | source | states |
|---|---|---|
| `Bits.OrBit` | pack.cpp:64 | bit i of a OR b is set exactly when bit i of a or of b is set |
| `Bits.AndBit` | pack.cpp:71-72 | bit i of `a & b` is set exactly when bit i of both a and b is set |
| `Bits.OrBound` | pack.cpp:64 | the OR of two values below 2^k is below 2^k, so OR stays within `uint32_t` |
| `Bits.OrSplit` | pack.cpp:64 | the OR of two values split at bit k is the OR of the high parts above bit k plus the OR of the low parts |
| `Bits.OrWithBit` | pack.cpp:64 | an OR with a value of at most one bit changes only bit 0 |
| `Bits.AndLowMask` | pack.cpp:42 | `& (2^k - 1)` keeps exactly the k low bits |
| `Bits.LowMasks` | pack.cpp:71-72 | `x & 0xFFFF` is x mod 2^16 and `x & 1` is x mod 2 |
| `Bits.Shifts` | pack.cpp:64-71 | `x << 16` and `x << 1` multiply modulo 2^32; `x >> 16` and `x >> 1` divide, rounding down |
| `Mappers.MapUfnorm` | pack.cpp:21-24 | x lies in [-1, 1] exactly when the result lies in [0, 1]; x < 0 exactly when the result is below 1/2 |
| `Mappers.MapSfnorm` | pack.cpp:30-33 | x lies in [0, 1] exactly when the result lies in [-1, 1]; x < 1/2 exactly when the result is negative |
| `Mappers.UfnormThenSfnorm` | pack.cpp:21-33 | `map_sfnorm` undoes `map_ufnorm` |
| `Mappers.SfnormThenUfnorm` | pack.cpp:21-33 | `map_ufnorm` undoes `map_sfnorm` |
| `Mappers.UfnormEndpoints` | pack.cpp:26-28 | -1, 0 and 1 map to 0, 1/2 and 1, exactly rather than within the 0.005 the static_asserts allow |
| `Mappers.SfnormEndpoints` | pack.cpp:35-37 | 0, 1/2 and 1 map to -1, 0 and 1, exactly |
| `Mappers.Round` | pack.cpp:42 | the result is within 1/2 of v; a halfway value rounds away from zero |
| `Mappers.RoundInteger` | pack.cpp:42 | rounding an integer gives it back |
| `Mappers.MapFtou15` | pack.cpp:39-43 | the code never exceeds 0xFFFF; it is the rounded product whenever that fits in 16 bits; on [0, 1] it is the rounded product and at most 32767, so the mask has no effect there |
| `Mappers.MapFtou16` | pack.cpp:48-52 | on [0, 1] the code is at most 65535 |
| `Mappers.QuantiserEndpoints` | pack.cpp:45-55 | 0 and 1 quantise to 0 and 32767 (15 bits) and to 0 and 65535 (16 bits) |
| `Mappers.QuantisersDefinedOnUnitRange` | pack.cpp:39-52 | every input in [0, 1] has a defined conversion to `uint32_t` in both quantisers |
| `Mappers.Ftou15Nearest` | pack.cpp:39-43 | on [0, 1] the 15-bit code is within 1/2 of x * 32767 |
| `Mappers.Ftou16Nearest` | pack.cpp:48-52 | on [0, 1] the 16-bit code is within 1/2 of x * 65535 |
| `Mappers.Ftou15MaskKeeps16Bits` | pack.cpp:42 | the input 1.5 gives the code 0xBFFF, which has bit 15 set: the mask does not keep the code within 15 bits |
| `Codec.Assemble` | pack.cpp:64 | bit 0 of the word is bit 0 of `ua`; fields that fit 16, 15 and 1 bits give the word `ux * 2^16 + uy * 2 + ua` |
| `Codec.AssembleBound` | pack.cpp:64 | the two ORs give a `uint32_t` |
| `Codec.AssembleParity` | pack.cpp:63-64 | bit 0 of the assembled word is bit 0 of `ua` |
| `Codec.ShiftsAreEven` | pack.cpp:64 | `ux << 16` and `uy << 1` both have bit 0 clear |
| `Codec.AssembleFits` | pack.cpp:64 | fields that fit occupy disjoint bits, so the ORs add |
| `Codec.AssembleLayout` | pack.cpp:62-64 | for a y code of up to 16 bits, the word is `XField(ux, uy) * 2^16 + (uy mod 2^15) * 2 + ua` |
| `Codec.ShiftedFields` | pack.cpp:64 | the OR of `ux << 16` and `uy << 1` holds `XField(ux, uy)` in bits 31..16 and the low 15 bits of uy in bits 15..1 |
| `Codec.ShlHigh` | pack.cpp:64 | `ux << 16` keeps only the low 16 bits of ux |
| `Codec.ShlLow` | pack.cpp:64 | `uy << 1` moves bit 15 of a 16-bit y code to bit 16 |
| `Codec.Extract` | pack.cpp:70-72 | the three fields read from a word fit 16, 15 and 1 bits and make up the whole word; `a` is 1 exactly when the word is odd |
| `Codec.ExtractWord` | pack.cpp:70-72 | a word laid out from fields of 16, 15 and 1 bits reads back as exactly those fields |
| `Codec.ExtractAssemble` | pack.cpp:64-72 | fields that fit their ranges survive assembling and reading back unchanged |
| `Codec.AssembleExtract` | pack.cpp:64-72 | reading a word's fields and assembling them gives the word back, for every word |
| `Codec.ExtractAssembleWide` | pack.cpp:62-72 | a y code of up to 16 bits reads back as its low 15 bits; the x code reads back as its low 16 bits, with bit 15 of the y code ORed into bit 0 |
| `Codec.AssembleOverlap` | pack.cpp:62-64 | the fields (0, 0x8000, 0), which do not fit, assemble to the same word as (1, 0, 0) |
| `Codec.Quantise` | pack.cpp:59-63 | the sign flag is 1 exactly when z < 0; the y code has at most 16 bits; in the unit square all three codes fit their fields |
| `Codec.Pack` | pack.cpp:57-66 | bit 0 of the word is set exactly when z < 0; in the unit square the fields read back from the word are the computed codes |
| `Codec.Unpack` | pack.cpp:68-78 | the decoded x and y lie in [-1, 1] for every word; the z factor is -1 exactly when bit 0 is set, and +1 otherwise |
| `Codec.ZRadicand` | pack.cpp:76 | for x and y in [-1, 1] the radicand `1 - (x^2 + y^2)` lies in [-1, 1] |
| `Codec.ZRadicandCanBeNegative` | pack.cpp:76 | the words 0xFFFFFFFE and 0xFFFFFFFF decode to x = y = 1 and give a negative radicand |
| `Codec.SignRoundTrip` | pack.cpp:63-75 | a packed and unpacked vector has the z factor -1 exactly when z < 0 |
| `Codec.ExtractPack` | pack.cpp:57-72 | for any vector the code can pack, in range or not, the fields read back are those of `ExtractAssembleWide` for the computed codes |
| `Codec.OppositeZDiffersInBit0` | pack.cpp:63-64 | two vectors that differ only in the sign of z pack to words that differ only in bit 0 |
| `Codec.PackFitting` | pack.cpp:57-66 | a vector whose codes fit packs to `ux * 2^16 + uy * 2 + sign` |
| `Codec.PackAxes` | pack.cpp:111-117 | the axis vectors that `main` tests pack to 0x80008000 and 0x80008001 (±z), 0xFFFF8000 and 0x00008000 (±x), 0x8000FFFE and 0x80000000 (±y) |
| `Codec.PackYOverflowCorruptsX` | pack.cpp:42-64 | y = 2 gives the y code 0xBFFF, which sets bit 0 of the x code read back; with x = -1 the x code 0 reads back as 1 |
| `Codec.PackXOverflowWraps` | pack.cpp:51-64 | x = 3 gives the x code 131070, which reads back as 65534 |
| `Codec.XYRoundTripError` | pack.cpp:57-74 | in the unit square the unpacked x is within 1/65535 of the original x, and y within 1/32767 |
| `Codec.Repack` | pack.cpp:57-78 | every word is the packing of its own decoded x and y with any z of the recorded sign |

## Left out

- Floating point: `float`, the `double` promotion in `x * 2.0` at
  pack.cpp:32 and the rounding of each operation are modelled as exact real
  arithmetic. The error bounds in `XYRoundTripError` hold for the idealised
  arithmetic only.
- `glm::pow(2.0f, 15.0f) - 1.0f` and `glm::pow(2.0f, 16.0f) - 1.0f` appear as
  the constants 32767 and 65535 (`Max15`, `Max16`).
- `Mappers.MapFtou15` and `Mappers.MapFtou16` require a defined conversion to
  `uint32_t` (`CastDefined`). In C++ the conversion of an out-of-range float
  (negative, 2^32 or more, NaN) is undefined behaviour, so there is nothing
  to model there.
- `Codec.Unpack`: returns the factor that gives z its sign, not z. `glm::sqrt`
  and the NaN it returns for a negative radicand are not modelled; the
  radicand itself is `ZRadicand`.
- `float_eq` and `vector_equals` compare floats within 0.005. They are not
  modelled: with exact arithmetic the endpoint lemmas state equality.
- `operator<<`, `test` and `main` print and drive tests. They are not
  modelled, except that `PackAxes` states the words of the axis vectors
  `main` uses.
- The random test vectors in `main` come from `std::random_device` and are
  not modelled.
