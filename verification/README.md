# defloat, modelled in Dafny

defloat takes a number and shows how it is stored as an IEEE 754 binary32
(`float`) and binary64 (`double`) value. For each precision it prints:

- the representation line: the sign bit, the biased exponent field and the
  fraction field in binary, each with an annotation;
- the interpretation line: `±mantissa * 2^power`, `±inf` or `nan`;
- the raw pattern in hexadecimal.

The model starts from the raw bit pattern, taken as a natural number below
2^W. The two decoders `decode_float` and `decode_double` become one routine,
`Defloat.Decode`. It is parameterised by a `Decoder` record holding:

- the interchange format (width, exponent width, fraction width, bias);
- the size of the C type the fraction is printed from;
- the minimum digit count of the hex line.

`DecodeFloat` and `DecodeDouble` are the program's two instances.
`DecodeFloatBits` and `DecodeDoubleBits` run `Decode` on them. Mantissas are
exact `real`s.

Modules:

- `Numerals`: powers, division facts, and zero-padded base-b digit strings
  (`Digits`, `Numeral`) with their read-back `ValueOf`.
- `BitOps`: `>>` and `&` on naturals, and the two ways the program uses `&`
  (a low mask keeps a field; a single bit tests it).
- `Binary`: `print_bin`, as the two mask loops of the C routine.
- `Ieee754`: formats, field extraction and composition, the four modes, and
  the exact interpretation. Each is related to the datum kinds and the
  value formula of section 3.4 of IEEE 754-2008.
- `Defloat`: the decoder report and worked examples.

## Model

| member | source | states |
|---|---|---|
| Binary.PrintBin | defloat.cpp:10-21 | print_bin(num, width) prints the binary rendering of num zero-padded to at least width digits, i.e. `Numeral(num, 2, width)`, for 1 <= width <= bits of T |
| Binary.SkipHighZeros | defloat.cpp:14-17 | the first loop stops with the mask at bit max(width, bit length of num) - 1: it passes every clear high bit and stops at the first set bit or at bit width - 1 |
| Binary.PrintFromMask | defloat.cpp:19-20 | the second loop, started at bit len - 1, prints the len low bits of num, most significant first |
| Binary.BinaryNumeral | defloat.cpp:10-21 | what print_bin prints has length max(width, bit length of num), which is exactly width when num < 2^width; it holds only '0' and '1'; it reads back as num; and it starts with '1' when it is longer than width |
| Binary.StartLength | defloat.cpp:15-17 | where the skipping loop stops determines the number of digits printed: max(width, bit length) |
| Binary.EmitBit | defloat.cpp:20 | printing the digit for the bit under the mask extends the rendering of the higher bits by one digit |
| BitOps.ShiftRight | defloat.cpp:32-33 | `x >> k` on an unsigned value, defined as the quotient by 2^k; its contract is stated by BitOps.ShiftRightSplits |
| BitOps.ShiftRightSplits | defloat.cpp:32-33 | `x >> k` drops exactly the k low bits: x == (x >> k) * 2^k + x mod 2^k, with the remainder below 2^k |
| BitOps.And | defloat.cpp:16-20 | `x & y`, bit by bit; the result is at most each operand, and BitOps.AndLowMask and BitOps.AndSingleBit state the two ways the program uses it |
| BitOps.AndLowMask | defloat.cpp:33-34 | masking with 2^k - 1 (0xFF, FRAC_MASK) keeps the value modulo 2^k |
| BitOps.AndSingleBit | defloat.cpp:16-20 | `num & bit_mask` with bit_mask = 2^k is non-zero exactly when bit k of num is set |
| Ieee754.StandardFormats | defloat.cpp:29-33 | binary32 and binary64 are well formed; their masks are 0xFF / 0x7FFFFF and 0x7FF / 0xFFFFFFFFFFFFF; their subnormal powers are -126 and -1022 |
| Ieee754.Extract | defloat.cpp:32-34 | the extracted sign, exponent and fraction fit their fields and compose back to the pattern |
| Ieee754.ExtractionFacts | defloat.cpp:117-119 | the shift and masks of the extraction give a sign below 2, fields below 2^ew and 2^fw, and sign * 2^(W-1) + exponent * 2^fw + fraction equal to the pattern |
| Ieee754.ExtractCompose | defloat.cpp:32-34 | extraction inverts composition for every field triple that fits |
| Ieee754.ComposeInjective | defloat.cpp:117-119 | two field triples that fit and give the same pattern are equal |
| Defloat.SingleExtraction | defloat.cpp:32-34 | for a 32-bit pattern: sign < 2, exponent < 256, fraction < 2^23, and sign * 2^31 + exponent * 2^23 + fraction is the pattern |
| Defloat.DoubleExtraction | defloat.cpp:117-119 | for a 64-bit pattern: sign < 2, exponent < 2^11, fraction < 2^52, and sign * 2^63 + exponent * 2^52 + fraction is the pattern |
| Ieee754.Classify | defloat.cpp:38-42 | the mode switch on the exponent field; its contract is stated by Ieee754.ClassifyMatchesStandard (the standard's datum kinds) and Ieee754.ClassifyByMagnitude (the sign-cleared pattern) |
| Ieee754.ModeOf | defloat.cpp:123-127 | the mode of a raw pattern: the switch applied to its extracted fields; Defloat.Decode and Defloat.DecodeFloatBits report it |
| Ieee754.ClassifyMatchesStandard | defloat.cpp:38-42 | the mode switch gives each pattern one of the four modes. Infinite, NaN and Normal are exactly the standard's infinity, NaN and normal data; Subnormal is exactly its subnormals and zeros |
| Ieee754.ClassifyByMagnitude | defloat.cpp:123-127 | with the sign bit cleared: magnitudes below 2^fw are Subnormal, those below the infinity pattern are Normal, the infinity pattern is Infinite, and larger ones are NaN |
| Ieee754.Interpret | defloat.cpp:91-106 | the value the interpretation line is printed from, with the exact mantissa; its contract is stated by Ieee754.NormalInterpretation, Ieee754.SubnormalInterpretation, Ieee754.InfinityBySignOnly, Ieee754.NaNIgnoresSignAndPayload, Ieee754.InterpretInjective and Ieee754.ScaledIsStandardValue |
| Ieee754.NormalInterpretation | defloat.cpp:92-93 | a normal pattern has the sign bit as sign, the exact mantissa 1 + fraction / 2^fw in [1, 2) (before `%.10f` rounding), and the power exponent - bias in [1 - bias, bias] |
| Ieee754.SubnormalInterpretation | defloat.cpp:96-97 | a subnormal pattern has the exact mantissa fraction / 2^fw in [0, 1), which is 0 exactly for a zero fraction, and the fixed power 1 - bias |
| Ieee754.ZeroInterpretation | defloat.cpp:96-97 | an all-zero exponent and fraction is exactly ±0 times 2^(1 - bias) |
| Ieee754.FractionValueRange | defloat.cpp:29-30 | fraction / FRAC_DIV lies in [0, 1) and is 0 exactly for fraction 0 |
| Ieee754.InfinityBySignOnly | defloat.cpp:100-101 | an infinite pattern is ±inf by its sign bit, so two infinities are reported alike exactly when their signs agree |
| Ieee754.NaNIgnoresSignAndPayload | defloat.cpp:104-105 | every NaN prints plain `nan`, whatever its sign and payload |
| Ieee754.InterpretInjective | defloat.cpp:91-106 | two patterns that are not NaN and have the same exact interpretation (sign, exact mantissa, power) have the same fields; the rounded `%.10f` text does not have this property |
| Ieee754.ScaledIsStandardValue | defloat.cpp:92-97 | the exact ±mantissa * 2^power is the standard's value (-1)^S * M * 2^(max(E, 1) - bias - fw), where M is the integral significand |
| Defloat.DecodersFit | defloat.cpp:117-119 | both decoder instances have valid layouts, and every field fits the C type print_bin is instantiated with for it (`unsigned`, or `long long` for the double fraction) |
| Defloat.Decode | defloat.cpp:26-108 | the report's three binary fields spell out the pattern in full and read back to it. The sign character is '-' exactly for a set top bit. Mode and interpretation come from the extracted fields, and the sign is marked ignored exactly for NaN. The annotations agree with the interpretation: the exponent note is the extracted exponent field and its unbiased value exactly for Normal, the subnormal power exactly for Subnormal, " (inf) " exactly for Infinite and " (nan) " exactly for NaN; the fraction note is the exact mantissa, inf or nan in the same way. The hex line is "0x" and then at least hexDigits upper-case hex digits that read back to the pattern |
| Defloat.DecodeFloatBits | defloat.cpp:26-109 | decode_float: fields of 1, 8 and 23 bits spell out the 32-bit pattern; the sign is '-' exactly from 0x80000000 up and '+' below it; the subnormal power is -126; normal powers lie in [-126, 127]; the mode and exact interpretation are those of the extracted fields, with a normal mantissa in [1, 2) and a subnormal one in [0, 1); the sign is marked ignored exactly for NaN; the exponent note is " (e - 127 = p) " exactly for Normal, with e the extracted exponent field and p = e - 127 the interpretation's power, " (-126, subnormal) " exactly for Subnormal, " (inf) " exactly for Infinite and " (nan) " exactly for NaN; the fraction note is the mantissa exactly when there is one, " (inf) " exactly for Infinite and " (nan, precise value ignored) " exactly for NaN; the hex line is "0x" and at least 4 upper-case hex digits that read back to the pattern |
| Defloat.DecodeDoubleBits | defloat.cpp:111-194 | decode_double: fields of 1, 11 and 52 bits spell out the 64-bit pattern; the subnormal power is -1022; normal powers lie in [-1022, 1023]; the mode and exact interpretation are those of the extracted fields, with a normal mantissa in [1, 2) and a subnormal one in [0, 1); the sign is '-' exactly from 0x8000000000000000 up and '+' below it; the sign is marked ignored exactly for NaN; the exponent note is " (e - 1023 = p) " exactly for Normal, with e the extracted exponent field and p = e - 1023 the interpretation's power, " (-1022, subnormal) " exactly for Subnormal, " (inf) " exactly for Infinite and " (nan) " exactly for NaN; the fraction note is the mantissa exactly when there is one, " (inf) " exactly for Infinite and " (nan, precise value ignored) " exactly for NaN; the hex line is "0x" and at least 8 upper-case hex digits that read back to the pattern |
| Defloat.Representation | defloat.cpp:45-69 | print_bin(sign, 1), print_bin(exponent, ew) and print_bin(fraction, fw), one after another, print the W-bit rendering of the pattern, at lengths 1, ew and fw |
| Defloat.RenderedFieldsRoundTrip | defloat.cpp:132-154 | the three field renderings concatenated equal the W-digit rendering of the pattern and read back to it |
| Defloat.SignChar | defloat.cpp:48 | `sign ? '-' : '+'`; its contract is stated by Defloat.SignCharOfPattern |
| Defloat.ExponentNoteOf | defloat.cpp:51-67 | the exponent annotation chosen by the mode switch; its contract is stated by Defloat.NotesMatchInterpretation |
| Defloat.FractionNoteOf | defloat.cpp:70-86 | the fraction annotation chosen by the mode switch; its contract is stated by Defloat.NotesMatchInterpretation |
| Defloat.AnnotationLines | defloat.cpp:47-106 | the report built around the binary fields and the hex line: its sign character is '-' exactly for a set sign bit, its "ignored" mark is set exactly for NaN, its mode and interpretation are those of the extracted fields, and each annotation holds exactly in its own mode and agrees with the interpretation |
| Defloat.NotesMatchInterpretation | defloat.cpp:51-86 | the exponent annotation shows the unbiased exponent exactly in Normal mode, and the same power as the interpretation line; the subnormal note exactly in Subnormal mode, with the same fixed power; " (inf) " exactly in Infinite mode and " (nan) " exactly in NaN mode. The fraction annotation shows the same exact mantissa as the interpretation line, or inf exactly for an infinity, or nan exactly for a NaN |
| Defloat.SignCharOfPattern | defloat.cpp:48 | `sign ? '-' : '+'` gives '-' exactly when the pattern's top bit is set |
| Defloat.NormalPowerRange | defloat.cpp:53 | the unbiased exponent shown for a normal pattern lies in [1 - bias, bias] |
| Defloat.MantissaRange | defloat.cpp:72-76 | the exact mantissa behind the fraction annotation lies in [1, 2) for a normal pattern and in [0, 1) for a subnormal one |
| Defloat.HexLine | defloat.cpp:108 | `0x%04X` gives "0x" and then max(minimum, digits needed) upper-case hex digits ('0'-'9', 'A'-'F') that read back to the pattern |
| Defloat.HexLineUnique | defloat.cpp:108 | any string of hex digits of the same length that reads back to the pattern is the printed one, so the digits are fixed, not merely their value |
| Defloat.ZeroDecodes | defloat.cpp:38-39 | in every format the all-zero pattern has fields (0, 0, 0), is reported as Subnormal and is exactly +0 * 2^(1 - bias) |
| Defloat.SingleZero | defloat.cpp:39 | 0x00000000 decodes as Subnormal, +0 * 2^-126 |
| Defloat.SingleOne | defloat.cpp:41 | 0x3F800000 decodes to fields (0, 127, 0), Normal, +1.0 * 2^0 |
| Defloat.DoubleMinusTwoAndAHalf | defloat.cpp:117-127 | 0xC004000000000000 decodes to fields (1, 1024, 2^50), Normal, -1.25 * 2^1 |
| Defloat.SingleInfinities | defloat.cpp:40 | 0x7F800000 and 0xFF800000 decode as Infinite, +inf and -inf |
| Defloat.SingleQuietNaN | defloat.cpp:40 | 0x7FC00000 decodes as NaN with fraction 2^22, printed as plain nan |
| Defloat.SingleAllOnes | defloat.cpp:40 | 0xFFFFFFFF decodes as NaN with sign 1 and full payload, printed as plain nan |

## Left out

- `main`, `strtod` parsing and the usage failure (defloat.cpp:196-214): command-line glue over the C library parser. The model's input is the raw pattern.
- The type-punning casts (defloat.cpp:27, 112) and the double to float narrowing of the argument (defloat.cpp:211): these are floating-point and aliasing behaviour; the pattern is given directly instead.
- `printf`, `puts`, `putchar` and the fixed label texts: output plumbing. Each line is modelled by the values it prints; `print_bin` returns its digits as a string.
- The signed overflow of `1LL << 63` in print_bin for a 64-bit T: a C artefact. Masks here are unbounded naturals, and the model uses the intended value 2^63.
- Binary.PrintBin: requires 1 <= width <= the bit size of T. `width` is `unsigned`, so for width 0 the expression `width - 1` wraps to UINT_MAX, and the shift `1LL << UINT_MAX` is undefined behaviour. A width above the size of T never ends the skipping loop when num is 0. The default argument `width = CHAR_BIT*sizeof(T)` is never used by the program.
- Decimal rendering of mantissas (`%.10f`): floating-point formatting. The model keeps the exact rational mantissa the program rounds, so Ieee754.NormalInterpretation, Ieee754.SubnormalInterpretation and Ieee754.InterpretInjective hold of the exact value, not of the printed digits. Rounding to ten decimals merges nearby binary64 mantissas: 0x3FF0000000000000 and 0x3FF0000000000001 both print `+1.0000000000 * 2^0`, 0x3FFFFFFFFFFFFFFF prints mantissa `2.0000000000`, and 0x0000000000000001 prints `0.0000000000` for a non-zero fraction.
- The hex line follows the code's minimum widths, `%04` for binary32 and `%08` for binary64. These give at least 4 and 8 digits, not the 8 and 16 a full pattern needs. Small patterns such as 0x00000001 therefore print as `0x0001`.
- Formats other than binary32 and binary64: the `Decoder` record makes `Decode` accept any format that fits its C types, but the program only ever uses the two instances `DecodeFloat` and `DecodeDouble`.
