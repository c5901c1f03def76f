/**
 decode_float and decode_double of defloat.cpp as one routine over the
 precision: extract the fields of the raw pattern, classify it, and produce
 the report the program prints — the three fields in binary with their
 annotations, the interpretation line and the hex line. The printing itself
 (printf, puts, `%.10f`) is not modelled: each line is given by the values it
 is printed from.
 */
module Defloat {
  import opened Numerals
  import opened BitOps
  import opened Binary
  import opened Ieee754

  /** Size of `unsigned`, the type both decoders hold the sign and exponent
      in. */
  const UnsignedBits: nat := 32

  /** What tells decode_float and decode_double apart: the interchange
      format read, the size of the C type the fraction is handed to print_bin
      in (`unsigned` for single precision, `long long` for double), and the
      minimum digit count of the hex line (`%04` and `%08`). */
  datatype Decoder = Decoder(layout: Format, fractionTypeBits: nat, hexDigits: nat)
  {
    /** The layout is a valid format and each field fits the C type print_bin
        is instantiated with for it. */
    predicate Fits()
    {
      layout.Valid()
      && layout.exponentWidth <= UnsignedBits
      && layout.fractionWidth <= fractionTypeBits
    }
  }

  /** decode_float. */
  const DecodeFloat: Decoder := Decoder(Binary32, 32, 4)

  /** decode_double. */
  const DecodeDouble: Decoder := Decoder(Binary64, 64, 8)

  /** Both decoders of the program meet what the shared routine needs. */
  lemma DecodersFit()
    ensures DecodeFloat.Fits() && DecodeDouble.Fits()
    ensures DecodeFloat.layout.width == 32 && DecodeDouble.layout.width == 64
  {
    StandardFormats();
  }

  /** The annotation after the exponent bits. */
  datatype ExponentNote =
    | Unbiased(biased: nat, unbiased: int)   // " (e - bias = p) "
    | SubnormalExponent(power: int)          // " (-126, subnormal) "
    | InfExponent                            // " (inf) "
    | NanExponent                            // " (nan) "

  /** The annotation after the fraction bits. */
  datatype FractionNote =
    | MantissaNote(mantissa: real)           // " (%.10f)"
    | InfFraction                            // " (inf) "
    | NanFraction                            // " (nan, precise value ignored) "

  /** Everything one decoder prints, line by line. */
  datatype Report = Report(
    signBits: string, signChar: char, signIgnored: bool,
    exponentBits: string, exponentNote: ExponentNote,
    fractionBits: string, fractionNote: FractionNote,
    mode: Mode, interpretation: Interpretation,
    hex: string)

  /** `sign ? '-' : '+'`. */
  function SignChar(sign: nat): char
  {
    if sign != 0 then '-' else '+'
  }

  /** The three binary fields, printed one after another, are exactly the
      raw pattern written out in full: the representation line loses and
      reorders nothing. */
  lemma {:induction false} RenderedFieldsRoundTrip(f: Format, bits: nat)
    requires f.Valid() && bits < Pow(2, f.width)
    ensures Numeral(Extract(f, bits).sign, 2, 1)
            + Numeral(Extract(f, bits).exponent, 2, f.exponentWidth)
            + Numeral(Extract(f, bits).fraction, 2, f.fractionWidth)
            == Digits(bits, 2, f.width)
    ensures ValueOf(Numeral(Extract(f, bits).sign, 2, 1)
                    + Numeral(Extract(f, bits).exponent, 2, f.exponentWidth)
                    + Numeral(Extract(f, bits).fraction, 2, f.fractionWidth), 2) == bits
    ensures |Numeral(Extract(f, bits).sign, 2, 1)| == 1
    ensures |Numeral(Extract(f, bits).exponent, 2, f.exponentWidth)| == f.exponentWidth
    ensures |Numeral(Extract(f, bits).fraction, 2, f.fractionWidth)| == f.fractionWidth
  {
    var x := Extract(f, bits);
    var t := ShiftRight(bits, f.fractionWidth);
    var e := Pow(2, f.exponentWidth);
    assert x.sign == Quotient(t, e) && x.exponent == t % e
        && x.fraction == bits % Pow(2, f.fractionWidth) by {
      AndLowMask(bits, f.fractionWidth);
      AndLowMask(t, f.exponentWidth);
      SignIsTop(f, bits);
    }
    // width = (1 + exponentWidth) + fractionWidth, and 1 + exponentWidth splits again.
    assert Digits(bits, 2, f.width) == Digits(t, 2, 1 + f.exponentWidth) + Digits(bits, 2, f.fractionWidth) by {
      DigitsSplit(bits, 2, 1 + f.exponentWidth, f.fractionWidth);
    }
    assert Digits(t, 2, 1 + f.exponentWidth) == Digits(x.sign, 2, 1) + Digits(t, 2, f.exponentWidth) by {
      DigitsSplit(t, 2, 1, f.exponentWidth);
    }
    assert Digits(bits, 2, f.fractionWidth) == Digits(x.fraction, 2, f.fractionWidth) by {
      DigitsMod(bits, 2, f.fractionWidth);
    }
    assert Digits(t, 2, f.exponentWidth) == Digits(x.exponent, 2, f.exponentWidth) by {
      DigitsMod(t, 2, f.exponentWidth);
    }
    FitsInWidth(x.sign, 1);
    FitsInWidth(x.exponent, f.exponentWidth);
    FitsInWidth(x.fraction, f.fractionWidth);
    ReadBack(bits, 2, f.width);
  }

  /** A value below 2^w is rendered in exactly w digits. */
  lemma FitsInWidth(v: nat, w: nat)
    requires v < Pow(2, w)
    ensures Numeral(v, 2, w) == Digits(v, 2, w)
  {
    DigitLengthBound(v, 2, w);
  }

  /** One decoder run on a raw pattern of its format: what decode_float or
      decode_double prints, given as values. */
  method Decode(d: Decoder, bits: nat) returns (r: Report)
    requires d.Fits() && bits < Pow(2, d.layout.width)
    ensures r.signBits + r.exponentBits + r.fractionBits == Digits(bits, 2, d.layout.width)
    ensures ValueOf(r.signBits + r.exponentBits + r.fractionBits, 2) == bits
    ensures |r.signBits| == 1
    ensures |r.exponentBits| == d.layout.exponentWidth
    ensures |r.fractionBits| == d.layout.fractionWidth
    ensures r.signChar == '-' || r.signChar == '+'
    ensures r.signChar == '-' <==> bits >= d.layout.SignWeight()
    ensures r.mode == ModeOf(d.layout, bits)
    ensures r.interpretation == Interpret(d.layout, Extract(d.layout, bits))
    ensures r.signIgnored <==> r.interpretation.NotANumber?
    ensures r.exponentNote.Unbiased? <==> r.mode == Normal
    ensures r.exponentNote.Unbiased? ==>
              r.exponentNote.unbiased == r.interpretation.power
              && r.exponentNote.biased - d.layout.bias == r.exponentNote.unbiased
    ensures r.exponentNote.Unbiased? ==> r.exponentNote.biased == Extract(d.layout, bits).exponent
    ensures r.exponentNote.SubnormalExponent? <==> r.mode == Subnormal
    ensures r.exponentNote.SubnormalExponent? ==> r.exponentNote.power == r.interpretation.power
    ensures r.exponentNote == InfExponent <==> r.mode == Infinite
    ensures r.exponentNote == NanExponent <==> r.mode == NaN
    ensures r.fractionNote.MantissaNote? <==> r.interpretation.Scaled?
    ensures r.fractionNote.MantissaNote? ==> r.fractionNote.mantissa == r.interpretation.mantissa
    ensures r.fractionNote == InfFraction <==> r.interpretation.Infinity?
    ensures r.fractionNote == NanFraction <==> r.interpretation.NotANumber?
    ensures |r.hex| == 2 + Max(d.hexDigits, DigitLength(bits, 16))
    ensures r.hex[..2] == "0x" && ValueOf(r.hex[2..], 16) == bits
    ensures AllDigits(r.hex[2..], 16)
  {
    var signBits, exponentBits, fractionBits := Representation(d, bits);
    var hex := "0x" + Numeral(bits, 16, d.hexDigits);
    HexLine(bits, d.hexDigits, hex);
    r := AnnotationLines(d.layout, bits, signBits, exponentBits, fractionBits, hex);
  }

  /** decode_float on a 32-bit pattern: 1 + 8 + 23 bits that spell out the
      pattern, the fixed subnormal power -126, and a hex line of at least 4
      digits. */
  method DecodeFloatBits(bits: nat) returns (r: Report)
    requires bits < 0x1_0000_0000
    ensures |r.signBits| == 1 && |r.exponentBits| == 8 && |r.fractionBits| == 23
    ensures r.signBits + r.exponentBits + r.fractionBits == Digits(bits, 2, 32)
    ensures r.signChar == '-' || r.signChar == '+'
    ensures r.signChar == '-' <==> bits >= 0x8000_0000
    ensures r.exponentNote.SubnormalExponent? ==> r.exponentNote.power == -126
    ensures r.exponentNote.Unbiased? ==> -126 <= r.exponentNote.unbiased <= 127
    ensures |r.hex| == 2 + Max(4, DigitLength(bits, 16)) && ValueOf(r.hex[2..], 16) == bits
    ensures r.hex[..2] == "0x" && AllDigits(r.hex[2..], 16)
    ensures Binary32.Valid() && bits < Pow(2, 32)
    ensures r.mode == ModeOf(Binary32, bits)
    ensures r.interpretation == Interpret(Binary32, Extract(Binary32, bits))
    ensures r.mode == Normal ==> r.interpretation.Scaled? && 1.0 <= r.interpretation.mantissa < 2.0
    ensures r.mode == Subnormal ==> r.interpretation.Scaled? && 0.0 <= r.interpretation.mantissa < 1.0
    ensures r.signIgnored <==> r.mode == NaN
    ensures r.exponentNote.Unbiased? <==> r.mode == Normal
    ensures r.exponentNote.Unbiased? ==>
              r.interpretation.Scaled?
              && r.exponentNote.biased == Extract(Binary32, bits).exponent
              && r.exponentNote.unbiased == r.exponentNote.biased - 127 == r.interpretation.power
    ensures r.exponentNote.SubnormalExponent? <==> r.mode == Subnormal
    ensures r.exponentNote == InfExponent <==> r.mode == Infinite
    ensures r.exponentNote == NanExponent <==> r.mode == NaN
    ensures r.fractionNote.MantissaNote? <==> r.interpretation.Scaled?
    ensures r.interpretation.Scaled? ==> r.fractionNote == MantissaNote(r.interpretation.mantissa)
    ensures r.fractionNote == InfFraction <==> r.mode == Infinite
    ensures r.fractionNote == NanFraction <==> r.mode == NaN
  {
    DecodersFit();
    PowTwo30s();
    r := Decode(DecodeFloat, bits);
    NormalPowerRange(DecodeFloat.layout, bits);
    StandardFormats();
    MantissaRange(Binary32, Extract(Binary32, bits));
  }

  /** decode_double on a 64-bit pattern: 1 + 11 + 52 bits that spell out the
      pattern, the fixed subnormal power -1022, and a hex line of at least 8
      digits. */
  method DecodeDoubleBits(bits: nat) returns (r: Report)
    requires bits < 0x1_0000_0000_0000_0000
    ensures |r.signBits| == 1 && |r.exponentBits| == 11 && |r.fractionBits| == 52
    ensures r.signBits + r.exponentBits + r.fractionBits == Digits(bits, 2, 64)
    ensures r.signChar == '-' || r.signChar == '+'
    ensures r.signChar == '-' <==> bits >= 0x8000_0000_0000_0000
    ensures r.exponentNote.SubnormalExponent? ==> r.exponentNote.power == -1022
    ensures r.exponentNote.Unbiased? ==> -1022 <= r.exponentNote.unbiased <= 1023
    ensures |r.hex| == 2 + Max(8, DigitLength(bits, 16)) && ValueOf(r.hex[2..], 16) == bits
    ensures r.hex[..2] == "0x" && AllDigits(r.hex[2..], 16)
    ensures Binary64.Valid() && bits < Pow(2, 64)
    ensures r.mode == ModeOf(Binary64, bits)
    ensures r.interpretation == Interpret(Binary64, Extract(Binary64, bits))
    ensures r.mode == Normal ==> r.interpretation.Scaled? && 1.0 <= r.interpretation.mantissa < 2.0
    ensures r.mode == Subnormal ==> r.interpretation.Scaled? && 0.0 <= r.interpretation.mantissa < 1.0
    ensures r.signIgnored <==> r.mode == NaN
    ensures r.exponentNote.Unbiased? <==> r.mode == Normal
    ensures r.exponentNote.Unbiased? ==>
              r.interpretation.Scaled?
              && r.exponentNote.biased == Extract(Binary64, bits).exponent
              && r.exponentNote.unbiased == r.exponentNote.biased - 1023 == r.interpretation.power
    ensures r.exponentNote.SubnormalExponent? <==> r.mode == Subnormal
    ensures r.exponentNote == InfExponent <==> r.mode == Infinite
    ensures r.exponentNote == NanExponent <==> r.mode == NaN
    ensures r.fractionNote.MantissaNote? <==> r.interpretation.Scaled?
    ensures r.interpretation.Scaled? ==> r.fractionNote == MantissaNote(r.interpretation.mantissa)
    ensures r.fractionNote == InfFraction <==> r.mode == Infinite
    ensures r.fractionNote == NanFraction <==> r.mode == NaN
  {
    DecodersFit();
    PowTwo60s();
    r := Decode(DecodeDouble, bits);
    NormalPowerRange(DecodeDouble.layout, bits);
    StandardFormats();
    MantissaRange(Binary64, Extract(Binary64, bits));
  }

  /** The unbiased exponent of a normal pattern lies in [1 - bias, bias]. */
  lemma NormalPowerRange(f: Format, bits: nat)
    requires f.Valid() && bits < Pow(2, f.width)
    ensures ExponentNoteOf(f, Extract(f, bits)).Unbiased? ==>
              1 - f.bias <= ExponentNoteOf(f, Extract(f, bits)).unbiased <= f.bias
  {
    var x := Extract(f, bits);
    if Classify(f, x.exponent, x.fraction) == Normal {
      NormalInterpretation(f, x);
    }
  }

  /** The exact mantissa lies in [1, 2) for a normal pattern and in [0, 1)
      for a subnormal one. */
  lemma MantissaRange(f: Format, x: Fields)
    requires f.Valid() && FieldsFit(f, x)
    ensures Classify(f, x.exponent, x.fraction) == Normal ==>
              1.0 <= Interpret(f, x).mantissa < 2.0
    ensures Classify(f, x.exponent, x.fraction) == Subnormal ==>
              0.0 <= Interpret(f, x).mantissa < 1.0
  {
    if Classify(f, x.exponent, x.fraction) == Normal {
      NormalInterpretation(f, x);
    } else if Classify(f, x.exponent, x.fraction) == Subnormal {
      SubnormalInterpretation(f, x);
    }
  }

  /** The representation line: the sign, exponent and fraction fields of
      `bits` dumped with print_bin at their own widths. */
  method Representation(d: Decoder, bits: nat) returns (s: string, e: string, m: string)
    requires d.Fits() && bits < Pow(2, d.layout.width)
    ensures s + e + m == Digits(bits, 2, d.layout.width)
    ensures ValueOf(s + e + m, 2) == bits
    ensures |s| == 1 && |e| == d.layout.exponentWidth && |m| == d.layout.fractionWidth
  {
    var f := d.layout;
    var x := Extract(f, bits);
    PowIncreasing(2, 1, UnsignedBits);
    PowIncreasing(2, f.exponentWidth, UnsignedBits);
    PowIncreasing(2, f.fractionWidth, d.fractionTypeBits);
    s := PrintBin(x.sign, 1, UnsignedBits);
    e := PrintBin(x.exponent, f.exponentWidth, UnsignedBits);
    m := PrintBin(x.fraction, f.fractionWidth, d.fractionTypeBits);
    RenderedFieldsRoundTrip(f, bits);
  }

  /** The report around the given binary fields and hex line: the sign
      character, the "ignored" mark, the mode, the two annotations and the
      interpretation line, each computed from the fields of `bits` as
      decode_float and decode_double do. */
  method AnnotationLines(f: Format, bits: nat, signBits: string, exponentBits: string,
                         fractionBits: string, hex: string) returns (r: Report)
    requires f.Valid() && bits < Pow(2, f.width)
    ensures r.signBits == signBits && r.exponentBits == exponentBits
    ensures r.fractionBits == fractionBits && r.hex == hex
    ensures r.signChar == '-' || r.signChar == '+'
    ensures r.signChar == '-' <==> bits >= f.SignWeight()
    ensures r.mode == ModeOf(f, bits)
    ensures r.interpretation == Interpret(f, Extract(f, bits))
    ensures r.signIgnored <==> r.interpretation.NotANumber?
    ensures r.exponentNote.Unbiased? <==> r.mode == Normal
    ensures r.exponentNote.Unbiased? ==>
              r.exponentNote.unbiased == r.interpretation.power
              && r.exponentNote.biased - f.bias == r.exponentNote.unbiased
    ensures r.exponentNote.Unbiased? ==> r.exponentNote.biased == Extract(f, bits).exponent
    ensures r.exponentNote.SubnormalExponent? <==> r.mode == Subnormal
    ensures r.exponentNote.SubnormalExponent? ==> r.exponentNote.power == r.interpretation.power
    ensures r.exponentNote == InfExponent <==> r.mode == Infinite
    ensures r.exponentNote == NanExponent <==> r.mode == NaN
    ensures r.fractionNote.MantissaNote? <==> r.interpretation.Scaled?
    ensures r.fractionNote.MantissaNote? ==> r.fractionNote.mantissa == r.interpretation.mantissa
    ensures r.fractionNote == InfFraction <==> r.interpretation.Infinity?
    ensures r.fractionNote == NanFraction <==> r.interpretation.NotANumber?
  {
    var x := Extract(f, bits);
    var mode := Classify(f, x.exponent, x.fraction);
    r := Report(signBits, SignChar(x.sign), mode == NaN,
                exponentBits, ExponentNoteOf(f, x),
                fractionBits, FractionNoteOf(f, x),
                mode, Interpret(f, x), hex);
    NotesMatchInterpretation(f, x);
    SignCharOfPattern(f, bits);
  }

  /** The exponent annotation for the given fields. */
  function ExponentNoteOf(f: Format, x: Fields): ExponentNote
  {
    match Classify(f, x.exponent, x.fraction)
    case Normal => Unbiased(x.exponent, x.exponent - f.bias)
    case Subnormal => SubnormalExponent(1 - f.bias)
    case Infinite => InfExponent
    case NaN => NanExponent
  }

  /** The fraction annotation for the given fields. */
  function FractionNoteOf(f: Format, x: Fields): FractionNote
  {
    match Classify(f, x.exponent, x.fraction)
    case Normal => MantissaNote(1.0 + FractionValue(f, x.fraction))
    case Subnormal => MantissaNote(FractionValue(f, x.fraction))
    case Infinite => InfFraction
    case NaN => NanFraction
  }

  /** The annotations, computed on their own, agree with the interpretation
      line: the unbiased exponent and the mantissa shown next to the fields
      are the power and mantissa of the value, and the special cases line up. */
  lemma NotesMatchInterpretation(f: Format, x: Fields)
    ensures ExponentNoteOf(f, x).Unbiased? <==> Classify(f, x.exponent, x.fraction) == Normal
    ensures ExponentNoteOf(f, x).Unbiased? ==>
              ExponentNoteOf(f, x).unbiased == Interpret(f, x).power
              && ExponentNoteOf(f, x).biased - f.bias == ExponentNoteOf(f, x).unbiased
    ensures ExponentNoteOf(f, x).Unbiased? ==> ExponentNoteOf(f, x).biased == x.exponent
    ensures ExponentNoteOf(f, x).SubnormalExponent? <==> Classify(f, x.exponent, x.fraction) == Subnormal
    ensures ExponentNoteOf(f, x).SubnormalExponent? ==>
              ExponentNoteOf(f, x).power == Interpret(f, x).power
    ensures ExponentNoteOf(f, x) == InfExponent <==> Classify(f, x.exponent, x.fraction) == Infinite
    ensures ExponentNoteOf(f, x) == NanExponent <==> Classify(f, x.exponent, x.fraction) == NaN
    ensures FractionNoteOf(f, x).MantissaNote? <==> Interpret(f, x).Scaled?
    ensures FractionNoteOf(f, x).MantissaNote? ==>
              FractionNoteOf(f, x).mantissa == Interpret(f, x).mantissa
    ensures FractionNoteOf(f, x) == InfFraction <==> Interpret(f, x).Infinity?
    ensures FractionNoteOf(f, x) == NanFraction <==> Interpret(f, x).NotANumber?
    ensures Classify(f, x.exponent, x.fraction) == NaN <==> Interpret(f, x).NotANumber?
  {
  }

  /** The sign character is '-' exactly when the top bit of the pattern is set. */
  lemma SignCharOfPattern(f: Format, bits: nat)
    requires f.Valid() && bits < Pow(2, f.width)
    ensures SignChar(Extract(f, bits).sign) == '-' <==> bits >= f.SignWeight()
  {
    var x := Extract(f, bits);
    ComposeMagnitude(f, x);
    var p := Pow(2, f.width - 1);
    assert p == f.SignWeight();
    if bits < p {
      DivModUnique(bits, p, 0, bits);
    }
  }

  /** The hex line: "0x" and then the pattern in at least minDigits
      upper-case hex digits. */
  lemma HexLine(bits: nat, minDigits: nat, hex: string)
    requires hex == "0x" + Numeral(bits, 16, minDigits)
    ensures |hex| == 2 + Max(minDigits, DigitLength(bits, 16))
    ensures hex[..2] == "0x" && ValueOf(hex[2..], 16) == bits
    ensures AllDigits(hex[2..], 16)
  {
    NumeralProperties(bits, 16, minDigits);
    assert hex[2..] == Numeral(bits, 16, minDigits);
  }

  /** The hex line is the only string of its length, made of hex digits, that
      reads back to the pattern: the digits are not merely some spelling of
      the value. */
  lemma HexLineUnique(bits: nat, minDigits: nat, hex: string, s: string)
    requires hex == "0x" + Numeral(bits, 16, minDigits)
    requires AllDigits(s, 16) && |s| + 2 == |hex| && ValueOf(s, 16) == bits
    ensures s == hex[2..]
  {
    assert hex[2..] == Numeral(bits, 16, minDigits);
    DigitsOfValue(s, 16);
  }

  /** `bits` is decoded, under format f, into the fields x, the mode m and
      the interpretation v. */
  predicate DecodesTo(f: Format, bits: nat, x: Fields, m: Mode, v: Interpretation)
  {
    f.Valid() && bits < Pow(2, f.width)
    && Extract(f, bits) == x && ModeOf(f, bits) == m && Interpret(f, x) == v
  }

  /** A field triple that fits decodes to its own mode and interpretation
      once composed into a pattern. */
  lemma DecodesByFields(f: Format, bits: nat, x: Fields, m: Mode, v: Interpretation)
    requires f.Valid() && FieldsFit(f, x) && Compose(f, x) == bits
    requires Classify(f, x.exponent, x.fraction) == m && Interpret(f, x) == v
    ensures DecodesTo(f, bits, x, m, v)
  {
    ExtractCompose(f, x);
  }

  // The lemmas below take the format and the pattern as parameters fixed by
  // `requires`: with literal arguments the solver unfolds Pow and Extract
  // without bound.

  /** The single precision layout with its constants written out. */
  lemma SingleLayout(f: Format, x: Fields)
    requires f == Binary32
    ensures f.Valid() && f.ExponentMask() == 0xFF && f.bias == 127
    ensures FieldsFit(f, x) <==> x.sign < 2 && x.exponent < 0x100 && x.fraction < 0x80_0000
    ensures Compose(f, x) == x.sign * 0x8000_0000 + x.exponent * 0x80_0000 + x.fraction
  {
    StandardFormats();
    PowTwoSmall();
    PowTwo20s();
    PowTwo30s();
  }

  /** The double precision layout with its constants written out. */
  lemma DoubleLayout(f: Format, x: Fields)
    requires f == Binary64
    ensures f.Valid() && f.ExponentMask() == 0x7FF && f.bias == 1023
    ensures FieldsFit(f, x) <==> x.sign < 2 && x.exponent < 0x800 && x.fraction < 0x10_0000_0000_0000
    ensures Compose(f, x) == x.sign * 0x8000_0000_0000_0000 + x.exponent * 0x10_0000_0000_0000 + x.fraction
  {
    StandardFormats();
    PowTwoSmall();
    PowTwo50s();
    PowTwo60s();
  }

  /** decode_float's extraction: sign < 2, exponent < 256, fraction < 2^23,
      and sign * 2^31 + exponent * 2^23 + fraction is the pattern. */
  lemma SingleExtraction(f: Format, bits: nat)
    requires f == Binary32 && bits < 0x1_0000_0000
    ensures f.Valid() && bits < Pow(2, f.width)
    ensures var x := Extract(f, bits);
      && x.sign < 2 && x.exponent < 0x100 && x.fraction < 0x80_0000
      && x.sign * 0x8000_0000 + x.exponent * 0x80_0000 + x.fraction == bits
  {
    StandardFormats();
    PowTwo30s();
    SingleLayout(f, Extract(f, bits));
  }

  /** decode_double's extraction: sign < 2, exponent < 2^11, fraction < 2^52,
      and sign * 2^63 + exponent * 2^52 + fraction is the pattern. */
  lemma DoubleExtraction(f: Format, bits: nat)
    requires f == Binary64 && bits < 0x1_0000_0000_0000_0000
    ensures f.Valid() && bits < Pow(2, f.width)
    ensures var x := Extract(f, bits);
      && x.sign < 2 && x.exponent < 0x800 && x.fraction < 0x10_0000_0000_0000
      && x.sign * 0x8000_0000_0000_0000 + x.exponent * 0x10_0000_0000_0000 + x.fraction == bits
  {
    StandardFormats();
    PowTwo60s();
    DoubleLayout(f, Extract(f, bits));
  }

  /** Single precision, input 1.0: pattern 0x3F800000, sign 0, exponent
      127, fraction 0, Normal, printed as +1.0000000000 * 2^0. */
  lemma SingleOne(f: Format, bits: nat)
    requires f == Binary32 && bits == 0x3F80_0000
    ensures DecodesTo(f, bits, Fields(0, 127, 0), Normal, Scaled(false, 1.0, 0))
  {
    var x := Fields(0, 127, 0);
    SingleLayout(f, x);
    FractionValueZero(f);
    DecodesByFields(f, bits, x, Normal, Scaled(false, 1.0, 0));
  }

  /** In every format the all-zero pattern is +0, reported as a subnormal
      with mantissa 0 and power 1 - bias. */
  lemma ZeroDecodes(f: Format, bits: nat)
    requires f.Valid() && bits == 0
    ensures DecodesTo(f, bits, Fields(0, 0, 0), Subnormal, Scaled(false, 0.0, 1 - f.bias))
  {
    var x := Fields(0, 0, 0);
    ZeroInterpretation(f, x);
    DecodesByFields(f, bits, x, Subnormal, Scaled(false, 0.0, 1 - f.bias));
  }

  /** Single precision, input 0.0: the all-zero pattern is reported as
      Subnormal, +0.0000000000 * 2^-126. */
  lemma SingleZero(f: Format, bits: nat)
    requires f == Binary32 && bits == 0
    ensures DecodesTo(f, bits, Fields(0, 0, 0), Subnormal, Scaled(false, 0.0, -126))
  {
    StandardFormats();
    ZeroDecodes(f, bits);
  }

  /** Double precision, input -2.5: pattern 0xC004000000000000, sign 1,
      exponent 1024, fraction 2^50, printed as -1.2500000000 * 2^1. */
  lemma DoubleMinusTwoAndAHalf(f: Format, bits: nat)
    requires f == Binary64 && bits == 0xC004_0000_0000_0000
    ensures DecodesTo(f, bits, Fields(1, 1024, 0x4_0000_0000_0000), Normal, Scaled(true, 1.25, 1))
  {
    var x := Fields(1, 1024, 0x4_0000_0000_0000);
    DoubleLayout(f, x);
    assert FractionValue(f, x.fraction) == 0.25 by {
      PowTwo50s();
      FractionValueOf(f, x.fraction, 0.25);
    }
    DecodesByFields(f, bits, x, Normal, Scaled(true, 1.25, 1));
  }

  /** Single precision +inf (0x7F800000) and -inf (0xFF800000). */
  lemma SingleInfinities(f: Format, plus: nat, minus: nat)
    requires f == Binary32 && plus == 0x7F80_0000 && minus == 0xFF80_0000
    ensures DecodesTo(f, plus, Fields(0, 0xFF, 0), Infinite, Infinity(false))
    ensures DecodesTo(f, minus, Fields(1, 0xFF, 0), Infinite, Infinity(true))
  {
    var x, y := Fields(0, 0xFF, 0), Fields(1, 0xFF, 0);
    SingleLayout(f, x);
    SingleLayout(f, y);
    DecodesByFields(f, plus, x, Infinite, Infinity(false));
    DecodesByFields(f, minus, y, Infinite, Infinity(true));
  }

  /** Single precision quiet NaN 0x7FC00000: plain nan. */
  lemma SingleQuietNaN(f: Format, bits: nat)
    requires f == Binary32 && bits == 0x7FC0_0000
    ensures DecodesTo(f, bits, Fields(0, 0xFF, 0x40_0000), NaN, NotANumber)
  {
    var x := Fields(0, 0xFF, 0x40_0000);
    SingleLayout(f, x);
    DecodesByFields(f, bits, x, NaN, NotANumber);
  }

  /** The all-ones single precision pattern 0xFFFFFFFF is a NaN too; its sign
      and payload are not shown. */
  lemma SingleAllOnes(f: Format, bits: nat)
    requires f == Binary32 && bits == 0xFFFF_FFFF
    ensures DecodesTo(f, bits, Fields(1, 0xFF, 0x7F_FFFF), NaN, NotANumber)
  {
    var x := Fields(1, 0xFF, 0x7F_FFFF);
    SingleLayout(f, x);
    DecodesByFields(f, bits, x, NaN, NotANumber);
  }
}
