/**
 The decoding core shared by decode_float and decode_double in defloat.cpp,
 written once over the parameters of a binary interchange format (section 3.4
 of IEEE 754-2008): split a raw bit pattern into sign, biased exponent and
 fraction; put it into one of the four modes the program reports; and give the
 exact (sign, mantissa, power of two) the program computes for that mode,
 before `%.10f` rounds the mantissa for printing.
 */
module Ieee754 {
  import opened Numerals
  import opened BitOps

  /** A binary interchange format: a word of `width` bits holding one sign
      bit, an exponent field of `exponentWidth` bits biased by `bias`, and a
      fraction (trailing significand) field of `fractionWidth` bits. */
  datatype Format = Format(width: nat, exponentWidth: nat, fractionWidth: nat, bias: nat)
  {
    predicate Valid()
    {
      && exponentWidth >= 2
      && fractionWidth >= 1
      && width == 1 + exponentWidth + fractionWidth
      && bias == Pow(2, exponentWidth - 1) - 1
    }

    /** All ones in the exponent field: the field mask and the exponent of
        infinities and NaNs. */
    function ExponentMask(): nat
    {
      Pow(2, exponentWidth) - 1
    }

    /** The weight of the sign bit, 2^(width - 1) in a valid format: the
        patterns from here up have the sign bit set. */
    function SignWeight(): nat
    {
      Pow(2, exponentWidth + fractionWidth)
    }

    /** All ones in the fraction field. */
    function FractionMask(): nat
    {
      Pow(2, fractionWidth) - 1
    }
  }

  /** binary32: the layout of `float`. */
  const Binary32: Format := Format(32, 8, 23, 127)

  /** binary64: the layout of `double`. */
  const Binary64: Format := Format(64, 11, 52, 1023)

  /** Both formats are well formed, and their masks are the constants the
      program is written with. */
  lemma StandardFormats()
    ensures Binary32.Valid() && Binary64.Valid()
    ensures Binary32.ExponentMask() == 0xFF && Binary32.FractionMask() == 0x7F_FFFF
    ensures Binary64.ExponentMask() == 0x7FF && Binary64.FractionMask() == 0xF_FFFF_FFFF_FFFF
    ensures 1 - Binary32.bias == -126 && 1 - Binary64.bias == -1022
  {
    PowTwoSmall();
    PowTwo20s();
    PowTwo50s();
  }

  /** The three fields of a pattern, as unsigned integers. */
  datatype Fields = Fields(sign: nat, exponent: nat, fraction: nat)

  predicate FieldsFit(f: Format, x: Fields)
  {
    x.sign < 2 && x.exponent < Pow(2, f.exponentWidth) && x.fraction < Pow(2, f.fractionWidth)
  }

  /** The pattern whose fields are x: sign on top, then exponent, then
      fraction. */
  function Compose(f: Format, x: Fields): nat
  {
    x.sign * Pow(2, f.exponentWidth + f.fractionWidth) + x.exponent * Pow(2, f.fractionWidth) + x.fraction
  }

  /** Field extraction, as the program does it: the sign is the pattern
      shifted right by width - 1; the exponent is the pattern shifted right by
      the fraction width and masked with the exponent mask; the fraction is
      the pattern masked with the fraction mask. */
  function Extract(f: Format, bits: nat): (x: Fields)
    requires f.Valid() && bits < Pow(2, f.width)
    ensures FieldsFit(f, x)
    ensures Compose(f, x) == bits
  {
    var sign := ShiftRight(bits, f.width - 1);
    var exponent := And(ShiftRight(bits, f.fractionWidth), f.ExponentMask());
    var fraction := And(bits, f.FractionMask());
    ExtractionFacts(f, bits);
    Fields(sign, exponent, fraction)
  }

  /** The masks keep the low bits and the fields reassemble the pattern. */
  lemma ExtractionFacts(f: Format, bits: nat)
    requires f.Valid() && bits < Pow(2, f.width)
    ensures ShiftRight(bits, f.width - 1) < 2
    ensures And(ShiftRight(bits, f.fractionWidth), f.ExponentMask()) < Pow(2, f.exponentWidth)
    ensures And(bits, f.FractionMask()) < Pow(2, f.fractionWidth)
    ensures Compose(f, Fields(ShiftRight(bits, f.width - 1),
                              And(ShiftRight(bits, f.fractionWidth), f.ExponentMask()),
                              And(bits, f.FractionMask()))) == bits
  {
    var p, e := Pow(2, f.fractionWidth), Pow(2, f.exponentWidth);
    var t := ShiftRight(bits, f.fractionWidth);
    var sign := ShiftRight(bits, f.width - 1);
    var exponent := And(t, f.ExponentMask());
    var fraction := And(bits, f.FractionMask());
    assert fraction == bits % p by {
      AndLowMask(bits, f.fractionWidth);
    }
    assert exponent == t % e by {
      AndLowMask(t, f.exponentWidth);
    }
    assert sign == t / e by {
      SignIsTop(f, bits);
    }
    assert sign < 2 by {
      DivBelowPow(bits, 2, f.width - 1);
    }
    assert bits == t * p + fraction by {
      DivModPow(bits, 2, f.fractionWidth);
    }
    assert t == sign * e + exponent by {
      DivModPow(t, 2, f.exponentWidth);
    }
    assert Compose(f, Fields(sign, exponent, fraction)) == bits by {
      Reassemble(bits, t, sign, exponent, fraction, p, e);
      PowAdd(2, f.exponentWidth, f.fractionWidth);
    }
  }

  /** Shifting by width - 1 is shifting by the fraction width and then by the
      exponent width. */
  lemma SignIsTop(f: Format, bits: nat)
    requires f.Valid()
    ensures ShiftRight(bits, f.width - 1) == ShiftRight(bits, f.fractionWidth) / Pow(2, f.exponentWidth)
  {
    PowAdd(2, f.fractionWidth, f.exponentWidth);
    DivModNested(bits, Pow(2, f.fractionWidth), Pow(2, f.exponentWidth));
  }

  lemma Reassemble(bits: nat, t: nat, s: nat, x: nat, r: nat, p: nat, e: nat)
    requires bits == t * p + r && t == s * e + x
    ensures bits == s * (e * p) + x * p + r
  {
    calc {
      bits;
      (s * e + x) * p + r;
      (s * e) * p + x * p + r;
    }
  }

  /** Fields that fit make a pattern of the format's width. */
  lemma ComposeFits(f: Format, x: Fields)
    requires f.Valid() && FieldsFit(f, x)
    ensures Compose(f, x) < Pow(2, f.width)
  {
    var p, e := Pow(2, f.fractionWidth), Pow(2, f.exponentWidth);
    var t := Pow(2, f.exponentWidth + f.fractionWidth);
    assert t == e * p by {
      PowAdd(2, f.exponentWidth, f.fractionWidth);
    }
    assert x.exponent * p + x.fraction < t by {
      MulMonotone(p, x.exponent, e - 1);
      assert p * (e - 1) == e * p - p;
    }
    assert x.sign * t <= t by {
      MulMonotone(t, x.sign, 1);
    }
    assert Pow(2, f.width) == 2 * t;
  }

  /** The magnitude bits (all but the sign) of a composed pattern. */
  lemma ComposeMagnitude(f: Format, x: Fields)
    requires f.Valid() && FieldsFit(f, x)
    ensures Compose(f, x) % Pow(2, f.width - 1) == x.exponent * Pow(2, f.fractionWidth) + x.fraction
    ensures Compose(f, x) / Pow(2, f.width - 1) == x.sign
  {
    var p, e := Pow(2, f.fractionWidth), Pow(2, f.exponentWidth);
    var top := Pow(2, f.width - 1);
    var magnitude := x.exponent * p + x.fraction;
    assert top == e * p by {
      PowAdd(2, f.exponentWidth, f.fractionWidth);
    }
    assert Compose(f, x) == x.sign * top + magnitude;
    assert magnitude < top by {
      MagnitudeBound(x.exponent, x.fraction, p, e);
    }
    DivModUnique(Compose(f, x), top, x.sign, magnitude);
  }

  /** exponent * p + fraction is below e * p when both fields fit. */
  lemma MagnitudeBound(exponent: nat, fraction: nat, p: nat, e: nat)
    requires exponent < e && fraction < p
    ensures exponent * p + fraction < e * p
  {
    MulMonotone(p, exponent, e - 1);
  }

  /** Composing fields that fit and extracting them again gives them back:
      extraction loses nothing and invents nothing. */
  lemma ExtractCompose(f: Format, x: Fields)
    requires f.Valid() && FieldsFit(f, x)
    ensures Compose(f, x) < Pow(2, f.width)
    ensures Extract(f, Compose(f, x)) == x
  {
    ComposeFits(f, x);
    var y := Extract(f, Compose(f, x));
    ComposeInjective(f, x, y);
  }

  /** Two field triples that fit and compose to the same pattern are equal. */
  lemma ComposeInjective(f: Format, x: Fields, y: Fields)
    requires f.Valid() && FieldsFit(f, x) && FieldsFit(f, y)
    requires Compose(f, x) == Compose(f, y)
    ensures x == y
  {
    var p := Pow(2, f.fractionWidth);
    ComposeMagnitude(f, x);
    ComposeMagnitude(f, y);
    var m := Compose(f, x) % Pow(2, f.width - 1);
    DivModUnique(m, p, x.exponent, x.fraction);
    DivModUnique(m, p, y.exponent, y.fraction);
  }

  /** The four modes of the program (INF_MODE, NAN_MODE, SUBNORMAL_MODE,
      NORMAL_MODE). Zero has exponent 0 and is reported as Subnormal. */
  datatype Mode = Infinite | NaN | Subnormal | Normal

  /** The program's switch on the exponent field. */
  function Classify(f: Format, exponent: nat, fraction: nat): Mode
  {
    if exponent == 0 then Subnormal
    else if exponent == f.ExponentMask() then (if fraction == 0 then Infinite else NaN)
    else Normal
  }

  /** The mode of a raw pattern. */
  function ModeOf(f: Format, bits: nat): Mode
    requires f.Valid() && bits < Pow(2, f.width)
  {
    var x := Extract(f, bits);
    Classify(f, x.exponent, x.fraction)
  }

  /** The five kinds of datum section 3.4 of IEEE 754-2008 assigns to an
      encoding, read off its exponent field E and trailing significand T:
      NaN (E all ones, T != 0), infinity (E all ones, T == 0), normal
      (1 <= E <= 2^w - 2), subnormal (E == 0, T != 0) and zero (E == 0,
      T == 0). */
  datatype Datum = NaNDatum | InfinityDatum | NormalDatum | SubnormalDatum | ZeroDatum

  function StandardDatum(f: Format, x: Fields): Datum
  {
    if x.exponent == Pow(2, f.exponentWidth) - 1 then
      (if x.fraction != 0 then NaNDatum else InfinityDatum)
    else if 1 <= x.exponent <= Pow(2, f.exponentWidth) - 2 then NormalDatum
    else if x.fraction != 0 then SubnormalDatum
    else ZeroDatum
  }

  /** The program's modes are the standard's kinds of datum, with zero folded
      into Subnormal: each pattern gets exactly one mode, and the mode is the
      one the standard prescribes. */
  lemma ClassifyMatchesStandard(f: Format, x: Fields)
    requires f.Valid() && FieldsFit(f, x)
    ensures Classify(f, x.exponent, x.fraction) == Infinite <==> StandardDatum(f, x) == InfinityDatum
    ensures Classify(f, x.exponent, x.fraction) == NaN <==> StandardDatum(f, x) == NaNDatum
    ensures Classify(f, x.exponent, x.fraction) == Normal <==> StandardDatum(f, x) == NormalDatum
    ensures Classify(f, x.exponent, x.fraction) == Subnormal <==>
            StandardDatum(f, x) == SubnormalDatum || StandardDatum(f, x) == ZeroDatum
  {
  }

  /** The mode read straight off the pattern: clear the sign bit and compare
      the remaining magnitude with the smallest normal pattern (2^fw) and with
      the infinity pattern (all-ones exponent, zero fraction). Whatever the
      sign, small magnitudes are Subnormal, those up to infinity Normal,
      infinity itself Infinite and everything above NaN. */
  lemma ClassifyByMagnitude(f: Format, bits: nat)
    requires f.Valid() && bits < Pow(2, f.width)
    ensures ModeOf(f, bits) == Subnormal <==> bits % Pow(2, f.width - 1) < Pow(2, f.fractionWidth)
    ensures ModeOf(f, bits) == Normal <==>
            Pow(2, f.fractionWidth) <= bits % Pow(2, f.width - 1) < f.ExponentMask() * Pow(2, f.fractionWidth)
    ensures ModeOf(f, bits) == Infinite <==>
            bits % Pow(2, f.width - 1) == f.ExponentMask() * Pow(2, f.fractionWidth)
    ensures ModeOf(f, bits) == NaN <==>
            bits % Pow(2, f.width - 1) > f.ExponentMask() * Pow(2, f.fractionWidth)
  {
    var x := Extract(f, bits);
    ComposeMagnitude(f, x);
    var p := Pow(2, f.fractionWidth);
    CompareScaled(x.exponent, x.fraction, p, 1);
    CompareScaled(x.exponent, x.fraction, p, f.ExponentMask());
  }

  /** Comparing e * p + r (r < p) with c * p compares e with c. */
  lemma CompareScaled(e: nat, r: nat, p: nat, c: nat)
    requires r < p
    ensures e * p + r < c * p <==> e < c
    ensures e * p + r == c * p <==> e == c && r == 0
    ensures e * p + r > c * p <==> e > c || (e == c && r > 0)
  {
    if e < c {
      MulMonotone(p, e + 1, c);
    } else if e > c {
      MulMonotone(p, c + 1, e);
    }
  }

  /** The value the program prints, with the mantissa kept exact:
      `±mantissa * 2^power` for normal and subnormal patterns, `±inf`, or
      `nan` with no sign. */
  datatype Interpretation =
    | Scaled(negative: bool, mantissa: real, power: int)
    | Infinity(negative: bool)
    | NotANumber

  /** fraction / FRAC_DIV, exactly. */
  function FractionValue(f: Format, fraction: nat): real
  {
    fraction as real / Pow(2, f.fractionWidth) as real
  }

  /** The exact interpretation the program computes for each mode: the sign bit gives
      the sign; a normal pattern has mantissa 1 + fraction / 2^fw and power
      exponent - bias; a subnormal one has mantissa fraction / 2^fw and the
      fixed power 1 - bias. */
  function Interpret(f: Format, x: Fields): Interpretation
  {
    match Classify(f, x.exponent, x.fraction)
    case Normal => Scaled(x.sign != 0, 1.0 + FractionValue(f, x.fraction), x.exponent - f.bias)
    case Subnormal => Scaled(x.sign != 0, FractionValue(f, x.fraction), 1 - f.bias)
    case Infinite => Infinity(x.sign != 0)
    case NaN => NotANumber
  }

  lemma FractionValueRange(f: Format, fraction: nat)
    requires fraction < Pow(2, f.fractionWidth)
    ensures 0.0 <= FractionValue(f, fraction) < 1.0
    ensures FractionValue(f, fraction) == 0.0 <==> fraction == 0
  {
  }

  /** A fraction field worth v times 2^fw has value v. */
  lemma FractionValueOf(f: Format, fraction: nat, v: real)
    requires fraction as real == v * (Pow(2, f.fractionWidth) as real)
    ensures FractionValue(f, fraction) == v
  {
    ScaleDown(fraction as real, v, Pow(2, f.fractionWidth) as real);
  }

  /** An all-zero fraction field is worth 0. */
  lemma FractionValueZero(f: Format)
    ensures FractionValue(f, 0) == 0.0
  {
  }

  /** A pattern with exponent and fraction fields 0 is a signed zero, shown
      as a subnormal with mantissa 0. */
  lemma ZeroInterpretation(f: Format, x: Fields)
    requires x.exponent == 0 && x.fraction == 0
    ensures Interpret(f, x) == Scaled(x.sign != 0, 0.0, 1 - f.bias)
  {
    FractionValueZero(f);
  }

  lemma ScaleDown(a: real, v: real, p: real)
    requires p > 0.0 && a == v * p
    ensures a / p == v
  {
  }

  lemma FractionValueInjective(f: Format, a: nat, b: nat)
    requires FractionValue(f, a) == FractionValue(f, b)
    ensures a == b
  {
  }

  /** Normal patterns: the power is exponent - bias, which lies in
      [1 - bias, bias] ([-126, 127] for binary32, [-1022, 1023] for
      binary64), and the mantissa 1 + fraction / 2^fw lies in [1, 2). */
  lemma NormalInterpretation(f: Format, x: Fields)
    requires f.Valid() && FieldsFit(f, x)
    requires Classify(f, x.exponent, x.fraction) == Normal
    ensures Interpret(f, x).Scaled?
    ensures Interpret(f, x).negative <==> x.sign == 1
    ensures Interpret(f, x).power == x.exponent - f.bias
    ensures 1 - f.bias <= Interpret(f, x).power <= f.bias
    ensures 1.0 <= Interpret(f, x).mantissa < 2.0
  {
    FractionValueRange(f, x.fraction);
    assert Pow(2, f.exponentWidth) == 2 * Pow(2, f.exponentWidth - 1);
  }

  /** Subnormal patterns (zero included): the power is fixed at 1 - bias (-126
      or -1022), the mantissa fraction / 2^fw lies in [0, 1), and it is 0
      exactly for the zero fraction. */
  lemma SubnormalInterpretation(f: Format, x: Fields)
    requires f.Valid() && FieldsFit(f, x)
    requires Classify(f, x.exponent, x.fraction) == Subnormal
    ensures Interpret(f, x).Scaled?
    ensures Interpret(f, x).negative <==> x.sign == 1
    ensures Interpret(f, x).power == 1 - f.bias
    ensures 0.0 <= Interpret(f, x).mantissa < 1.0
    ensures Interpret(f, x).mantissa == 0.0 <==> x.fraction == 0
  {
    FractionValueRange(f, x.fraction);
  }

  /** An infinity means +inf or -inf according to its sign bit alone: two
      infinite patterns mean the same exactly when their signs agree. */
  lemma InfinityBySignOnly(f: Format, x: Fields, y: Fields)
    requires FieldsFit(f, x) && FieldsFit(f, y)
    requires Classify(f, x.exponent, x.fraction) == Infinite
    requires Classify(f, y.exponent, y.fraction) == Infinite
    ensures Interpret(f, x) == Infinity(x.sign == 1)
    ensures Interpret(f, x) == Interpret(f, y) <==> x.sign == y.sign
  {
  }

  /** Every NaN means the same: neither the sign nor the payload reaches the
      interpretation. */
  lemma NaNIgnoresSignAndPayload(f: Format, x: Fields, y: Fields)
    requires Classify(f, x.exponent, x.fraction) == NaN
    requires Classify(f, y.exponent, y.fraction) == NaN
    ensures Interpret(f, x) == Interpret(f, y) == NotANumber
  {
  }

  /** Apart from NaNs, the exact interpretation determines the fields: two
      patterns that are not NaN and have the same exact value are the same
      pattern. */
  lemma InterpretInjective(f: Format, x: Fields, y: Fields)
    requires f.Valid() && FieldsFit(f, x) && FieldsFit(f, y)
    requires Classify(f, x.exponent, x.fraction) != NaN
    requires Interpret(f, x) == Interpret(f, y)
    ensures x == y
  {
    var mx, my := Classify(f, x.exponent, x.fraction), Classify(f, y.exponent, y.fraction);
    if mx == Normal {
      NormalInterpretation(f, x);
      if my == Subnormal {
        SubnormalInterpretation(f, y);
      }
      FractionValueInjective(f, x.fraction, y.fraction);
    } else if mx == Subnormal {
      SubnormalInterpretation(f, x);
      if my == Normal {
        NormalInterpretation(f, y);
      }
      FractionValueInjective(f, x.fraction, y.fraction);
    }
  }

  /** The integral significand section 3.4 of IEEE 754-2008 gives a finite
      encoding: the trailing significand T with the implicit leading bit
      2^fw added when the exponent field is non-zero. */
  function IntegralSignificand(f: Format, x: Fields): nat
  {
    x.fraction + (if x.exponent >= 1 then Pow(2, f.fractionWidth) else 0)
  }

  /** The exact `±mantissa * 2^power` is the standard's value
      (-1)^S * M * 2^(max(E, 1) - bias - fw) for every normal and subnormal
      pattern, zero included: the sign is the sign bit, the mantissa is the
      integral significand M scaled down by 2^fw, and the power is
      max(E, 1) - bias. */
  lemma ScaledIsStandardValue(f: Format, x: Fields)
    requires f.Valid() && FieldsFit(f, x)
    requires Interpret(f, x).Scaled?
    ensures Interpret(f, x).negative <==> x.sign == 1
    ensures Interpret(f, x).power == Max(x.exponent, 1) - f.bias
    ensures Interpret(f, x).mantissa * (Pow(2, f.fractionWidth) as real) == IntegralSignificand(f, x) as real
  {
    var p := Pow(2, f.fractionWidth) as real;
    var m := Interpret(f, x).mantissa;
    if x.exponent >= 1 {
      ImplicitBit(x.fraction as real, p);
    }
    assert m == IntegralSignificand(f, x) as real / p;
    ScaleBack(m, IntegralSignificand(f, x) as real, p);
  }

  lemma ScaleBack(m: real, significand: real, p: real)
    requires p > 0.0 && m == significand / p
    ensures m * p == significand
  {
  }

  lemma ImplicitBit(fraction: real, p: real)
    requires p > 0.0
    ensures 1.0 + fraction / p == (fraction + p) / p
  {
    assert p / p == 1.0;
    assert (fraction + p) / p == fraction / p + p / p;
  }
}
