/**
 The field dumper of defloat.cpp (`print_bin`): it writes an unsigned value in
 binary, most significant bit first, using at least `width` digits. The C
 routine walks a one-bit mask down from the top bit of its argument type T,
 first skipping high zero bits until either a set bit or bit `width - 1` is
 reached, then printing one digit per mask position down to bit 0. Output goes
 to stdout there; here the digits are returned as a string.
 */
module Binary {
  import opened Numerals
  import opened BitOps

  /** print_bin(num, width) for an argument type T of `typeBits` bits.
      The caller must pass 1 <= width <= typeBits: for width 0 the unsigned
      `width - 1` wraps to UINT_MAX and `1LL << UINT_MAX` is undefined, and a width beyond T's size never stops the skipping loop
      when num is 0. */
  method PrintBin(num: nat, width: nat, typeBits: nat) returns (out: string)
    requires 1 <= width <= typeBits
    requires num < Pow(2, typeBits)
    ensures out == Numeral(num, 2, width)
  {
    var mask := SkipHighZeros(num, width, typeBits);
    ghost var len := Max(width, DigitLength(num, 2));
    HalfPow(len);
    out := PrintFromMask(num, mask, len);
  }

  /** The first loop of print_bin: starting from the top bit of T, the mask
      moves down past clear bits, stopping at the first set bit or at bit
      width - 1, whichever comes first. */
  method SkipHighZeros(num: nat, width: nat, typeBits: nat) returns (mask: nat)
    requires 1 <= width <= typeBits
    requires num < Pow(2, typeBits)
    ensures mask == Pow(2, Max(width, DigitLength(num, 2)) - 1)
  {
    ghost var k: nat := typeBits - 1;
    mask := Pow(2, typeBits - 1);
    while mask != Pow(2, width - 1) && And(num, mask) == 0
      invariant width - 1 <= k <= typeBits - 1
      invariant mask == Pow(2, k)
      invariant num < Pow(2, k + 1)
      decreases k
    {
      SkipZeroBit(num, k);
      mask := mask / 2;
      k := k - 1;
    }
    StartLength(num, width, k, And(num, mask) != 0);
  }

  /** The second loop of print_bin: one digit per mask position from the
      starting bit 2^(len-1) down to bit 0, so the len low bits of num. */
  method PrintFromMask(num: nat, mask0: nat, ghost len: nat) returns (out: string)
    requires mask0 == Pow(2, len) / 2
    ensures out == Digits(num, 2, len)
  {
    var mask := mask0;
    out := [];
    ghost var m: nat := len;
    assert out == Digits(ShiftRight(num, m), 2, 0);
    while mask != 0
      invariant m <= len
      invariant mask == Pow(2, m) / 2
      invariant out == Digits(ShiftRight(num, m), 2, len - m)
      decreases mask
    {
      var bit := if And(num, mask) != 0 then '1' else '0';
      EmitBit(num, m, len, mask, out, bit);
      out := out + [bit];
      mask := mask / 2;
      m := m - 1;
    }
    HalfPow(m);
    assert ShiftRight(num, 0) == num;
  }

  /** The binary rendering of num with at least width digits: its length,
      its digits and what it reads back as. */
  lemma BinaryNumeral(num: nat, width: nat)
    ensures |Numeral(num, 2, width)| == Max(width, DigitLength(num, 2))
    ensures num < Pow(2, width) ==> |Numeral(num, 2, width)| == width
    ensures forall i :: 0 <= i < |Numeral(num, 2, width)| ==>
              Numeral(num, 2, width)[i] == '0' || Numeral(num, 2, width)[i] == '1'
    ensures ValueOf(Numeral(num, 2, width), 2) == num
    ensures |Numeral(num, 2, width)| > width ==> Numeral(num, 2, width)[0] == '1'
  {
    NumeralProperties(num, 2, width);
    BinaryString(Numeral(num, 2, width));
  }

  /** Halving 2^m leaves 2^(m-1), which is not 0, as long as m > 0. */
  lemma HalfPow(m: nat)
    ensures m > 0 ==> Pow(2, m) / 2 == Pow(2, m - 1) >= 1
  {
  }

  lemma BinaryString(s: string)
    requires AllDigits(s, 2)
    ensures forall i :: 0 <= i < |s| ==> s[i] == '0' || s[i] == '1'
  {
    forall i | 0 <= i < |s|
      ensures s[i] == '0' || s[i] == '1'
    {
      BinaryDigits(s[i]);
    }
  }

  /** One step of the skipping loop: bit k (k above width - 1) is clear and
      nothing above it is set, so num fits below bit k. */
  lemma SkipZeroBit(num: nat, k: nat)
    requires k >= 1 && num < Pow(2, k + 1) && And(num, Pow(2, k)) == 0
    ensures num < Pow(2, k) && Pow(2, k) / 2 == Pow(2, k - 1)
  {
    AndSingleBit(num, k);
    DivBelowPow(num, 2, k);
    DivModPow(num, 2, k);
  }

  /** Where the skipping loop stops: either at bit width - 1 or at the highest
      set bit, so the digits printed are max(width, bits needed). */
  lemma StartLength(num: nat, width: nat, k: nat, bitSet: bool)
    requires 1 <= width && width - 1 <= k && num < Pow(2, k + 1)
    requires bitSet <==> And(num, Pow(2, k)) != 0
    requires Pow(2, k) == Pow(2, width - 1) || bitSet
    ensures k + 1 == Max(width, DigitLength(num, 2))
  {
    DigitLengthBound(num, 2, k + 1);
    if bitSet {
      TopBitSet(num, k);
    } else if k != width - 1 {
      PowStrictlyIncreasing(2, width - 1, k);
    }
  }

  /** A number with bit k set needs more than k bits. */
  lemma TopBitSet(num: nat, k: nat)
    requires And(num, Pow(2, k)) != 0
    ensures DigitLength(num, 2) > k
  {
    AndSingleBit(num, k);
    var q := ShiftRight(num, k);
    DivModPow(num, 2, k);
    MulAtLeast(q, Pow(2, k));
    DigitLengthBound(num, 2, k);
  }

  /** One step of the printing loop: the digit for bit m - 1 extends the
      rendering of the bits above it. */
  lemma EmitBit(num: nat, m: nat, len: nat, mask: nat, out: string, bit: char)
    requires mask == Pow(2, m) / 2 && mask != 0 && m <= len
    requires out == Digits(ShiftRight(num, m), 2, len - m)
    requires bit == if And(num, mask) != 0 then '1' else '0'
    ensures m >= 1 && mask / 2 == Pow(2, m - 1) / 2
    ensures out + [bit] == Digits(ShiftRight(num, m - 1), 2, len - (m - 1))
  {
    HalfPow(m);
    var p := Pow(2, m - 1);
    AndSingleBit(num, m - 1);
    var q := ShiftRight(num, m - 1);
    DivModNested(num, p, 2);
    assert q / 2 == ShiftRight(num, m);
    DigitCharValue(q % 2);
  }
}
