/**
 The two bit operations the decoder is written with, on unbounded naturals:
 the logical right shift `>>` and the bitwise AND `&` of unsigned C integers.
 Both operands of every use are below 2^64, so no width is needed here; the
 facts proved are the two ways the decoder uses AND: with a low mask
 (2^k - 1) to keep a field, and with a single bit (2^k) to test it.
 */
module BitOps {
  import opened Numerals

  /** x >> k on an unsigned value. */
  function ShiftRight(x: nat, k: nat): nat
  {
    Quotient(x, Pow(2, k))
  }

  /** x >> k drops the k low bits: x is (x >> k) * 2^k plus a remainder
      below 2^k. */
  lemma ShiftRightSplits(x: nat, k: nat)
    ensures x == ShiftRight(x, k) * Pow(2, k) + x % Pow(2, k)
    ensures x % Pow(2, k) < Pow(2, k)
  {
  }

  /** x & y, built from the least significant bit up. */
  function And(x: nat, y: nat): (r: nat)
    ensures r <= x && r <= y
    decreases x
  {
    if x == 0 || y == 0 then 0
    else 2 * And(x / 2, y / 2) + (if x % 2 == 1 && y % 2 == 1 then 1 else 0)
  }

  /** Masking with k low ones keeps the k lowest bits. */
  lemma {:induction false} AndLowMask(x: nat, k: nat)
    ensures And(x, Pow(2, k) - 1) == x % Pow(2, k)
    decreases k
  {
    if k > 0 && x > 0 {
      AndLowMask(x / 2, k - 1);
      AndLowMaskStep(x, k);
    } else {
      AndLowMaskBase(x, k);
    }
  }

  lemma AndLowMaskBase(x: nat, k: nat)
    requires k == 0 || x == 0
    ensures And(x, Pow(2, k) - 1) == x % Pow(2, k)
  {
    if k == 0 {
      assert Pow(2, k) == 1;
    }
  }

  lemma AndLowMaskStep(x: nat, k: nat)
    requires x > 0 && k > 0
    requires And(x / 2, Pow(2, k - 1) - 1) == (x / 2) % Pow(2, k - 1)
    ensures And(x, Pow(2, k) - 1) == x % Pow(2, k)
  {
    var p := Pow(2, k - 1);
    var mask := Pow(2, k) - 1;
    assert mask == 2 * (p - 1) + 1;
    DivModUnique(mask, 2, p - 1, 1);
    assert And(x, mask) == 2 * ((x / 2) % p) + x % 2;
    DivModNested(x, 2, p);
  }

  /** Masking with the single bit 2^k is non-zero exactly when bit k is set. */
  lemma {:induction false} AndSingleBit(x: nat, k: nat)
    ensures And(x, Pow(2, k)) != 0 <==> (x / Pow(2, k)) % 2 == 1
    decreases k
  {
    if x > 0 && k > 0 {
      var p := Pow(2, k - 1);
      assert Pow(2, k) / 2 == p && Pow(2, k) % 2 == 0;
      AndSingleBit(x / 2, k - 1);
      DivModNested(x, 2, p);
    }
  }
}
