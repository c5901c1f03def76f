/**
 Natural-number arithmetic behind positional numerals: powers, the division
 facts that shifting and masking rely on, and zero-padded digit strings in any
 base from 2 to 16 (binary for the field dumps, hexadecimal for the raw word).
 */
module Numerals {

  /** b to the n-th power. */
  function Pow(b: nat, n: nat): (r: nat)
    ensures b > 0 ==> r > 0
  {
    if n == 0 then 1 else b * Pow(b, n - 1)
  }

  function Max(a: int, b: int): int
  {
    if a < b then b else a
  }

  lemma MulNonnegative(x: int, y: int)
    requires x >= 0 && y >= 0
    ensures x * y >= 0
  {
  }

  lemma MulMonotone(d: int, x: int, y: int)
    requires d >= 0 && x <= y
    ensures d * x <= d * y
  {
    MulNonnegative(d, y - x);
  }

  lemma MulAtLeast(x: int, d: int)
    requires x >= 1 && d >= 0
    ensures x * d >= d
  {
    MulNonnegative(x - 1, d);
    assert x * d == (x - 1) * d + d;
  }

  /** The quotient of naturals is a natural. */
  lemma DivNonnegative(n: nat, d: nat)
    requires d > 0
    ensures n / d >= 0
  {
    assert n == d * (n / d) + n % d;
    if n / d < 0 {
      MulMonotone(d, n / d, -1);
    }
  }

  /** n / d on naturals, typed as a natural. */
  function Quotient(n: nat, d: nat): nat
    requires d > 0
  {
    DivNonnegative(n, d);
    n / d
  }

  /** Quotient and remainder are the only pair that splits n this way. */
  lemma DivModUnique(n: int, d: int, q: int, r: int)
    requires d > 0 && 0 <= r < d && n == q * d + r
    ensures n / d == q && n % d == r
  {
    var q0, r0 := n / d, n % d;
    assert n == q0 * d + r0;
    assert (q0 - q) * d == r - r0;
    if q0 > q {
      MulAtLeast(q0 - q, d);
    } else if q0 < q {
      MulAtLeast(q - q0, d);
    }
  }

  /** Dividing by a and then by b is dividing by a * b; the remainder by a * b
      is made of the remainder by a and the next digit. */
  lemma DivModNested(n: nat, a: nat, b: nat)
    requires a > 0 && b > 0
    ensures n / (a * b) == n / a / b
    ensures n % (a * b) == a * ((n / a) % b) + n % a
  {
    var q1, r1 := n / a, n % a;
    var q2, r2 := q1 / b, q1 % b;
    assert n == q2 * (a * b) + (a * r2 + r1) by {
      assert n == q1 * a + r1;
      assert q1 == q2 * b + r2;
      Regroup(q2, b, r2, a, r1);
    }
    assert a * r2 + r1 < a * b by {
      MulMonotone(a, r2, b - 1);
    }
    DivModUnique(n, a * b, q2, a * r2 + r1);
  }

  lemma Regroup(q: int, b: int, r: int, a: int, s: int)
    ensures (q * b + r) * a + s == q * (a * b) + (a * r + s)
  {
  }

  lemma PowAdd(b: nat, m: nat, n: nat)
    ensures Pow(b, m + n) == Pow(b, m) * Pow(b, n)
    decreases n
  {
    if n > 0 {
      PowAdd(b, m, n - 1);
      assert Pow(b, m + n) == b * Pow(b, (m + n) - 1);
      assert Pow(b, n) == b * Pow(b, n - 1);
      MulSwap(b, Pow(b, m), Pow(b, n - 1));
    }
  }

  lemma MulSwap(x: int, y: int, z: int)
    ensures x * (y * z) == y * (x * z)
  {
  }

  /** Powers of a base of at least 2 grow strictly. */
  lemma PowStrictlyIncreasing(b: nat, m: nat, n: nat)
    requires b >= 2 && m < n
    ensures Pow(b, m) < Pow(b, n)
    decreases n
  {
    var p := Pow(b, n - 1);
    assert Pow(b, n) == b * p;
    MulMonotone(p, 2, b);
    if m + 1 < n {
      PowStrictlyIncreasing(b, m, n - 1);
    }
  }

  lemma PowIncreasing(b: nat, m: nat, n: nat)
    requires b >= 2 && m <= n
    ensures Pow(b, m) <= Pow(b, n)
  {
    if m < n {
      PowStrictlyIncreasing(b, m, n);
    }
  }

  lemma PowTwoSmall()
    ensures Pow(2, 4) == 0x10 && Pow(2, 7) == 0x80 && Pow(2, 8) == 0x100
    ensures Pow(2, 10) == 0x400 && Pow(2, 11) == 0x800
  {
  }

  lemma PowTwo16()
    ensures Pow(2, 16) == 0x1_0000
  {
    PowTwoSmall();
    PowAdd(2, 8, 8);
  }

  lemma PowTwo20s()
    ensures Pow(2, 20) == 0x10_0000 && Pow(2, 23) == 0x80_0000
  {
    PowTwoSmall();
    PowTwo16();
    PowAdd(2, 16, 4);
    PowAdd(2, 16, 7);
  }

  lemma PowTwo30s()
    ensures Pow(2, 31) == 0x8000_0000 && Pow(2, 32) == 0x1_0000_0000
  {
    PowTwoSmall();
    PowTwo20s();
    PowAdd(2, 23, 8);
    PowAdd(2, 16, 16);
    PowTwo16();
  }

  lemma PowTwo50s()
    ensures Pow(2, 52) == 0x10_0000_0000_0000
  {
    PowTwo20s();
    PowTwo30s();
    PowAdd(2, 32, 20);
  }

  lemma PowTwo60s()
    ensures Pow(2, 63) == 0x8000_0000_0000_0000 && Pow(2, 64) == 0x1_0000_0000_0000_0000
  {
    PowTwo30s();
    PowAdd(2, 32, 31);
    PowAdd(2, 32, 32);
  }

  /** A number below b^(k+1) has at most one base-b digit from position k on. */
  lemma DivBelowPow(n: nat, b: nat, k: nat)
    requires b >= 2 && n < Pow(b, k + 1)
    ensures n / Pow(b, k) < b
  {
    var p := Pow(b, k);
    assert n == (n / p) * p + n % p;
  }

  /** n reconstructed from its high part above position k and its low part. */
  lemma DivModPow(n: nat, b: nat, k: nat)
    requires b >= 2
    ensures n == (n / Pow(b, k)) * Pow(b, k) + n % Pow(b, k)
  {
  }

  // Digit characters, shared by every base up to 16 (upper-case letters).

  function DigitChar(d: nat): (c: char)
    requires d < 16
  {
    if d < 10 then ('0' as int + d) as char else ('A' as int + (d - 10)) as char
  }

  function DigitValue(c: char): nat
  {
    if '0' <= c <= '9' then c as int - '0' as int
    else if 'A' <= c <= 'F' then c as int - 'A' as int + 10
    else 0
  }

  predicate IsBase(b: nat)
  {
    2 <= b <= 16
  }

  /** c is one of the b digit characters of base b. */
  predicate IsDigit(c: char, b: nat)
  {
    ('0' <= c <= '9' || 'A' <= c <= 'F') && DigitValue(c) < b
  }

  predicate AllDigits(s: string, b: nat)
  {
    forall i :: 0 <= i < |s| ==> IsDigit(s[i], b)
  }

  lemma DigitCharValue(d: nat)
    requires d < 16
    ensures DigitValue(DigitChar(d)) == d
    ensures '0' <= DigitChar(d) <= '9' || 'A' <= DigitChar(d) <= 'F'
  {
  }

  /** The binary digits are exactly '0' and '1'. */
  lemma BinaryDigits(c: char)
    ensures IsDigit(c, 2) <==> c == '0' || c == '1'
  {
  }

  /** The w lowest base-b digits of n, most significant first, zero-padded on
      the left. */
  function Digits(n: nat, b: nat, w: nat): (s: string)
    requires IsBase(b)
    ensures |s| == w
    ensures AllDigits(s, b)
    decreases w
  {
    if w == 0 then []
    else
      var d := n % b;
      DigitCharValue(d);
      AllDigitsAppend(Digits(Quotient(n, b), b, w - 1), DigitChar(d), b);
      Digits(Quotient(n, b), b, w - 1) + [DigitChar(d)]
  }

  lemma AllDigitsAppend(s: string, c: char, b: nat)
    requires AllDigits(s, b) && ('0' <= c <= '9' || 'A' <= c <= 'F') && DigitValue(c) < b
    ensures AllDigits(s + [c], b)
  {
  }

  /** The number a base-b digit string denotes. */
  function ValueOf(s: string, b: nat): nat
  {
    if s == [] then 0 else b * ValueOf(s[..|s| - 1], b) + DigitValue(s[|s| - 1])
  }

  /** How many base-b digits n needs: none for 0. */
  function DigitLength(n: nat, b: nat): nat
    requires b >= 2
  {
    if n == 0 then 0 else 1 + DigitLength(Quotient(n, b), b)
  }

  /** n, written in base b with at least minWidth digits: the zero-padded
      minimum-width rendering of printf's `%0*X` and of the field dumper. */
  function Numeral(n: nat, b: nat, minWidth: nat): string
    requires IsBase(b)
  {
    Digits(n, b, Max(minWidth, DigitLength(n, b)))
  }

  /** Reading w rendered digits back gives n modulo b^w. */
  lemma {:induction false} ValueOfDigits(n: nat, b: nat, w: nat)
    requires IsBase(b)
    ensures ValueOf(Digits(n, b, w), b) == n % Pow(b, w)
    decreases w
  {
    if w > 0 {
      var s := Digits(n, b, w);
      var t := Digits(Quotient(n, b), b, w - 1);
      assert s == t + [DigitChar(n % b)];
      assert s[..|s| - 1] == t;
      ValueOfDigits(Quotient(n, b), b, w - 1);
      DigitCharValue(n % b);
      DivModNested(n, b, Pow(b, w - 1));
      calc {
        ValueOf(s, b);
        b * ValueOf(t, b) + DigitValue(DigitChar(n % b));
        b * ((n / b) % Pow(b, w - 1)) + n % b;
        n % (b * Pow(b, w - 1));
      }
    }
  }

  /** A number written out in w digits, when it fits, reads back as itself. */
  lemma ReadBack(n: nat, b: nat, w: nat)
    requires IsBase(b) && n < Pow(b, w)
    ensures ValueOf(Digits(n, b, w), b) == n
  {
    ValueOfDigits(n, b, w);
    DivModUnique(n, Pow(b, w), 0, n);
  }

  /** Appending digit r to q shifts q's rendering one place left. */
  lemma DigitsAppend(q: nat, r: nat, b: nat, w: nat)
    requires IsBase(b) && r < b
    ensures Digits(q * b + r, b, w + 1) == Digits(q, b, w) + [DigitChar(r)]
  {
    DivModUnique(q * b + r, b, q, r);
  }

  /** Rendering what a digit string denotes, at its own length, gives the
      string back. */
  lemma {:induction false} DigitsOfValue(s: string, b: nat)
    requires IsBase(b) && AllDigits(s, b)
    ensures Digits(ValueOf(s, b), b, |s|) == s
  {
    if s != [] {
      var t := s[..|s| - 1];
      var c := s[|s| - 1];
      var q, r := ValueOf(t, b), DigitValue(c);
      assert ValueOf(s, b) == q * b + r;
      assert AllDigits(t, b) && r < b;
      assert Digits(q * b + r, b, |t| + 1) == Digits(q, b, |t|) + [DigitChar(r)] by {
        DigitsAppend(q, r, b, |t|);
      }
      assert Digits(q, b, |t|) == t by {
        DigitsOfValue(t, b);
      }
      assert DigitChar(r) == c;
      assert s == t + [c];
    }
  }

  /** Only the w lowest digits of n reach its w-digit rendering. */
  lemma {:induction false} DigitsMod(n: nat, b: nat, w: nat)
    requires IsBase(b)
    ensures Digits(n, b, w) == Digits(n % Pow(b, w), b, w)
    decreases w
  {
    if w > 0 {
      var m := n % Pow(b, w);
      DivModNested(n, b, Pow(b, w - 1));
      DivModUnique(m, b, (n / b) % Pow(b, w - 1), n % b);
      DigitsMod(Quotient(n, b), b, w - 1);
    }
  }

  /** A rendering of hi + lo digits is the rendering of the part above the lo
      lowest digits followed by the rendering of those lo digits. */
  lemma {:induction false} DigitsSplit(n: nat, b: nat, hi: nat, lo: nat)
    requires IsBase(b)
    ensures Digits(n, b, hi + lo) == Digits(Quotient(n, Pow(b, lo)), b, hi) + Digits(n, b, lo)
    decreases lo
  {
    if lo > 0 {
      var m := Quotient(n, b);
      var c := DigitChar(n % b);
      assert Digits(m, b, hi + (lo - 1))
          == Digits(Quotient(m, Pow(b, lo - 1)), b, hi) + Digits(m, b, lo - 1) by {
        DigitsSplit(m, b, hi, lo - 1);
      }
      assert Quotient(m, Pow(b, lo - 1)) == Quotient(n, Pow(b, lo)) by {
        DivModNested(n, b, Pow(b, lo - 1));
      }
      assert Digits(n, b, hi + lo) == Digits(m, b, hi + (lo - 1)) + [c];
      assert Digits(n, b, lo) == Digits(m, b, lo - 1) + [c];
    }
  }

  lemma BelowProduct(n: nat, b: nat, p: nat)
    requires b >= 2
    ensures n < b * p <==> n / b < p
  {
    assert n == b * (n / b) + n % b;
    if n / b < p {
      MulMonotone(b, n / b, p - 1);
    } else {
      MulMonotone(b, p, n / b);
    }
  }

  /** n fits in k digits exactly when it needs at most k. */
  lemma {:induction false} DigitLengthBound(n: nat, b: nat, k: nat)
    requires b >= 2
    ensures n < Pow(b, k) <==> DigitLength(n, b) <= k
    decreases k
  {
    if n > 0 && k > 0 {
      DigitLengthBound(Quotient(n, b), b, k - 1);
      BelowProduct(n, b, Pow(b, k - 1));
    }
  }

  /** A number that needs exactly len > 0 digits starts with a non-zero one. */
  lemma LeadingDigit(n: nat, b: nat, len: nat)
    requires IsBase(b) && len > 0 && DigitLength(n, b) == len
    ensures Digits(n, b, len)[0] != '0'
  {
    var p := Pow(b, len - 1);
    DigitLengthBound(n, b, len);
    DigitLengthBound(n, b, len - 1);
    DivBelowPow(n, b, len - 1);
    var top := n / p;
    if top == 0 {
      assert false;
    }
    DivModUnique(top, b, 0, top);
    DigitsSplit(n, b, 1, len - 1);
    assert Digits(top, b, 1) == [DigitChar(top)];
    DigitCharValue(top);
  }

  /** The minimum-width rendering: exactly max(minWidth, digits needed)
      digits, exactly minWidth of them when n fits, no leading zero beyond
      minWidth, and it reads back as n. */
  lemma NumeralProperties(n: nat, b: nat, minWidth: nat)
    requires IsBase(b)
    ensures |Numeral(n, b, minWidth)| == Max(minWidth, DigitLength(n, b))
    ensures n < Pow(b, minWidth) ==> |Numeral(n, b, minWidth)| == minWidth
    ensures AllDigits(Numeral(n, b, minWidth), b)
    ensures ValueOf(Numeral(n, b, minWidth), b) == n
    ensures |Numeral(n, b, minWidth)| > minWidth ==> Numeral(n, b, minWidth)[0] != '0'
  {
    var len := Max(minWidth, DigitLength(n, b));
    DigitLengthBound(n, b, len);
    DigitLengthBound(n, b, minWidth);
    ValueOfDigits(n, b, len);
    DivModUnique(n, Pow(b, len), 0, n);
    if len > minWidth {
      LeadingDigit(n, b, len);
    }
  }
}
