/**
 Machine words as natural numbers.

 A C++ `uint32_t` is a natural number below 2^32, wrap-around is written out as `% TWO32`, a shift
 multiplies or divides by a power of two, and the bitwise operators are defined bit by bit.  The
 lemmas say what those operators do to the number: masking with 2^k - 1 is a remainder, OR of words
 without a common bit is a sum, and so on.
 */
module Bits {

  const TWO32: nat := 0x1_0000_0000

  type u8 = x: int | 0 <= x < 0x100
  type u16 = x: int | 0 <= x < 0x1_0000
  type u32 = x: int | 0 <= x < 0x1_0000_0000
  type u64 = x: int | 0 <= x < 0x1_0000_0000_0000_0000

  function Pow2(k: nat): (p: nat)
    ensures p > 0
  {
    if k == 0 then 1 else 2 * Pow2(k - 1)
  }

  // ------------------------------------------------ shifts of natural numbers

  function Up(x: nat, k: nat): nat { x * Pow2(k) }

  function Shr(x: nat, k: nat): (r: nat)
    ensures r <= x
  {
    DivBound(x, Pow2(k));
    x / Pow2(k)
  }

  /** The low k bits of x. */
  function Low(x: nat, k: nat): (r: nat)
    ensures r < Pow2(k)
  {
    x % Pow2(k)
  }

  function Bit(x: nat, i: nat): (b: nat)
    ensures b < 2
  {
    Shr(x, i) % 2
  }

  // -------------------------------------------------------- bitwise operators

  function And(x: nat, y: nat): (r: nat)
    ensures r <= x && r <= y
  {
    if x == 0 || y == 0 then 0
    else (if x % 2 == 1 && y % 2 == 1 then 1 else 0) + 2 * And(x / 2, y / 2)
  }

  function Or(x: nat, y: nat): (r: nat)
    ensures r == x + y - And(x, y)
  {
    if x == 0 then y
    else if y == 0 then x
    else (if x % 2 == 1 || y % 2 == 1 then 1 else 0) + 2 * Or(x / 2, y / 2)
  }

  function Xor(x: nat, y: nat): (r: nat)
    ensures r == x + y - 2 * And(x, y)
  {
    if x == 0 then y
    else if y == 0 then x
    else (if x % 2 != y % 2 then 1 else 0) + 2 * Xor(x / 2, y / 2)
  }

  // ---------------------------------------------------- operators on uint32_t

  function Not(x: u32): u32 { TWO32 - 1 - x }

  function Shl(x: u32, s: nat): u32 { Up(x, s) % TWO32 }

  function Or32(x: u32, y: u32): u32 { OrWord(x, y); Or(x, y) }

  function Xor32(x: u32, y: u32): u32 { XorWord(x, y); Xor(x, y) }

  /** The `uint32_t` congruent to n: what storing n into a 32-bit register leaves. */
  function Wrap(n: int): u32 { n % TWO32 }

  /** The `int32_t` with the bit pattern x. */
  function Signed(x: u32): int { if x < 0x8000_0000 then x else x - TWO32 }

  // ------------------------------------------------------------ powers of two

  lemma Pow2Values()
    ensures Pow2(0) == 1 && Pow2(1) == 2 && Pow2(2) == 4 && Pow2(3) == 8 && Pow2(4) == 16
    ensures Pow2(5) == 32 && Pow2(6) == 64 && Pow2(7) == 128 && Pow2(8) == 256 && Pow2(9) == 512
    ensures Pow2(10) == 1024 && Pow2(11) == 2048 && Pow2(12) == 4096 && Pow2(13) == 8192
    ensures Pow2(15) == 0x8000 && Pow2(16) == 0x1_0000
    ensures Pow2(19) == 0x8_0000 && Pow2(20) == 0x10_0000 && Pow2(21) == 0x20_0000
    ensures Pow2(24) == 0x100_0000 && Pow2(25) == 0x200_0000 && Pow2(27) == 0x800_0000
    ensures Pow2(31) == 0x8000_0000 && Pow2(32) == TWO32
  {
    assert Pow2(8) == 256;
    assert Pow2(16) == 0x1_0000;
    assert Pow2(24) == 0x100_0000;
    assert Pow2(32) == TWO32;
  }

  lemma {:induction false} Pow2Add(j: nat, k: nat)
    ensures Pow2(j + k) == Pow2(j) * Pow2(k)
    decreases k
  {
    if k > 0 {
      Pow2Add(j, k - 1);
      assert Pow2(j + k) == 2 * (Pow2(j) * Pow2(k - 1));
    }
  }

  lemma Pow2Mono(j: nat, k: nat)
    requires j <= k
    ensures Pow2(j) <= Pow2(k)
    decreases k - j
  {
    if j < k { Pow2Mono(j + 1, k); }
  }

  // ------------------------------------------------------------------ division

  lemma MulSign(k: int, d: nat)
    requires d > 0
    ensures k >= 0 ==> d * k >= k
    ensures k >= 1 ==> d * k >= d
    ensures k <= -1 ==> d * k + d <= 0
  {
    if k >= 0 {
      assert (d - 1) * k >= 0;
      if k >= 1 { assert d * (k - 1) >= 0; }
    } else {
      assert d * (-1 - k) >= 0;
    }
  }

  lemma DivBound(x: nat, d: nat)
    requires d > 0
    ensures 0 <= x / d <= x
  {
    MulSign(x / d, d);
  }

  lemma DivUnique(n: int, d: nat, q: int, r: int)
    requires d > 0 && n == q * d + r && 0 <= r < d
    ensures q == n / d && r == n % d
  {
    var q' := n / d;
    assert n == d * q' + n % d;
    assert d * (q - q') == n % d - r;
    MulSign(q - q', d);
  }

  lemma DivLess(x: nat, p: nat, q: nat)
    requires p > 0 && x < p * q
    ensures x / p < q
  {
    var d := x / p;
    MulSign(d - q, p);
    assert p * d == p * (d - q) + p * q;
    assert x == p * d + x % p;
  }

  /** Halving after dividing, halving before dividing, and dividing by the double all agree. */
  lemma DivDouble(x: int, p: nat)
    requires p > 0
    ensures x / (2 * p) == (x / p) / 2 == (x / 2) / p
    ensures x % (2 * p) == x % p + p * ((x / p) % 2)
    ensures x % (2 * p) == x % 2 + 2 * ((x / 2) % p)
  {
    QuotientHalf(x, p, x / p, x % p);
    HalfQuotient(x, p, x / 2 / p, x / 2 % p);
  }

  lemma QuotientHalf(x: int, p: nat, q: int, r: int)
    requires x == p * q + r && 0 <= r < p
    ensures x / (2 * p) == q / 2 && x % (2 * p) == r + p * (q % 2)
  {
    var k, b := q / 2, q % 2;
    assert p * q == k * (2 * p) + p * b;
    assert 0 <= p * b <= p;
    DivUnique(x, 2 * p, k, r + p * b);
  }

  lemma HalfQuotient(x: int, p: nat, q: int, r: int)
    requires x / 2 == p * q + r && 0 <= r < p
    ensures x / (2 * p) == q && x % (2 * p) == x % 2 + 2 * r
  {
    assert 2 * (p * q) == q * (2 * p);
    DivUnique(x, 2 * p, q, x % 2 + 2 * r);
  }

  lemma DivDiv(x: int, a: nat, b: nat)
    requires a > 0 && b > 0
    ensures a * b > 0
    ensures x / (a * b) == (x / a) / b
  {
    var q := x / a;
    assert x == a * q + x % a;
    assert q == b * (q / b) + q % b;
    assert a * q == (q / b) * (a * b) + a * (q % b);
    MulSign(b - q % b, a);
    assert a * (q % b) == a * b - a * (b - q % b);
    assert 0 <= a * (q % b);
    DivUnique(x, a * b, q / b, x % a + a * (q % b));
  }

  // ---------------------------------------------------- shifts, one bit at a time

  lemma ShiftZero(x: nat)
    ensures Up(x, 0) == x && Shr(x, 0) == x && Low(x, 0) == 0
  {
  }

  lemma UpStep(x: nat, k: nat)
    ensures Up(x, k + 1) == 2 * Up(x, k) == Up(2 * x, k)
  {
  }

  lemma ShrStep(x: nat, k: nat)
    ensures Shr(x, k + 1) == Shr(x / 2, k) == Shr(x, k) / 2
  {
    DivDouble(x, Pow2(k));
  }

  lemma LowStep(x: nat, k: nat)
    ensures Low(x, k + 1) == x % 2 + 2 * Low(x / 2, k)
    ensures Low(x, k + 1) == Low(x, k) + Up(Bit(x, k), k)
  {
    DivDouble(x, Pow2(k));
  }

  lemma BitStep(x: nat, k: nat)
    ensures Bit(x, 0) == x % 2 && Bit(x, k + 1) == Bit(x / 2, k)
  {
    ShrStep(x, k);
  }

  lemma UpAdd(x: nat, y: nat, k: nat)
    ensures Up(x + y, k) == Up(x, k) + Up(y, k)
  {
  }

  /** A number is its high part shifted up plus its low part, in exactly one way. */
  lemma Split(x: nat, k: nat)
    ensures x == Up(Shr(x, k), k) + Low(x, k)
  {
  }

  lemma SplitUnique(x: nat, k: nat, h: nat, l: nat)
    requires x == Up(h, k) + l && l < Pow2(k)
    ensures Shr(x, k) == h && Low(x, k) == l
  {
    DivUnique(x, Pow2(k), h, l);
  }

  lemma LowFits(x: nat, k: nat)
    requires x < Pow2(k)
    ensures Low(x, k) == x
  {
    DivUnique(x, Pow2(k), 0, x);
  }

  lemma UpBound(x: nat, k: nat, n: nat)
    requires x < Pow2(n)
    ensures Up(x, k) + Pow2(k) <= Pow2(n + k)
  {
    Pow2Add(n, k);
    MulSign(Pow2(n) - x, Pow2(k));
    assert Pow2(k) * (Pow2(n) - x) == Pow2(n) * Pow2(k) - x * Pow2(k);
  }

  lemma ShrBound(x: nat, k: nat, n: nat)
    requires x < Pow2(k + n)
    ensures Shr(x, k) < Pow2(n)
  {
    Pow2Add(k, n);
    DivLess(x, Pow2(k), Pow2(n));
  }

  lemma UpUp(x: nat, j: nat, k: nat)
    ensures Up(Up(x, j), k) == Up(x, j + k)
  {
    Pow2Add(j, k);
    assert x * Pow2(j) * Pow2(k) == x * (Pow2(j) * Pow2(k));
  }

  lemma ShrShr(x: nat, j: nat, k: nat)
    ensures Shr(Shr(x, j), k) == Shr(x, j + k)
  {
    Pow2Add(j, k);
    DivDiv(x, Pow2(j), Pow2(k));
  }

  /** A left shift that pushes no bit out of the word just multiplies. */
  lemma ShlSmall(x: u32, s: nat, n: nat)
    requires x < Pow2(n) && n + s <= 32
    ensures Shl(x, s) == Up(x, s) < Pow2(n + s) <= TWO32
  {
    hide Up, Pow2;
    UpBound(x, s, n);
    Pow2Mono(n + s, 32);
    Pow2Values();
  }

  // ----------------------------------------------------------------- AND, OR, XOR

  lemma AndStep(x: nat, y: nat)
    ensures And(x, y) == (if x % 2 == 1 && y % 2 == 1 then 1 else 0) + 2 * And(x / 2, y / 2)
  {
  }

  lemma AndZero(x: nat)
    ensures And(x, 0) == 0
  {
  }

  lemma AndHalves(x: nat, y: nat)
    ensures And(x, y) / 2 == And(x / 2, y / 2)
    ensures And(x, y) % 2 == 1 <==> x % 2 == 1 && y % 2 == 1
  {
    AndStep(x, y);
  }

  lemma OrHalves(x: nat, y: nat)
    ensures Or(x, y) / 2 == Or(x / 2, y / 2)
    ensures Or(x, y) % 2 == 1 <==> x % 2 == 1 || y % 2 == 1
  {
  }

  lemma XorHalves(x: nat, y: nat)
    ensures Xor(x, y) / 2 == Xor(x / 2, y / 2)
    ensures Xor(x, y) % 2 == 1 <==> x % 2 != y % 2
  {
  }

  /** AND distributes over OR. */
  lemma {:induction false} AndOr(x: nat, y: nat, m: nat)
    ensures And(Or(x, y), m) == Or(And(x, m), And(y, m))
    decreases x + y + m
  {
    hide And, Or;
    AndHalves(x, m);
    AndHalves(y, m);
    AndHalves(Or(x, y), m);
    OrHalves(x, y);
    OrHalves(And(x, m), And(y, m));
    if x + y + m > 0 { AndOr(x / 2, y / 2, m / 2); }
  }

  lemma {:induction false} AndCommutes(x: nat, y: nat)
    ensures And(x, y) == And(y, x)
  {
    if x > 0 && y > 0 { AndCommutes(x / 2, y / 2); }
  }

  /** AND acts on the low k bits and on the rest separately. */
  lemma {:induction false} AndConcat(xh: nat, xl: nat, yh: nat, yl: nat, k: nat)
    requires xl < Pow2(k) && yl < Pow2(k)
    ensures And(Up(xh, k) + xl, Up(yh, k) + yl) == Up(And(xh, yh), k) + And(xl, yl)
    decreases k
  {
    hide And, Up;
    AndStep(xl, yl);
    if k == 0 {
      ShiftZero(xh); ShiftZero(yh); ShiftZero(And(xh, yh));
      assert xl == 0 && yl == 0;
    } else {
      assert xl / 2 < Pow2(k - 1) && yl / 2 < Pow2(k - 1);
      hide Pow2;
      AndConcat(xh, xl / 2, yh, yl / 2, k - 1);
      UpStep(xh, k - 1);
      UpStep(yh, k - 1);
      UpStep(And(xh, yh), k - 1);
      AndStep(Up(xh, k) + xl, Up(yh, k) + yl);
    }
  }

  lemma AndSplit(x: nat, y: nat, k: nat)
    ensures And(x, y) == Up(And(Shr(x, k), Shr(y, k)), k) + And(Low(x, k), Low(y, k))
  {
    hide *;
    Split(x, k);
    Split(y, k);
    AndConcat(Shr(x, k), Low(x, k), Shr(y, k), Low(y, k), k);
  }

  /** Masking with k ones is the remainder modulo 2^k. */
  lemma {:induction false} AndLowMask(x: nat, k: nat)
    ensures And(x, Pow2(k) - 1) == Low(x, k)
    decreases k
  {
    if k == 0 {
      ShiftZero(x);
    } else {
      AndLowMask(x / 2, k - 1);
      AndStep(x, Pow2(k) - 1);
      LowStep(x, k - 1);
      hide And, Low;
    }
  }

  lemma ShiftValue(w: nat, k: nat, p: nat)
    requires p == Pow2(k)
    ensures Shr(w, k) == w / p && Low(w, k) == w % p && Up(w, k) == w * p
  {
  }

  /** The mask splits at a field boundary: the part below it and the part from it on. */
  lemma MaskAt(w: u32, k: nat, p: nat, high: nat, low: nat)
    requires p == Pow2(k) && low < p
    ensures And(w, Up(high, k) + low) == Up(And(Shr(w, k), high), k) + And(Low(w, k), low)
  {
    hide And, Up, Shr, Low;
    Split(w, k);
    AndConcat(Shr(w, k), Low(w, k), high, low, k);
  }

  /** A field of n ones from bit k on adds that field to what the rest of the mask keeps. */
  lemma AndFieldAbove(w: u32, k: nat, n: nat, low: nat)
    requires low < Pow2(k)
    ensures And(w, Up(Pow2(n) - 1, k) + low) == And(w, low) + Up(Low(Shr(w, k), n), k)
  {
    MaskAt(w, k, Pow2(k), Pow2(n) - 1, low);
    MaskAt(w, k, Pow2(k), 0, low);
    hide And, Pow2, Low, Shr;
    AndZero(Shr(w, k));
    AndLowMask(Shr(w, k), n);
  }

  /** The same with the powers of two written out. */
  lemma AndField(w: u32, k: nat, n: nat, low: nat, p: nat, q: nat, mask: nat)
    requires p == Pow2(k) && q == Pow2(n) && low < p && mask == (q - 1) * p + low
    ensures And(w, mask) == And(w, low) + (w / p % q) * p
  {
    hide And, Pow2, Up, Low, Shr;
    AndFieldAbove(w, k, n, low);
    ShiftValue(w, k, p);
    ShiftValue(Shr(w, k), n, q);
    ShiftValue(q - 1, k, p);
    ShiftValue(Low(Shr(w, k), n), k, p);
  }

  /** x uses only bits below k and y only bits from k on: their OR is their sum. */
  lemma OrDisjoint(x: nat, y: nat, k: nat)
    requires x < Pow2(k)
    ensures Or(x, Up(y, k)) == x + Up(y, k) == Or(Up(y, k), x)
  {
    AndConcat(0, x, y, 0, k);
    AndCommutes(x, Up(y, k));
    hide Pow2;
  }

  lemma {:induction false} OrBound(x: nat, y: nat, k: nat)
    requires x < Pow2(k) && y < Pow2(k)
    ensures Or(x, y) < Pow2(k)
    decreases k
  {
    if k > 0 && x > 0 && y > 0 { OrBound(x / 2, y / 2, k - 1); }
  }

  lemma {:induction false} XorBound(x: nat, y: nat, k: nat)
    requires x < Pow2(k) && y < Pow2(k)
    ensures Xor(x, y) < Pow2(k)
    decreases k
  {
    if k > 0 && x > 0 && y > 0 { XorBound(x / 2, y / 2, k - 1); }
  }

  lemma OrWord(x: u32, y: u32)
    ensures Or(x, y) < TWO32
  {
    hide Pow2, Or, Xor;
    Pow2Values();
    OrBound(x, y, 32);
  }

  lemma XorWord(x: u32, y: u32)
    ensures Xor(x, y) < TWO32
  {
    hide Pow2, Or, Xor;
    Pow2Values();
    XorBound(x, y, 32);
  }

  // --------------------------------------------------------------- single bits

  /** Bit i of the result depends on bit i of the operands alone, by the truth table of the operator. */
  lemma {:induction false} BitwiseBits(x: nat, y: nat, i: nat)
    ensures Bit(And(x, y), i) == 1 <==> Bit(x, i) == 1 && Bit(y, i) == 1
    ensures Bit(Or(x, y), i) == 1 <==> Bit(x, i) == 1 || Bit(y, i) == 1
    ensures Bit(Xor(x, y), i) == 1 <==> Bit(x, i) != Bit(y, i)
    decreases i
  {
    hide And, Or, Xor, Bit;
    AndHalves(x, y);
    OrHalves(x, y);
    XorHalves(x, y);
    if i > 0 { BitwiseBits(x / 2, y / 2, i - 1); }
    BitOfHalf(x, i);
    BitOfHalf(y, i);
    BitOfHalf(And(x, y), i);
    BitOfHalf(Or(x, y), i);
    BitOfHalf(Xor(x, y), i);
  }

  lemma BitOfHalf(x: nat, i: nat)
    ensures Bit(x, i) == if i == 0 then x % 2 else Bit(x / 2, i - 1)
  {
    BitStep(x, if i == 0 then 0 else i - 1);
  }

  /** Cutting a number off keeps the bits below. */
  lemma {:induction false} LowBit(v: nat, k: nat, i: nat)
    requires i < k
    ensures Bit(Low(v, k), i) == Bit(v, i)
    decreases i
  {
    hide Bit, Low;
    LowStep(v, k - 1);
    BitOfHalf(v, i);
    BitOfHalf(Low(v, k), i);
    if i > 0 { LowBit(v / 2, k - 1, i - 1); }
  }

  /** Complement flips every bit of the word. */
  lemma NotBits(x: u32, i: nat)
    requires i < 32
    ensures Bit(Not(x), i) == 1 - Bit(x, i)
  {
    hide Bit, Pow2;
    Pow2Values();
    ComplementBit(x, 32, i);
  }

  lemma {:induction false} ComplementBit(x: nat, k: nat, i: nat)
    requires i < k && x < Pow2(k)
    ensures Bit(Pow2(k) - 1 - x, i) == 1 - Bit(x, i)
    decreases i
  {
    hide Bit;
    var c := Pow2(k) - 1 - x;
    assert c % 2 == 1 - x % 2 && c / 2 == Pow2(k - 1) - 1 - x / 2;
    BitOfHalf(x, i);
    BitOfHalf(c, i);
    if i > 0 { ComplementBit(x / 2, k - 1, i - 1); }
  }

  lemma AndOne(x: nat)
    ensures And(x, 1) == x % 2
  {
    AndStep(x, 1);
  }

  /** AND-ing with the single bit 2^i keeps that bit and nothing else. */
  lemma AndOneHot(x: nat, i: nat)
    ensures And(x, Up(1, i)) == Up(Bit(x, i), i)
  {
    hide And, Up, Low, Shr, Pow2;
    Split(x, i);
    AndConcat(Shr(x, i), Low(x, i), 1, 0, i);
    AndZero(Low(x, i));
    AndOne(Shr(x, i));
  }

  // ------------------------------------------------- wrap-around and signs

  /** Two numbers that differ by a multiple of 2^32 leave the same register. */
  lemma WrapCongruent(n: int, m: int, k: int)
    requires n == m + k * TWO32
    ensures Wrap(n) == Wrap(m)
  {
    DivUnique(n, TWO32, m / TWO32 + k, m % TWO32);
  }

  lemma WrapAdd(x: int, y: int)
    ensures Wrap(Wrap(x) + y) == Wrap(x + y)
  {
    WrapCongruent(x + y, Wrap(x) + y, x / TWO32);
  }
}
