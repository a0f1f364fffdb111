/**
 The multiplications and divisions of `ext_m_cb.cpp`, as coded through 64-bit products and with the
 special cases of division, and their meaning over the integers.

 Two multiplications are coded differently from chapter 7 of the RISC-V Unprivileged ISA: MULH widens
 both operands without their sign and MULHSU widens both with their sign.  They are modelled as coded;
 the lemmas state the difference and exactly when there is none.
 */
module MulDiv {
  import opened Bits
  import opened IsaHelpers

  const TWO64: nat := 0x1_0000_0000_0000_0000
  const INT32_MIN: int := -0x8000_0000

  // ----------------------------------------------------------------- as coded

  function Mul(a: u32, b: u32): u32 { TruncHigh32(a * b % TWO64) }

  /** `WIRegister rs1 = sim->GetXReg(..)` zero-extends; the signed product, which may overflow, is taken modulo 2^64. */
  function Mulh(a: u32, b: u32): u32 { TruncLow32(WIRegToWReg(a * b)) }

  /** Both operands are sign-extended. */
  function Mulhsu(a: u32, b: u32): u32 {
    var rs1 := WRegToWIReg(SignExt64(a));
    var rs2 := Signed(b);
    TruncLow32(WIRegToWReg(rs1 * rs2))
  }

  function Mulhu(a: u32, b: u32): u32 { TruncLow32(a * b % TWO64) }

  /** The `/` of C++: rounds toward zero. */
  function CppDiv(a: int, b: int): int
    requires b != 0
  {
    var q := Abs(a) / Abs(b);
    if (a < 0) == (b < 0) then q else -q
  }

  function Abs(x: int): nat { if x < 0 then -x else x }

  /** The `%` of C++. */
  function CppRem(a: int, b: int): int
    requires b != 0
  {
    a - b * CppDiv(a, b)
  }

  function Div(a: u32, b: u32): u32 {
    var rs1, rs2 := Signed(a), Signed(b);
    if rs2 == 0 then Wrap(-1)
    else if rs1 == INT32_MIN && rs2 == -1 then Wrap(INT32_MIN)
    else Wrap(CppDiv(rs1, rs2))
  }

  function Divu(a: u32, b: u32): u32 { if b == 0 then TWO32 - 1 else Wrap(a / b) }

  function Rem(a: u32, b: u32): u32 {
    var rs1, rs2 := Signed(a), Signed(b);
    if rs2 == 0 then Wrap(rs1)
    else if rs1 == INT32_MIN && rs2 == -1 then 0
    else Wrap(CppRem(rs1, rs2))
  }

  function Remu(a: u32, b: u32): u32 { if b == 0 then a else Wrap(a % b) }

  // ------------------------------------------------------------------ products

  lemma ProductBound(a: int, b: int, m: int)
    requires -m <= a <= m && -m <= b <= m
    ensures -(m * m) <= a * b <= m * m
    ensures a >= 0 && b >= 0 ==> a * b >= 0
  {
    assert (m - a) * (m + b) >= 0 && (m + a) * (m - b) >= 0;
    assert (m - a) * (m - b) >= 0 && (m + a) * (m + b) >= 0;
  }

  lemma MulValue(a: u32, b: u32)
    ensures Mul(a, b) == Wrap(a * b)
    ensures Mulhu(a, b) == Mulh(a, b) == a * b / TWO32
    ensures 0 <= a * b < TWO64
  {
    hide TruncHigh32, TruncLow32;
    ProductBound(a, b, TWO32 - 1);
    TruncHigh32Value(a * b);
    TruncLow32Value(a * b);
  }

  lemma MulhsuValue(a: u32, b: u32)
    ensures Mulhsu(a, b) == Wrap(Signed(a) * Signed(b) / TWO32)
  {
    hide TruncLow32, SignExt64;
    SignExt64Value(a);
    ProductBound(Signed(a), Signed(b), 0x8000_0000);
    HighWord(Signed(a) * Signed(b));
  }

  lemma HighWord(q: int)
    requires -(TWO64 as int) <= q < TWO64
    ensures TruncLow32(WIRegToWReg(q)) == Wrap(q / TWO32)
  {
    hide TruncLow32;
    TruncLow32Value(WIRegToWReg(q));
  }

  /** High and low word together are the exact unsigned product. */
  lemma UnsignedProduct(a: u32, b: u32)
    ensures TWO32 * Mulhu(a, b) + Mul(a, b) == a * b
  {
    hide Mulhu, Mul, Mulh;
    MulValue(a, b);
  }

  /** The signed and the unsigned product differ by a multiple of 2^32. */
  lemma SignedUnsigned(a: u32, b: u32)
    ensures Signed(a) * Signed(b) == a * b - TWO32 * (NegTimes(a, b) + NegTimes(b, Signed(a)))
    ensures Signed(a) * b == a * b - TWO32 * NegTimes(a, b)
  {
  }

  /** The second factor if the first is negative. */
  function NegTimes(a: u32, x: int): int { if a < 0x8000_0000 then 0 else x }

  /** MULHSU as coded is the high word of the signed product. */
  lemma SignedProduct(a: u32, b: u32)
    ensures TWO32 * Signed(Mulhsu(a, b)) + Mul(a, b) == Signed(a) * Signed(b)
  {
    hide Mulhu, Mul, Mulh, Mulhsu;
    MulValue(a, b);
    MulhsuValue(a, b);
    SignedUnsigned(a, b);
    var q := Signed(a) * Signed(b);
    ProductBound(Signed(a), Signed(b), 0x8000_0000);
    hide Signed;
    WrapCongruent(a * b, q, NegTimes(a, b) + NegTimes(b, Signed(a)));
    SignedHigh(q);
  }

  lemma SignedHigh(q: int)
    requires -0x4000_0000_0000_0000 <= q <= 0x4000_0000_0000_0000
    ensures Signed(Wrap(q / TWO32)) == q / TWO32
  {
  }

  // -------------------------------------------- against chapter 7 of the ISA

  /** The high word that MULH is to deliver: signed times signed. */
  function IsaMulh(a: u32, b: u32): u32 { Wrap(Signed(a) * Signed(b) / TWO32) }

  /** The high word that MULHSU is to deliver: signed times unsigned. */
  function IsaMulhsu(a: u32, b: u32): u32 { Wrap(Signed(a) * b / TWO32) }

  /** MULH as coded is off by b for negative a and by a for negative b. */
  lemma MulhDifference(a: u32, b: u32)
    ensures Mulh(a, b) == Wrap(IsaMulh(a, b) + NegTimes(a, b) + NegTimes(b, a))
  {
    hide Mulhu, Mul, Mulh, Signed, NegTimes, Wrap;
    MulValue(a, b);
    SignedUnsigned(a, b);
    NegTimesSigned(b, a);
    var q, d, d' := Signed(a) * Signed(b), NegTimes(a, b) + NegTimes(b, Signed(a)), NegTimes(a, b) + NegTimes(b, a);
    ShiftedQuotient(a * b, q, d);
    WrapAdd(q / TWO32, d');
    WrapCongruent(q / TWO32 + d', a * b / TWO32, if d' == d then 0 else 1);
    WrapFits(a * b / TWO32);
  }

  lemma NegTimesSigned(a: u32, b: u32)
    ensures NegTimes(a, b) == NegTimes(a, Signed(b)) || NegTimes(a, b) == NegTimes(a, Signed(b)) + TWO32
  {
  }

  lemma WrapFits(x: u32)
    ensures Wrap(x) == x
  {
  }

  lemma ShiftedQuotient(p: int, q: int, d: int)
    requires q == p - TWO32 * d
    ensures q / TWO32 == p / TWO32 - d
  {
    DivUnique(q, TWO32, p / TWO32 - d, p % TWO32);
  }

  /** Exactly when MULH as coded is right: nothing negative, a zero, or min times min. */
  lemma MulhIsStandard(a: u32, b: u32)
    ensures Mulh(a, b) == IsaMulh(a, b)
        <==> (a < 0x8000_0000 && b < 0x8000_0000) || a == 0 || b == 0 || (a == 0x8000_0000 && b == 0x8000_0000)
  {
    MulhDifference(a, b);
    hide Mulh, IsaMulh;
    OffsetVanishes(IsaMulh(a, b), NegTimes(a, b) + NegTimes(b, a));
  }

  lemma OffsetVanishes(x: u32, d: int)
    requires 0 <= d < 2 * TWO32
    ensures Wrap(x + d) == x <==> d == 0 || d == TWO32
  {
  }

  /** MULHSU as coded is off by a for negative b. */
  lemma MulhsuDifference(a: u32, b: u32)
    ensures Mulhsu(a, b) == Wrap(IsaMulhsu(a, b) - NegTimes(b, a))
  {
    hide Mulhsu, Signed, NegTimes, Wrap;
    MulhsuValue(a, b);
    SignedUnsigned(a, b);
    SignedUnsigned(b, a);
    NegTimesSigned(b, a);
    var q, p, d := Signed(a) * Signed(b), Signed(a) * b, NegTimes(b, Signed(a));
    ShiftedQuotient(p, q, d);
    WrapAdd(p / TWO32, -NegTimes(b, a));
    WrapCongruent(p / TWO32 - NegTimes(b, a), q / TWO32, if NegTimes(b, a) == d then 0 else -1);
  }

  /** Exactly when MULHSU as coded is right: the second operand has its top bit clear, or the first is zero. */
  lemma MulhsuIsStandard(a: u32, b: u32)
    ensures Mulhsu(a, b) == IsaMulhsu(a, b) <==> b < 0x8000_0000 || a == 0
  {
    MulhsuDifference(a, b);
    hide Mulhsu, IsaMulhsu;
    assert Wrap(IsaMulhsu(a, b) - NegTimes(b, a)) == IsaMulhsu(a, b) <==> NegTimes(b, a) == 0;
  }

  /** The operands of `tests/mul.s`, -1 and 0x80000000, for which neither is right. */
  lemma SignTestsFail()
    ensures Mulh(0xffff_ffff, 0x8000_0000) == 0x7fff_ffff && IsaMulh(0xffff_ffff, 0x8000_0000) == 0
    ensures Mulhsu(0xffff_ffff, 0x8000_0000) == 0 && IsaMulhsu(0xffff_ffff, 0x8000_0000) == 0xffff_ffff
  {
    hide Mulh, Mulhsu, Mulhu, Mul;
    MulValue(0xffff_ffff, 0x8000_0000);
    MulhsuValue(0xffff_ffff, 0x8000_0000);
  }

  // ------------------------------------------------------------------ division

  lemma CppDivRounds(a: int, b: int)
    requires b != 0
    ensures a == b * CppDiv(a, b) + CppRem(a, b)
    ensures Abs(CppRem(a, b)) < Abs(b)
    ensures CppRem(a, b) == 0 || (CppRem(a, b) < 0 <==> a < 0)
    ensures Abs(CppDiv(a, b)) <= Abs(a)
  {
    CppValues(a, b);
    hide CppDiv, CppRem;
    DivBound(Abs(a), Abs(b));
  }

  lemma CppValues(a: int, b: int)
    requires b != 0
    ensures a == b * CppDiv(a, b) + CppRem(a, b)
    ensures CppDiv(a, b) == if (a < 0) == (b < 0) then Abs(a) / Abs(b) else 0 - Abs(a) / Abs(b)
    ensures CppRem(a, b) == if a < 0 then 0 - Abs(a) % Abs(b) else Abs(a) % Abs(b)
  {
    SignedRemainder(a, b, Abs(a) / Abs(b), Abs(a) % Abs(b));
  }

  lemma SignedRemainder(a: int, b: int, q: int, r: int)
    requires Abs(a) == Abs(b) * q + r
    ensures a - b * (if (a < 0) == (b < 0) then q else -q) == if a < 0 then -r else r
  {
    SignMul(b, q);
  }

  lemma SignMul(b: int, q: int)
    ensures b * q == if b < 0 then -(Abs(b) * q) else Abs(b) * q
    ensures b * -q == -(b * q)
  {
  }

  lemma HalfBound(x: nat, y: nat)
    requires y >= 2
    ensures 2 * (x / y) <= x
  {
    assert x == y * (x / y) + x % y;
    assert (y - 2) * (x / y) >= 0 by { DivBound(x, y); }
  }

  /** Dividend = quotient * divisor + remainder modulo 2^32, for all operands, zero and min / -1 included. */
  lemma DivRemIdentity(a: u32, b: u32)
    ensures Wrap(b * Div(a, b) + Rem(a, b)) == a
    ensures b == 0 ==> Div(a, b) == 0xffff_ffff && Rem(a, b) == a
    ensures a == 0x8000_0000 && b == 0xffff_ffff ==> Div(a, b) == a && Rem(a, b) == 0
  {
    DivRemCases(a, b);
    if b != 0 && !(a == 0x8000_0000 && b == 0xffff_ffff) { CppDivRounds(Signed(a), Signed(b)); }
    hide Div, Rem, CppDiv, CppRem, Signed;
    if b == 0 {
      WrapFits(a);
    } else if a == 0x8000_0000 && b == 0xffff_ffff {
      assert b * 0x8000_0000 == 0x7fff_ffff_8000_0000;
    } else {
      Recomposed(a, b, CppDiv(Signed(a), Signed(b)), CppRem(Signed(a), Signed(b)));
    }
  }

  lemma DivRemCases(a: u32, b: u32)
    ensures b == 0 ==> Div(a, b) == 0xffff_ffff && Rem(a, b) == a
    ensures a == 0x8000_0000 && b == 0xffff_ffff ==> Div(a, b) == 0x8000_0000 && Rem(a, b) == 0
    ensures b != 0 && !(a == 0x8000_0000 && b == 0xffff_ffff) ==>
              && Signed(b) != 0
              && Div(a, b) == Wrap(CppDiv(Signed(a), Signed(b)))
              && Rem(a, b) == Wrap(CppRem(Signed(a), Signed(b)))
  {
    hide CppDiv, CppRem;
  }

  lemma Recomposed(a: u32, b: u32, q: int, r: int)
    requires Signed(a) == Signed(b) * q + r
    ensures Wrap(b * Wrap(q) + Wrap(r)) == a
  {
    hide Wrap, Signed;
    WrapOfSigned(a);
    WrapOfSigned(b);
    WrapAdd(q, 0);
    WrapAdd(r, 0);
    CongruentProduct(Signed(b), q, b, Wrap(q)) by { WrapFits(b); WrapFits(Wrap(q)); }
    WrapFits(Wrap(r));
    WrapSum(b * Wrap(q), Signed(b) * q, Wrap(r), r);
  }

  lemma WrapOfSigned(x: u32)
    ensures Wrap(Signed(x)) == x
  {
  }

  lemma WrapSum(x: int, x': int, y: int, y': int)
    requires Wrap(x) == Wrap(x') && Wrap(y) == Wrap(y')
    ensures Wrap(x + y) == Wrap(x' + y')
  {
    WrapCongruent(x + y, x' + y', x / TWO32 - x' / TWO32 + y / TWO32 - y' / TWO32);
  }

  /** Congruent factors have congruent products. */
  lemma CongruentProduct(x: int, y: int, x': int, y': int)
    requires Wrap(x) == Wrap(x') && Wrap(y) == Wrap(y')
    ensures Wrap(x * y) == Wrap(x' * y')
  {
    var i, j := x / TWO32 - x' / TWO32, y / TWO32 - y' / TWO32;
    assert x == x' + i * TWO32 && y == y' + j * TWO32;
    assert x * y == x' * y' + (x' * j + i * y' + i * j * TWO32) * TWO32;
    WrapCongruent(x * y, x' * y', x' * j + i * y' + i * j * TWO32);
  }

  lemma DivuRemuIdentity(a: u32, b: u32)
    ensures Wrap(b * Divu(a, b) + Remu(a, b)) == a
    ensures b != 0 ==> b * Divu(a, b) + Remu(a, b) == a && Remu(a, b) < b
    ensures b == 0 ==> Divu(a, b) == 0xffff_ffff && Remu(a, b) == a
  {
    if b == 0 {
      assert b * Divu(a, b) == 0;
    } else {
      UnsignedDivision(a, b);
      hide Divu, Remu;
    }
  }

  lemma UnsignedDivision(a: u32, b: u32)
    requires b != 0
    ensures Divu(a, b) == a / b && Remu(a, b) == a % b < b && b * (a / b) + a % b == a
  {
    DivBound(a, b);
  }

  /**
   Outside the special cases DIV and REM are the only pair of integers that recomposes the dividend
   with a remainder smaller than the divisor that is zero or has the sign of the dividend.
   */
  lemma DivRemUnique(a: u32, b: u32, q: int, r: int)
    requires b != 0 && !(a == 0x8000_0000 && b == 0xffff_ffff)
    ensures q == Signed(Div(a, b)) && r == Signed(Rem(a, b))
       <==> Signed(a) == Signed(b) * q + r && Abs(r) < Abs(Signed(b)) && (r == 0 || (r < 0 <==> a >= 0x8000_0000))
  {
    var x, y := Signed(a), Signed(b);
    CppDivRounds(x, y);
    QuotientFits(a, b);
    hide CppDiv, CppRem, Div, Rem, Signed;
    if Abs(r) < Abs(y) && (r == 0 || (r < 0 <==> x < 0)) {
      RoundedPairUnique(x, y, q, r, CppDiv(x, y), CppRem(x, y));
    }
  }

  /** The quotient rounded toward zero, from the one with a nonnegative remainder. */
  function Truncated(x: int, y: int): int
    requires y != 0
  {
    if x >= 0 || x % y == 0 then x / y else x / y + (if y > 0 then 1 else -1)
  }

  /** DIV of section 7.2 of the ISA; that min / -1 gives min follows from keeping 32 bits. */
  function IsaDiv(a: u32, b: u32): u32 {
    if b == 0 then 0xffff_ffff else Wrap(Truncated(Signed(a), Signed(b)))
  }

  function IsaRem(a: u32, b: u32): u32 {
    if b == 0 then a else Wrap(Signed(a) - Signed(b) * Truncated(Signed(a), Signed(b)))
  }

  lemma CppDivTruncates(x: int, y: int)
    requires y != 0
    ensures CppDiv(x, y) == Truncated(x, y) && CppRem(x, y) == x - y * Truncated(x, y)
  {
    hide CppDiv, CppRem, Truncated;
    CppDivRounds(x, y);
    TruncatedRounds(x, y, x / y, x % y);
    RoundedPairUnique(x, y, Truncated(x, y), x - y * Truncated(x, y), CppDiv(x, y), CppRem(x, y));
  }

  lemma TruncatedRounds(x: int, y: int, q: int, r: int)
    requires y != 0 && q == x / y && r == x % y
    ensures var rest := x - y * Truncated(x, y); Abs(rest) < Abs(y) && (rest == 0 || (rest < 0 <==> x < 0))
  {
    assert x == y * q + r && 0 <= r < Abs(y);
    assert y * (q + 1) == y * q + y && y * (q - 1) == y * q - y;
    assert Truncated(x, y) == if x >= 0 || r == 0 then q else if y > 0 then q + 1 else q - 1;
    hide Truncated;
  }

  /** DIV and REM as coded are those of the ISA for all operands. */
  lemma DivIsStandard(a: u32, b: u32)
    ensures Div(a, b) == IsaDiv(a, b) && Rem(a, b) == IsaRem(a, b)
  {
    DivRemCases(a, b);
    if b != 0 { CppDivTruncates(Signed(a), Signed(b)); }
    hide Div, Rem, CppDiv, CppRem;
    if a == 0x8000_0000 && b == 0xffff_ffff { assert Truncated(-0x8000_0000, -1) == 0x8000_0000; }
  }

  lemma RoundedPairUnique(x: int, y: int, q: int, r: int, q': int, r': int)
    requires y != 0 && x == y * q' + r'
    requires Abs(r) < Abs(y) && (r == 0 || (r < 0 <==> x < 0))
    requires Abs(r') < Abs(y) && (r' == 0 || (r' < 0 <==> x < 0))
    ensures x == y * q + r <==> q == q' && r == r'
  {
    assert y * q - y * q' == y * (q - q');
    if q != q' { FactorAtLeast(y, q - q'); }
  }

  lemma FactorAtLeast(y: int, k: int)
    requires y != 0 && k != 0
    ensures Abs(y * k) >= Abs(y)
  {
    MulSign(Abs(k), Abs(y));
    SignMul(y, k);
    SignMul(k, Abs(y));
  }

  lemma QuotientFits(a: u32, b: u32)
    requires b != 0 && !(a == 0x8000_0000 && b == 0xffff_ffff)
    ensures Signed(Div(a, b)) == CppDiv(Signed(a), Signed(b))
    ensures Signed(Rem(a, b)) == CppRem(Signed(a), Signed(b))
  {
    var x, y := Signed(a), Signed(b);
    CppDivRounds(x, y);
    if Abs(y) >= 2 {
      HalfBound(Abs(x), Abs(y));
    } else {
      assert CppDiv(x, y) == if y == 1 then x else -x;
    }
    assert -0x8000_0000 <= CppDiv(x, y) < 0x8000_0000;
    hide CppDiv, CppRem;
  }
}
