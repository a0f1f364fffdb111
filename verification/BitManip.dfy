/**
 The shift, count, rotate and byte operations of `ext_i_cb.cpp` and `ext_zbb_cb.cpp`: the loops and bit
 tricks as coded, against arithmetic definitions, and the laws those definitions satisfy.
 */
module BitManip {
  import opened Bits
  import opened Bytes
  import opened IsaHelpers

  // ------------------------------------------------------ arithmetic right shift

  function ArithmRightShift(x: u32, shift: nat): u32 {
    var allOnes: u32 := 0xffff_ffff;
    if shift == 0 then x
    else if shift >= 32 then (if IsBitSet(x, 31) then allOnes else 0)
    else
      var logical := Shr(x, shift);
      if !IsBitSet(x, 31) then logical
      else
        var fillMask := Shl(allOnes, 32 - shift);
        Or32(logical, fillMask)
  }

  /** Division of the signed value by 2^shift, rounding down, for every shift. */
  function FloorShift(x: u32, shift: nat): u32 { Wrap(Signed(x) / Pow2(shift)) }

  lemma SignBit(x: u32)
    ensures IsBitSet(x, 31) <==> x >= 0x8000_0000
  {
    Pow2Values();
    BitSetMeansBit(x, 31);
    TopBit(x, 32);
    hide IsBitSet, Bit;
  }

  lemma ArithmRightShiftIsFloor(x: u32, shift: nat)
    ensures ArithmRightShift(x, shift) == FloorShift(x, shift)
  {
    hide IsBitSet, Or, Pow2, Shr, Shl;
    SignBit(x);
    if shift == 0 {
      Pow2Values();
      assert Signed(x) / 1 == Signed(x);
    } else if shift >= 32 {
      FarShift(x, shift);
    } else if x >= 0x8000_0000 {
      NegativeShift(x, shift);
      FloorOfNegative(x, shift);
    } else {
      PlainShift(x, shift);
    }
  }

  lemma FarShift(x: u32, s: nat)
    requires s >= 32
    ensures Signed(x) / Pow2(s) == if x < 0x8000_0000 then 0 else -1
  {
    var p := Pow2(s);
    assert p >= TWO32 by { Pow2Mono(32, s); Pow2Values(); }
    if x < 0x8000_0000 { DivUnique(Signed(x), p, 0, x); } else { DivUnique(Signed(x), p, -1, Signed(x) + p); }
  }

  lemma PlainShift(x: u32, s: nat)
    ensures Shr(x, s) == x / Pow2(s) == Wrap(x / Pow2(s))
  {
    DivBound(x, Pow2(s));
  }

  lemma NegativeShift(x: u32, s: nat)
    requires 0 < s < 32
    ensures Shr(x, s) < Pow2(32 - s) <= TWO32
    ensures Or32(Shr(x, s), Shl(0xffff_ffff, 32 - s)) == Shr(x, s) + TWO32 - Pow2(32 - s)
  {
    hide Or, Shl, Shr, Pow2;
    var k := 32 - s;
    Pow2Values();
    Pow2Mono(k, 32);
    ShrBound(x, s, k);
    ShlAllOnes(k);
    OrHighMask(Shr(x, s), k);
  }

  lemma FloorOfNegative(x: u32, s: nat)
    requires 0 < s < 32
    ensures Shr(x, s) < Pow2(32 - s)
    ensures (x - TWO32) / Pow2(s) == Shr(x, s) - Pow2(32 - s)
  {
    hide Pow2, Shr;
    Pow2Values();
    Pow2Add(32 - s, s);
    ShrBound(x, s, 32 - s);
    DivOffset(x, Pow2(s), Pow2(32 - s));
    PlainShift(x, s);
  }

  lemma DivOffset(x: int, p: nat, q: int)
    requires p > 0
    ensures (x - q * p) / p == x / p - q
  {
    assert x - q * p == (x / p - q) * p + x % p;
    DivUnique(x - q * p, p, x / p - q, x % p);
  }

  /** Shifting in two steps is shifting by the sum. */
  lemma ArithmRightShiftTwice(x: u32, s: nat, t: nat)
    ensures ArithmRightShift(ArithmRightShift(x, s), t) == ArithmRightShift(x, s + t)
  {
    hide ArithmRightShift;
    ArithmRightShiftIsFloor(x, s);
    ArithmRightShiftIsFloor(ArithmRightShift(x, s), t);
    ArithmRightShiftIsFloor(x, s + t);
    assert Signed(FloorShift(x, s)) == Signed(x) / Pow2(s) by { SignedQuotient(Signed(x), Pow2(s)); }
    Pow2Add(s, t);
    DivDiv(Signed(x), Pow2(s), Pow2(t));
  }

  lemma SignedQuotient(v: int, p: nat)
    requires -0x8000_0000 <= v < 0x8000_0000 && p > 0
    ensures -0x8000_0000 <= v / p < 0x8000_0000
  {
    if v >= 0 {
      DivBound(v, p);
    } else {
      var q := v / p;
      assert v == p * q + v % p;
      MulSign(q + 0x8000_0000, p);
      assert p * q + p * 0x8000_0000 == p * (q + 0x8000_0000);
      MulSign(p - 1, 0x8000_0000);
      MulSign(q, p);
    }
  }

  // ------------------------------------------- leading and trailing zeros, ones

  /** Number of binary digits of n. */
  function BitLength(n: nat): nat { if n == 0 then 0 else 1 + BitLength(n / 2) }

  function Clz(x: u32): int { 32 - BitLength(x) }

  /** How often 2 divides n. */
  function TwoAdic(n: nat): nat
    requires n > 0
  {
    if n % 2 == 1 then 0 else 1 + TwoAdic(n / 2)
  }

  function Ctz(x: u32): nat { if x == 0 then 32 else TwoAdic(x) }

  /** Number of ones among the binary digits of n. */
  function DigitSum(n: nat): nat { if n == 0 then 0 else n % 2 + DigitSum(n / 2) }

  lemma {:induction false} BitLengthIs(n: nat, k: nat)
    requires Pow2(k) <= n < Pow2(k + 1)
    ensures BitLength(n) == k + 1
    decreases k
  {
    if k > 0 {
      BitLengthIs(n / 2, k - 1);
    } else {
      assert Pow2(1) == 2;
    }
  }

  lemma {:induction false} TwoAdicIs(n: nat, k: nat)
    requires Low(n, k) == 0 && Bit(n, k) == 1
    ensures n > 0 && TwoAdic(n) == k
    decreases k
  {
    if k == 0 {
      BitStep(n, 0);
    } else {
      LowStep(n, k - 1);
      BitStep(n, k - 1);
      hide Low, Bit;
      TwoAdicIs(n / 2, k - 1);
    }
  }

  /** The scan of CLZ from the top. */
  method CountLeadingZeros(rs: u32) returns (r: int)
    ensures r == Clz(rs)
  {
    hide IsBitSet, Bit;
    var highestSet := -1;
    Pow2Values();
    var i := 31;
    while i >= 0
      invariant -1 <= i <= 31 && highestSet == -1
      invariant rs < Pow2(i + 1)
    {
      BitSetMeansBit(rs, i);
      TopBit(rs, i + 1);
      if IsBitSet(rs, i) {
        highestSet := i;
        BitLengthIs(rs, i);
        return 31 - highestSet;
      }
      i := i - 1;
    }
    r := 31 - highestSet;
  }

  /** The scan of CTZ from the bottom. */
  method CountTrailingZeros(rs: u32) returns (r: nat)
    ensures r == Ctz(rs) <= 32
  {
    hide IsBitSet, Bit, Low, Up;
    ShiftZero(rs);
    for i := 0 to 32
      invariant Low(rs, i) == 0
    {
      BitSetMeansBit(rs, i);
      LowStep(rs, i);
      if IsBitSet(rs, i) {
        TwoAdicIs(rs, i);
        return i;
      }
      ShiftByBit(i);
    }
    Pow2Values();
    LowFits(rs, 32);
    r := 32;
  }

  /** The loop of CPOP. */
  method CountOnes(rs: u32) returns (r: nat)
    ensures r == DigitSum(rs) <= 32
  {
    hide IsBitSet, Bit, Low, Up;
    r := 0;
    ShiftZero(rs);
    for i := 0 to 32
      invariant r == DigitSum(Low(rs, i)) <= i
    {
      BitSetMeansBit(rs, i);
      LowStep(rs, i);
      DigitSumSplit(Bit(rs, i), Low(rs, i), i);
      if IsBitSet(rs, i) { r := r + 1; }
    }
    Pow2Values();
    LowFits(rs, 32);
  }

  lemma {:induction false} DigitSumSplit(h: nat, l: nat, k: nat)
    requires l < Pow2(k)
    ensures DigitSum(Up(h, k) + l) == DigitSum(h) + DigitSum(l)
    decreases k
  {
    if k == 0 {
      ShiftZero(h);
    } else {
      DigitSumSplit(h, l / 2, k - 1);
      UpStep(h, k - 1);
      hide Up, DigitSum;
      DigitSumStep(Up(h, k) + l);
      DigitSumStep(l);
    }
  }

  lemma DigitSumStep(n: nat)
    ensures DigitSum(n) == n % 2 + DigitSum(n / 2)
  {
  }

  /** CLZ brackets a nonzero word between two powers of two. */
  lemma ClzBracket(x: u32)
    ensures x == 0 <==> Clz(x) == 32
    ensures x != 0 ==> 0 <= Clz(x) <= 31 && Pow2(31 - Clz(x)) <= x < Pow2(32 - Clz(x))
  {
    if x != 0 {
      BitLengthBracket(x, 32) by { Pow2Values(); }
    }
  }

  lemma {:induction false} BitLengthBracket(n: nat, k: nat)
    requires 0 < n < Pow2(k)
    ensures 1 <= BitLength(n) <= k && Pow2(BitLength(n) - 1) <= n < Pow2(BitLength(n))
    decreases k
  {
    if n == 1 {
      assert BitLength(1) == 1 + BitLength(0) == 1 && Pow2(1) == 2;
    } else {
      BitLengthBracket(n / 2, k - 1);
    }
  }

  /** 2^ctz is the largest power of two that divides a nonzero word. */
  lemma CtzDivides(x: u32, k: nat)
    requires x != 0
    ensures x % Pow2(k) == 0 <==> k <= Ctz(x)
    ensures Ctz(x) < 32
  {
    PowerDivides(x, k);
    PowerDivides(x, Ctz(x));
    Pow2Values();
    if Ctz(x) >= 32 {
      Pow2Mono(32, Ctz(x));
      LowFits(x, Ctz(x));
    }
  }

  lemma {:induction false} PowerDivides(n: nat, k: nat)
    requires n > 0
    ensures Low(n, k) == 0 <==> k <= TwoAdic(n)
    decreases k
  {
    if k == 0 {
      ShiftZero(n);
    } else {
      LowStep(n, k - 1);
      hide Low;
      if n % 2 == 0 { PowerDivides(n / 2, k - 1); }
    }
  }

  lemma {:induction false} DigitSumComplement(n: nat, k: nat)
    requires n < Pow2(k)
    ensures DigitSum(n) + DigitSum(Pow2(k) - 1 - n) == k
    ensures And(n, Pow2(k) - 1 - n) == 0
    decreases k
  {
    if k > 0 {
      DigitSumComplement(n / 2, k - 1);
      hide DigitSum, And;
      var c := Pow2(k) - 1 - n;
      assert c / 2 == Pow2(k - 1) - 1 - n / 2 && c % 2 == 1 - n % 2;
      DigitSumStep(n);
      DigitSumStep(c);
      AndStep(n, c);
    }
  }

  /** The ones of a word and of its complement are 32 together. */
  lemma CpopComplement(x: u32)
    ensures DigitSum(x) + DigitSum(Not(x)) == 32
  {
    assert Pow2(32) == TWO32 by { Pow2Values(); }
    DigitSumComplement(x, 32);
  }

  lemma {:induction false} LowestBit(n: nat, k: nat)
    requires 0 < n < Pow2(k)
    ensures And(n, Pow2(k) - n) == Pow2(TwoAdic(n))
    decreases k
  {
    hide And;
    var c := Pow2(k) - n;
    AndStep(n, c);
    if n % 2 == 1 {
      assert c / 2 == Pow2(k - 1) - 1 - n / 2 && c % 2 == 1;
      DigitSumComplement(n / 2, k - 1);
    } else {
      assert c / 2 == Pow2(k - 1) - n / 2;
      LowestBit(n / 2, k - 1);
    }
  }

  lemma {:induction false} DigitSumOnes(k: nat)
    ensures DigitSum(Pow2(k) - 1) == k
  {
    if k > 0 {
      DigitSumOnes(k - 1);
      assert (Pow2(k) - 1) / 2 == Pow2(k - 1) - 1 && (Pow2(k) - 1) % 2 == 1;
    }
  }

  /** Trailing zeros are the ones below the lowest set bit; for 0 both are 32. */
  lemma CtzIsCpop(x: u32)
    ensures Ctz(x) == DigitSum(Wrap(And(x, Wrap(0 - x)) - 1))
  {
    hide DigitSum, And, Pow2, TwoAdic;
    Pow2Values();
    if x == 0 {
      AndZero(0);
      DigitSumOnes(32);
    } else {
      CtzDivides(x, 0);
      LowestBit(x, 32);
      Pow2Mono(Ctz(x), 31);
      DigitSumOnes(Ctz(x));
    }
  }

  // ------------------------------------------------------------------- rotations

  /** ROL for an amount below 32; for amount 0 the right shift by 32 is taken to give 0. */
  function RotateLeft(x: u32, shamt: nat): u32
    requires shamt < 32
  {
    Or32(Shl(x, shamt), Shr(x, 32 - shamt))
  }

  function RotateRight(x: u32, shamt: nat): u32
    requires shamt < 32
  {
    Or32(Shr(x, shamt), Shl(x, 32 - shamt))
  }

  /** The top s bits of the word moved below the rest. */
  function Rotated(x: u32, s: nat): nat
    requires s <= 32
  {
    Up(Low(x, 32 - s), s) + Shr(x, 32 - s)
  }

  lemma RotatedBound(x: u32, s: nat)
    requires s <= 32
    ensures Shr(x, 32 - s) < Pow2(s)
    ensures Rotated(x, s) < TWO32
  {
    hide Up, Low, Shr, Pow2;
    Pow2Values();
    ShrBound(x, 32 - s, s);
    UpBound(Low(x, 32 - s), s, 32 - s);
  }

  lemma ShlIsUp(x: u32, s: nat)
    requires s <= 32
    ensures Shl(x, s) == Up(Low(x, 32 - s), s)
  {
    hide Up, Low, Shr, Pow2;
    var h, l := Shr(x, 32 - s), Low(x, 32 - s);
    Split(x, 32 - s);
    UpAdd(Up(h, 32 - s), l, s);
    UpUp(h, 32 - s, s);
    Up32(h);
    Pow2Values();
    UpBound(l, s, 32 - s);
    DivUnique(Up(x, s), TWO32, h, Up(l, s));
  }

  lemma Up32(x: nat)
    ensures Up(x, 32) == x * TWO32
  {
    Pow2Values();
  }

  /** As coded, ROL by s is the rotation by s and ROR by s the rotation by 32 - s. */
  lemma RotateIsRotated(x: u32, s: nat)
    requires s < 32
    ensures RotateLeft(x, s) == Rotated(x, s)
    ensures RotateRight(x, s) == Rotated(x, 32 - s)
  {
    hide Up, Low, Shr, Shl, Or, Pow2;
    RotatedBound(x, s);
    RotatedBound(x, 32 - s);
    ShlIsUp(x, s);
    ShlIsUp(x, 32 - s);
    OrDisjoint(Shr(x, 32 - s), Low(x, 32 - s), s);
    OrDisjoint(Shr(x, s), Low(x, s), 32 - s);
  }

  /** The excluded shift by 32 does not matter: a host that takes the amount modulo 32 gives x as well. */
  lemma RotateByZero(x: u32)
    ensures RotateLeft(x, 0) == RotateRight(x, 0) == x == Or32(Shl(x, 0), Shr(x, 0)) == Or32(Shr(x, 0), Shl(x, 0))
  {
    hide Or, And, Up, Shr, Low, Rotated, RotateLeft, RotateRight;
    RotateIsRotated(x, 0);
    RotatedEnds(x);
    ShiftZero(x);
    OrSame(x);
  }

  lemma {:induction false} OrSame(x: nat)
    ensures Or(x, x) == x
  {
    if x > 0 { OrSame(x / 2); }
  }

  lemma RotatedEnds(x: u32)
    ensures Rotated(x, 0) == x == Rotated(x, 32)
  {
    hide Up, Low, Shr, Pow2;
    Pow2Values();
    ShiftZero(x);
    ShiftZero(Low(x, 32));
    LowFits(x, 32);
    ShrBound(x, 32, 0);
    ShiftByBit(32);
  }

  /** Rotating by one more is rotating once more. */
  lemma RotatedStep(x: u32, s: nat)
    requires s < 32
    ensures Rotated(x, s) < TWO32
    ensures Rotated(x, s + 1) == Rotated(Rotated(x, s), 1)
  {
    hide Up, Low, Shr, Pow2;
    RotatedBound(x, s);
    var n := 31 - s;
    var y, b, l := Rotated(x, s), Bit(x, n), Low(x, n);
    LowStep(x, n);
    ShrStep(x, n);
    UpUp(b, n, s);
    UpAdd(Up(b, n), l, s);
    // y has top bit b, and below it l above the bits already moved
    assert y == Up(b, 31) + (Up(l, s) + Shr(x, n + 1));
    UpBound(l, s, n);
    SplitUnique(y, 31, b, Up(l, s) + Shr(x, n + 1));
    UpStep(l, s);
    UpStep(Up(l, s) + Shr(x, n + 1), 0);
    ShiftZero(Up(l, s) + Shr(x, n + 1));
  }

  /** Rotations compose by adding their amounts modulo 32. */
  lemma {:induction false} RotatedAdd(x: u32, s: nat, t: nat)
    requires s < 32 && t < 32
    ensures Rotated(x, s) < TWO32
    ensures Rotated(Rotated(x, s), t) == Rotated(x, (s + t) % 32)
    decreases t
  {
    hide Rotated;
    RotatedBound(x, s);
    if t == 0 {
      RotatedEnds(Rotated(x, s));
    } else {
      RotatedAdd(x, s, t - 1);
      RotatedStep(Rotated(x, s), t - 1);
      RotatedNext(x, (s + t - 1) % 32);
      NextAmount(s + t - 1);
    }
  }

  lemma RotatedNext(x: u32, m: nat)
    requires m < 32
    ensures Rotated(x, m) < TWO32
    ensures Rotated(Rotated(x, m), 1) == Rotated(x, if m == 31 then 0 else m + 1)
  {
    hide Rotated;
    RotatedStep(x, m);
    RotatedEnds(x);
  }

  lemma NextAmount(n: nat)
    ensures (n + 1) % 32 == if n % 32 == 31 then 0 else n % 32 + 1
  {
  }

  lemma RotateRightIsRotated(x: u32, s: nat)
    requires s < 32
    ensures RotateRight(x, s) == Rotated(x, (32 - s) % 32)
  {
    hide Rotated, RotateRight, RotateLeft;
    RotateIsRotated(x, s);
    RotatedEnds(x);
  }

  /** Amounts add modulo 32. */
  lemma RotationsAdd(x: u32, s: nat, t: nat)
    requires s < 32 && t < 32
    ensures RotateLeft(RotateLeft(x, s), t) == RotateLeft(x, (s + t) % 32)
    ensures RotateRight(RotateRight(x, s), t) == RotateRight(x, (s + t) % 32)
  {
    hide Rotated, RotateLeft, RotateRight;
    var m := (s + t) % 32;
    RotateIsRotated(x, s);
    RotateIsRotated(RotateLeft(x, s), t);
    RotateIsRotated(x, m);
    RotatedAdd(x, s, t);
    RotateRightIsRotated(x, s);
    RotateRightIsRotated(RotateRight(x, s), t);
    RotateRightIsRotated(x, m);
    OppositeAmounts(s, t);
    RotatedAdd(x, (32 - s) % 32, (32 - t) % 32);
  }

  lemma OppositeAmounts(s: nat, t: nat)
    requires s < 32 && t < 32
    ensures ((32 - s) % 32 + (32 - t) % 32) % 32 == (32 - (s + t) % 32) % 32
  {
  }

  /** ROL by s is ROR by 32 - s, and the two undo each other. */
  lemma RotationsInverse(x: u32, s: nat)
    requires s < 32
    ensures RotateLeft(x, s) == RotateRight(x, (32 - s) % 32)
    ensures RotateRight(RotateLeft(x, s), s) == x == RotateLeft(RotateRight(x, s), s)
  {
    hide Rotated, RotateLeft, RotateRight;
    RotateIsRotated(x, s);
    RotateRightIsRotated(x, s);
    RotateRightIsRotated(x, (32 - s) % 32);
    RotateRightIsRotated(RotateLeft(x, s), s);
    RotateIsRotated(RotateRight(x, s), s);
    RotatedAdd(x, s, (32 - s) % 32);
    RotatedAdd(x, (32 - s) % 32, s);
    RotatedEnds(x);
  }

  /** Rotating does not change the number of ones. */
  lemma CpopOfRotation(x: u32, s: nat)
    requires s < 32
    ensures DigitSum(RotateLeft(x, s)) == DigitSum(x) == DigitSum(RotateRight(x, s))
  {
    hide Up, Low, Shr, Pow2, DigitSum, RotateLeft, RotateRight;
    RotateIsRotated(x, s);
    DigitSumOfRotated(x, s);
    DigitSumOfRotated(x, 32 - s);
  }

  lemma DigitSumOfRotated(x: u32, s: nat)
    requires s <= 32
    ensures DigitSum(Rotated(x, s)) == DigitSum(x)
  {
    hide Up, Low, Shr, Pow2, DigitSum;
    RotatedBound(x, s);
    DigitSumSplit(Low(x, 32 - s), Shr(x, 32 - s), s);
    Split(x, 32 - s);
    DigitSumSplit(Shr(x, 32 - s), Low(x, 32 - s), 32 - s);
  }

  // ----------------------------------------------------- byte reversal, OR-combine

  function ReverseBytes(bs: seq<byte>): (r: seq<byte>)
    ensures |r| == |bs|
    ensures forall i :: 0 <= i < |bs| ==> r[i] == bs[|bs| - 1 - i]
  {
    if bs == [] then [] else ReverseBytes(bs[1..]) + [bs[0]]
  }

  function CombineBytes(bs: seq<byte>): (r: seq<byte>)
    ensures |r| == |bs|
    ensures forall i :: 0 <= i < |bs| ==> r[i] == if bs[i] == 0 then 0 else 0xff
  {
    if bs == [] then [] else [if bs[0] == 0 then 0 else 0xff] + CombineBytes(bs[1..])
  }

  /** The word whose bytes are those of x in reverse. */
  function Rev8(x: u32): u32 { WordOf(ReverseBytes(ToLE(x, 4))) }

  /** The word whose bytes are 0 where those of x are 0 and 0xff elsewhere. */
  function OrcB(x: u32): u32 { WordOf(CombineBytes(ToLE(x, 4))) }

  function WordOf(bs: seq<byte>): u32
    requires |bs| == 4
  {
    FromLEBound(bs);
    Pow2Values();
    FromLE(bs)
  }

  /**
   The bytes are filled in from the lowest upwards.  That is what makes the loop right: each SetByte
   erases the bytes above the one it stores.
   */
  method ReverseLoop(rs: u32) returns (val: u32)
    ensures val == Rev8(rs)
  {
    hide SetByte, GetByte, FromLE, ReverseBytes, Pow2, Low, Up;
    val := 0;
    ghost var bs: seq<byte> := [];
    EmptyWord();
    var j := 3;
    for i := 0 to 4
      invariant j == 3 - i
      invariant |bs| == i && bs == ReverseBytes(ToLE(rs, 4))[..i]
      invariant val == FromLE(bs)
    {
      var b := GetByte(rs, j);
      GetByteOfLE(rs, j);
      SetNextByte(val, bs, b);
      val := SetByte(val, b, i);
      bs := bs + [b];
      j := j - 1;
    }
    assert bs == ReverseBytes(ToLE(rs, 4));
  }

  method CombineLoop(rs: u32) returns (val: u32)
    ensures val == OrcB(rs)
  {
    hide SetByte, GetByte, FromLE, CombineBytes, Pow2, Low, Up;
    val := 0;
    ghost var bs: seq<byte> := [];
    EmptyWord();
    for i := 0 to 4
      invariant |bs| == i && bs == CombineBytes(ToLE(rs, 4))[..i]
      invariant val == FromLE(bs)
    {
      GetByteOfLE(rs, i);
      var b := if GetByte(rs, i) == 0 then 0 else 0xff;
      SetNextByte(val, bs, b);
      val := SetByte(val, b, i);
      bs := bs + [b];
    }
    assert bs == CombineBytes(ToLE(rs, 4));
  }

  lemma EmptyWord()
    ensures FromLE([]) == 0
  {
  }

  lemma GetByteOfLE(x: u32, i: nat)
    requires i < 4
    ensures GetByte(x, i) == ToLE(x, 4)[i]
  {
    GetByteValue(x, i);
    ToLEByte(x, 4, i);
  }

  /** SetByte at the end of the bytes that are there appends. */
  lemma SetNextByte(val: u32, bs: seq<byte>, b: byte)
    requires |bs| < 4 && val == FromLE(bs)
    ensures SetByte(val, b, |bs|) == FromLE(bs + [b])
  {
    SetByteValue(val, b, |bs|);
    FromLEBound(bs);
    LowFits(val, 8 * |bs|);
    FromLEAppend(bs, b);
  }

  /** Byte i of the result is byte 3 - i of the operand, and reversing twice is the identity. */
  lemma Rev8Reverses(x: u32, i: nat)
    requires i < 4
    ensures GetByte(Rev8(x), i) == GetByte(x, 3 - i)
    ensures Rev8(Rev8(x)) == x
  {
    hide GetByte, FromLE, ReverseBytes, Low;
    var bs := ToLE(x, 4);
    ToFromLE(ReverseBytes(bs));
    GetByteOfLE(Rev8(x), i);
    GetByteOfLE(x, 3 - i);
    assert ReverseBytes(ReverseBytes(bs)) == bs;
    FromToLE(x, 4);
    Pow2Values();
    LowFits(x, 32);
  }

  /** Byte i of the result depends on byte i alone, and combining twice changes nothing. */
  lemma OrcBCombines(x: u32, i: nat)
    requires i < 4
    ensures GetByte(OrcB(x), i) == if GetByte(x, i) == 0 then 0 else 0xff
    ensures OrcB(OrcB(x)) == OrcB(x)
  {
    hide GetByte, FromLE, CombineBytes;
    var bs := ToLE(x, 4);
    ToFromLE(CombineBytes(bs));
    GetByteOfLE(OrcB(x), i);
    GetByteOfLE(x, i);
    assert CombineBytes(CombineBytes(bs)) == CombineBytes(bs);
  }

  /** Filled in the other way round the loop of REV8 would lose bytes: SetByte at 0 erases byte 3. */
  lemma SetByteErases(val: u32, b: u8)
    ensures SetByte(val, b, 0) == b
  {
    SetByteValue(val, b, 0);
    ShiftZero(val);
    ShiftZero(b);
  }
}
