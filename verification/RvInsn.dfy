/**
 The accessors of the instruction word classes, as coded with shifts and masks, and the fields and
 immediates of section 2.3 of the RISC-V Unprivileged ISA as numbers.
 */
module RvInsn {
  import opened Bits
  import opened IsaHelpers

  // ------------------------------------------------------- accessors, as coded

  function Opcode(raw: u32): u32 { And(raw, 0x7f) }

  function Rd(raw: u32): u32 { And(Shr(raw, 7), 0x1f) }

  function Funct3(raw: u32): u32 { And(Shr(raw, 12), 0x7) }

  function Rs1(raw: u32): u32 { And(Shr(raw, 15), 0x1f) }

  function Rs2(raw: u32): u32 { And(Shr(raw, 20), 0x1f) }

  function Rs3(raw: u32): u32 { And(Shr(raw, 27), 0x1f) }

  function Rm(raw: u32): u32 { And(Shr(raw, 12), 0x7) }

  function Funct7(raw: u32): u32 { And(Shr(raw, 25), 0x7f) }

  function Shamt(raw: u32): u32 { And(Shr(raw, 20), 0x1f) }

  function ImmCsr(raw: u32): u32 { Shr(raw, 20) }

  function ImmI(raw: u32): int { SignExtend(Shr(raw, 20), 12) }

  function ImmS(raw: u32): int {
    var low := And(Shr(raw, 7), 0x1f);
    var high := And(Shr(raw, 25), 0x7f);
    SignExtend(Or32(low, Shl(high, 5)), 12)
  }

  function ImmB(raw: u32): int {
    var bit11 := And(Shr(raw, 7), 0x1);
    var bits4To1 := And(Shr(raw, 8), 0xf);
    var bits10To5 := And(Shr(raw, 25), 0x3f);
    var bit12 := And(Shr(raw, 31), 0x1);
    SignExtend(Or32(Or32(Or32(Shl(bit12, 12), Shl(bit11, 11)), Shl(bits10To5, 5)), Shl(bits4To1, 1)), 13)
  }

  function ImmU(raw: u32): int { Signed(And(raw, 0xffff_f000)) }

  function ImmJ(raw: u32): int {
    var bit20 := And(Shr(raw, 31), 0x1);
    var bits10To1 := And(Shr(raw, 21), 0x3ff);
    var bit11 := And(Shr(raw, 20), 0x1);
    var bits19To12 := And(Shr(raw, 12), 0xff);
    SignExtend(Or32(Or32(Or32(Shl(bit20, 20), Shl(bits19To12, 12)), Shl(bit11, 11)), Shl(bits10To1, 1)), 21)
  }

  // --------------------------------------- the same fields and immediates in the ISA

  /** imm[11:0] = inst[31:20] */
  function IsaImmI(w: u32): int {
    Sext12(w / 0x10_0000)
  }

  /** imm[11:5] = inst[31:25], imm[4:0] = inst[11:7] */
  function IsaImmS(w: u32): int {
    Sext12(32 * (w / 0x200_0000) + w / 0x80 % 32)
  }

  /** imm[12|10:5] = inst[31|30:25], imm[4:1|11] = inst[11:8|7] */
  function IsaImmB(w: u32): int {
    var v := 4096 * (w / 0x8000_0000) + 2048 * (w / 0x80 % 2) + 32 * (w / 0x200_0000 % 64) + 2 * (w / 0x100 % 16);
    if v < 0x1000 then v else v - 0x2000
  }

  /** imm[31:12] = inst[31:12] */
  function IsaImmU(w: u32): int { Signed(w - w % 4096) }

  /** imm[20|10:1|11|19:12] = inst[31|30:21|20|19:12] */
  function IsaImmJ(w: u32): int {
    var v := 0x10_0000 * (w / 0x8000_0000) + 4096 * (w / 0x1000 % 256) + 2048 * (w / 0x10_0000 % 2)
             + 2 * (w / 0x20_0000 % 1024);
    if v < 0x10_0000 then v else v - 0x20_0000
  }

  function Sext12(v: int): int { if v < 0x800 then v else v - 0x1000 }

  // ------------------------------------------------------ the accessors read them

  /** p and q are the powers of two that belong to the position and the width of the field. */
  lemma FieldValue(w: u32, lo: nat, len: nat, p: nat, q: nat)
    requires p == Pow2(lo) && q == Pow2(len)
    ensures Shr(w, lo) == w / p
    ensures And(Shr(w, lo), q - 1) == w / p % q
  {
    AndLowMask(Shr(w, lo), len);
  }

  lemma PlaceValue(x: u32, k: nat, n: nat, p: nat)
    requires p == Pow2(k) && x < Pow2(n) && n + k <= 32
    ensures Shl(x, k) == Up(x, k) == x * p < TWO32
  {
    ShlSmall(x, k, n);
  }

  lemma Registers(w: u32)
    ensures Opcode(w) == w % 128
    ensures Rd(w) == w / 0x80 % 32
    ensures Funct3(w) == Rm(w) == w / 0x1000 % 8
    ensures Rs1(w) == w / 0x8000 % 32
    ensures Rs2(w) == Shamt(w) == w / 0x10_0000 % 32
    ensures Funct7(w) == w / 0x200_0000
    ensures Rs3(w) == w / 0x800_0000
    ensures ImmCsr(w) == w / 0x10_0000
  {
    hide And, Pow2, Shr;
    Pow2Values();
    FieldValue(w, 0, 7, 1, 0x80);
    FieldValue(w, 7, 5, 0x80, 32);
    FieldValue(w, 12, 3, 0x1000, 8);
    FieldValue(w, 15, 5, 0x8000, 32);
    FieldValue(w, 20, 5, 0x100000, 32);
    FieldValue(w, 25, 7, 0x2000000, 0x80);
    FieldValue(w, 27, 5, 0x8000000, 32);
  }

  lemma ImmIValue(w: u32)
    ensures ImmI(w) == IsaImmI(w)
    ensures -0x800 <= ImmI(w) < 0x800
  {
    hide And, Pow2, Shr, SignExtend;
    Pow2Values();
    FieldValue(w, 20, 12, 0x100000, 4096);
    SignExtendValue(Shr(w, 20), 12);
  }

  lemma ImmSValue(w: u32)
    ensures ImmS(w) == IsaImmS(w)
    ensures -0x800 <= ImmS(w) < 0x800
  {
    hide And, Pow2, Up, Shr, Shl, Low, Or, SignExtend;
    Pow2Values();
    FieldValue(w, 7, 5, 0x80, 32);
    FieldValue(w, 25, 7, 0x2000000, 0x80);
    var low, high := w / 0x80 % 32, w / 0x200_0000;
    PlaceValue(high, 5, 7, 32);
    OrDisjoint(low, high, 5);
    LowFits(32 * high + low, 12);
    SignExtendValue(32 * high + low, 12);
  }

  lemma ImmUValue(w: u32)
    ensures ImmU(w) == IsaImmU(w)
    ensures IsaImmU(w) % 0x1000 == 0
  {
    hide And, Pow2;
    Pow2Values();
    AndSplit(w, 0xffff_f000, 12);
    AndLowMask(Shr(w, 12), 20);
    assert Shr(0xffff_f000, 12) == 0xf_ffff;
    assert Low(0xffff_f000, 12) == 0;
    Split(w, 12);
  }

  /** ORing a field in below bits that are already placed adds it. */
  lemma OrBelow(high: nat, x: nat, i: nat, j: nat)
    requires j <= i
    requires x < Pow2(i - j)
    requires Up(high, i) < TWO32 && Up(x, j) < TWO32
    ensures Or32(Up(high, i), Up(x, j)) == Up(high, i) + Up(x, j) == Up(Up(high, i - j) + x, j)
  {
    UpUp(high, i - j, j);
    UpAdd(Up(high, i - j), x, j);
    UpBound(x, j, i - j);
    hide Or, Up, Pow2;
    OrDisjoint(Up(x, j), high, i);
  }

  /** Four fields shifted to places that do not overlap: OR is the sum. */
  lemma OrFour(a: nat, b: nat, c: nat, d: nat, i: nat, j: nat, k: nat, l: nat)
    requires l <= k <= j <= i
    requires b < Pow2(i - j) && c < Pow2(j - k) && d < Pow2(k - l)
    requires Up(a, i) + Up(b, j) + Up(c, k) + Up(d, l) < TWO32
    ensures Or32(Or32(Or32(Up(a, i), Up(b, j)), Up(c, k)), Up(d, l)) == Up(a, i) + Up(b, j) + Up(c, k) + Up(d, l)
  {
    hide Or, Up, Pow2;
    OrBelow(a, b, i, j);
    var ab := Up(a, i - j) + b;
    OrBelow(ab, c, j, k);
    var abc := Up(ab, j - k) + c;
    OrBelow(abc, d, k, l);
  }

  lemma ImmBValue(w: u32)
    ensures ImmB(w) == IsaImmB(w)
    ensures -0x1000 <= ImmB(w) < 0x1000 && ImmB(w) % 2 == 0
  {
    hide And, Pow2, Up, Shr, Shl, Low, Or, SignExtend;
    Pow2Values();
    FieldValue(w, 7, 1, 0x80, 2);
    FieldValue(w, 8, 4, 0x100, 16);
    FieldValue(w, 25, 6, 0x2000000, 64);
    FieldValue(w, 31, 1, 0x80000000, 2);
    var bit11, bits4To1, bits10To5, bit12 := w / 0x80 % 2, w / 0x100 % 16, w / 0x200_0000 % 64, w / 0x8000_0000;
    PlaceValue(bit12, 12, 1, 0x1000);
    PlaceValue(bit11, 11, 1, 0x800);
    PlaceValue(bits10To5, 5, 6, 32);
    PlaceValue(bits4To1, 1, 4, 2);
    OrFour(bit12, bit11, bits10To5, bits4To1, 12, 11, 5, 1);
    var v := 4096 * bit12 + 2048 * bit11 + 32 * bits10To5 + 2 * bits4To1;
    LowFits(v, 13);
    SignExtendValue(v, 13);
  }

  lemma ImmJValue(w: u32)
    ensures ImmJ(w) == IsaImmJ(w)
    ensures -0x10_0000 <= ImmJ(w) < 0x10_0000 && ImmJ(w) % 2 == 0
  {
    hide And, Pow2, Up, Shr, Shl, Low, Or, SignExtend;
    Pow2Values();
    FieldValue(w, 12, 8, 0x1000, 0x100);
    FieldValue(w, 20, 1, 0x100000, 2);
    FieldValue(w, 21, 10, 0x200000, 0x400);
    FieldValue(w, 31, 1, 0x80000000, 2);
    var bit20, bits19To12, bit11, bits10To1 := w / 0x8000_0000, w / 0x1000 % 256, w / 0x10_0000 % 2, w / 0x20_0000 % 1024;
    PlaceValue(bit20, 20, 1, 0x100000);
    PlaceValue(bits19To12, 12, 8, 0x1000);
    PlaceValue(bit11, 11, 1, 0x800);
    PlaceValue(bits10To1, 1, 10, 2);
    OrFour(bit20, bits19To12, bit11, bits10To1, 20, 12, 11, 1);
    var v := 0x10_0000 * bit20 + 4096 * bits19To12 + 2048 * bit11 + 2 * bits10To1;
    LowFits(v, 21);
    SignExtendValue(v, 21);
  }
}
