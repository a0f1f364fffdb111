/** The bit helpers of `isa_hlp.hpp` and of the instruction word class, and what they compute. */
module IsaHelpers {
  import opened Bits

  // ---------------------------------------------------------------- isa_hlp.hpp

  predicate IsBitSet(val: u32, index: nat)
    requires index < 32
  {
    var oneHot := Shl(1, index);
    And(val, oneHot) == oneHot
  }

  function TruncHigh8(x: u32): u8 { And(x, 0xff) }

  function TruncHigh16(x: u32): u16 { And(x, 0xffff) }

  function TruncHigh32(x: u64): u32 { And(x, 0xffff_ffff) }

  /** Keeps the high half. */
  function TruncLow32(x: u64): u32 { And(Shr(x, 32), 0xffff_ffff) }

  function GetByte(val: u32, index: nat): u8
    requires index < 4
  {
    TruncHigh8(Shr(val, 8 * index))
  }

  /** `~uint8_t{0}` is the int -1, so the mask below clears every byte from `index` upwards. */
  function SetByte(val: u32, byteVal: u8, index: nat): u32
    requires index < 4
  {
    var shift := 8 * index;
    var clearByteMask := Not(Shl(Not(0), shift));
    var byteMask := Shl(byteVal, shift);
    Or32(And(val, clearByteMask), byteMask)
  }

  /** The template `SignExt<uint32_t>` at an argument of `fromBits` bits. */
  function SignExt(x: u32, fromBits: nat): u32
    requires 1 <= fromBits < 32
  {
    ShlOne(fromBits);
    var valueMask := Shl(1, fromBits) - 1;
    var signBit := Shl(1, fromBits - 1);
    var extendMask := Not(valueMask);
    var v := And(x, valueMask);
    if And(v, signBit) != 0 then Or32(v, extendMask) else v
  }

  /** The template `SignExt<uint64_t>` at a 32-bit argument. */
  function SignExt64(x: u32): u64
  {
    var valueMask: u64 := 0xffff_ffff;
    var extendMask: u64 := 0xffff_ffff_0000_0000;
    var v := And(x, valueMask);
    if And(v, 0x8000_0000) != 0 then OrExtend64(v); Or(v, extendMask) else v
  }

  /** `bit_cast<int64_t>`. */
  function WRegToWIReg(x: u64): int {
    if x < 0x8000_0000_0000_0000 then x else x - 0x1_0000_0000_0000_0000
  }

  function WIRegToWReg(x: int): u64 { x % 0x1_0000_0000_0000_0000 }

  /** `RvInsn::SignExtend`. */
  function SignExtend(value: u32, bits: nat): int
    requires 1 <= bits < 32
  {
    ShlOne(bits);
    var signBit := Shl(1, bits - 1);
    var masked := And(value, Shl(1, bits) - 1);
    var extended := Wrap(Xor32(masked, signBit) - signBit);
    Signed(extended)
  }

  // ------------------------------------------------------- what they compute

  /** The integer whose two's-complement form of b bits is v. */
  function TwosComplement(v: nat, b: nat): int
    requires 1 <= b && v < Pow2(b)
  {
    if v < Pow2(b - 1) then v else v - Pow2(b)
  }

  lemma ShlOne(s: nat)
    requires s < 32
    ensures 1 <= Shl(1, s) == Pow2(s) == Up(1, s) < TWO32
  {
    assert Pow2(32) == TWO32 by { Pow2Values(); }
    Pow2Mono(s, 31);
  }

  lemma BitSetMeansBit(val: u32, index: nat)
    requires index < 32
    ensures IsBitSet(val, index) <==> Bit(val, index) == 1
  {
    hide And, Shl, Bit;
    ShlOne(index);
    AndOneHot(val, index);
  }

  /** Of a number of b bits, the top bit is its size. */
  lemma TopBit(m: nat, b: nat)
    requires 1 <= b && m < Pow2(b)
    ensures Bit(m, b - 1) == if m < Pow2(b - 1) then 0 else 1
  {
    assert m < 2 * Pow2(b - 1);
    Split(m, b - 1);
    ShrBound(m, b - 1, 1) by { Pow2Values(); }
    hide Pow2, Shr, Low;
    Pow2Values();
    assert Bit(m, b - 1) == Shr(m, b - 1);
  }

  lemma TruncHigh32Value(x: u64)
    ensures TruncHigh32(x) == x % TWO32
  {
    hide And;
    Pow2Values();
    AndLowMask(x, 32);
  }

  lemma TruncLow32Value(x: u64)
    ensures TruncLow32(x) == x / TWO32
  {
    hide And;
    Pow2Values();
    AndLowMask(Shr(x, 32), 32);
  }

  lemma TruncHigh8Value(x: u32)
    ensures TruncHigh8(x) == x % 256 == Low(x, 8)
  {
    hide And;
    Pow2Values();
    AndLowMask(x, 8);
  }

  lemma TruncHigh16Value(x: u32)
    ensures TruncHigh16(x) == x % 0x1_0000 == Low(x, 16)
  {
    hide And;
    Pow2Values();
    AndLowMask(x, 16);
  }

  lemma GetByteValue(val: u32, index: nat)
    requires index < 4
    ensures GetByte(val, index) == Shr(val, 8 * index) % 256
  {
    hide And, Shr;
    TruncHigh8Value(Shr(val, 8 * index));
  }

  /** SetByte keeps the bytes below `index`, stores the byte and erases everything above it. */
  lemma SetByteValue(val: u32, byteVal: u8, index: nat)
    requires index < 4
    ensures SetByte(val, byteVal, index) == Low(val, 8 * index) + Up(byteVal, 8 * index)
    ensures SetByte(val, byteVal, index) < Pow2(8 * index + 8)
  {
    hide And, Shl, Pow2, Up, Low, Or;
    var s := 8 * index;
    Pow2Values();
    ShlAllOnes(s);
    ShlSmall(byteVal, s, 8);
    AndLowMask(val, s);
    OrDisjoint(Low(val, s), byteVal, s);
    UpBound(byteVal, s, 8);
  }

  /** What the comment at SetByte promises: one byte replaced, the others as they were. */
  function ReplaceByte(val: u32, byteVal: u8, index: nat): nat
    requires index < 4
  {
    Up(Shr(val, 8 * index + 8), 8 * index + 8) + Up(byteVal, 8 * index) + Low(val, 8 * index)
  }

  /** SetByte keeps that promise exactly when there is nothing above the byte. */
  lemma SetByteReplaces(val: u32, byteVal: u8, index: nat)
    requires index < 4
    ensures SetByte(val, byteVal, index) == ReplaceByte(val, byteVal, index) <==> val < Pow2(8 * index + 8)
  {
    hide SetByte, Up, Shr, Low, Pow2;
    var k := 8 * index + 8;
    SetByteValue(val, byteVal, index);
    Split(val, k);
    UpIsZero(Shr(val, k), k);
    if val < Pow2(k) { LowFits(val, k); }
  }

  lemma UpIsZero(x: nat, k: nat)
    ensures Up(x, k) == 0 <==> x == 0
  {
    MulSign(x, Pow2(k));
  }

  lemma ShlAllOnes(s: nat)
    requires s <= 32
    ensures Shl(Not(0), s) == TWO32 - Pow2(s)
  {
    assert Pow2(s) <= TWO32 by { Pow2Mono(s, 32); Pow2Values(); }
    assert Up(Not(0), s) == TWO32 * Pow2(s) - Pow2(s);
    DivUnique(Up(Not(0), s), TWO32, Pow2(s) - 1, TWO32 - Pow2(s));
  }

  /** What masking x to b bits and testing the sign bit computes. */
  lemma SignBitFacts(x: u32, b: nat)
    requires 1 <= b < 32
    ensures Pow2(b) == 2 * Pow2(b - 1) <= 0x8000_0000
    ensures Shl(1, b) == Pow2(b) && Shl(1, b - 1) == Pow2(b - 1)
    ensures And(x, Pow2(b) - 1) == Low(x, b)
    ensures And(Low(x, b), Pow2(b - 1)) == if Low(x, b) < Pow2(b - 1) then 0 else Pow2(b - 1)
  {
    assert Pow2(b) == 2 * Pow2(b - 1) <= 0x8000_0000 by { Pow2Mono(b, 31); Pow2Values(); }
    ShlOne(b);
    ShlOne(b - 1);
    AndLowMask(x, b);
    AndOneHot(Low(x, b), b - 1);
    TopBit(Low(x, b), b);
    ShiftByBit(b - 1);
    hide And, Pow2, Low, Up, Bit;
  }

  lemma ShiftByBit(k: nat)
    ensures Up(0, k) == 0 && Up(1, k) == Pow2(k)
  {
  }

  /** The xor-subtract idiom is two's complement at every width. */
  lemma SignExtendValue(value: u32, bits: nat)
    requires 1 <= bits < 32
    ensures SignExtend(value, bits) == TwosComplement(Low(value, bits), bits)
  {
    hide And, Shl, Pow2, Low, Xor, Up;
    SignBitFacts(value, bits);
  }

  /** The OR-mask template is two's complement as well. */
  lemma SignExtValue(x: u32, fromBits: nat)
    requires 1 <= fromBits < 32
    ensures SignExt(x, fromBits) == Wrap(TwosComplement(Low(x, fromBits), fromBits))
  {
    hide And, Shl, Pow2, Low, Or, Up;
    SignBitFacts(x, fromBits);
    OrHighMask(Low(x, fromBits), fromBits);
  }

  lemma OrHighMask(m: nat, k: nat)
    requires k < 32 && m < Pow2(k) && Pow2(k) <= TWO32
    ensures Or(m, TWO32 - Pow2(k)) == m + TWO32 - Pow2(k)
  {
    hide Pow2, Up, Or;
    UpOnes(k);
    OrDisjoint(m, Pow2(32 - k) - 1, k);
  }

  lemma OrExtend64(v: u32)
    ensures Or(v, 0xffff_ffff_0000_0000) == v + 0xffff_ffff_0000_0000
  {
    Pow2Values();
    assert Up(0xffff_ffff, 32) == 0xffff_ffff_0000_0000;
    hide Up, Pow2, Or;
    Pow2Values();
    OrDisjoint(v, 0xffff_ffff, 32);
  }

  lemma SignExt64Value(x: u32)
    ensures WRegToWIReg(SignExt64(x)) == Signed(x)
  {
    hide And, Or, Low, Bit, Up, Pow2;
    Pow2Values();
    AndLowMask(x, 32);
    LowFits(x, 32);
    AndOneHot(x, 31);
    TopBit(x, 32);
    ShiftByBit(31);
    OrExtend64(x);
  }

  /** Both idioms agree, and truncating the extension gives back the bits that were extended. */
  lemma SignExtensionsAgree(x: u32, b: nat)
    requires 1 <= b < 32
    ensures Signed(SignExt(x, b)) == SignExtend(x, b)
    ensures Low(SignExt(x, b), b) == Low(x, b) == Low(Wrap(SignExtend(x, b)), b)
    ensures 0 <= SignExtend(x, b) + Pow2(b - 1) < Pow2(b)
  {
    hide Pow2, Low, Shl, And, Or, Xor, SignExt, SignExtend;
    SignExtendValue(x, b);
    SignExtValue(x, b);
    SignBitFacts(x, b);
    TruncateExtended(Low(x, b), b);
  }

  lemma TruncateExtended(m: nat, b: nat)
    requires 1 <= b < 32 && m < Pow2(b) == 2 * Pow2(b - 1) <= 0x8000_0000
    ensures Low(Wrap(TwosComplement(m, b)), b) == m
  {
    hide Pow2, Low, Up;
    ShiftByBit(b);
    UpOnes(b);
    SplitUnique(m, b, 0, m);
    if m >= Pow2(b - 1) {
      SplitUnique(m + TWO32 - Pow2(b), b, Pow2(32 - b) - 1, m);
    }
  }

  lemma UpOnes(k: nat)
    requires k <= 32
    ensures Up(Pow2(32 - k) - 1, k) == TWO32 - Pow2(k)
  {
    Pow2Add(32 - k, k);
    Pow2Values();
    assert (Pow2(32 - k) - 1) * Pow2(k) == Pow2(32 - k) * Pow2(k) - Pow2(k);
  }
}
