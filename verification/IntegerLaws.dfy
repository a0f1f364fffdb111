/**
 What the register instructions of I, M and Zbb leave behind, said once more without the functions of the
 reference semantics: words by their numeric fields, operands as the numbers in the registers, results by
 the laws that single them out.  Nothing but rd and the pc changes.
 */
module IntegerLaws {
  import opened Bits
  import opened Bytes
  import opened IsaHelpers
  import opened InstructionSet
  import opened RvInsn
  import opened MulDiv
  import opened BitManip
  import opened IsaState

  // ---------------------------------------------------------- states and words

  predicate Ready(h: Hart) { |h.x| == 32 && |h.f| == 32 && h.x[0] == 0 }

  function Src1(h: Hart, w: u32): u32
    requires Ready(h)
  {
    h.x[w / 0x8000 % 32]
  }

  function Src2(h: Hart, w: u32): u32
    requires Ready(h)
  {
    h.x[w / 0x10_0000 % 32]
  }

  function Target(w: u32): nat { w / 0x80 % 32 }

  ghost function After(sf: SoftFloat, h: Hart, w: u32, reply: HostReply): Outcome {
    Exec(sf, h, OpcodeDecode(w), w, reply)
  }

  /** v is in rd unless that is x0, the pc is at the next word, and nothing else has changed. */
  predicate Leaves(h: Hart, w: u32, o: Outcome, v: u32)
    requires Ready(h)
  {
    o == Running(h.(x := if Target(w) == 0 then h.x else h.x[Target(w) := v], pc := (h.pc + 4) % 0x1_0000_0000))
  }

  /** The signed integer in a register. */
  function Int(v: u32): int { (v + 0x8000_0000) % 0x1_0000_0000 - 0x8000_0000 }

  lemma IntIs(v: u32)
    ensures Int(v) == Signed(v)
  {
  }

  predicate Op(w: u32, funct7: nat, funct3: nat) {
    w % 128 == 0x33 && w / 0x200_0000 == funct7 && w / 0x1000 % 8 == funct3
  }

  predicate OpImm(w: u32, funct3: nat) { w % 128 == 0x13 && w / 0x1000 % 8 == funct3 }

  predicate OpShift(w: u32, funct7: nat, funct3: nat) { OpImm(w, funct3) && w / 0x200_0000 == funct7 }

  predicate OpUnary(w: u32, funct7: nat, rs2: nat, funct3: nat) {
    OpShift(w, funct7, funct3) && w / 0x10_0000 % 32 == rs2
  }

  lemma OpDecodes(w: u32, funct7: nat, funct3: nat)
    requires Op(w, funct7, funct3)
    ensures OpcodeDecode(w) == DecodeOp(funct3, funct7, 0)
  {
    hide DecodeOp;
  }

  lemma OpImmDecodes(w: u32, funct3: nat)
    requires OpImm(w, funct3)
    ensures OpcodeDecode(w) == DecodeOpImm(funct3, w / 0x200_0000, w / 0x10_0000 % 32)
  {
    hide DecodeOpImm;
  }

  // ------------------------------------------------ from the semantics to its values

  lemma RegRegLeaves(sf: SoftFloat, h: Hart, w: u32, reply: HostReply, m: InsnMnemonic) returns (v: u32)
    requires Ready(h) && m == OpcodeDecode(w) && IsRegReg(m) && (m == SLL || m == SRL ==> Src2(h, w) < 32)
    ensures Leaves(h, w, After(sf, h, w, reply), v) && v == AluRegReg(m, Src1(h, w), Src2(h, w))
  {
    hide OpcodeDecode, AluRegReg;
    v := AluRegReg(m, Src1(h, w), Src2(h, w));
  }

  lemma RegImmLeaves(sf: SoftFloat, h: Hart, w: u32, reply: HostReply, m: InsnMnemonic) returns (v: u32)
    requires Ready(h) && m == OpcodeDecode(w) && IsRegImm(m)
    ensures Leaves(h, w, After(sf, h, w, reply), v) && v == AluRegImm(m, Src1(h, w), IsaImmI(w))
  {
    hide OpcodeDecode, AluRegImm, IsaImmI;
    v := AluRegImm(m, Src1(h, w), IsaImmI(w));
  }

  lemma ShiftImmLeaves(sf: SoftFloat, h: Hart, w: u32, reply: HostReply, m: InsnMnemonic) returns (v: u32)
    requires Ready(h) && m == OpcodeDecode(w) && IsShiftImm(m)
    ensures Leaves(h, w, After(sf, h, w, reply), v) && v == AluShiftImm(m, Src1(h, w), w / 0x10_0000 % 32)
  {
    hide OpcodeDecode, AluShiftImm;
    v := AluShiftImm(m, Src1(h, w), w / 0x10_0000 % 32);
  }

  lemma UnaryLeaves(sf: SoftFloat, h: Hart, w: u32, reply: HostReply, m: InsnMnemonic) returns (v: u32)
    requires Ready(h) && m == OpcodeDecode(w) && IsUnary(m)
    ensures Leaves(h, w, After(sf, h, w, reply), v) && v == AluUnary(m, Src1(h, w))
  {
    hide OpcodeDecode, AluUnary;
    v := AluUnary(m, Src1(h, w));
  }

  // ---------------------------------------------------------------- add, compare

  /** ADD, and SUB which undoes it. */
  lemma AddSubLaw(sf: SoftFloat, h: Hart, w: u32, reply: HostReply) returns (v: u32)
    requires Ready(h) && (Op(w, 0x00, 0) || Op(w, 0x20, 0))
    ensures Leaves(h, w, After(sf, h, w, reply), v)
    ensures Op(w, 0x00, 0) ==> v == (Src1(h, w) + Src2(h, w)) % 0x1_0000_0000
    ensures Op(w, 0x20, 0) ==> (v + Src2(h, w)) % 0x1_0000_0000 == Src1(h, w)
  {
    OpDecodes(w, w / 0x200_0000, 0);
    hide Leaves, After, OpcodeDecode, Src1, Src2;
    v := RegRegLeaves(sf, h, w, reply, OpcodeDecode(w));
  }

  lemma CompareLaw(sf: SoftFloat, h: Hart, w: u32, reply: HostReply) returns (v: u32)
    requires Ready(h) && (Op(w, 0x00, 2) || Op(w, 0x00, 3))
    ensures Leaves(h, w, After(sf, h, w, reply), v) && (v == 0 || v == 1)
    ensures Op(w, 0x00, 2) ==> (v == 1 <==> Int(Src1(h, w)) < Int(Src2(h, w)))
    ensures Op(w, 0x00, 3) ==> (v == 1 <==> Src1(h, w) < Src2(h, w))
  {
    OpDecodes(w, 0, w / 0x1000 % 8);
    hide Leaves, After, OpcodeDecode, Src1, Src2, Int;
    IntIs(Src1(h, w));
    IntIs(Src2(h, w));
    v := RegRegLeaves(sf, h, w, reply, OpcodeDecode(w));
  }

  /** The sign-extended upper twelve bits. */
  function ImmI12(w: u32): int { if w < 0x8000_0000 then w / 0x10_0000 else w / 0x10_0000 - 4096 }

  lemma AddCompareImmLaw(sf: SoftFloat, h: Hart, w: u32, reply: HostReply) returns (v: u32)
    requires Ready(h) && (OpImm(w, 0) || OpImm(w, 2) || OpImm(w, 3))
    ensures Leaves(h, w, After(sf, h, w, reply), v)
    ensures OpImm(w, 0) ==> v == (Src1(h, w) + ImmI12(w)) % 0x1_0000_0000
    ensures OpImm(w, 2) ==> v == if Int(Src1(h, w)) < ImmI12(w) then 1 else 0
    ensures OpImm(w, 3) ==> v == if Src1(h, w) < ImmI12(w) % 0x1_0000_0000 then 1 else 0
  {
    OpImmDecodes(w, w / 0x1000 % 8);
    assert IsaImmI(w) == ImmI12(w);
    hide Leaves, After, OpcodeDecode, Src1, Int, IsaImmI, ImmI12;
    IntIs(Src1(h, w));
    v := RegImmLeaves(sf, h, w, reply, OpcodeDecode(w));
  }

  /** LUI and AUIPC. */
  lemma UpperLaw(sf: SoftFloat, h: Hart, w: u32, reply: HostReply) returns (v: u32)
    requires Ready(h) && (w % 128 == 0x37 || w % 128 == 0x17)
    ensures Leaves(h, w, After(sf, h, w, reply), v)
    ensures w % 128 == 0x37 ==> v == w / 0x1000 * 0x1000
    ensures w % 128 == 0x17 ==> v == (h.pc + w / 0x1000 * 0x1000) % 0x1_0000_0000
  {
    hide Leaves, After, OpcodeDecode, IsaImmU, Wrap;
    UpperDecodes(w);
    UpperValue(h.pc, w);
    v := UpperLeaves(sf, h, w, reply, OpcodeDecode(w));
  }

  lemma UpperDecodes(w: u32)
    ensures w % 128 == 0x37 ==> OpcodeDecode(w) == LUI
    ensures w % 128 == 0x17 ==> OpcodeDecode(w) == AUIPC
  {
  }

  lemma UpperLeaves(sf: SoftFloat, h: Hart, w: u32, reply: HostReply, m: InsnMnemonic) returns (v: u32)
    requires Ready(h) && m == OpcodeDecode(w) && m <= AUIPC
    ensures Leaves(h, w, After(sf, h, w, reply), v)
    ensures v == Wrap((if m == LUI then 0 else h.pc) + IsaImmU(w))
  {
    hide OpcodeDecode, IsaImmU;
    v := Wrap((if m == LUI then 0 else h.pc) + IsaImmU(w));
  }

  lemma UpperValue(pc: u32, w: u32)
    ensures Wrap(0 + IsaImmU(w)) == w / 0x1000 * 0x1000
    ensures Wrap(pc + IsaImmU(w)) == (pc + w / 0x1000 * 0x1000) % 0x1_0000_0000
  {
    var u: u32 := w / 0x1000 * 0x1000;
    assert w - w % 4096 == u;
    assert IsaImmU(w) == Signed(u);
    hide IsaImmU;
  }

  // -------------------------------------------------------------------- bitwise

  predicate IsBitwise(w: u32) {
    Op(w, 0x00, 4) || Op(w, 0x00, 6) || Op(w, 0x00, 7) || Op(w, 0x20, 4) || Op(w, 0x20, 6) || Op(w, 0x20, 7)
  }

  /** XOR, OR, AND, and with the second operand complemented (for XOR: the result) XNOR, ORN, ANDN. */
  predicate BitwiseResult(funct7: nat, funct3: nat, p: bool, q: bool) {
    var q' := if funct7 == 0x20 then !q else q;
    if funct3 == 4 then p != q' else if funct3 == 6 then p || q' else p && q'
  }

  lemma BitwiseLaw(sf: SoftFloat, h: Hart, w: u32, reply: HostReply) returns (v: u32)
    requires Ready(h) && IsBitwise(w)
    ensures Leaves(h, w, After(sf, h, w, reply), v)
    ensures forall i :: 0 <= i < 32 ==>
              (Bit(v, i) == 1 <==>
               BitwiseResult(w / 0x200_0000, w / 0x1000 % 8, Bit(Src1(h, w), i) == 1, Bit(Src2(h, w), i) == 1))
  {
    OpDecodes(w, w / 0x200_0000, w / 0x1000 % 8);
    hide Leaves, After, OpcodeDecode, Src1, Src2, AluRegReg, Bit, BitwiseResult;
    v := RegRegLeaves(sf, h, w, reply, OpcodeDecode(w));
    forall i | 0 <= i < 32
      ensures Bit(v, i) == 1 <==>
              BitwiseResult(w / 0x200_0000, w / 0x1000 % 8, Bit(Src1(h, w), i) == 1, Bit(Src2(h, w), i) == 1)
    {
      BitwiseAt(w / 0x200_0000, w / 0x1000 % 8, Src1(h, w), Src2(h, w), i);
    }
  }

  lemma BitwiseAt(funct7: nat, funct3: nat, a: u32, b: u32, i: nat)
    requires (funct7 == 0x00 || funct7 == 0x20) && (funct3 == 4 || funct3 == 6 || funct3 == 7) && i < 32
    ensures Bit(AluRegReg(DecodeOp(funct3, funct7, 0), a, b), i) == 1 <==>
            BitwiseResult(funct7, funct3, Bit(a, i) == 1, Bit(b, i) == 1)
  {
    hide And, Or, Xor, Bit, Not;
    BitwiseBits(a, b, i);
    BitwiseBits(a, Not(b), i);
    NotBits(b, i);
    NotBits(Xor32(a, b), i);
  }

  lemma BitwiseImmLaw(sf: SoftFloat, h: Hart, w: u32, reply: HostReply) returns (v: u32)
    requires Ready(h) && (OpImm(w, 4) || OpImm(w, 6) || OpImm(w, 7))
    ensures Leaves(h, w, After(sf, h, w, reply), v)
    ensures forall i :: 0 <= i < 32 ==>
              (Bit(v, i) == 1 <==>
               BitwiseResult(0, w / 0x1000 % 8, Bit(Src1(h, w), i) == 1, Bit(ImmI12(w) % 0x1_0000_0000, i) == 1))
  {
    OpImmDecodes(w, w / 0x1000 % 8);
    assert IsaImmI(w) == ImmI12(w);
    hide Leaves, After, OpcodeDecode, Src1, And, Or, Xor, Bit, IsaImmI, ImmI12;
    v := RegImmLeaves(sf, h, w, reply, OpcodeDecode(w));
    var a, b := Src1(h, w), Wrap(ImmI12(w));
    forall i | 0 <= i < 32
      ensures Bit(v, i) == 1 <==> BitwiseResult(0, w / 0x1000 % 8, Bit(a, i) == 1, Bit(b, i) == 1)
    {
      BitwiseBits(a, b, i);
    }
  }

  // --------------------------------------------------------------------- shifts

  lemma FloorBounds(x: int, p: nat)
    requires p > 0
    ensures x / p * p <= x < (x / p + 1) * p
  {
  }

  lemma SignedFloor(x: u32, s: nat)
    ensures Signed(FloorShift(x, s)) == Signed(x) / Pow2(s)
  {
    SignedQuotient(Signed(x), Pow2(s));
    hide Pow2;
  }

  lemma LogicalShift(a: u32, s: nat)
    ensures Wrap(a / Pow2(s)) == a / Pow2(s)
  {
    DivBound(a, Pow2(s));
  }

  /** By s places to the left, to the right with zeros, to the right with the sign. */
  predicate ShiftResult(w: u32, a: u32, s: nat, v: u32) {
    var p := Pow2(s);
    if w / 0x1000 % 8 == 1 then v == a * p % 0x1_0000_0000
    else if w / 0x200_0000 == 0x00 then v * p <= a < (v + 1) * p
    else Int(v) * p <= Int(a) < (Int(v) + 1) * p
  }

  lemma ShiftResults(w: u32, a: u32, s: nat, v: u32)
    requires w / 0x1000 % 8 == 1 ==> v == Wrap(a * Pow2(s))
    requires w / 0x1000 % 8 != 1 && w / 0x200_0000 == 0x00 ==> v == Wrap(a / Pow2(s))
    requires w / 0x1000 % 8 != 1 && w / 0x200_0000 != 0x00 ==> v == FloorShift(a, s)
    ensures ShiftResult(w, a, s, v)
  {
    hide Pow2, Int, FloorShift, Signed;
    IntIs(a);
    IntIs(v);
    LogicalShift(a, s);
    SignedFloor(a, s);
    FloorBounds(a, Pow2(s));
    FloorBounds(Signed(a), Pow2(s));
  }

  /** SLL and SRL by less than 32, SRA by the low five bits. */
  lemma ShiftLaw(sf: SoftFloat, h: Hart, w: u32, reply: HostReply) returns (v: u32)
    requires Ready(h) && (Op(w, 0x00, 1) || Op(w, 0x00, 5) || Op(w, 0x20, 5))
    requires Op(w, 0x20, 5) || Src2(h, w) < 32
    ensures Leaves(h, w, After(sf, h, w, reply), v)
    ensures ShiftResult(w, Src1(h, w), Src2(h, w) % 32, v)
  {
    OpDecodes(w, w / 0x200_0000, w / 0x1000 % 8);
    hide Leaves, After, OpcodeDecode, Src1, Src2, FloorShift, Pow2, ShiftResult, Wrap;
    v := RegRegLeaves(sf, h, w, reply, OpcodeDecode(w));
    ShiftResults(w, Src1(h, w), Src2(h, w) % 32, v);
  }

  /** From 32 on C++ gives SLL and SRL no result. */
  lemma WideShiftUndefined(sf: SoftFloat, h: Hart, w: u32, reply: HostReply)
    requires Ready(h) && (Op(w, 0x00, 1) || Op(w, 0x00, 5))
    ensures After(sf, h, w, reply) == Undefined <==> Src2(h, w) >= 32
  {
    OpDecodes(w, 0, w / 0x1000 % 8);
    hide OpcodeDecode, AluRegReg;
  }

  lemma ShiftImmLaw(sf: SoftFloat, h: Hart, w: u32, reply: HostReply) returns (v: u32)
    requires Ready(h) && (OpShift(w, 0x00, 1) || OpShift(w, 0x00, 5) || OpShift(w, 0x20, 5))
    ensures Leaves(h, w, After(sf, h, w, reply), v)
    ensures ShiftResult(w, Src1(h, w), w / 0x10_0000 % 32, v)
  {
    OpImmDecodes(w, w / 0x1000 % 8);
    hide Leaves, After, OpcodeDecode, Src1, FloorShift, Pow2, ShiftResult, Wrap;
    v := ShiftImmLeaves(sf, h, w, reply, OpcodeDecode(w));
    ShiftResults(w, Src1(h, w), w / 0x10_0000 % 32, v);
  }

  // ------------------------------------------------------------------- products

  /** MUL is the low word of the product, MULH as coded and MULHU the high word, MULHSU that of the signed one. */
  predicate ProductResult(funct3: nat, a: u32, b: u32, v: u32) {
    if funct3 == 0 then v == a * b % 0x1_0000_0000
    else if funct3 == 2 then
      Int(v) * 0x1_0000_0000 <= Int(a) * Int(b) < (Int(v) + 1) * 0x1_0000_0000
    else v * 0x1_0000_0000 <= a * b < (v + 1) * 0x1_0000_0000
  }

  lemma ProductLaw(sf: SoftFloat, h: Hart, w: u32, reply: HostReply) returns (v: u32)
    requires Ready(h) && w / 0x1000 % 8 <= 3 && Op(w, 0x01, w / 0x1000 % 8)
    ensures Leaves(h, w, After(sf, h, w, reply), v)
    ensures ProductResult(w / 0x1000 % 8, Src1(h, w), Src2(h, w), v)
  {
    OpDecodes(w, 1, w / 0x1000 % 8);
    hide Leaves, After, OpcodeDecode, Src1, Src2, ProductResult, Signed;
    v := RegRegLeaves(sf, h, w, reply, OpcodeDecode(w));
    var a, b := Src1(h, w), Src2(h, w);
    HighWords(a, b);
    ProductResults(w / 0x1000 % 8, a, b, v);
  }

  lemma HighWords(a: u32, b: u32)
    ensures a * b / TWO32 == Wrap(a * b / TWO32)
    ensures Signed(Wrap(Signed(a) * Signed(b) / TWO32)) == Signed(a) * Signed(b) / TWO32
  {
    hide Signed, Mulhu, Mulh, Mul, Wrap;
    MulValue(a, b);
    WrapFits(Mulhu(a, b));
    SignedRange(a);
    SignedRange(b);
    ProductBound(Signed(a), Signed(b), 0x8000_0000);
    SignedHigh(Signed(a) * Signed(b));
  }

  lemma SignedRange(a: u32)
    ensures -0x8000_0000 <= Signed(a) < 0x8000_0000
  {
  }

  lemma ProductResults(funct3: nat, a: u32, b: u32, v: u32)
    requires funct3 == 0 ==> v == Wrap(a * b)
    requires funct3 == 2 ==> Signed(v) == Signed(a) * Signed(b) / TWO32
    requires funct3 != 0 && funct3 != 2 ==> v == a * b / TWO32
    ensures ProductResult(funct3, a, b, v)
  {
    hide Signed, Int;
    IntIs(a);
    IntIs(b);
    IntIs(v);
    FloorBounds(a * b, TWO32);
    FloorBounds(Signed(a) * Signed(b), TWO32);
  }

  // ------------------------------------------------------------------- division

  function Size(x: int): nat { if x < 0 then -x else x }

  /** r is what a remainder of x by y has to be: smaller than y, and zero or with the sign of x. */
  predicate IsRest(x: int, y: int, r: int) { Size(r) < Size(y) && (r == 0 || (r < 0 <==> x < 0)) }

  predicate Overflows(a: u32, b: u32) { a == 0x8000_0000 && b == 0xffff_ffff }

  /** DIV and REM. */
  lemma DivLaw(sf: SoftFloat, h: Hart, w: u32, reply: HostReply) returns (v: u32)
    requires Ready(h) && (Op(w, 0x01, 4) || Op(w, 0x01, 6))
    ensures Leaves(h, w, After(sf, h, w, reply), v)
    ensures Src2(h, w) != 0 && !Overflows(Src1(h, w), Src2(h, w)) && Op(w, 0x01, 4) ==>
              IsRest(Int(Src1(h, w)), Int(Src2(h, w)), Int(Src1(h, w)) - Int(Src2(h, w)) * Int(v))
    ensures Src2(h, w) != 0 && !Overflows(Src1(h, w), Src2(h, w)) && Op(w, 0x01, 6) ==>
              Int(Src2(h, w)) != 0 && IsRest(Int(Src1(h, w)), Int(Src2(h, w)), Int(v))
              && (Int(Src1(h, w)) - Int(v)) % Int(Src2(h, w)) == 0
    ensures Src2(h, w) == 0 ==> v == if Op(w, 0x01, 4) then 0xffff_ffff else Src1(h, w)
    ensures Overflows(Src1(h, w), Src2(h, w)) ==> v == if Op(w, 0x01, 4) then 0x8000_0000 else 0
  {
    OpDecodes(w, 1, w / 0x1000 % 8);
    hide Leaves, After, OpcodeDecode, Src1, Src2, IsaDiv, IsaRem, Int, IsRest;
    v := RegRegLeaves(sf, h, w, reply, OpcodeDecode(w));
    DivResults(Src1(h, w), Src2(h, w));
  }

  lemma DivResults(a: u32, b: u32)
    ensures b != 0 && !Overflows(a, b) ==> Int(b) != 0 && IsRest(Int(a), Int(b), Int(IsaRem(a, b)))
    ensures b != 0 && !Overflows(a, b) ==> Int(IsaRem(a, b)) == Int(a) - Int(b) * Int(IsaDiv(a, b))
    ensures b != 0 && !Overflows(a, b) ==> Int(b) != 0 && (Int(a) - Int(IsaRem(a, b))) % Int(b) == 0
    ensures b == 0 ==> IsaDiv(a, b) == 0xffff_ffff && IsaRem(a, b) == a
    ensures Overflows(a, b) ==> IsaDiv(a, b) == 0x8000_0000 && IsaRem(a, b) == 0
  {
    DivIsStandard(a, b);
    DivRemIdentity(a, b);
    hide IsaDiv, IsaRem, Div, Rem, Int, Signed;
    IntIs(a);
    IntIs(b);
    IntIs(IsaDiv(a, b));
    IntIs(IsaRem(a, b));
    SignOf(a);
    SignOf(b);
    if b != 0 && !Overflows(a, b) {
      DivRemUnique(a, b, Signed(Div(a, b)), Signed(Rem(a, b)));
      MultipleMod(Signed(b), Signed(Div(a, b)));
    }
  }

  lemma SignOf(a: u32)
    ensures (Signed(a) < 0 <==> a >= 0x8000_0000) && (Signed(a) == 0 <==> a == 0)
  {
  }

  lemma MultipleMod(y: int, q: int)
    requires y != 0
    ensures y * q % y == 0
  {
    if y > 0 {
      DivUnique(y * q, y, q, 0);
    } else {
      DivUnique(y * q, -y, -q, 0);
      assert y * q % y == y * q % -y;
    }
  }

  /** DIVU and REMU. */
  lemma DivuLaw(sf: SoftFloat, h: Hart, w: u32, reply: HostReply) returns (v: u32)
    requires Ready(h) && (Op(w, 0x01, 5) || Op(w, 0x01, 7))
    ensures Leaves(h, w, After(sf, h, w, reply), v)
    ensures Src2(h, w) != 0 && Op(w, 0x01, 5) ==> v * Src2(h, w) <= Src1(h, w) < (v + 1) * Src2(h, w)
    ensures Src2(h, w) != 0 && Op(w, 0x01, 7) ==> v < Src2(h, w) && (Src1(h, w) - v) % Src2(h, w) == 0
    ensures Src2(h, w) == 0 ==> v == if Op(w, 0x01, 5) then 0xffff_ffff else Src1(h, w)
  {
    OpDecodes(w, 1, w / 0x1000 % 8);
    hide Leaves, After, OpcodeDecode, Src1, Src2, Divu, Remu;
    v := RegRegLeaves(sf, h, w, reply, OpcodeDecode(w));
    DivuResults(Src1(h, w), Src2(h, w));
  }

  lemma DivuResults(a: u32, b: u32)
    ensures b != 0 ==> Divu(a, b) * b <= a < (Divu(a, b) + 1) * b
    ensures b != 0 ==> Remu(a, b) < b && (a - Remu(a, b)) % b == 0
    ensures b == 0 ==> Divu(a, b) == 0xffff_ffff && Remu(a, b) == a
  {
    DivuRemuIdentity(a, b);
    hide Divu, Remu;
    if b != 0 { MultipleMod(b, Divu(a, b)); }
  }

  // ------------------------------------------------------- Zbb: order and rotation

  /** MIN, MINU, MAX, MAXU: one of the operands, and a bound of both in the order of the instruction. */
  lemma MinMaxLaw(sf: SoftFloat, h: Hart, w: u32, reply: HostReply) returns (v: u32)
    requires Ready(h) && w / 0x1000 % 8 >= 4 && Op(w, 0x05, w / 0x1000 % 8)
    ensures Leaves(h, w, After(sf, h, w, reply), v) && (v == Src1(h, w) || v == Src2(h, w))
    ensures Op(w, 0x05, 4) ==> Int(v) <= Int(Src1(h, w)) && Int(v) <= Int(Src2(h, w))
    ensures Op(w, 0x05, 5) ==> v <= Src1(h, w) && v <= Src2(h, w)
    ensures Op(w, 0x05, 6) ==> Int(v) >= Int(Src1(h, w)) && Int(v) >= Int(Src2(h, w))
    ensures Op(w, 0x05, 7) ==> v >= Src1(h, w) && v >= Src2(h, w)
  {
    OpDecodes(w, 5, w / 0x1000 % 8);
    hide Leaves, After, OpcodeDecode, Src1, Src2, Int;
    IntIs(Src1(h, w));
    IntIs(Src2(h, w));
    v := RegRegLeaves(sf, h, w, reply, OpcodeDecode(w));
  }

  lemma RotatedValue(a: u32, s: nat)
    requires s <= 32
    ensures Wrap(Rotated(a, s)) == a * Pow2(s) % 0x1_0000_0000 + a / Pow2(32 - s)
  {
    hide Rotated, Pow2;
    RotatedBound(a, s);
    RotatedSum(a, s);
  }

  lemma RotatedSum(a: u32, s: nat)
    requires s <= 32
    ensures Rotated(a, s) == a * Pow2(s) % 0x1_0000_0000 + a / Pow2(32 - s)
  {
    hide Pow2, Low;
    ShlIsUp(a, s);
  }

  /** ROL, ROR and RORI: what leaves the word at one end comes back at the other. */
  lemma RotateLaw(sf: SoftFloat, h: Hart, w: u32, reply: HostReply) returns (v: u32)
    requires Ready(h) && (Op(w, 0x30, 1) || Op(w, 0x30, 5))
    ensures Leaves(h, w, After(sf, h, w, reply), v)
    ensures var a, s := Src1(h, w), Src2(h, w) % 32;
            v == if Op(w, 0x30, 1) then a * Pow2(s) % 0x1_0000_0000 + a / Pow2(32 - s)
                 else a / Pow2(s) + a * Pow2(32 - s) % 0x1_0000_0000
  {
    OpDecodes(w, 0x30, w / 0x1000 % 8);
    hide Leaves, After, OpcodeDecode, Src1, Src2, Rotated, Pow2, Wrap;
    v := RegRegLeaves(sf, h, w, reply, OpcodeDecode(w));
    RotatedValue(Src1(h, w), Src2(h, w) % 32);
    RotatedValue(Src1(h, w), 32 - Src2(h, w) % 32);
  }

  lemma RotateBack(a: u32, b: u32)
    ensures AluZbb(ROR, AluZbb(ROL, a, b), b) == a
  {
    hide Rotated, RotateLeft, RotateRight;
    var s := b % 32;
    RotateIsRotated(a, s);
    RotationsInverse(a, s);
    RotateIsRotated(RotateLeft(a, s), s);
  }

  /** ROR by the same register undoes ROL. */
  lemma RotateUndo(sf: SoftFloat, h: Hart, w: u32, w': u32, reply: HostReply) returns (v: u32, g: Hart)
    requires Ready(h) && Op(w, 0x30, 1) && Op(w', 0x30, 5)
    requires Target(w) != 0 && Target(w) != w / 0x10_0000 % 32
    requires w' / 0x8000 % 32 == Target(w) && w' / 0x10_0000 % 32 == w / 0x10_0000 % 32
    ensures After(sf, h, w, reply) == Running(g) && Ready(g) && Leaves(g, w', After(sf, g, w', reply), v)
    ensures v == Src1(h, w)
  {
    OpDecodes(w, 0x30, 1);
    OpDecodes(w', 0x30, 5);
    hide After, OpcodeDecode, AluZbb;
    var rotated := RegRegLeaves(sf, h, w, reply, ROL);
    g := After(sf, h, w, reply).h;
    v := RegRegLeaves(sf, g, w', reply, ROR);
    RotateBack(Src1(h, w), Src2(h, w));
  }

  lemma RotateImmLaw(sf: SoftFloat, h: Hart, w: u32, reply: HostReply) returns (v: u32)
    requires Ready(h) && OpShift(w, 0x30, 5)
    ensures Leaves(h, w, After(sf, h, w, reply), v)
    ensures var a, s := Src1(h, w), w / 0x10_0000 % 32; v == a / Pow2(s) + a * Pow2(32 - s) % 0x1_0000_0000
  {
    OpImmDecodes(w, 5);
    hide Leaves, After, OpcodeDecode, Src1, Rotated, Pow2, Wrap;
    v := ShiftImmLeaves(sf, h, w, reply, OpcodeDecode(w));
    RotatedValue(Src1(h, w), 32 - w / 0x10_0000 % 32);
  }

  // ------------------------------------------------- Zbb: extensions, counts, bytes

  /** SEXT_B, SEXT_H, ZEXT_H. */
  lemma ExtendLaw(sf: SoftFloat, h: Hart, w: u32, reply: HostReply) returns (v: u32)
    requires Ready(h) && (OpUnary(w, 0x30, 4, 1) || OpUnary(w, 0x30, 5, 1) || Op(w, 0x04, 4))
    ensures Leaves(h, w, After(sf, h, w, reply), v)
    ensures OpUnary(w, 0x30, 4, 1) ==> var b := Src1(h, w) % 256; Int(v) == if b < 128 then b else b - 256
    ensures OpUnary(w, 0x30, 5, 1) ==> var b := Src1(h, w) % 0x1_0000; Int(v) == if b < 0x8000 then b else b - 0x1_0000
    ensures Op(w, 0x04, 4) ==> v == Src1(h, w) % 0x1_0000
  {
    if Op(w, 0x04, 4) { OpDecodes(w, 4, 4); } else { OpImmDecodes(w, 1); }
    hide Leaves, After, OpcodeDecode, Src1, SignExtended, Int;
    ExtendedValues(Src1(h, w));
    v := UnaryLeaves(sf, h, w, reply, OpcodeDecode(w));
  }

  lemma ExtendedValues(a: nat)
    ensures var b := a % 256; Int(SignExtended(a, 8)) == if b < 128 then b else b - 256
    ensures var b := a % 0x1_0000; Int(SignExtended(a, 16)) == if b < 0x8000 then b else b - 0x1_0000
  {
    Pow2Values();
    hide Pow2;
  }

  /** The places of the ones. */
  ghost function Ones(a: nat, k: nat): set<nat> { set i: nat | i < k && Bit(a, i) == 1 }

  lemma {:induction false} OnesCount(a: nat, k: nat)
    ensures DigitSum(Low(a, k)) == |Ones(a, k)|
  {
    hide Bit, Low, Up;
    if k == 0 {
      ShiftZero(a);
    } else {
      OnesCount(a, k - 1);
      LowStep(a, k - 1);
      DigitSumSplit(Bit(a, k - 1), Low(a, k - 1), k - 1);
      assert Ones(a, k) == Ones(a, k - 1) + if Bit(a, k - 1) == 1 then {k - 1} else {};
    }
  }

  /** CLZ brackets the word, 2^CTZ is the last power of two that divides it, CPOP counts its ones. */
  lemma CountLaw(sf: SoftFloat, h: Hart, w: u32, reply: HostReply) returns (v: u32)
    requires Ready(h) && (OpUnary(w, 0x30, 0, 1) || OpUnary(w, 0x30, 1, 1) || OpUnary(w, 0x30, 2, 1))
    ensures Leaves(h, w, After(sf, h, w, reply), v)
    ensures OpUnary(w, 0x30, 0, 1) && Src1(h, w) != 0 ==> v <= 31 && Pow2(31 - v) <= Src1(h, w) < Pow2(32 - v)
    ensures OpUnary(w, 0x30, 1, 1) && Src1(h, w) != 0 ==>
              v <= 31 && Src1(h, w) % Pow2(v) == 0 && Src1(h, w) % Pow2(v + 1) != 0
    ensures !OpUnary(w, 0x30, 2, 1) && Src1(h, w) == 0 ==> v == 32
    ensures OpUnary(w, 0x30, 2, 1) ==> v == |Ones(Src1(h, w), 32)|
  {
    hide Leaves, After, OpcodeDecode, Src1, Ones, Pow2, AluUnary, OpUnary;
    CountDecodes(w);
    CountValues(Src1(h, w));
    v := UnaryLeaves(sf, h, w, reply, OpcodeDecode(w));
  }

  lemma CountDecodes(w: u32)
    ensures OpUnary(w, 0x30, 0, 1) ==> OpcodeDecode(w) == CLZ
    ensures OpUnary(w, 0x30, 1, 1) ==> OpcodeDecode(w) == CTZ && !OpUnary(w, 0x30, 2, 1)
    ensures OpUnary(w, 0x30, 2, 1) ==> OpcodeDecode(w) == CPOP && !OpUnary(w, 0x30, 0, 1)
    ensures !(OpUnary(w, 0x30, 0, 1) && OpUnary(w, 0x30, 1, 1))
  {
    if OpImm(w, 1) { OpImmDecodes(w, 1); }
    hide OpcodeDecode;
  }

  lemma CountValues(a: u32)
    ensures var v := AluUnary(CLZ, a);
            if a == 0 then v == 32 else v <= 31 && Pow2(31 - v) <= a < Pow2(32 - v)
    ensures var v := AluUnary(CTZ, a);
            if a == 0 then v == 32 else v <= 31 && a % Pow2(v) == 0 && a % Pow2(v + 1) != 0
    ensures AluUnary(CPOP, a) == |Ones(a, 32)|
  {
    hide Ones, Clz, Ctz, DigitSum, Pow2;
    CountBounds(a);
  }

  lemma CountBounds(a: u32)
    ensures a != 0 ==> 0 <= Clz(a) <= 31 && Pow2(31 - Clz(a)) <= a < Pow2(32 - Clz(a))
    ensures a != 0 ==> Ctz(a) <= 31 && a % Pow2(Ctz(a)) == 0 && a % Pow2(Ctz(a) + 1) != 0
    ensures a == 0 ==> Clz(a) == 32 && Ctz(a) == 32
    ensures DigitSum(a) == |Ones(a, 32)| <= 32
  {
    hide Ones, DigitSum, Clz, Pow2, Ctz;
    ClzBracket(a);
    CtzOfZero();
    if a != 0 {
      CtzDivides(a, Ctz(a));
      CtzDivides(a, Ctz(a) + 1);
    }
    CpopComplement(a);
    Pow2Values();
    LowFits(a, 32);
    OnesCount(a, 32);
  }

  lemma CtzOfZero()
    ensures Ctz(0) == 32
  {
  }

  /** Byte i, counted from the lowest. */
  function ByteOf(v: u32, i: nat): nat { v / Pow2(8 * i) % 256 }

  /** REV8 and ORC_B. */
  lemma BytesLaw(sf: SoftFloat, h: Hart, w: u32, reply: HostReply) returns (v: u32)
    requires Ready(h) && (OpUnary(w, 0x34, 0x18, 5) || OpUnary(w, 0x14, 7, 5))
    ensures Leaves(h, w, After(sf, h, w, reply), v)
    ensures forall i :: 0 <= i < 4 ==>
              ByteOf(v, i) == if OpUnary(w, 0x34, 0x18, 5) then ByteOf(Src1(h, w), 3 - i)
                              else if ByteOf(Src1(h, w), i) == 0 then 0 else 0xff
  {
    OpImmDecodes(w, 5);
    hide Leaves, After, OpcodeDecode, Src1, Rev8, OrcB, ByteOf;
    v := UnaryLeaves(sf, h, w, reply, OpcodeDecode(w));
    var a := Src1(h, w);
    forall i | 0 <= i < 4
      ensures ByteOf(Rev8(a), i) == ByteOf(a, 3 - i) && ByteOf(OrcB(a), i) == if ByteOf(a, i) == 0 then 0 else 0xff
    {
      ByteValues(a, i);
    }
  }

  lemma ByteValues(a: u32, i: nat)
    requires i < 4
    ensures ByteOf(Rev8(a), i) == ByteOf(a, 3 - i) && ByteOf(OrcB(a), i) == if ByteOf(a, i) == 0 then 0 else 0xff
  {
    hide Rev8, OrcB, GetByte, Pow2;
    Rev8Reverses(a, i);
    OrcBCombines(a, i);
    GetByteValue(a, i);
    GetByteValue(a, 3 - i);
    GetByteValue(Rev8(a), i);
    GetByteValue(OrcB(a), i);
  }
}
