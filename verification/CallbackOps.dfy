/**
 What the callbacks compute between reading and writing registers, as coded with shifts and masks, and
 that it is what the reference semantics says.
 */
module CallbackOps {
  import opened Bits
  import opened Bytes
  import opened IsaHelpers
  import opened InstructionSet
  import opened RvInsn
  import opened MulDiv
  import opened BitManip
  import opened Csr
  import opened FloatBits
  import opened IsaState

  const XLEN: nat := 32
  const STEP_SIZE: nat := 4
  const NUM_X_REGISTERS: nat := 32
  const NUM_F_REGISTERS: nat := 32

  lemma PutKeepsPc(h: Hart, r: nat, v: u32)
    ensures h.Put(r, v).pc == h.pc
    ensures forall pc: u32 :: h.(pc := pc).Put(r, v) == h.Put(r, v).(pc := pc)
  {
  }

  // ------------------------------------------------------- registers and immediates

  /** The accessors read the fields of the reference semantics. */
  lemma Operands(w: u32)
    ensures Rd(w) == RdOf(w) < NUM_X_REGISTERS && Rs1(w) == Rs1Of(w) < NUM_X_REGISTERS
    ensures Rs2(w) == Rs2Of(w) < NUM_X_REGISTERS == NUM_F_REGISTERS && Rs3(w) == Rs3Of(w) < NUM_F_REGISTERS
    ensures Shamt(w) == Rs2Of(w) < XLEN && Rm(w) == RmOf(w) < 8 && ImmCsr(w) == CsrOf(w)
    ensures ImmI(w) == IsaImmI(w) && ImmS(w) == IsaImmS(w) && ImmB(w) == IsaImmB(w)
    ensures ImmU(w) == IsaImmU(w) && ImmJ(w) == IsaImmJ(w)
  {
    hide Rd, Rs1, Rs2, Rs3, Rm, Shamt, ImmCsr, ImmI, ImmS, ImmB, ImmU, ImmJ, IsaImmI, IsaImmS, IsaImmB, IsaImmU, IsaImmJ;
    Registers(w);
    ImmIValue(w);
    ImmSValue(w);
    ImmBValue(w);
    ImmUValue(w);
    ImmJValue(w);
  }

  function RegRegOp(m: InsnMnemonic, a: u32, b: u32): u32 {
    if m <= AND then BaseOp(m, a, b) else if m <= REMU then MulDivOp(m, a, b) else ZbbOp(m, a, b)
  }

  function BaseOp(m: InsnMnemonic, a: u32, b: u32): u32 {
    if m == ADD then Wrap(a + b)
    else if m == SUB then Wrap(a - b)
    else if m == SLL then Shl(a, b)
    else if m == SLT then (if Signed(a) < Signed(b) then 1 else 0)
    else if m == SLTU then (if a < b then 1 else 0)
    else if m == XOR then Xor32(a, b)
    else if m == SRL then Shr(a, b)
    else if m == SRA then ArithmRightShift(a, And(b, XLEN - 1))
    else if m == OR then Or32(a, b)
    else And(a, b)
  }

  function MulDivOp(m: InsnMnemonic, a: u32, b: u32): u32 {
    if m == MUL then Mul(a, b)
    else if m == MULH then Mulh(a, b)
    else if m == MULHSU then Mulhsu(a, b)
    else if m == MULHU then Mulhu(a, b)
    else if m == DIV then Div(a, b)
    else if m == DIVU then Divu(a, b)
    else if m == REM then Rem(a, b)
    else Remu(a, b)
  }

  function ZbbOp(m: InsnMnemonic, a: u32, b: u32): u32 {
    if m == ANDN then And(a, Not(b))
    else if m == ORN then Or32(a, Not(b))
    else if m == XNOR then Not(Xor32(a, b))
    else if m == MIN then (if Signed(a) < Signed(b) then a else b)
    else if m == MINU then (if a < b then a else b)
    else if m == MAX then (if Signed(a) < Signed(b) then b else a)
    else if m == MAXU then (if a < b then b else a)
    else
      LowFive(b);
      if m == ROL then RotateLeft(a, And(b, XLEN - 1)) else RotateRight(a, And(b, XLEN - 1))
  }

  /** The second operand of the templates is a register: the immediate is converted on the way. */
  function RegImmOp(m: InsnMnemonic, a: u32, imm: int): u32 {
    if m == ADDI then Wrap(a + Wrap(imm))
    else if m == SLTI then (if Signed(a) < imm then 1 else 0)
    else if m == SLTIU then (if a < Wrap(imm) then 1 else 0)
    else if m == XORI then Xor32(a, Wrap(imm))
    else if m == ORI then Or32(a, Wrap(imm))
    else And(a, Wrap(imm))
  }

  function ShiftOp(m: InsnMnemonic, a: u32, shamt: u32): u32
    requires shamt < XLEN
  {
    if m == SLLI then Shl(a, shamt)
    else if m == SRLI then Shr(a, shamt)
    else if m == SRAI then ArithmRightShift(a, shamt)
    else RotateRight(a, shamt)
  }

  lemma LowFive(b: u32)
    ensures And(b, XLEN - 1) == b % 32 < XLEN
  {
    hide And;
    Pow2Values();
    AndLowMask(b, 5);
  }

  lemma Shifts(a: u32, s: nat)
    ensures Shl(a, s) == Wrap(a * Pow2(s))
    ensures Shr(a, s) == Wrap(a / Pow2(s))
  {
    DivBound(a, Pow2(s));
  }

  lemma Rotations(a: u32, s: nat)
    requires s < 32
    ensures RotateLeft(a, s) == Wrap(Rotated(a, s)) && RotateRight(a, s) == Wrap(Rotated(a, 32 - s))
  {
    hide Rotated, RotateLeft, RotateRight;
    RotateIsRotated(a, s);
  }

  /** SLL and SRL take the whole register as amount, so they meet the semantics only below 32. */
  lemma RegRegValue(m: InsnMnemonic, a: u32, b: u32)
    requires IsRegReg(m) && (m == SLL || m == SRL ==> b < 32)
    ensures RegRegOp(m, a, b) == AluRegReg(m, a, b)
  {
    hide BaseOp, MulDivOp, ZbbOp, AluBase, AluMulDiv, AluZbb;
    if m <= AND {
      BaseValue(m, a, b);
    } else if m <= REMU {
      MulDivValue(m, a, b);
    } else {
      ZbbValue(m, a, b);
    }
  }

  lemma BaseValue(m: InsnMnemonic, a: u32, b: u32)
    requires m == SLL || m == SRL ==> b < 32
    ensures BaseOp(m, a, b) == AluBase(m, a, b)
  {
    hide And, Or, Xor, Shl, Shr, Pow2, ArithmRightShift, FloorShift, Signed;
    LowFive(b);
    Shifts(a, b);
    ArithmRightShiftIsFloor(a, b % 32);
  }

  lemma MulDivValue(m: InsnMnemonic, a: u32, b: u32)
    ensures MulDivOp(m, a, b) == AluMulDiv(m, a, b)
  {
    hide Mul, Mulh, Mulhsu, Mulhu, Div, Divu, Rem, Remu, IsaDiv, IsaRem, Signed;
    DivIsStandard(a, b);
    MulValue(a, b);
    MulhsuValue(a, b);
    HighFits(a * b);
    hide Wrap;
  }

  lemma ZbbValue(m: InsnMnemonic, a: u32, b: u32)
    ensures ZbbOp(m, a, b) == AluZbb(m, a, b)
  {
    hide And, Or, Xor, Rotated, RotateLeft, RotateRight, Signed;
    LowFive(b);
    Rotations(a, b % 32);
  }

  lemma HighFits(n: nat)
    requires n / TWO32 < TWO32
    ensures Wrap(n / TWO32) == n / TWO32
  {
  }

  lemma RegImmValue(m: InsnMnemonic, a: u32, imm: int)
    ensures RegImmOp(m, a, imm) == AluRegImm(m, a, imm)
  {
    hide And, Or, Xor, Signed;
    WrapAdd(imm, a);
  }

  lemma ShiftOpValue(m: InsnMnemonic, a: u32, s: u32)
    requires s < XLEN
    ensures ShiftOp(m, a, s) == AluShiftImm(m, a, s)
  {
    hide Shl, Shr, Pow2, Rotated, RotateLeft, RotateRight, ArithmRightShift, FloorShift;
    Shifts(a, s);
    ArithmRightShiftIsFloor(a, s);
    Rotations(a, s);
  }

  // ---------------------------------------------------- branches, extensions, targets

  predicate BranchPred(m: InsnMnemonic, a: u32, b: u32) {
    if m == BEQ then a == b
    else if m == BNE then a != b
    else if m == BLT then Signed(a) < Signed(b)
    else if m == BGE then Signed(a) >= Signed(b)
    else if m == BLTU then a < b
    else a >= b
  }

  lemma BranchPredValue(m: InsnMnemonic, a: u32, b: u32)
    requires BEQ <= m <= BGEU
    ensures BranchPred(m, a, b) <==> BranchTaken(m, a, b)
  {
  }

  lemma ExtendValue(x: u32, b: nat)
    requires 1 <= b < 32
    ensures SignExt(x, b) == SignExtended(x, b)
  {
    hide Pow2, SignExt;
    SignExtValue(x, b);
  }

  /** SEXT_B and SEXT_H truncate before they extend. */
  lemma ExtendTruncated(x: u32)
    ensures SignExt(TruncHigh8(x), 8) == SignExtended(x, 8)
    ensures SignExt(TruncHigh16(x), 16) == SignExtended(x, 16)
  {
    hide Pow2, SignExt, TruncHigh8, TruncHigh16;
    TruncHigh8Value(x);
    TruncHigh16Value(x);
    Pow2Values();
    ExtendValue(TruncHigh8(x), 8);
    ExtendValue(TruncHigh16(x), 16);
  }

  /** The mask of JALR. */
  lemma ClearBitValue(t: u32)
    ensures And(t, Not(1)) == ClearLowestBit(t)
  {
    hide And;
    AndStep(t, Not(1));
    AndLowMask(t / 2, 31);
    Pow2Values();
    LowFits(t / 2, 31);
  }

  // --------------------------------------------------------------- loads and stores

  lemma OperandRegisters(w: u32)
    ensures Rd(w) == RdOf(w) < NUM_X_REGISTERS == NUM_F_REGISTERS
    ensures Rs1(w) == Rs1Of(w) < NUM_X_REGISTERS && Rs2(w) == Rs2Of(w) < NUM_X_REGISTERS
  {
    hide *;
    Operands(w);
  }

  lemma AskedModeRead(h: Hart, w: u32)
    ensures AskedMode(h, w) == if Rm(w) == 7 then h.frm else Rm(w)
  {
    hide Rm, RmOf;
    assert Rm(w) == RmOf(w) by { Operands(w); }
  }

  lemma AddressesRead(h: Hart, w: u32)
    ensures LoadAddress(h, w) == Wrap(h.X(Rs1(w)) + ImmI(w)) && StoreAddress(h, w) == Wrap(h.X(Rs1(w)) + ImmS(w))
  {
    hide Rs1, Rs1Of, ImmI, IsaImmI, ImmS, IsaImmS, Rd, RdOf, Rs2, Rs2Of, Rs3, Rs3Of, Rm, RmOf, ImmCsr, CsrOf, ImmB, IsaImmB,
         ImmU, IsaImmU, ImmJ, IsaImmJ, Shamt, Wrap, Hart.X;
    Operands(w);
  }

  /** Bytes and halfwords are truncated before they are stored. */
  lemma StoredBytes(v: u32)
    ensures ToLE(v, 1) == [TruncHigh8(v)]
    ensures ToLE(v, 2) == ToLE(TruncHigh16(v), 2)
  {
    TruncHigh8Value(v);
    TruncHigh16Value(v);
    FirstBytes(v);
    FirstBytes(v % 0x1_0000);
    SecondByte(v);
    hide *;
  }

  lemma SecondByte(v: nat)
    ensures v % 0x1_0000 % 256 == v % 256 && v % 0x1_0000 / 256 % 256 == v / 256 % 256
  {
  }

  lemma FirstBytes(v: nat)
    ensures ToLE(v, 1) == [v % 256] && ToLE(v, 2) == [v % 256, v / 256 % 256]
  {
    assert ToLE(v / 256, 0) == [];
  }

  // --------------------------------------------------------------- floating point

  function SignOp(m: InsnMnemonic, a: u32, b: u32): u32 {
    if m == FSGNJ_S then Sgnj(a, b) else if m == FSGNJN_S then Sgnjn(a, b) else Sgnjx(a, b)
  }

  lemma SignOpValue(m: InsnMnemonic, a: u32, b: u32)
    ensures SignOp(m, a, b) == InjectSign(m, a, b)
  {
    hide Sgnj, Sgnjn, Sgnjx;
    SignInjection(a, b);
  }

  datatype FpClass = Infinite | Nan | Normal | Subnormal | Zero

  /** `std::fpclassify` on the bits of the value. */
  function FpClassify(v: u32): FpClass {
    var exponent, fraction := And(Shr(v, 23), 0xff), And(v, 0x7f_ffff);
    if exponent == 0xff then (if fraction == 0 then Infinite else Nan)
    else if exponent != 0 then Normal
    else if fraction != 0 then Subnormal
    else Zero
  }

  /** `f32_isSignalingNaN`. */
  predicate SignalingNan(v: u32) { And(v, 0x7fc0_0000) == 0x7f80_0000 && And(v, 0x3f_ffff) != 0 }

  /** The switch of FCLASS. */
  function ClassShift(v: u32): nat {
    match FpClassify(v)
    case Infinite => if IsBitSet(v, 31) then 0 else 7
    case Nan => if SignalingNan(v) then 8 else 9
    case Normal => if IsBitSet(v, 31) then 1 else 6
    case Subnormal => if IsBitSet(v, 31) then 2 else 5
    case Zero => if IsBitSet(v, 31) then 3 else 4
  }

  /** The bit that FCLASS sets is that of the class of the number. */
  lemma ClassShiftValue(v: u32)
    ensures ClassShift(v) == FloatClass(v)
  {
    hide And, Shr, IsBitSet, Pow2;
    SignBit(v);
    FloatFields(v);
    QuietBit(v);
  }

  lemma FloatFields(v: u32)
    ensures And(Shr(v, 23), 0xff) == v / 0x80_0000 % 256
    ensures And(v, 0x7f_ffff) == v % 0x80_0000 && And(v, 0x3f_ffff) == v % 0x40_0000
    ensures And(v, 0x7fc0_0000) == v / 0x40_0000 % 512 * 0x40_0000
  {
    hide And, Shr, Low, Up, Pow2;
    FloatPowers();
    ShiftValue(v, 23, 0x80_0000);
    ShiftValue(v, 22, 0x40_0000);
    ShiftValue(Shr(v, 23), 8, 0x100);
    AndLowMask(Shr(v, 23), 8);
    AndLowMask(v, 23);
    AndLowMask(v, 22);
    AndField(v, 22, 9, 0, 0x40_0000, 512, 0x7fc0_0000);
    AndZero(v);
  }

  lemma FloatPowers()
    ensures Pow2(8) == 0x100 && Pow2(9) == 512 && Pow2(22) == 0x40_0000 && Pow2(23) == 0x80_0000
  {
    Pow2Values();
    assert Pow2(22) == 4 * Pow2(20);
  }

  /** Bit 22 is the top bit of the fraction, below the exponent. */
  lemma QuietBit(v: u32)
    ensures v / 0x40_0000 % 512 == 2 * (v / 0x80_0000 % 256) + (if v % 0x80_0000 < 0x40_0000 then 0 else 1)
    ensures v % 0x40_0000 == v % 0x80_0000 - (if v % 0x80_0000 < 0x40_0000 then 0 else 0x40_0000)
  {
  }

  function FArithOp(sf: SoftFloat, mode: Rounding, m: InsnMnemonic, a: u32, b: u32, c: u32): FpResult {
    if m == FADD_S then sf(FpAdd, mode, a, b, 0)
    else if m == FSUB_S then sf(FpSub, mode, a, b, 0)
    else if m == FMUL_S then sf(FpMul, mode, a, b, 0)
    else if m == FDIV_S then sf(FpDiv, mode, a, b, 0)
    else if m == FSQRT_S then sf(FpSqrt, mode, a, 0, 0)
    else if m == FMADD_S then sf(FpMulAdd, mode, a, b, c)
    else if m == FMSUB_S then sf(FpMulAdd, mode, a, b, Neg(c))
    else if m == FNMSUB_S then sf(FpMulAdd, mode, Neg(a), b, c)
    else
      var r := sf(FpMulAdd, mode, a, b, c);
      r.(value := Neg(r.value))
  }

  lemma FArithOpValue(sf: SoftFloat, mode: Rounding, m: InsnMnemonic, a: u32, b: u32, c: u32)
    requires FADD_S <= m <= FNMADD_S
    ensures FArithOp(sf, mode, m, a, b, c) == FpValue(sf, mode, m, a, b, c)
  {
    hide Neg;
    NegValue(a);
    NegValue(c);
    NegValue(sf(FpMulAdd, mode, a, b, c).value);
  }

  /** Writing the joined flags back accrues them, and with none raised there is nothing to write. */
  lemma AccrueIsWrite(h: Hart, flags: nat)
    requires h.fflags < 32
    ensures And(flags, 0x1f) < 32
    ensures And(flags, 0x1f) == 0 ==> Accrue(h, flags) == h
    ensures WriteCsr(h, CSR_FFLAGS, Or32(ReadCsr(h, CSR_FFLAGS), And(flags, 0x1f))) == Accrue(h, flags)
  {
    hide And, Or;
    AccruedFlags(h.fflags, flags);
  }

  lemma AccruedFlags(fflags: nat, flags: nat)
    requires fflags < 32
    ensures And(flags, 0x1f) == flags % 32
    ensures Or(fflags, flags % 32) < 32
    ensures flags % 32 == 0 ==> Or(fflags, flags % 32) == fflags
  {
    Pow2Values();
    AndLowMask(flags, 5);
    OrBound(fflags, flags % 32, 5);
    hide And;
  }

  /** Setting the mode first and finishing with it is the same as finishing with it. */
  lemma ModeFirst(h: Hart, mode: Rounding, dest: Dest, v: u32, flags: nat)
    ensures FpFinish(h.(mode := mode), mode, dest, v, flags) == FpFinish(h, mode, dest, v, flags)
    ensures forall r: nat :: h.(mode := mode).F(r) == h.F(r) && h.(mode := mode).X(r) == h.X(r)
  {
  }

  lemma NoFlags(h: Hart)
    ensures Accrue(h, 0) == h
  {
  }

  lemma ReadCsrValue(h: Hart, index: nat, fcsr: u32)
    requires KnownCsr(index) && fcsr <= 0xff && h.frm == fcsr / 32 && h.fflags == fcsr % 32
    ensures ReadCsr(h, index) == GetCsr(fcsr, index)
  {
    hide GetCsr;
    GetCsrValue(fcsr, index);
  }

  lemma HotBit(s: nat)
    ensures Shl(1, s) == Wrap(Pow2(s))
  {
  }
}
