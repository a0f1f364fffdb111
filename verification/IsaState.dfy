/**
 The reference semantics: what one instruction does to the architectural state, over the integers.
 Instruction words are read by the fields of the ISA, results are arithmetic, memory is flat.

 Where the simulator departs from the ISA these semantics follow the simulator: the rs2 field of ZEXT_H,
 MULH and MULHSU, the amounts of SLL and SRL, FMIN, FMAX and FNMADD, the rounding mode of conversions from
 integers, the reserved rounding modes, jumps to addresses that are no multiple of 4, EBREAK.
 */
module IsaState {
  import opened Bits
  import opened Bytes
  import opened FlatMemory
  import opened InstructionSet
  import opened RvInsn
  import opened MulDiv
  import opened BitManip

  // ----------------------------------------------------------------- environment

  datatype Rounding = NearEven | MinMag | Min | Max | NearMaxMag

  datatype FpOp =
    | FpAdd | FpSub | FpMul | FpDiv | FpSqrt | FpMulAdd | FpLe | FpLt | FpEq
    | FpToI32 | FpToUi32 | FpFromI32 | FpFromUi32

  datatype FpResult = FpResult(value: u32, flags: nat)

  /** The floating-point library: any function from operands and rounding mode to bits and exception flags. */
  type SoftFloat = (FpOp, Rounding, u32, u32, u32) -> FpResult

  /** The answer of the host to a system call: failure, or the bytes read, or as many as were written. */
  datatype HostReply = Failed | Done(data: seq<byte>)

  datatype HostCall = ReadCall(fd: int, size: nat) | WriteCall(fd: int, data: seq<byte>)

  // ----------------------------------------------------------------------- state

  /** `mode` is the rounding mode that the floating-point library was last set to. */
  datatype Hart = Hart(
    pc: u32, x: seq<u32>, f: seq<u32>, frm: nat, fflags: nat, mode: Rounding,
    mem: FlatMem, stopped: bool, calls: seq<HostCall>
  ) {
    function X(r: nat): u32 { if 0 < r < |x| then x[r] else 0 }

    function F(r: nat): u32 { if r < |f| then f[r] else 0 }

    function Put(r: nat, v: u32): Hart { if 0 < r < |x| then this.(x := x[r := v]) else this }

    function PutF(r: nat, v: u32): Hart { if r < |f| then this.(f := f[r := v]) else this }

    function Next(): Hart { this.(pc := Wrap(pc + 4)) }
  }

  /** `Undefined`: the simulator's own asserts and undefined C++ operations. */
  datatype Outcome = Running(h: Hart) | Illegal(h: Hart) | Undefined

  // ------------------------------------------------------------- integer results

  predicate IsRegReg(m: InsnMnemonic) { ADD <= m <= AND || MUL <= m <= MAXU || ROL <= m <= ROR }

  predicate IsRegImm(m: InsnMnemonic) { ADDI <= m <= ANDI }

  predicate IsShiftImm(m: InsnMnemonic) { SLLI <= m <= SRAI || m == RORI }

  predicate IsUnary(m: InsnMnemonic) { SEXT_B <= m <= CPOP || REV8 <= m <= ORC_B }

  function Flag(b: bool): u32 { if b then 1 else 0 }

  function AluBase(m: InsnMnemonic, a: u32, b: u32): u32 {
    if m == ADD then Wrap(a + b)
    else if m == SUB then Wrap(a - b)
    else if m == SLL then Wrap(a * Pow2(b % 32))
    else if m == SLT then Flag(Signed(a) < Signed(b))
    else if m == SLTU then Flag(a < b)
    else if m == XOR then Xor32(a, b)
    else if m == SRL then Wrap(a / Pow2(b % 32))
    else if m == SRA then FloorShift(a, b % 32)
    else if m == OR then Or32(a, b)
    else And(a, b)
  }

  /** MULH and MULHSU as the simulator has them. */
  function AluMulDiv(m: InsnMnemonic, a: u32, b: u32): u32 {
    if m == MUL then Wrap(a * b)
    else if m == MULH || m == MULHU then Wrap(a * b / TWO32)
    else if m == MULHSU then Wrap(Signed(a) * Signed(b) / TWO32)
    else if m == DIV then IsaDiv(a, b)
    else if m == DIVU then Divu(a, b)
    else if m == REM then IsaRem(a, b)
    else Remu(a, b)
  }

  function AluZbb(m: InsnMnemonic, a: u32, b: u32): u32 {
    if m == ANDN then And(a, Not(b))
    else if m == ORN then Or32(a, Not(b))
    else if m == XNOR then Not(Xor32(a, b))
    else if m == MIN then (if Signed(a) < Signed(b) then a else b)
    else if m == MINU then (if a < b then a else b)
    else if m == MAX then (if Signed(a) < Signed(b) then b else a)
    else if m == MAXU then (if a < b then b else a)
    else if m == ROL then Wrap(Rotated(a, b % 32))
    else Wrap(Rotated(a, 32 - b % 32))
  }

  function AluRegReg(m: InsnMnemonic, a: u32, b: u32): u32 {
    if m <= AND then AluBase(m, a, b) else if m <= REMU then AluMulDiv(m, a, b) else AluZbb(m, a, b)
  }

  function AluRegImm(m: InsnMnemonic, a: u32, imm: int): u32 {
    if m == ADDI then Wrap(a + imm)
    else if m == SLTI then Flag(Signed(a) < imm)
    else if m == SLTIU then Flag(a < Wrap(imm))
    else if m == XORI then Xor32(a, Wrap(imm))
    else if m == ORI then Or32(a, Wrap(imm))
    else And(a, Wrap(imm))
  }

  function AluShiftImm(m: InsnMnemonic, a: u32, s: nat): u32
    requires s < 32
  {
    if m == SLLI then Wrap(a * Pow2(s))
    else if m == SRLI then Wrap(a / Pow2(s))
    else if m == SRAI then FloorShift(a, s)
    else Wrap(Rotated(a, 32 - s))
  }

  /** Two's complement of the low b bits. */
  function SignExtended(v: nat, b: nat): u32
    requires 1 <= b
  {
    var low := v % Pow2(b);
    Wrap(if low < Pow2(b - 1) then low else low - Pow2(b))
  }

  function AluUnary(m: InsnMnemonic, a: u32): u32 {
    if m == SEXT_B then SignExtended(a, 8)
    else if m == SEXT_H then SignExtended(a, 16)
    else if m == ZEXT_H then a % 0x1_0000
    else if m == CLZ then Wrap(Clz(a))
    else if m == CTZ then Wrap(Ctz(a))
    else if m == CPOP then Wrap(DigitSum(a))
    else if m == REV8 then Rev8(a)
    else OrcB(a)
  }

  /** Three comparisons, each with the branch on its opposite. */
  predicate BranchTaken(m: InsnMnemonic, a: u32, b: u32) {
    var holds := if m <= BNE then a == b else if m <= BGE then Signed(a) < Signed(b) else a < b;
    if m == BNE || m == BGE || m == BGEU then !holds else holds
  }

  // --------------------------------------------------------------- register fields

  function RdOf(w: u32): nat { w / 0x80 % 32 }

  function Rs1Of(w: u32): nat { w / 0x8000 % 32 }

  function Rs2Of(w: u32): nat { w / 0x10_0000 % 32 }

  function Rs3Of(w: u32): nat { w / 0x800_0000 }

  function RmOf(w: u32): nat { w / 0x1000 % 8 }

  function CsrOf(w: u32): nat { w / 0x10_0000 }

  function ExecInteger(h: Hart, m: InsnMnemonic, w: u32): Outcome {
    var a, b := h.X(Rs1Of(w)), h.X(Rs2Of(w));
    if (m == SLL || m == SRL) && b >= 32 then Undefined
    else
      var v :=
        if IsRegReg(m) then AluRegReg(m, a, b)
        else if IsRegImm(m) then AluRegImm(m, a, IsaImmI(w))
        else if IsShiftImm(m) then AluShiftImm(m, a, Rs2Of(w))
        else if IsUnary(m) then AluUnary(m, a)
        else if m == LUI then Wrap(IsaImmU(w))
        else Wrap(h.pc + IsaImmU(w));
      Running(h.Put(RdOf(w), v).Next())
  }

  function ClearLowestBit(t: u32): (r: u32)
    ensures r % 2 == 0 && t - 1 <= r <= t
  {
    t - t % 2
  }

  function ExecJump(h: Hart, m: InsnMnemonic, w: u32): Outcome {
    var a, b := h.X(Rs1Of(w)), h.X(Rs2Of(w));
    var link := Wrap(h.pc + 4);
    if m == JAL then Running(h.Put(RdOf(w), link).(pc := Wrap(h.pc + IsaImmJ(w))))
    else if m == JALR then
      var target := Wrap(a + IsaImmI(w));
      Running(h.Put(RdOf(w), link).(pc := ClearLowestBit(target)))
    else if BranchTaken(m, a, b) then Running(h.(pc := Wrap(h.pc + IsaImmB(w))))
    else Running(h.Next())
  }

  // ---------------------------------------------------------------- loads, stores

  function AccessSize(m: InsnMnemonic): nat {
    if m == LB || m == LBU || m == SB then 1 else if m == LH || m == LHU || m == SH then 2 else 4
  }

  function Extended(m: InsnMnemonic, v: nat): u32 {
    if m == LB then SignExtended(v, 8) else if m == LH then SignExtended(v, 16) else Wrap(v)
  }

  function LoadAddress(h: Hart, w: u32): u32 { Wrap(h.X(Rs1Of(w)) + IsaImmI(w)) }

  function StoreAddress(h: Hart, w: u32): u32 { Wrap(h.X(Rs1Of(w)) + IsaImmS(w)) }

  ghost function ExecLoad(h: Hart, m: InsnMnemonic, w: u32): Outcome {
    var a, n := LoadAddress(h, w), AccessSize(m);
    if !InRegion(h.mem, a, n) then Undefined
    else
      var v := Extended(m, Load(h.mem, a, n));
      Running((if m == FLW then h.PutF(RdOf(w), v) else h.Put(RdOf(w), v)).Next())
  }

  ghost function ExecStore(h: Hart, m: InsnMnemonic, w: u32): Outcome {
    var a, n := StoreAddress(h, w), AccessSize(m);
    if !InRegion(h.mem, a, n) then Undefined
    else
      var v := if m == FSW then h.F(Rs2Of(w)) else h.X(Rs2Of(w));
      Running(h.(mem := Store(h.mem, a, n, v)).Next())
  }

  // ---------------------------------------------------------------- system calls

  const SYS_READ: nat := 63
  const SYS_WRITE: nat := 64
  const SYS_EXIT: nat := 93

  /** As much of the data as was asked for. */
  function Cut(data: seq<byte>, size: nat): seq<byte> { if |data| <= size then data else data[..size] }

  /** At most size bytes go to the buffer at a. */
  ghost function ExecRead(h: Hart, fd: int, a: nat, size: nat, reply: HostReply): Outcome {
    var h' := h.(calls := h.calls + [ReadCall(fd, size)]);
    match reply
    case Failed => Running(h'.Put(10, Wrap(-1)).Next())
    case Done(data) =>
      var bs := Cut(data, size);
      if !AllMapped(h.mem, a, |bs|) then Undefined
      else Running(h'.(mem := WriteWrapped(h.mem, a, bs)).Put(10, Wrap(|bs|)).Next())
  }

  ghost function ExecWrite(h: Hart, fd: int, a: nat, size: nat, reply: HostReply): Outcome {
    if !AllMapped(h.mem, a, size) then Undefined
    else
      var h' := h.(calls := h.calls + [WriteCall(fd, ReadWrapped(h.mem, a, size))]);
      Running(h'.Put(10, match reply case Failed => Wrap(-1) case Done(data) => Wrap(|Cut(data, size)|)).Next())
  }

  ghost function ExecSyscall(h: Hart, reply: HostReply): Outcome {
    var id, fd, a, size := h.X(17), Signed(h.X(10)), h.X(11), h.X(12);
    if id == SYS_EXIT then Running(h.(stopped := true).Next())
    else if id == SYS_READ then ExecRead(h, fd, a, size, reply)
    else if id == SYS_WRITE then ExecWrite(h, fd, a, size, reply)
    else Undefined
  }

  // -------------------------------------------------------------------------- CSRs

  function ReadCsr(h: Hart, csr: nat): u32 {
    Wrap(if csr == CSR_FFLAGS then h.fflags else if csr == CSR_FRM then h.frm else 32 * h.frm + h.fflags)
  }

  function WriteCsr(h: Hart, csr: nat, v: u32): Hart {
    if csr == CSR_FFLAGS then h.(fflags := v % 32)
    else if csr == CSR_FRM then h.(frm := v % 8)
    else h.(frm := v / 32 % 8, fflags := v % 32)
  }

  function CsrOperation(m: InsnMnemonic, was: u32, v: u32): u32 {
    if m == CSRRW || m == CSRRWI then v
    else if m == CSRRS || m == CSRRSI then Or32(was, v)
    else And(was, Not(v))
  }

  function ExecCsr(h: Hart, m: InsnMnemonic, w: u32): Outcome {
    var csr := CsrOf(w);
    if csr != CSR_FFLAGS && csr != CSR_FRM && csr != CSR_FCSR then Undefined
    else
      var was := ReadCsr(h, csr);
      var v := if m <= CSRRC then h.X(Rs1Of(w)) else Rs1Of(w);
      Running(WriteCsr(h, csr, CsrOperation(m, was, v)).Put(RdOf(w), was).Next())
  }

  // -------------------------------------------------------------- floating point

  /** The rounding mode an instruction asks for: its own, or that of frm. */
  function AskedMode(h: Hart, w: u32): nat { if RmOf(w) == 7 then h.frm else RmOf(w) }

  /** The library's mode after it was asked for mode r; 5 and 6 are no modes and leave it. */
  function SetMode(mode: Rounding, r: nat): Rounding {
    match r
    case 0 => NearEven case 1 => MinMag case 2 => Min case 3 => Max case 4 => NearMaxMag
    case _ => mode
  }

  function Accrue(h: Hart, flags: nat): Hart { h.(fflags := Or(h.fflags, flags % 32)) }

  datatype Dest = IntReg(r: nat) | FloatReg(r: nat)

  /** How every floating-point instruction ends: library mode, result, accrued flags, next instruction. */
  function FpFinish(h: Hart, mode: Rounding, dest: Dest, v: u32, flags: nat): Hart {
    var g := h.(mode := mode);
    Accrue(if dest.IntReg? then g.Put(dest.r, v) else g.PutF(dest.r, v), flags).Next()
  }

  function Negated(v: u32): u32 { Wrap(v + 0x8000_0000) }

  function FpArithmetic(m: InsnMnemonic): FpOp {
    if m == FADD_S then FpAdd else if m == FSUB_S then FpSub else if m == FMUL_S then FpMul
    else if m == FDIV_S then FpDiv else if m == FSQRT_S then FpSqrt else FpMulAdd
  }

  function FpValue(sf: SoftFloat, mode: Rounding, m: InsnMnemonic, a: u32, b: u32, c: u32): FpResult {
    if m <= FDIV_S then sf(FpArithmetic(m), mode, a, b, 0)
    else if m == FSQRT_S then sf(FpSqrt, mode, a, 0, 0)
    else if m == FMADD_S then sf(FpMulAdd, mode, a, b, c)
    else if m == FMSUB_S then sf(FpMulAdd, mode, a, b, Negated(c))
    else if m == FNMSUB_S then sf(FpMulAdd, mode, Negated(a), b, c)
    else
      var r := sf(FpMulAdd, mode, a, b, c);
      r.(value := Negated(r.value))
  }

  /** Arithmetic: FADD_S .. FNMADD_S. */
  function ExecFpArith(sf: SoftFloat, h: Hart, m: InsnMnemonic, w: u32): Outcome {
    if AskedMode(h, w) == 7 then Undefined
    else
      var mode := SetMode(h.mode, AskedMode(h, w));
      var r := FpValue(sf, mode, m, h.F(Rs1Of(w)), h.F(Rs2Of(w)), h.F(Rs3Of(w)));
      Running(FpFinish(h, mode, FloatReg(RdOf(w)), r.value, r.flags))
  }

  /** The sign of the second operand, its opposite or the product of both signs, on the first's magnitude. */
  function InjectSign(m: InsnMnemonic, a: u32, b: u32): u32 {
    var negative := if m == FSGNJ_S then b >= 0x8000_0000
                    else if m == FSGNJN_S then b < 0x8000_0000
                    else (a >= 0x8000_0000) != (b >= 0x8000_0000);
    a % 0x8000_0000 + if negative then 0x8000_0000 else 0
  }

  function LessEqual(sf: SoftFloat, mode: Rounding, a: u32, b: u32): bool { sf(FpLe, mode, a, b, 0).value != 0 }

  /** FSGNJ_S .. FMAX_S. */
  function ExecFpSelect(sf: SoftFloat, h: Hart, m: InsnMnemonic, w: u32): Outcome {
    var a, b := h.F(Rs1Of(w)), h.F(Rs2Of(w));
    var v := if m == FMIN_S then (if LessEqual(sf, h.mode, a, b) then a else b)
             else if m == FMAX_S then (if LessEqual(sf, h.mode, a, b) then b else a)
             else InjectSign(m, a, b);
    Running(FpFinish(h, h.mode, FloatReg(RdOf(w)), v, 0))
  }

  function ExecFpCompare(sf: SoftFloat, h: Hart, m: InsnMnemonic, w: u32): Outcome {
    var op := if m == FLE_S then FpLe else if m == FLT_S then FpLt else FpEq;
    var r := sf(op, h.mode, h.F(Rs1Of(w)), h.F(Rs2Of(w)), 0);
    Running(FpFinish(h, h.mode, IntReg(RdOf(w)), Flag(r.value != 0), r.flags))
  }

  /** The bit number of the class of a single-precision value. */
  function FloatClass(v: u32): nat {
    var negative, exponent, fraction := v >= 0x8000_0000, v / 0x80_0000 % 256, v % 0x80_0000;
    if exponent == 255 then
      (if fraction == 0 then (if negative then 0 else 7) else if fraction < 0x40_0000 then 8 else 9)
    else if exponent != 0 then (if negative then 1 else 6)
    else if fraction != 0 then (if negative then 2 else 5)
    else (if negative then 3 else 4)
  }

  /** FCVT_W_S .. FMV_W_X; conversions from integers round in the mode that happens to be set. */
  function ExecFpConvert(sf: SoftFloat, h: Hart, m: InsnMnemonic, w: u32): Outcome {
    var a, x := h.F(Rs1Of(w)), h.X(Rs1Of(w));
    if m == FCVT_W_S || m == FCVT_WU_S then
      if AskedMode(h, w) == 7 then Undefined
      else
        var mode := SetMode(h.mode, AskedMode(h, w));
        var r := sf(if m == FCVT_W_S then FpToI32 else FpToUi32, SetMode(NearEven, AskedMode(h, w)), a, 0, 0);
        Running(FpFinish(h, mode, IntReg(RdOf(w)), r.value, r.flags))
    else if m == FCVT_S_W || m == FCVT_S_WU then
      var r := sf(if m == FCVT_S_W then FpFromI32 else FpFromUi32, h.mode, x, 0, 0);
      Running(FpFinish(h, h.mode, FloatReg(RdOf(w)), r.value, r.flags))
    else if m == FMV_X_W then Running(FpFinish(h, h.mode, IntReg(RdOf(w)), a, 0))
    else if m == FCLASS_S then Running(FpFinish(h, h.mode, IntReg(RdOf(w)), Wrap(Pow2(FloatClass(a))), 0))
    else Running(FpFinish(h, h.mode, FloatReg(RdOf(w)), x, 0))
  }

  // ------------------------------------------------------------------- steps, runs

  ghost function Exec(sf: SoftFloat, h: Hart, m: InsnMnemonic, w: u32, reply: HostReply): Outcome {
    if m <= AUIPC || ADDI <= m <= AND || MUL <= m <= ORC_B then ExecInteger(h, m, w)
    else if m <= BGEU then ExecJump(h, m, w)
    else if m <= LHU || m == FLW then ExecLoad(h, m, w)
    else if m <= SW || m == FSW then ExecStore(h, m, w)
    else if m == ECALL then ExecSyscall(h, reply)
    else if m <= EBREAK then Running(h.Next())
    else if m <= CSRRCI then ExecCsr(h, m, w)
    else if m <= FNMADD_S then ExecFpArith(sf, h, m, w)
    else if m <= FMAX_S then ExecFpSelect(sf, h, m, w)
    else if m <= FEQ_S then ExecFpCompare(sf, h, m, w)
    else ExecFpConvert(sf, h, m, w)
  }

  /** Fetch, decode by the opcode maps, execute. */
  ghost function Step(sf: SoftFloat, h: Hart, reply: HostReply): Outcome {
    if !InRegion(h.mem, h.pc, 4) then Undefined
    else
      LoadWord(h.mem, h.pc);
      var w: u32 := Load(h.mem, h.pc, 4);
      if OpcodeDecode(w) == INVALID then Illegal(h) else Exec(sf, h, OpcodeDecode(w), w, reply)
  }

  /** As many steps as there are replies, up to the first stop; a reply is used only by a system call. */
  ghost function Run(sf: SoftFloat, h: Hart, replies: seq<HostReply>): Outcome
    decreases |replies|
  {
    if replies == [] || h.stopped then Running(h)
    else
      match Step(sf, h, replies[0])
      case Running(h') => Run(sf, h', replies[1..])
      case Illegal(h') => Illegal(h')
      case Undefined => Undefined
  }
}
