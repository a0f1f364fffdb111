/** The instruction set: mnemonics, mask/match rows and the ISA's opcode maps. */
module InstructionSet {
  import opened Bits

  /** The enumerators by value; 99 rows, then `kCount` and `kInvalid`. */
  type InsnMnemonic = m: int | 0 <= m <= 100

  const LUI: InsnMnemonic := 0 const AUIPC: InsnMnemonic := 1 const JAL: InsnMnemonic := 2
  const JALR: InsnMnemonic := 3 const BEQ: InsnMnemonic := 4 const BNE: InsnMnemonic := 5
  const BLT: InsnMnemonic := 6 const BGE: InsnMnemonic := 7 const BLTU: InsnMnemonic := 8
  const BGEU: InsnMnemonic := 9 const LB: InsnMnemonic := 10 const LH: InsnMnemonic := 11
  const LW: InsnMnemonic := 12 const LBU: InsnMnemonic := 13 const LHU: InsnMnemonic := 14
  const SB: InsnMnemonic := 15 const SH: InsnMnemonic := 16 const SW: InsnMnemonic := 17
  const ADDI: InsnMnemonic := 18 const SLTI: InsnMnemonic := 19 const SLTIU: InsnMnemonic := 20
  const XORI: InsnMnemonic := 21 const ORI: InsnMnemonic := 22 const ANDI: InsnMnemonic := 23
  const SLLI: InsnMnemonic := 24 const SRLI: InsnMnemonic := 25 const SRAI: InsnMnemonic := 26
  const ADD: InsnMnemonic := 27 const SUB: InsnMnemonic := 28 const SLL: InsnMnemonic := 29
  const SLT: InsnMnemonic := 30 const SLTU: InsnMnemonic := 31 const XOR: InsnMnemonic := 32
  const SRL: InsnMnemonic := 33 const SRA: InsnMnemonic := 34 const OR: InsnMnemonic := 35
  const AND: InsnMnemonic := 36 const FENCE: InsnMnemonic := 37 const FENCE_I: InsnMnemonic := 38
  const ECALL: InsnMnemonic := 39 const EBREAK: InsnMnemonic := 40 const MUL: InsnMnemonic := 41
  const MULH: InsnMnemonic := 42 const MULHSU: InsnMnemonic := 43 const MULHU: InsnMnemonic := 44
  const DIV: InsnMnemonic := 45 const DIVU: InsnMnemonic := 46 const REM: InsnMnemonic := 47
  const REMU: InsnMnemonic := 48 const ANDN: InsnMnemonic := 49 const ORN: InsnMnemonic := 50
  const XNOR: InsnMnemonic := 51 const MIN: InsnMnemonic := 52 const MINU: InsnMnemonic := 53
  const MAX: InsnMnemonic := 54 const MAXU: InsnMnemonic := 55 const SEXT_B: InsnMnemonic := 56
  const SEXT_H: InsnMnemonic := 57 const ZEXT_H: InsnMnemonic := 58 const CLZ: InsnMnemonic := 59
  const CTZ: InsnMnemonic := 60 const CPOP: InsnMnemonic := 61 const ROL: InsnMnemonic := 62
  const ROR: InsnMnemonic := 63 const RORI: InsnMnemonic := 64 const REV8: InsnMnemonic := 65
  const ORC_B: InsnMnemonic := 66 const CSRRW: InsnMnemonic := 67 const CSRRS: InsnMnemonic := 68
  const CSRRC: InsnMnemonic := 69 const CSRRWI: InsnMnemonic := 70 const CSRRSI: InsnMnemonic := 71
  const CSRRCI: InsnMnemonic := 72 const FLW: InsnMnemonic := 73 const FSW: InsnMnemonic := 74
  const FADD_S: InsnMnemonic := 75 const FSUB_S: InsnMnemonic := 76 const FMUL_S: InsnMnemonic := 77
  const FDIV_S: InsnMnemonic := 78 const FSQRT_S: InsnMnemonic := 79 const FMADD_S: InsnMnemonic := 80
  const FMSUB_S: InsnMnemonic := 81 const FNMSUB_S: InsnMnemonic := 82 const FNMADD_S: InsnMnemonic := 83
  const FSGNJ_S: InsnMnemonic := 84 const FSGNJN_S: InsnMnemonic := 85 const FSGNJX_S: InsnMnemonic := 86
  const FMIN_S: InsnMnemonic := 87 const FMAX_S: InsnMnemonic := 88 const FLE_S: InsnMnemonic := 89
  const FLT_S: InsnMnemonic := 90 const FEQ_S: InsnMnemonic := 91 const FCVT_W_S: InsnMnemonic := 92
  const FCVT_WU_S: InsnMnemonic := 93 const FCVT_S_W: InsnMnemonic := 94 const FCVT_S_WU: InsnMnemonic := 95
  const FMV_X_W: InsnMnemonic := 96 const FCLASS_S: InsnMnemonic := 97 const FMV_W_X: InsnMnemonic := 98
  const INVALID: InsnMnemonic := 100

  const COUNT := 99

  const CSR_FFLAGS: nat := 1
  const CSR_FRM: nat := 2
  const CSR_FCSR: nat := 3

  // ------------------------------------------------ rows and the fields they compare

  datatype Fields = Fields(opcode: int, funct3: int, funct7: int, rs2: int, word: int)

  function FieldsOf(w: u32): Fields {
    Fields(w % 128, w / 0x1000 % 8, w / 0x200_0000, w / 0x10_0000 % 32, w)
  }

  predicate HasFunct3(mask: u32) { mask == 0x707f || mask == 0xfe00707f || mask == 0xfff0707f }

  predicate HasFunct7(mask: u32) {
    mask == 0xfe00007f || mask == 0xfff0007f || mask == 0xfe00707f || mask == 0xfff0707f
  }

  predicate HasRs2(mask: u32) { mask == 0xfff0007f || mask == 0xfff0707f }

  predicate KnownMask(mask: u32) {
    HasFunct3(mask) || HasFunct7(mask) || mask == 0x7f || mask == 0x600007f || mask == 0xffffffff
  }

  /** What a mask keeps of the fields of a word. */
  function Masked(mask: u32, f: Fields): int
    requires KnownMask(mask)
  {
    if mask == 0xffffffff then f.word else
      f.opcode
      + (if HasFunct3(mask) then 0x1000 * f.funct3 else 0)
      + (if HasFunct7(mask) then 0x200_0000 * f.funct7 else 0)
      + (if HasRs2(mask) then 0x10_0000 * f.rs2 else 0)
      + (if mask == 0x600007f then 0x200_0000 * (f.funct7 % 4) else 0)
  }

  /** The operand layouts: which fields of the word the mask of a row leaves to the operands. */
  datatype Format =
    | FormatR | FormatI | FormatS | FormatB | FormatU | FormatJ
    | FormatUnary  // rd, rs1
    | FormatCsr    // rd, rs1, unsigned number of the CSR
    | FormatBare   // no operands
    | FormatFloat  // rd, rs1, rs2, rounding mode
    | FormatFloatUnary
    | FormatFused  // rd, rs1, rs2, rs3, rounding mode

  /** Shifts by a constant are R-format: their shift amount sits in the rs2 field. */
  function FormatOf(m: InsnMnemonic): Format {
    if m <= AUIPC then FormatU
    else if m == JAL then FormatJ
    else if m == JALR then FormatI
    else if m <= BGEU then FormatB
    else if m <= LHU then FormatI
    else if m <= SW then FormatS
    else if m <= ANDI then FormatI
    else if m <= AND then FormatR
    else if m <= FENCE_I then FormatI
    else if m <= EBREAK then FormatBare
    else if m <= MAXU || m == ZEXT_H || ROL <= m <= RORI then FormatR
    else if m <= ORC_B then FormatUnary
    else if m <= CSRRCI then FormatCsr
    else if m == FLW then FormatI
    else if m == FSW then FormatS
    else if m <= FDIV_S then FormatFloat
    else if m == FSQRT_S then FormatFloatUnary
    else if m <= FNMADD_S then FormatFused
    else if m <= FEQ_S then FormatR
    else if m <= FCVT_S_WU then FormatFloatUnary
    else FormatUnary
  }

  function MaskOf(format: Format): u32 {
    match format
    case FormatU => 0x7f
    case FormatJ => 0x7f
    case FormatR => 0xfe00707f
    case FormatUnary => 0xfff0707f
    case FormatBare => 0xffffffff
    case FormatFloat => 0xfe00007f
    case FormatFloatUnary => 0xfff0007f
    case FormatFused => 0x600007f
    case _ => 0x707f
  }

  datatype InsnRow = InsnRow(mnem: InsnMnemonic, mask: u32, bits: u32)

  /**
   A row whose mask fits its operand layout and whose bits are zero wherever the mask is; checked row
   by row in the lists below.
   */
  type InsnEntry = r: InsnRow | r.mask == MaskOf(FormatOf(r.mnem)) && Masked(r.mask, FieldsOf(r.bits)) == r.bits
    witness InsnRow(0, 0x7f, 0x37)

  const I_UPPER: seq<InsnEntry> := [
    InsnRow(LUI, 0x7f, 0x37),
    InsnRow(AUIPC, 0x7f, 0x17)
  ]

  const I_JUMP: seq<InsnEntry> := [
    InsnRow(JAL, 0x7f, 0x6f),
    InsnRow(JALR, 0x707f, 0x67)
  ]

  const I_BRANCH: seq<InsnEntry> := [
    InsnRow(BEQ, 0x707f, 0x63),
    InsnRow(BNE, 0x707f, 0x1063),
    InsnRow(BLT, 0x707f, 0x4063),
    InsnRow(BGE, 0x707f, 0x5063),
    InsnRow(BLTU, 0x707f, 0x6063),
    InsnRow(BGEU, 0x707f, 0x7063)
  ]

  const I_LOAD: seq<InsnEntry> := [
    InsnRow(LB, 0x707f, 0x3),
    InsnRow(LH, 0x707f, 0x1003),
    InsnRow(LW, 0x707f, 0x2003),
    InsnRow(LBU, 0x707f, 0x4003),
    InsnRow(LHU, 0x707f, 0x5003)
  ]

  const I_STORE: seq<InsnEntry> := [
    InsnRow(SB, 0x707f, 0x23),
    InsnRow(SH, 0x707f, 0x1023),
    InsnRow(SW, 0x707f, 0x2023)
  ]

  const I_IMM: seq<InsnEntry> := [
    InsnRow(ADDI, 0x707f, 0x13),
    InsnRow(SLTI, 0x707f, 0x2013),
    InsnRow(SLTIU, 0x707f, 0x3013),
    InsnRow(XORI, 0x707f, 0x4013),
    InsnRow(ORI, 0x707f, 0x6013),
    InsnRow(ANDI, 0x707f, 0x7013)
  ]

  const I_SHIFT: seq<InsnEntry> := [
    InsnRow(SLLI, 0xfe00707f, 0x1013),
    InsnRow(SRLI, 0xfe00707f, 0x5013),
    InsnRow(SRAI, 0xfe00707f, 0x40005013)
  ]

  const I_REG_ADD: seq<InsnEntry> := [
    InsnRow(ADD, 0xfe00707f, 0x33),
    InsnRow(SUB, 0xfe00707f, 0x40000033),
    InsnRow(SLL, 0xfe00707f, 0x1033),
    InsnRow(SLT, 0xfe00707f, 0x2033),
    InsnRow(SLTU, 0xfe00707f, 0x3033)
  ]

  const I_REG_LOGIC: seq<InsnEntry> := [
    InsnRow(XOR, 0xfe00707f, 0x4033),
    InsnRow(SRL, 0xfe00707f, 0x5033),
    InsnRow(SRA, 0xfe00707f, 0x40005033),
    InsnRow(OR, 0xfe00707f, 0x6033),
    InsnRow(AND, 0xfe00707f, 0x7033)
  ]

  const I_SYSTEM: seq<InsnEntry> := [
    InsnRow(FENCE, 0x707f, 0xf),
    InsnRow(FENCE_I, 0x707f, 0x100f),
    InsnRow(ECALL, 0xffffffff, 0x73),
    InsnRow(EBREAK, 0xffffffff, 0x100073)
  ]

  const I_ROWS: seq<InsnEntry> :=
    I_UPPER + I_JUMP + I_BRANCH + I_LOAD + I_STORE + I_IMM + I_SHIFT + I_REG_ADD + I_REG_LOGIC + I_SYSTEM

  const M_MUL: seq<InsnEntry> := [
    InsnRow(MUL, 0xfe00707f, 0x2000033),
    InsnRow(MULH, 0xfe00707f, 0x2001033),
    InsnRow(MULHSU, 0xfe00707f, 0x2002033),
    InsnRow(MULHU, 0xfe00707f, 0x2003033)
  ]

  const M_DIV: seq<InsnEntry> := [
    InsnRow(DIV, 0xfe00707f, 0x2004033),
    InsnRow(DIVU, 0xfe00707f, 0x2005033)
  ]

  const M_REM: seq<InsnEntry> := [
    InsnRow(REM, 0xfe00707f, 0x2006033),
    InsnRow(REMU, 0xfe00707f, 0x2007033)
  ]

  const M_ROWS: seq<InsnEntry> :=
    M_MUL + M_DIV + M_REM

  const ZBB_LOGIC: seq<InsnEntry> := [
    InsnRow(ANDN, 0xfe00707f, 0x40007033),
    InsnRow(ORN, 0xfe00707f, 0x40006033),
    InsnRow(XNOR, 0xfe00707f, 0x40004033)
  ]

  const ZBB_MINMAX: seq<InsnEntry> := [
    InsnRow(MIN, 0xfe00707f, 0xa004033),
    InsnRow(MINU, 0xfe00707f, 0xa005033),
    InsnRow(MAX, 0xfe00707f, 0xa006033),
    InsnRow(MAXU, 0xfe00707f, 0xa007033)
  ]

  const ZBB_EXTEND: seq<InsnEntry> := [
    InsnRow(SEXT_B, 0xfff0707f, 0x60401013),
    InsnRow(SEXT_H, 0xfff0707f, 0x60501013),
    InsnRow(ZEXT_H, 0xfe00707f, 0x8004033)
  ]

  const ZBB_COUNT: seq<InsnEntry> := [
    InsnRow(CLZ, 0xfff0707f, 0x60001013),
    InsnRow(CTZ, 0xfff0707f, 0x60101013),
    InsnRow(CPOP, 0xfff0707f, 0x60201013)
  ]

  const ZBB_ROTATE: seq<InsnEntry> := [
    InsnRow(ROL, 0xfe00707f, 0x60001033),
    InsnRow(ROR, 0xfe00707f, 0x60005033),
    InsnRow(RORI, 0xfe00707f, 0x60005013)
  ]

  const ZBB_BYTES: seq<InsnEntry> := [
    InsnRow(REV8, 0xfff0707f, 0x69805013),
    InsnRow(ORC_B, 0xfff0707f, 0x28705013)
  ]

  const ZBB_ROWS: seq<InsnEntry> :=
    ZBB_LOGIC + ZBB_MINMAX + ZBB_EXTEND + ZBB_COUNT + ZBB_ROTATE + ZBB_BYTES

  const ZICSR_ROWS: seq<InsnEntry> := [
    InsnRow(CSRRW, 0x707f, 0x1073),
    InsnRow(CSRRS, 0x707f, 0x2073),
    InsnRow(CSRRC, 0x707f, 0x3073),
    InsnRow(CSRRWI, 0x707f, 0x5073),
    InsnRow(CSRRSI, 0x707f, 0x6073),
    InsnRow(CSRRCI, 0x707f, 0x7073)
  ]

  const F_MEMORY: seq<InsnEntry> := [
    InsnRow(FLW, 0x707f, 0x2007),
    InsnRow(FSW, 0x707f, 0x2027)
  ]

  const F_ARITH: seq<InsnEntry> := [
    InsnRow(FADD_S, 0xfe00007f, 0x53),
    InsnRow(FSUB_S, 0xfe00007f, 0x8000053),
    InsnRow(FMUL_S, 0xfe00007f, 0x10000053),
    InsnRow(FDIV_S, 0xfe00007f, 0x18000053),
    InsnRow(FSQRT_S, 0xfff0007f, 0x58000053)
  ]

  const F_FUSED: seq<InsnEntry> := [
    InsnRow(FMADD_S, 0x600007f, 0x43),
    InsnRow(FMSUB_S, 0x600007f, 0x47),
    InsnRow(FNMSUB_S, 0x600007f, 0x4b),
    InsnRow(FNMADD_S, 0x600007f, 0x4f)
  ]

  const F_SIGN: seq<InsnEntry> := [
    InsnRow(FSGNJ_S, 0xfe00707f, 0x20000053),
    InsnRow(FSGNJN_S, 0xfe00707f, 0x20001053),
    InsnRow(FSGNJX_S, 0xfe00707f, 0x20002053),
    InsnRow(FMIN_S, 0xfe00707f, 0x28000053),
    InsnRow(FMAX_S, 0xfe00707f, 0x28001053)
  ]

  const F_COMPARE: seq<InsnEntry> := [
    InsnRow(FLE_S, 0xfe00707f, 0xa0000053),
    InsnRow(FLT_S, 0xfe00707f, 0xa0001053),
    InsnRow(FEQ_S, 0xfe00707f, 0xa0002053)
  ]

  const F_CONVERT: seq<InsnEntry> := [
    InsnRow(FCVT_W_S, 0xfff0007f, 0xc0000053),
    InsnRow(FCVT_WU_S, 0xfff0007f, 0xc0100053),
    InsnRow(FCVT_S_W, 0xfff0007f, 0xd0000053),
    InsnRow(FCVT_S_WU, 0xfff0007f, 0xd0100053)
  ]

  const F_MOVE: seq<InsnEntry> := [
    InsnRow(FMV_X_W, 0xfff0707f, 0xe0000053),
    InsnRow(FCLASS_S, 0xfff0707f, 0xe0001053),
    InsnRow(FMV_W_X, 0xfff0707f, 0xf0000053)
  ]

  const F_ROWS: seq<InsnEntry> :=
    F_MEMORY + F_ARITH + F_FUSED + F_SIGN + F_COMPARE + F_CONVERT + F_MOVE

  /** In the order in which the extensions are included. */
  const INSN_DECODE_TABLE: seq<InsnEntry> := I_ROWS + M_ROWS + ZBB_ROWS + ZICSR_ROWS + F_ROWS

  // ------------------------------------------------------- the ISA's opcode maps

  /** The instruction that a word encodes, read off opcode, funct3, funct7 and the rs2 field. */
  function IsaDecode(w: u32): InsnMnemonic { DecodeFields(FieldsOf(w)) }

  /** The same by a reader that takes the rs2 field of opcode 0x33 for an operand throughout, as the table does. */
  function OpcodeDecode(w: u32): InsnMnemonic { DecodeFields(WithoutRs2(FieldsOf(w))) }

  function WithoutRs2(f: Fields): Fields { if f.opcode == 0x33 then f.(rs2 := 0) else f }

  function DecodeFields(f: Fields): InsnMnemonic {
    var Fields(opcode, funct3, funct7, rs2, w) := f;
    if opcode == 0x37 then LUI
    else if opcode == 0x17 then AUIPC
    else if opcode == 0x6f then JAL
    else if opcode == 0x67 then (if funct3 == 0 then JALR else INVALID)
    else if opcode == 0x63 then DecodeBranch(funct3)
    else if opcode == 0x03 then DecodeLoad(funct3)
    else if opcode == 0x23 then (if funct3 == 0 then SB else if funct3 == 1 then SH else if funct3 == 2 then SW else INVALID)
    else if opcode == 0x13 then DecodeOpImm(funct3, funct7, rs2)
    else if opcode == 0x33 then DecodeOp(funct3, funct7, rs2)
    else if opcode == 0x0f then (if funct3 == 0 then FENCE else if funct3 == 1 then FENCE_I else INVALID)
    else if opcode == 0x73 then DecodeSystem(funct3, w)
    else if opcode == 0x07 then (if funct3 == 2 then FLW else INVALID)
    else if opcode == 0x27 then (if funct3 == 2 then FSW else INVALID)
    else if opcode == 0x53 then DecodeOpFp(funct3, funct7, rs2)
    else if funct7 % 4 != 0 then INVALID
    else if opcode == 0x43 then FMADD_S
    else if opcode == 0x47 then FMSUB_S
    else if opcode == 0x4b then FNMSUB_S
    else if opcode == 0x4f then FNMADD_S
    else INVALID
  }

  function DecodeBranch(funct3: int): InsnMnemonic {
    match funct3
    case 0 => BEQ case 1 => BNE case 4 => BLT case 5 => BGE case 6 => BLTU case 7 => BGEU
    case _ => INVALID
  }

  function DecodeLoad(funct3: int): InsnMnemonic {
    match funct3
    case 0 => LB case 1 => LH case 2 => LW case 4 => LBU case 5 => LHU
    case _ => INVALID
  }

  function DecodeOpImm(funct3: int, funct7: int, rs2: int): InsnMnemonic {
    match funct3
    case 0 => ADDI
    case 2 => SLTI
    case 3 => SLTIU
    case 4 => XORI
    case 6 => ORI
    case 7 => ANDI
    case 1 =>
      if funct7 == 0x00 then SLLI
      else if funct7 != 0x30 then INVALID
      else (match rs2 case 0 => CLZ case 1 => CTZ case 2 => CPOP case 4 => SEXT_B case 5 => SEXT_H case _ => INVALID)
    case _ =>
      if funct3 != 5 then INVALID
      else if funct7 == 0x00 then SRLI
      else if funct7 == 0x20 then SRAI
      else if funct7 == 0x30 then RORI
      else if funct7 == 0x34 && rs2 == 0x18 then REV8
      else if funct7 == 0x14 && rs2 == 0x07 then ORC_B
      else INVALID
  }

  function DecodeOp(funct3: int, funct7: int, rs2: int): InsnMnemonic {
    match funct7
    case 0x00 =>
      (match funct3 case 0 => ADD case 1 => SLL case 2 => SLT case 3 => SLTU case 4 => XOR case 5 => SRL
       case 6 => OR case 7 => AND case _ => INVALID)
    case 0x01 =>
      (match funct3 case 0 => MUL case 1 => MULH case 2 => MULHSU case 3 => MULHU case 4 => DIV case 5 => DIVU
       case 6 => REM case 7 => REMU case _ => INVALID)
    case 0x20 =>
      (match funct3 case 0 => SUB case 4 => XNOR case 5 => SRA case 6 => ORN case 7 => ANDN case _ => INVALID)
    case 0x04 => if funct3 == 4 && rs2 == 0 then ZEXT_H else INVALID
    case 0x05 => (match funct3 case 4 => MIN case 5 => MINU case 6 => MAX case 7 => MAXU case _ => INVALID)
    case 0x30 => if funct3 == 1 then ROL else if funct3 == 5 then ROR else INVALID
    case _ => INVALID
  }

  function DecodeSystem(funct3: int, w: int): InsnMnemonic {
    match funct3
    case 0 => if w == 0x73 then ECALL else if w == 0x10_0073 then EBREAK else INVALID
    case 1 => CSRRW case 2 => CSRRS case 3 => CSRRC case 5 => CSRRWI case 6 => CSRRSI case 7 => CSRRCI
    case _ => INVALID
  }

  function DecodeOpFp(funct3: int, funct7: int, rs2: int): InsnMnemonic {
    match funct7
    case 0x00 => FADD_S
    case 0x04 => FSUB_S
    case 0x08 => FMUL_S
    case 0x0c => FDIV_S
    case 0x2c => if rs2 == 0 then FSQRT_S else INVALID
    case 0x10 => if funct3 == 0 then FSGNJ_S else if funct3 == 1 then FSGNJN_S else if funct3 == 2 then FSGNJX_S else INVALID
    case 0x14 => if funct3 == 0 then FMIN_S else if funct3 == 1 then FMAX_S else INVALID
    case 0x50 => if funct3 == 0 then FLE_S else if funct3 == 1 then FLT_S else if funct3 == 2 then FEQ_S else INVALID
    case 0x60 => if rs2 == 0 then FCVT_W_S else if rs2 == 1 then FCVT_WU_S else INVALID
    case 0x68 => if rs2 == 0 then FCVT_S_W else if rs2 == 1 then FCVT_S_WU else INVALID
    case 0x70 => if rs2 != 0 then INVALID else if funct3 == 0 then FMV_X_W else if funct3 == 1 then FCLASS_S else INVALID
    case 0x78 => if rs2 == 0 && funct3 == 0 then FMV_W_X else INVALID
    case _ => INVALID
  }
}
