/**
 The encoder of section 2.3 of the RISC-V Unprivileged ISA, and the two-way round trip: the accessors
 read back the operands that were encoded, and encoding what the accessors read gives the word back.
 */
module Encoder {
  import opened Bits
  import opened RvInsn
  import opened InstructionSet
  import opened Decoder

  /** The operands of an instruction; those its format does not have are 0. */
  datatype Operands = Operands(rd: nat, rs1: nat, rs2: nat, rs3: nat, rm: nat, imm: int)

  /** The operands as the accessors of the instruction word classes read them. */
  function ReadOperands(format: Format, w: u32): Operands {
    match format
    case FormatR => Operands(Rd(w), Rs1(w), Rs2(w), 0, 0, 0)
    case FormatI => Operands(Rd(w), Rs1(w), 0, 0, 0, ImmI(w))
    case FormatS => Operands(0, Rs1(w), Rs2(w), 0, 0, ImmS(w))
    case FormatB => Operands(0, Rs1(w), Rs2(w), 0, 0, ImmB(w))
    case FormatU => Operands(Rd(w), 0, 0, 0, 0, ImmU(w))
    case FormatJ => Operands(Rd(w), 0, 0, 0, 0, ImmJ(w))
    case FormatUnary => Operands(Rd(w), Rs1(w), 0, 0, 0, 0)
    case FormatCsr => Operands(Rd(w), Rs1(w), 0, 0, 0, ImmCsr(w))
    case FormatBare => Operands(0, 0, 0, 0, 0, 0)
    case FormatFloat => Operands(Rd(w), Rs1(w), Rs2(w), 0, Rm(w), 0)
    case FormatFloatUnary => Operands(Rd(w), Rs1(w), 0, 0, Rm(w), 0)
    case FormatFused => Operands(Rd(w), Rs1(w), Rs2(w), Rs3(w), Rm(w), 0)
  }

  /** What the format can hold: register numbers, and the immediates of the ISA. */
  predicate Representable(format: Format, o: Operands) {
    && o.rd < 32 && o.rs1 < 32 && o.rs2 < 32 && o.rs3 < 32 && o.rm < 8
    && (format.FormatS? || format.FormatB? || format.FormatBare? ==> o.rd == 0)
    && (format.FormatU? || format.FormatJ? || format.FormatBare? ==> o.rs1 == 0)
    && (!format.FormatR? && !format.FormatS? && !format.FormatB? && !format.FormatFloat? && !format.FormatFused? ==> o.rs2 == 0)
    && (format != FormatFused ==> o.rs3 == 0)
    && (!format.FormatFloat? && !format.FormatFloatUnary? && !format.FormatFused? ==> o.rm == 0)
    && match format
       case FormatI => -0x800 <= o.imm < 0x800
       case FormatS => -0x800 <= o.imm < 0x800
       case FormatB => -0x1000 <= o.imm < 0x1000 && o.imm % 2 == 0
       case FormatU => -0x8000_0000 <= o.imm < 0x8000_0000 && o.imm % 0x1000 == 0
       case FormatJ => -0x10_0000 <= o.imm < 0x10_0000 && o.imm % 2 == 0
       case FormatCsr => 0 <= o.imm < 0x1000
       case _ => o.imm == 0
  }

  // ------------------------------------------------------ a word as its six fields

  datatype Layout = Layout(opcode: int, rd: int, funct3: int, rs1: int, rs2: int, funct7: int) {
    predicate Valid() {
      && 0 <= opcode < 128 && 0 <= rd < 32 && 0 <= funct3 < 8
      && 0 <= rs1 < 32 && 0 <= rs2 < 32 && 0 <= funct7 < 128
    }

    function Word(): (w: u32)
      requires Valid()
    {
      opcode + 0x80 * rd + 0x1000 * funct3 + 0x8000 * rs1 + 0x10_0000 * rs2 + 0x200_0000 * funct7
    }
  }

  function LayoutOf(w: u32): (l: Layout)
    ensures l.Valid()
  {
    Layout(w % 128, w / 0x80 % 32, w / 0x1000 % 8, w / 0x8000 % 32, w / 0x10_0000 % 32, w / 0x200_0000)
  }

  /** Dividing in one step or field by field. */
  lemma Quotients(w: u32)
    ensures w / 0x1000 == w / 0x80 / 32
    ensures w / 0x8000 == w / 0x1000 / 8
    ensures w / 0x10_0000 == w / 0x8000 / 32
    ensures w / 0x200_0000 == w / 0x10_0000 / 32
  {
    DivDiv(w, 0x80, 32);
    DivDiv(w, 0x1000, 8);
    DivDiv(w, 0x8000, 32);
    DivDiv(w, 0x10_0000, 32);
  }

  lemma Peel(x: int, a: int, k: nat, q: int)
    requires k > 0 && 0 <= a < k && x == a + k * q
    ensures x % k == a && x / k == q
  {
    DivUnique(x, k, q, a);
  }

  lemma LayoutOfWord(l: Layout)
    requires l.Valid()
    ensures LayoutOf(l.Word()) == l
  {
    var w := l.Word();
    Quotients(w);
    Peel(w, l.opcode, 128, l.rd + 32 * (l.funct3 + 8 * (l.rs1 + 32 * (l.rs2 + 32 * l.funct7))));
    Peel(w / 0x80, l.rd, 32, l.funct3 + 8 * (l.rs1 + 32 * (l.rs2 + 32 * l.funct7)));
    Peel(w / 0x1000, l.funct3, 8, l.rs1 + 32 * (l.rs2 + 32 * l.funct7));
    Peel(w / 0x8000, l.rs1, 32, l.rs2 + 32 * l.funct7);
    Peel(w / 0x10_0000, l.rs2, 32, l.funct7);
  }

  lemma WordOfLayout(w: u32)
    ensures LayoutOf(w).Word() == w
  {
    Quotients(w);
  }

  // -------------------------------------------------------- reading by field

  function JoinB(l: Layout): int { 4096 * (l.funct7 / 64) + 2048 * (l.rd % 2) + 32 * (l.funct7 % 64) + 2 * (l.rd / 2) }

  function JoinJ(l: Layout): int {
    0x10_0000 * (l.funct7 / 64) + 4096 * (l.funct3 + 8 * l.rs1) + 2048 * (l.rs2 % 2)
    + 2 * (16 * (l.funct7 % 64) + l.rs2 / 2)
  }

  function JoinU(l: Layout): int { 0x1000 * (l.funct3 + 8 * (l.rs1 + 32 * (l.rs2 + 32 * l.funct7))) }

  /** v as a number of 2h, read as two's complement. */
  function Sext(v: int, h: int): int { if v < h then v else v - 2 * h }

  function OperandsOf(format: Format, l: Layout): Operands
    requires l.Valid()
  {
    match format
    case FormatR => Operands(l.rd, l.rs1, l.rs2, 0, 0, 0)
    case FormatI => Operands(l.rd, l.rs1, 0, 0, 0, Sext(l.rs2 + 32 * l.funct7, 0x800))
    case FormatS => Operands(0, l.rs1, l.rs2, 0, 0, Sext(l.rd + 32 * l.funct7, 0x800))
    case FormatB => Operands(0, l.rs1, l.rs2, 0, 0, Sext(JoinB(l), 0x1000))
    case FormatU => Operands(l.rd, 0, 0, 0, 0, Sext(JoinU(l), 0x8000_0000))
    case FormatJ => Operands(l.rd, 0, 0, 0, 0, Sext(JoinJ(l), 0x10_0000))
    case FormatUnary => Operands(l.rd, l.rs1, 0, 0, 0, 0)
    case FormatCsr => Operands(l.rd, l.rs1, 0, 0, 0, l.rs2 + 32 * l.funct7)
    case FormatBare => Operands(0, 0, 0, 0, 0, 0)
    case FormatFloat => Operands(l.rd, l.rs1, l.rs2, 0, l.funct3, 0)
    case FormatFloatUnary => Operands(l.rd, l.rs1, 0, 0, l.funct3, 0)
    case FormatFused => Operands(l.rd, l.rs1, l.rs2, l.funct7 / 4, l.funct3, 0)
  }

  lemma HalfFields(w: u32)
    ensures w / 0x8000_0000 == w / 0x200_0000 / 64
    ensures w / 0x800_0000 == w / 0x200_0000 / 4
    ensures w / 0x100 % 16 == w / 0x80 % 32 / 2 && w / 0x80 % 2 == w / 0x80 % 32 % 2
    ensures w / 0x20_0000 == w / 0x10_0000 / 2 && w / 0x10_0000 % 2 == w / 0x10_0000 % 32 % 2
  {
    HighQuotients(w);
    SplitBelow(w, 0x80);
    SplitBelow(w, 0x10_0000);
  }

  lemma HighQuotients(w: u32)
    ensures w / 0x8000_0000 == w / 0x200_0000 / 64
    ensures w / 0x800_0000 == w / 0x200_0000 / 4
  {
    DivDiv(w, 0x200_0000, 64);
    DivDiv(w, 0x200_0000, 4);
  }

  lemma SplitBelow(w: u32, p: nat)
    requires p > 0
    ensures w / (2 * p) == w / p / 2
    ensures w / (2 * p) % 16 == w / p % 32 / 2 && w / p % 2 == w / p % 32 % 2
  {
    DivDouble(w, p);
    FiveBits(w / p);
  }

  lemma FiveBits(x: int)
    ensures x / 2 % 16 == x % 32 / 2 && x % 2 == x % 32 % 2
  {
  }

  lemma JoinIsImmB(w: u32)
    ensures IsaImmB(w) == Sext(JoinB(LayoutOf(w)), 0x1000)
  {
    HalfFields(w);
    assert w / 0x200_0000 < 128;
  }

  lemma JoinIsImmU(w: u32)
    ensures IsaImmU(w) == Sext(JoinU(LayoutOf(w)), 0x8000_0000)
  {
    Quotients(w);
    DivDiv(w, 0x80, 32);
    assert w - w % 4096 == 0x1000 * (w / 0x1000);
  }

  lemma JoinIsImmJ(w: u32)
    ensures IsaImmJ(w) == Sext(JoinJ(LayoutOf(w)), 0x10_0000)
  {
    BitsOfJ(w);
    HalfFields(w);
  }

  lemma BitsOfJ(w: u32)
    ensures w / 0x1000 % 256 == w / 0x1000 % 8 + 8 * (w / 0x8000 % 32)
    ensures w / 0x20_0000 % 1024 == 16 * (w / 0x200_0000 % 64) + w / 0x10_0000 % 32 / 2
  {
    Quotients(w);
    HalfFields(w);
    JoinLow(w / 0x1000);
    JoinHigh(w / 0x10_0000);
  }

  lemma JoinLow(x: int)
    ensures x % 256 == x % 8 + 8 * (x / 8 % 32)
  {
  }

  lemma JoinHigh(x: int)
    ensures x / 2 % 1024 == 16 * (x / 32 % 64) + x % 32 / 2
  {
    var q, r := x / 32, x % 32;
    Peel(x, r % 2, 2, 16 * q + r / 2);
    Peel(x / 2, 16 * (q % 64) + r / 2, 1024, q / 64);
  }

  /** The accessors read the operands off the fields. */
  lemma ReadsFields(format: Format, w: u32)
    ensures ReadOperands(format, w) == OperandsOf(format, LayoutOf(w))
  {
    hide Rd, Rs1, Rs2, Rs3, Rm, ImmI, ImmS, ImmB, ImmU, ImmJ, ImmCsr, IsaImmB, IsaImmJ, IsaImmU, JoinB, JoinJ, JoinU;
    Registers(w);
    ImmIValue(w);
    ImmSValue(w);
    ImmBValue(w);
    ImmUValue(w);
    ImmJValue(w);
    JoinIsImmB(w);
    JoinIsImmU(w);
    JoinIsImmJ(w);
    Quotients(w);
    HalfFields(w);
  }

  // -------------------------------------------------------------------- encoding

  /** Where the operands go; the fields a format does not give to operands come from the row. */
  function Place(row: Fields, format: Format, o: Operands): Layout {
    match format
    case FormatR => Layout(row.opcode, o.rd, row.funct3, o.rs1, o.rs2, row.funct7)
    case FormatI => Layout(row.opcode, o.rd, row.funct3, o.rs1, o.imm % 32, o.imm / 32 % 128)
    case FormatCsr => Layout(row.opcode, o.rd, row.funct3, o.rs1, o.imm % 32, o.imm / 32 % 128)
    case FormatS => Layout(row.opcode, o.imm % 32, row.funct3, o.rs1, o.rs2, o.imm / 32 % 128)
    case FormatB => PlaceB(row, o)
    case FormatU => PlaceU(row, o)
    case FormatJ => PlaceJ(row, o)
    case FormatUnary => Layout(row.opcode, o.rd, row.funct3, o.rs1, row.rs2, row.funct7)
    case FormatBare => LayoutOf(Wrap(row.word))
    case FormatFloat => Layout(row.opcode, o.rd, o.rm, o.rs1, o.rs2, row.funct7)
    case FormatFloatUnary => Layout(row.opcode, o.rd, o.rm, o.rs1, row.rs2, row.funct7)
    case FormatFused => Layout(row.opcode, o.rd, o.rm, o.rs1, o.rs2, o.rs3 * 4 + row.funct7 % 4)
  }

  function PlaceB(row: Fields, o: Operands): Layout {
    Layout(row.opcode, 2 * (o.imm / 2 % 16) + o.imm / 2048 % 2, row.funct3, o.rs1, o.rs2,
           64 * (o.imm / 4096 % 2) + o.imm / 32 % 64)
  }

  function PlaceU(row: Fields, o: Operands): Layout {
    var upper := o.imm / 0x1000;
    Layout(row.opcode, o.rd, upper % 8, upper / 8 % 32, upper / 256 % 32, upper / 8192 % 128)
  }

  function PlaceJ(row: Fields, o: Operands): Layout {
    Layout(row.opcode, o.rd, o.imm / 4096 % 8, o.imm / 0x8000 % 32, 2 * (o.imm / 2 % 16) + o.imm / 2048 % 2,
           64 * (o.imm / 0x10_0000 % 2) + o.imm / 32 % 64)
  }

  predicate RowInRange(row: Fields) {
    0 <= row.opcode < 128 && 0 <= row.funct3 < 8 && 0 <= row.funct7 < 128 && 0 <= row.rs2 < 32
  }

  lemma PlaceValid(row: Fields, format: Format, o: Operands)
    requires Representable(format, o) && RowInRange(row)
    ensures Place(row, format, o).Valid()
  {
  }

  function Encode(row: InsnEntry, o: Operands): u32
    requires Representable(FormatOf(row.mnem), o)
  {
    PlaceValid(FieldsOf(row.bits), FormatOf(row.mnem), o);
    Place(FieldsOf(row.bits), FormatOf(row.mnem), o).Word()
  }

  // ---------------------------------------------------------------- round trips

  lemma PiecesB(v: int)
    requires v % 2 == 0
    ensures v == 2 * (v / 2 % 16) + 32 * (v / 32 % 64) + 2048 * (v / 2048 % 2) + 4096 * (v / 4096)
  {
    DivDiv(v, 2, 16);
    DivDiv(v, 32, 64);
    DivDiv(v, 2048, 2);
  }

  lemma PiecesJ(v: int)
    ensures v / 4096 == v / 4096 % 8 + 8 * (v / 0x8000 % 32) + 256 * (v / 0x10_0000)
  {
    DivDiv(v, 4096, 8);
    DivDiv(v, 0x8000, 32);
  }

  lemma PiecesU(u: int)
    ensures u == u % 8 + 8 * (u / 8 % 32 + 32 * (u / 256 % 32 + 32 * (u / 8192)))
  {
    DivDiv(u, 8, 32);
    DivDiv(u, 256, 32);
  }

  lemma PlaceThenReadB(row: Fields, o: Operands)
    requires Representable(FormatB, o) && RowInRange(row)
    ensures PlaceB(row, o).Valid() && OperandsOf(FormatB, PlaceB(row, o)) == o
  {
    var v, l := o.imm, PlaceB(row, o);
    PiecesB(v);
    Peel(l.rd, v / 2048 % 2, 2, v / 2 % 16);
    Peel(l.funct7, v / 32 % 64, 64, v / 4096 % 2);
    assert v / 4096 == if v < 0 then -1 else 0;
  }

  lemma PlaceThenReadU(row: Fields, o: Operands)
    requires Representable(FormatU, o) && RowInRange(row)
    ensures PlaceU(row, o).Valid() && OperandsOf(FormatU, PlaceU(row, o)) == o
  {
    var u, l := o.imm / 0x1000, PlaceU(row, o);
    PiecesU(u);
    var n := u / 8192;
    assert n == (if o.imm < 0 then n % 128 - 128 else n % 128);
    hide FormatOf;
    assert JoinU(l) == 0x1000 * (u + 8192 * (l.funct7 - n));
  }

  lemma PlaceThenReadJ(row: Fields, o: Operands)
    requires Representable(FormatJ, o) && RowInRange(row)
    ensures PlaceJ(row, o).Valid() && OperandsOf(FormatJ, PlaceJ(row, o)) == o
  {
    var v, l := o.imm, PlaceJ(row, o);
    PiecesB(v);
    PiecesJ(v);
    Peel(l.rs2, v / 2048 % 2, 2, v / 2 % 16);
    Peel(l.funct7, v / 32 % 64, 64, v / 0x10_0000 % 2);
    assert v / 0x10_0000 == if v < 0 then -1 else 0;
  }

  lemma PlaceThenRead(row: Fields, format: Format, o: Operands)
    requires Representable(format, o) && RowInRange(row)
    ensures Place(row, format, o).Valid() && OperandsOf(format, Place(row, format, o)) == o
  {
    hide PlaceB, PlaceU, PlaceJ, JoinB, JoinU, JoinJ;
    match format {
      case FormatB => PlaceThenReadB(row, o);
      case FormatU => PlaceThenReadU(row, o);
      case FormatJ => PlaceThenReadJ(row, o);
      case _ =>
    }
  }

  /** What the operands and the row leave open is nothing: they determine the word. */
  lemma OperandsDetermineB(l: Layout, k: Layout)
    requires l.Valid() && k.Valid() && Sext(JoinB(l), 0x1000) == Sext(JoinB(k), 0x1000)
    ensures l.rd == k.rd && l.funct7 == k.funct7
  {
    DigitsUnique(l.rd / 2, l.funct7 % 64, l.rd % 2, l.funct7 / 64, k.rd / 2, k.funct7 % 64, k.rd % 2, k.funct7 / 64);
  }

  lemma DigitsUnique(a: int, b: int, c: int, d: int, a': int, b': int, c': int, d': int)
    requires 0 <= a < 16 && 0 <= b < 64 && 0 <= c < 2 && 0 <= d < 2
    requires 0 <= a' < 16 && 0 <= b' < 64 && 0 <= c' < 2 && 0 <= d' < 2
    requires a + 16 * b + 1024 * c + 2048 * d == a' + 16 * b' + 1024 * c' + 2048 * d'
    ensures a == a' && b == b' && c == c' && d == d'
  {
  }

  lemma OperandsDetermineJ(l: Layout, k: Layout)
    requires l.Valid() && k.Valid() && Sext(JoinJ(l), 0x10_0000) == Sext(JoinJ(k), 0x10_0000)
    ensures l.funct3 == k.funct3 && l.rs1 == k.rs1 && l.rs2 == k.rs2 && l.funct7 == k.funct7
  {
    hide JoinJ;
    DigitsOfJ(l);
    DigitsOfJ(k);
    assert JoinJ(l) == JoinJ(k);
    DigitsUnique(l.rs2 / 2, l.funct7 % 64, l.rs2 % 2, 0, k.rs2 / 2, k.funct7 % 64, k.rs2 % 2, 0);
  }

  lemma DigitsOfJ(l: Layout)
    requires l.Valid()
    ensures var v := JoinJ(l) / 2;
            && v % 2048 == l.rs2 / 2 + 16 * (l.funct7 % 64) + 1024 * (l.rs2 % 2)
            && v / 2048 % 8 == l.funct3 && v / 2048 / 8 % 32 == l.rs1 && v / 2048 / 8 / 32 == l.funct7 / 64
    ensures 0 <= JoinJ(l) < 0x20_0000 && JoinJ(l) % 2 == 0
  {
    var low, high := l.rs2 / 2 + 16 * (l.funct7 % 64) + 1024 * (l.rs2 % 2), l.funct7 / 64;
    var v := JoinJ(l) / 2;
    assert JoinJ(l) == 2 * (low + 2048 * (l.funct3 + 8 * (l.rs1 + 32 * high)));
    Peel(v, low, 2048, l.funct3 + 8 * (l.rs1 + 32 * high));
    Peel(v / 2048, l.funct3, 8, l.rs1 + 32 * high);
    Peel(v / 2048 / 8, l.rs1, 32, high);
  }

  /** The fields that the mask of a format covers. */
  predicate SameRowFields(format: Format, row: Fields, l: Layout) {
    if format == FormatBare then LayoutOf(Wrap(row.word)) == l
    else
      && row.opcode == l.opcode
      && (HasFunct3(MaskOf(format)) ==> row.funct3 == l.funct3)
      && (HasFunct7(MaskOf(format)) ==> row.funct7 == l.funct7)
      && (HasRs2(MaskOf(format)) ==> row.rs2 == l.rs2)
      && (format == FormatFused ==> row.funct7 % 4 == l.funct7 % 4)
  }

  lemma OperandsDetermine(format: Format, row: Fields, l: Layout, k: Layout)
    requires l.Valid() && k.Valid() && SameRowFields(format, row, l) && SameRowFields(format, row, k)
    requires OperandsOf(format, l) == OperandsOf(format, k)
    ensures l == k
  {
    hide JoinB, JoinJ;
    match format {
      case FormatB => OperandsDetermineB(l, k);
      case FormatJ => OperandsDetermineJ(l, k);
      case _ =>
    }
  }

  lemma OperandsRepresentable(format: Format, l: Layout)
    requires l.Valid()
    ensures Representable(format, OperandsOf(format, l))
  {
    SextRange(l.rs2 + 32 * l.funct7, 0x800);
    SextRange(l.rd + 32 * l.funct7, 0x800);
    RangeOfB(l);
    RangeOfU(l);
    RangeOfJ(l);
    hide JoinB, JoinJ, JoinU, Sext;
  }

  lemma SextRange(v: int, h: int)
    requires 0 <= v < 2 * h
    ensures -h <= Sext(v, h) < h
  {
  }

  lemma RangeOfB(l: Layout)
    requires l.Valid()
    ensures -0x1000 <= Sext(JoinB(l), 0x1000) < 0x1000 && Sext(JoinB(l), 0x1000) % 2 == 0
  {
    assert 0 <= JoinB(l) < 0x2000 && JoinB(l) % 2 == 0;
    hide JoinB;
  }

  lemma RangeOfU(l: Layout)
    requires l.Valid()
    ensures -0x8000_0000 <= Sext(JoinU(l), 0x8000_0000) < 0x8000_0000 && Sext(JoinU(l), 0x8000_0000) % 0x1000 == 0
  {
    assert 0 <= JoinU(l) < TWO32 && JoinU(l) % 0x1000 == 0;
    hide JoinU;
  }

  lemma RangeOfJ(l: Layout)
    requires l.Valid()
    ensures -0x10_0000 <= Sext(JoinJ(l), 0x10_0000) < 0x10_0000 && Sext(JoinJ(l), 0x10_0000) % 2 == 0
  {
    hide JoinJ;
    DigitsOfJ(l);
  }

  lemma PlaceKeepsRow(row: Fields, format: Format, o: Operands)
    requires Representable(format, o) && RowInRange(row)
    ensures SameRowFields(format, row, Place(row, format, o))
  {
  }

  lemma ReadThenPlace(row: Fields, format: Format, l: Layout)
    requires l.Valid() && RowInRange(row) && SameRowFields(format, row, l)
    ensures Representable(format, OperandsOf(format, l))
    ensures Place(row, format, OperandsOf(format, l)) == l
  {
    hide Place, OperandsOf, SameRowFields, Representable;
    OperandsRepresentable(format, l);
    var o := OperandsOf(format, l);
    PlaceThenRead(row, format, o);
    PlaceKeepsRow(row, format, o);
    OperandsDetermine(format, row, l, Place(row, format, o));
  }

  // ------------------------------------------------------------- main theorems

  /** A word with a row's fields matches the row, and the other way round. */
  lemma MatchesLayout(e: InsnEntry, w: u32)
    ensures Matches(e, w) <==> SameRowFields(FormatOf(e.mnem), FieldsOf(e.bits), LayoutOf(w))
  {
    hide And, FormatOf;
    AndMasked(e.mask, w);
    LayoutMatches(FormatOf(e.mnem), e.bits, w);
  }

  lemma FieldsOfLayout(w: u32)
    ensures var f, l := FieldsOf(w), LayoutOf(w);
            RowInRange(f) && f.opcode == l.opcode && f.funct3 == l.funct3 && f.rs2 == l.rs2 && f.funct7 == l.funct7
  {
  }

  lemma LayoutMatches(format: Format, bits: u32, w: u32)
    requires Masked(MaskOf(format), FieldsOf(bits)) == bits
    ensures Masked(MaskOf(format), FieldsOf(w)) == bits <==> SameRowFields(format, FieldsOf(bits), LayoutOf(w))
  {
    hide LayoutOf, FieldsOf, Masked, RowInRange, SameRowFields;
    if format == FormatBare {
      BareMatches(bits, w);
    } else {
      FieldsOfLayout(w);
      FieldsOfLayout(bits);
      FieldsMatch(format, FieldsOf(bits), FieldsOf(w), LayoutOf(w));
    }
  }

  lemma BareMatches(bits: u32, w: u32)
    ensures Masked(MaskOf(FormatBare), FieldsOf(w)) == bits
       <==> SameRowFields(FormatBare, FieldsOf(bits), LayoutOf(w))
  {
    hide LayoutOf;
    SameLayoutSameWord(w, bits);
  }

  lemma FieldsMatch(format: Format, f: Fields, g: Fields, l: Layout)
    requires format != FormatBare && RowInRange(f) && RowInRange(g)
    requires g.opcode == l.opcode && g.funct3 == l.funct3 && g.rs2 == l.rs2 && g.funct7 == l.funct7
    ensures Masked(MaskOf(format), g) == Masked(MaskOf(format), f) <==> SameRowFields(format, f, l)
  {
    FormatMask(format);
    hide Masked, MaskOf, KnownMask, HasFunct3, HasFunct7, HasRs2, RowInRange;
    MaskedInjective(MaskOf(format), g, f);
  }

  lemma SameLayoutSameWord(w: u32, v: u32)
    ensures LayoutOf(w) == LayoutOf(v) <==> w == v
  {
    hide LayoutOf;
    WordOfLayout(w);
    WordOfLayout(v);
  }

  lemma FormatMask(format: Format)
    ensures KnownMask(MaskOf(format))
    ensures MaskOf(format) == 0xffffffff <==> format == FormatBare
    ensures MaskOf(format) == 0x600007f <==> format == FormatFused
  {
  }

  lemma MaskedInjective(mask: u32, f: Fields, g: Fields)
    requires KnownMask(mask) && mask != 0xffffffff && RowInRange(f) && RowInRange(g)
    ensures Masked(mask, f) == Masked(mask, g) <==>
            && f.opcode == g.opcode
            && (HasFunct3(mask) ==> f.funct3 == g.funct3)
            && (HasFunct7(mask) ==> f.funct7 == g.funct7)
            && (HasRs2(mask) ==> f.rs2 == g.rs2)
            && (mask == 0x600007f ==> f.funct7 % 4 == g.funct7 % 4)
  {
    var a, a' := if HasFunct3(mask) then f.funct3 else 0, if HasFunct3(mask) then g.funct3 else 0;
    var r, r' := if HasRs2(mask) then f.rs2 else 0, if HasRs2(mask) then g.rs2 else 0;
    var c := if HasFunct7(mask) then f.funct7 else if mask == 0x600007f then f.funct7 % 4 else 0;
    var c' := if HasFunct7(mask) then g.funct7 else if mask == 0x600007f then g.funct7 % 4 else 0;
    FieldsUnique(f.opcode, a, r, c, g.opcode, a', r', c');
  }

  lemma FieldsUnique(a: int, b: int, c: int, d: int, a': int, b': int, c': int, d': int)
    requires 0 <= a < 128 && 0 <= b < 8 && 0 <= c < 32 && 0 <= d < 128
    requires 0 <= a' < 128 && 0 <= b' < 8 && 0 <= c' < 32 && 0 <= d' < 128
    ensures a + 0x1000 * b + 0x10_0000 * c + 0x200_0000 * d == a' + 0x1000 * b' + 0x10_0000 * c' + 0x200_0000 * d'
            <==> a == a' && b == b' && c == c' && d == d'
  {
  }

  /** Encoding operands, then scanning the table and reading the operands, gives both back. */
  lemma EncodeThenDecode(m: InsnMnemonic, o: Operands)
    requires m < COUNT && Representable(FormatOf(m), o)
    ensures FirstMatch(INSN_DECODE_TABLE, Encode(RowOf(m), o)) == m
    ensures ReadOperands(FormatOf(m), Encode(RowOf(m), o)) == o
  {
    hide INSN_DECODE_TABLE, FirstMatch, Matches, FormatOf, Representable, Place, OperandsOf, ReadOperands,
         SameRowFields, OpcodeDecode, RowOf;
    var e, format := RowOf(m), FormatOf(m);
    var row := FieldsOf(e.bits);
    PlaceValid(row, format, o);
    var l, w := Place(row, format, o), Encode(e, o);
    LayoutOfWord(l);
    PlaceKeepsRow(row, format, o);
    MatchesLayout(e, w);
    RowSelects(e, w);
    ScanIsDecode(w);
    ReadsFields(format, w);
    PlaceThenRead(row, format, o);
  }

  /** Decoding a word, reading its operands and encoding them gives the word back. */
  lemma DecodeThenEncode(w: u32)
    requires OpcodeDecode(w) != INVALID
    ensures FirstMatch(INSN_DECODE_TABLE, w) == OpcodeDecode(w) < COUNT
    ensures var m := OpcodeDecode(w);
            && Representable(FormatOf(m), ReadOperands(FormatOf(m), w))
            && Encode(RowOf(m), ReadOperands(FormatOf(m), w)) == w
  {
    hide INSN_DECODE_TABLE, FirstMatch, Matches, FormatOf, Representable, Place, OperandsOf, ReadOperands,
         SameRowFields, OpcodeDecode, RowOf;
    ScanIsDecode(w);
    DecodeRange(w);
    var e, format, l := RowOf(OpcodeDecode(w)), FormatOf(OpcodeDecode(w)), LayoutOf(w);
    var row := FieldsOf(e.bits);
    RowSelects(e, w);
    MatchesLayout(e, w);
    ReadsFields(format, w);
    ReadThenPlace(row, format, l);
    WordOfLayout(w);
  }
}
