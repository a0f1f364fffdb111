/**
 What system calls, CSR instructions and the instructions without effect leave behind, said without the
 functions of the reference semantics, as in `IntegerLaws`; and the end of a run.
 */
module SystemLaws {
  import opened Bits
  import opened Bytes
  import opened FlatMemory
  import opened InstructionSet
  import opened IsaState
  import opened IsaRuns
  import opened IntegerLaws
  import opened FloatLaws
  import opened MemoryLaws

  lemma SystemDecodes(w: u32)
    ensures w == 0x73 ==> OpcodeDecode(w) == ECALL
    ensures w == 0x10_0073 || HasOp(w, 0x0f, 0) || HasOp(w, 0x0f, 1) ==>
              FENCE <= OpcodeDecode(w) <= EBREAK && OpcodeDecode(w) != ECALL
    ensures w % 128 == 0x73 && w / 0x1000 % 8 in {1, 2, 3} ==> OpcodeDecode(w) == CSRRW + w / 0x1000 % 8 - 1
    ensures w % 128 == 0x73 && w / 0x1000 % 8 in {5, 6, 7} ==> OpcodeDecode(w) == CSRRWI + w / 0x1000 % 8 - 5
  {
  }

  /** FENCE, FENCE_I and EBREAK do nothing. */
  lemma PlainLaw(sf: SoftFloat, h: Hart, w: u32, reply: HostReply)
    requires w == 0x10_0073 || HasOp(w, 0x0f, 0) || HasOp(w, 0x0f, 1)
    ensures After(sf, h, w, reply) == Running(h.(pc := (h.pc + 4) % 0x1_0000_0000))
  {
    hide OpcodeDecode;
    SystemDecodes(w);
  }

  // ---------------------------------------------------------------- system calls

  lemma AfterCall(sf: SoftFloat, h: Hart, reply: HostReply)
    requires Ready(h)
    ensures After(sf, h, 0x73, reply) == ExecSyscall(h, reply)
    ensures h.X(17) == h.x[17] && h.X(10) == h.x[10] && h.X(11) == h.x[11] && h.X(12) == h.x[12]
  {
    hide OpcodeDecode, ExecSyscall;
    SystemDecodes(0x73);
  }

  /** Exit, number 93: the machine stops; every register, a0 among them, and the memory are as they were. */
  lemma ExitLaw(sf: SoftFloat, h: Hart, reply: HostReply)
    requires Ready(h) && h.x[17] == 93
    ensures After(sf, h, 0x73, reply) == Running(h.(stopped := true, pc := (h.pc + 4) % 0x1_0000_0000))
  {
    hide After, ExecRead, ExecWrite, Hart.X;
    AfterCall(sf, h, reply);
  }

  /** Any number but 63, 64 and 93 is an assert. */
  lemma UnknownCall(sf: SoftFloat, h: Hart, reply: HostReply)
    requires Ready(h) && h.x[17] !in {63, 64, 93}
    ensures After(sf, h, 0x73, reply) == Undefined
  {
    hide After, ExecRead, ExecWrite, Hart.X;
    AfterCall(sf, h, reply);
  }

  /** The first bytes from a on, around the end of the address space, are those of the data, all others as they were. */
  ghost predicate Received(m: FlatMem, m': FlatMem, a: nat, n: nat, data: seq<byte>)
    requires n <= |data|
  {
    && m'.owner == m.owner
    && forall b: nat :: b < 0x1_0000_0000 ==>
         Peek(m', b) == var i := (b - a) % 0x1_0000_0000; if i < n then data[i] else Peek(m, b)
  }

  function AtMost(n: nat, size: nat): nat { if n <= size then n else size }

  /** Read, number 63: as much as the host had and was asked for is in the buffer, a0 says how much; or a0 is -1. */
  lemma ReadLaw(sf: SoftFloat, h: Hart, reply: HostReply) returns (m: FlatMem)
    requires Ready(h) && h.x[17] == 63
    requires reply.Done? ==> AllMapped(h.mem, h.x[11], AtMost(|reply.data|, h.x[12]))
    ensures var a0: u32 := if reply.Done? then AtMost(|reply.data|, h.x[12]) else 0xffff_ffff;
            After(sf, h, 0x73, reply)
            == Running(h.(x := h.x[10 := a0], mem := m, calls := h.calls + [ReadCall(Int(h.x[10]), h.x[12])],
                          pc := (h.pc + 4) % 0x1_0000_0000))
    ensures reply.Failed? ==> m == h.mem
    ensures reply.Done? ==> Received(h.mem, m, h.x[11], AtMost(|reply.data|, h.x[12]), reply.data)
  {
    hide After, ExecWrite, AllMapped, WriteWrapped, Received, Int;
    AfterCall(sf, h, reply);
    IntIs(h.x[10]);
    match reply {
      case Failed => m := h.mem;
      case Done(data) =>
        var n := AtMost(|data|, h.x[12]);
        assert Cut(data, h.x[12]) == data[..n];
        m := WriteWrapped(h.mem, h.x[11], data[..n]);
        ReceivedBytes(h.mem, h.x[11], n, data);
    }
  }

  lemma ReceivedBytes(m: FlatMem, a: nat, n: nat, data: seq<byte>)
    requires n <= |data| && n < 0x1_0000_0000
    ensures Received(m, WriteWrapped(m, a, data[..n]), a, n, data)
  {
    hide WriteWrapped, Peek;
    forall b: nat | b < 0x1_0000_0000
      ensures Peek(WriteWrapped(m, a, data[..n]), b)
           == var i := (b - a) % 0x1_0000_0000; if i < n then data[i] else Peek(m, b)
    {
      WriteWrappedAt(m, a, data[..n], b);
    }
    WriteWrappedAt(m, a, data[..n], 0);
  }

  /** Write, number 64: the host gets the bytes of the buffer, a0 says how many it took, or is -1. */
  lemma WriteLaw(sf: SoftFloat, h: Hart, reply: HostReply) returns (bs: seq<byte>)
    requires Ready(h) && h.x[17] == 64 && AllMapped(h.mem, h.x[11], h.x[12])
    ensures var a0: u32 := if reply.Done? then AtMost(|reply.data|, h.x[12]) else 0xffff_ffff;
            After(sf, h, 0x73, reply)
            == Running(h.(x := h.x[10 := a0], calls := h.calls + [WriteCall(Int(h.x[10]), bs)],
                          pc := (h.pc + 4) % 0x1_0000_0000))
    ensures |bs| == h.x[12] && forall i :: 0 <= i < |bs| ==> bs[i] == Peek(h.mem, (h.x[11] + i) % 0x1_0000_0000)
  {
    hide After, ExecRead, AllMapped, Peek, Int;
    AfterCall(sf, h, reply);
    IntIs(h.x[10]);
    bs := ReadWrapped(h.mem, h.x[11], h.x[12]);
    hide ReadWrapped;
  }

  // ------------------------------------------------------------------------ CSRs

  predicate IsCsrWord(w: u32) { w % 128 == 0x73 && w / 0x1000 % 8 in {1, 2, 3, 5, 6, 7} }

  /** fflags, frm and fcsr by their numbers. */
  function Reading(h: Hart, csr: nat): nat {
    if csr == 1 then h.fflags else if csr == 2 then h.frm else 32 * h.frm + h.fflags
  }

  function FieldWidth(csr: nat): nat { if csr == 1 then 5 else if csr == 2 then 3 else 8 }

  /** The value of rs1, or its number for the immediate forms. */
  function Operand(h: Hart, w: u32): u32
    requires Ready(h)
  {
    if w / 0x1000 % 8 <= 3 then Src1(h, w) else w / 0x8000 % 32
  }

  /** Write, set, clear. */
  predicate CsrBit(funct3: nat, was: bool, operand: bool) {
    if funct3 % 4 == 1 then operand else if funct3 % 4 == 2 then was || operand else was && !operand
  }

  lemma FieldWidths()
    ensures Pow2(5) == 32 && Pow2(3) == 8 && Pow2(8) == 256
  {
    Pow2Values();
  }

  lemma NewReading(h: Hart, csr: nat, v: u32)
    requires csr in {1, 2, 3}
    ensures Reading(WriteCsr(h, csr, v), csr) == Low(v, FieldWidth(csr))
    ensures FieldsInRange(h) ==> FieldsInRange(WriteCsr(h, csr, v))
  {
    FieldWidths();
    hide Pow2;
    assert 32 * (v / 32 % 8) + v % 32 == v % 256;
  }

  lemma OldReading(h: Hart, csr: nat)
    requires csr in {1, 2, 3} && FieldsInRange(h)
    ensures ReadCsr(h, csr) == Reading(h, csr) < 0x100
  {
  }

  lemma OperationIs(m: InsnMnemonic, funct3: nat, was: u32, v: u32)
    requires funct3 in {1, 2, 3, 5, 6, 7}
    requires m == if funct3 <= 3 then CSRRW + funct3 - 1 else CSRRWI + funct3 - 5
    ensures CsrOperation(m, was, v)
         == if funct3 % 4 == 1 then v else if funct3 % 4 == 2 then Or32(was, v) else And(was, Not(v))
  {
    hide And, Or, Not;
  }

  lemma OperationBit(m: InsnMnemonic, funct3: nat, was: u32, v: u32, i: nat)
    requires i < 32 && funct3 in {1, 2, 3, 5, 6, 7}
    requires m == if funct3 <= 3 then CSRRW + funct3 - 1 else CSRRWI + funct3 - 5
    ensures Bit(CsrOperation(m, was, v), i) == 1 <==> CsrBit(funct3, Bit(was, i) == 1, Bit(v, i) == 1)
  {
    OperationIs(m, funct3, was, v);
    hide And, Or, Bit, Not, CsrOperation;
    BitwiseBits(was, v, i);
    BitwiseBits(was, Not(v), i);
    NotBits(v, i);
  }

  lemma AfterCsr(sf: SoftFloat, h: Hart, w: u32, reply: HostReply)
    requires IsCsrWord(w)
    ensures CSRRW <= OpcodeDecode(w) <= CSRRCI
    ensures OpcodeDecode(w)
         == if w / 0x1000 % 8 <= 3 then CSRRW + w / 0x1000 % 8 - 1 else CSRRWI + w / 0x1000 % 8 - 5
    ensures After(sf, h, w, reply) == ExecCsr(h, OpcodeDecode(w), w)
  {
    hide OpcodeDecode, ExecCsr;
    SystemDecodes(w);
  }

  /**
   rd gets the old reading; in the new one each bit of the field is the operand's, or the old bit joined with
   it, or the old bit without it.  The field that the CSR does not show stays, and so does all else.
   */
  lemma CsrLaw(sf: SoftFloat, h: Hart, w: u32, reply: HostReply) returns (g: Hart)
    requires Ready(h) && FieldsInRange(h) && IsCsrWord(w) && w / 0x10_0000 in {1, 2, 3}
    ensures After(sf, h, w, reply) == Running(g)
    ensures Reading(h, w / 0x10_0000) < 0x100
    ensures var was: u32 := Reading(h, w / 0x10_0000);
            g == h.(x := if Target(w) == 0 then h.x else h.x[Target(w) := was], frm := g.frm, fflags := g.fflags,
                    pc := (h.pc + 4) % 0x1_0000_0000)
    ensures FieldsInRange(g)
    ensures forall i :: 0 <= i < FieldWidth(w / 0x10_0000) ==>
              (Bit(Reading(g, w / 0x10_0000), i) == 1 <==>
               CsrBit(w / 0x1000 % 8, Bit(Reading(h, w / 0x10_0000), i) == 1, Bit(Operand(h, w), i) == 1))
    ensures w / 0x10_0000 == 1 ==> g.frm == h.frm
    ensures w / 0x10_0000 == 2 ==> g.fflags == h.fflags
  {
    hide After, OpcodeDecode, CsrOperation, ReadCsr, Bit, CsrBit, Low;
    AfterCsr(sf, h, w, reply);
    var csr := w / 0x10_0000;
    OldReading(h, csr);
    var v := CsrOperation(OpcodeDecode(w), ReadCsr(h, csr), Operand(h, w));
    g := After(sf, h, w, reply).h;
    NewReading(h, csr, v);
    forall i | 0 <= i < FieldWidth(csr)
      ensures Bit(Reading(g, csr), i) == 1 <==>
              CsrBit(w / 0x1000 % 8, Bit(Reading(h, csr), i) == 1, Bit(Operand(h, w), i) == 1)
    {
      LowBit(v, FieldWidth(csr), i);
      OperationBit(OpcodeDecode(w), w / 0x1000 % 8, Reading(h, csr), Operand(h, w), i);
    }
  }

  /** Any other number is an assert. */
  lemma UnknownCsr(sf: SoftFloat, h: Hart, w: u32, reply: HostReply)
    requires IsCsrWord(w)
    ensures After(sf, h, w, reply) == Undefined <==> w / 0x10_0000 !in {1, 2, 3}
  {
    hide After, OpcodeDecode, CsrOperation, ReadCsr, WriteCsr, Hart.X, Hart.Put;
    AfterCsr(sf, h, w, reply);
  }

  // ---------------------------------------------------------------- steps, runs

  predicate AcceptedImm(f3: nat, f7: nat, rs2: nat) {
    || f3 in {0, 2, 3, 4, 6, 7}
    || (f3 == 1 && (f7 == 0 || (f7 == 0x30 && rs2 in {0, 1, 2, 4, 5})))
    || (f3 == 5 && (f7 in {0, 0x20, 0x30} || (f7 == 0x34 && rs2 == 0x18) || (f7 == 0x14 && rs2 == 7)))
  }

  predicate AcceptedOp(f3: nat, f7: nat) {
    || f7 == 0 || f7 == 1 || (f7 == 0x20 && f3 in {0, 4, 5, 6, 7})
    || (f7 == 4 && f3 == 4) || (f7 == 5 && f3 >= 4) || (f7 == 0x30 && f3 in {1, 5})
  }

  predicate AcceptedFp(f3: nat, f7: nat, rs2: nat) {
    || f7 in {0, 4, 8, 0xc} || (f7 == 0x2c && rs2 == 0)
    || (f7 in {0x10, 0x50} && f3 <= 2) || (f7 == 0x14 && f3 <= 1)
    || (f7 in {0x60, 0x68} && rs2 <= 1) || (f7 == 0x70 && rs2 == 0 && f3 <= 1) || (f7 == 0x78 && rs2 == 0 && f3 == 0)
  }

  /** The words that the laws speak of, by opcode and fields. */
  predicate Accepted(w: u32) {
    var f3, f7, rs2 := w / 0x1000 % 8, w / 0x200_0000, w / 0x10_0000 % 32;
    match w % 128
    case 0x37 => true
    case 0x17 => true
    case 0x6f => true
    case 0x67 => f3 == 0
    case 0x63 => f3 != 2 && f3 != 3
    case 0x03 => f3 in {0, 1, 2, 4, 5}
    case 0x23 => f3 <= 2
    case 0x13 => AcceptedImm(f3, f7, rs2)
    case 0x33 => AcceptedOp(f3, f7)
    case 0x0f => f3 <= 1
    case 0x73 => w == 0x73 || w == 0x10_0073 || f3 in {1, 2, 3, 5, 6, 7}
    case 0x07 => f3 == 2
    case 0x27 => f3 == 2
    case 0x53 => AcceptedFp(f3, f7, rs2)
    case _ => Fused(w)
  }

  /** No other word is an instruction. */
  lemma AcceptedWords(w: u32)
    ensures OpcodeDecode(w) != INVALID <==> Accepted(w)
  {
    hide DecodeOpImm, DecodeOp, DecodeOpFp, AcceptedImm, AcceptedOp, AcceptedFp;
    AcceptedFields(w / 0x1000 % 8, w / 0x200_0000, w / 0x10_0000 % 32);
  }

  lemma AcceptedFields(f3: nat, f7: nat, rs2: nat)
    requires f3 < 8
    ensures DecodeOpImm(f3, f7, rs2) != INVALID <==> AcceptedImm(f3, f7, rs2)
    ensures DecodeOp(f3, f7, 0) != INVALID <==> AcceptedOp(f3, f7)
    ensures DecodeOpFp(f3, f7, rs2) != INVALID <==> AcceptedFp(f3, f7, rs2)
  {
  }

  /** A step fetches the word at the pc and does what its instruction does. */
  lemma StepIs(sf: SoftFloat, h: Hart, w: u32, reply: HostReply)
    requires InRegion(h.mem, h.pc, 4) && Word(h.mem, h.pc) == w && OpcodeDecode(w) != INVALID
    ensures Step(sf, h, reply) == After(sf, h, w, reply)
  {
    LoadedBytes(h.mem, h.pc);
    hide Exec, InRegion, Load, OpcodeDecode, Word;
  }

  /** A word that is no instruction is refused and changes nothing; outside the bytes of one segment nothing is defined. */
  lemma RefusedStep(sf: SoftFloat, h: Hart, w: u32, reply: HostReply)
    requires Word(h.mem, h.pc) == w
    ensures InRegion(h.mem, h.pc, 4) && OpcodeDecode(w) == INVALID ==> Step(sf, h, reply) == Illegal(h)
    ensures !InRegion(h.mem, h.pc, 4) ==> Step(sf, h, reply) == Undefined
  {
    LoadedBytes(h.mem, h.pc);
    hide Exec, InRegion, Load, OpcodeDecode, Word;
  }

  /**
   A run that comes to an ECALL with 93 in a7 ends there, with the a0 it had: that is the exit code, whatever
   would have come after.
   */
  lemma RunExits(sf: SoftFloat, g: Hart, first: seq<HostReply>, rest: seq<HostReply>, h: Hart)
    requires Run(sf, g, first) == Running(h) && !h.stopped && rest != []
    requires Ready(h) && h.x[17] == 93 && InRegion(h.mem, h.pc, 4) && Word(h.mem, h.pc) == 0x73
    ensures Run(sf, g, first + rest).Running? && Run(sf, g, first + rest).h.stopped
    ensures Run(sf, g, first + rest).h.X(10) == h.x[10]
    ensures Run(sf, g, first + rest).h.mem == h.mem && Run(sf, g, first + rest).h.x == h.x
  {
    RunInTwo(sf, g, first, rest);
    SystemDecodes(0x73);
    hide After, Step, OpcodeDecode, InRegion, Word;
    StepIs(sf, h, 0x73, rest[0]);
    ExitLaw(sf, h, rest[0]);
  }
}
