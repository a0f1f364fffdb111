/**
 `sim::RVSim`: register files, instruction pointer, fcsr and segmented memory, changed in place by one
 callback per instruction.  Every callback is proved to do what the reference semantics says.
 */
module RvSimulator {
  import opened Bits
  import opened Bytes
  import opened IsaHelpers
  import opened RvInsn
  import opened InstructionSet
  import opened Decoder
  import opened FlatMemory
  import opened GuestMemory
  import opened BitManip
  import opened Csr
  import opened IsaState
  import opened IsaRuns
  import opened CallbackOps
  import opened ProgramArgs

  function ZeroRegisters(n: nat): (r: seq<u32>) { Zeros(n) }

  /** All zero but gp and sp. */
  function InitialRegisters(gp: u32, sp: u32): seq<u32> { ZeroRegisters(NUM_X_REGISTERS)[3 := gp][2 := sp] }

  /** The state a program starts in. */
  ghost function InitialHart(elf: seq<Segm>, entryPoint: u32, gp: u32, argv: Argv, mode: Rounding): Hart
    requires InitialSp(argv) >= STACK_BASE
  {
    Hart(entryPoint, InitialRegisters(gp, InitialSp(argv)), ZeroRegisters(NUM_F_REGISTERS), 0, 0, mode,
         FlatOf(InitialSegments(elf, argv)), false, [])
  }

  /** Every address with an owner is backed. */
  lemma InitialRegions(ss: seq<Segm>)
    ensures RegionsMapped(FlatOf(ss))
  {
    hide Backed, ByteAt, FirstSegment;
  }

  /** The block that sp points to: argc, the argument pointers and a NULL that ends at the top of the stack. */
  lemma InitialMemory(elf: seq<Segm>, argv: Argv)
    requires InitialSp(argv) >= STACK_BASE && WellFormed(InitialSegments(elf, argv))
    requires Uncovered(InitialSegments(elf, argv), |elf|) && Uncovered(InitialSegments(elf, argv), |elf| + 1)
    ensures var m, sp := FlatOf(InitialSegments(elf, argv)), InitialSp(argv);
            && sp == 0x4000_0000 - 4 * (|argv| + 2) && Load(m, sp, 4) == |argv|
            && Load(m, 0x3fff_fffc, 4) == 0
            && (forall i :: 0 <= i < |argv| ==> Load(m, sp + 4 * (i + 1), 4) == 0x4000_0004 + ArgOffset(argv, i))
            && (forall a: nat :: 0x3ff0_0000 <= a < sp ==> a in m.bytes && Peek(m, a) == 0)
            && forall i :: 0 <= i < |argv| && 0 !in argv[i] ==> CStringAt(m, Load(m, sp + 4 * (i + 1), 4), argv[i])
  {
    hide WellFormed, FlatOf, InitialSegments, Load, CStringAt, StackWord, Uncovered;
    StackBlock(elf, argv, 0);
    StackBlock(elf, argv, |argv| + 1);
    StackEnds(argv);
    forall i | 0 <= i < |argv|
      ensures Load(FlatOf(InitialSegments(elf, argv)), InitialSp(argv) + 4 * (i + 1), 4) == 0x4000_0004 + ArgOffset(argv, i)
    {
      StackBlock(elf, argv, i + 1);
      PointerIs(argv, i);
    }
    forall a: nat | 0x3ff0_0000 <= a < InitialSp(argv)
      ensures a in FlatOf(InitialSegments(elf, argv)).bytes && Peek(FlatOf(InitialSegments(elf, argv)), a) == 0
    {
      StackIsZero(elf, argv, a);
    }
    forall i | 0 <= i < |argv| && 0 !in argv[i]
      ensures CStringAt(FlatOf(InitialSegments(elf, argv)),
                        Load(FlatOf(InitialSegments(elf, argv)), InitialSp(argv) + 4 * (i + 1), 4), argv[i])
    {
      ArgumentStrings(elf, argv, i);
    }
  }

  lemma PointerIs(argv: Argv, i: nat)
    requires i < |argv|
    ensures StackWord(argv, i + 1) == 0x4000_0004 + ArgOffset(argv, i)
  {
  }

  lemma StackIsZero(elf: seq<Segm>, argv: Argv, a: nat)
    requires InitialSp(argv) >= STACK_BASE && WellFormed(InitialSegments(elf, argv))
    requires Uncovered(InitialSegments(elf, argv), |elf|) && STACK_BASE <= a < InitialSp(argv)
    ensures a in FlatOf(InitialSegments(elf, argv)).bytes && Peek(FlatOf(InitialSegments(elf, argv)), a) == 0
  {
    hide WellFormed, FlatOf, Uncovered, Owns, FirstSegment, Peek, WordsImage, Zeros;
    var ss := InitialSegments(elf, argv);
    UncoveredOwns(ss, |elf|, a, 1);
    OwnedByte(ss, |elf|, a, 1, a);
  }

  lemma StackEnds(argv: Argv)
    ensures StackWord(argv, 0) == |argv| && StackWord(argv, |argv| + 1) == 0
    ensures InitialSp(argv) + 4 * 0 == InitialSp(argv) && InitialSp(argv) + 4 * (|argv| + 1) == STACK_TOP - 4
  {
  }

  /** The registers a program starts with; the invariant of all runs holds when the entry point is even. */
  lemma InitialState(elf: seq<Segm>, entryPoint: u32, gp: u32, argv: Argv, mode: Rounding)
    requires InitialSp(argv) >= STACK_BASE && WellFormed(InitialSegments(elf, argv))
    ensures var h := InitialHart(elf, entryPoint, gp, argv, mode);
            && (Inv(h) <==> entryPoint % 2 == 0) && !h.stopped && h.pc == entryPoint
            && |h.x| == 32 && |h.f| == 32 && h.x[2] == 0x4000_0000 - 4 * (|argv| + 2) && h.x[3] == gp
            && (forall r :: 0 <= r < 32 && r != 2 && r != 3 ==> h.x[r] == 0)
            && (forall r :: 0 <= r < 32 ==> h.f[r] == 0)
            && h.frm == 0 && h.fflags == 0 && h.mode == mode && h.calls == []
            && h.mem == FlatOf(InitialSegments(elf, argv))
  {
    InitialRegions(InitialSegments(elf, argv));
    hide WellFormed, FlatOf, RegionsMapped, InitialSegments;
  }

  lemma PrefixWellFormed(ss: seq<Segm>, n: nat)
    requires WellFormed(ss) && n <= |ss|
    ensures WellFormed(ss[..n])
  {
  }

  method CopyOf(bs: seq<byte>) returns (data: array<byte>)
    ensures fresh(data) && data[..] == bs
  {
    data := new byte[|bs|](i requires 0 <= i < |bs| => bs[i]);
  }

  method AddCopy(mem: Memory, s: Segm) returns (data: array<byte>)
    requires mem.Valid() && WellFormed(mem.Segments() + [s])
    modifies mem
    ensures mem.Valid() && mem.Segments() == old(mem.Segments()) + [s]
    ensures fresh(data) && mem.buffers == old(mem.buffers) + {data}
  {
    hide WellFormed;
    data := CopyOf(s.bytes);
    mem.AddSegment(MemorySegm(s.start, s.end, data));
  }

  /** The segments of the ELF file, in their order. */
  method LoadSegments(elf: seq<Segm>) returns (mem: Memory)
    requires WellFormed(elf)
    ensures fresh(mem) && mem.Valid() && fresh(mem.buffers) && mem.Segments() == elf
  {
    hide Memory.Valid, Memory.Segments;
    mem := new Memory();
    for i := 0 to |elf|
      invariant fresh(mem) && mem.Valid() && fresh(mem.buffers) && mem.Segments() == elf[..i]
    {
      PrefixWellFormed(elf, i + 1);
      hide WellFormed;
      assert elf[..i + 1] == elf[..i] + [elf[i]];
      var _ := AddCopy(mem, elf[i]);
    }
    assert elf[..|elf|] == elf;
  }

  /** The buffers of the stack and of the argument strings, filled before they are added. */
  method BuildArguments(argv: Argv) returns (stack: array<byte>, argvData: array<byte>)
    requires InitialSp(argv) >= STACK_BASE && ArgvSize(argv) < TWO32
    ensures fresh(stack) && fresh(argvData) && stack != argvData
    ensures stack[..] == StackImage(argv) && argvData[..] == ArgvImage(argv)
  {
    hide StackImage, ArgvImage, Zeros, ArgvSize;
    stack := CopyOf(Zeros(STACK_SIZE));
    var argvSize := SizeOfArgv(argv);
    argvData := CopyOf(Zeros(argvSize));
    var offsets := CopyArgv(argv, argvData);
    FillStack(argv, offsets, stack);
  }

  lemma LoadOrder(elf: seq<Segm>, argv: Argv)
    requires InitialSp(argv) >= STACK_BASE && WellFormed(InitialSegments(elf, argv))
    ensures WellFormed(elf) && WellFormed(elf + [StackSegm(argv)]) && ArgvSize(argv) < TWO32
    ensures InitialSegments(elf, argv) == elf + [StackSegm(argv)] + [ArgvSegm(argv)]
  {
    var all := InitialSegments(elf, argv);
    assert WellFormedSegm(all[|elf| + 1]);
    assert all[..|elf|] == elf && all[..|elf| + 1] == elf + [StackSegm(argv)];
    PrefixWellFormed(all, |elf|);
    PrefixWellFormed(all, |elf| + 1);
    hide StackImage, ArgvImage;
  }

  /** The constructor's part in guest memory: ELF segments, stack, arguments. */
  method LoadProgram(elf: seq<Segm>, argv: Argv) returns (mem: Memory)
    requires InitialSp(argv) >= STACK_BASE && WellFormed(InitialSegments(elf, argv))
    ensures fresh(mem) && mem.Valid() && fresh(mem.buffers) && mem.Segments() == InitialSegments(elf, argv)
  {
    hide WellFormed, FlatOf, StackImage, ArgvImage, ArgvSize, InitialSegments, Memory.Valid, Memory.Segments;
    LoadOrder(elf, argv);
    var stack, argvData := BuildArguments(argv);
    mem := LoadSegments(elf);
    assert Segm(STACK_BASE, STACK_TOP, stack[..]) == StackSegm(argv);
    mem.AddSegment(MemorySegm(STACK_BASE, STACK_TOP, stack));
    assert Segm(ARGV_BASE, ARGV_BASE + argvData.Length + 4, argvData[..]) == ArgvSegm(argv);
    mem.AddSegment(MemorySegm(ARGV_BASE, ARGV_BASE + argvData.Length + 4, argvData));
  }

  /** `Execute` returns a0, or throws on an unknown instruction, or is still running when the replies are used up. */
  datatype Result = Exited(code: u32) | UnknownInstruction | StillRunning

  class RVSim {
    const memory: Memory
    const xregs: array<u32>
    const fregs: array<u32>
    var ip: u32
    var shouldStop: bool
    var fcsr: u32

    // Not fields of the original: the floating-point library with its global rounding mode, and what
    // the system calls asked of the host.
    const softFloat: SoftFloat
    var roundingMode: Rounding
    var calls: seq<HostCall>

    ghost predicate Valid()
      reads this, memory, memory.buffers, xregs
    {
      && memory.Valid()
      && xregs.Length == NUM_X_REGISTERS && fregs.Length == NUM_F_REGISTERS
      && xregs != fregs
      && xregs[0] == 0
      && fcsr <= 0xff
    }

    /** The architectural state. */
    ghost function Abs(): (h: Hart)
      requires Valid()
      reads this, memory, memory.buffers, xregs, fregs
      ensures h.frm < 8 && h.fflags < 32
    {
      Hart(ip, xregs[..], fregs[..], fcsr / 32, fcsr % 32, roundingMode, memory.Flat(), shouldStop, calls)
    }

    constructor (elf: seq<Segm>, entryPoint: u32, globalPtr: u32, argv: Argv, softFloat: SoftFloat, mode: Rounding)
      requires InitialSp(argv) >= STACK_BASE && WellFormed(InitialSegments(elf, argv))
      ensures Valid() && fresh(memory) && fresh(memory.buffers) && fresh(xregs) && fresh(fregs)
      ensures Abs() == InitialHart(elf, entryPoint, globalPtr, argv, mode)
    {
      hide StackImage, ArgvImage, Zeros, FlatOf, WellFormed, InitialSegments, Memory.Valid, Memory.Segments;
      var mem := LoadProgram(elf, argv);
      memory, ip, shouldStop, fcsr := mem, entryPoint, false, 0;
      this.softFloat, roundingMode, calls := softFloat, mode, [];
      var x := new u32[NUM_X_REGISTERS](_ => 0);
      x[3] := globalPtr;
      x[2] := InitialSp(argv);
      xregs := x;
      fregs := new u32[NUM_F_REGISTERS](_ => 0);
      new;
      assert xregs[..] == InitialRegisters(globalPtr, InitialSp(argv));
      assert fregs[..] == ZeroRegisters(NUM_F_REGISTERS);
    }

    method Fetch(addr: u32) returns (insn: u32)
      requires Valid() && InRegion(Abs().mem, addr, 4)
      ensures insn == Load(Abs().mem, addr, 4)
    {
      insn := memory.LoadU32(addr);
    }

    function ShouldStop(): (r: bool)
      requires Valid()
      reads this, memory, memory.buffers, xregs, fregs
      ensures r == Abs().stopped
    {
      shouldStop
    }

    method SetXReg(index: nat, value: u32)
      requires Valid() && index < NUM_X_REGISTERS
      modifies xregs
      ensures Valid() && Abs() == old(Abs()).Put(index, value)
    {
      if index == 0 { return; }
      xregs[index] := value;
    }

    function GetXReg(index: nat): (r: u32)
      requires Valid() && index < NUM_X_REGISTERS
      reads this, memory, memory.buffers, xregs, fregs
      ensures r == Abs().X(index)
    {
      if index == 0 then 0 else xregs[index]
    }

    function Ip(): (r: u32)
      requires Valid()
      reads this, memory, memory.buffers, xregs, fregs
      ensures r == Abs().pc
    {
      ip
    }

    method Step()
      requires Valid()
      modifies this`ip
      ensures Valid() && Abs() == old(Abs()).Next()
    {
      ip := Wrap(ip + STEP_SIZE);
    }

    /** An assignment through `Ip()`. */
    method SetIp(target: u32)
      requires Valid()
      modifies this`ip
      ensures Valid() && Abs() == old(Abs()).(pc := target)
    {
      ip := target;
    }

    method SetFReg(index: nat, value: u32)
      requires Valid() && index < NUM_F_REGISTERS
      modifies fregs
      ensures Valid() && Abs() == old(Abs()).PutF(index, value)
    {
      fregs[index] := value;
    }

    function GetFReg(index: nat): (r: u32)
      requires Valid() && index < NUM_F_REGISTERS
      reads this, memory, memory.buffers, xregs, fregs
      ensures r == Abs().F(index)
    {
      fregs[index]
    }

    /** The write goes to the field that `WriteCsr` names. */
    method SetCSR(index: nat, value: u32)
      requires Valid() && KnownCsr(index)
      modifies this`fcsr
      ensures Valid() && Abs() == WriteCsr(old(Abs()), index, value)
    {
      hide SetCsr, FlatOf, WellFormed, Contents, Memory.Flat, Memory.Segments, Memory.Valid;
      SetCsrFields(fcsr, index, value);
      fcsr := SetCsr(fcsr, index, value);
    }

    function GetCSR(index: nat): (r: u32)
      requires Valid() && KnownCsr(index)
      reads this, memory, memory.buffers, xregs, fregs
      ensures r == ReadCsr(Abs(), index)
    {
      hide GetCsr, ReadCsr, FlatOf, Memory.Valid, WellFormed, Contents;
      ReadCsrValue(Abs(), index, fcsr);
      GetCsr(fcsr, index)
    }

    // ------------------------------------------------------------- integer callbacks

    method ExecuteRRRBinOp(raw: u32, binOp: (u32, u32) -> u32)
      requires Valid()
      modifies this`ip, xregs
      ensures Valid()
      ensures Abs() == old(Abs().Put(RdOf(raw), binOp(Abs().X(Rs1Of(raw)), Abs().X(Rs2Of(raw)))).Next())
    {
      hide *;
      Operands(raw);
      SetXReg(Rd(raw), binOp(GetXReg(Rs1(raw)), GetXReg(Rs2(raw))));
      Step();
    }

    method ExecuteRRIBinOp(raw: u32, binOp: (u32, int) -> u32)
      requires Valid()
      modifies this`ip, xregs
      ensures Valid()
      ensures Abs() == old(Abs().Put(RdOf(raw), binOp(Abs().X(Rs1Of(raw)), IsaImmI(raw))).Next())
    {
      hide *;
      Operands(raw);
      SetXReg(Rd(raw), binOp(GetXReg(Rs1(raw)), ImmI(raw)));
      Step();
    }

    method ExecuteRRIShift(raw: u32, m: InsnMnemonic)
      requires Valid()
      modifies this`ip, xregs
      ensures Valid()
      ensures Abs() == old(Abs().Put(RdOf(raw), AluShiftImm(m, Abs().X(Rs1Of(raw)), Rs2Of(raw))).Next())
    {
      hide *;
      Operands(raw);
      ShiftOpValue(m, GetXReg(Rs1(raw)), Shamt(raw));
      SetXReg(Rd(raw), ShiftOp(m, GetXReg(Rs1(raw)), Shamt(raw)));
      Step();
    }

    /** The callbacks with a loop or an extension on rs1. */
    method UnaryResult(m: InsnMnemonic, rs: u32) returns (v: u32)
      requires IsUnary(m)
      ensures v == AluUnary(m, rs)
    {
      hide SignExt, SignExtended, TruncHigh8, TruncHigh16, Clz, Ctz, DigitSum, Rev8, OrcB, Low;
      ExtendTruncated(rs);
      TruncHigh16Value(rs);
      if m == SEXT_B {
        v := SignExt(TruncHigh8(rs), 8);
      } else if m == SEXT_H {
        v := SignExt(TruncHigh16(rs), 16);
      } else if m == ZEXT_H {
        v := TruncHigh16(rs);
      } else if m == CLZ {
        var n := CountLeadingZeros(rs);
        v := Wrap(n);
      } else if m == CTZ {
        var n := CountTrailingZeros(rs);
        v := Wrap(n);
      } else if m == CPOP {
        var n := CountOnes(rs);
        v := Wrap(n);
      } else if m == REV8 {
        v := ReverseLoop(rs);
      } else {
        v := CombineLoop(rs);
      }
    }

    method ExecuteUnary(m: InsnMnemonic, raw: u32)
      requires Valid() && IsUnary(m)
      modifies this`ip, xregs
      ensures Valid()
      ensures Abs() == old(Abs().Put(RdOf(raw), AluUnary(m, Abs().X(Rs1Of(raw)))).Next())
    {
      hide *;
      Operands(raw);
      var v := UnaryResult(m, GetXReg(Rs1(raw)));
      SetXReg(Rd(raw), v);
      Step();
    }

    method ExecuteUpper(m: InsnMnemonic, raw: u32)
      requires Valid()
      modifies this`ip, xregs
      ensures Valid()
      ensures Abs() == old(Abs().Put(RdOf(raw), Wrap((if m == LUI then 0 else Abs().pc) + IsaImmU(raw))).Next())
    {
      hide *;
      Operands(raw);
      SetXReg(Rd(raw), Wrap((if m == LUI then 0 else Ip()) + ImmU(raw)));
      Step();
    }

    method CallbackInteger(m: InsnMnemonic, raw: u32)
      requires Valid() && ExecInteger(Abs(), m, raw).Running?
      requires m <= AUIPC || ADDI <= m <= AND || MUL <= m <= ORC_B
      modifies this`ip, xregs
      ensures Valid() && Running(Abs()) == ExecInteger(old(Abs()), m, raw)
    {
      hide Valid, Abs, RegRegOp, RegImmOp, AluRegReg, AluRegImm, AluShiftImm, AluUnary, RdOf, Rs1Of, Rs2Of, IsaImmI, IsaImmU,
           Hart.X, Hart.Put, Hart.Next;
      if IsRegReg(m) {
        RegRegValue(m, Abs().X(Rs1Of(raw)), Abs().X(Rs2Of(raw)));
        ExecuteRRRBinOp(raw, (a, b) => RegRegOp(m, a, b));
      } else if IsRegImm(m) {
        RegImmValue(m, Abs().X(Rs1Of(raw)), IsaImmI(raw));
        ExecuteRRIBinOp(raw, (a, imm) => RegImmOp(m, a, imm));
      } else if IsShiftImm(m) {
        ExecuteRRIShift(raw, m);
      } else if IsUnary(m) {
        ExecuteUnary(m, raw);
      } else {
        ExecuteUpper(m, raw);
      }
    }

    // ------------------------------------------------------------------------ jumps

    method ExecuteBranch(m: InsnMnemonic, raw: u32)
      requires Valid() && BEQ <= m <= BGEU
      modifies this`ip
      ensures Valid()
      ensures Abs() == old(if BranchTaken(m, Abs().X(Rs1Of(raw)), Abs().X(Rs2Of(raw)))
                           then Abs().(pc := Wrap(Abs().pc + IsaImmB(raw))) else Abs().Next())
    {
      hide *;
      Operands(raw);
      BranchPredValue(m, GetXReg(Rs1(raw)), GetXReg(Rs2(raw)));
      if BranchPred(m, GetXReg(Rs1(raw)), GetXReg(Rs2(raw))) {
        SetIp(Wrap(Ip() + ImmB(raw)));
      } else {
        Step();
      }
    }

    method CallbackJAL(raw: u32)
      requires Valid()
      modifies this`ip, xregs
      ensures Valid()
      ensures Abs() == old(Abs().Put(RdOf(raw), Wrap(Abs().pc + STEP_SIZE)).(pc := Wrap(Abs().pc + IsaImmJ(raw))))
    {
      hide *;
      Operands(raw);
      PutKeepsPc(Abs(), Rd(raw), Wrap(Ip() + STEP_SIZE));
      SetXReg(Rd(raw), Wrap(Ip() + STEP_SIZE));
      SetIp(Wrap(Ip() + ImmJ(raw)));
    }

    /** The target is computed before rd is written: they may be the same register. */
    method CallbackJALR(raw: u32)
      requires Valid()
      modifies this`ip, xregs
      ensures Valid()
      ensures Abs() == old(Abs().Put(RdOf(raw), Wrap(Abs().pc + STEP_SIZE)).(
                             pc := ClearLowestBit(Wrap(Abs().X(Rs1Of(raw)) + IsaImmI(raw)))))
    {
      hide *;
      Operands(raw);
      var holdPc := Wrap(Ip() + STEP_SIZE);
      var target := Wrap(GetXReg(Rs1(raw)) + ImmI(raw));
      ClearBitValue(target);
      PutKeepsPc(Abs(), Rd(raw), holdPc);
      SetIp(And(target, Not(1)));
      SetXReg(Rd(raw), holdPc);
    }

    method CallbackJump(m: InsnMnemonic, raw: u32)
      requires Valid() && JAL <= m <= BGEU
      modifies this`ip, xregs
      ensures Valid() && Running(Abs()) == ExecJump(old(Abs()), m, raw)
    {
      hide Valid, Abs, RdOf, Rs1Of, Rs2Of, IsaImmI, IsaImmB, IsaImmJ, Wrap, BranchTaken, ClearLowestBit;
      if m == JAL {
        CallbackJAL(raw);
      } else if m == JALR {
        CallbackJALR(raw);
      } else {
        ExecuteBranch(m, raw);
      }
    }

    // --------------------------------------------------------------- loads and stores

    method LoadValue(m: InsnMnemonic, addr: u32) returns (v: u32)
      requires Valid() && (LB <= m <= LHU || m == FLW) && InRegion(Abs().mem, addr, AccessSize(m))
      ensures v == Extended(m, Load(Abs().mem, addr, AccessSize(m)))
    {
      hide Load, InRegion, SignExt, SignExtended, FlatOf, Memory.Valid;
      if m == LB || m == LBU {
        var val := memory.LoadU8(addr);
        ExtendValue(val, 8);
        v := if m == LB then SignExt(val, 8) else val;
      } else if m == LH || m == LHU {
        var val := memory.LoadU16(addr);
        ExtendValue(val, 16);
        v := if m == LH then SignExt(val, 16) else val;
      } else {
        v := memory.LoadU32(addr);
      }
    }

    method ExecuteLoad(m: InsnMnemonic, raw: u32)
      requires Valid() && (LB <= m <= LHU || m == FLW) && InRegion(Abs().mem, LoadAddress(Abs(), raw), AccessSize(m))
      modifies this`ip, xregs, fregs
      ensures Valid()
      ensures var h := old(Abs());
              var v := Extended(m, Load(h.mem, LoadAddress(h, raw), AccessSize(m)));
              Abs() == (if m == FLW then h.PutF(RdOf(raw), v) else h.Put(RdOf(raw), v)).Next()
    {
      hide *;
      AddressesRead(Abs(), raw);
      Operands(raw);
      var addr := Wrap(GetXReg(Rs1(raw)) + ImmI(raw));
      var v := LoadValue(m, addr);
      if m == FLW {
        SetFReg(Rd(raw), v);
      } else {
        SetXReg(Rd(raw), v);
      }
      Step();
    }

    method StoreValue(m: InsnMnemonic, addr: u32, v: u32)
      requires Valid() && (SB <= m <= SW || m == FSW) && InRegion(Abs().mem, addr, AccessSize(m))
      modifies memory.buffers
      ensures Valid() && Abs() == old(Abs().(mem := Store(Abs().mem, addr, AccessSize(m), v)))
    {
      hide InRegion, TruncHigh8, TruncHigh16, ToLE, WriteBytes, FlatOf, Memory.Valid;
      StoredBytes(v);
      if m == SB {
        memory.StoreU8(addr, TruncHigh8(v));
      } else if m == SH {
        memory.StoreU16(addr, TruncHigh16(v));
      } else {
        memory.StoreU32(addr, v);
      }
    }

    method ExecuteStore(m: InsnMnemonic, raw: u32)
      requires Valid() && (SB <= m <= SW || m == FSW) && InRegion(Abs().mem, StoreAddress(Abs(), raw), AccessSize(m))
      modifies this`ip, memory.buffers
      ensures Valid()
      ensures var h := old(Abs());
              var v := if m == FSW then h.F(Rs2Of(raw)) else h.X(Rs2Of(raw));
              Abs() == h.(mem := Store(h.mem, StoreAddress(h, raw), AccessSize(m), v)).Next()
    {
      hide *;
      AddressesRead(Abs(), raw);
      Operands(raw);
      var addr := Wrap(GetXReg(Rs1(raw)) + ImmS(raw));
      StoreValue(m, addr, if m == FSW then GetFReg(Rs2(raw)) else GetXReg(Rs2(raw)));
      Step();
    }

    method CallbackMemory(m: InsnMnemonic, raw: u32)
      requires Valid() && (LB <= m <= SW || FLW <= m <= FSW)
      requires (if m <= LHU || m == FLW then ExecLoad(Abs(), m, raw) else ExecStore(Abs(), m, raw)).Running?
      modifies this`ip, xregs, fregs, memory.buffers
      ensures Valid()
      ensures Running(Abs()) == old(if m <= LHU || m == FLW then ExecLoad(Abs(), m, raw) else ExecStore(Abs(), m, raw))
    {
      hide Valid, Abs, RdOf, Rs2Of, LoadAddress, StoreAddress, Load, Store, InRegion, Extended, AccessSize;
      if m <= LHU || m == FLW {
        ExecuteLoad(m, raw);
      } else {
        ExecuteStore(m, raw);
      }
    }

    // -------------------------------------------------------------------------- CSRs

    method CallbackCSR(m: InsnMnemonic, raw: u32)
      requires Valid() && CSRRW <= m <= CSRRCI && ExecCsr(Abs(), m, raw).Running?
      modifies this`ip, this`fcsr, xregs
      ensures Valid() && Running(Abs()) == ExecCsr(old(Abs()), m, raw)
    {
      hide Valid, Abs, RdOf, Rd, Rs1Of, Rs1, CsrOf, ImmCsr, ReadCsr, WriteCsr, And, Or;
      Operands(raw);
      var csrIdx := ImmCsr(raw);
      var tmp := GetCSR(csrIdx);
      var operand := if m <= CSRRC then GetXReg(Rs1(raw)) else Rs1(raw);
      if m == CSRRW || m == CSRRWI {
        SetCSR(csrIdx, operand);
      } else if m == CSRRS || m == CSRRSI {
        SetCSR(csrIdx, Or32(tmp, operand));
      } else {
        SetCSR(csrIdx, And(tmp, Not(operand)));
      }
      SetXReg(Rd(raw), tmp);
      Step();
    }

    // ------------------------------------------------------------------ system calls

    method RecordCall(call: HostCall)
      requires Valid()
      modifies this`calls
      ensures Valid() && Abs() == old(Abs().(calls := Abs().calls + [call]))
    {
      calls := calls + [call];
    }

    method ReceiveBuffer(guestBuf: u32, size: nat, bs: seq<byte>)
      requires Valid() && |bs| <= size && AllMapped(Abs().mem, guestBuf, |bs|)
      modifies memory.buffers
      ensures Valid() && Abs() == old(Abs().(mem := WriteWrapped(Abs().mem, guestBuf, bs)))
    {
      hide AllMapped, WriteWrapped, FlatOf, Memory.Valid;
      var buf := new byte[size];
      MemcpyInto(buf, 0, bs);
      assert buf[..|bs|] == bs;
      memory.CopyHostToGuest(guestBuf, buf, |bs|);
    }

    method SendBuffer(guestBuf: u32, size: nat) returns (bs: seq<byte>)
      requires Valid() && AllMapped(Abs().mem, guestBuf, size)
      ensures Valid() && Abs() == old(Abs()) && bs == ReadWrapped(Abs().mem, guestBuf, size)
    {
      hide AllMapped, ReadWrapped, FlatOf, Memory.Valid;
      var buf := new byte[size];
      memory.CopyGuestToHost(guestBuf, buf, size);
      bs := buf[..];
    }

    /** What the host reads reaches the guest only when it succeeded; a0 gets the count or -1. */
    method SyscallRead(fd: int, guestBuf: u32, size: u32, reply: HostReply)
      requires Valid() && ExecRead(Abs(), fd, guestBuf, size, reply).Running?
      modifies this`calls, xregs, memory.buffers
      ensures Valid() && Running(Abs().Next()) == ExecRead(old(Abs()), fd, guestBuf, size, reply)
    {
      hide Valid, Abs, AllMapped, WriteWrapped, Wrap;
      RecordCall(ReadCall(fd, size));
      match reply {
        case Failed =>
          SetXReg(10, Wrap(-1));
        case Done(data) =>
          var bs := Cut(data, size);
          ReceiveBuffer(guestBuf, size, bs);
          SetXReg(10, Wrap(|bs|));
      }
    }

    method SyscallWrite(fd: int, guestBuf: u32, size: u32, reply: HostReply)
      requires Valid() && ExecWrite(Abs(), fd, guestBuf, size, reply).Running?
      modifies this`calls, xregs
      ensures Valid() && Running(Abs().Next()) == ExecWrite(old(Abs()), fd, guestBuf, size, reply)
    {
      hide Valid, Abs, AllMapped, ReadWrapped, Wrap;
      var data := SendBuffer(guestBuf, size);
      RecordCall(WriteCall(fd, data));
      match reply {
        case Failed => SetXReg(10, Wrap(-1));
        case Done(written) => SetXReg(10, Wrap(|Cut(written, size)|));
      }
    }

    method CallbackECALL(reply: HostReply)
      requires Valid() && ExecSyscall(Abs(), reply).Running?
      modifies this, xregs, memory.buffers
      ensures Valid() && Running(Abs()) == ExecSyscall(old(Abs()), reply)
      ensures old(xregs[17]) == 93 ==> shouldStop && xregs[..] == old(xregs[..]) && Abs().mem == old(Abs()).mem
    {
      hide ExecRead, ExecWrite, FlatOf, Memory.Valid;
      var syscallId := GetXReg(17);
      var fd, guestBuf, size := Signed(GetXReg(10)), GetXReg(11), GetXReg(12);
      if syscallId == SYS_EXIT {
        shouldStop := true;
      } else if syscallId == SYS_READ {
        SyscallRead(fd, guestBuf, size, reply);
      } else {
        SyscallWrite(fd, guestBuf, size, reply);
      }
      Step();
    }

    // --------------------------------------------------------------- floating point

    function RoundingMode(): (r: Rounding)
      requires Valid()
      reads this, memory, memory.buffers, xregs, fregs
      ensures r == Abs().mode
    {
      roundingMode
    }

    function GetRM(rm: u32): (r: u32)
      requires Valid()
      reads this, memory, memory.buffers, xregs, fregs
      ensures r == if rm == 7 then Abs().frm else rm
    {
      if rm == 7 then GetCSR(CSR_FRM) else rm
    }

    /** 5 and 6 match no case: the mode stays, and round-to-nearest-even is returned. */
    method SoftFloatSetRM(rm: u32) returns (r: Rounding)
      requires Valid() && rm != 7
      modifies this`roundingMode
      ensures Valid() && Abs() == old(Abs().(mode := SetMode(Abs().mode, rm))) && r == SetMode(NearEven, rm)
    {
      hide FlatOf, Memory.Valid;
      match rm {
        case 0 => roundingMode := NearEven;
        case 1 => roundingMode := MinMag;
        case 2 => roundingMode := Min;
        case 3 => roundingMode := Max;
        case 4 => roundingMode := NearMaxMag;
        case _ => return NearEven;
      }
      r := roundingMode;
    }

    /** Raised flags are added to fflags; with none raised nothing is written. */
    method SoftFloatSetFExcp(exceptionFlags: nat)
      requires Valid()
      modifies this`fcsr
      ensures Valid() && Abs() == Accrue(old(Abs()), exceptionFlags)
    {
      hide Valid, Abs, And, Or, Accrue, ReadCsr, WriteCsr;
      AccrueIsWrite(Abs(), exceptionFlags);
      var excpFlags := And(exceptionFlags, 0x1f);
      if excpFlags == 0 { return; }
      var simFlags := GetCSR(CSR_FFLAGS);
      SetCSR(CSR_FFLAGS, Or32(simFlags, excpFlags));
    }

    method SetResult(dest: Dest, v: u32)
      requires Valid() && dest.r < NUM_X_REGISTERS == NUM_F_REGISTERS
      modifies xregs, fregs
      ensures Valid()
      ensures Abs() == if dest.IntReg? then old(Abs()).Put(dest.r, v) else old(Abs()).PutF(dest.r, v)
    {
      hide *;
      match dest {
        case IntReg(r) => SetXReg(r, v);
        case FloatReg(r) => SetFReg(r, v);
      }
    }

    method FinishWithFlags(dest: Dest, v: u32, flags: nat)
      requires Valid() && dest.r < NUM_X_REGISTERS == NUM_F_REGISTERS
      modifies this`ip, this`fcsr, xregs, fregs
      ensures Valid() && Abs() == FpFinish(old(Abs()), old(Abs()).mode, dest, v, flags)
    {
      hide Valid, Abs, Accrue, Hart.Put, Hart.PutF, Hart.Next;
      SetResult(dest, v);
      SoftFloatSetFExcp(flags);
      Step();
    }

    method Finish(dest: Dest, v: u32)
      requires Valid() && dest.r < NUM_X_REGISTERS == NUM_F_REGISTERS
      modifies this`ip, xregs, fregs
      ensures Valid() && Abs() == FpFinish(old(Abs()), old(Abs()).mode, dest, v, 0)
    {
      hide Valid, Abs, Accrue, Hart.Put, Hart.PutF, Hart.Next;
      SetResult(dest, v);
      NoFlags(Abs());
      Step();
    }

    method ExecuteFArith(m: InsnMnemonic, raw: u32)
      requires Valid() && FADD_S <= m <= FNMADD_S && AskedMode(Abs(), raw) != 7
      modifies this`ip, this`fcsr, this`roundingMode, xregs, fregs
      ensures Valid()
      ensures var h, mode := old(Abs()), SetMode(old(Abs()).mode, AskedMode(old(Abs()), raw));
              var r := FpValue(softFloat, mode, m, h.F(Rs1Of(raw)), h.F(Rs2Of(raw)), h.F(Rs3Of(raw)));
              Abs() == FpFinish(h, mode, FloatReg(RdOf(raw)), r.value, r.flags)
    {
      hide *;
      AskedModeRead(Abs(), raw);
      Operands(raw);
      ghost var h := Abs();
      var _ := SoftFloatSetRM(GetRM(Rm(raw)));
      var a, b, c := GetFReg(Rs1(raw)), GetFReg(Rs2(raw)), GetFReg(Rs3(raw));
      FArithOpValue(softFloat, RoundingMode(), m, a, b, c);
      var res := FArithOp(softFloat, RoundingMode(), m, a, b, c);
      ModeFirst(h, RoundingMode(), FloatReg(Rd(raw)), res.value, res.flags);
      FinishWithFlags(FloatReg(Rd(raw)), res.value, res.flags);
    }

    method ExecuteFSelect(m: InsnMnemonic, raw: u32)
      requires Valid() && FSGNJ_S <= m <= FMAX_S
      modifies this`ip, xregs, fregs
      ensures Valid() && Running(Abs()) == ExecFpSelect(softFloat, old(Abs()), m, raw)
    {
      hide Valid, Abs, FpFinish, SignOp, InjectSign, Rd, RdOf, Rs1, Rs1Of, Rs2, Rs2Of, Hart.F;
      OperandRegisters(raw);
      var rs1, rs2 := GetFReg(Rs1(raw)), GetFReg(Rs2(raw));
      var res;
      if m == FMIN_S {
        res := if softFloat(FpLe, RoundingMode(), rs1, rs2, 0).value != 0 then rs1 else rs2;
      } else if m == FMAX_S {
        res := if softFloat(FpLe, RoundingMode(), rs1, rs2, 0).value != 0 then rs2 else rs1;
      } else {
        SignOpValue(m, rs1, rs2);
        res := SignOp(m, rs1, rs2);
      }
      Finish(FloatReg(Rd(raw)), res);
    }

    method ExecuteFCompare(m: InsnMnemonic, raw: u32)
      requires Valid() && FLE_S <= m <= FEQ_S
      modifies this`ip, this`fcsr, xregs, fregs
      ensures Valid() && Running(Abs()) == ExecFpCompare(softFloat, old(Abs()), m, raw)
    {
      hide Valid, Abs, FpFinish, Rd, RdOf, Rs1, Rs1Of, Rs2, Rs2Of, Hart.F;
      OperandRegisters(raw);
      var op := if m == FLE_S then FpLe else if m == FLT_S then FpLt else FpEq;
      var cmp := softFloat(op, RoundingMode(), GetFReg(Rs1(raw)), GetFReg(Rs2(raw)), 0);
      FinishWithFlags(IntReg(Rd(raw)), if cmp.value != 0 then 1 else 0, cmp.flags);
    }

    /** The rounding mode is an argument here: that of the instruction, or to nearest even for 5 and 6. */
    method ExecuteFToInt(m: InsnMnemonic, raw: u32)
      requires Valid() && AskedMode(Abs(), raw) != 7
      modifies this`ip, this`fcsr, this`roundingMode, xregs, fregs
      ensures Valid()
      ensures var h, rm := old(Abs()), AskedMode(old(Abs()), raw);
              var r := softFloat(if m == FCVT_W_S then FpToI32 else FpToUi32, SetMode(NearEven, rm), h.F(Rs1Of(raw)), 0, 0);
              Abs() == FpFinish(h, SetMode(h.mode, rm), IntReg(RdOf(raw)), r.value, r.flags)
    {
      hide *;
      AskedModeRead(Abs(), raw);
      Operands(raw);
      ghost var h := Abs();
      var frs1 := GetFReg(Rs1(raw));
      var mode := SoftFloatSetRM(GetRM(Rm(raw)));
      var conv := softFloat(if m == FCVT_W_S then FpToI32 else FpToUi32, mode, frs1, 0, 0);
      ModeFirst(h, RoundingMode(), IntReg(Rd(raw)), conv.value, conv.flags);
      FinishWithFlags(IntReg(Rd(raw)), conv.value, conv.flags);
    }

    method ExecuteFConvert(m: InsnMnemonic, raw: u32)
      requires Valid() && FCVT_W_S <= m <= FMV_W_X && ExecFpConvert(softFloat, Abs(), m, raw).Running?
      modifies this`ip, this`fcsr, this`roundingMode, xregs, fregs
      ensures Valid() && Running(Abs()) == ExecFpConvert(softFloat, old(Abs()), m, raw)
    {
      hide Valid, Abs, FpFinish, FloatClass, ClassShift, Rd, RdOf, Rs1, Rs1Of, Hart.F, Hart.X, AskedMode, SetMode, Shl, Pow2;
      OperandRegisters(raw);
      if m == FCVT_W_S || m == FCVT_WU_S {
        ExecuteFToInt(m, raw);
      } else if m == FCVT_S_W || m == FCVT_S_WU {
        var op := if m == FCVT_S_W then FpFromI32 else FpFromUi32;
        var conv := softFloat(op, RoundingMode(), GetXReg(Rs1(raw)), 0, 0);
        FinishWithFlags(FloatReg(Rd(raw)), conv.value, conv.flags);
      } else if m == FMV_X_W {
        Finish(IntReg(Rd(raw)), GetFReg(Rs1(raw)));
      } else if m == FCLASS_S {
        ClassShiftValue(GetFReg(Rs1(raw)));
        var shift := ClassShift(GetFReg(Rs1(raw)));
        HotBit(shift);
        Finish(IntReg(Rd(raw)), Shl(1, shift));
      } else {
        Finish(FloatReg(Rd(raw)), GetXReg(Rs1(raw)));
      }
    }

    method CallbackFloat(m: InsnMnemonic, raw: u32, ghost reply: HostReply)
      requires Valid() && FADD_S <= m <= FMV_W_X && Exec(softFloat, Abs(), m, raw, reply).Running?
      modifies this`ip, this`fcsr, this`roundingMode, xregs, fregs
      ensures Valid() && Running(Abs()) == Exec(softFloat, old(Abs()), m, raw, reply)
    {
      hide Valid, Abs, FpFinish, FpValue, RdOf, Rs1Of, Rs2Of, Rs3Of, AskedMode, SetMode, ExecFpSelect, ExecFpCompare,
           ExecFpConvert, Hart.F;
      if m <= FNMADD_S {
        ExecuteFArith(m, raw);
      } else if m <= FMAX_S {
        ExecuteFSelect(m, raw);
      } else if m <= FEQ_S {
        ExecuteFCompare(m, raw);
      } else {
        ExecuteFConvert(m, raw);
      }
    }

    // ---------------------------------------------------------------------- the loop

    /** The callback of the table with this name. */
    method Call(callback: Callback, raw: u32, reply: HostReply)
      requires Valid() && callback.name < COUNT && Exec(softFloat, Abs(), callback.name, raw, reply).Running?
      modifies this, xregs, fregs, memory.buffers
      ensures Valid() && Running(Abs()) == Exec(softFloat, old(Abs()), callback.name, raw, reply)
    {
      hide Valid, Abs, ExecInteger, ExecJump, ExecLoad, ExecStore, ExecSyscall, ExecCsr, ExecFpArith, ExecFpSelect,
           ExecFpCompare, ExecFpConvert, Hart.Next;
      var m := callback.name;
      if m <= AUIPC || ADDI <= m <= AND || MUL <= m <= ORC_B {
        CallbackInteger(m, raw);
      } else if m <= BGEU {
        CallbackJump(m, raw);
      } else if m <= SW || m == FLW || m == FSW {
        CallbackMemory(m, raw);
      } else if m == ECALL {
        CallbackECALL(reply);
      } else if m <= EBREAK {
        Step();
      } else if m <= CSRRCI {
        CallbackCSR(m, raw);
      } else {
        CallbackFloat(m, raw, reply);
      }
    }

    /** One turn of the loop: false when the instruction is unknown. */
    method ExecuteOne(reply: HostReply) returns (known: bool)
      requires Valid() && !IsaState.Step(softFloat, Abs(), reply).Undefined?
      modifies this, xregs, fregs, memory.buffers
      ensures Valid()
      ensures IsaState.Step(softFloat, old(Abs()), reply) == if known then Running(Abs()) else Illegal(Abs())
      ensures memory.memory == old(memory.memory)
    {
      hide Valid, Exec, InRegion, Load, OpcodeDecode, FirstMatch, GetInsnCallback;
      LoadWord(Abs().mem, Abs().pc);
      var insn := Fetch(Ip());
      var mnem := Decode(insn);
      if mnem == INVALID { return false; }
      DecodeRange(insn);
      CallbackOf(mnem);
      ExecIsLegal(softFloat, Abs(), mnem, insn, reply);
      Call(GetInsnCallback(mnem), insn, reply);
      known := true;
    }

    /** As many turns of the loop as the host gives replies for, up to the first stop. */
    method Execute(replies: seq<HostReply>) returns (result: Result)
      requires Valid() && !Run(softFloat, Abs(), replies).Undefined?
      modifies this, xregs, fregs, memory.buffers
      ensures Valid()
      ensures Abs() == Run(softFloat, old(Abs()), replies).h
      ensures result == match Run(softFloat, old(Abs()), replies)
                        case Illegal(_) => UnknownInstruction
                        case Running(h) => if h.stopped then Exited(h.X(10)) else StillRunning
      ensures memory.memory == old(memory.memory)
      ensures Inv(old(Abs())) ==> Inv(Abs()) && SameLayout(old(Abs()).mem, Abs().mem)
      ensures RunsNoCsrWrite(softFloat, old(Abs()), replies) ==> FlagsGrow(old(Abs()), Abs())
    {
      hide Valid, Abs, Inv, SameLayout, IsaState.Step, Hart.X, RunsNoCsrWrite, FlagsGrow;
      ghost var start := Abs();
      if Inv(start) { RunKeeps(softFloat, start, replies); }
      if RunsNoCsrWrite(softFloat, start, replies) { RunGrowsFlags(softFloat, start, replies); }
      var i := 0;
      while !ShouldStop() && i < |replies|
        invariant Valid() && i <= |replies|
        invariant Run(softFloat, Abs(), replies[i..]) == Run(softFloat, start, replies)
        decreases |replies| - i
      {
        assert replies[i..][0] == replies[i] && replies[i..][1..] == replies[i + 1..];
        var known := ExecuteOne(replies[i]);
        if !known { return UnknownInstruction; }
        i := i + 1;
      }
      result := if ShouldStop() then Exited(GetXReg(10)) else StillRunning;
    }
  }
}
