/**
 Instruction addresses against section 2.5 of the RISC-V Unprivileged ISA: without compressed instructions
 a taken jump or branch to an address that is no multiple of 4 raises an exception.  The simulator goes on.
 */
module IsaAlignment {
  import opened Bits
  import opened FlatMemory
  import opened InstructionSet
  import opened RvInsn
  import opened IsaState
  import opened IsaRuns

  predicate IsJump(m: InsnMnemonic) { JAL <= m <= BGEU }

  /** The guards, each one bit: of the JAL word, of the JALR target, of the word of a branch that is taken. */
  predicate Misaligns(h: Hart, m: InsnMnemonic, w: u32) {
    if m == JAL then w / 0x20_0000 % 2 == 1
    else if m == JALR then Wrap(h.X(Rs1Of(w)) + IsaImmI(w)) / 2 % 2 == 1
    else BranchTaken(m, h.X(Rs1Of(w)), h.X(Rs2Of(w))) && w / 0x100 % 2 == 1
  }

  lemma ImmediateMod4(w: u32)
    ensures IsaImmJ(w) % 4 == 2 * (w / 0x20_0000 % 2) && IsaImmB(w) % 4 == 2 * (w / 0x100 % 2)
  {
    var j, b := w / 0x20_0000, w / 0x100;
    TwiceMod4(0x4_0000 * (w / 0x8000_0000) + 1024 * (w / 0x1000 % 256) + 512 * (w / 0x10_0000 % 2), j, 512);
    TwiceMod4(0x4_0000 * (w / 0x8000_0000) + 1024 * (w / 0x1000 % 256) + 512 * (w / 0x10_0000 % 2) - 0x8_0000, j, 512);
    TwiceMod4(1024 * (w / 0x8000_0000) + 512 * (w / 0x80 % 2) + 8 * (w / 0x200_0000 % 64), b, 8);
    TwiceMod4(1024 * (w / 0x8000_0000) + 512 * (w / 0x80 % 2) + 8 * (w / 0x200_0000 % 64) - 2048, b, 8);
  }

  lemma TwiceMod4(k: int, x: nat, n: nat)
    requires n == 512 || n == 8
    ensures (4 * k + 2 * (x % (2 * n))) % 4 == 2 * (x % 2)
  {
    Parity(x);
    FourTimes(k, x % (2 * n));
  }

  lemma Parity(x: nat)
    ensures x % 1024 % 2 == x % 2 && x % 16 % 2 == x % 2
  {
  }

  lemma FourTimes(k: int, y: nat)
    ensures (4 * k + 2 * y) % 4 == 2 * (y % 2)
  {
    DivUnique(4 * k + 2 * y, 4, k + y / 2, 2 * (y % 2));
  }

  lemma SumMod4(pc: u32, b: int)
    requires pc % 4 == 0
    ensures Wrap(pc + b) % 4 == b % 4
  {
    var x := pc + b;
    DivUnique(Wrap(x), 4, pc / 4 + b / 4 - 0x4000_0000 * (x / TWO32), b % 4);
  }

  lemma ClearedMod4(t: u32)
    ensures ClearLowestBit(t) % 4 == 2 * (t / 2 % 2)
  {
  }

  lemma PutPc(h: Hart, r: nat, v: u32, pc: u32)
    ensures h.Put(r, v).(pc := pc).pc == pc && h.Put(r, v).Next().pc == h.Next().pc
  {
  }

  /** From an aligned pc the target of a jump is aligned exactly when its guard does not hold. */
  lemma JumpAlignment(h: Hart, m: InsnMnemonic, w: u32)
    requires h.pc % 4 == 0 && IsJump(m)
    ensures ExecJump(h, m, w).h.pc % 4 == 0 <==> !Misaligns(h, m, w)
  {
    hide IsaImmB, IsaImmJ, IsaImmI, BranchTaken, RdOf, Rs1Of, Rs2Of, Wrap, ClearLowestBit, Hart.X, Hart.Put;
    ImmediateMod4(w);
    SumMod4(h.pc, IsaImmJ(w));
    SumMod4(h.pc, IsaImmB(w));
    SumMod4(h.pc, 4);
    ClearedMod4(Wrap(h.X(Rs1Of(w)) + IsaImmI(w)));
  }

  /** Every other instruction goes on to the next word. */
  lemma OthersGoOn(sf: SoftFloat, h: Hart, m: InsnMnemonic, w: u32, reply: HostReply)
    requires !IsJump(m) && Exec(sf, h, m, w, reply).Running?
    ensures Exec(sf, h, m, w, reply).h.pc == h.Next().pc
  {
    hide AluRegReg, AluRegImm, AluShiftImm, AluUnary, IsaImmI, IsaImmU, Extended, Load, Store, LoadAddress, StoreAddress,
         InRegion, AllMapped, WriteWrapped, ReadWrapped, IsRegReg, IsRegImm, IsShiftImm, IsUnary, RdOf, Rs1Of, Rs2Of,
         Rs3Of, AccessSize, FpValue, InjectSign, LessEqual, FloatClass, Pow2, AskedMode, SetMode, CsrOperation, ReadCsr,
         CsrOf, Wrap, Or, Cut, ExecFpArith, ExecFpSelect, ExecFpCompare, ExecFpConvert, ExecJump;
    var o := Exec(sf, h, m, w, reply);
    if FloatOutcome(sf, h, m, w, o) { FloatEnds(sf, h, m, w, o); }
  }

  /** So one instruction keeps the pc aligned exactly when it is not a guarded jump. */
  lemma ExecAlignment(sf: SoftFloat, h: Hart, m: InsnMnemonic, w: u32, reply: HostReply)
    requires h.pc % 4 == 0 && Exec(sf, h, m, w, reply).Running?
    ensures Exec(sf, h, m, w, reply).h.pc % 4 == 0 <==> !(IsJump(m) && Misaligns(h, m, w))
  {
    hide Misaligns, ExecInteger, ExecJump, ExecLoad, ExecStore, ExecSyscall, ExecCsr, ExecFpArith, ExecFpSelect,
         ExecFpCompare, ExecFpConvert, Wrap;
    SumMod4(h.pc, 4);
    if IsJump(m) { JumpAlignment(h, m, w); } else { OthersGoOn(sf, h, m, w, reply); }
  }

  /** No step of the run is a guarded jump. */
  ghost predicate RunsAligned(sf: SoftFloat, h: Hart, replies: seq<HostReply>)
    decreases |replies|
  {
    replies == [] || h.stopped ||
    (&& (LoadWord(h.mem, h.pc);
         var w: u32 := Load(h.mem, h.pc, 4);
         !(IsJump(OpcodeDecode(w)) && Misaligns(h, OpcodeDecode(w), w)))
     && (Step(sf, h, replies[0]).Running? ==> RunsAligned(sf, Step(sf, h, replies[0]).h, replies[1..])))
  }

  ghost predicate AlwaysAligned(sf: SoftFloat, h: Hart, replies: seq<HostReply>)
    decreases |replies|
  {
    && h.pc % 4 == 0
    && (replies != [] && !h.stopped && Step(sf, h, replies[0]).Running? ==>
          AlwaysAligned(sf, Step(sf, h, replies[0]).h, replies[1..]))
  }

  /** A run that starts aligned stays aligned, at every step, exactly when no step is a guarded jump. */
  lemma {:induction false} RunAlignment(sf: SoftFloat, h: Hart, replies: seq<HostReply>)
    requires h.pc % 4 == 0 && Run(sf, h, replies).Running?
    ensures AlwaysAligned(sf, h, replies) <==> RunsAligned(sf, h, replies)
    ensures RunsAligned(sf, h, replies) ==> Run(sf, h, replies).h.pc % 4 == 0
    decreases |replies|
  {
    hide Exec, Misaligns, InRegion, Load, OpcodeDecode, IsJump;
    if replies != [] && !h.stopped {
      LoadWord(h.mem, h.pc);
      var w: u32 := Load(h.mem, h.pc, 4);
      ExecAlignment(sf, h, OpcodeDecode(w), w, replies[0]);
      var h' := Step(sf, h, replies[0]).h;
      if h'.pc % 4 == 0 { RunAlignment(sf, h', replies[1..]); }
    }
  }

  /** JAL to the halfword behind itself: the simulator runs on at 0x1002. */
  lemma JalToHalfword(h: Hart)
    requires h.pc == 0x1000
    ensures OpcodeDecode(0x0020_006f) == JAL && Misaligns(h, JAL, 0x0020_006f)
    ensures ExecJump(h, JAL, 0x0020_006f).Running? && ExecJump(h, JAL, 0x0020_006f).h.pc == 0x1002
  {
  }
}
