/** What every run of the reference semantics keeps; the simulator inherits it by refinement. */
module IsaRuns {
  import opened Bits
  import opened Bytes
  import opened FlatMemory
  import opened InstructionSet
  import opened RvInsn
  import opened IsaState

  // ------------------------------------------------------------- the invariant

  /** Every address with an owner holds a byte. */
  ghost predicate RegionsMapped(m: FlatMem) {
    forall a: nat :: a in m.owner ==> a in m.bytes
  }

  ghost predicate Inv(h: Hart) {
    && |h.x| == 32 && |h.f| == 32
    && h.x[0] == 0
    && h.pc % 2 == 0
    && h.frm < 8 && h.fflags < 32
    && RegionsMapped(h.mem)
  }

  /** No address appears, disappears or changes its owner. */
  ghost predicate SameLayout(m: FlatMem, m': FlatMem) {
    m'.owner == m.owner && m'.bytes.Keys == m.bytes.Keys
  }

  lemma WriteKeepsLayout(m: FlatMem, a: nat, bs: seq<byte>)
    requires RegionsMapped(m) && InRegion(m, a, |bs|)
    ensures SameLayout(m, WriteBytes(m, a, bs))
  {
    WriteBytesAt(m, a, bs);
    forall k: nat | a <= k < a + |bs| ensures k in m.bytes {
      assert k in m.owner;
    }
  }

  lemma {:induction false} WrappedKeepsLayout(m: FlatMem, a: nat, bs: seq<byte>)
    requires RegionsMapped(m) && AllMapped(m, a, |bs|)
    ensures SameLayout(m, WriteWrapped(m, a, bs))
    decreases |bs|
  {
    if bs != [] {
      var n := |bs| - 1;
      WrappedKeepsLayout(m, a, bs[..n]);
      var w := WriteWrapped(m, a, bs[..n]);
      SameOwners(m, w, Wrapped(a, n), 1);
      assert InRegion(m, Wrapped(a, n), 1);
      WriteKeepsLayout(w, Wrapped(a, n), [bs[n]]);
    }
  }

  lemma FlagsBound(a: nat, b: nat)
    requires a < 32 && b < 32
    ensures Or(a, b) < 32
  {
    Pow2Values();
    OrBound(a, b, 5);
  }

  lemma EvenSum(a: u32, b: int)
    requires a % 2 == 0 && b % 2 == 0
    ensures Wrap(a + b) % 2 == 0
  {
  }

  /** The outcome of an instruction that starts in h. */
  ghost predicate Kept(h: Hart, o: Outcome) {
    !o.Illegal? && (o.Running? ==> Inv(o.h) && SameLayout(h.mem, o.h.mem))
  }

  /** Writing registers and going on keeps everything. */
  lemma PutKeeps(h: Hart, r: nat, v: u32)
    requires Inv(h)
    ensures Inv(h.Put(r, v)) && Inv(h.PutF(r, v)) && Inv(h.Next())
  {
    hide RegionsMapped;
  }

  lemma IntegerKeeps(h: Hart, m: InsnMnemonic, w: u32)
    requires Inv(h)
    ensures Kept(h, ExecInteger(h, m, w))
  {
    hide Inv, AluRegReg, AluRegImm, AluShiftImm, AluUnary, IsaImmI, IsaImmU, RdOf, Rs1Of, IsRegReg, IsRegImm, IsShiftImm,
         IsUnary;
    if ExecInteger(h, m, w).Running? {
      var v: u32 :| ExecInteger(h, m, w) == Running(h.Put(RdOf(w), v).Next());
      PutKeeps(h, RdOf(w), v);
      PutKeeps(h.Put(RdOf(w), v), 0, 0);
    }
  }

  lemma PcKeeps(h: Hart, pc: u32)
    requires Inv(h) && pc % 2 == 0
    ensures Inv(h.(pc := pc))
  {
    hide RegionsMapped;
  }

  lemma JumpKeeps(h: Hart, m: InsnMnemonic, w: u32)
    requires Inv(h)
    ensures Kept(h, ExecJump(h, m, w))
  {
    assert h.pc % 2 == 0;
    hide Inv, SameLayout, IsaImmB, IsaImmJ, IsaImmI, BranchTaken, RdOf, Rs1Of, Rs2Of, Wrap, ClearLowestBit;
    EvenTargets(h.pc, w);
    var g := h.Put(RdOf(w), Wrap(h.pc + 4));
    PutKeeps(h, RdOf(w), Wrap(h.pc + 4));
    PutKeeps(h, 0, 0);
    PcKeeps(h, Wrap(h.pc + IsaImmB(w)));
    PcKeeps(g, Wrap(h.pc + IsaImmJ(w)));
    PcKeeps(g, ClearLowestBit(Wrap(h.X(Rs1Of(w)) + IsaImmI(w))));
    assert SameLayout(h.mem, h.mem) by { LayoutItself(h.mem); }
  }

  lemma LayoutItself(m: FlatMem)
    ensures SameLayout(m, m)
  {
  }

  lemma EvenTargets(pc: u32, w: u32)
    requires pc % 2 == 0
    ensures Wrap(pc + IsaImmB(w)) % 2 == 0 && Wrap(pc + IsaImmJ(w)) % 2 == 0
  {
    hide IsaImmB, IsaImmJ, ImmB, ImmJ, Wrap;
    ImmBValue(w);
    EvenSum(pc, IsaImmB(w));
    ImmJValue(w);
    EvenSum(pc, IsaImmJ(w));
  }

  lemma LoadKeeps(h: Hart, m: InsnMnemonic, w: u32)
    requires Inv(h)
    ensures Kept(h, ExecLoad(h, m, w))
  {
    hide Inv, LoadAddress, Extended, Load, InRegion, RdOf, AccessSize;
    if ExecLoad(h, m, w).Running? {
      var v := Extended(m, Load(h.mem, LoadAddress(h, w), AccessSize(m)));
      PutKeeps(h, RdOf(w), v);
      PutKeeps(h.Put(RdOf(w), v), 0, 0);
      PutKeeps(h.PutF(RdOf(w), v), 0, 0);
    }
  }

  lemma StoreKeeps(h: Hart, m: InsnMnemonic, w: u32)
    requires Inv(h)
    ensures Kept(h, ExecStore(h, m, w))
  {
    var a, n := StoreAddress(h, w), AccessSize(m);
    var v := if m == FSW then h.F(Rs2Of(w)) else h.X(Rs2Of(w));
    hide StoreAddress, InRegion, Rs2Of;
    if InRegion(h.mem, a, n) {
      WriteKeepsLayout(h.mem, a, ToLE(v, n));
      MappedTransfers(h.mem, Store(h.mem, a, n, v));
    }
  }

  lemma MappedTransfers(m: FlatMem, m': FlatMem)
    requires RegionsMapped(m) && SameLayout(m, m')
    ensures RegionsMapped(m')
  {
    forall a: nat | a in m'.owner ensures a in m'.bytes {
      assert a in m.bytes;
    }
  }

  lemma SyscallKeeps(h: Hart, reply: HostReply)
    requires Inv(h)
    ensures Kept(h, ExecSyscall(h, reply))
  {
    hide AllMapped;
    if h.X(17) == SYS_READ && reply.Done? {
      var bs := Cut(reply.data, h.X(12));
      if AllMapped(h.mem, h.X(11), |bs|) {
        WrappedKeepsLayout(h.mem, h.X(11), bs);
        MappedTransfers(h.mem, WriteWrapped(h.mem, h.X(11), bs));
      }
    }
    hide RegionsMapped;
  }

  lemma CsrKeeps(h: Hart, m: InsnMnemonic, w: u32)
    requires Inv(h)
    ensures Kept(h, ExecCsr(h, m, w))
  {
    hide RegionsMapped, CsrOperation;
  }

  lemma AccrueKeeps(h: Hart, flags: nat)
    requires Inv(h)
    ensures Inv(Accrue(h, flags)) && Accrue(h, flags).mem == h.mem
  {
    FlagsBound(h.fflags, flags % 32);
    hide RegionsMapped, Or;
  }

  lemma FinishKeeps(h: Hart, mode: Rounding, dest: Dest, v: u32, flags: nat)
    requires Inv(h)
    ensures Kept(h, Running(FpFinish(h, mode, dest, v, flags)))
  {
    var g := h.(mode := mode);
    assert Inv(g);
    hide Inv, Accrue;
    PutKeeps(g, dest.r, v);
    var g' := if dest.IntReg? then g.Put(dest.r, v) else g.PutF(dest.r, v);
    AccrueKeeps(g', flags);
    PutKeeps(Accrue(g', flags), 0, 0);
  }

  /** The four groups of floating-point instructions. */
  predicate FloatOutcome(sf: SoftFloat, h: Hart, m: InsnMnemonic, w: u32, o: Outcome) {
    || o == ExecFpArith(sf, h, m, w) || o == ExecFpSelect(sf, h, m, w)
    || o == ExecFpCompare(sf, h, m, w) || o == ExecFpConvert(sf, h, m, w)
  }

  /** Each ends in one way, if at all. */
  lemma FloatEnds(sf: SoftFloat, h: Hart, m: InsnMnemonic, w: u32, o: Outcome)
    requires FloatOutcome(sf, h, m, w, o)
    ensures o == Undefined || exists mode, dest, v, flags :: o == Running(FpFinish(h, mode, dest, v, flags))
  {
    hide FpFinish, FpValue, InjectSign, LessEqual, FloatClass, Pow2, RdOf, Rs1Of, Rs2Of, Rs3Of, AskedMode, SetMode;
  }

  lemma FloatKeeps(sf: SoftFloat, h: Hart, m: InsnMnemonic, w: u32, o: Outcome)
    requires Inv(h) && FloatOutcome(sf, h, m, w, o)
    ensures Kept(h, o)
  {
    hide FpFinish, FloatOutcome;
    FloatEnds(sf, h, m, w, o);
    if mode, dest, v, flags :| o == Running(FpFinish(h, mode, dest, v, flags)) {
      FinishKeeps(h, mode, dest, v, flags);
    }
  }

  /** One instruction keeps the invariant and the memory layout. */
  lemma ExecKeeps(sf: SoftFloat, h: Hart, m: InsnMnemonic, w: u32, reply: HostReply)
    requires Inv(h)
    ensures Kept(h, Exec(sf, h, m, w, reply))
  {
    IntegerKeeps(h, m, w);
    JumpKeeps(h, m, w);
    LoadKeeps(h, m, w);
    StoreKeeps(h, m, w);
    SyscallKeeps(h, reply);
    CsrKeeps(h, m, w);
    assert Kept(h, Running(h.Next())) by { PutKeeps(h, 0, 0); }
    hide Kept, ExecInteger, ExecJump, ExecLoad, ExecStore, ExecSyscall, ExecCsr, ExecFpArith, ExecFpSelect,
         ExecFpCompare, ExecFpConvert;
    var o := Exec(sf, h, m, w, reply);
    if FloatOutcome(sf, h, m, w, o) { FloatKeeps(sf, h, m, w, o); }
  }

  /** Only decoding makes an instruction illegal. */
  lemma ExecIsLegal(sf: SoftFloat, h: Hart, m: InsnMnemonic, w: u32, reply: HostReply)
    ensures !Exec(sf, h, m, w, reply).Illegal?
  {
    hide AluRegReg, AluRegImm, AluShiftImm, AluUnary, IsaImmI, IsaImmU, IsaImmB, IsaImmJ, Extended, Load, Store, InRegion,
         AllMapped, WriteWrapped, ReadWrapped, BranchTaken, IsRegReg, IsRegImm, IsShiftImm, IsUnary, RdOf, Rs1Of, Rs2Of,
         Rs3Of, Wrap, AccessSize, FpFinish, FpValue, InjectSign, LessEqual, FloatClass, Pow2, AskedMode, SetMode,
         ReadCsr, WriteCsr, CsrOperation, CsrOf;
  }

  lemma StepKeeps(sf: SoftFloat, h: Hart, reply: HostReply)
    requires Inv(h)
    ensures match Step(sf, h, reply)
            case Running(h') => Inv(h') && SameLayout(h.mem, h'.mem)
            case Illegal(h') => h' == h
            case Undefined => true
  {
    hide OpcodeDecode, Load, InRegion, Exec, Inv;
    LoadWord(h.mem, h.pc);
    ExecKeeps(sf, h, OpcodeDecode(Load(h.mem, h.pc, 4)), Load(h.mem, h.pc, 4), reply);
  }

  /**
   Every run keeps the pc even, x0 stored as zero, the fields of fcsr in range, and every address and
   every backed range of the memory.
   */
  lemma {:induction false} RunKeeps(sf: SoftFloat, h: Hart, replies: seq<HostReply>)
    requires Inv(h) && !Run(sf, h, replies).Undefined?
    ensures Inv(Run(sf, h, replies).h) && SameLayout(h.mem, Run(sf, h, replies).h.mem)
    decreases |replies|
  {
    hide Inv, Step;
    if replies != [] && !h.stopped {
      StepKeeps(sf, h, replies[0]);
      if Step(sf, h, replies[0]).Running? {
        RunKeeps(sf, Step(sf, h, replies[0]).h, replies[1..]);
      }
    }
  }

  /** A run in two parts; in particular nothing happens any more after the first stop. */
  lemma {:induction false} RunInTwo(sf: SoftFloat, h: Hart, first: seq<HostReply>, second: seq<HostReply>)
    ensures Run(sf, h, first + second)
         == match Run(sf, h, first) case Running(h') => Run(sf, h', second) case o => o
    decreases |first|
  {
    hide Step;
    if first == [] {
      assert first + second == second;
    } else if h.stopped {
      assert Run(sf, h, second) == Running(h);
    } else {
      assert (first + second)[0] == first[0] && (first + second)[1..] == first[1..] + second;
      match Step(sf, h, first[0]) {
        case Running(h') => RunInTwo(sf, h', first[1..], second);
        case _ =>
      }
    }
  }

  // --------------------------------------------------- exception flags accumulate

  predicate IsCsr(m: InsnMnemonic) { CSRRW <= m <= CSRRCI }

  /** CSRRS and CSRRC with x0, or with the immediate 0, only read. */
  predicate WritesCsr(m: InsnMnemonic, w: u32) { IsCsr(m) && (m == CSRRW || m == CSRRWI || Rs1Of(w) != 0) }

  predicate FieldsInRange(h: Hart) { h.frm < 8 && h.fflags < 32 }

  /** The rounding-mode field is the same and no flag has been cleared. */
  predicate FlagsGrow(h: Hart, h': Hart) { h'.frm == h.frm && And(h.fflags, h'.fflags) == h.fflags }

  lemma {:induction false} AndAbsorbs(x: nat, y: nat)
    ensures And(x, x) == x && And(x, Or(x, y)) == x
    decreases x + y
  {
    hide And, Or;
    if x > 0 {
      AndAbsorbs(x / 2, y / 2);
      OrHalves(x, y);
      AndHalves(x, Or(x, y));
      AndHalves(x, x);
    }
  }

  lemma {:induction false} AndTransitive(x: nat, y: nat, z: nat)
    requires And(x, y) == x && And(y, z) == y
    ensures And(x, z) == x
    decreases x
  {
    hide And;
    AndStep(x, y);
    AndStep(y, z);
    AndStep(x, z);
    if x > 0 { AndTransitive(x / 2, y / 2, z / 2); }
  }

  predicate SameFlags(h: Hart, o: Outcome) { o.Running? ==> o.h.frm == h.frm && o.h.fflags == h.fflags }

  lemma PlainFlags(h: Hart, m: InsnMnemonic, w: u32, reply: HostReply)
    ensures SameFlags(h, ExecInteger(h, m, w)) && SameFlags(h, ExecJump(h, m, w)) && SameFlags(h, Running(h.Next()))
    ensures SameFlags(h, ExecLoad(h, m, w)) && SameFlags(h, ExecStore(h, m, w)) && SameFlags(h, ExecSyscall(h, reply))
  {
    hide AluRegReg, AluRegImm, AluShiftImm, AluUnary, IsaImmI, IsaImmU, IsaImmS, IsaImmB, IsaImmJ, Extended, Load, Store,
         InRegion, AllMapped, WriteWrapped, ReadWrapped, BranchTaken, IsRegReg, IsRegImm, IsShiftImm, IsUnary, RdOf,
         Rs1Of, Rs2Of, Wrap, AccessSize;
  }

  /** Reading a CSR changes neither field. */
  lemma CsrReadKeepsFlags(h: Hart, m: InsnMnemonic, w: u32)
    requires FieldsInRange(h) && IsCsr(m) && !WritesCsr(m, w)
    ensures SameFlags(h, ExecCsr(h, m, w))
  {
    hide And, Or, RdOf, CsrOf;
    NothingJoined(ReadCsr(h, CsrOf(w)));
    JoinedFields(h.frm, h.fflags);
  }

  lemma NothingJoined(x: u32)
    ensures Or(x, 0) == x && And(x, Not(0)) == x
  {
    Pow2Values();
    AndLowMask(x, 32);
    LowFits(x, 32);
  }

  lemma JoinedFields(frm: nat, fflags: nat)
    requires frm < 8 && fflags < 32
    ensures Wrap(32 * frm + fflags) / 32 % 8 == frm && Wrap(32 * frm + fflags) % 32 == fflags
    ensures Wrap(frm) % 8 == frm && Wrap(fflags) % 32 == fflags
  {
  }

  /** CSRRS and CSRRSI clear no flag, whatever they write and to which of the three. */
  lemma CsrSetClearsNothing(h: Hart, m: InsnMnemonic, w: u32)
    requires FieldsInRange(h) && (m == CSRRS || m == CSRRSI) && ExecCsr(h, m, w).Running?
    ensures And(h.fflags, ExecCsr(h, m, w).h.fflags) == h.fflags
  {
    hide And, Or, RdOf, CsrOf, Rs1Of;
    var was, v := ReadCsr(h, CsrOf(w)), if m == CSRRS then h.X(Rs1Of(w)) else Rs1Of(w);
    JoinedFields(h.frm, h.fflags);
    AndAbsorbs(h.fflags, v % 32);
    OrLowFive(was, v);
  }

  lemma OrLowFive(x: nat, y: nat)
    ensures Or(x, y) % 32 == Or(x % 32, y % 32)
  {
    hide And, Or;
    Pow2Values();
    AndOr(x, y, 0x1f);
    AndLowMask(x, 5);
    AndLowMask(y, 5);
    AndLowMask(Or(x, y), 5);
  }

  /** No instruction but the CSR writes changes frm or clears a flag. */
  lemma ExecGrowsFlags(sf: SoftFloat, h: Hart, m: InsnMnemonic, w: u32, reply: HostReply)
    requires FieldsInRange(h) && !WritesCsr(m, w) && Exec(sf, h, m, w, reply).Running?
    ensures FlagsGrow(h, Exec(sf, h, m, w, reply).h) && FieldsInRange(Exec(sf, h, m, w, reply).h)
  {
    AndAbsorbs(h.fflags, 0);
    PlainFlags(h, m, w, reply);
    if IsCsr(m) { CsrReadKeepsFlags(h, m, w); }
    hide And, Or, FpFinish, ExecInteger, ExecJump, ExecLoad, ExecStore, ExecSyscall, ExecCsr, ExecFpArith, ExecFpSelect,
         ExecFpCompare, ExecFpConvert, WritesCsr;
    var o := Exec(sf, h, m, w, reply);
    if FloatOutcome(sf, h, m, w, o) {
      FloatEnds(sf, h, m, w, o);
      var mode, dest, v, flags :| o == Running(FpFinish(h, mode, dest, v, flags));
      FinishGrows(h, mode, dest, v, flags);
    }
  }

  lemma FinishGrows(h: Hart, mode: Rounding, dest: Dest, v: u32, flags: nat)
    requires FieldsInRange(h)
    ensures FlagsGrow(h, FpFinish(h, mode, dest, v, flags)) && FieldsInRange(FpFinish(h, mode, dest, v, flags))
  {
    AndAbsorbs(h.fflags, flags % 32);
    FlagsBound(h.fflags, flags % 32);
    hide And, Or;
  }

  /** No step of the run writes a CSR. */
  ghost predicate RunsNoCsrWrite(sf: SoftFloat, h: Hart, replies: seq<HostReply>)
    decreases |replies|
  {
    replies == [] || h.stopped ||
    (&& (LoadWord(h.mem, h.pc); !WritesCsr(OpcodeDecode(Load(h.mem, h.pc, 4)), Load(h.mem, h.pc, 4)))
     && (Step(sf, h, replies[0]).Running? ==> RunsNoCsrWrite(sf, Step(sf, h, replies[0]).h, replies[1..])))
  }

  /** Between CSR writes the exception flags only grow and the rounding-mode field stays. */
  lemma {:induction false} RunGrowsFlags(sf: SoftFloat, h: Hart, replies: seq<HostReply>)
    requires FieldsInRange(h) && RunsNoCsrWrite(sf, h, replies) && !Run(sf, h, replies).Undefined?
    ensures FlagsGrow(h, Run(sf, h, replies).h)
    decreases |replies|
  {
    AndAbsorbs(h.fflags, 0);
    hide And, Exec, InRegion, Load, OpcodeDecode, WritesCsr;
    if replies != [] && !h.stopped && Step(sf, h, replies[0]).Running? {
      LoadWord(h.mem, h.pc);
      var w: u32 := Load(h.mem, h.pc, 4);
      ExecGrowsFlags(sf, h, OpcodeDecode(w), w, replies[0]);
      var h' := Step(sf, h, replies[0]).h;
      RunGrowsFlags(sf, h', replies[1..]);
      AndTransitive(h.fflags, h'.fflags, Run(sf, h', replies[1..]).h.fflags);
    }
  }
}
