/**
 Rounding modes against chapter 11 of the RISC-V Unprivileged ISA: which floating-point instructions
 round as they ask to, and when.
 */
module IsaRounding {
  import opened Bits
  import opened FlatMemory
  import opened InstructionSet
  import opened IsaState

  /** The encodings of the ISA; 5 and 6 are reserved, 7 in frm is no mode. */
  function RoundingOf(r: nat): Rounding
    requires r < 5
  {
    match r case 0 => NearEven case 1 => MinMag case 2 => Min case 3 => Max case 4 => NearMaxMag
  }

  predicate LegalMode(h: Hart, w: u32) { AskedMode(h, w) < 5 }

  function IsaFpArith(sf: SoftFloat, h: Hart, m: InsnMnemonic, w: u32): Outcome {
    if !LegalMode(h, w) then Illegal(h)
    else
      var mode := RoundingOf(AskedMode(h, w));
      var r := FpValue(sf, mode, m, h.F(Rs1Of(w)), h.F(Rs2Of(w)), h.F(Rs3Of(w)));
      Running(FpFinish(h, mode, FloatReg(RdOf(w)), r.value, r.flags))
  }

  function IsaFpToInt(sf: SoftFloat, h: Hart, m: InsnMnemonic, w: u32): Outcome {
    if !LegalMode(h, w) then Illegal(h)
    else
      var mode := RoundingOf(AskedMode(h, w));
      var r := sf(if m == FCVT_W_S then FpToI32 else FpToUi32, mode, h.F(Rs1Of(w)), 0, 0);
      Running(FpFinish(h, mode, IntReg(RdOf(w)), r.value, r.flags))
  }

  /** The mode that the library is set to is not touched: the ISA has no such state. */
  function IsaFpFromInt(sf: SoftFloat, h: Hart, m: InsnMnemonic, w: u32): Outcome {
    if !LegalMode(h, w) then Illegal(h)
    else
      var r := sf(if m == FCVT_S_W then FpFromI32 else FpFromUi32, RoundingOf(AskedMode(h, w)), h.X(Rs1Of(w)), 0, 0);
      Running(FpFinish(h, h.mode, FloatReg(RdOf(w)), r.value, r.flags))
  }

  /** Arithmetic is standard exactly in the legal modes. */
  lemma ArithIsStandard(sf: SoftFloat, h: Hart, m: InsnMnemonic, w: u32)
    requires FADD_S <= m <= FNMSUB_S
    ensures ExecFpArith(sf, h, m, w) == IsaFpArith(sf, h, m, w) <==> LegalMode(h, w)
  {
    hide AskedMode, FpValue, FpFinish, RdOf, Rs1Of, Rs2Of, Rs3Of;
  }

  lemma ToIntIsStandard(sf: SoftFloat, h: Hart, m: InsnMnemonic, w: u32)
    requires m == FCVT_W_S || m == FCVT_WU_S
    ensures ExecFpConvert(sf, h, m, w) == IsaFpToInt(sf, h, m, w) <==> LegalMode(h, w)
  {
    hide AskedMode, FpFinish, RdOf, Rs1Of;
  }

  /** In the reserved modes arithmetic rounds in the mode that was set before, conversion to integers to nearest even. */
  lemma ReservedModes(sf: SoftFloat, h: Hart, w: u32)
    requires AskedMode(h, w) == 5 || AskedMode(h, w) == 6
    ensures forall m :: FADD_S <= m <= FNMADD_S ==>
              var r := FpValue(sf, h.mode, m, h.F(Rs1Of(w)), h.F(Rs2Of(w)), h.F(Rs3Of(w)));
              ExecFpArith(sf, h, m, w) == Running(FpFinish(h, h.mode, FloatReg(RdOf(w)), r.value, r.flags))
    ensures forall m :: m == FCVT_W_S || m == FCVT_WU_S ==>
              var r := sf(if m == FCVT_W_S then FpToI32 else FpToUi32, NearEven, h.F(Rs1Of(w)), 0, 0);
              ExecFpConvert(sf, h, m, w) == Running(FpFinish(h, h.mode, IntReg(RdOf(w)), r.value, r.flags))
  {
    hide AskedMode, FpValue, FpFinish, RdOf, Rs1Of, Rs2Of, Rs3Of;
  }

  /** A library that tells one mode from the others. */
  function Telltale(mode: Rounding): SoftFloat {
    (op: FpOp, md: Rounding, a: u32, b: u32, c: u32) => FpResult(if md == mode then 1 else 0, 0)
  }

  /**
   Conversions from integers are standard, whatever the library, exactly when the mode asked for is legal
   and is the one that the library was last set to.
   */
  lemma FromIntIsStandard(h: Hart, m: InsnMnemonic, w: u32)
    requires m == FCVT_S_W || m == FCVT_S_WU
    requires |h.f| == 32
    ensures (forall sf: SoftFloat :: ExecFpConvert(sf, h, m, w) == IsaFpFromInt(sf, h, m, w))
       <==> LegalMode(h, w) && h.mode == RoundingOf(AskedMode(h, w))
  {
    var sf := if LegalMode(h, w) then Telltale(RoundingOf(AskedMode(h, w))) else Telltale(NearEven);
    if ExecFpConvert(sf, h, m, w) == IsaFpFromInt(sf, h, m, w) {
      FinishWrites(h, h.mode, RdOf(w), 0, 1, 0);
    }
    hide AskedMode, FpFinish, RdOf, Rs1Of;
  }

  /** What ends up in the register is what was to be written. */
  lemma FinishWrites(h: Hart, mode: Rounding, r: nat, v: u32, v': u32, flags: nat)
    requires r < |h.f| && v != v'
    ensures FpFinish(h, mode, FloatReg(r), v, flags) != FpFinish(h, mode, FloatReg(r), v', flags)
  {
    assert FpFinish(h, mode, FloatReg(r), v, flags).f[r] == v;
    assert FpFinish(h, mode, FloatReg(r), v', flags).f[r] == v';
  }

  const FADD_TOWARD_ZERO: u32 := 0x0000_1053
  const FCVT_TO_NEAREST: u32 := 0xd000_80d3

  lemma StaleWords()
    ensures OpcodeDecode(FADD_TOWARD_ZERO) == FADD_S && RmOf(FADD_TOWARD_ZERO) == 1 && RdOf(FADD_TOWARD_ZERO) == 0
    ensures OpcodeDecode(FCVT_TO_NEAREST) == FCVT_S_W && RmOf(FCVT_TO_NEAREST) == 0 && RdOf(FCVT_TO_NEAREST) == 1
  {
  }

  /** An addition that rounds toward zero leaves that mode behind. */
  lemma AdditionSetsMode(h: Hart)
    requires |h.f| == 32
    ensures var o := ExecFpArith(Telltale(NearEven), h, FADD_S, FADD_TOWARD_ZERO);
            o.Running? && o.h.mode == MinMag && o.h.pc == h.Next().pc && o.h.mem == h.mem && |o.h.f| == 32
            && o.h.stopped == h.stopped
  {
    StaleWords();
    hide Or, RmOf, RdOf, OpcodeDecode, Rs1Of, Rs2Of, Rs3Of, Wrap;
  }

  lemma ConversionIsStale(h: Hart)
    requires |h.f| == 32 && h.mode == MinMag
    ensures var o := ExecFpConvert(Telltale(NearEven), h, FCVT_S_W, FCVT_TO_NEAREST); o.Running? && o.h.F(1) == 0
    ensures var o := IsaFpFromInt(Telltale(NearEven), h, FCVT_S_W, FCVT_TO_NEAREST); o.Running? && o.h.F(1) == 1
  {
    StaleWords();
    hide Or, RmOf, RdOf, OpcodeDecode, Rs1Of, Wrap;
  }

  /**
   The run of two instructions in which it shows: FADD.S toward zero, then FCVT.S.W f1, x1 to nearest even.
   The conversion rounds toward zero, where the ISA says to nearest even.
   */
  lemma StaleMode(h: Hart)
    requires |h.f| == 32 && h.mode == NearEven && !h.stopped && h.pc + 4 < TWO32
    requires InRegion(h.mem, h.pc, 4) && Load(h.mem, h.pc, 4) == FADD_TOWARD_ZERO
    requires InRegion(h.mem, h.pc + 4, 4) && Load(h.mem, h.pc + 4, 4) == FCVT_TO_NEAREST
    ensures var sf := Telltale(NearEven);
            && Step(sf, h, Failed).Running?
            && Run(sf, h, [Failed, Failed]).Running? && Run(sf, h, [Failed, Failed]).h.F(1) == 0
            && var o := IsaFpFromInt(sf, Step(sf, h, Failed).h, FCVT_S_W, FCVT_TO_NEAREST);
               o.Running? && o.h.F(1) == 1
  {
    var sf := Telltale(NearEven);
    hide *;
    StaleWords();
    FirstStep(sf, h);
    var g := Step(sf, h, Failed).h;
    SecondStep(sf, g);
    ConversionIsStale(g);
    TwoSteps(sf, h, Failed);
  }

  lemma FirstStep(sf: SoftFloat, h: Hart)
    requires sf == Telltale(NearEven) && |h.f| == 32 && h.pc + 4 < TWO32
    requires InRegion(h.mem, h.pc, 4) && Load(h.mem, h.pc, 4) == FADD_TOWARD_ZERO
    ensures var o := Step(sf, h, Failed);
            o.Running? && o.h.mode == MinMag && o.h.pc == h.pc + 4 && o.h.mem == h.mem && |o.h.f| == 32
            && o.h.stopped == h.stopped
  {
    StaleWords();
    AdditionSetsMode(h);
    hide OpcodeDecode, InRegion, Load, ExecFpArith, Telltale;
  }

  lemma SecondStep(sf: SoftFloat, g: Hart)
    requires InRegion(g.mem, g.pc, 4) && Load(g.mem, g.pc, 4) == FCVT_TO_NEAREST
    ensures Step(sf, g, Failed) == ExecFpConvert(sf, g, FCVT_S_W, FCVT_TO_NEAREST)
  {
    StaleWords();
    hide OpcodeDecode, InRegion, Load, ExecFpConvert;
  }

  lemma TwoSteps(sf: SoftFloat, h: Hart, r: HostReply)
    requires !h.stopped && Step(sf, h, r).Running? && !Step(sf, h, r).h.stopped
    requires Step(sf, Step(sf, h, r).h, r).Running?
    ensures Run(sf, h, [r, r]) == Step(sf, Step(sf, h, r).h, r)
  {
    hide Step;
    var rest: seq<HostReply> := [r];
    assert [r, r][1..] == rest && rest[1..] == [];
    assert Run(sf, Step(sf, h, r).h, rest) == Run(sf, Step(sf, Step(sf, h, r).h, r).h, []);
  }
}
