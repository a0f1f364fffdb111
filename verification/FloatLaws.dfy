/**
 What the floating-point instructions leave behind, said without the functions of the reference semantics,
 as in `IntegerLaws`: which library function is called with which operands in which mode, where the result
 goes, which flags are joined, and the classes and signs of the numbers.
 */
module FloatLaws {
  import opened Bits
  import opened InstructionSet
  import opened IsaState
  import opened IsaRuns
  import opened IntegerLaws

  function FSrc1(h: Hart, w: u32): u32
    requires Ready(h)
  {
    h.f[w / 0x8000 % 32]
  }

  function FSrc2(h: Hart, w: u32): u32
    requires Ready(h)
  {
    h.f[w / 0x10_0000 % 32]
  }

  function FSrc3(h: Hart, w: u32): u32
    requires Ready(h)
  {
    h.f[w / 0x800_0000]
  }

  predicate OpFp(w: u32, funct7: nat) { w % 128 == 0x53 && w / 0x200_0000 == funct7 }

  predicate OpFp3(w: u32, funct7: nat, funct3: nat) { OpFp(w, funct7) && w / 0x1000 % 8 == funct3 }

  predicate OpFpUnary(w: u32, funct7: nat, rs2: nat) { OpFp(w, funct7) && w / 0x10_0000 % 32 == rs2 }

  predicate Fused(w: u32) { w % 128 in {0x43, 0x47, 0x4b, 0x4f} && w / 0x200_0000 % 4 == 0 }

  /** The rounding-mode field, or frm when it is 7. */
  function Asked(h: Hart, w: u32): nat { if w / 0x1000 % 8 == 7 then h.frm else w / 0x1000 % 8 }

  /** The library's mode after it has been asked for mode r. */
  function ModeAfter(mode: Rounding, r: nat): Rounding {
    if r == 0 then NearEven else if r == 1 then MinMag else if r == 2 then Min else if r == 3 then Max
    else if r == 4 then NearMaxMag else mode
  }

  /** Raised flags join those that are set. */
  predicate Joins(was: nat, flags: nat, now: nat) {
    now < 32 && forall i :: 0 <= i < 5 ==> (Bit(now, i) == 1 <==> Bit(was, i) == 1 || Bit(flags, i) == 1)
  }

  predicate LeavesFloat(h: Hart, w: u32, o: Outcome, v: u32, mode: Rounding, flags: nat)
    requires Ready(h)
  {
    && o.Running? && Joins(h.fflags, flags, o.h.fflags)
    && o.h == h.(f := h.f[Target(w) := v], mode := mode, fflags := o.h.fflags, pc := (h.pc + 4) % 0x1_0000_0000)
  }

  predicate LeavesInt(h: Hart, w: u32, o: Outcome, v: u32, mode: Rounding, flags: nat)
    requires Ready(h)
  {
    && o.Running? && Joins(h.fflags, flags, o.h.fflags)
    && o.h == h.(x := if Target(w) == 0 then h.x else h.x[Target(w) := v], mode := mode, fflags := o.h.fflags,
                 pc := (h.pc + 4) % 0x1_0000_0000)
  }

  // ----------------------------------------------------------------- how they end

  lemma FlagsJoin(was: nat, flags: nat)
    requires was < 32
    ensures Joins(was, flags, Or(was, flags % 32))
  {
    hide Or, Bit;
    FlagsBound(was, flags % 32);
    Pow2Values();
    forall i | 0 <= i < 5
      ensures Bit(Or(was, flags % 32), i) == 1 <==> Bit(was, i) == 1 || Bit(flags, i) == 1
    {
      BitwiseBits(was, flags % 32, i);
      LowBit(flags, 5, i);
    }
  }

  lemma Finishes(h: Hart, w: u32, mode: Rounding, v: u32, flags: nat)
    requires Ready(h) && FieldsInRange(h)
    ensures LeavesFloat(h, w, Running(FpFinish(h, mode, FloatReg(RdOf(w)), v, flags)), v, mode, flags)
    ensures LeavesInt(h, w, Running(FpFinish(h, mode, IntReg(RdOf(w)), v, flags)), v, mode, flags)
  {
    hide Or, Joins;
    FlagsJoin(h.fflags, flags);
  }

  lemma Sources(h: Hart, w: u32)
    requires Ready(h)
    ensures h.F(Rs1Of(w)) == FSrc1(h, w) && h.F(Rs2Of(w)) == FSrc2(h, w) && h.F(Rs3Of(w)) == FSrc3(h, w)
    ensures h.X(Rs1Of(w)) == Src1(h, w) && AskedMode(h, w) == Asked(h, w)
    ensures SetMode(h.mode, Asked(h, w)) == ModeAfter(h.mode, Asked(h, w))
    ensures SetMode(NearEven, Asked(h, w)) == ModeAfter(NearEven, Asked(h, w))
  {
  }

  lemma FloatDecodes(w: u32)
    ensures w % 128 == 0x53 ==> OpcodeDecode(w) == DecodeOpFp(w / 0x1000 % 8, w / 0x200_0000, w / 0x10_0000 % 32)
    ensures Fused(w) ==> OpcodeDecode(w) == FMADD_S + (w % 128 - 0x43) / 4
  {
    hide DecodeOpFp;
  }

  lemma AfterFloat(sf: SoftFloat, h: Hart, w: u32, reply: HostReply, m: InsnMnemonic)
    requires m == OpcodeDecode(w)
    ensures FADD_S <= m <= FNMADD_S ==> After(sf, h, w, reply) == ExecFpArith(sf, h, m, w)
    ensures FSGNJ_S <= m <= FMAX_S ==> After(sf, h, w, reply) == ExecFpSelect(sf, h, m, w)
    ensures FLE_S <= m <= FEQ_S ==> After(sf, h, w, reply) == ExecFpCompare(sf, h, m, w)
    ensures FCVT_W_S <= m <= FMV_W_X ==> After(sf, h, w, reply) == ExecFpConvert(sf, h, m, w)
  {
    hide OpcodeDecode, ExecFpArith, ExecFpSelect, ExecFpCompare, ExecFpConvert;
  }

  // ------------------------------------------------------------------- arithmetic

  function Flip(v: u32): u32 { (v + 0x8000_0000) % 0x1_0000_0000 }

  predicate IsArith(w: u32) {
    OpFp(w, 0x00) || OpFp(w, 0x04) || OpFp(w, 0x08) || OpFp(w, 0x0c) || OpFpUnary(w, 0x2c, 0) || Fused(w)
  }

  /** FADD, FSUB, FMUL, FDIV, FSQRT; FMADD, FMSUB, FNMSUB, FNMADD. */
  function Computed(sf: SoftFloat, mode: Rounding, w: u32, a: u32, b: u32, c: u32): FpResult {
    if w % 128 == 0x43 then sf(FpMulAdd, mode, a, b, c)
    else if w % 128 == 0x47 then sf(FpMulAdd, mode, a, b, Flip(c))
    else if w % 128 == 0x4b then sf(FpMulAdd, mode, Flip(a), b, c)
    else if w % 128 == 0x4f then var r := sf(FpMulAdd, mode, a, b, c); FpResult(Flip(r.value), r.flags)
    else if w / 0x200_0000 == 0x00 then sf(FpAdd, mode, a, b, 0)
    else if w / 0x200_0000 == 0x04 then sf(FpSub, mode, a, b, 0)
    else if w / 0x200_0000 == 0x08 then sf(FpMul, mode, a, b, 0)
    else if w / 0x200_0000 == 0x0c then sf(FpDiv, mode, a, b, 0)
    else sf(FpSqrt, mode, a, 0, 0)
  }

  lemma ComputedValue(sf: SoftFloat, mode: Rounding, w: u32, a: u32, b: u32, c: u32)
    requires IsArith(w)
    ensures FADD_S <= OpcodeDecode(w) <= FNMADD_S
    ensures FpValue(sf, mode, OpcodeDecode(w), a, b, c) == Computed(sf, mode, w, a, b, c)
  {
    hide OpcodeDecode;
    FloatDecodes(w);
  }

  lemma ArithLaw(sf: SoftFloat, h: Hart, w: u32, reply: HostReply)
    requires Ready(h) && FieldsInRange(h) && IsArith(w)
    ensures var mode := ModeAfter(h.mode, Asked(h, w));
            var r := Computed(sf, mode, w, FSrc1(h, w), FSrc2(h, w), FSrc3(h, w));
            if Asked(h, w) == 7 then After(sf, h, w, reply) == Undefined
            else LeavesFloat(h, w, After(sf, h, w, reply), r.value, mode, r.flags)
  {
    hide After, OpcodeDecode, LeavesFloat, LeavesInt, FpFinish, FpValue, Computed, IsArith, AskedMode, Asked, SetMode,
         ModeAfter, FSrc1, FSrc2, FSrc3, Rs1Of, Rs2Of, Rs3Of, RdOf, Hart.F;
    var mode := ModeAfter(h.mode, Asked(h, w));
    Sources(h, w);
    ComputedValue(sf, mode, w, FSrc1(h, w), FSrc2(h, w), FSrc3(h, w));
    AfterFloat(sf, h, w, reply, OpcodeDecode(w));
    var r := Computed(sf, mode, w, FSrc1(h, w), FSrc2(h, w), FSrc3(h, w));
    Finishes(h, w, mode, r.value, r.flags);
  }

  // -------------------------------------------------------------- signs and choice

  /** FSGNJ, FSGNJN, FSGNJX keep the magnitude of the first operand. */
  predicate SignResult(funct3: nat, a: u32, b: u32, v: u32) {
    && v % 0x8000_0000 == a % 0x8000_0000
    && (v >= 0x8000_0000 <==>
        if funct3 == 0 then b >= 0x8000_0000
        else if funct3 == 1 then b < 0x8000_0000
        else (a >= 0x8000_0000) != (b >= 0x8000_0000))
  }

  lemma SignLaw(sf: SoftFloat, h: Hart, w: u32, reply: HostReply) returns (v: u32)
    requires Ready(h) && FieldsInRange(h) && (OpFp3(w, 0x10, 0) || OpFp3(w, 0x10, 1) || OpFp3(w, 0x10, 2))
    ensures LeavesFloat(h, w, After(sf, h, w, reply), v, h.mode, 0)
    ensures SignResult(w / 0x1000 % 8, FSrc1(h, w), FSrc2(h, w), v)
  {
    hide After, OpcodeDecode, LeavesFloat, LeavesInt, FpFinish, FSrc1, FSrc2, Rs1Of, Rs2Of, RdOf, Hart.F;
    Sources(h, w);
    FloatDecodes(w);
    AfterFloat(sf, h, w, reply, OpcodeDecode(w));
    v := InjectSign(OpcodeDecode(w), FSrc1(h, w), FSrc2(h, w));
    Finishes(h, w, h.mode, v, 0);
  }

  /** FMIN and FMAX by one comparison of the library. */
  lemma ChoiceLaw(sf: SoftFloat, h: Hart, w: u32, reply: HostReply)
    requires Ready(h) && FieldsInRange(h) && (OpFp3(w, 0x14, 0) || OpFp3(w, 0x14, 1))
    ensures var a, b := FSrc1(h, w), FSrc2(h, w);
            var le := sf(FpLe, h.mode, a, b, 0).value != 0;
            LeavesFloat(h, w, After(sf, h, w, reply), if le == OpFp3(w, 0x14, 0) then a else b, h.mode, 0)
  {
    hide After, OpcodeDecode, LeavesFloat, LeavesInt, FpFinish, FSrc1, FSrc2, Rs1Of, Rs2Of, RdOf, Hart.F;
    Sources(h, w);
    FloatDecodes(w);
    AfterFloat(sf, h, w, reply, OpcodeDecode(w));
    Finishes(h, w, h.mode, FSrc1(h, w), 0);
    Finishes(h, w, h.mode, FSrc2(h, w), 0);
  }

  /** FLE, FLT, FEQ. */
  lemma FloatCompareLaw(sf: SoftFloat, h: Hart, w: u32, reply: HostReply)
    requires Ready(h) && FieldsInRange(h) && (OpFp3(w, 0x50, 0) || OpFp3(w, 0x50, 1) || OpFp3(w, 0x50, 2))
    ensures var op := if OpFp3(w, 0x50, 0) then FpLe else if OpFp3(w, 0x50, 1) then FpLt else FpEq;
            var r := sf(op, h.mode, FSrc1(h, w), FSrc2(h, w), 0);
            LeavesInt(h, w, After(sf, h, w, reply), if r.value != 0 then 1 else 0, h.mode, r.flags)
  {
    hide After, OpcodeDecode, LeavesFloat, LeavesInt, FpFinish, FSrc1, FSrc2, Rs1Of, Rs2Of, RdOf, Hart.F;
    Sources(h, w);
    FloatDecodes(w);
    AfterFloat(sf, h, w, reply, OpcodeDecode(w));
    var op := if OpFp3(w, 0x50, 0) then FpLe else if OpFp3(w, 0x50, 1) then FpLt else FpEq;
    var r := sf(op, h.mode, FSrc1(h, w), FSrc2(h, w), 0);
    Finishes(h, w, h.mode, if r.value != 0 then 1 else 0, r.flags);
  }

  // ------------------------------------------------------- conversions, moves, class

  /** FCVT.W.S and FCVT.WU.S round in the mode asked for, to nearest even for 5 and 6. */
  lemma ToIntLaw(sf: SoftFloat, h: Hart, w: u32, reply: HostReply)
    requires Ready(h) && FieldsInRange(h) && (OpFpUnary(w, 0x60, 0) || OpFpUnary(w, 0x60, 1))
    ensures var op := if OpFpUnary(w, 0x60, 0) then FpToI32 else FpToUi32;
            var r := sf(op, ModeAfter(NearEven, Asked(h, w)), FSrc1(h, w), 0, 0);
            if Asked(h, w) == 7 then After(sf, h, w, reply) == Undefined
            else LeavesInt(h, w, After(sf, h, w, reply), r.value, ModeAfter(h.mode, Asked(h, w)), r.flags)
  {
    hide After, OpcodeDecode, LeavesFloat, LeavesInt, FpFinish, FSrc1, FSrc2, FSrc3, AskedMode, Asked, SetMode, ModeAfter,
         FloatClass, Pow2, Rs1Of, Rs2Of, Rs3Of, RdOf, Hart.F, Hart.X;
    Sources(h, w);
    FloatDecodes(w);
    AfterFloat(sf, h, w, reply, OpcodeDecode(w));
    var op := if OpFpUnary(w, 0x60, 0) then FpToI32 else FpToUi32;
    var r := sf(op, ModeAfter(NearEven, Asked(h, w)), FSrc1(h, w), 0, 0);
    Finishes(h, w, ModeAfter(h.mode, Asked(h, w)), r.value, r.flags);
  }

  /** FCVT.S.W and FCVT.S.WU round in the mode that is set. */
  lemma FromIntLaw(sf: SoftFloat, h: Hart, w: u32, reply: HostReply)
    requires Ready(h) && FieldsInRange(h) && (OpFpUnary(w, 0x68, 0) || OpFpUnary(w, 0x68, 1))
    ensures var op := if OpFpUnary(w, 0x68, 0) then FpFromI32 else FpFromUi32;
            var r := sf(op, h.mode, Src1(h, w), 0, 0);
            LeavesFloat(h, w, After(sf, h, w, reply), r.value, h.mode, r.flags)
  {
    hide After, OpcodeDecode, LeavesFloat, LeavesInt, FpFinish, FSrc1, FSrc2, FSrc3, Src1, AskedMode, Asked, SetMode,
         ModeAfter, FloatClass, Pow2, Rs1Of, Rs2Of, Rs3Of, RdOf, Hart.F, Hart.X;
    Sources(h, w);
    FloatDecodes(w);
    AfterFloat(sf, h, w, reply, OpcodeDecode(w));
    var op := if OpFpUnary(w, 0x68, 0) then FpFromI32 else FpFromUi32;
    var r := sf(op, h.mode, Src1(h, w), 0, 0);
    Finishes(h, w, h.mode, r.value, r.flags);
  }

  predicate IsMove(w: u32) { (OpFpUnary(w, 0x70, 0) || OpFpUnary(w, 0x78, 0)) && w / 0x1000 % 8 == 0 }

  /** FMV.X.W and FMV.W.X move the bits. */
  lemma MoveLaw(sf: SoftFloat, h: Hart, w: u32, reply: HostReply)
    requires Ready(h) && FieldsInRange(h) && IsMove(w)
    ensures if OpFp(w, 0x70) then LeavesInt(h, w, After(sf, h, w, reply), FSrc1(h, w), h.mode, 0)
            else LeavesFloat(h, w, After(sf, h, w, reply), Src1(h, w), h.mode, 0)
  {
    hide After, OpcodeDecode, LeavesFloat, LeavesInt, FpFinish, FSrc1, FSrc2, FSrc3, Src1, AskedMode, Asked, SetMode,
         ModeAfter, FloatClass, Pow2, Rs1Of, Rs2Of, Rs3Of, RdOf, Hart.F, Hart.X;
    Sources(h, w);
    FloatDecodes(w);
    AfterFloat(sf, h, w, reply, OpcodeDecode(w));
    Finishes(h, w, h.mode, FSrc1(h, w), 0);
    Finishes(h, w, h.mode, Src1(h, w), 0);
  }

  /** The ten classes in the order of the bits, as ranges of binary32 values. */
  predicate InClass(v: u32, k: nat) {
    match k
    case 0 => v == 0xff80_0000                  // minus infinity
    case 1 => 0x8080_0000 <= v < 0xff80_0000    // negative normal
    case 2 => 0x8000_0000 < v < 0x8080_0000     // negative subnormal
    case 3 => v == 0x8000_0000                  // minus zero
    case 4 => v == 0
    case 5 => 0 < v < 0x80_0000
    case 6 => 0x80_0000 <= v < 0x7f80_0000
    case 7 => v == 0x7f80_0000
    case 8 => 0x7f80_0000 < v < 0x7fc0_0000 || 0xff80_0000 < v < 0xffc0_0000    // signaling NaN
    case 9 => 0x7fc0_0000 <= v < 0x8000_0000 || 0xffc0_0000 <= v                // quiet NaN
    case _ => false
  }

  /** FCLASS sets the one bit of the class that the value is in. */
  lemma ClassLaw(sf: SoftFloat, h: Hart, w: u32, reply: HostReply) returns (k: nat)
    requires Ready(h) && FieldsInRange(h) && OpFpUnary(w, 0x70, 0) && w / 0x1000 % 8 == 1
    ensures k < 10 && InClass(FSrc1(h, w), k) && Pow2(k) < 0x1_0000_0000
    ensures LeavesInt(h, w, After(sf, h, w, reply), Pow2(k), h.mode, 0)
  {
    hide After, OpcodeDecode, LeavesFloat, LeavesInt, FpFinish, FSrc1, FSrc2, FSrc3, Src1, AskedMode, Asked, SetMode,
         ModeAfter, FloatClass, Pow2, Rs1Of, Rs2Of, Rs3Of, RdOf, Hart.F, Hart.X, InClass;
    Sources(h, w);
    FloatDecodes(w);
    AfterFloat(sf, h, w, reply, OpcodeDecode(w));
    k := FloatClass(FSrc1(h, w));
    ClassOf(FSrc1(h, w));
    Pow2Values();
    Finishes(h, w, h.mode, Wrap(Pow2(k)), 0);
  }

  lemma ClassOf(v: u32)
    ensures FloatClass(v) < 10 && InClass(v, FloatClass(v))
  {
  }
}
