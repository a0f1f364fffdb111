/** The fcsr register and its two views, as coded with masks. */
module Csr {
  import opened Bits
  import opened InstructionSet
  import opened IsaHelpers

  predicate KnownCsr(index: nat) { index == CSR_FFLAGS || index == CSR_FRM || index == CSR_FCSR }

  function SetCsr(fcsr: u32, index: nat, value: u32): u32
    requires KnownCsr(index)
  {
    if index == CSR_FFLAGS then Or32(And(fcsr, Not(0x1f)), And(value, 0x1f))
    else if index == CSR_FRM then Or32(And(fcsr, Not(Shl(0x7, 5))), Shl(And(value, 0x7), 5))
    else And(value, 0xff)
  }

  function GetCsr(fcsr: u32, index: nat): u32
    requires KnownCsr(index)
  {
    if index == CSR_FFLAGS then And(fcsr, 0x1f)
    else if index == CSR_FRM then And(Shr(fcsr, 5), 0x7)
    else And(fcsr, 0xff)
  }

  lemma GetCsrValue(fcsr: u32, index: nat)
    requires KnownCsr(index) && fcsr <= 0xff
    ensures GetCsr(fcsr, index) == if index == CSR_FFLAGS then fcsr % 32 else if index == CSR_FRM then fcsr / 32 else fcsr
  {
    hide And;
    Pow2Values();
    AndLowMask(fcsr, 5);
    AndLowMask(Shr(fcsr, 5), 3);
    AndLowMask(fcsr, 8);
  }

  lemma ClearFlags(fcsr: u32)
    requires fcsr <= 0xff
    ensures And(fcsr, Not(0x1f)) == 32 * (fcsr / 32)
  {
    Pow2Values();
    assert Up(0x7ff_ffff, 5) == Not(0x1f) && Shr(fcsr, 5) == fcsr / 32 && Up(fcsr / 32, 5) == 32 * (fcsr / 32);
    hide And, Up, Low, Shr, Pow2;
    Pow2Values();
    Split(fcsr, 5);
    AndConcat(Shr(fcsr, 5), Low(fcsr, 5), 0x7ff_ffff, 0, 5);
    AndLowMask(Shr(fcsr, 5), 27);
    LowFits(Shr(fcsr, 5), 27);
    AndZero(Low(fcsr, 5));
  }

  lemma ClearMode(fcsr: u32)
    requires fcsr <= 0xff
    ensures And(fcsr, Not(Shl(0x7, 5))) == fcsr % 32
  {
    Pow2Values();
    assert Shl(0x7, 5) == 0xe0 && Up(0xff_ffff, 8) + 0x1f == Not(0xe0) && Low(fcsr, 5) == fcsr % 32;
    hide And, Up, Low, Shr, Shl, Pow2;
    Pow2Values();
    ShiftZero(0);
    ShiftByBit(8);
    AndConcat(0, fcsr, 0xff_ffff, 0x1f, 8);
    AndLowMask(fcsr, 5);
    AndCommutes(0, 0xff_ffff);
    AndZero(0xff_ffff);
  }

  /** Each write replaces its own field and keeps the other; the register stays below 256. */
  lemma SetCsrValue(fcsr: u32, index: nat, value: u32)
    requires KnownCsr(index) && fcsr <= 0xff
    ensures SetCsr(fcsr, index, value)
         == if index == CSR_FFLAGS then 32 * (fcsr / 32) + value % 32
            else if index == CSR_FRM then 32 * (value % 8) + fcsr % 32
            else value % 256
  {
    hide And, Or, Shl, Up, Low, Pow2;
    Pow2Values();
    ClearFlags(fcsr);
    ClearMode(fcsr);
    MaskedValues(value);
    OrDisjoint(value % 32, fcsr / 32, 5);
    ShlSmall(value % 8, 5, 3);
    OrDisjoint(fcsr % 32, value % 8, 5);
    UpFive(fcsr / 32);
    UpFive(value % 8);
  }

  /** The same, field by field. */
  lemma SetCsrFields(fcsr: u32, index: nat, value: u32)
    requires KnownCsr(index) && fcsr <= 0xff
    ensures SetCsr(fcsr, index, value) <= 0xff
    ensures SetCsr(fcsr, index, value) / 32
         == if index == CSR_FFLAGS then fcsr / 32 else if index == CSR_FRM then value % 8 else value / 32 % 8
    ensures SetCsr(fcsr, index, value) % 32 == if index == CSR_FRM then fcsr % 32 else value % 32
  {
    hide SetCsr;
    SetCsrValue(fcsr, index, value);
    JoinFields(fcsr / 32, value % 32);
    JoinFields(value % 8, fcsr % 32);
    LowByte(value);
  }

  lemma JoinFields(q: nat, r: nat)
    requires q < 8 && r < 32
    ensures (32 * q + r) / 32 == q && (32 * q + r) % 32 == r && 32 * q + r <= 0xff
  {
  }

  lemma LowByte(value: u32)
    ensures value % 256 / 32 == value / 32 % 8 && value % 256 % 32 == value % 32
  {
  }

  lemma UpFive(x: nat)
    ensures Up(x, 5) == 32 * x
  {
    Pow2Values();
  }

  lemma MaskedValues(value: u32)
    ensures And(value, 0x1f) == value % 32 && And(value, 0x7) == value % 8 && And(value, 0xff) == value % 256
  {
    hide And;
    Pow2Values();
    AndLowMask(value, 5);
    AndLowMask(value, 3);
    AndLowMask(value, 8);
  }

  /** fcsr is 32 * frm + fflags, and a view reads back what was written to it. */
  lemma CsrReadBack(fcsr: u32, index: nat, value: u32)
    requires fcsr <= 0xff && KnownCsr(index)
    ensures GetCsr(fcsr, CSR_FCSR) == 32 * GetCsr(fcsr, CSR_FRM) + GetCsr(fcsr, CSR_FFLAGS)
    ensures SetCsr(fcsr, index, value) <= 0xff
    ensures GetCsr(SetCsr(fcsr, index, value), index)
         == if index == CSR_FFLAGS then value % 32 else if index == CSR_FRM then value % 8 else value % 256
  {
    hide SetCsr, GetCsr;
    SetCsrValue(fcsr, index, value);
    GetCsrValue(fcsr, CSR_FFLAGS);
    GetCsrValue(fcsr, CSR_FRM);
    GetCsrValue(fcsr, CSR_FCSR);
    GetCsrValue(SetCsr(fcsr, index, value), index);
  }

  /** Writing one view leaves the other one's reading unchanged. */
  lemma CsrOtherView(fcsr: u32, value: u32)
    requires fcsr <= 0xff
    ensures GetCsr(SetCsr(fcsr, CSR_FFLAGS, value), CSR_FRM) == GetCsr(fcsr, CSR_FRM)
    ensures GetCsr(SetCsr(fcsr, CSR_FRM, value), CSR_FFLAGS) == GetCsr(fcsr, CSR_FFLAGS)
  {
    hide SetCsr, GetCsr;
    SetCsrValue(fcsr, CSR_FFLAGS, value);
    SetCsrValue(fcsr, CSR_FRM, value);
    GetCsrValue(fcsr, CSR_FFLAGS);
    GetCsrValue(fcsr, CSR_FRM);
    GetCsrValue(SetCsr(fcsr, CSR_FFLAGS, value), CSR_FRM);
    GetCsrValue(SetCsr(fcsr, CSR_FRM, value), CSR_FFLAGS);
  }
}
