/**
 The first-match scan over the mask/match table and the dispatch on its result.  The scan is
 unambiguous, does not depend on the order of the rows, and agrees with the opcode maps on every word.
 */
module Decoder {
  import opened Bits
  import opened InstructionSet

  predicate Matches(e: InsnRow, w: u32) { And(w, e.mask) == e.bits }

  /** The mnemonic of the first row that matches. */
  function FirstMatch(table: seq<InsnRow>, w: u32): InsnMnemonic {
    if table == [] then INVALID
    else if Matches(table[0], w) then table[0].mnem
    else FirstMatch(table[1..], w)
  }

  lemma AndMaskLow(w: u32)
    ensures And(w, 0x7f) == w % 128
    ensures And(w, 0x707f) == w % 128 + 0x1000 * (w / 0x1000 % 8)
    ensures And(w, 0xffffffff) == w
  {
    hide And, Pow2, Low;
    Pow2Values();
    AndLowMask(w, 7);
    ShiftValue(w, 7, 128);
    AndField(w, 12, 3, 0x7f, 0x1000, 8, 0x707f);
    AndLowMask(w, 32);
    LowFits(w, 32);
  }

  lemma AndMaskHigh(w: u32, low: nat)
    requires low == 0x7f || low == 0x707f
    ensures And(w, 0xfe00_0000 + low) == And(w, low) + 0x200_0000 * (w / 0x200_0000)
    ensures And(w, 0x600_0000 + low) == And(w, low) + 0x200_0000 * (w / 0x200_0000 % 4)
  {
    hide And, Pow2;
    Pow2Values();
    AndField(w, 25, 7, low, 0x200_0000, 128, 0xfe00_0000 + low);
    AndField(w, 25, 2, low, 0x200_0000, 4, 0x600_0000 + low);
  }

  lemma AndMaskRs2(w: u32, low: nat)
    requires low == 0x7f || low == 0x707f
    ensures And(w, 0xfff0_0000 + low)
         == And(w, low) + 0x200_0000 * (w / 0x200_0000) + 0x10_0000 * (w / 0x10_0000 % 32)
  {
    hide And, Pow2;
    Pow2Values();
    AndField(w, 20, 12, low, 0x10_0000, 4096, 0xfff0_0000 + low);
  }

  lemma AndMasked(mask: u32, w: u32)
    requires KnownMask(mask)
    ensures And(w, mask) == Masked(mask, FieldsOf(w))
  {
    hide And;
    var low := if HasFunct3(mask) then 0x707f else 0x7f;
    AndMaskLow(w);
    AndMaskHigh(w, low);
    AndMaskRs2(w, low);
  }

  // ---------------------------------------- the rows against the opcode maps

  /** What is known of the fields of a word; the last line is for the two rows that compare all of it. */
  ghost predicate Linked(f: Fields) {
    && 0 <= f.opcode < 128 && 0 <= f.funct3 < 8 && 0 <= f.funct7 < 128 && 0 <= f.rs2 < 32
    && (f.word == 0x73 || f.word == 0x10_0073 ==> f.opcode == 0x73 && f.funct3 == 0)
  }

  ghost predicate RowAgrees(e: InsnEntry, f: Fields) {
    && e.mnem != INVALID
    && (Masked(e.mask, f) == e.bits <==> DecodeFields(WithoutRs2(f)) == e.mnem)
  }

  lemma ControlAgree(e: InsnEntry, f: Fields)
    requires e in I_UPPER + I_JUMP + I_BRANCH && Linked(f)
    ensures RowAgrees(e, f)
  {
    hide FormatOf, MaskOf;
  }

  lemma LoadAgree(e: InsnEntry, f: Fields)
    requires e in I_LOAD && Linked(f)
    ensures RowAgrees(e, f)
  {
    hide FormatOf, MaskOf;
  }

  lemma StoreAgree(e: InsnEntry, f: Fields)
    requires e in I_STORE && Linked(f)
    ensures RowAgrees(e, f)
  {
    hide FormatOf, MaskOf;
  }

  lemma ImmediateAgree(e: InsnEntry, f: Fields)
    requires e in I_IMM && Linked(f)
    ensures RowAgrees(e, f)
  {
    hide FormatOf, MaskOf;
  }

  lemma ShiftAgree(e: InsnEntry, f: Fields)
    requires e in I_SHIFT && Linked(f)
    ensures RowAgrees(e, f)
  {
    hide FormatOf, MaskOf;
  }

  lemma RegisterAgree(e: InsnEntry, f: Fields)
    requires e in I_REG_ADD && Linked(f)
    ensures RowAgrees(e, f)
  {
    hide FormatOf, MaskOf;
  }

  lemma BitwiseAgree(e: InsnEntry, f: Fields)
    requires e in I_REG_LOGIC && Linked(f)
    ensures RowAgrees(e, f)
  {
    hide FormatOf, MaskOf;
  }

  lemma SystemAgree(e: InsnEntry, f: Fields)
    requires e in I_SYSTEM && Linked(f)
    ensures RowAgrees(e, f)
  {
    hide FormatOf, MaskOf;
  }

  lemma CsrAgree(e: InsnEntry, f: Fields)
    requires e in ZICSR_ROWS && Linked(f)
    ensures RowAgrees(e, f)
  {
    hide FormatOf, MaskOf;
  }

  lemma MultiplyAgree(e: InsnEntry, f: Fields)
    requires e in M_MUL && Linked(f)
    ensures RowAgrees(e, f)
  {
    hide FormatOf, MaskOf;
  }

  lemma DivideAgree(e: InsnEntry, f: Fields)
    requires e in M_DIV + M_REM && Linked(f)
    ensures RowAgrees(e, f)
  {
    hide FormatOf, MaskOf;
  }

  lemma LogicAgree(e: InsnEntry, f: Fields)
    requires e in ZBB_LOGIC + ZBB_MINMAX && Linked(f)
    ensures RowAgrees(e, f)
  {
    hide FormatOf, MaskOf;
  }

  lemma ExtendAgree(e: InsnEntry, f: Fields)
    requires e in ZBB_EXTEND && Linked(f)
    ensures RowAgrees(e, f)
  {
    hide FormatOf, MaskOf;
  }

  lemma CountAgree(e: InsnEntry, f: Fields)
    requires e in ZBB_COUNT && Linked(f)
    ensures RowAgrees(e, f)
  {
    hide FormatOf, MaskOf;
  }

  lemma RotateAgree(e: InsnEntry, f: Fields)
    requires e in ZBB_ROTATE && Linked(f)
    ensures RowAgrees(e, f)
  {
    hide FormatOf, MaskOf;
  }

  lemma BytesAgree(e: InsnEntry, f: Fields)
    requires e in ZBB_BYTES && Linked(f)
    ensures RowAgrees(e, f)
  {
    hide FormatOf, MaskOf;
  }

  lemma FloatArithAgree(e: InsnEntry, f: Fields)
    requires e in F_MEMORY + F_ARITH && Linked(f)
    ensures RowAgrees(e, f)
  {
    hide FormatOf, MaskOf;
  }

  lemma FloatFusedAgree(e: InsnEntry, f: Fields)
    requires e in F_FUSED + F_SIGN && Linked(f)
    ensures RowAgrees(e, f)
  {
    hide FormatOf, MaskOf;
  }

  lemma FloatCompareAgree(e: InsnEntry, f: Fields)
    requires e in F_COMPARE && Linked(f)
    ensures RowAgrees(e, f)
  {
    hide FormatOf, MaskOf;
  }

  lemma FloatConvertAgree(e: InsnEntry, f: Fields)
    requires e in F_CONVERT && Linked(f)
    ensures RowAgrees(e, f)
  {
    hide FormatOf, MaskOf;
  }

  lemma FloatMoveAgree(e: InsnEntry, f: Fields)
    requires e in F_MOVE && Linked(f)
    ensures RowAgrees(e, f)
  {
    hide FormatOf, MaskOf;
  }

  lemma TableAgrees(e: InsnEntry, f: Fields)
    requires e in INSN_DECODE_TABLE && Linked(f)
    ensures RowAgrees(e, f)
  {
    hide RowAgrees, Linked;
    if e in I_UPPER + I_JUMP + I_BRANCH {
      ControlAgree(e, f);
    } else if e in I_LOAD {
      LoadAgree(e, f);
    } else if e in I_STORE {
      StoreAgree(e, f);
    } else if e in I_IMM {
      ImmediateAgree(e, f);
    } else if e in I_SHIFT {
      ShiftAgree(e, f);
    } else if e in I_REG_ADD {
      RegisterAgree(e, f);
    } else if e in I_REG_LOGIC {
      BitwiseAgree(e, f);
    } else if e in I_SYSTEM {
      SystemAgree(e, f);
    } else if e in ZICSR_ROWS {
      CsrAgree(e, f);
    } else if e in M_MUL {
      MultiplyAgree(e, f);
    } else if e in M_DIV + M_REM {
      DivideAgree(e, f);
    } else if e in ZBB_LOGIC + ZBB_MINMAX {
      LogicAgree(e, f);
    } else if e in ZBB_EXTEND {
      ExtendAgree(e, f);
    } else if e in ZBB_COUNT {
      CountAgree(e, f);
    } else if e in ZBB_ROTATE {
      RotateAgree(e, f);
    } else if e in ZBB_BYTES {
      BytesAgree(e, f);
    } else if e in F_MEMORY + F_ARITH {
      FloatArithAgree(e, f);
    } else if e in F_FUSED + F_SIGN {
      FloatFusedAgree(e, f);
    } else if e in F_COMPARE {
      FloatCompareAgree(e, f);
    } else if e in F_CONVERT {
      FloatConvertAgree(e, f);
    } else if e in F_MOVE {
      FloatMoveAgree(e, f);
    }
  }

  // ----------------------------------------------------------------- unambiguity

  lemma FieldsAreLinked(w: u32)
    ensures Linked(FieldsOf(w))
    ensures OpcodeDecode(w) == DecodeFields(WithoutRs2(FieldsOf(w)))
  {
    hide DecodeFields;
  }

  /** A row matches a word exactly when the opcode maps say the word is that row's instruction. */
  lemma RowSelects(e: InsnEntry, w: u32)
    requires e in INSN_DECODE_TABLE
    ensures Matches(e, w) <==> OpcodeDecode(w) == e.mnem
    ensures e.mnem != INVALID
  {
    FieldsAreLinked(w);
    hide And, OpcodeDecode, DecodeFields, WithoutRs2, FieldsOf, Masked, Linked, INSN_DECODE_TABLE, FormatOf;
    TableAgrees(e, FieldsOf(w));
    AndMasked(e.mask, w);
  }

  /** Row i belongs to enumerator i: enum and table are generated from the same list. */
  lemma TableOrdinals(i: nat)
    requires i < COUNT
    ensures |INSN_DECODE_TABLE| == COUNT && INSN_DECODE_TABLE[i].mnem == i
  {
    OrdinalsI(if i < 41 then i else 0);
    OrdinalsM(if 41 <= i < 49 then i - 41 else 0);
    OrdinalsZbb(if 49 <= i < 67 then i - 49 else 0);
    OrdinalsF(if 73 <= i then i - 73 else 0);
    hide I_ROWS, M_ROWS, ZBB_ROWS, F_ROWS;
  }

  lemma OrdinalsI(k: nat)
    requires k < 41
    ensures |I_ROWS| == 41 && I_ROWS[k].mnem == k
  {
    hide FormatOf, MaskOf, Masked, FieldsOf;
  }

  lemma OrdinalsM(k: nat)
    requires k < 8
    ensures |M_ROWS| == 8 && M_ROWS[k].mnem == 41 + k
  {
    hide FormatOf, MaskOf, Masked, FieldsOf;
  }

  lemma OrdinalsZbb(k: nat)
    requires k < 18
    ensures |ZBB_ROWS| == 18 && ZBB_ROWS[k].mnem == 49 + k
  {
    hide FormatOf, MaskOf, Masked, FieldsOf;
  }

  lemma OrdinalsF(k: nat)
    requires k < 26
    ensures |F_ROWS| == 26 && F_ROWS[k].mnem == 73 + k
  {
    hide FormatOf, MaskOf, Masked, FieldsOf;
  }

  function RowOf(m: InsnMnemonic): (e: InsnEntry)
    requires m < COUNT
    ensures e in INSN_DECODE_TABLE && e.mnem == m
  {
    TableOrdinals(m);
    INSN_DECODE_TABLE[m]
  }

  lemma DecodeRange(w: u32)
    ensures OpcodeDecode(w) == INVALID || OpcodeDecode(w) < COUNT
  {
  }

  /** The scan finds the instruction of the opcode maps, and nothing when there is none. */
  method Decode(insn: u32) returns (mnem: InsnMnemonic)
    ensures mnem == FirstMatch(INSN_DECODE_TABLE, insn)
    ensures mnem == OpcodeDecode(insn)
    ensures mnem == IsaDecode(insn) <==> !ReservedZextH(insn)
  {
    hide *;
    ScanIsDecode(insn);
    ScanIsStandard(insn);
    for i := 0 to |INSN_DECODE_TABLE|
      invariant FirstMatch(INSN_DECODE_TABLE, insn) == FirstMatch(INSN_DECODE_TABLE[i..], insn)
    {
      FirstMatchStep(INSN_DECODE_TABLE[i..], insn);
      assert INSN_DECODE_TABLE[i..][1..] == INSN_DECODE_TABLE[i + 1..];
      var entry := INSN_DECODE_TABLE[i];
      if And(insn, entry.mask) == entry.bits {
        return entry.mnem;
      }
    }
    FirstMatchStep([], insn);
    return INVALID;
  }

  lemma FirstMatchStep(table: seq<InsnRow>, w: u32)
    ensures FirstMatch(table, w)
         == if table == [] then INVALID
            else if And(w, table[0].mask) == table[0].bits then table[0].mnem
            else FirstMatch(table[1..], w)
  {
  }

  /** All matching rows of the table carry the same instruction. */
  ghost predicate Unambiguous(table: seq<InsnRow>, w: u32, m: InsnMnemonic) {
    forall e :: e in table && Matches(e, w) ==> e.mnem == m
  }

  lemma {:induction false} FirstMatchIs(table: seq<InsnRow>, w: u32, m: InsnMnemonic)
    requires Unambiguous(table, w, m)
    ensures FirstMatch(table, w) == if exists e :: e in table && Matches(e, w) then m else INVALID
  {
    hide Matches;
    if table != [] {
      assert table == [table[0]] + table[1..];
      FirstMatchIs(table[1..], w, m);
    }
  }

  /** First-match decoding is decoding by the opcode maps, for every word. */
  lemma ScanIsDecode(w: u32)
    ensures FirstMatch(INSN_DECODE_TABLE, w) == OpcodeDecode(w)
  {
    hide INSN_DECODE_TABLE, OpcodeDecode, Matches;
    var m := OpcodeDecode(w);
    forall e | e in INSN_DECODE_TABLE
      ensures Matches(e, w) <==> m == e.mnem
    {
      RowSelects(e, w);
    }
    FirstMatchIs(INSN_DECODE_TABLE, w, m);
    DecodeRange(w);
    if m != INVALID {
      TableOrdinals(m);
      assert INSN_DECODE_TABLE[m] in INSN_DECODE_TABLE;
    }
  }

  // ----------------------------------------------------------- against the ISA

  /** The words that look like ZEXT_H but have a register in the rs2 field. */
  predicate ReservedZextH(w: u32) {
    w % 128 == 0x33 && w / 0x1000 % 8 == 4 && w / 0x200_0000 == 4 && w / 0x10_0000 % 32 != 0
  }

  /** The scan decodes as the ISA does, except for exactly the words with a register in the rs2 field of ZEXT_H. */
  lemma ScanIsStandard(w: u32)
    ensures FirstMatch(INSN_DECODE_TABLE, w) == IsaDecode(w) <==> !ReservedZextH(w)
    ensures ReservedZextH(w) ==> FirstMatch(INSN_DECODE_TABLE, w) == ZEXT_H && IsaDecode(w) == INVALID
  {
    hide INSN_DECODE_TABLE, FirstMatch, OpcodeDecode, IsaDecode, ReservedZextH;
    ScanIsDecode(w);
    ReservedDecodes(w);
  }

  /** The rs2 field of opcode 0x33 decides nothing but this. */
  lemma ReservedDecodes(w: u32)
    ensures ReservedZextH(w) ==> OpcodeDecode(w) == ZEXT_H && IsaDecode(w) == INVALID
    ensures !ReservedZextH(w) ==> OpcodeDecode(w) == IsaDecode(w)
  {
    hide DecodeOpImm, DecodeOpFp, DecodeSystem, DecodeLoad, DecodeBranch;
  }

  /** Such a word: ZEXT_H of x0 into x0 with x1 in the rs2 field. */
  lemma ZextHWithRs2()
    ensures FirstMatch(INSN_DECODE_TABLE, 0x0810_4033) == ZEXT_H && IsaDecode(0x0810_4033) == INVALID
  {
    hide INSN_DECODE_TABLE, FirstMatch;
    ScanIsStandard(0x0810_4033);
  }

  /** The row of ZEXT_H with the rs2 field under its mask. */
  const STRICT_ZEXT_H: InsnRow := InsnRow(ZEXT_H, 0xfff0707f, 0x0800_4033)

  function WithRow(table: seq<InsnRow>, i: nat, e: InsnRow): seq<InsnRow>
    requires i < |table|
  {
    table[i := e]
  }

  /** With that row in place of its own the table decodes every word as the ISA does. */
  lemma StrictTableIsStandard(w: u32)
    ensures |INSN_DECODE_TABLE| == COUNT
    ensures FirstMatch(WithRow(INSN_DECODE_TABLE, ZEXT_H, STRICT_ZEXT_H), w) == IsaDecode(w)
  {
    TableOrdinals(ZEXT_H);
    StrictRow(ZEXT_H, w);
    hide INSN_DECODE_TABLE, IsaDecode, Matches, FirstMatch, WithRow;
    var table := WithRow(INSN_DECODE_TABLE, ZEXT_H, STRICT_ZEXT_H);
    forall i: nat | i < COUNT
      ensures |table| == COUNT && table[i].mnem == i && (Matches(table[i], w) <==> IsaDecode(w) == i)
    {
      StrictRow(i, w);
    }
    FirstMatchIs(table, w, IsaDecode(w));
    IsaDecodeRange(w);
    if IsaDecode(w) != INVALID { assert table[IsaDecode(w)] in table; }
  }

  lemma StrictRow(i: nat, w: u32)
    requires i < COUNT
    ensures |INSN_DECODE_TABLE| == COUNT
    ensures var table := WithRow(INSN_DECODE_TABLE, ZEXT_H, STRICT_ZEXT_H);
            |table| == COUNT && table[i].mnem == i && (Matches(table[i], w) <==> IsaDecode(w) == i)
  {
    TableOrdinals(i);
    hide INSN_DECODE_TABLE, IsaDecode, Matches;
    if i == ZEXT_H { StrictRowSelects(w); } else { OtherRowSelects(i, w); }
  }

  lemma OtherRowSelects(i: nat, w: u32)
    requires i < COUNT && i != ZEXT_H
    ensures |INSN_DECODE_TABLE| == COUNT
    ensures Matches(INSN_DECODE_TABLE[i], w) <==> IsaDecode(w) == i
  {
    TableOrdinals(i);
    hide INSN_DECODE_TABLE, OpcodeDecode, IsaDecode, Matches, ReservedZextH;
    RowSelects(INSN_DECODE_TABLE[i], w);
    ReservedDecodes(w);
  }

  lemma IsaDecodeRange(w: u32)
    ensures IsaDecode(w) == INVALID || IsaDecode(w) < COUNT
  {
    hide OpcodeDecode, IsaDecode;
    DecodeRange(w);
    ReservedDecodes(w);
  }

  lemma StrictRowSelects(w: u32)
    ensures Matches(STRICT_ZEXT_H, w) <==> IsaDecode(w) == ZEXT_H
  {
    hide And, OpcodeDecode, IsaDecode;
    ZextHFields(w);
    ReservedDecodes(w);
    AndMasked(STRICT_ZEXT_H.mask, w);
  }

  lemma ZextHFields(w: u32)
    ensures OpcodeDecode(w) == ZEXT_H <==> w % 128 == 0x33 && w / 0x1000 % 8 == 4 && w / 0x200_0000 == 4
  {
  }

  // -------------------------------------------------------- order independence

  ghost predicate Incompatible(a: InsnRow, b: InsnRow) {
    !exists w: u32 :: Matches(a, w) && Matches(b, w)
  }

  ghost predicate PairwiseIncompatible(table: seq<InsnRow>) {
    forall i, j :: 0 <= i < j < |table| ==> Incompatible(table[i], table[j])
  }

  lemma SameRow(table: seq<InsnRow>, i: nat, j: nat, w: u32)
    requires PairwiseIncompatible(table) && i < |table| && j < |table|
    requires Matches(table[i], w) && Matches(table[j], w)
    ensures i == j
  {
    hide Matches;
    assert Incompatible(table[i], table[j]) || Incompatible(table[j], table[i]) || i == j;
  }

  /** Scanning any rearrangement of a pairwise incompatible table gives the same answer. */
  lemma OrderIndependent(table: seq<InsnRow>, permuted: seq<InsnRow>, w: u32)
    requires PairwiseIncompatible(table)
    requires multiset(table) == multiset(permuted)
    ensures FirstMatch(permuted, w) == FirstMatch(table, w)
  {
    hide FirstMatch, Matches;
    forall e ensures e in permuted <==> e in table {
      assert e in multiset(permuted) <==> e in multiset(table);
    }
    if e :| e in table && Matches(e, w) {
      forall d | d in table && Matches(d, w)
        ensures d.mnem == e.mnem
      {
        var i :| 0 <= i < |table| && table[i] == e;
        var j :| 0 <= j < |table| && table[j] == d;
        SameRow(table, i, j, w);
      }
      FirstMatchIs(table, w, e.mnem);
      FirstMatchIs(permuted, w, e.mnem);
    } else {
      FirstMatchIs(table, w, INVALID);
      FirstMatchIs(permuted, w, INVALID);
    }
  }

  /** The instruction table is such a table: no word matches two of its rows. */
  lemma TableIncompatible()
    ensures PairwiseIncompatible(INSN_DECODE_TABLE)
  {
    forall i, j | 0 <= i < j < |INSN_DECODE_TABLE|
      ensures Incompatible(INSN_DECODE_TABLE[i], INSN_DECODE_TABLE[j])
    {
      TableOrdinals(0);
      TableOrdinals(i);
      TableOrdinals(j);
      hide INSN_DECODE_TABLE, OpcodeDecode, Matches;
      var a, b := INSN_DECODE_TABLE[i], INSN_DECODE_TABLE[j];
      if w: u32 :| Matches(a, w) && Matches(b, w) {
        RowSelects(a, w);
        RowSelects(b, w);
      }
    }
  }

  /** The table in any order decodes every word alike. */
  lemma TableOrderIrrelevant(permuted: seq<InsnRow>, w: u32)
    requires multiset(permuted) == multiset(INSN_DECODE_TABLE)
    ensures FirstMatch(permuted, w) == OpcodeDecode(w)
  {
    hide INSN_DECODE_TABLE, OpcodeDecode, FirstMatch;
    TableIncompatible();
    OrderIndependent(INSN_DECODE_TABLE, permuted, w);
    ScanIsDecode(w);
  }

  // ------------------------------------------------------- rows and operand bits

  lemma BitsUnderMask(e: InsnEntry)
    ensures And(e.bits, e.mask) == e.bits
  {
    hide And;
    AndMasked(e.mask, e.bits);
  }

  /** Row i with any operand bits outside its mask decodes to instruction i. */
  lemma RowDecodes(i: nat, operands: u32)
    requires i < COUNT
    requires And(operands, INSN_DECODE_TABLE[i].mask) == 0
    ensures OpcodeDecode(Or32(INSN_DECODE_TABLE[i].bits, operands)) == i
  {
    TableOrdinals(i);
    hide INSN_DECODE_TABLE, OpcodeDecode, And, Or;
    var e := INSN_DECODE_TABLE[i];
    BitsUnderMask(e);
    AndOr(e.bits, operands, e.mask);
    AndCommutes(e.bits, 0);
    AndZero(e.bits);
    RowSelects(e, Or32(e.bits, operands));
  }

  // -------------------------------------------------------------------- dispatch

  /** The callback named after a row. */
  datatype Callback = Callback(name: InsnMnemonic)

  function Callbacks(rows: seq<InsnEntry>): (table: seq<Callback>)
    ensures |table| == |rows|
    ensures forall i :: 0 <= i < |rows| ==> table[i] == Callback(rows[i].mnem)
  {
    if rows == [] then [] else [Callback(rows[0].mnem)] + Callbacks(rows[1..])
  }

  /** Generated from the same rows. */
  const CALLBACK_TABLE: seq<Callback> := Callbacks(INSN_DECODE_TABLE)

  function GetInsnCallback(mnem: InsnMnemonic): Callback
    requires mnem < |CALLBACK_TABLE|
  {
    CALLBACK_TABLE[mnem]
  }

  /** The callback table is parallel to the enumerators. */
  lemma CallbackOf(m: InsnMnemonic)
    requires m < COUNT
    ensures m < |CALLBACK_TABLE| == COUNT && GetInsnCallback(m) == Callback(m)
  {
    TableOrdinals(m);
    hide INSN_DECODE_TABLE;
  }

  /** Dispatch on the decoded enumerator selects the callback of the row that matched. */
  lemma DispatchSelectsRow(m: InsnMnemonic, w: u32)
    requires m < COUNT
    ensures Matches(RowOf(m), w) <==>
              var d := FirstMatch(INSN_DECODE_TABLE, w);
              d < |CALLBACK_TABLE| && GetInsnCallback(d) == Callback(m)
  {
    hide INSN_DECODE_TABLE, OpcodeDecode, Matches, FirstMatch, GetInsnCallback, RowOf;
    RowSelects(RowOf(m), w);
    ScanIsDecode(w);
    CallbackOf(0);
    CallbackOf(m);
    DecodeRange(w);
    if OpcodeDecode(w) < COUNT { CallbackOf(OpcodeDecode(w)); }
  }
}
