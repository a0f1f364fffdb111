/**
 What jumps, branches, loads and stores leave behind, said without the functions of the reference
 semantics, as in `IntegerLaws`.
 */
module MemoryLaws {
  import opened Bits
  import opened Bytes
  import opened FlatMemory
  import opened InstructionSet
  import opened RvInsn
  import opened IsaState
  import opened IntegerLaws

  // --------------------------------------------------------- jumps and branches

  predicate HasOp(w: u32, opcode: nat, funct3: nat) { w % 128 == opcode && w / 0x1000 % 8 == funct3 }

  /** The immediates as sums of bits, the sign bit with a negative weight. */
  function ImmB13(w: u32): int {
    -4096 * (w / 0x8000_0000) + 2048 * (w / 0x80 % 2) + 32 * (w / 0x200_0000 % 64) + 2 * (w / 0x100 % 16)
  }

  function ImmJ21(w: u32): int {
    -0x10_0000 * (w / 0x8000_0000) + 4096 * (w / 0x1000 % 256) + 2048 * (w / 0x10_0000 % 2) + 2 * (w / 0x20_0000 % 1024)
  }

  function ImmS12(w: u32): int {
    32 * (w / 0x200_0000) + w / 0x80 % 32 - if w < 0x8000_0000 then 0 else 4096
  }

  lemma JumpImmediates(w: u32)
    ensures IsaImmB(w) == ImmB13(w) && IsaImmJ(w) == ImmJ21(w)
  {
  }

  lemma AddressImmediates(w: u32)
    ensures IsaImmI(w) == ImmI12(w) && IsaImmS(w) == ImmS12(w)
  {
  }

  /** BEQ, BNE, BLT, BGE, BLTU, BGEU. */
  predicate Compares(funct3: nat, a: u32, b: u32) {
    match funct3
    case 0 => a == b
    case 1 => a != b
    case 4 => Int(a) < Int(b)
    case 5 => Int(a) >= Int(b)
    case 6 => a < b
    case _ => a >= b
  }

  /** A branch moves the pc and nothing else: by its immediate when the comparison holds, else by four. */
  lemma BranchLaw(sf: SoftFloat, h: Hart, w: u32, reply: HostReply)
    requires Ready(h) && w % 128 == 0x63 && w / 0x1000 % 8 != 2 && w / 0x1000 % 8 != 3
    ensures var step := if Compares(w / 0x1000 % 8, Src1(h, w), Src2(h, w)) then ImmB13(w) else 4;
            After(sf, h, w, reply) == Running(h.(pc := (h.pc + step) % 0x1_0000_0000))
  {
    hide After, OpcodeDecode, ImmB13, IsaImmB, Int, Signed;
    BranchDecodes(w);
    JumpImmediates(w);
    AfterJump(sf, h, w, reply, OpcodeDecode(w));
    IntIs(Src1(h, w));
    IntIs(Src2(h, w));
  }

  lemma BranchDecodes(w: u32)
    requires w % 128 == 0x63
    ensures OpcodeDecode(w) == DecodeBranch(w / 0x1000 % 8)
  {
    hide DecodeBranch;
  }

  /** The unsigned order is the signed one with both signs flipped. */
  lemma FlippedOrder(a: u32, b: u32)
    ensures Compares(4, a, b) <==> Compares(6, (a + 0x8000_0000) % 0x1_0000_0000, (b + 0x8000_0000) % 0x1_0000_0000)
    ensures Compares(6, 0, b) <==> b != 0
    ensures Compares(1, a, b) <==> !Compares(0, a, b)
    ensures Compares(5, a, b) <==> !Compares(4, a, b)
    ensures Compares(7, a, b) <==> !Compares(6, a, b)
  {
  }

  /** rd, unless it is x0, gets v and the pc goes to the target. */
  predicate Links(h: Hart, w: u32, o: Outcome, target: u32)
    requires Ready(h)
  {
    var link := (h.pc + 4) % 0x1_0000_0000;
    o == Running(h.(x := if Target(w) == 0 then h.x else h.x[Target(w) := link], pc := target))
  }

  lemma JalLaw(sf: SoftFloat, h: Hart, w: u32, reply: HostReply)
    requires Ready(h) && w % 128 == 0x6f
    ensures Links(h, w, After(sf, h, w, reply), (h.pc + ImmJ21(w)) % 0x1_0000_0000)
  {
    hide After, OpcodeDecode, ImmJ21, IsaImmJ;
    SingleDecodes(w);
    JumpImmediates(w);
    AfterJump(sf, h, w, reply, JAL);
  }

  /** The target comes from the old rs1 and has its lowest bit cleared. */
  lemma JalrLaw(sf: SoftFloat, h: Hart, w: u32, reply: HostReply)
    requires Ready(h) && HasOp(w, 0x67, 0)
    ensures Links(h, w, After(sf, h, w, reply), (Src1(h, w) + ImmI12(w)) % 0x1_0000_0000 / 2 * 2)
  {
    hide After, OpcodeDecode, ImmI12, IsaImmI;
    SingleDecodes(w);
    AddressImmediates(w);
    AfterJump(sf, h, w, reply, JALR);
  }

  // ----------------------------------------------------------------------- loads

  function LoadFrom(h: Hart, w: u32): u32
    requires Ready(h)
  {
    (Src1(h, w) + ImmI12(w)) % 0x1_0000_0000
  }

  function StoreTo(h: Hart, w: u32): u32
    requires Ready(h)
  {
    (Src1(h, w) + ImmS12(w)) % 0x1_0000_0000
  }

  /** Bytes that an access with this funct3 covers. */
  function Width(funct3: nat): nat { if funct3 % 4 == 0 then 1 else if funct3 % 4 == 1 then 2 else 4 }

  function Half(m: FlatMem, a: nat): nat { Peek(m, a) + 0x100 * Peek(m, a + 1) }

  function Word(m: FlatMem, a: nat): nat { Half(m, a) + 0x1_0000 * Half(m, a + 2) }

  /** LB, LH, LW, LBU, LHU: v is the value at the address with its sign or with zeros in front. */
  predicate LoadResult(funct3: nat, m: FlatMem, a: nat, v: u32) {
    match funct3
    case 0 => var b := Peek(m, a); Int(v) == if b < 128 then b else b - 256
    case 1 => var b := Half(m, a); Int(v) == if b < 0x8000 then b else b - 0x1_0000
    case 4 => v == Peek(m, a)
    case 5 => v == Half(m, a)
    case _ => v == Word(m, a)
  }

  lemma LoadedBytes(m: FlatMem, a: nat)
    ensures Load(m, a, 1) == Peek(m, a) && Load(m, a, 2) == Half(m, a) && Load(m, a, 4) == Word(m, a) < 0x1_0000_0000
  {
    hide Peek;
    LoadStep(m, a, 1);
    LoadStep(m, a, 2);
    LoadStep(m, a, 4);
    LoadStep(m, a + 1, 1);
    LoadStep(m, a + 1, 3);
    LoadStep(m, a + 2, 2);
    LoadStep(m, a + 3, 1);
    hide Load;
  }

  lemma LoadStep(m: FlatMem, a: nat, n: nat)
    requires n > 0
    ensures Load(m, a, n) == Peek(m, a) + 256 * Load(m, a + 1, n - 1) && Load(m, a, 0) == 0 && Load(m, a + 1, 0) == 0
  {
    hide Peek;
    assert ReadBytes(m, a, n)[1..] == ReadBytes(m, a + 1, n - 1);
  }

  lemma AfterLoad(sf: SoftFloat, h: Hart, w: u32, reply: HostReply, m: InsnMnemonic)
    requires m == OpcodeDecode(w) && (LB <= m <= LHU || m == FLW)
    ensures After(sf, h, w, reply) == ExecLoad(h, m, w)
  {
    hide OpcodeDecode, ExecLoad;
  }

  lemma AfterStore(sf: SoftFloat, h: Hart, w: u32, reply: HostReply, m: InsnMnemonic)
    requires m == OpcodeDecode(w) && (SB <= m <= SW || m == FSW)
    ensures After(sf, h, w, reply) == ExecStore(h, m, w)
  {
    hide OpcodeDecode, ExecStore;
  }

  lemma AfterJump(sf: SoftFloat, h: Hart, w: u32, reply: HostReply, m: InsnMnemonic)
    requires m == OpcodeDecode(w) && JAL <= m <= BGEU
    ensures After(sf, h, w, reply) == ExecJump(h, m, w)
  {
    hide OpcodeDecode, ExecJump;
  }

  lemma Addresses(h: Hart, w: u32)
    requires Ready(h)
    ensures LoadAddress(h, w) == LoadFrom(h, w) && StoreAddress(h, w) == StoreTo(h, w)
  {
    hide IsaImmI, IsaImmS, ImmI12, ImmS12;
    AddressImmediates(w);
  }

  lemma LoadDecodes(w: u32)
    requires w % 128 == 0x03
    ensures OpcodeDecode(w) == DecodeLoad(w / 0x1000 % 8)
  {
    hide DecodeLoad;
  }

  lemma LoadLaw(sf: SoftFloat, h: Hart, w: u32, reply: HostReply) returns (v: u32)
    requires Ready(h) && w % 128 == 0x03 && w / 0x1000 % 8 in {0, 1, 2, 4, 5}
    requires InRegion(h.mem, LoadFrom(h, w), Width(w / 0x1000 % 8))
    ensures Leaves(h, w, After(sf, h, w, reply), v)
    ensures LoadResult(w / 0x1000 % 8, h.mem, LoadFrom(h, w), v)
  {
    hide After, OpcodeDecode, InRegion, Load, LoadAddress, LoadFrom, Extended, Int, LoadResult;
    LoadDecodes(w);
    Addresses(h, w);
    AfterLoad(sf, h, w, reply, OpcodeDecode(w));
    var m, a := OpcodeDecode(w), LoadFrom(h, w);
    v := Extended(m, Load(h.mem, a, AccessSize(m)));
    LoadResults(w / 0x1000 % 8, h.mem, a);
  }

  lemma LoadResults(funct3: nat, m: FlatMem, a: nat)
    requires funct3 in {0, 1, 2, 4, 5}
    ensures var i := DecodeLoad(funct3); LoadResult(funct3, m, a, Extended(i, Load(m, a, AccessSize(i))))
  {
    hide Load, Int, SignExtended, Half, Word;
    LoadedBytes(m, a);
    LoadWord(m, a);
    ExtendedValues(Load(m, a, 1));
    ExtendedValues(Load(m, a, 2));
  }

  /** FLW puts the word into the float register. */
  lemma FloatLoadLaw(sf: SoftFloat, h: Hart, w: u32, reply: HostReply)
    requires Ready(h) && HasOp(w, 0x07, 2) && InRegion(h.mem, LoadFrom(h, w), 4)
    ensures Word(h.mem, LoadFrom(h, w)) < 0x1_0000_0000
    ensures After(sf, h, w, reply)
         == Running(h.(f := h.f[Target(w) := Word(h.mem, LoadFrom(h, w))], pc := (h.pc + 4) % 0x1_0000_0000))
  {
    hide After, OpcodeDecode, InRegion, Load, LoadAddress, LoadFrom, Word;
    SingleDecodes(w);
    Addresses(h, w);
    AfterLoad(sf, h, w, reply, FLW);
    LoadedBytes(h.mem, LoadFrom(h, w));
  }

  lemma SingleDecodes(w: u32)
    ensures HasOp(w, 0x07, 2) ==> OpcodeDecode(w) == FLW
    ensures HasOp(w, 0x27, 2) ==> OpcodeDecode(w) == FSW
    ensures w % 128 == 0x6f ==> OpcodeDecode(w) == JAL
    ensures HasOp(w, 0x67, 0) ==> OpcodeDecode(w) == JALR
  {
  }

  /** Outside the bytes of one segment there is no result. */
  lemma StrayLoad(sf: SoftFloat, h: Hart, w: u32, reply: HostReply)
    requires Ready(h) && w % 128 == 0x03 && w / 0x1000 % 8 in {0, 1, 2, 4, 5}
    ensures After(sf, h, w, reply) == Undefined <==> !InRegion(h.mem, LoadFrom(h, w), Width(w / 0x1000 % 8))
  {
    hide After, OpcodeDecode, InRegion, Load, LoadAddress, LoadFrom, Extended;
    LoadDecodes(w);
    Addresses(h, w);
    AfterLoad(sf, h, w, reply, OpcodeDecode(w));
  }

  // ---------------------------------------------------------------------- stores

  /** The n bytes from a on are those of v, lowest first, and all others are as they were. */
  ghost predicate Stored(m: FlatMem, m': FlatMem, a: nat, n: nat, v: u32) {
    && m'.owner == m.owner
    && (forall k: nat :: k in m'.bytes <==> k in m.bytes || a <= k < a + n)
    && (forall k: nat :: Peek(m', k) == if a <= k < a + n then ByteOf(v, k - a) else Peek(m, k))
  }

  lemma StoredAt(m: FlatMem, a: nat, n: nat, v: u32)
    ensures Stored(m, Store(m, a, n, v), a, n, v)
  {
    hide Peek, WriteBytes, ToLE, ByteOf;
    WriteBytesAt(m, a, ToLE(v, n));
    forall i | 0 <= i < n
      ensures ToLE(v, n)[i] == ByteOf(v, i)
    {
      LittleEndianByte(v, n, i);
    }
  }

  lemma LittleEndianByte(v: u32, n: nat, i: nat)
    requires i < n
    ensures ToLE(v, n)[i] == ByteOf(v, i)
  {
    ToLEByte(v, n, i);
  }

  predicate IsStore(w: u32) { HasOp(w, 0x23, 0) || HasOp(w, 0x23, 1) || HasOp(w, 0x23, 2) || HasOp(w, 0x27, 2) }

  lemma StoreDecodes(w: u32)
    requires IsStore(w)
    ensures OpcodeDecode(w) == if w % 128 == 0x27 then FSW else SB + w / 0x1000 % 8
  {
  }

  /** SB, SH, SW and FSW. */
  lemma StoreLaw(sf: SoftFloat, h: Hart, w: u32, reply: HostReply) returns (m: FlatMem)
    requires Ready(h) && IsStore(w) && InRegion(h.mem, StoreTo(h, w), Width(w / 0x1000 % 8))
    ensures After(sf, h, w, reply) == Running(h.(mem := m, pc := (h.pc + 4) % 0x1_0000_0000))
    ensures Stored(h.mem, m, StoreTo(h, w), Width(w / 0x1000 % 8),
                   if w % 128 == 0x27 then h.f[w / 0x10_0000 % 32] else Src2(h, w))
  {
    hide After, OpcodeDecode, InRegion, Store, StoreAddress, StoreTo, Stored;
    StoreDecodes(w);
    Addresses(h, w);
    AfterStore(sf, h, w, reply, OpcodeDecode(w));
    var v := if w % 128 == 0x27 then h.f[w / 0x10_0000 % 32] else Src2(h, w);
    m := Store(h.mem, StoreTo(h, w), Width(w / 0x1000 % 8), v);
    StoredAt(h.mem, StoreTo(h, w), Width(w / 0x1000 % 8), v);
  }

  // ------------------------------------------------------------- store, then load

  /** What a load with this funct3 makes of a register that a store of the same width wrote. */
  predicate Returned(funct3: nat, stored: u32, v: u32) {
    match funct3
    case 0 => var b := stored % 256; Int(v) == if b < 128 then b else b - 256
    case 1 => var b := stored % 0x1_0000; Int(v) == if b < 0x8000 then b else b - 0x1_0000
    case 4 => v == stored % 256
    case 5 => v == stored % 0x1_0000
    case _ => v == stored
  }

  lemma BytesOfWord(v: u32)
    ensures ByteOf(v, 0) == v % 0x100
    ensures ByteOf(v, 0) + 0x100 * ByteOf(v, 1) == v % 0x1_0000
    ensures ByteOf(v, 0) + 0x100 * ByteOf(v, 1) + 0x1_0000 * (ByteOf(v, 2) + 0x100 * ByteOf(v, 3)) == v
  {
    Pow2Values();
    hide Pow2;
    FourDigits(v);
  }

  lemma FourDigits(v: u32)
    ensures v % 0x1_0000 == v % 0x100 + 0x100 * (v / 0x100 % 0x100)
    ensures v == v % 0x1_0000 + 0x1_0000 * (v / 0x1_0000 % 0x100) + 0x100_0000 * (v / 0x100_0000 % 0x100)
  {
    assert v / 0x1_0000 == v / 0x1_0000 % 0x100 + 0x100 * (v / 0x100_0000);
  }

  lemma StoredThenLoaded(m: FlatMem, m': FlatMem, a: nat, funct3: nat, stored: u32, v: u32)
    requires Stored(m, m', a, Width(funct3), stored) && LoadResult(funct3, m', a, v) && funct3 in {0, 1, 2, 4, 5}
    ensures Returned(funct3, stored, v)
  {
    hide Int, Peek, ByteOf;
    BytesOfWord(stored);
  }

  /** SB then LB or LBU, SH then LH or LHU, SW then LW, at the same address. */
  lemma StoreThenLoad(sf: SoftFloat, h: Hart, w: u32, w': u32, reply: HostReply, reply': HostReply) returns (v: u32)
    requires Ready(h) && w % 128 == 0x23 && w' % 128 == 0x03 && w / 0x1000 % 8 <= 2
    requires w' / 0x1000 % 8 in {0, 1, 2, 4, 5} && w' / 0x1000 % 8 % 4 == w / 0x1000 % 8
    requires LoadFrom(h, w') == StoreTo(h, w) && InRegion(h.mem, StoreTo(h, w), Width(w / 0x1000 % 8))
    ensures After(sf, h, w, reply).Running? && Ready(After(sf, h, w, reply).h)
    ensures Leaves(After(sf, h, w, reply).h, w', After(sf, After(sf, h, w, reply).h, w', reply'), v)
    ensures Returned(w' / 0x1000 % 8, Src2(h, w), v)
  {
    var m := StoreLaw(sf, h, w, reply);
    var g := After(sf, h, w, reply).h;
    hide After, InRegion, LoadFrom, StoreTo, Leaves, LoadResult, Returned, Src2, Stored, Width;
    SameAddress(h, g, w');
    SameWidth(w / 0x1000 % 8, w' / 0x1000 % 8);
    SameOwners(h.mem, m, StoreTo(h, w), Width(w / 0x1000 % 8)) by { OwnersStay(h, w, m); }
    v := LoadLaw(sf, g, w', reply');
    StoredThenLoaded(h.mem, m, StoreTo(h, w), w' / 0x1000 % 8, Src2(h, w), v);
  }

  lemma SameAddress(h: Hart, g: Hart, w: u32)
    requires Ready(h) && Ready(g) && g.x == h.x
    ensures LoadFrom(g, w) == LoadFrom(h, w)
  {
  }

  lemma SameWidth(stored: nat, loaded: nat)
    requires stored <= 2 && loaded % 4 == stored
    ensures Width(loaded) == Width(stored)
  {
  }

  lemma OwnersStay(h: Hart, w: u32, m: FlatMem)
    requires Ready(h) && Stored(h.mem, m, StoreTo(h, w), Width(w / 0x1000 % 8), Src2(h, w))
    ensures m.owner == h.mem.owner
  {
  }
}
