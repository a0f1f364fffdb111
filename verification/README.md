# Verification of riscv-sim

riscv-sim is an instruction-set simulator for RV32IMF with Zbb and Zicsr. This project models it and proves
that every run without an undefined operation, of every program from every start state, is a run of a reference
semantics written after the instruction set; where the simulator departs from the instruction set, the reference
departs with it, and separate results say exactly when (FMIN, FMAX, FNMADD and EBREAK excepted, see below).

There are two sides.

* **The simulator as coded.** `RVSim` and `Memory` are classes whose methods change registers, instruction pointer,
  fcsr and segment buffers in place. The decoder is the linear scan over the 99 mask/match rows. The instruction word
  accessors, `isa_hlp.hpp`, the loops of Zbb and the `fcsr` masks are written with the shifts and masks of the source.
* **The reference semantics.** `IsaState` has the architectural state (`Hart`) as a value: pc, registers, frm and fflags
  as numbers, one byte per address. Instructions are recognised by the opcode maps, immediates are read as in section
  2.3 of the RISC-V Unprivileged ISA, results are integer arithmetic. `Run` is a sequence of `Step`s up to the first stop.

The main result is the contract of `RVSim.Execute`: after any number of turns of the fetch/decode/dispatch loop the
machine is in the state that the same number of reference steps gives, with the same result (exit code, unknown
instruction, or still running), and so keeps everything that every reference run keeps. The supporting results are the
ones a refinement of this kind rests on: the table decoder equals the opcode maps on all 2^32 words, those of the ISA
except where ZEXT_H is concerned, and inverts an encoder, segments searched first-match, overlapping or not, refine a flat
byte map, each loop and bit trick equals its arithmetic meaning, and the constructor leaves the argc/argv block where a C
runtime looks for it.

The reference is not taken on trust either. The files of laws say for each of the 99 instructions what it leaves in the
registers, the memory and the pc, on words given by their numeric fields and registers given by their contents, by
properties that single the result out: a quotient by its rest, a count by a set of places, a float class by a range. They
name none of the functions by which the reference computes its results, and each also says that nothing else has changed.

Words are natural numbers below 2^32 (`Bits`): wrap-around is written out as a remainder, shifts multiply or divide by
powers of two, AND, OR and XOR are defined bit by bit.

Where the code and what is said about it differ, the model follows the code:

* The comment at `SetByte` says that one byte is replaced; every byte above it is erased as well. `SetByteReplaces` says
  exactly when the comment holds. REV8 and ORC_B are right because they fill the bytes from the lowest upwards.
* MULH multiplies zero-extended and MULHSU sign-extended operands. `tests/mul.s` expects the standard meaning;
  `SignTestsFail` gives its operands, `MulhIsStandard` and `MulhsuIsStandard` say exactly when the results agree.
* SLL and SRL take the whole register as shift amount, which C++ leaves undefined from 32 on; the standard takes five bits.
* The argv segment ends four bytes behind its data, so an access is required to stay inside the data.
  `UnbackedAddresses` says which addresses pass the segment check without a byte behind them.
* The row of ZEXT_H does not compare the rs2 field, which the ISA fixes at 0. `ScanIsStandard` says for which words that
  matters, `ZextHWithRs2` gives one, and `StrictTableIsStandard` shows that one changed row is enough to mend it.
* FCVT.S.W and FCVT.S.WU round in the mode that the last instruction happened to set. `FromIntIsStandard` says exactly
  when that is right, `StaleMode` gives a run in which it is not.
* The reserved rounding modes 5 and 6, illegal in the ISA, are executed: `ReservedModes` says in which mode, and
  `ArithIsStandard` and `ToIntIsStandard` that only these and a dynamic mode above 4 set the simulator apart there.
  These three are read off the definitions.
* Jumps and taken branches to an address that is no multiple of 4 are carried out; without compressed instructions
  section 2.5 of the ISA raises an exception. `JumpAlignment` gives the exact condition, `RunAlignment` lifts it to runs,
  and `JalToHalfword` gives a word that does it.
* EBREAK is stepped over, where the ISA raises a breakpoint exception.

The asserts of the simulator and the C++ operations without a defined result are the outcome `Undefined` of the
reference semantics. Runs that reach it are excluded: accesses outside the data of a segment or running on under another one,
unknown CSR numbers and system calls, a dynamic rounding mode of 7, and shifts by 32 or more in SLL and SRL. Two undefined
operations are given the value they have on common hosts instead: the product of MULH, which overflows `int64_t` from 2^63 on, wraps modulo
2^64, and the shift by 32 that ROL, ROR and RORI make for amount 0 gives 0.

| file | contents |
|---|---|
| `Bits.dfy`, `Bytes.dfy` | words, bits and little-endian bytes as numbers |
| `IsaHelpers.dfy`, `RvInsn.dfy` | `isa_hlp.hpp` and the instruction word accessors |
| `InstructionSet.dfy`, `Decoder.dfy`, `Encoder.dfy` | rows, opcode maps, scan, dispatch, encoder |
| `FlatMemory.dfy`, `Memory.dfy` | flat memory, segments, the `Memory` class |
| `MulDiv.dfy`, `BitManip.dfy`, `FloatBits.dfy`, `Csr.dfy` | arithmetic of the extensions |
| `IsaState.dfy`, `IsaRuns.dfy` | reference semantics, invariants of its runs |
| `IntegerLaws.dfy`, `MemoryLaws.dfy`, `SystemLaws.dfy`, `FloatLaws.dfy` | what each instruction leaves behind, by laws |
| `Alignment.dfy`, `Rounding.dfy` | jump targets and rounding modes against the ISA |
| `ProgramArgs.dfy` | argument strings and stack block |
| `CallbackOps.dfy`, `RvSim.dfy` | what callbacks compute, the `RVSim` class |

## Model

| member | source | states |
|---|---|---|
| RvSimulator.RVSim.Execute | src/sim/source/rv_sim.cpp:16-34 | n turns of the loop leave the state of n reference steps, up to the first stop; the result is a0 after a stop and the exception on an unknown instruction; the run keeps the list of segments with their bounds and buffers, pc even, x0 zero and fcsr in range, and until a CSR is written only adds exception flags |
| RvSimulator.RVSim.ExecuteOne | src/sim/source/rv_sim.cpp:20-30 | fetch, table scan, table dispatch and callback are one reference step; an unknown word changes nothing; the list of segments with their bounds and buffers stays |
| RvSimulator.RVSim.Call | src/sim/source/dispatch.cpp:13-23 | the callback of each of the 99 names carries out that instruction of the reference semantics |
| RvSimulator.RVSim.constructor | src/sim/include/sim/rv_sim.hpp:34-84 | the machine starts in the initial state of the program: loaded segments, stack and argument block, gp and sp |
| RvSimulator.InitialState | src/sim/include/sim/rv_sim.hpp:35-84 | the run invariant holds of the initial state exactly when the entry point is even; sp and gp are set, all other registers, frm and fflags are zero |
| RvSimulator.InitialMemory | src/sim/include/sim/rv_sim.hpp:52-80 | if no ELF segment covers the two blocks, the guest loads argc at sp and NULL just below the top of the stack, and pointer i leads to a C string that is argument i; the stack below is zero |
| RvSimulator.LoadProgram | src/sim/include/sim/rv_sim.hpp:35-80 | the memory holds the ELF segments, then the stack, then the arguments, each with its own buffer |
| RvSimulator.LoadSegments | src/sim/include/sim/rv_sim.hpp:34-35 | the segments of the ELF file in their order, copied |
| RvSimulator.BuildArguments | src/sim/include/sim/rv_sim.hpp:42-77 | the two buffers are the stack image and the string image of the arguments |
| RvSimulator.RVSim.Fetch | src/sim/include/sim/memory.hpp:23-25 | the instruction word is the little-endian word of the flat memory at the address |
| RvSimulator.RVSim.SetXReg | src/sim/include/sim/rv_sim.hpp:92-100 | register x0 stays zero, any other holds the value |
| RvSimulator.RVSim.GetXReg | src/sim/include/sim/rv_sim.hpp:106-112 | reads the architectural register, zero for x0 |
| RvSimulator.RVSim.SetFReg | src/sim/include/sim/rv_sim.hpp:118-123 | one float register changes |
| RvSimulator.RVSim.GetFReg | src/sim/include/sim/rv_sim.hpp:125-131 | reads the architectural float register |
| RvSimulator.RVSim.SetCSR | src/sim/include/sim/rv_sim.hpp:133-150 | the write changes the field that the CSR number names and no other |
| RvSimulator.RVSim.GetCSR | src/sim/include/sim/rv_sim.hpp:156-170 | fflags, frm, or 32 * frm + fflags |
| RvSimulator.RVSim.GetRM | src/sim/include/sim/rv_sim.hpp:176-182 | the mode of the instruction, or that of frm for the dynamic one |
| RvSimulator.RVSim.Step | src/sim/include/sim/rv_sim.hpp:188-190 | the pc moves on by four modulo 2^32 and nothing else changes |
| RvSimulator.RVSim.ExecuteRRRBinOp | src/isa/source/ext_i_cb.cpp:39-54 | rd gets the operation of rs1 and rs2 |
| RvSimulator.RVSim.ExecuteRRIBinOp | src/isa/source/ext_i_cb.cpp:56-71 | rd gets the operation of rs1 and the I-immediate of the ISA |
| RvSimulator.RVSim.ExecuteRRIShift | src/isa/source/ext_i_cb.cpp:73-88 | rd gets the arithmetic shift or rotation of rs1 by the shift amount |
| RvSimulator.RVSim.UnaryResult | src/isa/source/ext_zbb_cb.cpp:115-325 | extension, count and byte loops return the arithmetic value of the instruction |
| RvSimulator.RVSim.ExecuteUpper | src/isa/source/ext_i_cb.cpp:111-135 | rd gets the U-immediate of the ISA, for AUIPC added to the pc modulo 2^32 |
| RvSimulator.RVSim.CallbackInteger | src/isa/source/ext_i_cb.cpp:334-513 | every register and immediate instruction of I, M and Zbb is its reference counterpart |
| RvSimulator.RVSim.ExecuteBranch | src/isa/source/ext_i_cb.cpp:90-107 | the pc moves by the B-immediate of the ISA if the condition holds, else by four |
| RvSimulator.RVSim.CallbackJAL | src/isa/source/ext_i_cb.cpp:137-145 | link and jump by the J-immediate of the ISA, modulo 2^32 |
| RvSimulator.RVSim.CallbackJALR | src/isa/source/ext_i_cb.cpp:147-159 | the even target is computed from rs1 before rd is written, also when they are the same register |
| RvSimulator.RVSim.CallbackJump | src/isa/source/ext_i_cb.cpp:137-201 | jumps and branches are their reference counterparts |
| RvSimulator.RVSim.LoadValue | src/isa/source/ext_i_cb.cpp:203-286 | the value loaded from the segments is that of the flat memory, extended as the instruction says |
| RvSimulator.RVSim.StoreValue | src/isa/source/ext_i_cb.cpp:288-332 | the truncated register is stored as little-endian bytes of the flat memory |
| RvSimulator.RVSim.ExecuteLoad | src/isa/source/ext_i_cb.cpp:203-286 | the value at rs1 plus the I-immediate of the ISA, modulo 2^32, goes to rd |
| RvSimulator.RVSim.ExecuteStore | src/isa/source/ext_i_cb.cpp:288-332 | rs2 goes to rs1 plus the S-immediate of the ISA, modulo 2^32; no register changes |
| RvSimulator.RVSim.CallbackMemory | src/isa/source/ext_f_cb.cpp:137-164 | loads and stores, integer and float, are their reference counterparts |
| RvSimulator.RVSim.CallbackCSR | src/isa/source/ext_zicsr_cb.cpp:16-126 | rd gets the old value of the CSR, the CSR the new one |
| RvSimulator.RVSim.SyscallRead | src/isa/source/syscall_handler.cpp:33-52 | the bytes the host read, at most size, are in guest memory and a0 holds their number, or -1 and memory is as before |
| RvSimulator.RVSim.SyscallWrite | src/isa/source/syscall_handler.cpp:52-70 | the host is given exactly the guest bytes; a0 holds the number written or -1 |
| RvSimulator.RVSim.CallbackECALL | src/isa/source/ext_i_cb.cpp:533-540 | number 93 stops the machine and leaves every register and the memory; read and write as above |
| RvSimulator.RVSim.SoftFloatSetRM | src/isa/source/ext_f_cb.cpp:22-41 | the library's mode becomes the one asked for; 5 and 6 leave it and return round-to-nearest-even |
| RvSimulator.RVSim.SoftFloatSetFExcp | src/isa/source/ext_f_cb.cpp:48-58 | the raised flags are joined to fflags, frm is untouched |
| RvSimulator.RVSim.ExecuteFArith | src/isa/source/ext_f_cb.cpp:75-114 | rounding mode set, result of the library in rd, flags accrued |
| RvSimulator.RVSim.ExecuteFSelect | src/isa/source/ext_f_cb.cpp:280-362 | sign injection on the numbers, minimum and maximum by the library's comparison; no flag changes |
| RvSimulator.RVSim.ExecuteFCompare | src/isa/source/ext_f_cb.cpp:116-133 | the comparison goes to an integer register and its flags are accrued |
| RvSimulator.RVSim.ExecuteFToInt | src/isa/source/ext_f_cb.cpp:397-439 | conversion in the mode of the instruction, to nearest even for modes 5 and 6 |
| RvSimulator.RVSim.ExecuteFConvert | src/isa/source/ext_f_cb.cpp:441-538 | conversions from integers, moves and classification are their reference counterparts |
| RvSimulator.RVSim.CallbackFloat | src/isa/source/ext_f_cb.cpp:166-538 | every float instruction is its reference counterpart |
| IntegerLaws.AddSubLaw | src/isa/source/ext_i_cb.cpp:422-434 | after ADD rd holds the sum modulo 2^32, after SUB the number that gives rs1 when rs2 is added; nothing but rd and the pc changes |
| IntegerLaws.CompareLaw | src/isa/source/ext_i_cb.cpp:443-474 | after SLT and SLTU rd is 1 exactly when the registers are in the signed, the unsigned order, else 0 |
| IntegerLaws.AddCompareImmLaw | src/isa/source/ext_i_cb.cpp:334-374 | ADDI, SLTI and SLTIU with the sign-extended upper twelve bits of the word |
| IntegerLaws.UpperLaw | src/isa/source/ext_i_cb.cpp:111-135 | LUI leaves the word without its low twelve bits, AUIPC that number added to the pc |
| IntegerLaws.BitwiseLaw | src/isa/source/ext_zbb_cb.cpp:16-53 | every bit of rd after XOR, OR, AND, XNOR, ORN and ANDN |
| IntegerLaws.BitwiseImmLaw | src/isa/source/ext_i_cb.cpp:376-395 | every bit of rd after XORI, ORI and ANDI |
| IntegerLaws.ShiftLaw | src/isa/source/ext_i_cb.cpp:436-499 | SLL multiplies modulo 2^32; rd times 2^s brackets rs1 after SRL, as signed numbers after SRA |
| IntegerLaws.WideShiftUndefined | src/isa/source/ext_i_cb.cpp:436-441 | SLL and SRL have no result exactly for amounts from 32 on |
| IntegerLaws.ShiftImmLaw | src/isa/source/ext_i_cb.cpp:397-420 | the same for SLLI, SRLI and SRAI |
| IntegerLaws.ProductLaw | src/isa/source/ext_m_cb.cpp:14-89 | MUL leaves the low word of the product; rd times 2^32 brackets the product after MULH as coded and MULHU, the signed product after MULHSU as coded |
| IntegerLaws.DivLaw | src/isa/source/ext_m_cb.cpp:91-156 | DIV leaves the quotient whose rest is smaller than the divisor and zero or of the sign of the dividend, REM that rest; and the special cases |
| IntegerLaws.DivuLaw | src/isa/source/ext_m_cb.cpp:114-178 | DIVU and REMU likewise, unsigned |
| IntegerLaws.MinMaxLaw | src/isa/source/ext_zbb_cb.cpp:55-113 | rd is one of the operands and bounds both in the order of the instruction |
| IntegerLaws.RotateLaw | src/isa/source/ext_zbb_cb.cpp:231-263 | ROL and ROR: the two parts of the word, exchanged |
| IntegerLaws.RotateImmLaw | src/isa/source/ext_zbb_cb.cpp:265-280 | RORI likewise |
| IntegerLaws.RotateUndo | src/isa/source/ext_zbb_cb.cpp:231-263 | ROR of the result by the same register gives back what ROL rotated |
| IntegerLaws.ExtendLaw | src/isa/source/ext_zbb_cb.cpp:115-155 | rd is the signed number in the low byte or halfword, for ZEXT_H the unsigned one |
| IntegerLaws.CountLaw | src/isa/source/ext_zbb_cb.cpp:157-229 | CLZ brackets the word between powers of two, 2^CTZ is the largest that divides it, CPOP is the size of the set of its ones |
| IntegerLaws.BytesLaw | src/isa/source/ext_zbb_cb.cpp:282-325 | every byte of rd after REV8 and ORC_B |
| MemoryLaws.BranchLaw | src/isa/source/ext_i_cb.cpp:161-201 | the pc moves by the B-immediate exactly when the six numeric comparisons of the registers hold, else by four; nothing else changes |
| MemoryLaws.FlippedOrder | src/isa/source/ext_i_cb.cpp:175-201 | the signed order is the unsigned one with both signs flipped; three pairs of comparisons are opposites |
| MemoryLaws.JalLaw | src/isa/source/ext_i_cb.cpp:137-145 | rd holds the next address, the pc is off by the J-immediate |
| MemoryLaws.JalrLaw | src/isa/source/ext_i_cb.cpp:147-159 | rd holds the next address, the pc is the even number at or below the old rs1 plus the immediate |
| MemoryLaws.LoadLaw | src/isa/source/ext_i_cb.cpp:203-286 | LB and LH leave the signed number in memory, LBU, LHU and LW the unsigned one, byte by byte |
| MemoryLaws.StrayLoad | src/sim/source/memory.cpp:34-35 | a load has no result exactly when its bytes do not belong to one segment |
| MemoryLaws.FloatLoadLaw | src/isa/source/ext_f_cb.cpp:137-150 | FLW leaves the word in the float register |
| MemoryLaws.StoreLaw | src/isa/source/ext_i_cb.cpp:288-332 | SB, SH, SW and FSW put the bytes of the register at the address and change no other byte, no register and no owner |
| MemoryLaws.StoreThenLoad | src/isa/source/ext_i_cb.cpp:203-332 | a load from where a store of its width went returns the register cut to that width, with its sign or with zeros |
| SystemLaws.ExitLaw | src/isa/source/syscall_handler.cpp:24-32 | ECALL with 93 in a7 stops the machine and leaves all registers and the memory as they were |
| SystemLaws.ReadLaw | src/isa/source/syscall_handler.cpp:33-51 | ECALL with 63: the buffer holds the bytes of the host, at most as many as asked for, all other bytes stay, a0 is their number; or a0 is -1 and memory stays |
| SystemLaws.WriteLaw | src/isa/source/syscall_handler.cpp:52-70 | ECALL with 64: the host is given the bytes of the buffer in order, a0 is the number taken or -1 |
| SystemLaws.UnknownCall | src/isa/source/syscall_handler.cpp:71-73 | any other number is an assert |
| SystemLaws.PlainLaw | src/isa/source/ext_i_cb.cpp:515-549 | FENCE, FENCE_I and EBREAK only move the pc |
| SystemLaws.CsrLaw | src/isa/source/ext_zicsr_cb.cpp:16-126 | rd gets the old reading; each bit of the new one is the operand's, the old one joined with it, or the old one without it; the hidden field stays |
| SystemLaws.UnknownCsr | src/sim/include/sim/rv_sim.hpp:147-148 | an assert exactly for numbers other than 1, 2 and 3 |
| SystemLaws.StepIs | src/sim/source/rv_sim.cpp:20-30 | a step does what the laws say of the word at the pc |
| SystemLaws.RefusedStep | src/sim/source/rv_sim.cpp:25-27 | a word that is no instruction is refused and changes nothing |
| SystemLaws.AcceptedWords | src/sim/source/decode.cpp:22-37 | the words that are instructions, by opcode and fields; no other is |
| SystemLaws.RunExits | src/sim/source/rv_sim.cpp:16-34 | a run that comes to ECALL with 93 in a7 ends there, whatever replies follow, with the a0 it had as exit code |
| FloatLaws.ArithLaw | src/isa/source/ext_f_cb.cpp:75-278 | which library function is called with which operands, negated or not, in which mode; its value goes to rd, its flags join |
| FloatLaws.SignLaw | src/isa/source/ext_f_cb.cpp:280-332 | magnitude of the first operand, sign as the instruction says |
| FloatLaws.ChoiceLaw | src/isa/source/ext_f_cb.cpp:60-67 | FMIN and FMAX by one comparison |
| FloatLaws.FloatCompareLaw | src/isa/source/ext_f_cb.cpp:116-133 | FLE, FLT and FEQ |
| FloatLaws.ToIntLaw | src/isa/source/ext_f_cb.cpp:397-439 | conversion to integers in the mode asked for |
| FloatLaws.FromIntLaw | src/isa/source/ext_f_cb.cpp:441-472 | conversion from integers in the mode that is set |
| FloatLaws.MoveLaw | src/isa/source/ext_f_cb.cpp:474-496 | the moves keep the bits |
| FloatLaws.ClassLaw | src/isa/source/ext_f_cb.cpp:498-538 | FCLASS sets the one bit whose range of binary32 values the operand is in |
| IsaRuns.RunKeeps | src/sim/source/rv_sim.cpp:16-34 | every run keeps pc even, x0 stored as zero, frm below 8, fflags below 32, and the set of mapped addresses with the buffer that each belongs to |
| IsaRuns.StepKeeps | src/isa/source/ext_i_cb.cpp:102-158 | every single instruction keeps them, and an illegal one changes nothing |
| IsaRuns.RunGrowsFlags | src/isa/source/ext_f_cb.cpp:48-58 | over a run in which no CSR is written, reads included, frm stays and no flag is cleared |
| IsaRuns.ExecGrowsFlags | src/isa/source/ext_f_cb.cpp:48-58 | no instruction but CSRRW, CSRRWI and the other CSR ones with a nonzero rs1 field changes frm or clears a flag |
| IsaRuns.CsrReadKeepsFlags | src/isa/source/ext_zicsr_cb.cpp:32-68 | CSRRS and CSRRC with x0, or with the immediate 0, write back what was there |
| IsaRuns.CsrSetClearsNothing | src/isa/source/ext_zicsr_cb.cpp:32-107 | CSRRS and CSRRSI clear no exception flag, whatever they write to any of the three CSRs |
| IsaAlignment.JumpAlignment | src/isa/source/ext_i_cb.cpp:90-159 | from a pc that is a multiple of 4 the next pc is one exactly when no guard holds, each a single bit of the word or of the JALR target |
| IsaAlignment.ExecAlignment | src/sim/source/rv_sim.cpp:16-34 | the same for every instruction |
| IsaAlignment.RunAlignment | src/sim/source/rv_sim.cpp:16-34 | a run that starts at a multiple of 4 is at one before every step exactly when no step is a guarded jump |
| IsaAlignment.JalToHalfword | src/isa/source/ext_i_cb.cpp:137-145 | 0x0020006f at 0x1000 goes on at 0x1002 |
| IsaRuns.RunInTwo | src/sim/source/rv_sim.cpp:17-31 | a run can be cut anywhere and resumed; after the first stop nothing happens |
| Decoder.Decode | src/sim/source/decode.cpp:29-37 | the scan returns the instruction of the opcode maps, and kInvalid when there is none, for every word; that is the ISA's answer exactly when no register stands in the rs2 field of a ZEXT_H |
| Decoder.ScanIsStandard | src/isa/include/isa/ext_zbb.inc:16 | the table decodes a word as the ISA does if and only if it is not a ZEXT_H with rs2 other than 0, and then finds ZEXT_H |
| Decoder.ZextHWithRs2 | src/isa/include/isa/ext_zbb.inc:16 | 0x08104033 is found to be ZEXT_H and is no instruction of the ISA |
| Decoder.StrictTableIsStandard | src/isa/include/isa/ext_zbb.inc:16 | with mask 0xfff0707f in that row the table decodes every word as the ISA does |
| Decoder.RowSelects | src/isa/include/isa/isa_ext.inc:1-5 | a row matches exactly the words of its instruction |
| Decoder.TableAgrees | src/isa/include/isa/ext_zbb.inc:1-30 | each of the 99 rows against the opcode maps, field by field |
| Decoder.TableIncompatible | src/sim/source/decode.cpp:22-26 | no word matches two rows of the table |
| Decoder.OrderIndependent | src/sim/source/decode.cpp:29-37 | scanning any permutation of any pairwise incompatible table gives the same answer |
| Decoder.TableOrderIrrelevant | src/isa/include/isa/isa_ext.inc:1-5 | the 99 rows in any order decode every word alike |
| Decoder.TableOrdinals | src/isa/include/isa/mnemonics.hpp:6-14 | row i of the table belongs to enumerator i |
| Decoder.RowDecodes | src/sim/source/decode.cpp:29-37 | the bits of row i with any operand bits outside its mask decode to i |
| Decoder.DispatchSelectsRow | src/sim/source/dispatch.cpp:13-23 | dispatch on the decoded word selects the callback of a row exactly when that row matches |
| Decoder.CallbackOf | src/sim/source/dispatch.cpp:21-23 | callback table and enumerators are parallel |
| Encoder.EncodeThenDecode | src/sim/source/decode.cpp:29-37 | for every row and all operands its format can hold, decoding the encoded word gives the row's mnemonic and the accessors give the operands back |
| Encoder.DecodeThenEncode | src/isa/include/isa/rv_insn.hpp:36-144 | for every word that decodes, encoding what the accessors read gives the word back |
| Encoder.ReadsFields | src/isa/include/isa/rv_insn.hpp:31-144 | the accessors read the six fields of the word and the immediates joined from them |
| RvInsn.Registers | src/isa/include/isa/rv_insn.hpp:31-74 | the shift-and-mask accessors are the fields of the ISA |
| RvInsn.ImmIValue | src/isa/include/isa/rv_insn.hpp:76-83 | the I-immediate of the ISA, in its range |
| RvInsn.ImmSValue | src/isa/include/isa/rv_insn.hpp:85-96 | the S-immediate of the ISA, in its range |
| RvInsn.ImmBValue | src/isa/include/isa/rv_insn.hpp:98-115 | the B-immediate of the ISA, in its range and even |
| RvInsn.ImmUValue | src/isa/include/isa/rv_insn.hpp:117-122 | the U-immediate of the ISA, a multiple of 4096 |
| RvInsn.ImmJValue | src/isa/include/isa/rv_insn.hpp:124-144 | the J-immediate of the ISA, in its range and even |
| CallbackOps.Operands | src/isa/include/isa/rvf_insn.hpp:19-30 | all accessors, rs3, rm and the CSR number included, read the operands of the reference semantics |
| FlatMemory.LoadRefines | src/sim/source/memory.cpp:20-68 | a load whose bytes all have the same first matching segment, with data for them, reads the bytes of the flat memory, also when segments overlap |
| FlatMemory.StoreRefines | src/sim/source/memory.cpp:70-110 | such a store is a byte-wise store to the flat memory, and no address changes its segment |
| FlatMemory.HiddenByte | src/sim/source/memory.cpp:38-52 | two overlapping segments where a halfword load without that condition returns a byte that no byte load at its address returns |
| FlatMemory.AccessFound | src/sim/source/memory.cpp:127-129 | the condition in terms of the flat memory: all bytes have one owner exactly when the first-match search finds data for all of them in the segment it stops at, and finds that segment from each |
| FlatMemory.LastWriteWins | src/sim/source/memory.cpp:70-110 | after any sequence of overlapping 8, 16 and 32-bit stores every address holds the last byte written to it, or its old one |
| FlatMemory.LoadAfterStores | src/sim/source/memory.cpp:20-110 | so any later load returns the last bytes written |
| FlatMemory.CopyRoundTrip | src/sim/source/memory.cpp:112-122 | copying a buffer in and out again gives it back, for up to 2^32 bytes and across the wrap-around |
| FlatMemory.CopyLeavesRest | src/sim/source/memory.cpp:118-122 | addresses outside the copied range keep their bytes |
| GuestMemory.Memory.Locate | src/sim/source/memory.cpp:23-26 | the search stops at the first segment that contains the address, and the whole access lies in its data and in front of no other segment's |
| GuestMemory.Memory.LoadU32 | src/sim/source/memory.cpp:20-36 | the little-endian word of the flat memory |
| GuestMemory.Memory.LoadU16 | src/sim/source/memory.cpp:38-52 | the little-endian halfword of the flat memory |
| GuestMemory.Memory.LoadU8 | src/sim/source/memory.cpp:54-68 | the byte of the flat memory |
| GuestMemory.Memory.StoreU32 | src/sim/source/memory.cpp:70-82 | four little-endian bytes change, nothing else |
| GuestMemory.Memory.StoreU16 | src/sim/source/memory.cpp:84-96 | two little-endian bytes change, nothing else |
| GuestMemory.Memory.StoreU8 | src/sim/source/memory.cpp:98-110 | one byte changes, nothing else |
| GuestMemory.Memory.CopyGuestToHost | src/sim/source/memory.cpp:112-116 | the buffer receives the bytes at the wrapping addresses; guest memory is unchanged |
| GuestMemory.Memory.CopyHostToGuest | src/sim/source/memory.cpp:118-122 | the bytes at the wrapping addresses become those of the buffer, in order |
| GuestMemory.Memory.AddSegment | src/sim/include/sim/memory.hpp:38-40 | the segment is searched last |
| ProgramArgs.SizeOfArgv | src/sim/include/sim/program_args.hpp:39-46 | the size of all strings with their NULs, modulo 2^32 |
| ProgramArgs.CopyArgv | src/sim/include/sim/program_args.hpp:48-60 | the strings with their NULs one after the other, and for each the offset where it starts |
| ProgramArgs.FillStack | src/sim/include/sim/rv_sim.hpp:65-77 | the stack is zero up to sp and then holds argc, the pointers and NULL |
| ProgramArgs.StackBlock | src/sim/include/sim/rv_sim.hpp:65-77 | guest loads at sp, sp + 4, ... find argc, the pointers and NULL |
| ProgramArgs.ArgumentStrings | src/sim/include/sim/program_args.hpp:48-60 | the bytes at pointer i up to the first NUL are argument i |
| ProgramArgs.UnbackedAddresses | src/sim/include/sim/rv_sim.hpp:54-61 | the addresses that pass the segment check without a byte behind them are exactly the four behind the argument strings, when the ELF segments are filled and do not cover them |
| ProgramArgs.ProgramLoaded | src/sim/include/sim/rv_sim.hpp:34-35 | the bytes of an ELF segment that no earlier one covers are in guest memory unchanged |
| MulDiv.UnsignedProduct | src/isa/source/ext_m_cb.cpp:73-89 | MULHU * 2^32 + MUL is the exact unsigned product |
| MulDiv.SignedProduct | src/isa/source/ext_m_cb.cpp:49-71 | MULHSU as coded and MUL together are the exact signed by signed product |
| MulDiv.MulhDifference | src/isa/source/ext_m_cb.cpp:31-47 | MULH as coded exceeds the signed high word by b for negative a and by a for negative b, modulo 2^32 |
| MulDiv.MulhIsStandard | src/isa/source/ext_m_cb.cpp:31-47 | it is right exactly when no operand is negative, one is zero, or both are the smallest integer |
| MulDiv.MulhsuDifference | src/isa/source/ext_m_cb.cpp:49-71 | MULHSU as coded is short by a for negative b |
| MulDiv.MulhsuIsStandard | src/isa/source/ext_m_cb.cpp:49-71 | it is right exactly when b has its top bit clear or a is zero |
| MulDiv.SignTestsFail | tests/mul.s:50-67 | the operands of the test, for which neither gives the expected value |
| MulDiv.DivRemIdentity | src/isa/source/ext_m_cb.cpp:91-112 | dividend = quotient * divisor + remainder modulo 2^32 for all operands; -1 and the dividend for a zero divisor, min and 0 for min / -1 |
| MulDiv.DivIsStandard | src/isa/source/ext_m_cb.cpp:91-156 | DIV and REM are the ISA's for all operands; the case of min / -1 is what 32 bits leave of the quotient |
| MulDiv.DivRemUnique | src/isa/source/ext_m_cb.cpp:135-156 | outside the special cases DIV and REM are the one pair with a remainder smaller than the divisor that is zero or has the dividend's sign |
| MulDiv.DivuRemuIdentity | src/isa/source/ext_m_cb.cpp:114-178 | the same identity for DIVU and REMU, exact for nonzero divisors; 2^32 - 1 and the dividend for zero |
| BitManip.ArithmRightShiftIsFloor | src/isa/source/ext_i_cb.cpp:19-37 | floor division of the signed value by 2^shift, for every word and every shift |
| BitManip.ArithmRightShiftTwice | src/isa/source/ext_i_cb.cpp:19-37 | shifting by s and then t is shifting by s + t |
| BitManip.CountLeadingZeros | src/isa/source/ext_zbb_cb.cpp:157-180 | the loop finds 32 minus the number of binary digits |
| BitManip.ClzBracket | src/isa/source/ext_zbb_cb.cpp:157-180 | a nonzero word lies in [2^(31-clz), 2^(32-clz)); clz is 32 exactly at zero |
| BitManip.CountTrailingZeros | src/isa/source/ext_zbb_cb.cpp:182-205 | the loop finds how often 2 divides the word, 32 at zero |
| BitManip.CtzDivides | src/isa/source/ext_zbb_cb.cpp:182-205 | 2^k divides a nonzero word exactly for k up to ctz |
| BitManip.CtzIsCpop | src/isa/source/ext_zbb_cb.cpp:182-229 | ctz(x) = cpop((x & -x) - 1), zero included |
| BitManip.CountOnes | src/isa/source/ext_zbb_cb.cpp:207-229 | the loop returns the sum of the binary digits |
| BitManip.CpopComplement | src/isa/source/ext_zbb_cb.cpp:207-229 | cpop(x) + cpop(~x) = 32 |
| BitManip.RotateIsRotated | src/isa/source/ext_zbb_cb.cpp:231-280 | ROL and ROR move the cut-off bits to the other end of the word |
| BitManip.RotationsAdd | src/isa/source/ext_zbb_cb.cpp:231-263 | amounts add modulo 32 |
| BitManip.RotationsInverse | src/isa/source/ext_zbb_cb.cpp:231-280 | ROL by s is ROR by 32 - s, and they undo each other |
| BitManip.RotateByZero | src/isa/source/ext_zbb_cb.cpp:242-259 | for amount 0 the result is x whether the host's shift by 32 gives 0 or shifts by nothing |
| BitManip.CpopOfRotation | src/isa/source/ext_zbb_cb.cpp:207-280 | rotating does not change cpop |
| BitManip.ReverseLoop | src/isa/source/ext_zbb_cb.cpp:282-301 | the loop returns the word with the bytes in reverse, although SetByte erases |
| BitManip.Rev8Reverses | src/isa/source/ext_zbb_cb.cpp:282-301 | byte i is byte 3 - i of the operand; reversing twice is the identity |
| BitManip.CombineLoop | src/isa/source/ext_zbb_cb.cpp:303-325 | the loop returns the word of bytes 0 and 0xff |
| BitManip.OrcBCombines | src/isa/source/ext_zbb_cb.cpp:303-325 | byte i depends on byte i alone; combining twice changes nothing |
| BitManip.SetByteErases | src/isa/include/isa/isa_hlp.hpp:109-119 | setting byte 0 last would leave nothing but that byte |
| Bits.BitwiseBits | src/isa/source/ext_i_cb.cpp:476-513 | bit i of AND, OR and XOR is given by bit i of the operands and the truth table |
| Bits.NotBits | src/isa/source/ext_zbb_cb.cpp:16-53 | the complement flips each of the 32 bits |
| IsaHelpers.SetByteValue | src/isa/include/isa/isa_hlp.hpp:109-119 | SetByte keeps the bytes below the index, stores the byte and erases what is above |
| IsaHelpers.SetByteReplaces | src/isa/include/isa/isa_hlp.hpp:115 | it replaces just that byte, as its comment says, exactly when nothing is above it |
| IsaHelpers.GetByteValue | src/isa/include/isa/isa_hlp.hpp:100-107 | byte i of the word |
| IsaHelpers.BitSetMeansBit | src/isa/include/isa/isa_hlp.hpp:40-47 | the one-hot test is the binary digit |
| IsaHelpers.TruncHigh32Value | src/isa/include/isa/isa_hlp.hpp:49-69 | TruncHigh keeps the low word |
| IsaHelpers.TruncLow32Value | src/isa/include/isa/isa_hlp.hpp:71-98 | TruncLow keeps the high word |
| IsaHelpers.SignExtendValue | src/isa/include/isa/rv_insn.hpp:17-22 | the xor-subtract idiom is two's complement at every width from 1 to 31 |
| IsaHelpers.SignExtValue | src/isa/include/isa/isa_hlp.hpp:121-146 | the OR-mask template is two's complement as well |
| IsaHelpers.SignExtensionsAgree | src/isa/include/isa/isa_hlp.hpp:121-146 | both agree, and truncating either gives the extended bits back |
| IsaHelpers.SignExt64Value | src/isa/include/isa/isa_hlp.hpp:121-146 | extension to 64 bits keeps the signed value |
| Csr.SetCsrValue | src/sim/include/sim/rv_sim.hpp:133-150 | the masks replace one field of 32 * frm + fflags and keep the other |
| Csr.CsrReadBack | src/sim/include/sim/rv_sim.hpp:133-170 | fcsr is 32 * frm + fflags, stays below 256, and each view reads back what was written to it |
| Csr.CsrOtherView | src/sim/include/sim/rv_sim.hpp:133-170 | writing one view leaves the other one's reading unchanged |
| FloatBits.NegValue | src/isa/source/ext_f_cb.cpp:69-73 | negation adds 2^31 modulo 2^32: it flips the sign and nothing else |
| FloatBits.SignInjection | src/isa/source/ext_f_cb.cpp:280-332 | magnitude of the first operand, sign as asked for |
| IsaRounding.FromIntIsStandard | src/isa/source/ext_f_cb.cpp:441-472 | for every library FCVT.S.W and FCVT.S.WU do what the ISA says if and only if the mode asked for is legal and was the last one set |
| IsaRounding.StaleMode | src/isa/source/ext_f_cb.cpp:441-455 | a run of two instructions, FADD.S toward zero and FCVT.S.W to nearest even, in which the conversion rounds toward zero |
| CallbackOps.ClassShiftValue | src/isa/source/ext_f_cb.cpp:498-538 | the bit that FCLASS sets is that of the class read off sign, exponent and fraction as numbers |
| CallbackOps.BranchPredValue | src/isa/source/ext_i_cb.cpp:161-201 | the six predicates are three comparisons and their opposites |
| CallbackOps.RegRegValue | src/isa/source/ext_zbb_cb.cpp:16-113 | every register-register operation as coded is its arithmetic meaning, SLL and SRL for amounts below 32 |
| CallbackOps.ShiftOpValue | src/isa/source/ext_i_cb.cpp:397-420 | constant shifts and RORI as coded are multiplication, division, floor division and rotation |
| CallbackOps.ExtendTruncated | src/isa/source/ext_zbb_cb.cpp:115-141 | SEXT_B and SEXT_H are two's complement of the low byte and halfword |
| CallbackOps.ClearBitValue | src/isa/source/ext_i_cb.cpp:154-156 | the mask of JALR gives the even number at or just below the target |
| CallbackOps.StoredBytes | src/isa/source/ext_i_cb.cpp:288-318 | truncating before a store gives the bytes of the untruncated register |
| CallbackOps.AccrueIsWrite | src/isa/source/ext_f_cb.cpp:48-58 | writing the joined flags, or returning early when none is raised, accrues them |

## Left out

- ELF parsing and `main`: files and the ELFIO library; the loaded segments are an arbitrary list.
- Accesses that run on under another segment: when the bytes of one access have different first matching segments, the source goes on in the data of the one that the first byte is in; such runs are excluded (`HiddenByte`).
- RvSimulator.InitialMemory: asks that no ELF segment covers the stack or the argument strings, since the ELF segments are searched first.
- RvSimulator.RVSim.Execute: runs as many turns as the host gives replies for, one per turn, used only by read and write; the original loop has no bound.
- RvSimulator.RVSim.ExecuteFArith: the results and flags of the floating-point library are an arbitrary function of operands and rounding mode.
- RvSimulator.RVSim.ExecuteFSelect: FMIN and FMAX as coded, without the standard's treatment of NaN; the flags that the library's comparison raises there are dropped by the next instruction and not modelled.
- CallbackOps.ClassShiftValue: `std::fpclassify`, `std::signbit` and `f32_isSignalingNaN` are modelled as masks of a value in the binary32 format.
- RvSimulator.RVSim.CallbackInteger: says nothing about SLL and SRL by 32 or more, which C++ does not define.
- MulDiv.MulhDifference: the overflow of the int64 product, undefined in C++, is taken to wrap modulo 2^64.
- BitManip.RotateIsRotated: for amount 0 the code shifts by 32 in one half, which C++ leaves undefined; it is taken to give 0, and `RotateByZero` shows that a host that shifts by nothing gets the same.
- IsaRounding.ArithIsStandard: leaves out FNMADD, which negates after rounding, as coded, while the standard negates before; whether that shows depends on the library.
- GuestMemory.Memory.Locate: the six accesses of the source each contain this search; it is written once here.
- RvSimulator.RVSim.Call: one method per group of callbacks of the same shape instead of one per instruction.
- RvSimulator.LoadProgram: fills the argument buffers before it copies the ELF segments; the order is not observable.
- Out-of-bounds reads of the simulator itself, in the four bytes behind the argument strings: accesses are required to stay inside the data.
- Segment permissions and alignment of loads and stores: noted in the source but not implemented.
- Logging, tracing, mnemonic names, exception backtraces.
- Big-endian hosts: `memcpy` of an integer is taken to be little-endian.
