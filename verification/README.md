# A verified model of the picoCPU core

picoCPU interprets x86-64 machine code. This project states its hardest code in Dafny and proves what that
code is for. Classes with fields stand for the source's objects, loops for its loops; every imperative member
is proved against a specification function, and the properties are proved about those functions. The command
`dafny verify dfyconfig.toml` checks everything.

| part | files | what is proved |
|---|---|---|
| 80-bit soft float | Words, Rounding, Magnitudes, Float80, FloatReference, FloatOps, FloatCorrect | add, subtract, multiply and divide return the exact real result rounded once |
| lazy flags | Flags, LazyFlags, MultiLimb, Cpu | the deferred flags show what eager evaluation would, exactly where they do; multi-limb arithmetic and comparisons |
| decoder | Base, Insns, Decoder, ByteSource, PrefixFree | accepted encodings form a prefix-free code decided by their own bytes |
| cached execution | FlatMemory, Semantics, Blocks, ShadowPages, Handlers, PlainRun, Peephole, Emulator | the dispatcher with block cache and peephole, over the memory tower, refines decode-one, execute-one |
| memory tower | CacheLines, L3Cache, L2Cache, L1Cache, Port | three caches over the copy-on-write store are indistinguishable from one flat byte map; the regions are least-recently-used |
| allocators | StubHeap, Heap | a coalescing first-fit tiling; size classes whose free lists live in guest memory |
| log ring | Logger, LoggerRaces | ordered, untorn, at-most-once delivery over all interleavings of as many records as there are slots, and the runs that fail beyond |
| unwinder | Unwind | frame unwinding inverts the prologue |
| bit loops | BitDeposit, Rotates | PDEP and PEXT undo each other; RCL and RCR turn one ring |

## How to read it

- Machine words are integers below a power of two; every wrap-around is written out. `Plus` and `Offset` are
  64-bit address arithmetic.
- The soft-float specification is over reals. `Jams` says that an integer decides every rounding question as
  a given real would; the four operations are shown to deliver such an integer to the rounding step.
- `Processor.Cpu.Shown` is what a reader of the flags would see. Every method of the processor says what
  happens to that view, so nothing depends on which operation is pending.
- `Reference.PlainRun` is the specification of a run. `Reference.Benign` names what the refinement needs of
  the program. It follows the stretches of straight-line code met and not stored into since: a store stays
  clear of the stretch being executed and does not go round the address space, a store into another stretch is
  one the write listener hears of, and a self-move or self-LEA that is folded away would have changed nothing.
  A program that does not store into its own code needs no registered range.
- A `plan` argument is ghost: it stands for what is still to come of the plain run.
- Invariants of classes (`Valid`, `Sound`, `Coherent`) are kept by every method, so they hold after any
  sequence of calls; that is how the statements about whole runs of the caches and allocators are made.
- Memory is a map from addresses to the bytes that can be read. `Stored` is the effect of a write on it.

## Where code and comments disagree

The code is followed.

- `src/emu/logger/logger.cpp:98` calls the number left in a drained slot even, and the wait in `emit` tests
  for an even number. The number is odd, so the wait never sees a drained slot, and passes when the slot is
  still occupied (`LogRing.WaitIsInverted`, `LogRaces.TestPassesTooEarly`). After sixteen looks the message is
  not dropped, as the comment at 189-191 says, but written into the slot. Delivery is therefore whole and in
  order for as many records as there are slots and no more (`LogRaces.DeliveredIff`, `LogRaces.LineTorn`), or
  for as long as the flush thread is less than a lap behind (`LogRaces.PacedOrderly`).
- `src/emu/ir/peephole.cpp:15-36` treats every self-move as a NOP; at 32 bits it is not
  (`PeepholeMeaning.SelfMoveCounterexample`), nor is every self-LEA (`PeepholeMeaning.SelfLeaCounterexample`);
  the exact conditions are `PeepholeMeaning.SelfMoveFold` and `PeepholeMeaning.SelfLeaFold`.
- The eager flag helpers are called the reference for the lazy ones; they part on shifts by more than one and
  on rotates by a multiple of the width (`LazyFlags.LazyMeetsEager`).
- `src/emu/ir/peephole.cpp:66` lists the flags an XOR of a register with itself leaves and omits PF, which is
  set too: a jump on parity is decided and not folded (`PeepholeMeaning.FoldedConditions`).
- Invalidating a span drops the lines it overlaps, except that a span which comes round the address space to
  the line it began in drops that line alone (`LineCache.L1Cache.Invalidate`).
- The walk over unwind codes counts slots in eight bits and need not end: exactly when it does is
  `Unwinding.WalkEndsIff`, and a code array on which it does not is in `Unwinding.WalkNeverEnds`.

## Model

| member | source | states |
|---|---|---|
| FloatCorrect.AddRoundsOnce | src/emu/float80.cpp:194-239 | for all canonical finite non-zero operands, normal or denormal, the sum is the exact real sum rounded once to nearest-even at 64 bits with unbounded exponent, then infinity or a signed zero when the raw exponent leaves 1 .. 0x7FFE; exact cancellation gives +0 |
| FloatCorrect.SubRoundsOnce | src/emu/float80.cpp:241-294 | the same for the exact difference |
| FloatCorrect.MulRoundsOnce | src/emu/float80.cpp:296-328 | the same for the exact product |
| FloatCorrect.DivRoundsOnce | src/emu/float80.cpp:330-397 | the same for the exact quotient |
| FloatCorrect.RoundedOnceUnique | src/emu/float80.cpp:137-144 | that specification admits one result per real number, so the four theorems above fix every bit |
| FloatCorrect.AddCommutes | src/emu/float80.cpp:194-239 | addition commutes bit for bit on all pairs of bit patterns, unnormals, infinities and NaNs included |
| FloatCorrect.MulCommutes | src/emu/float80.cpp:296-328 | so does multiplication |
| FloatCorrect.SumDecides | src/emu/float80.cpp:214-239 | a sum taken with a 64-bit guard field and one jammed sticky bit rounds as the exact sum would |
| FloatCorrect.DifferenceDecides | src/emu/float80.cpp:262-294 | so does a difference, even after the left normalisation |
| FloatCorrect.ProductDecides | src/emu/float80.cpp:309-328 | the 128-bit product, normalised by at most one place, decides the rounding of the exact product |
| FloatCorrect.QuotientDecides | src/emu/float80.cpp:346-397 | quotient, round bit and sticky bit place the exact quotient below, at or above the half |
| FloatCorrect.UnpackedValue | src/emu/float80.cpp:179-190 | unpacking, with its denormal loop, keeps the real value and sets the integer bit |
| FloatOps.F80Add | src/emu/float80.cpp:194-239 | the code, on halves and wrapped words, computes the reference sum the theorems speak of; its mutual recursion with subtraction ends after one hop |
| FloatOps.F80Sub | src/emu/float80.cpp:241-294 | for all inputs, zeros, infinities and NaNs included, subtraction is addition of the negated operand |
| FloatOps.F80Mul | src/emu/float80.cpp:296-328 | the code computes the reference product |
| FloatOps.F80Div | src/emu/float80.cpp:330-397 | for every dividend, unnormals included, and every canonical divisor, the code computes the reference quotient |
| FloatOps.Unpack | src/emu/float80.cpp:179-190 | the shift loop ends with the normalised significand and exponent |
| FloatOps.NormalizeLeft | src/emu/float80.cpp:285-291 | the normalisation loop of a difference shifts until the integer bit is set |
| FloatOps.RoundBits | src/emu/float80.cpp:372-390 | the round and sticky bits, computed in 64-bit arithmetic that may lose the top bit of the doubled remainder, are those of the exact remainder |
| SoftFloat.Div128By64 | src/emu/float80.cpp:116-133 | long division gives the exact quotient for every num.hi < den, the 65-bit partial remainder included |
| SoftFloat.DivideStep | src/emu/float80.cpp:116-133 | one step keeps q * den + rem equal to the consumed prefix with rem < den |
| SoftFloat.ShrStickyIsJam | src/emu/float80.cpp:49-76 | the sticky shift halves n times, keeping every lost bit in bit 0, for every count |
| SoftFloat.Add128 | src/emu/float80.cpp:78-84 | 128-bit addition on halves, modulo 2^128 |
| SoftFloat.Sub128 | src/emu/float80.cpp:86-92 | 128-bit subtraction on halves, modulo 2^128 |
| SoftFloat.Cmp128 | src/emu/float80.cpp:94-98 | the comparison orders the 128-bit values |
| SoftFloat.Mul64x64 | src/emu/float80.cpp:101-110 | both halves together are the exact product |
| SoftFloat.RoundToNearestEven | src/emu/float80.cpp:149-174 | rounding on halves is rounding of the 128-bit integer, half to even, carry-out included |
| Magnitudes.RoundsCorrectly | src/emu/float80.cpp:149-174 | rounding an integer that decides for a real gives the nearest-even float of that real |
| Magnitudes.JamsDecides | src/emu/float80.cpp:49-76 | a jammed integer compares with every rounding boundary as the exact value does |
| Magnitudes.JamTwice | src/emu/float80.cpp:49-76 | jamming an already jammed value loses nothing more |
| Rounding.RoundInUnitNearest | src/emu/float80.cpp:149-174 | the tie-to-even decision is nearest-even among all 64-bit floats with unbounded exponent |
| Rounding.NearestEvenUnique | src/emu/float80.cpp:149-174 | the nearest-even float of a positive real is unique |
| EFlags.ComputeAdcMeaning | src/emu/cpu/flags.cpp:82-95 | the formulas recover the first operand from the result and give all six flags their meaning for a + b + carry |
| EFlags.ComputeAddMeaning | src/emu/cpu/flags.cpp:67-80 | the same for a + b |
| EFlags.ComputeSbbMeaning | src/emu/cpu/flags.cpp:112-125 | the same for a - b - borrow |
| EFlags.ComputeSubMeaning | src/emu/cpu/flags.cpp:97-110 | the same for a - b |
| EFlags.ComputeIncMeaning | src/emu/cpu/flags.cpp:127-139 | INC means a + 1 in every flag but the carry, which is kept |
| EFlags.ComputeDecMeaning | src/emu/cpu/flags.cpp:141-153 | DEC means a - 1 in every flag but the carry, which is kept |
| EFlags.ComputeNegMeaning | src/emu/cpu/flags.cpp:155-167 | NEG means 0 - a in every flag but AF |
| EFlags.ComputeLogicMeaning | src/emu/cpu/flags.cpp:60-65 | logic clears CF, OF and AF and derives ZF, SF and PF from the result |
| EFlags.TestsAreMasks | src/emu/include/emu/cpu.h:477-493 | the arithmetic tests used for sign and adjust bits are the masks the code applies |
| EFlags.MaskedIsAnd | src/emu/include/emu/cpu.h:477-493 | reducing to an operand size is the AND with its mask |
| EFlags.CompareConditions | src/emu/cpu/cpu.cpp:68-94 | after CMP a, b every ordering condition is the unsigned or signed comparison it is named for, the negated ones included |
| EFlags.SignedBorrow | src/emu/cpu/cpu.cpp:68-94 | after SBB, SF != OF holds exactly when the signed first operand is below the second plus the borrow |
| LazyFlags.LazyMeetsEager | src/emu/cpu/flags.cpp:323-451 | one step of the lazy machine shows what the eager machine holds if and only if the step is not a shift by more than one over a set OF, nor a rotate by a non-zero multiple of the width that would change CF or the constant one |
| LazyFlags.RunsAgreeIff | src/emu/cpu/flags.cpp:323-623 | over any sequence of operations, direct writes of a flag or of the whole register, and reads, from any flags, the two machines show the same register after every prefix if and only if every step satisfies that condition |
| LazyFlags.OthersAgree | src/emu/cpu/flags.cpp:313-318 | the bits outside the six and the constant one stay alike in both machines over any run, also where the six part |
| LazyFlags.LazyRunMeetsEager | src/emu/cpu/flags.cpp:323-623 | and then the final flags are equal |
| LazyFlags.BitsDependOnSix | src/emu/cpu/flags.cpp:283-319 | pending work never looks at the bits outside the six |
| LazyFlags.OverwriteDropsPending | src/emu/cpu/flags.cpp:323-451 | pending work may be dropped by an operation that overwrites all six flags |
| LazyFlags.SkippedSyncIff | src/emu/cpu/flags.cpp:363-451 | for INC, DEC, ROL, ROR and multiplication, stashing over pending work without synchronising first is harmless if and only if the raw register already agrees with what is shown on the flags the operation keeps |
| LazyFlags.SkippedSyncShows | src/emu/cpu/flags.cpp:363-451 | it is not always: with an 8-bit ADD of 0xFF and 1 pending, each of the five would show a flag of the time before it |
| LazyFlags.MachinesPart | src/emu/cpu/flags.cpp:323-451 | the two differences from the eager machine occur: SHL by 2 over a set OF clears it, and ROL of a byte by 8 sets CF, where the eager helpers leave both flags |
| Processor.Cpu.SyncFlags | src/emu/cpu/flags.cpp:283-319 | synchronising changes nothing a reader can see |
| Processor.Cpu.Perform | src/emu/cpu/flags.cpp:323-451 | whatever is pending, each stash leaves the flags of one lazy step, and the eager ones wherever the two agree |
| Processor.Cpu.StashInc | src/emu/cpu/flags.cpp:363-372 | the carry shown before survives, whatever was pending |
| Processor.Cpu.StashDec | src/emu/cpu/flags.cpp:374-382 | the carry shown before survives, whatever was pending |
| Processor.Cpu.StashRol | src/emu/cpu/flags.cpp:419-430 | the flags a rotate leaves alone survive, whatever was pending |
| Processor.Cpu.StashMulOv | src/emu/cpu/flags.cpp:444-451 | CF and OF are set, the other four survive |
| Processor.Cpu.Cf | src/emu/include/emu/cpu.h:123-142 | a flag read shows the pending operation and changes nothing shown |
| Processor.Cpu.SetOf | src/emu/include/emu/cpu.h:123-142 | a direct flag write changes that flag and no other of those shown |
| Processor.Cpu.CondHolds | src/emu/cpu/cpu.cpp:68-94 | a condition test reads the shown flags and changes none |
| Processor.Cpu.Snapshot | src/emu/cpu/cpu.cpp:11-33 | a snapshot holds the observable state, flags synchronised |
| Processor.Cpu.Restore | src/emu/cpu/cpu.cpp:35-56 | restoring brings exactly that state back, whatever was pending in between |
| Processor.WriteKeeps | src/emu/include/emu/cpu.h:94-113 | writing a register leaves every other register alone, and of its own 64 bits those it does not name: the ones above a byte or a word and beside a high byte; a 32-bit write clears the upper half |
| Processor.ReadBack | src/emu/include/emu/cpu.h:79-113 | what is written to a register of any size, high bytes included, is read back from it |
| MultiLimb.AddExact | src/emu/cpu/flags.cpp:67-95 | on the lazy machine, for any number of limbs, any operand size and any flags before, ADD or ADC and then ADCs compute the exact sum with the shown CF as carry out, each carry being recovered from a result |
| MultiLimb.SubExact | src/emu/cpu/flags.cpp:97-125 | so do SUB, CMP or SBB and then SBBs the exact difference, with the shown CF as borrow out |
| MultiLimb.BelowIsUnsignedLess | src/emu/cpu/cpu.cpp:68-94 | after CMP or SUB and then SBBs on the lazy machine, condition B is unsigned less-than of the whole numbers |
| MultiLimb.LessIsSignedLess | src/emu/cpu/cpu.cpp:68-94 | and condition L is their signed less-than |
| CarryRing.OpRcl | src/emu/handlers/shift_rotate.cpp:95-119 | RCL turns the ring of CF and operand left by the count, reduced modulo width + 1; only CF, and OF for a count of one, change among the flags |
| CarryRing.OpRcr | src/emu/handlers/shift_rotate.cpp:121-145 | RCR turns it right; OF for a count of one compares the old sign with the old carry |
| CarryRing.RclRounds | src/emu/handlers/shift_rotate.cpp:108-113 | the loop turns the ring by one place a round |
| CarryRing.RcrRounds | src/emu/handlers/shift_rotate.cpp:138-142 | the loop turns the ring right by one place a round |
| CarryRing.RclThenRcr | src/emu/handlers/shift_rotate.cpp:95-145 | for every size and count, RCL then RCR restores the operand and CF |
| CarryRing.RclRcrRestores | src/emu/handlers/shift_rotate.cpp:95-145 | the same for any values whose rings are so related |
| CarryRing.LeftTwice | src/emu/handlers/shift_rotate.cpp:95-119 | two rotates by a and b are one by a + b |
| CarryRing.RingInjective | src/emu/handlers/shift_rotate.cpp:95-119 | the ring determines operand and carry |
| BitDeposit.ExtractAfterDeposit | src/emu/handlers/bmi.cpp:151-180 | extracting what was deposited gives the low popcount(m) bits of x |
| BitDeposit.DepositAfterExtract | src/emu/handlers/bmi.cpp:151-180 | depositing what was extracted gives x AND m |
| BitDeposit.DepositedBit | src/emu/handlers/bmi.cpp:151-164 | bit k of the deposit is set exactly when the mask has bit k and x has the bit numbered by the mask bits below k |
| BitDeposit.ExtractedBit | src/emu/handlers/bmi.cpp:167-180 | where the mask has bit k, the extract has bit k of x at the number of mask bits below k |
| BitDeposit.ExtractedFits | src/emu/handlers/bmi.cpp:167-180 | the extract has no more bits than the mask has ones |
| BitDeposit.DepositedFits | src/emu/handlers/bmi.cpp:151-164 | the deposit never exceeds the mask |
| BitDeposit.Pdep | src/emu/handlers/bmi.cpp:151-164 | the loop over the lowest set bit computes the deposit; the popcount of the mask bounds its rounds |
| BitDeposit.Pext | src/emu/handlers/bmi.cpp:167-180 | the loop computes the extract |
| BitDeposit.IsolateLow | src/emu/handlers/bmi.cpp:158 | m AND -m is the lowest one of m, on any word width |
| BitDeposit.ClearLow | src/emu/handlers/bmi.cpp:160 | m AND (m - 1) clears exactly that one |
| PrefixFree.BytesPrefixFree | src/emu/decoder/decoder.cpp:233-240 | an Ok decode has len <= 15, is the same on every buffer that agrees on those len bytes, and every shorter prefix gives TruncatedInstruction |
| PrefixFree.DecodedByOwnBytes | src/emu/decoder/decoder.cpp:204-223 | an accepted instruction depends on its own len bytes only, and a source that ends inside it reports its own end status |
| PrefixFree.ScanPrefixesPrefix | src/emu/decoder/decoder.cpp:112-202 | the prefix scan, which peeks one byte beyond what it consumes, is settled by the opcode read that follows |
| PrefixFree.RmOperandPrefix | src/emu/decoder/modrm.cpp:72-151 | an r/m operand depends on the bytes it consumed only |
| PrefixFree.Group1Prefix | src/emu/decoder/decoder_opcodes.cpp:161-198 | so does group 1 |
| PrefixFree.Group3Prefix | src/emu/decoder/decoder_opcodes.cpp:248-312 | so does group 3 |
| PrefixFree.Group45Prefix | src/emu/decoder/decoder_opcodes.cpp:314-365 | so do groups 4 and 5 |
| PrefixFree.AfterPrefixesPrefix | src/emu/decoder/decoder_opcodes.cpp:1729-2274 | so does every opcode of the modelled subset |
| Decoder.DecodeWithSource | src/emu/decoder/decoder.cpp:204-223 | decoding ends within the window, with the length it consumed, the RIP it was asked for, and a well-formed instruction |
| Decoder.AfterPrefixes | src/emu/decoder/decoder_opcodes.cpp:1729-2274 | an accepted opcode consumes at least a byte, has at most one memory operand, and uses high-byte registers at size 1 only |
| Decoder.RmOperand | src/emu/decoder/modrm.cpp:72-151 | reading stays in the buffer, and a high-byte register comes out only at size 1 |
| ByteReader.ByteSource.Scan | src/emu/decoder/decoder.cpp:112-202 | the prefix loop over the moving source ends and consumes what the scan function says |
| ByteReader.ByteSource.Little | src/emu/decoder/decoder.cpp:66-84 | bytes read one by one combine to the little-endian value |
| ByteReader.ByteSource.ImmSx | src/emu/decoder/modrm.cpp:153-182 | immediates are widened by two's complement |
| ByteReader.ByteSource.Rm | src/emu/decoder/modrm.cpp:72-151 | the r/m decoder over the moving source agrees with the function of buffer and position |
| ByteReader.ByteSource.Decode | src/emu/decoder/decoder.cpp:204-223 | the length of an instruction is what was consumed |
| ByteReader.DecodeBuffer | src/emu/decoder/decoder.cpp:233-240 | decode_bytes terminates on every buffer and is the function the prefix-free theorem speaks of |
| ByteReader.ReadLeIs | src/emu/decoder/decoder.cpp:66-84 | n bytes are there and read as their value, or the source ends before them |
| Handlers.Handle | src/emu/handlers/handler_util.h:23-172 | whatever flags are pending, one handler call on processor and memory is one instruction of the specification, faults included, and the cache loses exactly the blocks a write overlaps |
| Handlers.OpAlu | src/emu/handlers/arithmetic.cpp:15-55 | ADD, ADC, SUB, SBB, AND, OR, XOR: result stored, then flags by their meaning; a fault stops before the flags |
| Handlers.OpCompare | src/emu/handlers/logical.cpp:45-61 | CMP and TEST write flags only |
| Handlers.OpUnary | src/emu/handlers/arithmetic.cpp:57-82 | INC, DEC and NEG |
| Handlers.OpNot | src/emu/handlers/logical.cpp:37-43 | NOT leaves the flags alone |
| Handlers.OpMov | src/emu/handlers/data_mov.cpp:64-68 | MOV |
| Handlers.OpLea | src/emu/handlers/data_mov.cpp:94-104 | LEA writes the effective address and touches no memory |
| Handlers.OpXchg | src/emu/handlers/data_mov.cpp:131-137 | XCHG reads both operands before writing either |
| Handlers.OpPush | src/emu/handlers/data_mov.cpp:106-112 | PUSH stores below the stack pointer, then moves it |
| Handlers.OpPop | src/emu/handlers/data_mov.cpp:114-120 | POP writes its destination before the stack pointer moves |
| Handlers.OpJmp | src/emu/handlers/control_flow.cpp:40-44 | JMP |
| Handlers.OpJcc | src/emu/handlers/control_flow.cpp:46-52 | a conditional jump is taken exactly when the shown flags meet its condition |
| Handlers.OpCall | src/emu/handlers/control_flow.cpp:54-72 | CALL |
| Handlers.OpRet | src/emu/handlers/control_flow.cpp:235-259 | RET, with its optional immediate |
| Handlers.BranchTarget | src/emu/handlers/control_flow.cpp:18-36 | the target and the fault of an unreadable one |
| Handlers.ReadOperand | src/emu/handlers/handler_util.h:45-110 | the operand's value, or the fault the read raises |
| Handlers.WriteOperand | src/emu/handlers/handler_util.h:114-172 | the operand written, or the fault, with the listener told of every write |
| Semantics.ExecuteReports | src/emu/handlers/handler_util.h:114-172 | an instruction changes memory by at most the one store its effect reports |
| PeepholeMeaning.SelfMoveFold | src/emu/ir/peephole.cpp:15-43 | MOV or XCHG of a register with itself is a NOP if and only if it is not 32-bit or the upper half is already zero |
| PeepholeMeaning.SelfLeaFold | src/emu/ir/peephole.cpp:15-43 | LEA of a register's own value is a NOP if and only if the segment base vanishes at the operand size and a 32-bit destination has a clear upper half |
| PeepholeMeaning.SelfMoveCounterexample | src/emu/ir/peephole.cpp:15-36 | MOV EAX, EAX with RAX = 2^32 shows the 32-bit fold changes the result |
| PeepholeMeaning.SelfLeaCounterexample | src/emu/ir/peephole.cpp:15-43 | so do LEA RAX, [FS:RAX] with a segment base and LEA EAX, [RAX] with RAX = 2^32 |
| PeepholeMeaning.FoldedConditions | src/emu/ir/peephole.cpp:53-80 | after an XOR of a register with itself a condition holds if and only if it is one the fold takes, Always, or P, which the fold leaves alone |
| PeepholeMeaning.JccFold | src/emu/ir/peephole.cpp:53-80 | a folded conditional jump goes where the original goes, fault for fault |
| PeepholeMeaning.XorSelfFlags | src/emu/ir/peephole.cpp:53-80 | XOR of a register with itself leaves ZF and PF set and the other four flags clear |
| PeepholeMeaning.PeepholePreserves | src/emu/ir/peephole.cpp:82-89 | replaying the rewritten block from any point reaches the state of the original, as long as the folds met are harmless |
| Blocks.PeepholeBlock | src/emu/ir/peephole.cpp:82-89 | the two in-place passes compute the rewriting: the second pass, which sees folded predecessors, folds the same jumps |
| Dispatcher.Emulator.Run | src/emu/dispatcher/dispatcher.cpp:33-219 | for every program and budget, over the three caches and the page store and whatever blocks are cached, the run with block cache and peephole ends with the registers, flags, RIP, memory, status and executed count of the decode-one, execute-one machine, provided no store reaches the stretch of straight-line code being executed, stores into other stretches met are heard of, and folds met are harmless; a program that never stores into its code needs no registered range |
| Dispatcher.Emulator.Drive | src/emu/dispatcher/dispatcher.cpp:59-219 | the outer loop: whatever blocks are cached, each round replays a stretch of the plain run and keeps every cached block the folded decode of memory |
| Dispatcher.Emulator.ReplayBlock | src/emu/dispatcher/dispatcher.cpp:94-211 | replaying a cached block follows the plain run until it ends, branches, stops, faults or spends the budget |
| Dispatcher.Emulator.Replay | src/emu/dispatcher/dispatcher.cpp:94-200 | one cached instruction does what the plain machine's next step does, and the block stays cached |
| Dispatcher.Emulator.FindBlock | src/emu/dispatcher/dispatcher.cpp:67-83 | a block comes from the cache or is decoded and rewritten into it, or the run ends with the plain machine's status |
| Dispatcher.DecodeBlock | src/emu/cache/block_cache.cpp:62-88 | the decoding loop yields the straight-line code at pc, ended by control flow, the size limit or, softly, by an instruction that does not decode |
| Dispatcher.DecodeOneAt | src/emu/decoder/decoder.cpp:227-231 | decoding through the memory, byte by byte, is decoding of its readable bytes |
| Blocks.BlockCache.InvalidateRange | src/emu/cache/block_cache.cpp:23-35 | exactly the blocks that overlap the written range are dropped |
| Blocks.WriteKeepsCache | src/emu/cache/block_cache.cpp:23-35 | after any write that does not go round the address space and is heard of if it meets a block, every remaining block still is the folded decode of memory at its own addresses |
| Blocks.SurvivorsDisjoint | src/emu/cache/block_cache.cpp:23-35 | a block that outlives a write shares no byte with it |
| Blocks.ExtentsAfter | src/emu/cache/block_cache.cpp:23-35 | what is left of the cache is exactly the blocks whose stretch the write leaves alone |
| Blocks.RegisteredHeard | src/emu/memory/shadow_pages.cpp:134-145 | where all cached code lies in registered ranges every write that meets it is heard of |
| Blocks.WriteToCodeNotifies | src/emu/memory/shadow_pages.cpp:134-145 | a write into registered code reaches the listener |
| Blocks.DecodeOneStable | src/emu/decoder/decoder.cpp:227-231 | a decoded instruction stays decoded so while its own bytes stay |
| Blocks.StraightStable | src/emu/cache/block_cache.cpp:62-88 | so does a whole run of straight-line code |
| Shadow.ShadowPages.Read | src/emu/memory/shadow_pages.cpp:67-97 | Ok exactly when every byte is readable, and then those bytes |
| Shadow.ShadowPages.Write | src/emu/memory/shadow_pages.cpp:99-147 | a refused write changes nothing; any other stores exactly its bytes, makes the pages it touches readable, and tells the listener exactly when it overlaps a code range |
| Shadow.ShadowPages.GetOrMakePage | src/emu/memory/shadow_pages.cpp:47-65 | copy-on-write keeps every readable byte; the rest of the page reads as zero |
| Shadow.ShadowPages.CheckWrite | src/emu/memory/shadow_pages.cpp:103-115 | permission is refused exactly when some byte of the span is not writable and ranges are installed |
| Shadow.ShadowPages.Notify | src/emu/memory/shadow_pages.cpp:134-145 | the listener runs exactly when some code range overlaps |
| Shadow.StoreStore | src/emu/memory/shadow_pages.cpp:117-132 | storing in page-sized pieces is storing the whole |
| FlatMemory.LoadAfterStore | src/emu/memory/shadow_pages.cpp:67-147 | what was written is read back |
| FlatMemory.StoreElsewhere | src/emu/memory/shadow_pages.cpp:99-147 | readable bytes outside the write keep their value |
| LineCache.L1Cache.Read | src/emu/memory/l1_cache.cpp:38-71 | with writes entering at this level, an Ok read through all three caches returns exactly what the store below holds, and succeeds exactly when that would |
| LineCache.L1Cache.Write | src/emu/memory/l1_cache.cpp:73-98 | write-through: the flat memory takes the store or refuses it whole, the listener is told exactly of the stores that are taken, and every line, page and region of the tower still equals memory |
| LineCache.L1Cache.Fill | src/emu/memory/l1_cache.cpp:53-63 | a miss is filled from below, or leaves the slot empty |
| LineCache.L1Cache.Invalidate | src/emu/memory/l1_cache.cpp:25-36 | for every span, also one that goes round the address space, exactly the lines that hold one of its bytes are dropped; one so long that it comes round to the line it began in drops that line alone |
| LineCache.L1Cache.Flush | src/emu/memory/l1_cache.cpp:21-23 | no line survives |
| MemoryPort.Port.Read | src/tester/tester.cpp:404-405 | the stacked caches answer as the page store would |
| MemoryPort.Port.Write | src/tester/tester.cpp:404-405 | a write through the stacked caches is refused without effect, or stored with the listener told, and no level disagrees with memory afterwards |
| PageCache.L2Cache.Read | src/emu/memory/l2_cache.cpp:32-67 | as for the lines, one level down |
| PageCache.L2Cache.Write | src/emu/memory/l2_cache.cpp:69-93 | as for the lines, one level down |
| PageCache.L2Cache.Invalidate | src/emu/memory/l2_cache.cpp:19-30 | as for the lines |
| PageCache.L2Cache.Flush | src/emu/memory/l2_cache.cpp:15-17 | no page survives |
| RegionCache.L3Cache.Read | src/emu/memory/l3_cache.cpp:76-122 | as for the lines, the fallback past a failed fetch included; and a read all of whose regions can be read touches exactly the regions of its span, in order |
| RegionCache.L3Cache.Write | src/emu/memory/l3_cache.cpp:124-150 | stopping at the first matching region is enough: the regions still equal the store; a write is no use of a region |
| RegionCache.L3Cache.PrefetchRegion | src/emu/memory/l3_cache.cpp:40-74 | a successful prefetch is one touch of the recency list; a failed one gives up the victim's old region |
| RegionCache.L3Cache.Invalidate | src/emu/memory/l3_cache.cpp:26-39 | as for the lines |
| RegionCache.L3Cache.Flush | src/emu/memory/l3_cache.cpp:21-24 | nothing is held afterwards; the ages of the slots stay, which no later choice of a victim sees |
| RegionCache.LeastRecentlyUsed | src/emu/memory/l3_cache.cpp:40-122 | after any run of touches from an empty cache a base is held exactly when it is one of the (at most) sixteen most recently touched distinct ones, and never in two slots |
| RegionCache.L3Cache.Serve | src/emu/memory/l3_cache.cpp:40-122 | after any run of reads and prefetches of readable regions from an empty or flushed cache the regions held are exactly the (at most) sixteen most recently used distinct ones |
| RegionCache.VictimIsOldest | src/emu/memory/l3_cache.cpp:51-56 | with every slot in use the victim is the one longest untouched |
| CacheLines.StoreMirrors | src/emu/memory/l1_cache.cpp:84-96 | patching the one slot that holds the stretch keeps every slot equal to memory |
| FirstFitHeap.StubHeap.Alloc | src/emu/include/emu/stub_heap.h:34-53 | keeps the tiling; returns 0 exactly when nothing was asked for or no run of free bytes of the rounded size exists anywhere, wrapped sizes included; else splits the first block that fits |
| FirstFitHeap.StubHeap.Free | src/emu/include/emu/stub_heap.h:56-76 | keeps the tiling; succeeds exactly on zero and on live blocks; a double or foreign free changes nothing |
| FirstFitHeap.StubHeap.Install | src/emu/include/emu/stub_heap.h:26-31 | one free block, and the books are in order if and only if the region is not empty, does not begin at address zero and does not pass the end of the address space |
| FirstFitHeap.StubHeap.UsedBytes | src/emu/include/emu/stub_heap.h:79-83 | the live total |
| FirstFitHeap.StubHeap.FreeBytes | src/emu/include/emu/stub_heap.h:84-88 | the free total |
| FirstFitHeap.FreeUndoesAlloc | src/emu/include/emu/stub_heap.h:34-76 | free right after alloc restores the exact block list |
| FirstFitHeap.AllocFresh | src/emu/include/emu/stub_heap.h:34-53 | an allocated block lies in the region and overlaps no block in use |
| FirstFitHeap.AllocFails | src/emu/include/emu/stub_heap.h:34-53 | first fit fails exactly when there is no room, over every 64-bit size |
| FirstFitHeap.NoFit | src/emu/include/emu/stub_heap.h:37-40 | because free neighbours are always merged, a free run lies within one block |
| FirstFitHeap.SplitTiles | src/emu/include/emu/stub_heap.h:37-49 | splitting keeps a sorted gap-free tiling with no two free neighbours |
| FirstFitHeap.ReleaseTiles | src/emu/include/emu/stub_heap.h:61-73 | so does freeing with coalescing on both sides |
| FirstFitHeap.ReleaseFrees | src/emu/include/emu/stub_heap.h:61-73 | freeing makes the block's own bytes free and no others |
| FirstFitHeap.TotalsTile | src/emu/include/emu/stub_heap.h:79-88 | used plus free bytes is the size of the region |
| SizeClassHeap.Heap.Alloc | src/emu/memory/heap.cpp:31-61 | keeps the books sound; hands out the head of the class's list, else a block from the top, else 0; guest memory is not touched |
| SizeClassHeap.Heap.Free | src/emu/memory/heap.cpp:63-70 | zero, empty and foreign frees change nothing; any other address becomes the head of its class, and eight bytes there take the old head if they may be written; giving back a live block with a size of its class keeps the books sound |
| SizeClassHeap.Heap.ClassFor | src/emu/memory/heap.cpp:15-24 | the doubling loop finds the class |
| SizeClassHeap.Heap.constructor | src/emu/memory/heap.cpp:26-29 | a fresh private region, nothing live; the books are sound if and only if the region is page-aligned, clear of zero and of the end of the address space, and writable |
| SizeClassHeap.ClassFits | src/emu/memory/heap.cpp:15-24 | a block of the class holds the request if and only if it is at most 512 KiB, and no smaller class would do |
| SizeClassHeap.HandedFresh | src/emu/memory/heap.cpp:31-61 | the block is 16-aligned, inside the region, was in nobody's hands and overlaps no live block |
| SizeClassHeap.PopSound | src/emu/memory/heap.cpp:38-50 | taking a list's head keeps live blocks and list nodes a partition of the bumped range and every list a finite chain in guest memory |
| SizeClassHeap.BumpSound | src/emu/memory/heap.cpp:52-60 | so does cutting a new block |
| SizeClassHeap.PushSound | src/emu/memory/heap.cpp:63-70 | so does writing the link and pushing the block |
| SizeClassHeap.ClientWriteKeeps | src/emu/memory/heap.cpp:36-50 | so does any client write inside a live block |
| SizeClassHeap.DoubleFreeLoops | src/emu/memory/heap.cpp:63-70 | freeing the same block twice in a row makes it its own successor, which no finite list is |
| LogRing.Delivered | src/emu/logger/logger.cpp:84-121 | in every interleaving in which nobody starts on an undrained slot, what is written out is whole records, in ticket order, each once, and without gaps until the last pass |
| LogRing.StepKeeps | src/emu/logger/logger.cpp:84-226 | every step of every thread keeps the ring invariant |
| LogRing.Sole | src/emu/logger/logger.cpp:186-219 | at most one undrained ticket has started on a slot |
| LogRing.StepExtends | src/emu/logger/logger.cpp:84-226 | records never change after their ticket is taken and output only grows |
| LogRing.WaitIsInverted | src/emu/logger/logger.cpp:189-197 | for a producer that has lapped the ring, the wait's test passes exactly while the previous record is still to be drained: a drained slot holds an odd number |
| LogRaces.TestPassesTooEarly | src/emu/logger/logger.cpp:186-219 | a run exists in which a producer that has lapped the ring sees the test pass while the record of the lap before is published and not drained |
| LogRaces.LineTorn | src/emu/logger/logger.cpp:189-219 | with the wait's own test as the only guard, a run exists that writes out a line no producer wrote |
| LogRaces.DeliveredIff | src/emu/logger/logger.cpp:186-219 | over every interleaving of at most k records, with no assumption on the schedule, what the code writes out is whole records in ticket order if and only if k is at most the number of slots; the same if every producer waited for its test to pass |
| LogRaces.PacedOrderly | src/emu/logger/logger.cpp:84-219 | for any number of records, it is so in every interleaving in which no ticket is handed out before the record a lap earlier is drained |
| LogRing.FillKeeps | src/emu/logger/logger.cpp:199-216 | filling a field disturbs no other undrained record |
| LogRing.PublishKeeps | src/emu/logger/logger.cpp:218-219 | publishing names the right ticket |
| LogRing.DeliverKeeps | src/emu/logger/logger.cpp:92-100 | delivering keeps order and marks the slot |
| Unwinding.FrameRecovers | src/host/pe_image.cpp:17-226 | for every image in memory whose exception directory leads to a sorted table, along at most sixteen chained entries to the unwind information, every well-formed prologue and every RIP inside or after it, unwinding ends and inverts the prologue: caller_rip is the word at the entry RSP and caller_rsp lies 8 above |
| Unwinding.InfoRecovers | src/host/pe_image.cpp:139-226 | the same from the unwind information on |
| Unwinding.WalkUndoes | src/host/pe_image.cpp:159-216 | the walk over an encoded code array raises RSP by all that ran |
| Unwinding.CodeUndone | src/host/pe_image.cpp:167-213 | each code undoes its own operation, in all three allocation encodings |
| Unwinding.LookupIff | src/host/pe_image.cpp:50-84 | on a sorted, disjoint table the lookup is Ok if and only if some entry covers the RVA |
| Unwinding.SearchSound | src/host/pe_image.cpp:64-83 | on any table, an entry found covers the RVA |
| Unwinding.SearchTable | src/host/pe_image.cpp:64-83 | the loop is the binary search |
| Unwinding.UnwindFrame | src/host/pe_image.cpp:17-226 | from the DOS header on the code computes the unwinding the theorem speaks of, on any memory on which the walk over the codes ends by its slot bytes |
| Unwinding.WalkCodes | src/host/pe_image.cpp:157-216 | the loop with its eight-bit slot index, which may go round, computes the walk wherever the slot bytes let it end |
| Unwinding.WalkEndsIff | src/host/pe_image.cpp:157-216 | the loop ends if and only if the first pass over the slots reaches the count or a failing code, or comes round to slot 1 and the pass from there does; and then its outcome does not depend on the rounds allowed |
| Unwinding.ShortEnds | src/host/pe_image.cpp:157-216 | over at most 253 slots it always ends |
| Unwinding.EndlessIff | src/host/pe_image.cpp:119-226 | unwinding a frame runs for ever if and only if that fails for the codes its RIP leads to |
| Unwinding.WalkNeverEnds | src/host/pe_image.cpp:157-216 | it can fail: over 255 slots of two-slot codes the index goes round to 0 and the loop never ends |
| Unwinding.ReadDirectory | src/host/pe_image.cpp:15-46 | the signatures, the machine and the exception directory are read and checked in the order of the code |
| Unwinding.Chain | src/host/pe_image.cpp:126-138 | at most sixteen chained entries are followed |

## Left out

- Dispatcher.Emulator.Run: hooks, debug-register breakpoints, IAT stubs, tracing, fault recovery and branch statistics are absent; programs that violate `Reference.Benign`, such as one that stores into the block it is executing, are not covered.
- Dispatcher.DecodeOneAt: looks at no more than 255 bytes; the source's eight-bit count would go round on an endless run of prefixes.
- Decoder.AfterPrefixes: VEX and EVEX prefixes and the opcodes outside the subset (shifts, string operations, multiplications, divisions, most two-byte opcodes) answer NotModelled.
- ByteReader.ByteSource.Decode: the opcode tables are functions of buffer and position; the moving source covers the prefix scan, the readers and the r/m operand. A null buffer is not modelled.
- EFlags.ComputeNegMeaning: AF is what the formula of the code gives, which is not always the borrow out of bit 3.
- FloatOps.F80Div: requires a canonical divisor; an unnormal one with a zero integer bit is outside the division routine's own assumption.
- FloatCorrect.AddRoundsOnce: canonical operands; sums of unnormals are covered by `FloatCorrect.AddCommutes` and `FloatOps.F80Sub` only. NaN payloads are not modelled, every NaN result is the one the code returns.
- LazyFlags.LazyMeetsEager: the parity table is the function it tabulates.
- CarryRing.OpRcl: the operand is a register and the count already masked; memory operands go through the operand access proved in Handlers.
- CarryRing.OpRcr: as for OpRcl.
- BitDeposit.Pdep: operand access left out, as for the rotates; so it is for Pext.
- Shadow.ShadowPages.Write: the backing is a fixed partial map of whole pages; the listener is the block cache's invalidation. Page buffers are sequences, so aliasing of buffers is not captured.
- Shadow.ShadowPages.Read: says nothing about the output buffer of a failed read.
- LineCache.L1Cache.Write: regions and permissions do not change while lines are cached, and no write enters below.
- RegionCache.LeastRecentlyUsed: the use counter is unbounded, the source's is 64 bits wide.
- RegionCache.L3Cache.PrefetchRegion: hit and miss counters are left out, here and in the other caches.
- SizeClassHeap.Heap.Alloc: asks for sound books, so for a region as the constructor's contract names it; failed reads of a list head, which cannot happen then, are absent.
- SizeClassHeap.Heap.Free: what the allocator hands out after a wrong free is not said beyond `SizeClassHeap.DoubleFreeLoops`.
- LogRing.Delivered: assumes that nobody starts on an undrained slot; what holds without it is `LogRaces.DeliveredIff`. One epoch of init and shutdown; sequentially consistent steps; levels, wake-ups and formatting left out, and the sequence numbers unbounded.
- Unwinding.UnwindFrame: has no result where the walk over the codes does not end, since the code then has none. Frame-register functions recover RSP only if nothing moved it after the prologue.
- Handlers and instructions beyond the subset, the vector, x87, string and cryptographic families: they would add cases, not depth.
- Windows process access, PE loading, the command line and the test driver: host plumbing.
