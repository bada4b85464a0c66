# Verification of the YARI simulator, boot loader, debugger stub and random source

YARI is a MIPS R3000-compatible soft core. This project models the C programs around it and
proves what they promise of each other:

- **The instruction cache** (`Words`, `Memory`, `ICache`, `CacheTheorems`, `ICacheUnit`, `Flush`,
  `Preload`): 4 ways of 128 lines of 4 words, one global round-robin victim counter, no snooping of
  stores, explicit invalidation, tag 0 for "invalid". A ghost set of stale words says what a program
  must not fetch; under that discipline the cache is invisible.
- **The step loop** (`Cpu`, `RegUse`, `CachedRuns`, `CacheTraces`, `Machine`, `DelaySlots`, `Exceptions`,
  `Arithmetic`, `Unaligned`, `Overflow`, `Encoding`, `InstructionSet`, `MemoryInstructions`,
  `ControlInstructions`): the whole integer instruction set of the simulator, with its two program
  counters, two delay-slot flags, exceptions and register-use map. It is compared with an uncached
  machine, with a reference machine that has one program counter and executes a branch and its delay
  slot together, and, instruction by instruction, with the architecture's opcode maps, in numbers and
  bits.
- **The boot-loader protocol** (`Text`, `Base85`, `Tinymon`, `Printer`, `LoaderTheorems`, `TinymonUnit`,
  `CorruptDumps`, `CommandLines`, `ReadCommands`, `LetterCase`, `PrinterUnit`): the host's printer
  and the firmware's parser, written separately in the source, the proof that one undoes the other, and
  what becomes of a dump with a wrong character.
- **The debugger stub** (`GdbStep`, `GdbTheorems`, `GdbCoverage`, `GdbSession`, `GdbCached`, `GdbUnit`,
  `GdbPackets`, `GdbLink`): planting and undoing of breakpoint words, the next-address predictor
  against the simulator's own step, stepping through a whole program, and the packet and hexadecimal
  codecs.
- **The random source** (`Twister`): the in-place three-phase regeneration against one infinite
  recurrence, and what it conserves.

Each program is a class whose methods update fields or arrays in place, proved against functions on
values; the theorems are lemmas about those functions. 32-bit arithmetic is written out modulo 2^32.
Memory is a map from addresses to bytes, big-endian. Reading a serial line is taking the next byte of
a sequence; a reader that would wait for ever is reported as waiting. A fault that ends the C program
(`fatal`, `exit`, an access violation) is a stop with its reason.

## Model

| member | source | states |
|---|---|---|
| ICacheUnit.InstructionCache.constructor | shared/yarisim/run_simple.c:257-260 | a fresh cache is the reset state: every tag 0, counter 0 |
| ICacheUnit.InstructionCache.Search | shared/yarisim/run_simple.c:270-281 | finds the first way holding the tag on the line, or none |
| ICacheUnit.InstructionCache.FetchFrom | shared/yarisim/run_simple.c:262-295 | the word and the new tags, data and counter of one fetch, hit or miss |
| ICacheUnit.InstructionCache.FillLine | shared/yarisim/run_simple.c:284-289 | fills exactly one slot with the four words of the line, and reports a word outside memory |
| ICacheUnit.InstructionCache.Invalidate | shared/yarisim/run_simple.c:297-308 | clears the line's tag in every way and nothing else |
| CacheTheorems.FetchReadsMemory | shared/yarisim/run_simple.c:262-295 | with a coherent cache, a fetch of a mapped line with nonzero tag that is not stale is the plain load |
| CacheTheorems.FetchAgreesIff | shared/yarisim/run_simple.c:262-295 | for a mapped word that is not stale, the fetch is the plain load if and only if the word is cached or every word of its line is mapped; otherwise an access violation |
| CacheTheorems.EventsKeepCoherent | shared/yarisim/run_simple.c:262-308 | over any fetches, stores and invalidations the cache is coherent up to the words stored to since their line was last invalidated |
| CacheTheorems.CacheIsTransparent | shared/yarisim/run_simple.c:262-308 | over every sequence of fetches, stores and invalidations that fetches nothing stale, the cached reads are the direct reads |
| CacheTheorems.TagZeroReadsGarbage | shared/yarisim/run_simple.c:303-307 | an address with tag 0 hits the reset cache and reads 0, so it is right exactly when memory holds 0: the reservation in the source's comment |
| CacheTheorems.StaleReadsOldWord | shared/yarisim/run_simple.c:270-280 | after a store to a cached word without invalidation, the fetch returns the old word and the load the new one |
| CacheTheorems.TagsStayDistinct | shared/yarisim/run_simple.c:257-308 | nonzero tags of one line stay pairwise distinct across ways, over all sequences |
| CacheTheorems.LineSurvivesThreeMisses | shared/yarisim/run_simple.c:285-289 | a line just filled, with its words, stays through any three further misses unless it is invalidated |
| CacheTheorems.FirstMissFillsWayZero | shared/yarisim/run_simple.c:284-289 | from reset the ways are filled from way 0 on |
| CacheTheorems.FourthMissEvicts | shared/yarisim/run_simple.c:285-289 | and the fourth miss, on the same line index, evicts it |
| CacheTheorems.UnstoredWordKept | shared/yarisim/support.c:582-643 | a word no event stores to keeps its value and does not become stale |
| Flush.FlushRange | shared/testcases/stdio.h:438-452 | the flush loop invalidates line by line from the range's first line to its end |
| Flush.LoopEndsIff | shared/testcases/stdio.h:444-446 | the loop's address passes the end if and only if the range ends a line below the top of the address space |
| Flush.FlushRefreshes | shared/testcases/stdio.h:444-451 | after the flush no word of a line meeting the range is stale |
| Flush.FlushedLineMisses | shared/testcases/stdio.h:444-451 | every line meeting the range is out of the cache afterwards |
| Flush.FlushMakesStoresVisible | shared/testcases/stdio.h:438-452 | stores, then the flush, then anything but a store there: a fetch from the range returns the stored word |
| Preload.Dump | shared/yarisim/support.c:654-713 | dumping from memory emits the words of the range in order |
| Preload.DumpTags | shared/yarisim/sim.c:338-352 | the tags of each way are constant and go up by one per way |
| Preload.DumpCacheInitFiles | shared/yarisim/sim.c:303-369 | the emitted data and tags of both caches are the images of the text and of the data, way by way |
| Preload.PositionIsOffset | shared/yarisim/run_simple.c:264-267 | line and word index together are the word's position in its way, for every geometry |
| Preload.PreloadAgrees | shared/yarisim/sim.c:326-352 | with the text on a way boundary, every address of the four ways hits in exactly one way and reads the memory word |
| Preload.PreloadExact | shared/yarisim/sim.c:326-352 | for all geometries, the preload is right for every memory and address if and only if the text starts on a way boundary |
| Preload.MisalignedText | shared/yarisim/sim.c:345-348 | otherwise some memory's first text word is looked up wrong |
| RegUse.InitRegUseMap | shared/yarisim/run_simple.c:80-150 | the table-filling code builds the register-use map, entry for entry |
| RegUse.UnmarkedOperandsIgnored | shared/yarisim/run_simple.c:454-463 | for every state and instruction word, operands the map does not mark can have any value: the whole outcome is the same |
| RegUse.PoisonIsInvisible | shared/yarisim/run_simple.c:457-467 | a step with the poison constants equals the step with the true registers, including the address a SYNCI invalidates |
| RegUse.MarkedExactly | shared/yarisim/run_simple.c:80-150 | exactly which opcodes and functions leave rs or rt unmarked |
| Machine.Simulator.constructor | shared/yarisim/run_simple.c:341-369 | the state after reset |
| Machine.Simulator.FetchPhase | shared/yarisim/run_simple.c:389 | the instruction is fetched through the cache, or is 0 when annulled; the branch to itself probes the word two places on |
| Machine.Simulator.ExecutePhase | shared/yarisim/run_simple.c:390-391 | the rest of the turn: advance, operands, execution, write-back, invalidation |
| Machine.Simulator.Step | shared/yarisim/run_simple.c:371-919 | one turn of the loop refines the step function on state and cache |
| Machine.Simulator.Run | shared/yarisim/run_simple.c:371-919 | n turns refine n steps, and stop where and why they stop |
| CachedRuns.StepRefines | shared/yarisim/run_simple.c:389-391 | a step through the cache has the architectural result of a step fetching from memory, and keeps the cache coherent |
| CachedRuns.CachedRefinesDirect | shared/yarisim/run_simple.c:371-919 | over every run whose fetches and probes touch no stale, unmapped or tag-0 line, the cached machine goes through the states of the uncached one |
| CachedRuns.ResetRefines | shared/yarisim/run_simple.c:341-371 | the same for every run from reset, where nothing is stale |
| CacheTraces.StepTraced | shared/yarisim/run_simple.c:371-919 | a step of the cached processor does to its cache and memory what its fetches, its store and its invalidation do, in this order |
| CacheTraces.RunTraced | shared/yarisim/run_simple.c:371-919 | so every run is such a sequence, and what is proved of sequences holds of runs |
| CacheTraces.RunsKeepTagsDistinct | shared/yarisim/run_simple.c:257-308 | over every run from reset the nonzero tags of a line stay distinct |
| DelaySlots.TurnIsSequential | shared/yarisim/run_simple.c:390-391 | after every turn from any state: neither flag set implies pc_next = pc + 4 |
| DelaySlots.IgnoresPc | shared/yarisim/run_simple.c:487-919 | an instruction that is not a branch does the same wherever the program counters point |
| DelaySlots.RegionOf | shared/yarisim/run_simple.c:632-640 | masking and or-ing a jump offset is region plus four times offset |
| DelaySlots.BranchTurn | shared/yarisim/run_simple.c:607-670 | a branch outside a slot writes its link A + 8, announces the slot, and aims at its target A + 4 + 4*imm, region jump or register, or past the slot |
| DelaySlots.PlainTurn | shared/yarisim/run_simple.c:449-451 | an instruction in a delay slot has its ordinary effect, and then control is where the branch aimed |
| DelaySlots.BranchExecutesSlotThenTarget | shared/yarisim/run_simple.c:498-501 | a branch at A executes A, A + 4, then its target or A + 8 |
| DelaySlots.MacroRefines | shared/yarisim/run_simple.c:378-451 | the loop's turns for one instruction, or a branch with its slot, are one step of the reference machine |
| DelaySlots.LoopRefinesReference | shared/yarisim/run_simple.c:371-919 | over every run without a branch in a delay slot, loop and reference machine have the same states and stops |
| Exceptions.BreakResumes | shared/yarisim/run_simple.c:589-600 | BREAK at A and an ERET at the vector come back to A with only exception registers changed when erl is clear; the return goes to A if and only if erl is clear or ErrorEPC is A |
| Exceptions.SlotBreakResumes | shared/yarisim/run_simple.c:680-697 | with erl clear, a BREAK in the slot of a branch at A sets BD and comes back to A, with nothing changed but the exception registers and the branch's own link; the return goes to A if and only if erl is clear or ErrorEPC is A; for the branch to itself, when the probed word does not end the program |
| Exceptions.RelinkedTheSame | shared/yarisim/run_simple.c:498-501 | a restarted branch links the same value again |
| Exceptions.RestartAgreesIff | shared/yarisim/run_simple.c:607-631 | over all branches, the restart goes the same way if and only if the link is not read, or is the jump register's own value, or has the sign the register had, or target and fall-through coincide |
| Exceptions.RestartedBranchAgrees | shared/yarisim/run_simple.c:498-501 | a branch that does not read the register it links goes the same way and links the same when it is executed again |
| Exceptions.RestartedJalrGoesAstray | shared/yarisim/run_simple.c:498-501 | JALR with one register for target and link goes astray: its restart is right exactly when the target was A + 8 |
| Exceptions.RestartedSignBranchGoesAstray | shared/yarisim/run_simple.c:618-624 | so does a linking sign branch on register 31: a taken BGEZAL that falls through when it is restarted |
| Overflow.OverflowTestSeesSigns | shared/yarisim/run_simple.c:550-565 | the overflow test traps exactly when an operand is negative; when it agrees with signed overflow |
| Overflow.OverflowTestErrs | shared/yarisim/run_simple.c:553-565 | operands on which the test is wrong, in either direction |
| Arithmetic.MultIsProduct | shared/yarisim/run_simple.c:514-519 | MULT leaves the exact signed 64-bit product in HI and LO |
| Arithmetic.MultuIsProduct | shared/yarisim/run_simple.c:520-525 | MULTU leaves the exact unsigned product |
| Arithmetic.DivIsTruncating | shared/yarisim/run_simple.c:526-535 | DIV leaves the quotient truncated toward zero and a remainder with the dividend's sign; by zero, 0 and the dividend |
| Arithmetic.DivisionIsUnique | shared/yarisim/run_simple.c:526-535 | those conditions determine quotient and remainder |
| Arithmetic.TruncFits | shared/yarisim/run_simple.c:526-535 | both fit in a word for all operands but the smallest integer by -1 |
| Arithmetic.DivuDivides | shared/yarisim/run_simple.c:536-545 | DIVU leaves quotient and remainder |
| Arithmetic.SubtractThenAdd | shared/yarisim/run_simple.c:577-578 | ADDU undoes SUBU, wrap-around or not |
| Arithmetic.LogicAddsUp | shared/yarisim/run_simple.c:577-582 | AND, OR, XOR and NOR of the same operands fit together as binary addition: ADDU is XOR plus twice AND, OR is XOR plus AND, NOR the rest of all ones |
| Arithmetic.LoadsConstant | shared/yarisim/run_simple.c:677-679 | LUI then ORI load any constant, half by half |
| Arithmetic.ShiftsSignExtend | shared/yarisim/run_simple.c:491-493 | SLL then SRA by 24 or 16 sign-extend as LB and LH do |
| Arithmetic.StoreThenLoad | shared/yarisim/run_simple.c:830-853 | storing a byte, halfword or word and loading it back, signed or unsigned, gives its low bytes in the right form |
| Encoding.ImmediateFields | shared/yarisim/mips32.h:118-142 | the decoder finds opcode, registers and immediate where an assembler puts them |
| Encoding.RegisterFields | shared/yarisim/mips32.h:118-142 | and the third register, shift amount and function |
| Encoding.JumpFields | shared/yarisim/mips32.h:118-142 | and the jump offset |
| InstructionSet.SignedIs | shared/yarisim/run_simple.c:584 | the cast to int is the number in range that is the word modulo 2^32 |
| InstructionSet.ThreeRegisters | shared/yarisim/run_simple.c:494-585 | every instruction on three registers, by its function code: sums and differences modulo 2^32, the bitwise operators bit by bit, SLT and SLTU by the order of the numbers, variable shifts by powers of two; rd gets that value and nothing else changes |
| InstructionSet.ConstantShift | shared/yarisim/run_simple.c:491-493 | SLL, SRL and SRA by their codes: the product modulo 2^32, the quotient, the signed quotient by the power of two |
| InstructionSet.HiLoMoves | shared/yarisim/run_simple.c:510-513 | MFHI, MTHI, MFLO and MTLO by their codes, each touching one of HI and LO |
| InstructionSet.HiLoStep | shared/yarisim/run_simple.c:514-545 | products and quotients change HI and LO only, and only the smallest integer by -1 stops |
| InstructionSet.Products | shared/yarisim/run_simple.c:514-525 | MULT and MULTU by their codes leave the exact products |
| InstructionSet.Quotients | shared/yarisim/run_simple.c:526-545 | DIV and DIVU by their codes leave quotient and remainder |
| InstructionSet.TrappingSums | shared/yarisim/run_simple.c:546-576 | ADD and SUB by their codes: the sum, or the overflow exception exactly when one of the words added has its top bit set |
| InstructionSet.BreakTraps | shared/yarisim/run_simple.c:589-600 | BREAK by its code, with the whole exception state |
| InstructionSet.EqualTraps | shared/yarisim/run_simple.c:586-588 | TEQ by its code stops exactly on equal registers |
| InstructionSet.SyscallStops | shared/yarisim/run_simple.c:503-508 | SYSCALL by its code stops |
| InstructionSet.Immediates | shared/yarisim/run_simple.c:672-679 | ADDI, ADDIU, SLTI, SLTIU, ANDI, ORI, XORI and LUI by their codes: signs extended in sums and comparisons, not in the bitwise operators |
| MemoryInstructions.Loads | shared/yarisim/run_simple.c:830-834 | LB, LH, LW, LBU and LHU by their codes: the big-endian number at the address in rt, as a signed one for LB and LH, or exactly which stop |
| MemoryInstructions.Stores | shared/yarisim/run_simple.c:851-853 | SB, SH and SW by their codes: the low bytes of rt at the address and no other byte, or exactly which stop |
| MemoryInstructions.UnalignedLoad | shared/yarisim/run_simple.c:835-849 | LWL and LWR by their codes read any four bytes |
| MemoryInstructions.UnalignedStore | shared/yarisim/run_simple.c:854-867 | SWL and SWR by their codes write any four bytes |
| MemoryInstructions.WhatFetches | shared/yarisim/support.c:473-580 | a fetch reads any mapped aligned word, the PROM's too |
| ControlInstructions.Branches | shared/yarisim/run_simple.c:607-670 | the conditional branches by their codes: condition, target and link |
| ControlInstructions.RegisterJumps | shared/yarisim/run_simple.c:498-501 | JR and JALR by their codes |
| ControlInstructions.RegionJumps | shared/yarisim/run_simple.c:632-643 | J and JAL by their codes |
| ControlInstructions.EndlessLoopEnds | shared/yarisim/run_simple.c:649-651 | the branch to itself ends the run when the probed word is 0 |
| ControlInstructions.Coprocessor0Moves | shared/yarisim/run_simple.c:710-789 | MFC0 and MTC0 by their codes; writing the status register sets exl from bit 1 and erl from bit 2 |
| ControlInstructions.ExceptionReturn | shared/yarisim/run_simple.c:684-697 | ERET goes to ErrorEPC and clears erl, or to EPC and clears exl |
| ControlInstructions.Coprocessor2Reads | shared/yarisim/run_simple.c:790-821 | MFC2 gives the clock frequency or 0, and 0x48000000 ends the run |
| ControlInstructions.Coprocessor2Formats | shared/yarisim/run_simple.c:790-821 | the formats of coprocessor 2: writes only leave the filler in rt |
| ControlInstructions.Coprocessor0Formats | shared/yarisim/run_simple.c:680-789 | the formats of coprocessor 0: which are moves, which do nothing, and which are fatal |
| ControlInstructions.HardwareRegisters | shared/yarisim/run_simple.c:312-339 | RDHWR gives one processor, lines of 16 bytes and 16 cycles a count, and stops on the rest |
| ControlInstructions.Synchronises | shared/yarisim/run_simple.c:621-623 | SYNCI has no effect but the invalidation at its address |
| ControlInstructions.OthersStop | shared/yarisim/run_simple.c:601-896 | every code the switch does not handle stops the run |
| ControlInstructions.FloatingLoadUnmodelled | shared/yarisim/run_simple.c:884-887 | LWC1 is marked as not modelled |
| ControlInstructions.AfterReset | shared/yarisim/run_simple.c:341-369 | the state after reset |
| Unaligned.MergeLeftBytes | shared/yarisim/run_simple.c:835-867 | the shift-and-mask merge of LWL and SWR, byte by byte |
| Unaligned.MergeRightBytes | shared/yarisim/run_simple.c:835-867 | the merge of LWR and SWL, byte by byte |
| Unaligned.LoadPair | shared/yarisim/run_simple.c:835-849 | LWL at a then LWR at a + 3 give the big-endian word of bytes a to a + 3, whatever the register held |
| Unaligned.StorePair | shared/yarisim/run_simple.c:854-867 | SWL at a then SWR at a + 3 write exactly those four bytes |
| Unaligned.StoreLoadPair | shared/yarisim/run_simple.c:835-867 | storing then loading unaligned is the identity |
| Unaligned.LoadPairStep | shared/yarisim/run_simple.c:835-849 | the load pair as two steps of the processor, into a register other than the base |
| Unaligned.StorePairStep | shared/yarisim/run_simple.c:854-867 | the store pair as two steps of the processor |
| Memory.LoadAfterStore | shared/yarisim/support.c:551-564 | a stored word is read back, and every other aligned word keeps its value |
| Memory.StoreKeepsOtherWords | shared/yarisim/support.c:611-639 | a store of any size changes only the aligned word it is in |
| Base85.EncodeIsExact | shared/yarisim/support.c:762-775 | for every word the encoder's last quotient is 0, and its five digits stand for the word |
| Base85.GetWordReads | shared/firmware/tinymon.c:178-207 | any five digits, blanks between them or not, are flagged exactly when 85v + d reaches 2^32 and 84v + d does not, and otherwise read as 85v + d mod 2^32 |
| Base85.OtherCharacterFlagged | shared/firmware/tinymon.c:178-202 | a character that is neither blank nor digit flags the word wherever it comes, and the rest is left unread |
| Base85.WordRoundTrip | shared/firmware/tinymon.c:204-207 | decoding undoes encoding for every word, with any bytes up to a blank interleaved |
| Base85.WeightNotZero | shared/firmware/tinymon.c:191 | no digit difference times its weight is a multiple of 2^32 |
| PrinterUnit.Console.EncodeWordBase85 | shared/yarisim/support.c:762-775 | prints the five digits of the word, most significant first |
| PrinterUnit.Console.PutHex | shared/yarisim/support.c:722-732 | the shifting loop prints the number without leading zeros and sums the printed characters |
| PrinterUnit.Console.TinymonCmd | shared/yarisim/support.c:715-738 | one command line: letter, number, checksum, line end |
| PrinterUnit.Console.PutSection | shared/yarisim/support.c:798-805 | the words of a section in base 85, a line end after every seventeenth, and their sum |
| PrinterUnit.Console.DumpTinymon | shared/yarisim/support.c:785-811 | the whole dump: clear, every section with its checksum word, execute |
| TinymonUnit.Loader.SerialInLowercase | shared/firmware/tinymon.c:107-118 | the next character, with carriage returns as line ends and capitals lowered |
| TinymonUnit.Loader.FindCommand | shared/firmware/tinymon.c:273-281 | past blank lines and cruft to the next command letter |
| TinymonUnit.Loader.GetNumber | shared/firmware/tinymon.c:160-176 | the number, mod 2^32, and its checksum |
| TinymonUnit.Loader.ReadLine | shared/firmware/tinymon.c:283-319 | command, argument, and whether the checksum and the line's end are right |
| TinymonUnit.Loader.GetBase85Word | shared/firmware/tinymon.c:178-207 | five digits, with the error latch |
| TinymonUnit.Loader.ReceiveWords | shared/firmware/tinymon.c:351-386 | the block loop with the moving address, the sum and the two error exits |
| TinymonUnit.Loader.Run | shared/firmware/tinymon.c:321-386 | one command carried out, or ignored while in error |
| TinymonUnit.Loader.Turn | shared/firmware/tinymon.c:260-442 | one turn of the command loop, the error exit included |
| TinymonUnit.Loader.CommandLoop | shared/firmware/tinymon.c:260-442 | the loop until the input ends, an address fault or a jump; waiting in error, its memory is untouched and the error still set |
| LoaderTheorems.CommandReads | shared/firmware/tinymon.c:283-319 | every printed command line, after any line ends, is read as its command and value with a good checksum |
| LetterCase.LineSame | shared/firmware/tinymon.c:107-118 | inputs that differ only in the case of letters and in line ends are read as the same command, argument and verdict |
| LetterCase.LowerIff | shared/firmware/tinymon.c:107-118 | exactly these characters are taken for each other |
| LetterCase.LowerIs | shared/firmware/tinymon.c:107-118 | carriage returns become line feeds, capitals small letters, and nothing else changes |
| Tinymon.LettersAre | shared/firmware/tinymon.c:281-283 | the command letters and separators in ASCII |
| Text.DigitsAre | shared/firmware/tinymon.c:158-176 | the hexadecimal digits and their values, and no others |
| CommandLines.LineReads | shared/firmware/tinymon.c:266-319 | the grammar of command lines: cruft, a letter, an argument and a checksum with spaces between them are read as that command, and as good exactly when the checksum is the sum of letter and digits modulo 256 and nothing but a line end follows |
| CommandLines.ShortLineReads | shared/firmware/tinymon.c:289-292 | a line that ends after its argument is good without a checksum |
| CommandLines.LineTurn | shared/firmware/tinymon.c:272-441 | the turn of such a line: carried out, or the loader is in error at the start of the next line |
| CommandLines.WrongCharacterIgnored | shared/firmware/tinymon.c:296-319 | a printed command with one other command letter or one other argument digit is ignored, and leaves the loader in error |
| CommandLines.WrongChecksumIgnored | shared/firmware/tinymon.c:296-319 | so is one with a wrong checksum |
| ReadCommands.ReadsMove | shared/firmware/tinymon.c:344-347 | k accepted read commands move the address 4k on, modulo 2^32 |
| ReadCommands.UnalignedRead | shared/firmware/tinymon.c:344-347 | a read at an address that is not aligned is an address error |
| ReadCommands.LoadReadsBlock | shared/firmware/tinymon.c:331-386 | a load command at a, k reads and an accepted block: word i is stored at a + 4(k + i) modulo 2^32, and nothing elsewhere |
| ReadCommands.PrintedReadsThenBlock | shared/firmware/tinymon.c:331-386 | the same for printed command lines |
| ReadCommands.StoreAllWraps | shared/firmware/tinymon.c:356-363 | a block also goes on around the top of the address space |
| LoaderTheorems.AcceptedIff | shared/firmware/tinymon.c:356-377 | a block is accepted exactly when no word is flagged and its words, the checksum's among them, sum to 0 mod 2^32 |
| LoaderTheorems.BlockReads | shared/firmware/tinymon.c:351-386 | what a block of any groups does: the words it stores, where it leaves the address and the input, and exactly when it ends in error |
| LoaderTheorems.StoreAllWrites | shared/firmware/tinymon.c:356-363 | the moving address stores word i at 4i past the start, and nothing elsewhere |
| LoaderTheorems.DumpLoads | shared/yarisim/support.c:785-811 | end to end: for any sections and entry, running the loader on the printed dump leaves every section word equal to the host's and every other word alone, no error, and jumps to the entry |
| LoaderTheorems.WrongDigitRejected | shared/firmware/tinymon.c:373-386 | changing any one base-85 digit of an accepted block, data or checksum, makes it rejected |
| LoaderTheorems.CorruptionCaught | shared/firmware/tinymon.c:350-386 | so receiving a printed block with one wrong digit leaves the loader in error |
| LoaderTheorems.ErrorIsLatched | shared/firmware/tinymon.c:321-325 | while in error, no turn writes memory, faults or jumps, and only an accepted clear command ends the error |
| LoaderTheorems.LatchedUntilCleared | shared/firmware/tinymon.c:435-441 | over every input without an accepted clear, a loader in error ends waiting with its memory untouched |
| CorruptDumps.RunInError | shared/firmware/tinymon.c:321-441 | for every input, a loader in error either waits in error for ever or goes on after the first line that reads as an accepted clear, with its memory and address untouched |
| CorruptDumps.NeverClearedIff | shared/firmware/tinymon.c:321-325 | it stays in error over the whole input if and only if no line of the input reads as an accepted clear |
| CorruptDumps.BlockRejected | shared/firmware/tinymon.c:351-386 | what a rejected block leaves: the words before the first flagged group are stored, and the input goes on after that group, or after the checksum |
| CorruptDumps.WrongDumpRuns | shared/firmware/tinymon.c:260-442 | the whole run of a printed dump with any one wrong digit: the sections before it are loaded, the wrong one is kept up to the mistake and rejected; then the loader waits in error for ever if no later line reads as an accepted clear, and otherwise goes on after that line with what it has |
| CorruptDumps.CaughtButRun | shared/firmware/tinymon.c:321-331 | the failing input: in a dump of two sections the mistake in the first is caught, the text of the second, sixteen zeros and a 59, clears the error, and the loader jumps to the entry with a word that is not the host's |
| Tinymon.TurnConsumes | shared/firmware/tinymon.c:260-281 | every turn that comes back has consumed input, so the loop makes progress |
| GdbUnit.DebugStub.Predicted | shared/gdbstub/gdb-stub.c:514-561 | the predictor's three outcomes for an instruction |
| GdbUnit.DebugStub.SingleStep | shared/gdbstub/gdb-stub.c:508-578 | saves and patches the predicted words into the two slots, in order |
| GdbUnit.DebugStub.SetAsyncBreakpoint | shared/gdbstub/gdb-stub.c:585-593 | saves and patches the interrupted word |
| GdbUnit.DebugStub.RestoreAll | shared/gdbstub/gdb-stub.c:664-682 | puts the hoisted words back in order, the second slot only if the first is taken, and frees the slots |
| GdbUnit.DebugStub.HandleException | shared/gdbstub/gdb-stub.c:646-682 | a visit to the handler: the early return of the floating-point trap, the restore, the debugger's writes, and continue or step |
| GdbTheorems.HoistUndone | shared/gdbstub/gdb-stub.c:570-572 | one more hoisted word, put back last, leaves the memory the earlier ones would have left |
| GdbTheorems.HoistPlants | shared/gdbstub/gdb-stub.c:570-572 | what is planted is the word 0x0000000d, and the word there before is saved |
| GdbTheorems.EventUndone | shared/gdbstub/gdb-stub.c:508-682 | the invariant of one event: live slots hold breaks at distinct words, and undoing them gives the memory of the unpatched program |
| GdbTheorems.BreakpointsAreUndone | shared/gdbstub/gdb-stub.c:500-682 | over any alternation of single steps, interrupts, program stores elsewhere and handler visits, undoing gives the memory of the run in which nothing was ever planted, with every slot free |
| GdbTheorems.RestoredAtContinue | shared/gdbstub/gdb-stub.c:664-682 | after a visit that continues, on every cause whose exception code is not 11 or whose unit is not 1, memory is exactly that memory, and every slot free |
| GdbTheorems.PokesWrite | shared/gdbstub/gdb-stub.c:779-794 | after the debugger's writes every byte is that of the last write to it, or the old one |
| GdbTheorems.WhichTrap | shared/gdbstub/gdb-stub.c:646-652 | for every cause word, by its fields: the handler returns at once for exception code 11 with unit 1, and for nothing else |
| GdbTheorems.EveryCause | shared/gdbstub/gdb-stub.c:646-652 | every word is a cause with such fields |
| GdbTheorems.FpuTrapLeaves | shared/gdbstub/gdb-stub.c:646-652 | and then leaves stub and memory alone |
| GdbTheorems.BreakUndoes | shared/gdbstub/gdb-stub.c:646-682 | on every cause with BREAK's code the visit begins by putting the words back |
| GdbTheorems.StepUndoneIff | shared/gdbstub/gdb-stub.c:664-672 | a single step is undone if and only if it plants nothing at address 0 or the word there is a break already |
| GdbTheorems.InterruptUndoneIff | shared/gdbstub/gdb-stub.c:664-682 | for every interrupt, its breakpoint is undone if and only if no break of the stub's own stays behind: at the address of a slot that was taken and is forgotten, at a planted address, whose break is saved and put back last, or at address 0; there the program's own word must be a break |
| GdbTheorems.ProgramStoreUndoneIff | shared/gdbstub/gdb-stub.c:664-682 | a program store into a planted word survives the restore if and only if it leaves the hoisted word as it is; anywhere else it does |
| GdbCoverage.PlantsOfBranch | shared/gdbstub/gdb-stub.c:563-573 | for a branch, breakpoints are planted at its target and, if conditional, past its slot, and nowhere else |
| GdbCoverage.PlantsOfPlain | shared/gdbstub/gdb-stub.c:545-577 | for any other instruction, the next address is planted exactly when the stub does not take it for a branch or its immediate is 0 |
| GdbCoverage.SuccessorIsPlanted | shared/gdbstub/gdb-stub.c:508-578 | the predictor agrees with the simulator: the address it goes to is planted if and only if the instruction is not SYNCI or a coprocessor operation with a nonzero immediate |
| GdbCoverage.CoveredIff | shared/gdbstub/gdb-stub.c:545-573 | the covered instructions by their codes |
| GdbCoverage.RunHidden | shared/gdbstub/gdb-stub.c:508-578 | a run that does not fetch, load or store a planted word goes the same way with the breaks in memory |
| GdbCoverage.SingleStepIsOneStep | shared/gdbstub/gdb-stub.c:508-682 | end to end: the patched program stops in the handler at the next instruction with the registers, and after the restore the memory, that the program has without a debugger |
| GdbSession.RunBlind | shared/yarisim/run_simple.c:371-919 | a run that reads neither EPC nor k0 and k1, and returns from no exception, goes the same way whatever these, the cause and exl hold |
| GdbSession.SteppingIsRunning | shared/gdbstub/gdb-stub.c:508-682 | any number of single steps with the handler's visits between them: the debugged program comes to the state of the undebugged one after as many instructions, but for the exception registers, k0 and k1, with nothing planted |
| GdbSession.StopsAtEveryState | shared/gdbstub/gdb-stub.c:508-682 | and it stops at every state on the way |
| GdbCoverage.SelfBranchStaysPut | shared/gdbstub/gdb-stub.c:570-572 | a step on a branch to itself stops where it is |
| GdbCoverage.SlotBranchStaysPut | shared/gdbstub/gdb-stub.c:570-572 | a step on a branch to its own delay slot stops at the branch, with the link written |
| GdbCached.BreakSeenIff | shared/gdbstub/gdb-stub.c:570-572 | with a coherent cache, a planted break is fetched if and only if its line is not cached or the word was a break already |
| GdbCached.CachedSingleStep | shared/gdbstub/gdb-stub.c:508-682 | the single step on the cached machine: with no planted word cached, it stops as without the cache |
| GdbLink.Link.SendFrame | shared/gdbstub/gdb-stub.c:266-280 | the text of the buffer up to its NUL, framed, with its checksum |
| GdbLink.Link.PutPacket | shared/gdbstub/gdb-stub.c:260-289 | sends the frame again after every '-', until a '+' |
| GdbLink.Link.ReadPayload | shared/gdbstub/gdb-stub.c:207-218 | fills the buffer up to a '#' or to its end, with the running checksum |
| GdbLink.Link.ReceiveOnce | shared/gdbstub/gdb-stub.c:201-256 | one packet: too long, wrong or right, with its answer and the buffer it leaves |
| GdbLink.Link.GetPacket | shared/gdbstub/gdb-stub.c:192-257 | the payload in the buffer with its NUL, what is left of the input, and every reply sent |
| GdbLink.PutHex | shared/gdbstub/gdb-stub.c:318-337 | writes memory as text behind what the buffer holds, with a NUL |
| GdbLink.GetHex | shared/gdbstub/gdb-stub.c:375-387 | decodes pairs over memory until one is no pair, and leaves the rest alone |
| GdbLink.GetRegisters | shared/gdbstub/gdb-stub.c:733-741 | the six blocks of registers as one text |
| GdbLink.SetRegistersFrom | shared/gdbstub/gdb-stub.c:742-756 | decodes a text over the six blocks, as far as it goes |
| GdbPackets.OnePacket | shared/gdbstub/gdb-stub.c:192-257 | a complete packet is returned and acknowledged, or refused and the next one awaited, by its checksum alone |
| GdbPackets.ChecksumAccepts | shared/gdbstub/gdb-stub.c:229-232 | exactly when two characters pass for a checksum, bad digits included |
| GdbPackets.PacketRoundTrip | shared/gdbstub/gdb-stub.c:192-289 | any payload shorter than 2048 without '#', framed and after any noise without '$', is returned and answered '+' |
| GdbPackets.SpelledPacket | shared/gdbstub/gdb-stub.c:178-187 | the same with the checksum in small or capital digits |
| GdbPackets.HexReadsDigits | shared/gdbstub/gdb-stub.c:178-187 | exactly the digits 0-9, a-f and A-F have a value, in order |
| GdbPackets.TooLongRefused | shared/gdbstub/gdb-stub.c:207-220 | a packet of 2048 characters is answered '-' before its end |
| GdbPackets.LengthReads | shared/gdbstub/gdb-stub.c:236-255 | the length in a refusal reads as the payload's length |
| GdbPackets.MarksAre | shared/gdbstub/gdb-stub.c:199-289 | the marks of the protocol in ASCII |
| GdbPackets.AcceptedWasSent | shared/gdbstub/gdb-stub.c:192-257 | whatever the input, a payload is returned only from a complete packet whose checksum passes, and the last reply is then '+' |
| GdbPackets.CorruptionRefused | shared/gdbstub/gdb-stub.c:232-255 | one wrong payload character is always refused |
| GdbPackets.Retransmission | shared/gdbstub/gdb-stub.c:192-289 | sender and receiver together: refused, sent again, accepted, with exactly two frames |
| GdbPackets.QuotedPlusIsTakenForAck | shared/gdbstub/gdb-stub.c:236-255 | since a refusal quotes the payload, the sender stops after one frame if and only if a '+' comes before any '-' in what is quoted |
| GdbPackets.HexRoundTrip | shared/gdbstub/gdb-stub.c:318-387 | decoding undoes encoding, for all the bytes there are up to the count asked for |
| GdbPackets.SpelledDecodes | shared/gdbstub/gdb-stub.c:362-387 | text in small or capital digits is decoded to the bytes it writes |
| GdbPackets.LettersDecode | shared/gdbstub/gdb-stub.c:368-387 | the letters from g on pass the digit test and decode to 0xff |
| GdbPackets.OthersEndText | shared/gdbstub/gdb-stub.c:368-387 | any character but a letter or digit ends the text |
| GdbPackets.SetsPrefix | shared/gdbstub/gdb-stub.c:362-387 | text for fewer bytes than expected sets just those, across the blocks |
| GdbPackets.SetsSpelled | shared/gdbstub/gdb-stub.c:362-387 | the same for text in small or capital digits |
| GdbPackets.RegistersRestored | shared/gdbstub/gdb-stub.c:733-769 | the reply to g sent back in a G packet restores all 360 register bytes, whatever they were |
| Twister.RandomSource.Srandom | shared/testcases/random.c:160-166 | mixes the seed into every word of the buffer and starts a new stream |
| Twister.RandomSource.Random | shared/testcases/random.c:176-203 | the n-th call after a seeding returns x[n] of the infinite recurrence, which is also that of every sequence that starts with the buffer and obeys the recurrence bit by bit |
| Twister.OnlyStream | shared/testcases/random.c:168-199 | the recurrence in bits, with its offsets and the row 0x9908B0DF as numbers, leaves no other sequence |
| Twister.XIsStream | shared/testcases/random.c:168-199 | and the generator's sequence obeys it |
| Twister.RandomSource.RegenerateInPlace | shared/testcases/random.c:183-199 | the three-phase in-place update advances the buffer by 624 places of the recurrence |
| Twister.RegenerateShifts | shared/testcases/random.c:183-199 | the stream from a regenerated buffer is the stream from the buffer, 624 places on, for ever |
| Twister.MixInvertible | shared/testcases/random.c:168-174 | s -> (s >> 1) ^ MAGIC(s) is a bijection, with its inverse |
| Twister.RecoverUndoesRegenerate | shared/testcases/random.c:183-199 | the buffer is recovered from the regenerated one, except the low 31 bits of word 0 |
| Twister.RegenerateInjective | shared/testcases/random.c:183-199 | two buffers regenerate alike if and only if they agree but for those bits |
| Twister.RegenerateImage | shared/testcases/random.c:183-199 | exactly which buffers a regeneration can produce |

Where code and comments differ, the code is modelled. The overflow comment of ADD
(shared/yarisim/run_simple.c:553-563) compares signs of operands and result; the code compares with
the number of the destination register. The stub compares with `beq_op` twice
(shared/gdbstub/gdb-stub.c:545-546), which changes nothing. `ishexdigit`
(shared/gdbstub/gdb-stub.c:368-373) accepts every letter; the model does too. The comment before the
command loop (shared/firmware/tinymon.c:251-257) lists a `w` command that is compiled out.

## Left out

- Devices: accesses to the 0xFF000000 space stop with the reason "device"; serial ports, the frame buffer, keys and the cycle counter are host state.
- The floating-point unit, LWC1, branch-likely instructions, the TLB and SYSCALL: the simulator stops on them, or loads into host registers.
- DIV of the smallest integer by -1 (undefined in C), the retired-instruction counter of coprocessor 2, and hardware register 2 (a clock): they stop as "unmodelled".
- Encodings with nonzero reserved fields: the model writes the filler 0xDEADBEEF where the code does; HiLoStep, Coprocessor0Formats and Coprocessor2Formats cover some, and the other lemmas take the well-formed encodings.
- Status bits other than exl and erl, the exc_code field `ce`, and `state->epc`, which nothing reads.
- A step in which a fetch, load or store leaves memory ends the run in the model; the simulator finishes the instruction first.
- Statistics, coverage counters, disassembly, co-simulation and the "stale" and "broken" warnings of the fetch.
- `ensure_mapped_memory_range`: the ranges needed are assumed to be mapped.
- Dump: the text formats of the dumped words are not modelled; the Intel-HEX one does not complement its checksum.
- ELF reading.
- FlushRange: requires the range to end one line below the top of the address space; LoopEndsIff shows that the loop does not end otherwise.
- PreloadAgrees: the four ways must fit in the address space.
- StorePair: the four bytes must not wrap around the top of the address space; the step lemmas show that a pair that succeeds never does.
- DumpLoads: section sizes are multiples of 4, since the header sends size/4 while the loop sends size/4 rounded up; sections end below the top of the address space.
- DumpLoads: the firmware's accesses are plain stores at aligned addresses; they do not go through the simulator's mapping check.
- Run: the word that the `r` command prints is not part of the contract.
- Progress and echo output of the loader, its replies to bad checksums, the serial ring buffer with its overrun, and the commands compiled out by `#if 0`.
- HandleException: the step past the break of `breakpoint()` itself, the reply packets, '?', 'm' and the register commands are not part of the visit, and 'M' and 'c' appear as the bytes written and the address stepped from; the floating-point trap's change of the status register is not modelled.
- BreakpointsAreUndone: an interrupt finds its slot free, at a nonzero address that is not planted; single steps plant nothing at 0. StepUndoneIff, InterruptUndoneIff and ProgramStoreUndoneIff say what happens otherwise.
- SingleStepIsOneStep: fetches go straight to memory; CachedSingleStep is the cached form. `flush_cache_all` is an empty function (shared/gdbstub/kernmisc.c:56-59), so nothing makes sure that the planted words are not cached, and BreakSeenIff says when they are seen.
- SteppingIsRunning: fetches go straight to memory; the instructions stepped take no exception and touch no planted word. The saving and restoring of registers in shared/gdbstub/gdb-low.S:66-260 is taken to do its work on a stack outside the program, with k0 and k1 lost (they are overwritten before they are saved).
- WrongDumpRuns: for wrong digits within the base-85 alphabet; the command lines of the dump are intact. WrongCharacterIgnored and OtherCharacterFlagged are about the others.
- SlotBreakResumes: for a branch that is not in a delay slot itself.
- RandomSource: the initial table of 624 words is a parameter, since no property depends on it.
- Tempering, which the source leaves out too.
- `memset`, `atoi` and `malloc` of the test library.
