# A verified model of the x86utm emulator

The repository is a 32-bit x86 emulator (libx86emu) with a small operating system (x86utm) on top
that debug-steps nested simulations and scans their execution traces for loops. This Dafny project
models its seven hardest parts and proves what they promise. `dafny verify dfyconfig.toml` checks
everything.

The parts share one flat, byte-addressed memory of 2^32 bytes with little-endian values and
wrapping addresses (`FlatMemory.dfy`); `Arithmetic.dfy`, `Bits.dfy` and `Wrappers.dfy` hold number
facts, bits of integers and an option type.

- **Argument permuter** (`Permuter.dfy`, `Getopt.dfy`). `permute_args` walks gcd-many cycles in
  place; number theory gives the slot of every step and an inverse, so that the cycles are a
  permutation. `getopt_internal` is a class over the source's static variables with a whole-scan
  invariant, proved against a reference parser that reads the original arguments once.
- **Paged memory** (`PagedMemory.dfy`). The lazily built two-level page table with per-byte
  attributes refines a flat sequence of cells; fast word and dword paths, permissions, cloning and
  resetting are proved through that view.
- **Arithmetic primitives** (`Alu.dfy`). Every operation computes as the source does on 32-bit
  words; contracts are in plain integers, for all widths at once. The rotates are proved against
  iterated one-bit rotations of a ring.
- **Trace detectors** (`Detectors.dfy`). The backward scans are characterised exactly, and sound
  for deterministic machines on matches whose segment does not return.
- **Nested debug-stepping** (`Registers.dfy`, `Emulator.dfy`, `DebugStep.dfy`, `Disassembly.dfy`).
  The run loop with its instruction budget, the register blocks in memory, the recursion of
  DebugStep to any depth, the outermost loop, and the disassembly sweep.
- **Heap** (`Heap.dfy`). The bump allocator and the vector and the stack built on it.
- **Relocation** (`Relocation.dfy`) and **string instructions** (`Strings.dfy`).

What the model takes from outside. Opcode handlers, virtual machine instructions other than
DebugStep, function names, instruction classification and executable addresses are function
parameters (`Emulator.Cpu`, `DebugStep.System`, `Detectors.Machine`). Handlers are assumed to count
fetched bytes as the fetch functions do, and some address is assumed not to be executable, which
is what ends a run of prefixes. Segments are flat and 32-bit, as emu_init sets them up. A program exit of
the source is a result value. A nested step goes through a list of levels, which nobody has to supply: when
the areas of the levels are disjoint however many are entered, they are finitely many
(`DebugStep.NestingEnds`, `DebugStep.SeparatedSteppable`), and their number is the measure of the
recursion. Overlapping areas are covered too as long as the nesting ends; an endless one
(`DebugStep.EndlessNesting`) is a recursion that does not return.

Facts about the code that are not what a reader may expect, each with its exact condition:

- `x86emu_set_perm` stops after the first whole page when the range starts at 0
  (`PagedMemory.SetPermExact`, `PagedMemory.SetPermExample`).
- `getopt_internal` can return -1 from inside an option cluster; the permutation and `optind` are
  then wrong exactly when a non-option was passed before (`Getopt.ScanAll`, `Getopt.StraysMeans`,
  `Getopt.StrayExample`).
- `Allocate` adds in u32 and accepts requests whose sum wraps, after which two blocks can share an
  address (`Heap.AcceptedInside`, `Heap.SameBlockTwice`, `Heap.OverlapExample`).
- `PushBack` copies whole dwords, up to 3 bytes more than the record has, and can overwrite the
  header of the next block (`Heap.HeapMemory.PushBack`, `Heap.PushBackExcess`,
  `Heap.DamageExample`).
- A loop match whose segment contains a return says nothing about the run; without a return it
  is right (`Detectors.AbortIsSound`, `Detectors.DecideFromStart`, `Detectors.ReturnCanEscape`).
- `rep movsb` into an overlapping range ahead of the source repeats the lead
  (`Strings.MovedByte`, `Strings.BlockCopyExactly`, `Strings.LeadRepeated`).
- `x86emu_reset_access_stats` does not reach the default attribute of pages that have not been
  built (`PagedMemory.Memory.ResetExact`, `PagedMemory.ResetExample`).

## Model

| member | source | states |
|---|---|---|
| Permuter.Gcd | include/getopt.h:162-175 | the Euclid loop returns the gcd of the recursive definition, for every a and every b > 0 |
| Permuter.GcdDivides | include/getopt.h:162-175 | that gcd divides both numbers |
| Permuter.GcdIsGreatest | include/getopt.h:162-175 | every common divisor divides it (by Bezout coefficients) |
| Permuter.CyclesVisitEverySlotOnce | include/getopt.h:189-210 | the gcd(n,m) cycles of length (n+m)/gcd(n,m) that start at the second block reach every slot of the two blocks, each exactly once, and each step is the test-and-shift of the loop |
| Permuter.Cycles.SlotStep | include/getopt.h:200-203 | the test against the block border and the two shifts are one step modulo the cycle length |
| Permuter.Cycles.StepOfSlot | include/getopt.h:197-210 | different steps of one cycle reach different slots (inverse modulo the cycle length) |
| Permuter.Cycles.SlotOfStep | include/getopt.h:197-210 | every slot is reached, by the cycle of its residue modulo the gcd |
| Permuter.WalkCycle | include/getopt.h:198-209 | one inner loop puts exactly the slots of its cycle in their final place and moves nothing else |
| Permuter.PermuteArgs | include/getopt.h:182-212 | for any non-empty second block the two adjacent blocks change places, each in its own order, and everything else stays |
| Getopt.MatchMeaning | include/getopt.h:290-412 | the long option table search: an exact name wins, otherwise the first abbreviated entry unless another abbreviated entry has another interpretation |
| Getopt.Scanner.ParseLongOptions | include/getopt.h:290-412 | return value, optarg and optind of parse_long_options for every text, table and rest of the vector, errors included |
| Getopt.Scanner.ShortOption | include/getopt.h:553-608 | the short option letter: unknown letters, -W, flags, attached, optional and missing arguments |
| Getopt.Scanner.TakeOption | include/getopt.h:531-608 | the part of a call behind the scanning pointer computes one option step, long or short |
| Getopt.Scanner.PermuteSkipped | include/getopt.h:460-465 | where the source calls permute_args, both blocks are non-empty, and the skipped non-options end up behind the options read since |
| Getopt.Scanner.NextOption | include/getopt.h:455-529 | the scanning-pointer loop keeps the whole-scan invariant, and ends at an option or with nargv partitioned |
| Getopt.Scanner.GetoptInternal | include/getopt.h:418-609 | every call returns the next option of the reference parser; the call that returns -1 leaves nargv partitioned with optind at the first non-option, or stops inside a cluster, and then the state says where every argument lies |
| Getopt.ScanAll | include/getopt.h:418-609 | calling until -1 terminates and returns exactly the reference parser's options in order; it leaves the options (with arguments and a --) first, the others after them and optind between exactly when no non-option is passed before the first stray cluster; for a scan that stops inside a cluster it says where the passed arguments, the options and optind are |
| Getopt.StraysMeans | include/getopt.h:553-562 | the condition of ScanAll, computed from the option strings and the arguments alone, says that the reference parser stops inside a cluster after passing a non-option |
| Getopt.SkipThenStrayMeans | include/getopt.h:553-562 | the same for every suffix of the arguments, with or without a non-option passed already |
| Getopt.ScanIsStablePartition | include/getopt.h:177-181 | the two groups of the reference parser are a stable partition of the arguments: one mask selects both, each in original order |
| Getopt.LongAttached | include/getopt.h:308-312 | a scan of --name=value for an entry that takes an argument starts with that entry's value (0 with a flag) and exactly value as its argument, one argument consumed |
| Getopt.LongSeparate | include/getopt.h:363-374 | --name value for an entry that requires an argument: that argument, two consumed |
| Getopt.LongAlone | include/getopt.h:363-374 | --name for an entry without or with an optional argument never takes the next argument |
| Getopt.LongMissing | include/getopt.h:375-392 | a required argument that is missing at the end is reported with the colon or question mark of the option string |
| Getopt.LongSuperfluous | include/getopt.h:348-361 | so is an argument for an entry that takes none |
| Getopt.LongUnknown | include/getopt.h:340-402 | a name that means no entry, or several, is reported with a question mark |
| Getopt.ShortAttached | include/getopt.h:590-606 | -cvalue for a letter followed by a colon: the letter with exactly value |
| Getopt.ShortSeparate | include/getopt.h:594-603 | -c value when the argument is required: both are consumed |
| Getopt.ShortAlone | include/getopt.h:587-594 | -c without or with an optional argument never takes the next argument |
| Getopt.ShortMissing | include/getopt.h:595-601 | a required argument of a letter that is missing at the end |
| Getopt.ShortUnknown | include/getopt.h:553-568 | a letter that is not in the option string is reported with a question mark |
| Getopt.ShortCluster | include/getopt.h:587-590 | a letter without argument in front of others: its event, then the events of the others as an argument of their own |
| Getopt.DashW | include/getopt.h:570-586 | -Wtext and -W text report what --text does |
| Getopt.OneDash | include/getopt.h:536-551 | with FLAG_LONGONLY a single dash reports what two do, unless the text starts with a short option letter |
| Getopt.OtherPassed | include/getopt.h:476-505 | an argument without a leading dash, or a lone dash that is no option letter, is passed |
| Getopt.DoubleDashEnds | include/getopt.h:511-528 | -- ends the options, and what is behind it is left unread |
| Getopt.CommandLineExample | x86utm.cpp:81-89 | the tool's own table: file --code_begin=1000 -r 20 --max 5 gives b with 1000, r with 20 and m with 5 |
| Getopt.CleanIffNoStray | include/getopt.h:553-562 | without long options and without a '-' letter the reference parser gets to the end exactly when no option cluster before a -- ends in '-' with no letter taking an argument |
| Getopt.CleanWithLongOptions | include/getopt.h:553-562 | with a long option table, or with '-' as an option letter, every scan is clean |
| Getopt.StrayExample | include/getopt.h:553-562 | x -a -a- with option letter a: the calls leave x -a -a- as it was and optind at the third argument, where the promise would be -a x -a- and the second |
| PagedMemory.Memory.constructor | mem.c:81-89 | a new memory shows the default attribute and zero data everywhere |
| PagedMemory.Memory.GetPage | mem.c:200-239 | building directory, table or page changes neither the abstract memory nor the default attribute |
| PagedMemory.Memory.RByte | mem.c:314-335 | reads are the flat read: value or 0xff, access marks and error flag |
| PagedMemory.Memory.RWord | mem.c:351-383 | the 16-bit fast path and the slow path are both two byte reads |
| PagedMemory.Memory.RDword | mem.c:386-423 | the 32-bit fast path with its wide test and wide or equals four byte reads, page crossings and the end of the address space included |
| PagedMemory.Memory.RByteNoperm | mem.c:338-348 | the read that ignores permissions returns the data and changes nothing |
| PagedMemory.Memory.XByte | mem.c:426-447 | a fetch is the flat fetch |
| PagedMemory.Memory.XDword | mem.c:456-459 | a 32-bit fetch is four byte fetches |
| PagedMemory.Memory.WByte | mem.c:462-480 | a store is the flat store, or only raises the error flag |
| PagedMemory.Memory.WByteNoperm | mem.c:483-494 | the store that ignores permissions |
| PagedMemory.Memory.WWord | mem.c:497-528 | the 16-bit fast path equals two byte stores |
| PagedMemory.Memory.WDword | mem.c:531-566 | the 32-bit fast path equals four byte stores |
| PagedMemory.Memory.Memio | mem.c:778-866 | one access of any kind and width: which cells change and how, the value byte by byte, and the error flag; for 32 bits the error flag is up exactly when one of the four bytes lacks the permission (or was never initialized, for a read), the value is the dword in memory, and a store without error leaves the dword there; it refines the flat access |
| PagedMemory.MemioPerforms | mem.c:778-866 | the flat access of every kind and width reads or stores the bytes from its address on, with that kind's permission and mark |
| PagedMemory.ReadManyMeans | mem.c:314-423 | n byte reads in a row: the error flag, the marks of the n cells, all other cells unchanged, and the bytes seen |
| PagedMemory.WriteManyMeans | mem.c:462-566 | n byte stores in a row, likewise |
| PagedMemory.Memory.RunAccesses | mem.c:778-866 | any sequence of accesses refines the same sequence on the flat memory |
| PagedMemory.WideTest32 | mem.c:395-402 | the 32-bit permission test holds exactly when each of the four bytes passes |
| PagedMemory.WideOr32 | mem.c:411-411 | one 32-bit or marks each of the four bytes |
| PagedMemory.DwordRead | mem.c:386-423 | a dword read keeps all data, fails exactly when one of its bytes is unreadable or uninitialized, and otherwise returns the little-endian value at the wrapping address |
| PagedMemory.DwordWritten | mem.c:531-566 | a dword store fails exactly when one of its bytes is not writable; with all four writable the data is the flat little-endian store |
| PagedMemory.RunKeepsPermissions | mem.c:778-866 | over any run without permission-ignoring stores, permissions never change, initialized bytes stay so, and data changes only where write permission was given |
| PagedMemory.Memory.SetPerm | mem.c:242-287 | exactly the addresses from start to end get the attribute and no data changes, except that a range that begins with a whole page at address 0 ends with that page; on built pages and on default attributes, with the source's wrap-around |
| PagedMemory.SetPermExact | mem.c:242-287 | the range start..end gets the permission and nothing else changes, exactly unless the range covers a page or more from address 0 and something beyond that page differs from perm |
| PagedMemory.SetPermExample | mem.c:242-287 | a new memory with set_perm(0, 0x1fff, readable): a read of the first page succeeds and one of the second fails |
| PagedMemory.Memory.Clone | mem.c:120-151 | the clone shows the same abstract memory on fresh storage |
| PagedMemory.CloneThenRun | mem.c:120-151 | any runs on original and clone afterwards do not influence each other |
| PagedMemory.Memory.ResetAccessStats | mem.c:154-175 | the four access marks of every byte on a built page are removed, data, permissions and the initialized mark are kept, and unbuilt pages stay as they are |
| PagedMemory.Memory.ResetExact | mem.c:154-175 | all access marks are gone exactly when no page that has not been built has a mark in its default attribute |
| PagedMemory.ResetExample | mem.c:154-175 | a new memory whose default attribute carries a read mark shows that mark everywhere after a reset |
| Bits.CarryChain | prim_ops.c:40-74 | bit i of (s and d) or (not res and (s or d)) is the carry out of bit i of the sum, also with a carry in |
| Bits.BorrowChain | prim_ops.c:76-94 | bit i of (res and (not d or s)) or (not d and s) is the borrow out of bit i of the difference, also with a borrow in |
| Bits.CarryMeans | prim_ops.c:40-74 | the carry into bit i says that the low i bits of the operands overflow |
| Bits.BorrowMeans | prim_ops.c:76-94 | the borrow into bit i says that the low i bits of d are below those of s |
| Alu.ParityIsEven | prim_ops.c:103-113 | the parity table lookup is true exactly for an even number of ones |
| Alu.SignedSumOverflow | prim_ops.c:38-47 | the two top carries differ exactly when the signed sum is not representable |
| Alu.SignedDifferenceOverflow | prim_ops.c:38-47 | the two top borrows differ exactly when the signed difference is not representable |
| Alu.HighHalfCarry | prim_ops.c:341-352 | the carry computed by 16-bit halves is the carry of the 32-bit sum |
| Alu.Alu.Adc | prim_ops.c:212-291 | for every width: the sum modulo 2^n, CF unsigned overflow, OF signed overflow, AF nibble carry, ZF, SF, PF of the result, with carry in |
| Alu.Alu.Add | prim_ops.c:297-363 | the same without carry in |
| Alu.Alu.Sbb | prim_ops.c:1748-1817 | the difference modulo 2^n, CF unsigned borrow, OF signed overflow, AF nibble borrow, ZF, SF, PF, with borrow in |
| Alu.Alu.Sub | prim_ops.c:1823-1883 | the same without borrow in |
| Alu.Alu.Cmp | prim_ops.c:429-490 | the flags of the difference; the first operand is returned |
| Alu.Alu.Inc | prim_ops.c:606-663 | d + 1 with its flags; OF exactly at the largest signed value; CF is left alone; the byte form's own carry word is equivalent |
| Alu.Alu.Dec | prim_ops.c:537-600 | d - 1 with its flags; OF exactly at the smallest signed value; CF is left alone |
| Alu.Alu.Neg | prim_ops.c:726-797 | the flags of 0 - s from the simplified borrow word |
| Alu.ComparisonConditions | prim_ops.c:2558-2598 | after cmp, conditions B, Z, BE, L, LE (and S) are d<s, d==s, d<=s unsigned, d<s, d<=s signed, and the sign of the difference; O says that the signed difference is not representable and P that its low byte has even parity |
| Alu.OddConditions | prim_ops.c:2558-2598 | every odd condition code is the negation of the even one before it |
| Alu.Alu.Rcl | prim_ops.c:830-945 | value and carry together are the (n+1)-bit ring rotated by s single steps to the left, for every width, and for every count that does not shift by the width of the word; OF only for a count of 1 modulo n+1 |
| Alu.Alu.Rcr | prim_ops.c:951-1094 | value and carry together are the ring rotated by s single steps to the right, for the same widths and counts; only a count of 1 modulo n+1 changes OF |
| Alu.RclIsRotation | prim_ops.c:855-945 | the three-part closed form equals s single-bit rotations |
| Alu.RclOnce | prim_ops.c:830-945 | rotated left once, value and carry are twice the value plus the carry |
| Alu.RcrOnce | prim_ops.c:951-1094 | rotated right once, the value is halved below the carry, and its lowest bit is the new carry |
| Alu.RolOnce | prim_ops.c:1100-1244 | one step of rol and of ror in plain integers |
| Alu.RotateThroughCarryUndone | prim_ops.c:830-1094 | rcl then rcr by the same count, or the other way round, restores value and carry |
| Alu.Alu.Rol | prim_ops.c:1100-1169 | the value rotated by s single steps; CF is its lowest bit, OF only for a count of 1, a count of 0 changes nothing |
| Alu.Alu.Ror | prim_ops.c:1175-1244 | the value rotated the other way; CF is its highest bit |
| Bits.RotationUndone | prim_ops.c:1100-1244 | s steps one way undo s steps the other way, for every ring size |
| Detectors.InfiniteLoopNeedsToBeAborted | Halt7.c:135-159 | answers 1 exactly when the trace holds the target of the current upward jump with no conditional jump from there to the line before the last |
| Detectors.InfiniteRecursionNeedsToBeAborted | Halt7.c:161-186 | answers 2 exactly when the trace holds the same call with no conditional jump since |
| Detectors.InfiniteSimulationNeedsToBeAborted | Halt7.c:285-320 | answers 3 exactly when the lines before the last hold no conditional jump and their last two pushes are P and, before it, I |
| Detectors.InfiniteSimulationNeedsToBeAborted0 | Halt7.c:189-217 | the same for one argument: the last push is P |
| Detectors.NeedsToBeAbortedTraceHH | Halt7.c:964-1009 | answers 1 exactly when the loop or the recursion pattern is there |
| Detectors.NeedsToBeAborted | Halt7.c:323-345 | 3 exactly for a call of H behind the pushes of I and then P (the last two) in a trace without conditional jumps, 2 exactly for another call seen before without a conditional jump since, 1 exactly for a jump back to an address seen before without one since, 0 otherwise |
| Detectors.AnswerMeans | Halt7.c:323-345 | the same of the answer as a function of the trace |
| Detectors.JudgedOnce | Halt7.c:323-345 | no trace can be judged in two ways |
| Detectors.SimulationAnswered | Halt7.c:285-320 | any trace without conditional jumps that ends in push I, push P, call H is answered with 3 |
| Detectors.Simulation.DecideHalting | Halt7.c:351-390 | n lines are appended to whatever the trace holds, and they are a prefix of the run; the simulation stops at the first address code_end, at the shortest extension that is judged a loop, a recursion or a simulation (and with that answer), or when the trace is full, and never later |
| Detectors.PeriodicForever | Halt7.c:135-186 | a run that is back at an earlier address after p static instructions repeats its addresses forever |
| Detectors.LoopDetectorSound | Halt7.c:135-159 | a loop match whose segment does not return repeats forever with the segment's length, and code_end is never executed |
| Detectors.RecursionDetectorSound | Halt7.c:161-186 | the same for a recursion match |
| Detectors.AbortIsSound | Halt7.c:351-390 | after such an abort, simulating on for any number of instructions would not have reached code_end |
| Detectors.AnswerIsMatch | Halt7.c:323-345 | an answer 1 or 2 on a trace without returns is a match that the soundness theorem covers |
| Detectors.DecideFromStart | Halt7.c:351-390 | from an empty trace: the answer 1, 2 or 3 is what the simulated lines are judged as; when it is a loop or a recursion and no return was met, code_end is never executed |
| Detectors.ReturnCanEscape | Halt7.c:135-159 | a called function that adds EAX to its return address: the loop detector answers after the first return, and the second one leaves the loop |
| Registers.SaveState | x86utm.cpp:1445-1466 | sixteen stores write the 52-byte block of the registers |
| Registers.SaveThenLoad | x86utm.cpp:1445-1491 | loading a saved block gives the registers back |
| Registers.BlockFields | x86utm.cpp:1445-1466 | where each register is in a saved block |
| Emulator.Emu.FetchByte | decode.c:389-410 | the byte or 0xff, the stop on a failed fetch, EIP + 1, and a length counter that stops at 32 |
| Emulator.Emu.FetchOpcode | decode.c:135-183 | the prefix loop terminates at the first byte that is no prefix, with all prefixes folded into the mode and counted |
| Emulator.FetchMeans | decode.c:135-183 | for any prefixes in front of an opcode: rep and repne when they occur, operand and address size by parity, the segment of the last segment prefix, and the opcode behind them |
| Emulator.ExecutedLine | decode.c:185-263 | an executed instruction has the effect of its handler entered behind the opcode, and line_of_code holds its address, ESP and top of stack afterwards and its length |
| Emulator.RunContinues | decode.c:86-281 | a run ends after an instruction that halts or cannot be fetched, and otherwise goes on with the rest of its budget |
| Emulator.Emu.ExecuteOne | decode.c:137-271 | a failed opcode fetch restores EIP and executes nothing; otherwise the handler runs and line_of_code describes the instruction; disassembling goes on behind it |
| Emulator.Emu.Run | decode.c:86-281 | the run loop retires instructions until the budget is used up, a fetch fails or the machine halts, and counts them in TSC |
| Emulator.BudgetOfOne | decode.c:107-114 | a budget of one retires exactly one instruction whose opcode can be fetched |
| DebugStep.SaveState | x86utm.cpp:1445-1466 | memory gets the register block and nothing else |
| DebugStep.LoadState | x86utm.cpp:1470-1491 | registers are those of the block |
| DebugStep.DebugStep | x86utm.cpp:1644-1708 | saves the master, steps the slave by one instruction at any nesting depth, records the instruction with the slave's registers, saves the slave, restores the master; TSC advances by one, the budget stays |
| DebugStep.VirtualMachineInstruction | x86utm.cpp:1852-1912 | a call of DebugStep takes its three arguments from the caller's stack and steps; any other instruction has its effect and retires nothing |
| DebugStep.CarryOutCall | x86utm.cpp:2039-2076 | a direct or frame-slot call of a virtual machine instruction is carried out and skipped, by 5 or 3 bytes |
| DebugStep.DirectCall | x86utm.cpp:2043-2076 | a relative call is looked up at its target whatever the displacement, and is 5 bytes long |
| DebugStep.CallLookup | x86utm.cpp:2043-2076 | the address looked up is the one the emulated near call goes to, and the skip leads to the address it would push |
| DebugStep.SlotCall | x86utm.cpp:2049-2062 | a call through a frame slot is looked up at the address in the slot at a signed distance from EBP, and is 3 bytes long |
| DebugStep.DirectCallStep | x86utm.cpp:2039-2078 | with a relative call of f at EIP: a step of the slave for DebugStep, another virtual machine instruction and the instruction behind the call, or the call itself |
| DebugStep.SlotCallStep | x86utm.cpp:2039-2078 | the same for a call through a frame slot |
| DebugStep.WriteDecoded | x86utm.cpp:1673-1683 | address, ESP, TOS, length, opcode and target are at +0, +4, +8, +12, +16 and +20, and nothing else changes |
| DebugStep.DecodedFields | x86utm.cpp:1673-1683 | wherever the record is kept it reads back as these six fields |
| DebugStep.ExecuteInstruction | x86utm.cpp:2039-2078 | terminates, and entered with TSC one below max_instr it ends with TSC equal to max_instr at every nesting depth, whenever the nesting ends at an opcode that can be fetched |
| DebugStep.SeparatedSteppable | x86utm.cpp:1644-1708 | disjoint areas are enough for that: the nesting has at most 2^32 / 52 levels |
| DebugStep.EndlessNesting | x86utm.cpp:2039-2078 | a nesting that does not end reaches every depth, so that the recursion of the source does not return either |
| DebugStep.SeparateBound | x86utm.cpp:1644-1708 | levels with disjoint areas are at most 2^32 / 52 many |
| DebugStep.NestingEnds | x86utm.cpp:2039-2078 | when every chain of levels that the machine can enter has disjoint areas, some chain of at most 2^32 / 52 levels ends at an instruction that is no call of DebugStep |
| DebugStep.SteppableMeans | x86utm.cpp:2039-2078 | apart from fetching, the premise of a step holds exactly when some chain of levels ends |
| DebugStep.SteppedMeans | x86utm.cpp:2039-2078 | the next instruction is one of the machine, or a switch to the slave and back with EIP behind the call |
| DebugStep.HeapSeparate | x86utm.cpp:1495-1544 | levels whose areas lie in different heap blocks, or at stretches of a block that do not overlap, have disjoint areas |
| DebugStep.MasterRestored | x86utm.cpp:1644-1708 | with separate areas DebugStep gives back all saved registers of the master except EAX, the status |
| DebugStep.SlaveStepped | x86utm.cpp:1644-1708 | the slave starts from its block, and the block ends up with exactly its registers after the step |
| DebugStep.StepKeeps | x86utm.cpp:1644-1708 | a nested step changes nothing outside the areas of its levels but what the innermost instruction changes |
| DebugStep.EveryLevelSettled | x86utm.cpp:1644-1708 | at every depth at once: master block, slave block and decoded record hold what they should after the step |
| DebugStep.InnermostLine | x86utm.cpp:1674-1685 | every level records the same instruction, the one of the innermost level |
| DebugStep.NestExample | x86utm.cpp:1644-1708 | the premises of these results can be met at depth two: some machine has a master, a slave that is itself a master, its slave, and six separate areas |
| DebugStep.HaltsExample | x86utm.cpp:2108-2152 | the premise of Halts can be met: some machine has a run whose first turn nests twice |
| DebugStep.NestedTurn | x86utm.cpp:2039-2078 | after that turn the outer master is behind its call with all its registers |
| DebugStep.TestHalting | x86utm.cpp:1943-1972 | the budget grows by one; HALTED for a halted machine, a budget over 20000000 or an EIP behind the code |
| DebugStep.Halts | x86utm.cpp:2108-2152 | terminates; n turns retire exactly n machine instructions, each turn one step; EAX and EBP at the end, and the condition for every way out; the premise asks only that the turns the loop comes to are steps |
| Disassembly.TurnTiles | decode.c:265-276 | a disassembling turn describes the instruction at EIP and goes on right behind it whatever it does |
| Disassembly.GetDisassemblyListing | x86utm.cpp:970-990 | the sweep terminates, its entries start at code_begin, tile the code and end behind code_end |
| Heap.HeapMemory.constructor | x86utm.cpp:2196-2203 | an empty heap behind the object code |
| Heap.HeapMemory.Allocate | x86utm.cpp:1495-1544 | result and memory from the two heap variables alone, also when the sum wraps; on a heap: 0 and nothing changed, or an empty block at the old heap pointer, its size and a zero in front of it and the heap pointer behind it; it stays a heap when the u32 sum does not wrap |
| Heap.AcceptedInside | x86utm.cpp:1508-1514 | an accepted request lies inside the heap exactly when the u32 sum does not wrap around |
| Heap.SameBlockTwice | x86utm.cpp:1508-1516 | after a request of 2^32 - 8 bytes, which is granted, the next block is handed out at the same address |
| Heap.OverlapExample | x86utm.cpp:1508-1516 | a heap of 4096 bytes behind 4096 bytes of object code: two requests, both answered with address 0x1008 |
| Heap.HeapMemory.PushBack | x86utm.cpp:1127-1148 | the record is appended exactly when it fits: it is in memory behind the content, which stays, and the size field grows by its length; whole dwords are copied, and the heap stays one exactly when they fit, no block follows, or the excess is what the next block's capacity starts with; otherwise nothing changes |
| Heap.PushBackExcess | x86utm.cpp:1127-1148 | that condition on memory, for every record whose last dword does not fit |
| Heap.DamageExample | x86utm.cpp:1127-1148 | a record of 1 byte appended to a block of 1 byte overwrites the capacity of the block behind it |
| Heap.HeapMemory.StackPush | x86utm.cpp:1255-1285 | the dword is pushed exactly when it fits: it is in memory right below the content at the upper end, the size field grows by 4, its address is returned, other blocks are untouched |
| Heap.BlocksDisjoint | x86utm.cpp:1495-1544 | blocks with their headers are in order and disjoint |
| Heap.BlockInside | x86utm.cpp:1495-1544 | every block with its header lies inside the heap |
| Heap.TopIsTotal | x86utm.cpp:1515-1516 | the heap pointer is the heap's start plus the sum of sizes and headers |
| Heap.RunContents | x86utm.cpp:1127-1148 | over any run a vector holds the concatenation of the records pushed on it and a stack the dwords pushed on it, in place |
| Heap.Run | x86utm.cpp:1127-1544 | any run of allocations, appends and pushes on a heap leaves a heap whose blocks are those after the events of the run, with the header and content of every block in memory |
| Heap.Serve | x86utm.cpp:1127-1544 | one request is served exactly when there is room, by the operation's own change to memory and blocks |
| Heap.RunTotal | x86utm.cpp:1495-1544 | over any run the heap pointer advances by the sum of the sizes handed out plus 8 each |
| Relocation.PatchAddressTargets | include/Read_COFF_Object.h:735-780 | the loop is the fold that reads each entry from the buffer as patched so far; it succeeds when all entries were patched and stops at the first unknown type |
| Relocation.PatchedObject | include/Read_COFF_Object.h:735-780 | with sites apart from each other and from the table: success exactly when all types are known; every ADDR32 site holds the symbol's address, every REL32 site the distance to it; all other bytes unchanged |
| Relocation.PatchObject | include/Read_COFF_Object.h:735-780 | byte by byte: for every table entry with bytes offset, index, type, the four bytes at the site are the data offset of the symbol's section plus the symbol's value, or the distance of that sum from behind the site; failure exactly when some type is neither 6 nor 20 |
| Relocation.TableIntact | include/Read_COFF_Object.h:740-741 | each entry read back from the partly patched buffer is the original one |
| Relocation.CallNear | ops.c:4469-4497 | the near call goes to the address behind the operand plus the displacement and pushes that address; with 16-bit operands both are cut to 16 bits |
| Relocation.CallRelocated | ops.c:4469-4497 | a near call executed with EIP at a REL32 site of a relocated and loaded object goes to the symbol's address and pushes the address behind the site |
| Relocation.PatchLoadCall | include/Read_COFF_Object.h:735-780 | patching, loading and a near call together: with separate sites and known types the call at any REL32 site lands at the data offset of the section plus the value of the symbol that the table's bytes name |
| Strings.StringUnit.Movs | ops.c:2583-2694 | terminates; ECX is 0 after a repeated move, ESI and EDI have moved by count elements in the direction of DF, memory is the element-by-element move |
| Strings.StringUnit.Stos | ops.c:2898-2997 | the same for stores of AL, AX or EAX |
| Strings.MovedByte | ops.c:2583-2617 | for every source, target, direction and count: the i-th byte stored is source byte i modulo the lead of the target over the source, also across the end of the address space |
| Strings.MovedElsewhere | ops.c:2583-2617 | bytes outside the target range are unchanged |
| Strings.BlockCopyExactly | ops.c:2583-2617 | rep movsb is a block copy exactly when the source repeats with the lead as period, in particular for disjoint ranges and safe overlap |
| Strings.LeadRepeated | ops.c:2583-2617 | two bytes moved up by one: the first one ends up in both places |
| Strings.MovedUp | ops.c:2631-2694 | upward moves of any element size between disjoint ranges copy the block |
| Strings.MovedDown | ops.c:2631-2694 | downward moves copy the block that ends with the first element |
| Strings.StoredUp | ops.c:2898-2997 | upward stores fill the block with the value |
| Strings.StoredDown | ops.c:2898-2997 | downward stores fill the block that ends with the first element |
| Strings.StringUnit.CmpsByte | ops.c:2701-2757 | stops right behind the first pair that differs (repe) or agrees (repne), ECX reduced by the pairs examined, flags of the last comparison, unchanged flags for ECX = 0 |
| Strings.StringUnit.ScasByte | ops.c:3107-3155 | the same for AL against the bytes at EDI |
| Strings.EqualRanges | ops.c:2701-2757 | after repe cmpsb ZF says whether the ranges are equal, and otherwise CF which side is smaller at the first difference |
| Strings.FirstOccurrence | ops.c:3107-3155 | after repne scasb ZF says whether AL occurs, and the last byte examined is its first occurrence |
| Strings.CompareStrings | ops.c:2701-2757 | repe cmpsb as an instruction: ZF says whether ECX bytes in the direction of DF agree |
| Strings.FindByte | ops.c:3107-3155 | repne scasb: ZF says whether AL occurs in ECX bytes, and EDI is behind its first occurrence |
| Strings.MoveBytes | ops.c:2583-2617 | rep movsb upwards: every byte stored, every other byte, and the registers |
| Strings.FillMemory | ops.c:2898-2997 | rep stos upwards: ECX copies of AL, AX or EAX from EDI on |

## Left out

- Getopt.Scanner.GetoptInternal: does not model optopt, the long option index, stores through flag pointers, warnings, POSIXLY_CORRECT, FLAG_ALLARGS and calls without FLAG_PERMUTE; option strings do not start with + or -, and no long option without a flag has the value -1, which callers could not tell from the end.
- Permuter.PermuteArgs: requires a non-empty second block, which the source needs for the gcd; an empty first block is covered.
- PagedMemory.Memory.Clone: does not model pages mapped by x86emu_set_page; attribute and data bytes of a page are two arrays instead of the two halves of one.
- Getopt.Scanner.ParseLongOptions: without optopt, the long option index and stores through flag pointers.
- Getopt.Scanner.ShortOption: without optopt.
- Getopt.Scanner.TakeOption: without optopt and the long option index.
- PagedMemory.Memory.Memio: does not model port input and output, memory hooks and logging.
- Alu.Alu.Rcl: excludes 32-bit counts that are 32 modulo 33, where the source shifts by the width of the word and C leaves the result undefined.
- Alu.Alu.Rcr: excludes the same counts for the same reason.
- Alu.Alu.Add: the flags are six booleans; their packing in the flags register is not part of the model.
- Detectors.AbortIsSound: states soundness only for matched segments without a return; Detectors.ReturnCanEscape shows why. Nothing is claimed for the simulation detector or for Decide_Halting_HH, whose trace skips operating system code.
- Detectors.Simulation.DecideHalting: the trace is a sequence whose size is that of its records, and the messages are left out. The one-argument variant Decide_Halting0 is not modelled.
- Emulator.Emu.ExecuteOne: without the stops for loops and missing code, and without interrupts.
- Emulator.Emu.Run: does not model timeouts, code checks, interrupts, loop and no-code stops, segments and 16-bit code; TSC is not written by handlers.
- DebugStep.ExecuteInstruction: requires a nesting that ends and an innermost opcode that can be fetched; user-code tracing is left out. The same premise stands on DebugStep.DebugStep, DebugStep.VirtualMachineInstruction and DebugStep.CarryOutCall.
- DebugStep.Halts: requires the same of every turn that the loop comes to; DebugStep.InvariantSteady gives one way to know it.
- DebugStep.EveryLevelSettled: requires separate areas and an innermost instruction that leaves the master blocks alone.
- Disassembly.GetDisassemblyListing: does not model the replacement of padding bytes before the sweep; opcodes in the range can be fetched and the range does not end within 32 bytes of 2^32, where EIP could wrap around.
- Heap.HeapMemory.PushBack: requires record sizes below 2^31 and a source apart from the bytes it is copied to; the record size is read as unsigned in a signed comparison.
- Heap.Run: requires that no request wraps around and that appended records lie as PushBack requires and do no harm behind their block; the same holds for Heap.Serve.
- Heap.HeapMemory.constructor: the heap ends below 2^31, so that sizes are not negative when read as signed.
- Relocation.PatchAddressTargets: the build without the Linux addend; entries refer to existing symbols, sections and bytes, as the source's unchecked indexing needs. Reading and writing object files is left out.
- Relocation.CallRelocated: 32-bit operands, as code of the emulated object files has.
- Strings.StringUnit.Stos: 32-bit addresses only, like Strings.StringUnit.Movs.
- Strings.StringUnit.ScasByte: 32-bit addresses only, like Strings.StringUnit.CmpsByte.
- Strings.StringUnit.Movs: 32-bit addresses only; permission failures in the middle of a repetition are not part of the model.
- Strings.StringUnit.CmpsByte: 32-bit addresses only; the word and dword forms of cmps and scas and lods are left out; they repeat the byte forms with wider comparisons.
- Shifts, multiplication, division, decimal adjustment and logic operations of prim_ops.c, and almost all opcode handlers: they would add many members of one kind.
- Cmov conditions 12 to 15, where the source compares flag bits of different weight.
- Output, logging, disassembly text, help and option printing, and the ELF reader.
