# Maize: a verified model of the virtual machine's core and devices

Maize is a 64-bit virtual machine. This project models the parts of it that carry the most state
and proves what they promise over whole runs:

* **the processor core** (`src/cpu.cpp`): flags that are deferred and resolved on demand,
  subregisters, the protected bits of the flags register RF, trap entry and return, the stack
  block instructions;
* **memory and translation** (`src/cpu.cpp`, `src/maize_cpu.h`): sparse 4 KiB blocks behind a
  direct-mapped pointer cache, and Sv48 paging behind a TLB and a three-way page cache;
* **interrupts and the timer** (`src/cpu.cpp`);
* **devices** (`src/devices.cpp`): the text console, framebuffer surfaces, the console readiness
  edge;
* **the Windows console reader** (`src/console_probe_win32.cpp`).

Each part is written twice. A specification says what the part means, with no caches, deferral,
batching or in-place buffers: a flat memory of 2^64 bytes (`Words`), a core that computes every
flag at once (`Core`), a plain page-table walk (`Paging`), a set of pending vectors
(`Interrupts`), single timer ticks (`Timer`), a terminal whose scroll and erase are one expression
(`Terminal`). The shipped form is a class with the source's fields, whose methods update them the
way the source does; every method is proved to leave the state the specification gives. The
theorems are then about the specification, for all inputs and all runs. The specification itself is
pinned down by laws that do not use its definitions: bits and integers (`AluLaws`), words in memory
(`PagingLaws`), register fields (`CoreLaws`), bytes sent (`TerminalLaws`), RGB pixels
(`ConsolePixels`) and the history of port writes (`FramebufferLaws`). One file holds one module;
`Alu`/`AluProofs`/`AluLaws`, `Core`/`LazyCore`/`CoreLaws`/`CoreTheorems`,
`Paging`/`PagingLaws`/`FastPages`/`Mmu`, `Footprint`/`Traps`/`TrapFrames`/`Stack`/`Board`,
`Memory`/`MemoryRun`, `Terminal`/`TextConsole`/`TerminalLaws`/`TerminalTheorems`/`TextLayout`/`ConsolePixels`
and `Framebuffer`/`FramebufferLaws` belong together.

The main results:

1. Deferred flags refine eager flags over every instruction sequence (`LazyCore.Cpu.Execute`),
   resting on `AluProofs.DeferredFlagsExact`: for every operation, width and operand the resolved
   descriptor gives the mathematically defined flags. Those operations are the ones their names
   promise: bit by bit, as integers, and with C and V exact (`AluLaws`).
2. Translation through both caches equals the bare walk over every disciplined run
   (`Mmu.Unit.Serve`), and enters the slow path at most once per distinct page when there are no
   more than three (`Mmu.Unit.AccessRun`); three is the limit (`FastPages.FourPagesThrash`). An
   access goes through if and only if the last word its walk reads is a well-formed leaf with the
   right bits (`PagingLaws.TranslateExactly`), so no run lets user code through without U
   (`PagingLaws.UserNeedsU`).
3. Block memory refines flat memory over any mix of accesses (`MemoryRun.Serve`), and every byte is
   its last writer's (`MemoryRun.LastWriterWins`).
4. Trap entry and IRET undo each other, in Bare mode for every stack pointer
   (`TrapFrames.BareRoundTrip`) and under Sv48 for every aligned one when no frame word lands on a
   page-table entry that a later frame access reads (`TrapFrames.PagedRoundTrip`), a condition that
   is exact over all frames (`TrapFrames.FramesReturnExactly`); the same from end to end through
   both translation caches
   (`Board.Board.Interrupted`); the handler starts at its vector-table word with the frame in place
   (`TrapFrames.EntryState`, `TrapFrames.BareFrame`); HALT resumes running (`Traps.HaltResumes`).
5. No interrupt is lost, and deliveries come lowest first (`Interrupts.NothingLost`,
   `Interrupts.PendingMeans`, `Interrupts.Drain`).
6. After any byte stream the pixel buffer is a full render of the grid
   (`TextConsole.Console.WriteOut`), any text fills the screen in reading order
   (`TextLayout.TextFillsScreen`), and a cursor report can be sent back exactly when it fits eight
   digits (`TerminalTheorems.CursorReportRoundTrip`). A printed byte's 128 pixels are its font bits in
   the colours ESC[3Xm and ESC[4Ym chose (`ConsolePixels.WriteColoured`).
7. CMP decides all ten orders, ADD/ADC and SUB/SBB chains are exact multi-word arithmetic, and
   user code can never change the five privileged RF bits (`CoreTheorems`).
8. PUSHALL and POPALL are thirteen PUSHes and POPs and undo each other (`Stack`).
9. One bulk timer advance is that many ticks, and batching is invisible (`Timer`).
10. Framebuffer invariants, the readiness edge and console input conservation over every run, and
    switch-back order from power-up until the first release (`Framebuffer`, `ConsoleEdge`,
    `ConsoleProbe`); what is claimed and shown follows from the port writes alone
    (`FramebufferLaws.HistoryDecidesClaims`, `FramebufferLaws.HistoryDecidesScreen`).

Three properties a reader might expect are false of the code. Each has an input on which it fails
and the exact condition under which it holds: sign extension of a subregister
(`Registers.ReadSignedFailsOnB1`, `Registers.ReadSignedExact`), the cursor report round trip on huge
grids (`TerminalTheorems.HugeGridReportFails`, `TerminalTheorems.CursorReportRoundTrip`), and the trap
round trip under page tables that the frame itself overwrites (`TrapFrames.FrameUnmapsItself`,
`TrapFrames.FramesReturnExactly`).

Where comments and code disagree the model follows the code: memory blocks are 4 KiB
(`block_shift` 12) although several comments say 256 bytes; `read_subreg_signext` is described as
sign-extending every subregister but tests the sign bit at its place in the whole register after
moving the field down; MUL's carry and overflow are described as a signed overflow but are computed
unsigned; a shift by more than the width is described as clearing every flag but sets Z. The
resolver's own table, `src/cpu.cpp:1381-1655`, is what the model states.

## Model

| member | source | states |
|---|---|---|
| `Words.WordRoundTrip` | src/cpu.cpp:321-363 | a word split little-endian into eight bytes is rebuilt exactly |
| `Words.LoadAfterStore` | src/cpu.cpp:516-542 | bytes stored anywhere, wrapping past the top of the address space, are loaded back |
| `Words.LoadAfterStoreApart` | src/cpu.cpp:516-542 | a store leaves every byte range it does not meet on the address circle unchanged |
| `Memory.AllocationInvisible` | src/cpu.cpp:561-578 | creating a zero-filled block changes no byte a guest can read |
| `Memory.SpliceIsStore` | src/cpu.cpp:321-363 | overwriting inside one block is a store into flat memory and touches nothing else |
| `Memory.SliceIsLoad` | src/cpu.cpp:428-483 | a slice of one block is a load from flat memory |
| `Memory.MemoryModule.constructor` | src/maize_cpu.h:471-513 | fresh memory reads zero everywhere |
| `Memory.MemoryModule.ResolveBlockMiss` | src/cpu.cpp:561-578 | after a miss the current block and the L1 slot hold the map's block for this base, and no guest byte changed |
| `Memory.MemoryModule.SetCacheAddress` | src/maize_cpu.h:519-532 | the block of the address becomes current, every L1 slot still points at its own map block, and the bytes left in the block are returned |
| `Memory.MemoryModule.WriteByte` | src/cpu.cpp:305-312 | flat memory with that one byte changed |
| `Memory.MemoryModule.WriteBytes` | src/cpu.cpp:321-363 | flat memory with the low bytes stored little-endian, in-block, straddling or wrapping |
| `Memory.MemoryModule.ReadByte` | src/cpu.cpp:545-549 | the flat memory's byte |
| `Memory.MemoryModule.ReadIntoReg` | src/cpu.cpp:428-483 | the loaded bytes land at the field and the register's other bytes are kept |
| `Memory.MemoryModule.ReadInto` | src/cpu.cpp:516-527 | bulk read of any length equals the flat load |
| `Memory.MemoryModule.WriteFrom` | src/cpu.cpp:529-543 | bulk write of any length equals the flat store |
| `Memory.MemoryModule.LastBlock` | src/cpu.cpp:551-558 | the highest base ever allocated, whatever order blocks were touched in |
| `MemoryRun.Serve` | src/cpu.cpp:305-578 | any sequence of byte, sized and bulk reads and writes gives the flat memory's answers and leaves its bytes |
| `MemoryRun.LastWriterWins` | src/cpu.cpp:305-578 | after any run every byte is the one its last store put there, low byte first, or the original one |
| `MemoryRun.LoadsSee` | src/cpu.cpp:305-578 | loads give the bytes in address order, and a register load keeps its other bytes |
| `AluProofs.MulOverflowExact` | src/cpu.cpp:257-270 | the quotient test for unsigned multiply overflow holds exactly when the product does not fit |
| `AluProofs.SumFlags` | src/cpu.cpp:1395-1446 | N, Z, C, V resolved from an ADD or ADC descriptor are those of the exact sum |
| `AluProofs.DifferenceFlags` | src/cpu.cpp:1412-1460 | N, Z, C, V resolved from a SUB or SBB descriptor are those of the exact difference |
| `AluProofs.WideSignedFlags` | src/cpu.cpp:1479-1509 | the halves and flags of MULW describe the exact signed double-width product |
| `AluProofs.WideUnsignedFlags` | src/cpu.cpp:1511-1540 | the halves and flags of UMULW describe the exact unsigned double-width product |
| `AluProofs.LeftFlags` | src/cpu.cpp:4047-4073 | SHL's value and resolved flags equal those of shifting one place at a time, for every count |
| `AluProofs.RightFlags` | src/cpu.cpp:4074-4100 | SHR's value and resolved flags equal those of shifting one place at a time, for every count |
| `AluProofs.ArithmeticFlags` | src/cpu.cpp:4101-4136 | SAR's value and resolved flags equal those of shifting one place at a time, for every count |
| `AluProofs.DeferredFlagsExact` | src/cpu.cpp:1381-1655 | for every operation, width, operands and carry, the value computed and the staged descriptor once resolved are the ones the operation's meaning defines; divide errors and flag-neutral operations agree too |
| `AluLaws.BitwiseOperations` | src/cpu.cpp:3965-4046 | each result bit of AND, OR, NOR, NAND and XOR is that truth function of the operand bits, at every width |
| `AluLaws.BitwiseNumbers` | src/cpu.cpp:3965-4046 | as integers AND + OR is the sum of the operands, XOR + 2 AND too, and NOR and NAND complement OR and AND |
| `AluLaws.Complement` | src/cpu.cpp:4789-4804 | an operand and its NOT add up to all ones; TEST has the outcome of AND |
| `AluLaws.ResultFlags` | src/cpu.cpp:1381-1655 | N and Z are the sign and zero test of the result; bitwise operations and divisions clear C and V |
| `AluLaws.UnsignedDivision` | src/cpu.cpp:3917-3964 | quotient times divisor plus a smaller remainder is the dividend, and the error case is exactly a zero divisor |
| `AluLaws.SignedDivision` | src/cpu.cpp:3860-3916 | the same for signed values with the remainder taking the sign of the dividend; errors are exactly a zero divisor and the one quotient that does not fit |
| `AluLaws.Products` | src/cpu.cpp:3839-3859 | MUL is the product modulo the width, and the two halves of UMULW and MULW rejoin to the unsigned and the signed product |
| `AluLaws.OverflowExact` | src/cpu.cpp:1381-1577 | V is clear exactly when the signed result is the exact one, for ADD, ADC, INC, SUB, SBB, CMP, DEC and NEG |
| `AluLaws.CarryExact` | src/cpu.cpp:1381-1577 | with C as carry or borrow the unsigned result is exact for the same eight operations |
| `AluLaws.WideFlags` | src/cpu.cpp:1479-1540 | MULW and UMULW flags by the sign, zeroness and size of the whole product |
| `AluLaws.Shifts` | src/cpu.cpp:4047-4136 | SHL multiplies, SHR divides and SAR floor-divides by 2^n for every count, and a zero count changes nothing |
| `AluLaws.ShiftCarries` | src/cpu.cpp:1578-1647 | C is the last bit shifted out and V the change of sign of a shift by one |
| `Registers.RfRoundTrip` | src/cpu.cpp:40-61 | packing RF into its 64-bit word loses nothing |
| `Registers.EveryWordIsAnRf` | src/cpu.cpp:40-61 | every 64-bit word is exactly one RF |
| `Registers.WriteThenRead` | src/cpu.cpp:843-890 | a subregister write reads back cut to its width and leaves every subregister that does not overlap it |
| `Registers.ReadSignedExact` | src/cpu.cpp:861-869 | the read sign-extends if and only if the field starts at byte 0 or its top bit is clear; otherwise it zero-extends |
| `Registers.ReadSignedFailsOnB1` | src/cpu.cpp:63-79 | the smallest case in which it does not sign-extend |
| `LazyCore.Cpu.MaterializeFlags` | src/cpu.cpp:1381-1655 | resolving a descriptor changes nothing an observer can see |
| `LazyCore.Cpu.Operand` | src/cpu.cpp:749-827 | naming any register gives its settled value, RF with its flags concrete |
| `LazyCore.Cpu.CommitReg` | src/cpu.cpp:885-890 | a register write is the reference core's write, keeping the privileged bits in user mode |
| `LazyCore.Cpu.RunAlu` | src/cpu.cpp:2545-3725 | the value and, once settled, the flags are the operation's meaning under the carry an eager core would hold; a trap is a trap |
| `LazyCore.Cpu.Arithmetic` | src/cpu.cpp:4593-4774 | a two-operand or unary ALU instruction is the reference core's step, write-back included |
| `LazyCore.Cpu.WideMultiply` | src/cpu.cpp:5008-5066 | both halves are written and the flags are those of the double-width product |
| `LazyCore.Cpu.CompareExchange` | src/cpu.cpp:4835-4907 | only Z changes among the flags, whatever was pending |
| `LazyCore.Cpu.LoadEffectiveAddress` | src/cpu.cpp:4909-5002 | the sum is written and the flags that were pending survive the adder's use |
| `LazyCore.Cpu.Exchange` | src/cpu.cpp:5068-5074 | the two fields are exchanged as the reference core exchanges them, RF included |
| `LazyCore.Cpu.EvalCondition` | src/cpu.cpp:1322-1357 | the condition is decided on settled flags |
| `LazyCore.Cpu.FloatCompare` | src/cpu.cpp:2519-2542 | the five flags are those of the comparison and a descriptor that was pending cannot return |
| `LazyCore.Cpu.EnterTrap` | src/cpu.cpp:1978-1990 | the saved RF word holds the settled flags |
| `LazyCore.Cpu.WriteCarry` | src/cpu.cpp:5544-5554 | C alone changes, whatever was pending |
| `LazyCore.Cpu.ReturnFromInterrupt` | src/cpu.cpp:5444-5480 | RF is exactly the restored word, or the instruction is refused in user mode |
| `LazyCore.Cpu.StepSystem` | src/cpu.cpp:5560-5587 | interrupt and syscall bits are written around a pending descriptor, or refused in user mode |
| `LazyCore.Cpu.Step` | src/cpu.cpp:4472-5587 | one instruction of the deferring core is one step of the eager core, observations and stops included |
| `LazyCore.Cpu.Execute` | src/cpu.cpp:673-692 | any instruction sequence shows every observer what the eager core shows, stops where it stops and ends in its state |
| `CoreLaws.FieldsTile` | src/cpu.cpp:40-180 | the eight bytes, four quarters and two halves of a register each add up, by weight, to the whole word |
| `CoreLaws.RfLayout` | src/cpu.cpp:40-52 | every named flag sits at its bit of the RF word |
| `CoreLaws.RfWrites` | src/cpu.cpp:885-890 | a supervisor write of RF leaves exactly the word; a user write takes its condition flags and none of its privileged bits |
| `CoreLaws.CompareExchange` | src/cpu.cpp:4835-4907 | Z tells equality; equal stores the source in the destination, unequal copies the destination to the expected field, and nothing else changes |
| `CoreLaws.EffectiveAddress` | src/cpu.cpp:4909-5002 | the destination holds the sum at the width of the base and RF is untouched |
| `CoreLaws.Exchange` | src/cpu.cpp:5068-5074 | each field holds what the other held, RF and all other registers stay |
| `CoreLaws.Moves` | src/cpu.cpp:4472-4545 | CP, CPZ, CLR and SETcc write exactly the named field and keep RF |
| `CoreLaws.Extension` | src/cpu.cpp:843-964 | the signed reading of a field agrees with the plain one at its width, and from the low end of a register it is sign extension |
| `CoreLaws.SingleBits` | src/cpu.cpp:5544-5587 | each flag instruction changes one bit, and the privileged ones stop with cause 4 in user mode; a store sends out exactly the field |
| `CoreLaws.Arithmetics` | src/cpu.cpp:4593-4774 | an ALU instruction writes the result and the four flags of its operation, CMP and TEST keep the destination, and a divide error stops with cause 2 |
| `CoreLaws.UnaryAndConditions` | src/cpu.cpp:1322-1357 | unary operations share the path, and an unallocated condition stops with cause 0 |
| `CoreLaws.WideProduct` | src/cpu.cpp:5008-5066 | after UMULW and MULW the two destination registers together hold the whole product |
| `CoreLaws.FloatCompareDecides` | src/cpu.cpp:2519-2542 | the conditions A, P, B without P and Z without P decide greater, unordered, less and equal |
| `CoreLaws.TrapAndReturn` | src/cpu.cpp:1973-2006 | trap entry saves RF and then raises privilege and masks interrupts; IRET restores exactly the saved word or stops with cause 4 |
| `CoreTheorems.CompareDecides` | src/cpu.cpp:1322-1337 | after CMP at any width, Z, NZ, LT, GE, GT, LE, B, AE, A and BE hold exactly when the operands are so related, signed or unsigned |
| `CoreTheorems.AdditionChain` | src/cpu.cpp:3792-3815 | the limbs of an add-with-carry chain are the exact sum, with C the carry out of the top |
| `CoreTheorems.SubtractionChain` | src/cpu.cpp:3816-3837 | the limbs of a subtract-with-borrow chain are the exact difference, with C the final borrow |
| `CoreTheorems.MultiWordAdd` | src/cpu.cpp:3748-3815 | ADD then ADC over any number of limbs of any width, any sources and any destinations outside RF, with flag-neutral instructions between: what the limbs leave, with C, is the exact sum of the operands they found |
| `CoreTheorems.MultiWordSubtract` | src/cpu.cpp:3770-3837 | the same for SUB then SBB: the exact difference with C the final borrow |
| `CoreTheorems.RegistersAdd` | src/cpu.cpp:3748-3815 | in the register form (ADD R0 R2; ADC R1 R3) the destination registers end up holding the sum of what they and the sources held before |
| `CoreTheorems.RegistersSubtract` | src/cpu.cpp:3770-3837 | in the register form (SUB; SBB) the destination registers end up holding the difference |
| `CoreTheorems.WriteKeepsPrivileged` | src/cpu.cpp:885-890 | a user-mode write of any value to any subregister of any register keeps the five privileged bits |
| `CoreTheorems.UserStep` | src/cpu.cpp:885-964 | no single user-mode instruction changes a privileged bit |
| `CoreTheorems.UserRun` | src/cpu.cpp:53-61 | no user-mode program of any length changes a privileged bit before a trap |
| `Paging.WalkIsPerPage` | src/cpu.cpp:2079-2144 | one walk serves every address of a page and every alias in the ignored high bits, at all four leaf sizes |
| `PagingLaws.TranslateExactly` | src/cpu.cpp:2064-2144 | an access is let through if and only if the last word of its walk is a well-formed leaf with the bit of its kind and, in user mode, U; otherwise which fault; and the physical address from the leaf |
| `PagingLaws.WalkVisits` | src/cpu.cpp:2079-2144 | the words read are those indexed by VA[47:39], [38:30], [29:21] and [20:12] from the table in SATP through valid pointer entries |
| `PagingLaws.BareIsIdentity` | src/cpu.cpp:1093-1112 | with any MODE but 1 addresses pass through |
| `PagingLaws.FaultWordLayout` | src/cpu.cpp:2041-2058 | which bits of CR2 say present, kind and user |
| `PagingLaws.SatpLayout` | src/cpu.cpp:1909-1922 | a CR0 write keeps MODE and page number and clears bits 11:4 |
| `FastPages.MissBound` | src/cpu.cpp:1040-1050 | whatever the three ways held, a run over at most three keys misses at most once per key |
| `FastPages.FourPagesThrash` | src/cpu.cpp:1029-1046 | four keys in rotation miss every time, for ever |
| `Mmu.LeafAgrees` | src/cpu.cpp:2109-2134 | what a permitted leaf puts in the caches is what the walk of its page says |
| `Mmu.Unit.ReadPte` | src/cpu.cpp:2025-2030 | a table entry read is the flat memory's word and changes nothing |
| `Mmu.Unit.PageFault` | src/cpu.cpp:2041-2058 | the fault address and fault word are latched |
| `Mmu.Unit.Sv48Walk` | src/cpu.cpp:2079-2144 | the walk's answer, with the caches filled only by answers that agree with it |
| `Mmu.Unit.TranslateSlow` | src/cpu.cpp:2149-2168 | a TLB hit, a permission fault on a hit and a walk all give the bare walk's answer |
| `Mmu.Unit.Translate` | src/cpu.cpp:1093-1112 | the bare walk's answer or fault for every address, kind and privilege; the miss counter grows exactly when the key is in no way |
| `Mmu.Unit.FlushAll` | src/cpu.cpp:2172-2183 | both caches are empty and nothing is stale |
| `Mmu.Unit.FlushVa` | src/cpu.cpp:2187-2202 | no TLB entry and no fast key of the page remains under any kind or privilege, and every other cached answer still agrees |
| `Mmu.Unit.CrWrite` | src/cpu.cpp:1909-1922 | CR0 keeps MODE and PPN and empties the caches; CR1 and CR2 are stored; other numbers are ignored |
| `Mmu.Unit.Serve` | src/cpu.cpp:986-1112 | every run of translations, CR writes, TLBINV, TLBINVA and memory edits in which changed pages are flushed before use answers as the walk alone would, faults and latches included |
| `PagingLaws.UserNeedsU` | src/cpu.cpp:1093-1112 | over every disciplined run, whatever the caches held, a user access answered with an address ends in a leaf with U and the bit of its kind |
| `PagingLaws.NewSpace` | src/cpu.cpp:1909-1922 | the access after a CR0 write is translated by the tables that were written |
| `Mmu.Unit.AccessRun` | src/cpu.cpp:1093-1112 | in a flush-free run of successful accesses the slow path is entered exactly as the keys predict, and at most once per distinct key when there are at most three |
| `Footprint.StoreKeepsWalk` | src/cpu.cpp:2079-2144 | a store apart from the at most four page-table entries a walk reads changes neither the walk nor those entries |
| `Footprint.ZeroKills` | src/cpu.cpp:2079-2144 | a zero word on any entry a walk reads makes the walk fail |
| `Traps.FrameStands` | src/cpu.cpp:1959-2006 | when no frame word lands on a needed entry or on PC or RF, all four pushes succeed through the tables as each push leaves them, and PC and RF read back |
| `Traps.TrapRoundTrip` | src/cpu.cpp:1973-2006 | entry, any handler after which the two words above aux and cause read as before, and IRET through the handler's own tables restore PC, RS and all of RF |
| `Traps.HaltResumes` | src/cpu.cpp:6340-6353 | HALT, park, wake, handler and IRET leave the guest running after HALT with its own flags, privilege and interrupt enable |
| `Traps.HaltEnds` | src/cpu.cpp:4450-4470 | HALT with interrupts off ends the run; HALT and IRET are refused in user mode |
| `TrapFrames.EntryState` | src/cpu.cpp:1973-2006 | no handler exactly when the vector-table word is zero; otherwise PC is that word, privilege on, interrupts off, the stack four words down and every other register kept |
| `TrapFrames.BareLands` | src/cpu.cpp:1959-1964 | in Bare mode the frame lands for every stack pointer, wrapping ones included |
| `TrapFrames.BareRoundTrip` | src/cpu.cpp:1973-2006 | in Bare mode the handler is always entered and the round trip holds for every stack pointer |
| `TrapFrames.BareFrame` | src/cpu.cpp:1973-2006 | from the new stack pointer up the memory holds aux, cause, RF and the saved PC |
| `TrapFrames.PagedRoundTrip` | src/cpu.cpp:1973-2006 | under Sv48, for every 8-aligned stack pointer whose four slots are writable and whose frame words stay off the page-table entries needed after them, the handler is entered and the round trip holds |
| `TrapFrames.FramesReturnExactly` | src/cpu.cpp:1959-1964 | for an 8-aligned stack pointer every frame of four words is pushed whole and its first two words read back if and only if that condition holds |
| `TrapFrames.FrameUnmapsItself` | src/cpu.cpp:1959-1964 | tables under which all four slots are writable and delivery still faults at the second push, because the pushed PC overwrites an entry |
| `TrapFrames.StoresAside` | src/cpu.cpp:2079-2144 | any number of stores that stay off a stack word and the entries that lead to it leave it reading the same |
| `Board.LandingIsFresh` | src/cpu.cpp:1959-2006 | a frame that lands never makes a page stale that it still needs |
| `Board.Board.ReadVectorEntry` | src/cpu.cpp:1947-1953 | the handler address is the flat memory's vector entry |
| `Board.Board.PushWord` | src/cpu.cpp:1959-1964 | the stack pointer moves first, then the word is stored where the caches, and so the walk of the memory as it stands, send it; a fault latches its address and leaves memory |
| `Board.Board.DeliverVectored` | src/cpu.cpp:1973-2006 | entry through the translation unit is the specified entry; a missing handler changes nothing and a faulting push leaves the specified partial frame, stack pointer and privilege |
| `Board.Board.ReturnFromTrap` | src/cpu.cpp:5444-5480 | IRET through the translation unit is the specified return, and a refused or faulting one changes nothing a guest can see |
| `Board.Board.Interrupted` | src/cpu.cpp:1973-2006 | delivery, a handler with any register values and any stores aside, and IRET, all through both translation caches, restore PC, RS and all of RF |
| `Board.Board.PushAll` | src/cpu.cpp:5269-5293 | PUSHALL in Bare mode, probes and per-word translation included, stores one block and moves RS, flags and registers untouched |
| `Board.Board.PopAll` | src/cpu.cpp:5295-5318 | POPALL in Bare mode, probes and per-word translation included, loads thirteen registers and moves RS |
| `Stack.PushAllIsPushes` | src/cpu.cpp:5269-5334 | PUSHALL equals thirteen PUSHes (RB, RV, RT, R9 down to R0) for every RS |
| `Stack.PopAllIsPops` | src/cpu.cpp:5247-5318 | POPALL equals thirteen POPs for every RS |
| `Stack.PopAllUndoesPushAll` | src/cpu.cpp:5269-5318 | POPALL after PUSHALL restores all thirteen registers and RS |
| `Stack.ContextInOrder` | src/cpu.cpp:5269-5293 | after PUSHALL the words from RS up are R0 to R9, RT, RV and RB |
| `Interrupts.PendingMeans` | src/cpu.cpp:1764-1783 | a vector is pending exactly when it was raised with no delivery of it since |
| `Interrupts.NothingLost` | src/cpu.cpp:2216-2265 | over any interleaving the pending set is the vectors raised since their last delivery, and every delivery took the least one |
| `Interrupts.RaiseSurvives` | src/cpu.cpp:2348-2355 | a raise is either still pending or has been delivered, whatever else happened |
| `Interrupts.MaskedDeliversNothing` | src/cpu.cpp:2243-2265 | nothing is delivered while nothing turns interrupts on |
| `Interrupts.Drain` | src/cpu.cpp:2216-2230 | one handler per pending vector delivers each exactly once in ascending order and empties the controller |
| `Interrupts.Controller.RaiseIrq` | src/cpu.cpp:2348-2355 | the vector joins the pending set and the summary bit is set |
| `Interrupts.Controller.TakeNextPendingVector` | src/cpu.cpp:2216-2230 | the least pending vector leaves the set, the summary bit stays exactly while the set is non-empty, and an empty controller answers 0 |
| `Interrupts.Controller.TryDeliver` | src/cpu.cpp:2243-2265 | delivers exactly when enabled and something is pending |
| `Interrupts.Controller.Operate` | src/cpu.cpp:6324-6342 | any sequence of raises, RF writes and boundaries leaves the specified set and history |
| `Timer.TicksAre` | src/cpu.cpp:2387-2420 | n ticks cross zero at most once: the countdown falls by n or the timer fires |
| `Timer.TicksAdd` | src/cpu.cpp:2387-2420 | m + n ticks are m ticks then n ticks, raises included |
| `Timer.RaisesNeedAcks` | src/cpu.cpp:2356-2364 | whatever the guest writes, raises never exceed acknowledges plus one |
| `Timer.PeriodicRaises` | src/cpu.cpp:2356-2364 | an acknowledged periodic timer raises once per period and returns to its armed state |
| `Timer.ControlBits` | src/cpu.cpp:2387-2420 | control 00 never raises, 01 raises once and turns itself off for good, 11 keeps its control word |
| `Timer.Countdown` | src/cpu.cpp:2387-2420 | fewer ticks than remain only count down |
| `Timer.BatchingInvisible` | src/cpu.cpp:2371-2381 | how instructions are grouped into batches between guest writes changes neither registers nor raises |
| `Timer.TimerDevice.AdvanceActiveTimer` | src/cpu.cpp:2387-2420 | one bulk advance leaves counter, status, control and the pending set as n single ticks do, for every n, period and mode |
| `Terminal.DispatchKeepsLegal` | src/devices.cpp:730-840 | every CSI sequence keeps the cursor on the grid, the colours in range and the wrap flag at the margin |
| `Terminal.OutKeepsLegal` | src/devices.cpp:842-880 | every byte keeps a terminal legal and its size |
| `Terminal.OutsAppend` | src/devices.cpp:882-887 | a stream may be cut anywhere without changing screen or answers |
| `TextConsole.Console.constructor` | src/devices.cpp:638-651 | a blank grey-on-black screen, fully painted |
| `TextConsole.Console.RenderCell` | src/devices.cpp:666-680 | exactly the 8 by 16 pixels of the cell change, to the glyph in its colours |
| `TextConsole.Console.SetCell` | src/devices.cpp:682-686 | one cell of the grid changes and the pixels still render the whole grid |
| `TextConsole.Console.Erase` | src/devices.cpp:766-789 | ESC[J and ESC[K blank exactly their region, in the current colours |
| `TextConsole.Console.ScrollUp` | src/devices.cpp:688-702 | the rows move up by one, the last is blank, and the pixels render the result |
| `TextConsole.Console.NewLine` | src/devices.cpp:704-709 | next row, scrolling at the bottom |
| `TextConsole.Console.PutGlyph` | src/devices.cpp:711-728 | a pending wrap is honoured first, then the glyph is placed |
| `TextConsole.Console.SelectGraphics` | src/devices.cpp:799-810 | the colours left are those of folding the codes in order |
| `TextConsole.Console.PushDec` | src/devices.cpp:822-828 | the decimal digits, most significant first, cut to the last eight |
| `TextConsole.Console.MoveTo` | src/devices.cpp:754-765 | 1-based position, missing or zero coordinates as 1, clamped to the grid |
| `TextConsole.Console.MoveBy` | src/devices.cpp:734-753 | moves by at least one and stops at the edge |
| `TextConsole.Console.CsiDispatch` | src/devices.cpp:730-840 | every final byte has the specified effect and answer |
| `TextConsole.Console.OutByte` | src/devices.cpp:842-880 | one byte is one step of the specified terminal |
| `TextConsole.Console.WriteOut` | src/devices.cpp:882-887 | after any byte stream from any legal state the terminal is the specified one, every pixel is that of a full render of its grid, and the answers are queued in order |
| `ConsolePixels.CellPixel` | src/devices.cpp:666-680 | each pixel of each cell is the RGB of the foreground where the font bit is set and of the background elsewhere |
| `ConsolePixels.BlankShows` | src/devices.cpp:666-680 | a glyph without ink leaves its cell all background |
| `ConsolePixels.WriteGlyph` | src/devices.cpp:882-887 | after a printable byte the 128 pixels of its cell show it in the current colours |
| `ConsolePixels.WriteColoured` | src/devices.cpp:799-887 | after ESC[3Xm, ESC[4Ym and a byte the cell shows it in colours X on Y |
| `ConsolePixels.PowerUp` | src/devices.cpp:638-651 | a new console is black from edge to edge when the space glyph has no ink |
| `TerminalTheorems.DigitsRoundTrip` | src/devices.cpp:822-828 | digits fed back through the parameter parser give the number |
| `TerminalLaws.Arrows` | src/devices.cpp:734-753 | ESC[nA, B, C and D move the cursor up, down, right and left by n and stop at the edge |
| `TerminalLaws.ArrowsByOne` | src/devices.cpp:734-753 | without a number each moves by one |
| `TerminalLaws.ThereAndBack` | src/devices.cpp:734-753 | moving away and back returns exactly when the edge was not hit |
| `TerminalLaws.Erasing` | src/devices.cpp:766-789 | ESC[0J, 1J, 2J and the same for K blank exactly the selected cells in the current colours and move nothing |
| `TerminalLaws.ErasingByDefault` | src/devices.cpp:766-789 | without a digit both erase from the cursor on |
| `TerminalLaws.ColourCodes` | src/devices.cpp:799-810 | ESC[3Xm sets the foreground to X, ESC[4Ym the background to Y, ESC[0m and ESC[m restore 7 on 0 |
| `TerminalLaws.ParameterList` | src/devices.cpp:842-880 | up to eight numbers separated by semicolons are collected in order |
| `TerminalLaws.NinthIgnored` | src/devices.cpp:842-880 | a ninth separator changes nothing |
| `TerminalLaws.ControlBytes` | src/devices.cpp:842-880 | CR, BS and TAB move the cursor to column 0, one left and to the next multiple of eight |
| `TerminalLaws.LineFeed` | src/devices.cpp:704-709 | LF goes to column 0 of the next row or shifts every row up over a blank last one |
| `TerminalLaws.PrintableByte` | src/devices.cpp:842-880 | one cell changes, and the cursor advances or waits at the margin |
| `TerminalLaws.Ignored` | src/devices.cpp:842-880 | every other byte, bare escape and unknown sequence leaves no trace |
| `TerminalLaws.CursorVisibility` | src/devices.cpp:790-798 | ESC[?25h shows and ESC[?25l hides the cursor |
| `TerminalTheorems.PrintedReads` | src/devices.cpp:822-828 | the eight-place printer reads back exactly when the number is below 10^8 |
| `TerminalTheorems.SetPosition` | src/devices.cpp:754-765 | a position sequence through the parser moves the cursor there, clamped, and changes nothing else |
| `TerminalTheorems.CursorReportRoundTrip` | src/devices.cpp:811-836 | asking changes nothing; the answer sent back with final H returns the cursor to the reported cell if and only if both coordinates are below 10^8 |
| `TerminalTheorems.HugeGridReportFails` | src/devices.cpp:822-828 | a legal terminal whose own cursor report does not bring the cursor back |
| `TerminalTheorems.WindowSize` | src/devices.cpp:811-822 | ESC[999C ESC[999B then a report gives the window size if and only if the corner is within 999 cells each way |
| `TextLayout.BrokenIsText` | src/devices.cpp:711-728 | breaking text into lines loses nothing and fills each line before the next |
| `TextLayout.TextFillsScreen` | src/devices.cpp:711-728 | text of any length on a cleared screen shows its last lines in order, and a full last line does not scroll |
| `Framebuffer.StepSound` | src/devices.cpp:480-534 | every port write keeps the active surface showable and the history free of duplicates and in range |
| `Framebuffer.HistoryBounded` | src/devices.cpp:394-412 | the history never exceeds the slots plus the console |
| `Framebuffer.ActivateRemembers` | src/devices.cpp:394-412 | one activation keeps history and active surface the surfaces shown, most recent last |
| `Framebuffer.RunRemembers` | src/devices.cpp:394-468 | after any run that releases nothing, history and active surface are the surfaces shown, each once, most recent last |
| `Framebuffer.ReleaseSwitchesBack` | src/devices.cpp:431-453 | with that history, releasing the active slot shows the most recently shown surface that can still be shown, or the console |
| `Framebuffer.FirstReleaseSwitchesBack` | src/devices.cpp:394-453 | from power-up, after any claims and switches, the first release of the slot on the screen brings back the surface shown most recently before it that can still be shown |
| `FramebufferLaws.HistoryDecidesClaims` | src/devices.cpp:480-534 | after any run from power-up the selected and the claimed slots are what the port writes say |
| `FramebufferLaws.HistoryDecidesScreen` | src/devices.cpp:394-468 | until a release the surface shown is the target of the last write that decides one: a switch to the console or a claimed slot, or a claim from the console |
| `FramebufferLaws.SwitchesAndClaims` | src/devices.cpp:455-534 | from any reachable table a claim never takes the screen from another slot, a bad switch is a no-op and a good one shows its slot |
| `FramebufferLaws.MostRecentMeans` | src/devices.cpp:394-412 | the switch-back order lists every surface shown, once, by when it was last shown |
| `Framebuffer.Device.ActivateLocked` | src/devices.cpp:394-412 | the outgoing surface moves to the top of the history, once |
| `Framebuffer.Device.ClaimLocked` | src/devices.cpp:417-424 | the slot is claimed, the count grows, and a first claim from the console is shown |
| `Framebuffer.Device.ReleaseLocked` | src/devices.cpp:431-453 | the slot is free, the count falls, and the history is popped to a surface that can be shown |
| `Framebuffer.Device.PortWrite` | src/devices.cpp:480-534 | each port write has the specified effect, rejected claims and out-of-range values included |
| `Framebuffer.Device.Operate` | src/devices.cpp:455-534 | over every run a slot is claimed exactly while its base is nonzero, the claimed count is the number of claimed slots, and the active surface is the console or claimed |
| `ConsoleEdge.RaisesExactly` | src/devices.cpp:122-178 | a tick raises exactly when input has not ended before and it finds the end, or finds input readable with no readable tick since the last re-arm |
| `ConsoleEdge.ReadableAfterRearmRaises` | src/devices.cpp:154-172 | the first readable tick after a re-arm raises unless input has ended |
| `ConsoleEdge.ReadableParkWakes` | src/cpu.cpp:6303-6333 | a parked reader with readable input is woken now or after one deadline, from any latches |
| `ConsoleEdge.RaisesBounded` | src/devices.cpp:122-178 | raises are at most re-arms plus one plus end-of-input raises, of which there is at most one |
| `ConsoleEdge.ConsoleDevice.OnInputTick` | src/devices.cpp:122-178 | the latches, the outcome and the interrupt are the specified ones |
| `ConsoleEdge.ConsoleDevice.ReadData` | src/devices.cpp:51-73 | a byte or the end latch, and the edge re-armed |
| `ConsoleEdge.ConsoleDevice.RearmReadyEdge` | src/devices.h:66 | the edge is re-armed and nothing else changes |
| `ConsoleEdge.ConsoleDevice.Operate` | src/devices.cpp:51-178 | any interleaving leaves the specified latches, number of raises and pending interrupt |
| `ConsoleProbe.UnreadableExactly` | src/console_probe_win32.cpp:309-314 | a flushable record yields no byte in any mode, and the records that yield none but are kept are exactly characterless, untranslated, non-modifier presses |
| `ConsoleProbe.HeldModifierHidesNothing` | src/console_probe_win32.cpp:281-331 | repeated raw probes find input if and only if it lies within 256 records of the first record that may not be flushed |
| `ConsoleProbe.EscapesHide` | src/console_probe_win32.cpp:335-384 | a queue in which no number of raw probes finds a waiting character |
| `ConsoleProbe.AnswerIsRawProbe` | src/console_probe_win32.cpp:335-384 | the reader's raw answer on a quiet host is the one the theorem is about |
| `ConsoleProbe.ReadyExactly` | src/console_probe_win32.cpp:335-384 | ready if and only if bytes are in hand, the count failed, a completing key press lies within the peek, or a cooked peek came back full |
| `ConsoleProbe.TranslatedKeys` | src/console_probe_win32.cpp:249-262 | the exact virtual-key codes that yield bytes without a character, and only in VT input mode |
| `ConsoleProbe.CharactersYield` | src/console_probe_win32.cpp:395-404 | a press with a character always yields, a release or other event never |
| `ConsoleProbe.FlushableKeys` | src/console_probe_win32.cpp:268-279 | the exact virtual-key codes whose characterless press may be flushed |
| `ConsoleProbe.Reader.FlushLeadingUnreadable` | src/console_probe_win32.cpp:321-331 | only leading unreadable records leave the queue, whatever the host hands over or queues meanwhile; on a quiet host, all of them |
| `ConsoleProbe.Reader.ConsoleReady` | src/console_probe_win32.cpp:335-384 | the answer for buffered bytes, cooked and raw modes and failed calls; cooked and buffered probes consume nothing |
| `ConsoleProbe.Reader.FillBuffer` | src/console_probe_win32.cpp:457-478 | the buffer holds exactly the host's bytes |
| `ConsoleProbe.Reader.ReadConsole` | src/console_probe_win32.cpp:457-487 | exactly as many bytes as asked for or available come out, in order, after at most one fill; the answer is -1 exactly when a fill was needed and failed |
| `ConsoleProbe.Reader.Operate` | src/console_probe_win32.cpp:193-487 | over any interleaving bytes handed out plus bytes buffered are all bytes filled, and every record a probe removed was unreadable in every mode |

## Left out

- The JIT, floating-point arithmetic, native system calls, and the SDL window, presenter and help viewer: their behaviour is outside the state modelled here. FCMP takes its four-way outcome from a parameter.
- Instruction fetch and decoding, program-counter advance, the no-effect subregister encoding 15, and immediates: operands arrive decoded, and values from the code stream or memory arrive as values.
- LazyCore.Cpu.Step: memory operands are values and stores are observations, so one machine serves every memory; CMPIND, TESTIND and the port instructions add no flag behaviour of their own.
- Memory.MemoryModule.SetCacheAddress: block pointers are indices into a list of allocations rather than addresses, so two blocks cannot alias by construction of the allocator.
- Mmu.Unit.Translate: the miss counter is always on, and an access whose bytes cross a page is not modelled because the machine translates only its first byte.
- Board.Board.DeliverVectored: a push that faults is left as the specified partial state; the page-fault trap it raises in turn, and the double fault if that one faults too, are not modelled.
- TrapFrames.FramesReturnExactly: the exact condition is for 8-aligned stack pointers; for others `Traps.TrapRoundTrip` asks in addition that no later word overlaps PC or RF.
- Board.Board.Interrupted: pages a store makes stale are flushed before use, as in `Mmu.Unit.Serve`; the handler is its stores and its final registers, not its instructions.
- Board.Board.PushAll: Bare mode only; under Sv48 the block may be split over pages that its own stores remap.
- Board.Board.PopAll: Bare mode only, as PUSHALL is.
- Mmu.Unit.PageFault: latches the fault registers; vectoring to the handler is `Board.Board.DeliverVectored`.
- LazyCore.Cpu.FloatCompare: the sticky floating-point exception flags and the illegal-width trap are not modelled.
- LazyCore.Cpu.ReturnFromInterrupt: RF only; the stack reads and PC and RS are `Board.Board.ReturnFromTrap`.
- Interrupts.Controller.TryDeliver: raises and deliveries are atomic steps, standing for the mutex; the JIT's deferral of delivery inside a compiled block is not modelled.
- TextConsole.Console.WriteOut: CSI parameters are unbounded integers, the three buffers are two-dimensional rather than row-major vectors, and the font bitmap is a parameter.
- TextConsole.Console.constructor: asks for a window of at least one cell, 8 by 16 pixels; for a smaller one the source keeps a one-cell grid whose cell does not fit its pixel buffer.
- The console's line discipline, key map and termios image: echoed escape sequences answer into the input, so no line-only law holds.
- Framebuffer.Device.PortWrite: frame capture, vsync, the read ports and power-off on a rejected claim are not modelled; whether a window is available is the host's answer.
- Framebuffer.RunRemembers: for runs that release nothing; a release pops entries for good and leaves stale ones below, so after a slot is claimed again only the invariants of `Framebuffer.StepSound` are stated.
- FramebufferLaws.HistoryDecidesScreen: until the first release; after one the surface shown also depends on the stale history entries, and `FramebufferLaws.SwitchesAndClaims` still holds of every step.
- CoreLaws.CompareExchange: the whole-effect laws of `CoreLaws` are for fields outside RF, whose writes obey `CoreLaws.RfWrites` and `CoreTheorems.WriteKeepsPrivileged`.
- ConsoleEdge.ConsoleDevice.OnInputTick: the fault-injection hooks and the status port are not modelled.
- ConsoleProbe.Reader.ConsoleReady: host calls are an arbitrary environment that may queue records at any time; pipes, files and the handle-type dispatch are not modelled.
