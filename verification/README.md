# Spike in Dafny

This project models the core of Spike, the RISC-V instruction set simulator in `riscv-isa-sim/riscv`, and proves what
its fast structures and state machines are meant to keep: a translation cache that never shows, an execution loop with
an instruction cache and fall-through dispatch that does what a plain loop does, an opcode table that reorders itself
without changing what any word decodes to, a debug module whose generated code and handshake do what the debugger
asked for, a cache simulator that loses no store, and a privileged state whose legal ranges no write can leave.

Each component has a pure model (functions on values, with the theorems about them) and, where the source updates
state in place, a class whose methods are proved to end in exactly the state the model gives. The theorems about the
model then hold of the class.

| file | contents |
|---|---|
| `Common.dfy`, `Bits.dfy`, `Fields.dfy` | result types; `&`, `\|`, shifts and masks on natural numbers; the laws of `get_field` and `set_field` |
| `PageWalk.dfy` | the page walk against the algorithm of section 4.3.2 of the RISC-V Privileged Architecture v1.10 |
| `Tlb.dfy`, `Mmu.dfy` | the three tag arrays over one data array, flushes, load reservations |
| `Execute.dfy`, `ExecuteLaws.dfy` | `processor_t::step`: the instruction cache, the chained dispatch, sentinels, traps, single stepping; what a call executes, retires and ends with |
| `Decoder.dfy` | `decode_insn`: the opcode cache over the self-organizing table |
| `CsrModel.dfy`, `CsrFile.dfy`, `CsrLaws.dfy` | CSR writes, traps and returns, interrupts; each register and each trap in the numbers of the architecture |
| `Translation.dfy` | the TLB under whole runs of a hart: CSR operations, traps, fences and accesses from reset |
| `Encoding.dfy`, `AbstractCommand.dfy` | instruction encoders and field extractors; the debug module as a code generator |
| `DebugModel.dfy`, `DebugModule.dfy`, `DebugLaws.dfy` | DMI operations, hart stores, and the handshake between them; what debugger and harts see, in addresses and bits |
| `CacheModel.dfy`, `CacheRuns.dfy`, `CacheSim.dfy` | both cache simulators, runs, and the chain of miss handlers |
| `MulHi.dfy` | 64-by-64-bit high products |
| `Jtag.dfy` | the TAP controller and its shift registers |
| `ClintModel.dfy`, `Clint.dfy`, `Scheduler.dfy` | the timer device and the round-robin scheduler |

`dafny verify dfyconfig.toml` checks the whole project.

Six properties hold only under a condition that the source does not check. Each is proved with its exact condition, in
both directions:

- In a mode, no run of accesses on any machine shows the TLB if and only if fetches and data accesses translate through
  the same tables, which MPRV can break (`Tlb.InvisibleIff`).
- The walk reads the entries that the standard's walk reads, and ends as it does, if and only if the pointers it follows
  and the leaf that maps the page have their reserved bits 61:54 clear, since the code never masks them
  (`PageWalk.WalkStandardIff`). On all other memories it is still the same algorithm, with those bits in the page number
  (`PageWalk.Walk`).
- The zero word decodes independently of history if and only if the table makes it illegal, because the untouched
  opcode cache already answers it (`Decoder.StableForAllWordsIff`).
- An abstract command does what was asked on every hart if and only if it does not reach dscratch through S0
  (`AbstractCommand.CommandMeetsIff`).
- A GO flag keeps implying a busy module if and only if the debugger does not select another hart or reset the module
  while a started hart has not answered (`DebugModel.HandshakeKeptIff`).
- With its instruction cache a call of `step` executes the same instructions, at the same addresses and in the same order,
  as without one if and only if no hit is stale (`Execute.NoStaleRunIff`); then it also ends in the same state. A run that
  keeps the discipline of FENCE.I, which allows code to be overwritten at any time if a flush comes before its next
  execution, has no stale hit (`Execute.FencedRunIsPlain`). `Execute.StaleBreaks` is a program that rewrites itself,
  with and without the fence.

## Model

| member | source | states |
|---|---|---|
| PageWalk.Walk | riscv-isa-sim/riscv/mmu.cc:161-235 | on every memory, the loop returns exactly what the algorithm of the privileged specification prescribes for Bare, Sv32, Sv39 and Sv48, with the page number read as bits 61:10: the same page, or the same choice of page fault or access fault; and if the entries that this one walk follows have their reserved bits clear, exactly what the standard prescribes |
| PageWalk.Sv39Translation | riscv-isa-sim/riscv/mmu.h:382-386 | satp mode 8: an address is canonical if bits 63:38 agree, and then the walk goes over three levels of nine bits from the root in satp, with entries of eight bytes |
| PageWalk.Sv48Translation | riscv-isa-sim/riscv/mmu.h:382-386 | satp mode 9: bits 63:47 agree, and there are four levels |
| PageWalk.Sv32Translation | riscv-isa-sim/riscv/mmu.h:376-379 | on a 32-bit hart every address is canonical, and there are two levels of ten bits with entries of four bytes |
| PageWalk.BareTranslation | riscv-isa-sim/riscv/mmu.cc:163-165 | M-mode and mode 0 give the address itself, in the width of the hart |
| PageWalk.WalkStandardIff | riscv-isa-sim/riscv/mmu.cc:179-217 | the code reads the entries that the standard reads and ends alike if and only if, along the path, followed pointers and a mapping leaf have reserved bits 61:54 clear |
| PageWalk.Sv32Conforms | riscv-isa-sim/riscv/mmu.cc:179-217 | for Sv32, whose entries have no reserved bits, every path conforms |
| PageWalk.CanonicalTest | riscv-isa-sim/riscv/mmu.cc:171-176 | the masked comparison of the top bits is the rule that they all equal the highest translated bit |
| PageWalk.SpliceIsOr | riscv-isa-sim/riscv/mmu.cc:213-215 | or-ing the low page number fields into an aligned superpage is the field-by-field splice of the specification: no bits overlap |
| PageWalk.Alignment | riscv-isa-sim/riscv/mmu.cc:201-202 | the mask test at level i is zero exactly when every lower page number field is zero |
| PageWalk.LeafMeetsSpec | riscv-isa-sim/riscv/mmu.cc:193-217 | on every entry, the permission, validity, alignment and A/D tests in the order of the code fail exactly when a rule of the specification fails |
| PageWalk.LeafPage | riscv-isa-sim/riscv/mmu.cc:189-215 | the address built from a leaf equals the specified one if and only if reserved bits 61:54 of the entry are clear |
| PageWalk.ShlWrap | riscv-isa-sim/riscv/mmu.cc:189-192 | shifting the unmasked page number left drops bits 63:62 and keeps bits 61:54, so it equals the masked shift exactly when those are clear |
| PageWalk.WalkAddressUnique | riscv-isa-sim/riscv/mmu.cc:179-217 | two successful walks of one address through the same tables give the same page, whatever the access types, privileges, SUM and MXR |
| PageWalk.WalkLinear | riscv-isa-sim/riscv/mmu.cc:213-216 | over the superpage in which a walk ends the mapping is linear: the offset from the first address is added unchanged |
| PageWalk.PageSpecUnique | riscv-isa-sim/riscv/mmu.cc:37-49 | translation for two access types through the same tables agrees whenever both succeed |
| PageWalk.PageSpecSamePage | riscv-isa-sim/riscv/mmu.cc:161-235 | addresses on one 4 KiB page translate together: to the same page, or to a fault of the same kind that reports the address asked for |
| PageWalk.PageSpecAligned | riscv-isa-sim/riscv/mmu.cc:214-216 | a page found is aligned and does not depend on the offset within the page |
| Tlb.HitIsFresh | riscv-isa-sim/riscv/mmu.h:86-97 | a tag match in a coherent TLB reaches the byte that a fresh walk would reach, for each access type and every page that no edit has made stale |
| Tlb.RefillCoherent | riscv-isa-sim/riscv/mmu.cc:135-159 | a refill keeps every tag of all three arrays, stale pages aside, standing for a current entry, although it overwrites the entry they share |
| Tlb.FlushedCoherent | riscv-isa-sim/riscv/mmu.cc:28-35 | after a flush the TLB is coherent with any page tables and any mode |
| Tlb.LookupIsFresh | riscv-isa-sim/riscv/mmu.cc:51-133 | one access through a coherent TLB, hit or miss, gives the result or fault of the uncached access and leaves the TLB coherent |
| Tlb.TlbInvisible | riscv-isa-sim/riscv/mmu.cc:28-159 | over every run of accesses, mode changes and edits of the page tables and the memory map, in which mode changes flush and no page that an edit since the last flush has outdated is accessed, the results with the TLB are those without it |
| Tlb.InvisibleIff | riscv-isa-sim/riscv/mmu.cc:42-49 | in a mode, every run of accesses from a flush has the uncached results on every machine if and only if fetch and data accesses use the same address space |
| Tlb.EditCoherent | riscv-isa-sim/riscv/mmu.cc:135-159 | an edit without a flush leaves every cached entry right but those of the pages it outdates; a page that faulted before is never one of them |
| Tlb.TranslateStandard | riscv-isa-sim/riscv/mmu.cc:37-49 | where the entries of the walk conform, the address translated to is the one of the standard |
| Tlb.MprvMeans | riscv-isa-sim/riscv/mmu.cc:40-46 | outside debug mode MPRV makes loads and stores, never fetches, translate as in the privilege of MPP; in debug mode it does nothing |
| Tlb.AccessEnds | riscv-isa-sim/riscv/mmu.cc:51-133 | every fault reports the access and its address; RAM is reached exactly where there is RAM, a device only where there is none and it answers to that kind of access |
| Tlb.MissRefills | riscv-isa-sim/riscv/mmu.cc:135-159 | after an access that reached RAM the next one of its kind to the page hits, unless it is a load or store that a tracer wants to see |
| Tlb.RefillHits | riscv-isa-sim/riscv/mmu.cc:135-159 | a refill is what the next access to the page uses: offsets, and the trigger bit of the tag |
| Translation.HartNeverSeesTlb | riscv-isa-sim/riscv/processor.cc:245-504 | from reset, over every run of CSR writes, traps, returns, debug entries, edits of the tables, fences and accesses in which MPRV splits no address space and no outdated page is accessed before a flush, each access ends where the page tables of that moment lead: the code flushes wherever it must |
| Translation.EventsPossible | riscv-isa-sim/riscv/processor.cc:245-504 | the run as the MMU sees it contains no change of its mode without a flush, and its stale pages are those of the run |
| Mmu.Mmu.Translate | riscv-isa-sim/riscv/mmu.cc:37-49 | returns the physical address that the walk gives in the privilege that MPRV selects, or its fault; that of the standard where the entries conform |
| Mmu.Mmu.RefillTlb | riscv-isa-sim/riscv/mmu.cc:135-159 | evicts other pages from the slot of all three arrays, installs the tag of the access with its trigger bit, and returns the entry stored |
| Mmu.Mmu.SlowPath | riscv-isa-sim/riscv/mmu.cc:51-133 | a miss reaches RAM or a device as the uncached access does, and refills unless a tracer watches the page |
| Mmu.Mmu.Touch | riscv-isa-sim/riscv/mmu.h:82-133 | a load, store or fetch returns what an access without a TLB returns, and keeps the coherence invariant |
| Mmu.Mmu.AcquireLoadReservation | riscv-isa-sim/riscv/mmu.h:188-195 | reserves exactly the physical address of the load, and faults on I/O space without touching the reservation |
| Mmu.Mmu.CheckLoadReservation | riscv-isa-sim/riscv/mmu.h:197-204 | succeeds exactly when the store translates to the reserved physical address |
| Mmu.Mmu.FlushTlb | riscv-isa-sim/riscv/mmu.cc:28-35 | no tag names a page afterwards; entries are kept |
| Mmu.Mmu.FlushAndSwitch | riscv-isa-sim/riscv/processor.cc:245-249 | flushing before a change of mode re-establishes coherence with the new mode and clears what was stale |
| Mmu.Mmu.Edit | riscv-isa-sim/riscv/mmu.cc:135-159 | a change of the page tables or the memory map, with no flush, keeps coherence for all pages but those it outdates |
| Mmu.Mmu.WriteMstatus | riscv-isa-sim/riscv/processor.cc:376-379 | flushing only when the value written differs from mstatus in MPP, MPRV, SUM or MXR keeps coherence, although MPP is legalized afterwards |
| Execute.Processor.Step | riscv-isa-sim/riscv/execute.cc:106-265 | on every machine, the loop with instruction cache, chained dispatch and sentinels leaves hart and cache as the cached loop gives them; and if no hit is stale, the hart as fetching, executing and advancing one instruction at a time leaves it |
| Execute.CachedIsPlain | riscv-isa-sim/riscv/execute.cc:173-221 | on every machine, without a stale hit the loop that takes every instruction from the cache is the plain loop, and executes the same instructions |
| Execute.NoStaleRunIff | riscv-isa-sim/riscv/execute.cc:106-265 | over a whole call, on every machine and from every cache, the cached loop executes the same sequence of addresses and instructions as the plain one if and only if no hit is stale |
| Execute.CachedRunIsPlain | riscv-isa-sim/riscv/execute.cc:106-265 | a call without a stale hit ends in the state of the plain call |
| Execute.FencedRunIsPlain | riscv-isa-sim/riscv/mmu.cc:22-26 | a call in which whatever was fetched since the last flush is unchanged when it is reached again has no stale hit, ends in the state of the plain call, and leaves the cache ready for the next |
| Execute.Processor.FencedCall | riscv-isa-sim/riscv/execute.cc:106-116 | the same for a call that begins with a halt request |
| Execute.StaleBreaks | riscv-isa-sim/riscv/mmu.cc:22-26 | a program that stores over its own executed code and jumps back: with FENCE.I in between the cached loop does what the plain one does, without it the old instruction is executed again where the plain loop traps |
| Execute.Processor.Chain | riscv-isa-sim/riscv/execute.cc:202-218 | on every machine, falling through the cases while the next entry carries the next pc is the cached loop taken one instruction at a time, and a trap in the middle reports the faulting pc |
| Execute.Processor.FastPath | riscv-isa-sim/riscv/execute.cc:173-221 | on every machine, the cached branch is the cached loop, up to a sentinel, a trap, or the end of the budget |
| Execute.Processor.SlowLoop | riscv-isa-sim/riscv/execute.cc:141-172 | the debug branch is the loop with the single-step state machine and the way out into the debug ROM, and flushes the cache exactly when an instruction or debug entry does |
| Execute.Processor.AccessIcache | riscv-isa-sim/riscv/mmu.h:208-252 | a hit returns the entry of the address; a miss fetches, installs the entry in its place (untagged when traced), or reports the fetch trap and changes nothing |
| Execute.Processor.TagMatch | riscv-isa-sim/riscv/decode.h:222-226 | no sentinel can equal a tag, so a tag match is the entry of the pc |
| Execute.Processor.HandleSentinel | riscv-isa-sim/riscv/execute.cc:122-131 | serialize-before retries, serialize-after retires one, wait-for-interrupt retires one and ends the budget |
| Execute.Processor.TakeTrap | riscv-isa-sim/riscv/execute.cc:223-232 | a trap leaves single stepping for debug mode if the stepped instruction trapped, and flushes the cache except in debug mode |
| Execute.Processor.RunInner | riscv-isa-sim/riscv/execute.cc:141-221 | the choice between the debug branch and the cached branch leaves hart and cache as specified, on every machine |
| Execute.Processor.Round | riscv-isa-sim/riscv/execute.cc:117-264 | one pass ends the call in the specified state, or leaves hart and cache from which the rest of the call is the same, with a smaller measure |
| Execute.InnerProgress | riscv-isa-sim/riscv/execute.cc:117-264 | on every machine, the retired count never exceeds the budget left, and a pass that retires nothing clears a step or serializes: the loop terminates |
| Execute.PreciseTrap | riscv-isa-sim/riscv/execute.cc:223-226 | at a trap all earlier instructions have retired, the pc is the reported one, and the instruction there is the one that faults |
| Execute.RetiresExactly | riscv-isa-sim/riscv/execute.cc:262-263 | a run that executes no trap, WFI, debug-ROM entry, step or counter write adds exactly n to minstret, however often serialization interrupts it |
| ExecuteLaws.WaitEndsCall | riscv-isa-sim/riscv/execute.cc:119-131 | if the k-th instruction of a call waits for an interrupt, the call executes just these k, adds those that retire to minstret, and does the same with every larger budget |
| ExecuteLaws.CallCounts | riscv-isa-sim/riscv/execute.cc:119-131 | a call adds to minstret exactly the number of instructions executed that did not ask to be executed again |
| ExecuteLaws.CallBudget | riscv-isa-sim/riscv/execute.cc:117-264 | a call that ends by itself has retired its whole budget, or ends at an instruction that waits |
| ExecuteLaws.ThrowEndsCall | riscv-isa-sim/riscv/execute.cc:223-232 | a trap ends the call where the trap leads, or at the debug ROM with cause 4 if the instruction was being stepped |
| ExecuteLaws.OneStep | riscv-isa-sim/riscv/execute.cc:143-156 | a stepped call executes one instruction, and then the hart stands at 0x800 with cause 4, the rest of the budget being spent from there |
| ExecuteLaws.StepDone | riscv-isa-sim/riscv/execute.cc:143-156 | a step that used up its budget enters debug mode at the start of the next call, before anything is executed |
| ExecuteLaws.StepSerializes | riscv-isa-sim/riscv/execute.cc:143-156 | a stepped instruction that asks to be serialized is executed again |
| ExecuteLaws.StepGoesOn | riscv-isa-sim/riscv/execute.cc:143-156 | and the serialized hart executes it before it enters debug mode |
| ExecuteLaws.ParkedInRom | riscv-isa-sim/riscv/execute.cc:158-171 | on the debug branch an instruction that leads into the debug ROM parks the hart there, and nothing is counted |
| ExecuteLaws.HaltBegins | riscv-isa-sim/riscv/execute.cc:108-116 | a halt request has the call begin at 0x800 with cause 3, the halt bit of dcsr with cause 5 |
| ExecuteLaws.IcacheEntry | riscv-isa-sim/riscv/mmu.h:208-252 | a miss leaves the fetched instruction in entry pc / 2 mod 1024, tagged unless a tracer wants to see the address |
| ExecuteLaws.TrapEmptiesCache | riscv-isa-sim/riscv/processor.cc:245-258 | a trap empties the instruction cache, in debug mode only if it ends a step |
| Execute.PlainBudget | riscv-isa-sim/riscv/execute.cc:173-221 | the plain loop keeps instret <= n <= the budget it was given |
| Decoder.DecodingIsStable | riscv-isa-sim/riscv/processor.cc:720-747 | after any sequence of decodings every nonzero word decodes to the entry that a search of the original table finds |
| Decoder.StableForAllWordsIff | riscv-isa-sim/riscv/processor.cc:720-767 | for all words, zero included, decoding is independent of history if and only if the table gives zero the illegal-instruction functions |
| Decoder.MoveKeepsLookup | riscv-isa-sim/riscv/processor.cc:733-739 | moving an entry alone in its group to the front changes the result of no search |
| Decoder.MoveKeepsTableOk | riscv-isa-sim/riscv/processor.cc:733-739 | groups of equal match stay contiguous and the terminator last |
| Decoder.SortedFindsLargestMask | riscv-isa-sim/riscv/processor.cc:754-763 | in the sorted table the search finds the most specific entry among all that match |
| Decoder.DecodeStep | riscv-isa-sim/riscv/processor.cc:720-747 | one call returns the original entry and keeps the table and every cache line in agreement with it |
| Decoder.DecodeAgain | riscv-isa-sim/riscv/processor.cc:723-746 | a word just decoded is in line w mod 8191 of the cache: decoding it again gives the same and changes nothing |
| Decoder.FoundIsFirst | riscv-isa-sim/riscv/processor.cc:733-739 | an entry found alone in its group and not first is first afterwards, the others in their order |
| Decoder.InsnDecoder.DecodeInsn | riscv-isa-sim/riscv/processor.cc:720-747 | the in-place decoder returns the function of the original table, for 64-bit harts when xlen is 64 and for 32-bit ones otherwise, and keeps its invariant |
| Decoder.InsnDecoder.ShiftToFront | riscv-isa-sim/riscv/processor.cc:735-738 | the shifting loop is the move to front |
| Decoder.InsnDecoder.Search | riscv-isa-sim/riscv/processor.cc:728-731 | the scan stops at the first matching entry |
| CsrModel.ReachableInv | riscv-isa-sim/riscv/processor.cc:355-504 | from reset, any sequence of CSR writes, traps, returns, privilege changes, debug entries and exits keeps: prv and MPP never 2, SD exactly when FS or XS is 3, mie and mideleg and medeleg in their masks, misa within max_isa with D implying F, satp in a supported mode |
| CsrModel.SetCsrKeepsInv | riscv-isa-sim/riscv/processor.cc:355-560 | each CSR write keeps all these invariants, whatever value is written |
| CsrModel.NewMstatusBits | riscv-isa-sim/riscv/processor.cc:376-407 | bit by bit what a write leaves in mstatus: writable bits as written, MPP legalized, SD derived, UXL and SXL fixed, all others kept |
| CsrModel.Legalized | riscv-isa-sim/riscv/processor.cc:232-243 | with S and U supported only the reserved privilege changes, to U |
| CsrModel.SstatusWriteConfined | riscv-isa-sim/riscv/processor.cc:453-457 | a write of sstatus sets its own bits (XS only with an extension), leaves every other bit of mstatus but SD, and touches no other register |
| CsrModel.SieWriteConfined | riscv-isa-sim/riscv/processor.cc:462-464 | a write of sie sets exactly the delegated bits of mie |
| CsrModel.SipWriteConfined | riscv-isa-sim/riscv/processor.cc:458-461 | a write of sip sets at most SSIP, and only if delegated |
| CsrModel.SetCsrFlushes | riscv-isa-sim/riscv/processor.cc:376-379 | a CSR write after which the MMU would translate differently has flushed the TLB |
| CsrModel.NextFlushes | riscv-isa-sim/riscv/processor.cc:245-249 | so has every trap, return, privilege change, and entry to or exit from debug mode |
| CsrModel.ContextLegal | riscv-isa-sim/riscv/processor.cc:232-243 | every reachable state is a translation context that the MMU understands: a supported mode and legal privileges |
| CsrModel.MretUndoesTrap | riscv-isa-sim/riscv/processor.cc:306-319 | the stack a trap to M leaves is right: MRET after it restores the privilege, the pc and MIE, and every other bit of mstatus but MPIE and MPP |
| CsrModel.SretUndoesTrap | riscv-isa-sim/riscv/processor.cc:293-305 | the same for a trap to S and SRET |
| CsrModel.DretUndoesEntry | riscv-isa-sim/riscv/processor.cc:251-258 | leaving debug mode resumes at the pc and privilege at which it was entered, with every other register as before |
| CsrModel.ChoiceIsHighest | riscv-isa-sim/riscv/processor.cc:191-221 | the interrupt chosen is pending, enabled, of the most urgent nonempty class and lowest in it; abort is unreachable |
| CsrModel.DispatchAgrees | riscv-isa-sim/riscv/processor.cc:287-319 | take_trap sends the chosen interrupt to S exactly when the S pass selected it, to M when the M pass did, and never lowers the privilege |
| CsrModel.NoSecondInterrupt | riscv-isa-sim/riscv/processor.cc:191-221 | after the interrupt is taken, with mip and mie unchanged, none is raised again |
| CsrModel.TakeTrapKeepsInv | riscv-isa-sim/riscv/processor.cc:260-320 | a trap keeps the invariants and never lowers the privilege |
| CsrModel.MachineTrapSaves | riscv-isa-sim/riscv/processor.cc:306-319 | a trap to M saves MIE in MPIE, the privilege in MPP and the pc in mepc, and changes no other bit of mstatus |
| CsrModel.SupervisorTrapSaves | riscv-isa-sim/riscv/processor.cc:293-305 | a trap to S saves SIE, the privilege and the pc in its own fields and leaves the machine fields alone |
| CsrLaws.TrapDispatch | riscv-isa-sim/riscv/processor.cc:287-319 | every trap outside debug mode that does not break into it ends in S-mode if and only if it comes from U or S and the register for its kind, mideleg or medeleg, delegates it, and in M-mode otherwise; it writes cause, pc and value registers of that mode alone and goes to its handler, vectored or direct |
| CsrLaws.TrapStacks | riscv-isa-sim/riscv/processor.cc:294-318 | the previous enable bit and privilege in mstatus after the trap, bit by bit |
| CsrLaws.TrapInDebug | riscv-isa-sim/riscv/processor.cc:270-277 | in debug mode a trap changes the pc alone, to 0x800 for a breakpoint and 0x808 for all else |
| CsrLaws.TrapBreaks | riscv-isa-sim/riscv/processor.cc:279-285 | a breakpoint enters debug mode with cause 1 if the ebreak bit of the current privilege says so |
| CsrLaws.DebugEntry | riscv-isa-sim/riscv/processor.cc:251-258 | debug mode is entered at 0x800 in M-mode, with cause, privilege and pc saved and nothing else changed |
| CsrLaws.IntWrites | riscv-isa-sim/riscv/processor.cc:408-436 | which bits of the value mie, mip, mideleg and medeleg take, and that nothing else changes |
| CsrLaws.SatpWrite | riscv-isa-sim/riscv/processor.cc:465-474 | satp takes page number and mode if the mode is off, Sv39 or Sv48 (Sv32 always), and flushes in any case |
| CsrLaws.MisaWrite | riscv-isa-sim/riscv/processor.cc:485-504 | misa takes the supported ones of M, A, F, D and C, D only with F, unless C is given up at half a word |
| CsrLaws.DcsrWrite | riscv-isa-sim/riscv/processor.cc:543-552 | dcsr takes the privilege, step, halt and ebreak bits, and keeps its cause |
| CsrLaws.FloatWrites | riscv-isa-sim/riscv/processor.cc:363-375 | fcsr is fflags and frm in one, and each of the three marks the floating-point state dirty |
| CsrLaws.SupervisorTrapWrites | riscv-isa-sim/riscv/processor.cc:475-479 | sepc, stvec, scause and stval take the value without the bits that must be zero |
| CsrLaws.MachineTrapWrites | riscv-isa-sim/riscv/processor.cc:480-555 | so do mepc, mtvec, mcause, mtval and dpc |
| CsrLaws.ResetIs | riscv-isa-sim/riscv/processor.cc:127-136 | out of reset: M-mode at 0x1000, all extensions, no translation, no interrupts, and mstatus zero but for the width fields |
| CsrLaws.ReturnsReset | riscv-isa-sim/riscv/processor.cc:232-249 | what MRET and SRET leave: pc, privilege and enable bit from the stack, the previous enable bit set and the previous privilege U |
| CsrLaws.DirtyMarks | riscv-isa-sim/riscv/decode.h:169-170 | floating-point and extension state, once used, is marked dirty together with the summary bit |
| CsrLaws.MmuReads | riscv-isa-sim/riscv/mmu.cc:40-46 | which bits of mstatus the MMU reads, and as what |
| CsrLaws.SupervisorLoads | riscv-isa-sim/riscv/mmu.cc:193-205 | an S-mode load from a U page needs SUM, and from a page that cannot be read needs X and MXR |
| CsrFile.Processor.constructor | riscv-isa-sim/riscv/processor.cc:127-136 | reset leaves the hart in the reset state, where the invariants hold |
| CsrFile.Processor.SetCsr | riscv-isa-sim/riscv/processor.cc:355-560 | every write, of any value, keeps the legal ranges of all registers, flushes if the MMU could notice it, and ends in the state of the model |
| CsrFile.Processor.WriteCsr | riscv-isa-sim/riscv/processor.cc:355-560 | the in-place write ends in the state of the model, including the supervisor views that write through the machine registers |
| CsrFile.Processor.SetPrivilege | riscv-isa-sim/riscv/processor.cc:245-249 | flushes, sets the privilege with the reserved one turned into U, and keeps the invariants |
| CsrFile.Processor.TakeTrap | riscv-isa-sim/riscv/processor.cc:260-320 | the in-place trap never lowers the privilege, keeps the invariants, flushes if the MMU could notice it, and ends in the state of the model |
| CsrFile.Processor.TakePendingInterrupt | riscv-isa-sim/riscv/processor.h:324 | what is thrown is pending and enabled, outside debug mode, of the highest class and lowest in it; nothing is thrown only if nothing is enabled; abort is unreachable |
| CsrFile.Processor.TakeInterrupt | riscv-isa-sim/riscv/processor.cc:191-221 | the in-place selection makes the choice of the model |
| CsrFile.Processor.Ctz | riscv-isa-sim/riscv/processor.cc:182-189 | counts to the lowest set bit |
| CsrFile.Processor.EnterDebugMode | riscv-isa-sim/riscv/processor.cc:251-258 | records cause, privilege and pc, enters M at the debug ROM, and keeps the invariants |
| Encoding.JalRoundTrip | riscv-isa-sim/riscv/opcodes.h:16-24 | the word of jal matches its opcode and yields rd and the sign-extended even offset through the extractors |
| Encoding.LoadRoundTrip | riscv-isa-sim/riscv/opcodes.h:73-89 | lw, ld, flw and fld: opcode, rd, rs1 and the sign-extended offset survive |
| Encoding.StoreRoundTrip | riscv-isa-sim/riscv/opcodes.h:33-51 | sw, sd, fsw and fsd: opcode, rs1, rs2 and the split sign-extended offset survive |
| Encoding.CsrwRoundTrip | riscv-isa-sim/riscv/opcodes.h:109-112 | csrw: opcode, source, rd = 0 and the CSR number survive |
| Encoding.CsrrRoundTrip | riscv-isa-sim/riscv/opcodes.h:123-126 | csrr: opcode, rd, source 0 and the CSR number survive |
| Fields.FieldReadsBack | riscv-isa-sim/riscv/decode.h:182-183 | for every contiguous mask and fitting value, get_field after set_field gives the value, and the other bits are untouched |
| AbstractCommand.RequestMeets | riscv-isa-sim/riscv/debug_module.cc:500-629 | the word built from aarsize 2 or 3, postexec, transfer, write and a supported register number other than dscratch generates code that, on every hart, ends at the right exit with the requested register moved |
| AbstractCommand.NoRequestMoves | riscv-isa-sim/riscv/debug_module.cc:500-629 | with the transfer bit clear the code changes nothing, whatever register is named |
| AbstractCommand.RequestRefused | riscv-isa-sim/riscv/debug_module.cc:502-621 | every other transfer is not supported, or names a custom register from 0xc001 on |
| AbstractCommand.ReadValues | riscv-isa-sim/riscv/debug_module.cc:549-572 | a read leaves the register in the data words, low word first, and changes nothing else |
| AbstractCommand.WriteValues | riscv-isa-sim/riscv/debug_module.cc:549-572 | a write leaves data1 above data0, or data0 sign-extended, in the register and changes no other |
| AbstractCommand.FloatValues | riscv-isa-sim/riscv/debug_module.cc:573-604 | the same for floating-point registers, a single boxed in ones |
| AbstractCommand.KnownPrograms | riscv-isa-sim/riscv/opcodes.h:16-126 | eleven commands and their generated programs, word by word |
| AbstractCommand.CommandMeetsIff | riscv-isa-sim/riscv/debug_module.cc:500-629 | running the generated words moves exactly the requested register to or from the data words on every hart, restores S0, changes nothing else but dscratch, and ends at ebreak or the program buffer, if and only if the command does not reach dscratch through S0 |
| AbstractCommand.CommandMeets | riscv-isa-sim/riscv/debug_module.cc:500-629 | the same for one command and one hart |
| AbstractCommand.ClobberedCommandFails | riscv-isa-sim/riscv/debug_module.cc:514-547 | a hart on which accessing dscratch through S0 goes wrong |
| AbstractCommand.GoIff | riscv-isa-sim/riscv/debug_module.cc:502-621 | exactly the commands of size 2 or 3 on a CSR (with a small program buffer), a general or a floating-point register start the hart |
| AbstractCommand.GenerateFits | riscv-isa-sim/riscv/debug_module.h:126-127 | no command generates more than the five words there are |
| AbstractCommand.CsrPathRuns | riscv-isa-sim/riscv/debug_module.cc:514-547 | where the detour through S0 leaves the hart, register by register |
| AbstractCommand.RunPrefix | riscv-isa-sim/riscv/debug_module.cc:511-629 | stale words behind the generated ones are never reached |
| DebugModel.StepRefinesHandshake | riscv-isa-sim/riscv/debug_module.cc:144-784 | through busy, hartsel and the GO flags, every DMI operation and hart store is one event of a small handshake machine; a start needs an idle module |
| DebugModel.HandshakeKeptIff | riscv-isa-sim/riscv/debug_module.cc:144-784 | that a GO flag implies busy and the selected hart survives a step if and only if the step does not abandon a started hart |
| DebugModel.GoImpliesBusyKeptIff | riscv-isa-sim/riscv/debug_module.cc:180-196 | the same on the handshake machine |
| DebugModel.UndisturbedKeeps | riscv-isa-sim/riscv/debug_module.cc:144-784 | over every run in which the debugger keeps hartsel and the module on while busy, GO implies busy |
| DebugModel.BusyFallsAfterHandshake | riscv-isa-sim/riscv/debug_module.cc:180-196 | in such a run, busy falls after a start only once there was a store to GOING and, later, the selected hart's store to HALTED |
| DebugModule.EveryStartIsAnswered | riscv-isa-sim/riscv/debug_module.cc:144-784 | from a new module, over every undisturbed run: after any step that starts a hart, the module is idle again only once there was a store to GOING and, later, the HALTED store of the hart then selected |
| DebugModel.StartIsAnswered | riscv-isa-sim/riscv/debug_module.cc:144-784 | the same from any state in the invariant |
| DebugModel.BusyFallsAfterHalted | riscv-isa-sim/riscv/debug_module.cc:180-191 | after GOING only the selected hart's HALTED ends the command |
| DebugModel.BusyFreezesMemory | riscv-isa-sim/riscv/debug_module.cc:312-341 | while busy, no DMI operation changes the data words, the program buffer or the generated code |
| DebugModel.ErrorBlocks | riscv-isa-sim/riscv/debug_module.cc:491-498 | a nonzero cmderr stays and starts nothing, except for a write of abstractcs or a reset of the module |
| DebugModel.ErrorBlocksRun | riscv-isa-sim/riscv/debug_module.cc:491-498 | the same over whole runs: no GO flag is raised and busy can only fall |
| DebugModel.AcknowledgedBits | riscv-isa-sim/riscv/debug_module.cc:719-721 | a write of abstractcs clears exactly the error bits written as one |
| DebugModel.StartedCodeDoesAsAsked | riscv-isa-sim/riscv/debug_module.cc:491-633 | whatever step starts a hart, the bytes it then fetches do what the command in force asks for |
| DebugModel.WheretoLandsOnCode | riscv-isa-sim/riscv/debug_module.cc:48-49 | the jump at debug_rom_whereto lands on the first generated word |
| DebugModel.EbreakKept | riscv-isa-sim/riscv/debug_module.cc:35-45 | no DMI operation can overwrite the implicit ebreak behind the program buffer |
| DebugModel.ReadWrite | riscv-isa-sim/riscv/debug_module.cc:218-235 | read32 gives back what write32 wrote and sees no neighbouring word change |
| DebugModel.WrittenWords | riscv-isa-sim/riscv/debug_module.cc:511-629 | after the generator has written its words, each is read back and the rest of the buffer is as before |
| DebugModel.ControlReadsBack | riscv-isa-sim/riscv/debug_module.cc:344-359 | dmcontrol reads back as written, with the ten hartsel bits that are kept |
| DebugModel.StatusReadsBack | riscv-isa-sim/riscv/debug_module.cc:413-419 | abstractcs shows busy, cmderr and the sizes |
| DebugModel.AutoexecReadsBack | riscv-isa-sim/riscv/debug_module.cc:723-728 | abstractauto reads back its two fields |
| DebugModel.DataReadsBack | riscv-isa-sim/riscv/debug_module.cc:648-660 | a data word written while idle reads back, its neighbour unchanged |
| DebugLaws.DataStoreShows | riscv-isa-sim/riscv/debug_module.cc:169-172 | the bytes that a hart stores into the data words are what data0 and data1 show once the module is idle, and no other byte changes |
| DebugLaws.ProgbufStoreShows | riscv-isa-sim/riscv/debug_module.cc:174-178 | the same for the program buffer |
| DebugLaws.OtherStoreShows | riscv-isa-sim/riscv/debug_module.cc:144-216 | any other store changes no memory |
| DebugLaws.ReadCommandReturns | riscv-isa-sim/riscv/debug_module.cc:144-638 | end to end: after the command word for reading a general register, and the selected hart's stores to GOING, of the code's data, and to HALTED, the module is idle without an error and data0 and data1 read as the register |
| DebugLaws.RequestStarts | riscv-isa-sim/riscv/debug_module.cc:491-638 | a supported request to an idle module with a halted hart selected starts that hart on code that does what was asked |
| DebugLaws.CommandErrors | riscv-isa-sim/riscv/debug_module.cc:491-512 | the error that abstractcs shows after a command, by the first reason that applies: an earlier error, busy, another kind of command, a running hart, an unsupported register or size |
| DebugLaws.BusyRefuses | riscv-isa-sim/riscv/debug_module.cc:317-341 | while busy the data registers and the program buffer read as ones and cannot be written; only the data registers count it as an error |
| DebugLaws.DataAutoexec | riscv-isa-sim/riscv/debug_module.cc:648-660 | an access to data register i runs the last command again if bit i of abstractauto was set |
| DebugLaws.ProgbufAutoexec | riscv-isa-sim/riscv/debug_module.cc:662-671 | an access to program buffer word i does so by bit 16 + i |
| DebugLaws.CustomReadsBack | riscv-isa-sim/riscv/debug_module.cc:603-615 | custom registers hold consecutive numbers: if one is set to its number plus x, each reads as its own number plus x |
| DebugLaws.HartBits | riscv-isa-sim/riscv/debug_module.cc:144-711 | after any step a hart is halted, has its resume flag and its acknowledgement exactly as its reports at 0x100 and 0x108, its resets and the resume requests say |
| DebugLaws.HaltedHasReported | riscv-isa-sim/riscv/debug_module.cc:180-191 | over every run, a hart that has become halted has stored its number to HALTED |
| DebugLaws.ResumeIsAnswered | riscv-isa-sim/riscv/debug_module.cc:198-204 | over every run, a resume request stands unacknowledged until the hart itself stores its number to RESUMING |
| DebugLaws.HaltRequested | riscv-isa-sim/riscv/debug_module.cc:677-697 | a write of dmcontrol sets the halt request of the selected hart to bit 31, which reads back, and leaves the others unless it switches the module on |
| DebugLaws.HaltreqShows | riscv-isa-sim/riscv/debug_module.cc:346-350 | dmcontrol shows the halt request of the selected hart as it stands now |
| DebugLaws.HaveReset | riscv-isa-sim/riscv/debug_module.cc:691-711 | havereset of a hart is set by each of its resets and cleared by an acknowledgement |
| DebugLaws.ActivationClears | riscv-isa-sim/riscv/debug_module.cc:61-97 | switching the module on clears errors, busy and autoexec and touches no memory |
| DebugLaws.ExceptionReported | riscv-isa-sim/riscv/debug_module.cc:206-211 | a store to EXCEPTION is error 3 unless there is one already |
| DebugLaws.ErrorsAcknowledged | riscv-isa-sim/riscv/debug_module.cc:719-721 | abstractcs reads without the error bits written as one |
| DebugLaws.ProgbufReadsBack | riscv-isa-sim/riscv/debug_module.cc:662-671 | a program buffer word written while idle reads back, the others unchanged |
| DebugLaws.ReadsAreQuiet | riscv-isa-sim/riscv/debug_module.cc:343-489 | reading any other register changes nothing but the copy of the halt request |
| DebugModule.InitialInOrder | riscv-isa-sim/riscv/debug_module.cc:20-54 | a new module is in the invariant and its program buffer is closed |
| DebugModule.InitialIsQuiet | riscv-isa-sim/riscv/debug_module.cc:20-54 | a new module is idle, off and without an error, its data words are zero, and no hart is halted, reset or asked to do anything |
| DebugModule.DebugModule.constructor | riscv-isa-sim/riscv/debug_module.cc:20-54 | the arrays start zeroed, apart, with the implicit ebreak in place |
| DebugModule.DebugModule.Reset | riscv-isa-sim/riscv/debug_module.cc:61-97 | reset clears control, status and halt requests and no memory, flag or halted bit |
| DebugModule.DebugModule.PerformAbstractCommand | riscv-isa-sim/riscv/debug_module.cc:491-638 | the in-place command ends in the state of the model, words emitted before an error included |
| DebugModule.DebugModule.EmitCode | riscv-isa-sim/riscv/debug_module.cc:500-629 | writing word by word leaves exactly the planned words in debug_abstract |
| DebugModule.DebugModule.DmiRead | riscv-isa-sim/riscv/debug_module.cc:312-489 | state and value of a DMI read, autoexec included |
| DebugModule.DebugModule.DmiWrite | riscv-isa-sim/riscv/debug_module.cc:640-784 | state after a DMI write, autoexec, hart selection and resets included |
| DebugModule.DebugModule.Store | riscv-isa-sim/riscv/debug_module.cc:144-216 | state after a hart's store, and whether anything is there |
| DebugModule.DebugModule.ResetHart | riscv-isa-sim/riscv/debug_module.cc:786-790 | a reset hart has reset and is not halted |
| CacheModel.AccessRefines | riscv-isa-sim/riscv/cachesim.cc:103-179 | each access of the array cache and of the map cache is a step of one abstract cache with some legal victim, requests to the next level and counters included |
| CacheModel.HitIffResident | riscv-isa-sim/riscv/cachesim.cc:103-113 | check_tag finds an entry exactly when the line is resident |
| CacheModel.AbsAccessCapacity | riscv-isa-sim/riscv/cachesim.cc:115-122 | no set ever holds more lines than ways, and the accessed line is resident afterwards |
| CacheModel.FoundAfterVictimize | riscv-isa-sim/riscv/cachesim.cc:152-153 | the second lookup of a store never fails |
| CacheModel.LfsrNonzero | riscv-isa-sim/riscv/cachesim.h:17 | the random register never gets stuck at zero |
| CacheModel.TagBits | riscv-isa-sim/riscv/cachesim.h:36-37 | with lines of at least eight bytes the VALID and DIRTY bits are free in every tag |
| CacheModel.RequestsMatch | riscv-isa-sim/riscv/cachesim.cc:141-150 | a dirty victim is written back at exactly its own line address before the missing line is read |
| CacheRuns.NoStoreLost | riscv-isa-sim/riscv/cachesim.cc:124-154 | after any run of an initially empty cache, the lines with an unwritten store are exactly the dirty resident ones; every other stored line has been written back |
| CacheRuns.RunKeepsStores | riscv-isa-sim/riscv/cachesim.cc:124-154 | the same from any sound state |
| CacheRuns.StepKeepsStores | riscv-isa-sim/riscv/cachesim.cc:124-154 | one access keeps dirty exactly what is owed and writes back only owed lines |
| CacheRuns.AccessCounters | riscv-isa-sim/riscv/cachesim.cc:126-150 | each of the seven counters after an access: reads and writes, their bytes, their misses exactly when the line is not resident, and each dirty line written back |
| CacheRuns.SecondLevelSeesMisses | riscv-isa-sim/riscv/cachesim.h:96-122 | over every run of an I$ and a D$ before one L2, L2 reads are the misses of both, L2 writes the writebacks of the D$, and the I$ writes nothing |
| CacheRuns.TracesRouted | riscv-isa-sim/riscv/cachesim.h:96-122 | fetches go to the I$ as reads, loads and stores to the D$, and only stores count as writes |
| CacheRuns.TrafficBalances | riscv-isa-sim/riscv/cachesim.h:96-122 | the same from three empty caches of any kind and shape |
| CacheRuns.AccessCounts | riscv-isa-sim/riscv/cachesim.cc:126-150 | the counters of an access follow from the requests it sends |
| CacheSim.CacheSim.AccessCache | riscv-isa-sim/riscv/cachesim.cc:124-154 | the in-place access brings this cache and every miss handler behind it to the specified states |
| CacheSim.CacheSim.Replace | riscv-isa-sim/riscv/cachesim.cc:115-122 | victimize returns the word replaced and installs a clean tag, in the array or the map |
| CacheSim.CacheSim.CheckTagAt | riscv-isa-sim/riscv/cachesim.cc:103-113 | the loop over ways finds the entry of the model |
| CacheSim.CacheSim.Advance | riscv-isa-sim/riscv/cachesim.cc:173-174 | stepping n keys from the first gives the n-th least key |
| CacheSim.CacheSim.constructor | riscv-isa-sim/riscv/cachesim.cc:40-61 | a new cache is empty, with zero counters and no miss handler |
| CacheSim.CacheSim.ShiftOf | riscv-isa-sim/riscv/cachesim.cc:47-49 | the loop finds the exponent of the line size |
| CacheSim.PowerOfTwoTest | riscv-isa-sim/riscv/cachesim.cc:42-45 | the test `x & (x - 1)` accepts exactly the powers of two |
| MulHi.Mulhu | riscv-isa-sim/riscv/mulhi.h:8-27 | mulhu is floor(a * b / 2^64) |
| MulHi.SumsFit | riscv-isa-sim/riscv/mulhi.h:15-22 | the three partial sums stay below 2^64, and the third is the high word |
| MulHi.AddUp | riscv-isa-sim/riscv/mulhi.h:15-26 | the wrapped sums, put together from their halves, are the high word of the product |
| MulHi.Mulh | riscv-isa-sim/riscv/mulhi.h:29-34 | mulh is the floored high half for all signed inputs, the minimum included |
| MulHi.Mulhsu | riscv-isa-sim/riscv/mulhi.h:36-41 | mulhsu likewise with an unsigned second factor |
| MulHi.NegateIs | riscv-isa-sim/riscv/mulhi.h:33 | `~res + (low == 0)` is the floored high half of the negated product |
| Jtag.ScanIsQueue | riscv-isa-sim/riscv/jtag_dtm.cc:74-116 | a scan of either register is a queue: after any pulses that stay in it, with any pauses, TDO has shown the first bits of captured-then-shifted and the register holds the last ones |
| Jtag.FullScan | riscv-isa-sim/riscv/jtag_dtm.cc:74-116 | with exactly the register length of shifts, all captured bits came out lowest first and the register equals the bits put in |
| Jtag.DbusTransaction | riscv-isa-sim/riscv/jtag_dtm.cc:150-184 | forty bits shifted in make exactly one request, with their operation, address and data, at update, and status and value of the answer are in dmi |
| Jtag.AnswerComesOut | riscv-isa-sim/riscv/jtag_dtm.cc:127-184 | what one transaction asked for comes out on TDO, lowest bit first, while the next one is shifted in, after any wait, and shifting asks for nothing more |
| Jtag.CaptureShows | riscv-isa-sim/riscv/jtag_dtm.cc:127-148 | on the way from an update to the next capture nothing is asked for, and the capture shows dmi with its full length |
| Jtag.IdcodeComesOut | riscv-isa-sim/riscv/jtag_dtm.cc:127-133 | after a reset of the controller the first scan of the data register shows 0xdeadbeef |
| Jtag.ReadOnlyScan | riscv-isa-sim/riscv/jtag_dtm.cc:127-139 | a scan of IDCODE shows 0xdeadbeef and one of DTMCONTROL 0x61, in 32 bits, and asks for nothing |
| Jtag.Ways | riscv-isa-sim/riscv/jtag_dtm.cc:55-72 | the ways through the state diagram of IEEE 1149.1, to the data register, through a pause and out |
| Jtag.ColumnsAlike | riscv-isa-sim/riscv/jtag_dtm.cc:55-72 | the instruction column works like the data column |
| Jtag.FiveOnesReset | riscv-isa-sim/riscv/jtag_dtm.cc:55-72 | five or more clocks with TMS high reset the controller from any state and select IDCODE |
| Jtag.ShiftBits | riscv-isa-sim/riscv/jtag_dtm.cc:78-85 | one shift takes the first bit out of the queue and appends TDI |
| Jtag.RiseKeepsValid | riscv-isa-sim/riscv/jtag_dtm.cc:127-148 | register contents always fit the length captured, and the length matches the selected register at update |
| Jtag.JtagDtm.SetPins | riscv-isa-sim/riscv/jtag_dtm.cc:54-125 | the in-place pin change acts on a rising edge with the TMS and TDI of the call before |
| Jtag.JtagDtm.UpdateDr | riscv-isa-sim/riscv/jtag_dtm.cc:150-184 | dmi after an update, for reads, writes, failures and no-operations |
| Jtag.JtagDtm.CaptureDr | riscv-isa-sim/riscv/jtag_dtm.cc:127-148 | what each instruction captures, others leaving the register alone; `Jtag.AnswerComesOut` says what a captured answer shows |
| Scheduler.Sim.Step | riscv-isa-sim/riscv/sim.cc:108-128 | however steps are split into calls, their total alone gives current_step, current_proc, what each hart was granted, how often it gave up its load reservation and the number of timer ticks |
| Scheduler.Sim.Slice | riscv-isa-sim/riscv/sim.cc:112-123 | one pass of the loop advances the closed form, the yield at the end of a turn included |
| Scheduler.GrantsAddUp | riscv-isa-sim/riscv/sim.cc:108-128 | the grants of all harts add up to the steps asked for |
| Scheduler.GrantsFair | riscv-isa-sim/riscv/sim.cc:112-117 | no hart is more than one turn ahead of another |
| Scheduler.InNumbers | riscv-isa-sim/riscv/sim.h:63-64 | position, grants and turns after r rounds, p turns and k steps, with turns of 5000 steps and 50 timer ticks a round |
| ClintModel.TickedTime | riscv-isa-sim/riscv/clint.cc:64-72 | after k ticks mtime has grown by their sum modulo 2^64, and each timer interrupt is pending exactly when mtime >= mtimecmp |
| ClintModel.CompareReadsBack | riscv-isa-sim/riscv/clint.cc:53-54 | bytes stored to the compare registers are loaded back, at any alignment and length |
| ClintModel.CompareDoubleword | riscv-isa-sim/riscv/clint.cc:53-54 | an aligned eight-byte store sets one compare register and no other |
| ClintModel.CompareWord | riscv-isa-sim/riscv/clint.cc:53-54 | a four-byte store replaces the low or the high half of one compare register |
| ClintModel.SoftwareInterrupt | riscv-isa-sim/riscv/clint.cc:42-52 | a store of a word to one software interrupt register raises or clears that hart's interrupt alone, and loads back as its lowest bit |
| ClintModel.TimeReadsBack | riscv-isa-sim/riscv/clint.cc:55-56 | bytes stored to the time register load back, the others of its eight unchanged |
| ClintModel.Store | riscv-isa-sim/riscv/clint.cc:40-62 | after every successful store the timer interrupts are right |
| ClintModel.Increment | riscv-isa-sim/riscv/clint.cc:64-72 | after every increment the timer interrupts are right |
| Clint.Clint.Store | riscv-isa-sim/riscv/clint.cc:40-62 | the in-place store ends in the state of the model, or fails and changes nothing |
| Clint.Clint.Increment | riscv-isa-sim/riscv/clint.cc:64-72 | the loop over harts ends in the state of the model |

## Left out

Deliberate limits of what is modelled:

- Hardware triggers: matching, chaining and NAPOT masks are not modelled; the TLB_CHECK_TRIGGERS bit of the tags is.
- Sv57 and Sv64: `decode_vm_info` knows them, but no write of satp can select them.
- Hardware A/D updates (`RISCV_ENABLE_DIRTY`) and misaligned accesses (`RISCV_ENABLE_MISALIGNED`): the default build has neither.
- Page tables and `addr_to_mem` may change at any time, but a page whose cached entry a change outdates is not accessed before the next flush: a hart must execute SFENCE.VMA first.
- Tlb.TlbInvisible: assumes that MPRV does not split fetches and data accesses; `Tlb.InvisibleIff` shows that this is necessary.
- Mmu.Mmu.SlowPath: where the bytes are is modelled, not the bytes moved; trigger matches and the exceptions they raise are left out.
- Mmu.Mmu.Touch: the same, and memory tracers are a predicate on pages.
- Mmu.Mmu.FlushTlb: the flush of the instruction cache in the same function is `Execute.Processor.FlushIcache`.
- Mmu.Mmu.FlushAndSwitch: takes the new mode as an argument; which register write leads to which mode is `CsrModel`, and `Translation` joins the two.
- Instruction bodies: `execute` is any function; only the words the debug module emits have their ISA meaning.
- Execute.Processor.Step: a call is not described if it executes an instruction that breaks `Execute.Regular`: an odd result that is no sentinel, where the source aborts, or a request to serialize first that has had an effect or comes a second time; commit log, histogram, instruction tracking, disassembly and triggers are not part of the loop modelled.
- `std::sort` is taken to sort: `Decoder` starts from a table in the order of the comparison.
- Dynamic extension loading and `parse_isa_string` are not modelled; what they guarantee about max_isa is `CsrModel.ConfigOk`.
- CSRs without side conditions (counters, scratch registers, counter enables, trigger registers) and `get_csr` are not modelled.
- CsrModel.ReachableInv: MRET, SRET and DRET are operations written after the privileged architecture, as the files in `insns/` are not part of this model.
- AbstractCommand.CommandMeetsIff: CSRs are plain storage, a hart is 64 bits wide, and the only memory is the data words.
- DebugModule.DebugModule.constructor: the jump at debug_rom_whereto is the subject of `DebugModel.WheretoLandsOnCode` and not part of the state, nor are the status registers.
- DebugModule.DebugModule.DmiWrite: writes of the system bus and authentication registers are not modelled.
- DebugModule.DebugModule.DmiRead: dmstatus, hartinfo, the system bus registers and authentication are not modelled; the module is always authenticated.
- DebugModule.DebugModule.Store: hart numbers outside the 1024 that the arrays hold are excluded, as are program buffers above the 16 words of the debug specification.
- Loads from the debug module by harts, and the debug ROM image, are not modelled.
- Cache counters are unbounded naturals; the copy constructor and the configuration parser of the cache simulator are not modelled.
- `construct` chooses the map cache for one set and more than four ways; the models cover both kinds at every size.
- Jtag.JtagDtm.UpdateDr: the debug module is any function from the requests so far and the new one to its answer.
- Scheduler.Sim.Step: what a hart does with its grant, stores to the CLINT in the middle of one included, and the switch to the host thread are not modelled; giving up a load reservation is counted.
- ClintModel.CompareReadsBack: stated for the compare registers; the software interrupt words keep only their lowest bit.
- Single-width integers of the host (`size_t`, `unsigned`) are modelled as unbounded where no wrap-around can occur.
- HTIF, device trees, the interactive console, remote bitbang, xspike and softfloat are not modelled.
