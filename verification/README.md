# A verified model of the RA8D1 emulator

This project models seven parts of a RISC-V emulator that boots Linux on a microcontroller, and proves what each
is for:

* **Soft floating point** (`powers`, `jamming`, `rounding`, `softformat`, `roundpack`, `normalize`, `operands`,
  `addition`, `wordarith`, `multiplicative`, `squareroot`, `fma`, `convert`, `representable`, `ieee`, `ieeeops`).
  Words are naturals and a format is a pair of mantissa and exponent sizes, so every theorem holds for the 32- and
  the 64-bit instance alike. The reference is IEEE 754-2019, sections 4.3 and 7, over exact real values: `Delivers`
  says which word a value rounds to, `Raised` which flags it raises, and neither mentions the code;
  `Ieee.RoundsCorrectly` proves that they say what the standard asks for by the order of the reals alone, ties,
  infinities and flags included. The notion the proofs turn on is a *jammed* mantissa: an integer that compares with
  every multiple of 2^g as the exact value does.
* **Memory management** (`pagewalk`, `archwalk`, `bytewise`, `tlbcache`, `softmmu`). The page walk is a function of
  guest RAM that also says what it writes back. The three translation caches with their fast and slow paths are a
  class that keeps an append-only history of RAM since the last flush; its methods are tied to functions of one
  cache and that history, and those to the walk, byte by byte. `archwalk` compares the walk with section 4.3.2 of
  the RISC-V Privileged Architecture v1.12, written out from the bits of the entries.
* **Fetch and privilege** (`interp`, `privilege`). The block fetch loop with its cycle accounting, and the traps and
  control registers from the S-mode boot state on.
* **The image pusher** (`pusher`, `pushsucceeds`). Two threads over two buffers and NOR flash, as atomic steps in
  any order, with write failures, timeouts and power loss.
* **Virtio** (`virtqueue`, `virtlayout`, `virtioblk`, `virtionet`, `virtdriver`, `plic`). Descriptor chains, rings,
  the block and the network device over one guest RAM, whole runs of them with any conforming driver, after sections
  2.7, 4.2 and 5.2 of VIRTIO 1.2, and the interrupt controller.
* **Devicetree** (`fdtformat`, `fdtwriter`, `fdttree`, `fdtmachine`, `fdtguest`). The writer, against a parser for
  chapter 5 of the Devicetree Specification v0.4, and what a guest reads off the tree.
* **Telnet console** (`spsc`, `telnet`). The lock-free ring under every interleaving of its two threads, and the RFC
  854 filter and escaping.

Objects whose methods update fields are classes; arithmetic that reassigns locals is methods with loops, proved
against functions; the pusher and the ring, which are two threads each, are state machines.

Where the code and its documentation differ, the model follows the code: the walk lets SUM reach a fetch, accepts a
misaligned superpage and drops page-number bits past 32 (`ArchWalk.WalkIsArchitectural` says exactly when that shows);
the block device takes a sector number times 512 modulo 2^64 (`VirtioBlk.SectorInRange`); the narrowing float
conversion leaves a subnormal unnormalised (`Convert.Narrow` proves that this never shows); a transmit descriptor whose
length wraps a 32-bit sum is not cut but fails (`VirtioNet.FrameIsPayload` says exactly when, and
`VirtioNet.WrappingSendsNothing` shows one); the root's iteration misses or aborts on some dividends with a nonzero low
word, which its caller never passes (`WordArith.SqrtremU` says exactly which); a telnet client that answers the greeting
with DO is answered WILL once more, because the greeting does not count as an announcement
(`Telnet.SessionAnnounces`).

## Model

| member | source | states |
|---|---|---|
| RoundPack.RshiftRnd | ra8d1-tinyemu/emu/softfp_template.h:93-105 | the shift with a sticky bit is the jamming shift, for every distance |
| Jamming.JamRight | ra8d1-tinyemu/emu/softfp_template.h:93-105 | a sticky shift of a jammed integer is a jammed integer of the shifted value |
| Jamming.FloorJam | ra8d1-tinyemu/emu/softfp_template.h:396-397 | a floor with a bit for what was lost stands for the exact value against every even integer |
| Rounding.RoundingIsExact | ra8d1-tinyemu/emu/softfp_template.h:114-155 | addend, shift and the tie to even round the jammed integer as the exact value rounds, in all five modes, and the dropped bits are zero exactly when nothing is lost; what that rounding means is `Ieee.RoundsCorrectly` |
| RoundPack.OverflowTest | ra8d1-tinyemu/emu/softfp_template.h:158-173 | the exponent test after the carry is overflow of the exact value |
| RoundPack.TinyTest | ra8d1-tinyemu/emu/softfp_template.h:135-145 | the subnormal test is tininess after rounding of the exact value |
| RoundPack.RoundPackSf | ra8d1-tinyemu/emu/softfp_template.h:107-175 | for every value the mantissa stands for: the word is its correct rounding through subnormals, carry-out and overflow, and exactly the due flags are raised |
| Normalize.NormalizeSf | ra8d1-tinyemu/emu/softfp_template.h:177-187 | the same for any mantissa of at most F_SIZE - 1 bits |
| Normalize.Normalize2Sf | ra8d1-tinyemu/emu/softfp_template.h:189-213 | the same for a mantissa of two words |
| Representable.RoundingRepresentable | ra8d1-tinyemu/emu/softfp_template.h:107-175 | a value that is a word rounds to that word, without flags |
| Representable.DeliveredIsBest | ra8d1-tinyemu/emu/softfp_template.h:107-175 | no finite word lies better for the rounding mode than the one delivered: the reference says what IEEE 754 means |
| Ieee.RoundsCorrectly | ra8d1-tinyemu/emu/softfp_template.h:107-175 | the reference in terms of the order of the reals: to nearest, no number is nearer, and of two equally near the one with an even significand or the one away from zero is taken; an infinity exactly from half a unit past the largest number on; directed, the first number on that side; overflow, underflow and inexact exactly when the value says so |
| Ieee.LargestIs | ra8d1-tinyemu/emu/softfp_template.h:163-171 | the word delivered toward zero on overflow is the largest finite one, (2 - 2^-mant) * 2^bias |
| Ieee.OverflowsWhen | ra8d1-tinyemu/emu/softfp_template.h:158-173 | overflow by the value alone: from the largest number, half a unit or a unit past it on, or from the next power of two, as the mode says |
| Ieee.TinyWhen | ra8d1-tinyemu/emu/softfp_template.h:135-145 | tininess after rounding by the value alone |
| IeeeOperations.SumMeans | ra8d1-tinyemu/emu/softfp_template.h:234-290 | every pair of words: a quiet NaN, invalid exactly for a signalling operand or opposite infinities; the infinity; or the exact sum correctly rounded, with the sign of a zero sum |
| IeeeOperations.DifferenceMeans | ra8d1-tinyemu/emu/softfp_template.h:292-296 | of finite words, the exact difference correctly rounded, with the sign of a zero one |
| IeeeOperations.ProductMeans | ra8d1-tinyemu/emu/softfp_template.h:349-399 | the same for the product, invalid for infinity times zero |
| IeeeOperations.QuotientMeans | ra8d1-tinyemu/emu/softfp_template.h:589-653 | the same for the quotient, with division by zero and the zero quotient by an infinity |
| IeeeOperations.RootMeans | ra8d1-tinyemu/emu/softfp_template.h:720-767 | the real square root correctly rounded; negative operands, zeros and infinity |
| IeeeOperations.FusedMeans | ra8d1-tinyemu/emu/softfp_template.h:401-552 | one correct rounding of the exact a * b + c, the special operands one by one |
| IeeeOperations.ConversionMeans | ra8d1-tinyemu/emu/softfp_template.h:945-1010 | a conversion to another format is the correctly rounded value |
| IeeeOperations.ToIntMeans | ra8d1-tinyemu/emu/softfp_template_icvt.h:38-108 | the integer nearest or next in the mode, inexact exactly if it is another number; out of range the end of the range on that side and invalid alone |
| IeeeOperations.QuietNaNIs | ra8d1-tinyemu/emu/softfp_template.h:76 | the NaN delivered is a NaN and quiet |
| IeeeOperations.SingleMeans | ra8d1-tinyemu/emu/softfp_template.h:27-51 | the 32-bit encoding in numbers: sign, exponent and mantissa fields, NaNs, signalling NaNs, infinities, zeros, and the value |
| Operands.IssignanSf | ra8d1-tinyemu/emu/softfp_template.h:215-222 | the one comparison holds exactly of NaNs whose quiet bit is clear |
| Operands.NormalizeSubnormalSf | ra8d1-tinyemu/emu/softfp_template.h:298-304 | the value is kept and the hidden bit ends in its place |
| Operands.UnpackNonzero | ra8d1-tinyemu/emu/softfp_template.h:440-445 | exponent and mantissa stand for the exact magnitude of the word |
| Addition.AddOrdered | ra8d1-tinyemu/emu/softfp_template.h:246-289 | the sum of two finite words, the larger first, is correctly rounded from the exact sum, with exact flags and the sign of a zero sum |
| Addition.SumCommutes | ra8d1-tinyemu/emu/softfp_template.h:240-245 | a correct sum of a and b is a correct sum of b and a, special values included, so the swap is sound |
| Addition.AddSf | ra8d1-tinyemu/emu/softfp_template.h:234-290 | every pair of words: the correctly rounded exact sum, or the infinity, NaN and invalid flag the standard asks for |
| Addition.SubSf | ra8d1-tinyemu/emu/softfp_template.h:292-296 | the correctly rounded exact difference |
| Operands.NegatedValue | ra8d1-tinyemu/emu/softfp_template.h:292-296 | flipping the sign bit negates the value and nothing else |
| WordArith.MulU | ra8d1-tinyemu/emu/softfp_template.h:318-343 | four half-word products and their columns are the exact double-word product |
| WordArith.DivideStep | ra8d1-tinyemu/emu/softfp_template.h:571-583 | one turn keeps quotient bits, remainder and undivided tail equal to the dividend |
| WordArith.ShiftedRemainder | ra8d1-tinyemu/emu/softfp_template.h:573-581 | with the bit carried out of the word taken into account, the wrapping subtraction is the exact one |
| WordArith.DivremU | ra8d1-tinyemu/emu/softfp_template.h:566-585 | exact quotient and remainder of a double word, for all words with a1 < b |
| WordArith.NewtonStep | ra8d1-tinyemu/emu/softfp_template.h:705-711 | a step never falls below the root, and stops descending only at it |
| WordArith.EstimateBounds | ra8d1-tinyemu/emu/softfp_template.h:705-708 | every estimate meets the division's precondition, and its sum with the quotient fits a word but for the greatest dividend, where it is one too many |
| WordArith.SqrtremU | ra8d1-tinyemu/emu/softfp_template.h:689-716 | for every two-word dividend whose first estimate is a word: the loop ends at the floor of the square root if and only if it does not start low, which takes a high word that is an even power of two; inexact is exact; and the assertion of the division fails exactly where a sum wraps |
| WordArith.RootTooLow | ra8d1-tinyemu/emu/softfp_template.h:689-716 | a 32-bit dividend with a nonzero low word whose root it misses |
| WordArith.RootAborts | ra8d1-tinyemu/emu/softfp_template.h:689-716 | a 32-bit dividend on which the assertion of the division fails |
| Multiplicative.MulNonzero | ra8d1-tinyemu/emu/softfp_template.h:380-398 | the correctly rounded exact product |
| Multiplicative.MulSf | ra8d1-tinyemu/emu/softfp_template.h:349-399 | every pair of words: product, zeros with their sign, infinities, NaNs, invalid |
| Multiplicative.DivNonzero | ra8d1-tinyemu/emu/softfp_template.h:637-652 | the correctly rounded exact quotient |
| Multiplicative.DivSf | ra8d1-tinyemu/emu/softfp_template.h:589-653 | every pair of words: quotient, division by zero, infinities, NaNs, invalid |
| SquareRoot.RootJams | ra8d1-tinyemu/emu/softfp_template.h:763-766 | the integer root with its inexact bit compares as the real root does |
| SquareRoot.TrueRootIsRootLike | ra8d1-tinyemu/emu/softfp_template.h:763-766 | what stands for the root in the theorems below is the real square root, if there is one |
| SquareRoot.SqrtPositive | ra8d1-tinyemu/emu/softfp_template.h:749-766 | the correctly rounded square root of every positive finite word |
| SquareRoot.SqrtSf | ra8d1-tinyemu/emu/softfp_template.h:720-767 | every word: roots, zeros, infinity, NaNs, invalid for negatives |
| Fma.AlignRight | ra8d1-tinyemu/emu/softfp_template.h:501-516 | the four cases of the two-word shift, as one function of the distance |
| Fma.DroppedWordJam | ra8d1-tinyemu/emu/softfp_template.h:506-508 | dropping the low word of the product still gives an integer that stands for the exact value, only more coarsely |
| Fma.FusedIsRoundable | ra8d1-tinyemu/emu/softfp_template.h:491-532 | sum or difference after that shift still stands for the exact sum closely enough to be rounded, and vanishes only with it |
| Fma.FusedProduct | ra8d1-tinyemu/emu/softfp_template.h:462-471 | the two-word product is exact and its top bit in place |
| Fma.FusedSum | ra8d1-tinyemu/emu/softfp_template.h:501-550 | one correct rounding of the exact signed sum |
| Fma.FmaNonzero | ra8d1-tinyemu/emu/softfp_template.h:462-552 | one correct rounding of the exact a*b+c for nonzero finite operands |
| Fma.FmaZeroAddend | ra8d1-tinyemu/emu/softfp_template.h:474-479 | the same when c is zero |
| Fma.FmaSf | ra8d1-tinyemu/emu/softfp_template.h:401-552 | every three words, in every mode: the single rounding of the exact value, or the special value and flags |
| Convert.CvtSfToInt | ra8d1-tinyemu/emu/softfp_template_icvt.h:38-108 | the rounded integer when it fits, otherwise the clamp and only the invalid flag, for every integer width, if and only if no infinity or NaN passes for a number, which takes a width two above the exponent bias |
| Convert.CvtIntToSf | ra8d1-tinyemu/emu/softfp_template_icvt.h:125-153 | the correctly rounded value of the integer, for every width |
| Convert.Widen | ra8d1-tinyemu/emu/softfp_template.h:945-976 | the value is kept exactly, without flags |
| Convert.Narrow | ra8d1-tinyemu/emu/softfp_template.h:978-1010 | correct rounding to the narrower format, for every word |
| Convert.NegligibleAlike | ra8d1-tinyemu/emu/softfp_template.h:998-1002 | values below half the least subnormal all round alike, so an unnormalised subnormal does no harm |
| Convert.Instances | ra8d1-tinyemu/emu/softfp.h:85-86 | the 32- and 64-bit formats meet what the theorems ask of a format |
| PageWalk.WalkIsLocal | ra8d1-tinyemu/emu/riscv_cpu.c:236-299 | a walk depends on nothing but the table words it reads, and on those only outside A and D |
| PageWalk.WriteBackIsInvisible | ra8d1-tinyemu/emu/riscv_cpu.c:247-299 | the write-back of any walk changes the outcome of no walk, for any tables, address, access and context |
| PageWalk.WalkSettles | ra8d1-tinyemu/emu/riscv_cpu.c:274-287 | repeated at once, a walk writes nothing |
| PageWalk.SettledPersists | ra8d1-tinyemu/emu/riscv_cpu.c:274-287 | and no walk in between makes it write again |
| PageWalk.OutcomePagewise | ra8d1-tinyemu/emu/riscv_cpu.c:288-290 | all addresses of a page share fault, frame and marked entry, superpages included |
| PageWalk.WritableIsReadable | ra8d1-tinyemu/emu/riscv_cpu.c:256-273 | a page that may be written may be read at the same place |
| ArchWalk.WalkIsArchitectural | ra8d1-tinyemu/emu/riscv_cpu.c:237-299 | the coded walk answers as the architecture's algorithm, stated from the bits V, R, W, X, U and the page numbers of the entries, if and only if the tables do not allow the access over something odd on the way: a page number past 32 bits, a misaligned superpage, a supervisor fetch from a user page |
| ArchWalk.WriteBackIs | ra8d1-tinyemu/emu/riscv_cpu.c:274-287 | a walk that succeeds sets bit 6, and for a store bit 7, of the low byte of the leaf entry, and changes no other bit of RAM; one that faults changes none |
| ArchWalk.SumReachesFetch | ra8d1-tinyemu/emu/riscv_cpu.c:259-262 | concrete tables where SUM lets a supervisor fetch from a user page |
| ArchWalk.MisalignedSuperpageAccepted | ra8d1-tinyemu/emu/riscv_cpu.c:288-290 | concrete tables where a misaligned superpage translates |
| ArchWalk.HighPageTruncated | ra8d1-tinyemu/emu/riscv_cpu.c:247-290 | concrete tables where a page number past 32 bits loses its top bits |
| SoftMmu.Cpu.GetPhysAddr | ra8d1-tinyemu/emu/riscv_cpu.c:194-300 | the level loop computes the walk's outcome, which is the architecture's unless something is odd, and its write-back, and adds the memory it leaves to the history |
| SoftMmu.Cpu.TlbFlushAll | ra8d1-tinyemu/emu/riscv_cpu.c:593-612 | no live entry is left, whatever the page tables became before |
| SoftMmu.Cpu.SetMstatus | ra8d1-tinyemu/emu/riscv_cpu.c:685-710 | the flush condition suffices: the caches still agree with the walk under the new context |
| SoftMmu.Cpu.SetPriv | ra8d1-tinyemu/emu/riscv_cpu.c:1063-1082 | the same for a change of privilege |
| SoftMmu.Cpu.WriteSatp | ra8d1-tinyemu/emu/riscv_cpu.c:1001-1021 | the same for a new root table; the mode and the 22 page-number bits are kept |
| SoftMmu.Cpu.HitMeaning | ra8d1-tinyemu/emu/riscv_cpu_priv.h:252-281 | a cache hit is what the walk answered on some memory of the append-only history since the last flush; if no page-table word was stored to, it is what the walk answers now, and no write-back is missed |
| TlbCache.HitIsWalk | ra8d1-tinyemu/emu/riscv_cpu_priv.h:252-268 | an entry that agrees with the walk gives its translation, and on a settled page no write-back is missed |
| TlbCache.FilledEntry | ra8d1-tinyemu/emu/riscv_cpu.c:389-394 | the entry a slow path installs agrees with the walk just done |
| TlbCache.StoreKeepsUpToDate | ra8d1-tinyemu/emu/riscv_cpu_priv.h:269-281 | a store that hits no page-table word leaves every entry true |
| TlbCache.LoadIsBytewise | ra8d1-tinyemu/emu/riscv_cpu.c:303-411 | the loads the methods below are tied to: on any cache they keep every entry a walk of the history; on one that no table word was stored to under, they are the bytewise load, a fault reported at the word it is in |
| TlbCache.StoreIsBytewise | ra8d1-tinyemu/emu/riscv_cpu.c:445-490 | the same for the stores: away from the tables they are the bytewise store, and anywhere they keep every entry a walk of the history |
| SoftMmu.Cpu.ReadInsnSlow | ra8d1-tinyemu/emu/riscv_cpu.c:545-572 | fetch by the walk: result, cache and history after it are the function of those before that FindCode is stated by |
| SoftMmu.Cpu.FindCode | ra8d1-tinyemu/emu/riscv_cpu_template.h:260-272 | hit or miss, a walk of a memory of the history gives that place, the present one if no page-table word was stored to; the whole page is RAM |
| SoftMmu.Cpu.ReadAligned | ra8d1-tinyemu/emu/riscv_cpu.c:357-411 | result, cache and history are the slow load's, and that is the aligned bytewise load with the walk's write-back |
| SoftMmu.Cpu.ReadTwoWords | ra8d1-tinyemu/emu/riscv_cpu.c:322-356 | on any cache: the two aligned words, loaded one after the other and spliced, with the cache and history each leaves |
| SoftMmu.Cpu.TargetRead | ra8d1-tinyemu/emu/riscv_cpu_priv.h:252-268 | a load of any width and alignment, by cache or slow path, on any cache, is the load LoadIsBytewise speaks of; where no table word was stored to it is the little-endian load byte by byte, the fault with its address included |
| SoftMmu.Cpu.WriteAligned | ra8d1-tinyemu/emu/riscv_cpu.c:462-490 | on any cache: what an aligned store does to memory, cache and history, fault included |
| SoftMmu.Cpu.TargetWrite | ra8d1-tinyemu/emu/riscv_cpu_priv.h:269-281 | a store of any width and alignment, on any cache, is the store StoreIsBytewise speaks of; one that hits no page-table word is the bytewise store, and keeps the caches true |
| SoftMmu.Cpu.DeviceWrite | ra8d1-tinyemu/emu/rv_virtio.c:145-154 | a device writes RAM behind the caches: the history gains that moment, every entry stays a walk of it, and true caches stay true if no page-table word is hit |
| SoftMmu.StoreThenLoad | ra8d1-tinyemu/emu/riscv_cpu_priv.h:252-281 | target_write and then target_read of the same bytes give back what was stored, through whatever the caches hold |
| Bytewise.SplicedLoad | ra8d1-tinyemu/emu/riscv_cpu.c:322-356 | two aligned words, shifted and joined, are the bytes of the misaligned one, across pages too |
| Bytewise.InPageLoad | ra8d1-tinyemu/emu/riscv_cpu.c:389-411 | within a page one translation serves all bytes |
| Bytewise.InPageStore | ra8d1-tinyemu/emu/riscv_cpu.c:475-490 | the same for stores |
| Bytewise.StoreOutsideTables | ra8d1-tinyemu/emu/riscv_cpu.c:475-490 | a store away from the page tables changes no translation and makes no walk write again |
| Bytewise.WriteOutsideTables | ra8d1-tinyemu/emu/rv_virtio.c:145-154 | the same for any number of bytes written by physical address |
| Bytewise.LoadAfterStore | ra8d1-tinyemu/emu/riscv_cpu.c:445-490 | a load after a store to the same address returns what was stored |
| Interp.Hart.FetchHead | ra8d1-tinyemu/emu/riscv_cpu_template.h:237-289 | every step delivers the PC and the bytes at the place translation gives for it: inside a block by the context and memory the block was translated with at entry, both halves, four bytes of the page and no more; at entry by a walk of a memory of the history, and of the present one if no page-table word was stored to |
| Interp.Hart.FetchAtEnd | ra8d1-tinyemu/emu/riscv_cpu_template.h:275-283 | the last two bytes of a page, with the next page's when the instruction straddles |
| Interp.Hart.EnterBlock | ra8d1-tinyemu/emu/riscv_cpu_template.h:272-274 | the block's bounds keep every fast fetch inside the page, all of which the translation maps |
| Interp.PageInsn | ra8d1-tinyemu/emu/riscv_cpu_template.h:284-289 | four bytes of a page are the instruction that translating pc, and pc + 2 if it is long, gives |
| Interp.Hart.Advance | ra8d1-tinyemu/emu/riscv_cpu_template.h:188-198 | the next PC modulo 2^32, four bytes on exactly if both low bits of the instruction are set, else two; or the jump target made even |
| Interp.Hart.RunBlocks | ra8d1-tinyemu/emu/riscv_cpu_template.h:216-256 | one call advances insn_counter by at least 1 and at most n + 2047 |
| Interp.Hart.Run | ra8d1-tinyemu/emu/riscv_cpu.c:1290-1319 | it ends; unless powered down it retires at least n and never more than n + 2047; the loop test, the low 32 bits of a difference of 64-bit counters, is the exact difference whatever they wrapped to |
| Privilege.Hart.constructor | ra8d1-tinyemu/emu/rv_hostsbi.c:354-401 | the boot state is confined to U and S with the boot delegation |
| Privilege.Hart.SupervisorWrite | ra8d1-tinyemu/emu/riscv_cpu.c:932-1021 | a register written reads as the legal part of what was written, every other register as before, and confinement is kept |
| Privilege.Hart.SupervisorRead | ra8d1-tinyemu/emu/riscv_cpu.c:714-899 | it answers exactly for the registers csr_read knows in the present state, each with its value: sie and sip the delegated part, sstatus the visible bits with SD, the others what is stored |
| Privilege.Hart.CsrRead | ra8d1-tinyemu/emu/riscv_cpu.c:714-899 | an access is answered exactly when the register is known, readable at this privilege and not read-only if it is to be written; supervisor and machine registers with their value |
| Privilege.Hart.CsrWrite | ra8d1-tinyemu/emu/riscv_cpu.c:923-1061 | every register that csr_write knows reads as the part of the value it keeps, and every register that is not a view of it as before; no register that U or S may name undoes confinement |
| Privilege.Hart.CsrInstruction | ra8d1-tinyemu/emu/riscv_cpu.c:714-723 | an access that is not allowed is an illegal-instruction trap to the supervisor; an allowed one gives the old value, leaves the legal part of the new one, changes no other register and steps on |
| Privilege.Hart.RaiseException2 | ra8d1-tinyemu/emu/riscv_cpu.c:1084-1181 | a delegated trap goes to stvec with cause, return address and value saved, SPIE and SPP the enable bit and privilege left, SIE off; one that is not goes to mtvec with the machine registers the same; all other status bits stay; a supervisor ecall is answered and stepped over |
| Privilege.SretUndoesTrap | ra8d1-tinyemu/emu/riscv_cpu.c:1161-1202 | return from a trap restores privilege, interrupt enable and all other status bits |
| Privilege.Hart.HandleSret | ra8d1-tinyemu/emu/riscv_cpu.c:1188-1202 | privilege SPP, the enable bit of that privilege SPIE, SPIE set, SPP clear, all other status bits as before |
| Privilege.Hart.RaiseInterrupt | ra8d1-tinyemu/emu/riscv_cpu.c:1220-1258 | an interrupt is taken if and only if one is pending and enabled and may be taken at this privilege: confined, in U always, in S with SIE; else by delegation, SIE and MIE. It is the lowest such, and it goes to stvec |
| Privilege.Hart.HandleMret | ra8d1-tinyemu/emu/riscv_cpu.c:1204-1218 | privilege MPP, the enable bit of that privilege MPIE, MPIE set, MPP clear, all other status bits as before |
| Privilege.StatusKeeps | ra8d1-tinyemu/emu/riscv_cpu.c:635-639 | which bits of sstatus a write keeps, bit by bit |
| Privilege.FlagsKept | ra8d1-tinyemu/emu/riscv_cpu.c:951-960 | sie and sip keep the delegated bits, scounteren the lowest three |
| Privilege.AddressKept | ra8d1-tinyemu/emu/riscv_cpu.c:955-966 | stvec is rounded down to 4 and sepc to 2 |
| Privilege.SatpKeeps | ra8d1-tinyemu/emu/riscv_cpu.c:978-986 | satp keeps its mode and the 22 bits of page number |
| Privilege.FloatWordsKept | ra8d1-tinyemu/emu/riscv_cpu.c:901-947 | five flags, and a rounding mode that is 0 to 4 |
| Privilege.MachineBitsKept | ra8d1-tinyemu/emu/riscv_cpu.c:1022-1054 | which bits of mstatus, medeleg, mideleg, mie and mip a write changes, bit by bit |
| Privilege.Hart.Run | ra8d1-tinyemu/emu/rv_hostsbi.c:223-224 | in every run from the boot state the hart stays in U or S, and every trap but a supervisor ecall goes to stvec |
| Pusher.BlocksFit | ra8d1-tinyemu/src/pusher.c:202-226 | an accepted length needs whole erase blocks that lie in the slot |
| Pusher.StepKeeps | ra8d1-tinyemu/src/pusher.c:917-1299 | every step of either thread, a failure, a timeout or power loss keeps the invariant |
| Pusher.MagicMeansPayload | ra8d1-tinyemu/src/pusher.c:590-669 | in every reachable state, from the erase of a slot's first block on: the magic is in flash only if all len bytes received are |
| Pusher.BuffersKeptApart | ra8d1-tinyemu/src/pusher.c:712-747 | no buffer is filled while it is programmed, and buffers are programmed in the order filled, each at its place |
| Pusher.TokensAreConserved | ra8d1-tinyemu/src/pusher.c:1083-1195 | free, filled and held buffers always add up to two |
| Pusher.NeverProgrammedTwice | ra8d1-tinyemu/src/pusher.c:174-181 | no flash unit is programmed twice without an erase between, none outside the pushed slot, none before the guest stopped |
| Pusher.ErasesStayInside | ra8d1-tinyemu/src/pusher.c:483-578 | every erase is inside the pushed slot and after the guest stopped |
| Pusher.WriterUnit | ra8d1-tinyemu/src/pusher.c:712-747 | the unit the writer programs is blank and after the header |
| Pusher.CommitPlace | ra8d1-tinyemu/src/pusher.c:590-618 | the units of the header are inside the slot, and blank and not yet programmed when they are programmed |
| Pusher.CommittedImage | ra8d1-tinyemu/src/pusher.c:590-618 | whenever a commit reaches its end, in any run: the slot holds its magic, the length as four little-endian bytes, the four bytes of CRC received, blanks up to offset 4096, and behind them every byte received, as many as the length says |
| PushSucceeds.PushCanSucceed | ra8d1-tinyemu/src/pusher.c:917-1299 | from every reachable state with the guest stopped and no writer lost, whatever failed before, there is a run that pushes any image that fits behind the header into any slot, and leaves exactly it there |
| Virtqueue.PhysPtr | ra8d1-tinyemu/emu/rv_machine.c:685-696 | a pointer exactly when all bytes are RAM |
| Virtqueue.Queue.Write | ra8d1-tinyemu/emu/rv_virtio.c:145-154 | all the bytes at their place or, outside RAM, nothing |
| Virtqueue.Queue.DescRead | ra8d1-tinyemu/emu/rv_virtio.c:170-185 | the descriptor in the table, or none |
| Virtqueue.Queue.ChainCollect | ra8d1-tinyemu/emu/rv_virtio_net.c:213-231 | it ends for every table, cycles of next links included, with the chain or the failure |
| VirtioLayout.DescriptorIs | ra8d1-tinyemu/emu/rv_virtio.c:163-185 | a descriptor is 16 bytes of the table: little-endian address, length, flags and next |
| VirtioLayout.ChainIs | ra8d1-tinyemu/emu/rv_virtio.c:248-266 | the chain collected from a head is the one linked there by bit 0 of the flags and next, none indirect, if and only if it is no longer than allowed |
| VirtioLayout.AvailableIs | ra8d1-tinyemu/emu/rv_virtio.c:364-386 | the heads taken are the two-byte entries of the available ring from the last one on, around the ring, as many as its index is ahead |
| VirtioLayout.UsedIs | ra8d1-tinyemu/emu/rv_virtio.c:194-215 | the used ring in bytes: the index counts what was published, and element i is head and length of the i-th |
| Virtqueue.Published | ra8d1-tinyemu/emu/rv_virtio.c:204-213 | element and index are both in place, and nothing outside the used ring changed |
| Virtqueue.Queue.Complete | ra8d1-tinyemu/emu/rv_virtio.c:194-223 | the chain is published once, after those before it; the used ring in RAM holds the last of them, its index their number modulo 2^16; an interrupt unless the driver said no |
| VirtDriver.OfferOne | ra8d1-tinyemu/emu/rv_virtio.c:364-386 | a driver that puts a head in the next slot and counts the index up offers one chain more and loses none, for a queue size that divides 2^16 |
| VirtDriver.RunBlock | ra8d1-tinyemu/emu/rv_virtio.c:194-386 | any rounds of a conforming driver's turn and a notification: every chain ever offered was published, once and in the order offered, and the used ring in RAM and its index, which is last_avail_idx modulo 2^16, say so |
| VirtDriver.RunNet | ra8d1-tinyemu/emu/rv_virtio_net.c:182-424 | any calls of the device, a conforming driver's turn before each: on both queues the chains published are the chains taken, a beginning of those offered, each once and in order, and a notification takes all of the transmit queue |
| VirtioBlk.Blk.ReadHeader | ra8d1-tinyemu/emu/rv_virtio.c:268-288 | the first 16 readable bytes, however the driver splits them |
| VirtioLayout.HeaderIs | ra8d1-tinyemu/emu/rv_virtio.c:268-291 | every byte of the header is the byte of RAM at its place in the readable descriptors; without one there are too few, or a buffer is outside RAM |
| VirtioLayout.WellFormedIs | ra8d1-tinyemu/emu/rv_virtio.c:248-303 | which requests are well formed, in terms of the bytes of RAM: at most 260 linked descriptors, 16 bytes of header, and a status byte in RAM in the last device-writable one |
| VirtioBlk.Blk.CopyData | ra8d1-tinyemu/emu/rv_virtio.c:307-333 | the data loop is the scatter of the disk from the start on |
| VirtioBlk.ReadFillsBuffers | ra8d1-tinyemu/emu/rv_virtio.c:307-333 | whatever the split, a read that succeeds leaves in the buffers exactly the disk bytes, in order, and counts them all |
| VirtioBlk.ScatterOutside | ra8d1-tinyemu/emu/rv_virtio.c:307-333 | and touches nothing else |
| VirtioBlk.ScatterSucceeds | ra8d1-tinyemu/emu/rv_virtio.c:307-333 | a read succeeds if and only if its buffers are in RAM and the disk has the bytes, and then transfers what the buffers have room for |
| VirtioBlk.RequestOutcome | ra8d1-tinyemu/emu/rv_virtio.c:234-361 | a request as the driver sees it after publication: the status byte is 0 for a read if and only if it can be carried out and else 1, 1 for a write, 0 for a flush, 2 for any other type; the buffers of a read that succeeds hold the disk bytes from sector * 512 on, the length is theirs plus one, and nothing else changed but the used ring |
| VirtioBlk.Malformed | ra8d1-tinyemu/emu/rv_virtio.c:239-303 | a chain without header, status byte or end reports no byte and changes nothing but its own buffers and the used ring |
| VirtioBlk.SectorInRange | ra8d1-tinyemu/emu/rv_virtio.c:307 | a sector starts at sector * 512 if and only if it is below 2^55 |
| VirtioBlk.Blk.HandleChain | ra8d1-tinyemu/emu/rv_virtio.c:234-361 | one request carried out, its status written, its chain published with the length written plus one |
| VirtioBlk.Blk.Notify | ra8d1-tinyemu/emu/rv_virtio.c:364-386 | it ends; every waiting chain is taken once, in ring order across the wrap, and carried out on the memory the one before left |
| VirtioBlk.Blk.QueueReady | ra8d1-tinyemu/emu/rv_virtio.c:480-485 | a queue made ready starts with both counts at zero, in step with the used index in RAM if and only if that is zero |
| VirtioBlk.Blk.IntAck | ra8d1-tinyemu/emu/rv_virtio.c:509-515 | exactly the acknowledged bits are cleared, and the line goes down exactly when none is left |
| VirtioBlk.Blk.Reset | ra8d1-tinyemu/emu/rv_virtio.c:516-526 | queue and interrupt are off |
| VirtioNet.FrameIsPayload | ra8d1-tinyemu/emu/rv_virtio_net.c:254-279 | whatever the split, the frame is the readable bytes minus the 12-byte header, cut at 1514; there is one if and only if all those bytes are in RAM and at no readable descriptor the 32-bit sum of frame and length wraps |
| VirtioNet.WrappingSendsNothing | ra8d1-tinyemu/emu/rv_virtio_net.c:254-279 | two descriptors whose 1514 bytes needed are all in RAM, and no frame: the second sum wraps |
| VirtioLayout.SentIs | ra8d1-tinyemu/emu/rv_virtio_net.c:240-286 | a chain sends the bytes at the places past its 12 bytes of header, at most 1514, if they are in RAM, at least 14, and nothing wraps; otherwise nothing |
| VirtioNet.Net.TxChain | ra8d1-tinyemu/emu/rv_virtio_net.c:240-286 | the frame goes out if it has an Ethernet header, and the chain is published once either way |
| VirtioNet.Net.TxNotify | ra8d1-tinyemu/emu/rv_virtio_net.c:288-309 | it ends; the wire gains the frames of the waiting chains in ring order, and the receive queue stays sound |
| VirtioNet.DeliveryFillsBuffers | ra8d1-tinyemu/emu/rv_virtio_net.c:351-387 | whatever the split, header and frame fill the buffers in order as far as they fit, and what fits is counted |
| VirtioNet.FillOutside | ra8d1-tinyemu/emu/rv_virtio_net.c:351-387 | and nothing else is touched |
| VirtioNet.DeliveredToDriver | ra8d1-tinyemu/emu/rv_virtio_net.c:318-400 | a delivery as the driver sees it after publication: its buffers hold ten zeros, 1, 0 and the frame as far as they fit, the length is what fits, and nothing else changed but the used ring |
| VirtioNet.Net.FillOne | ra8d1-tinyemu/emu/rv_virtio_net.c:354-387 | the two writes of a buffer are one write of the packet, or fail as it would |
| VirtioNet.Net.RxDeliver | ra8d1-tinyemu/emu/rv_virtio_net.c:318-400 | the chain is published exactly once, or left to be tried again; a frame counts as received only if all of it fits; the transmit queue stays sound |
| VirtioNet.Net.Poll | ra8d1-tinyemu/emu/rv_virtio_net.c:405-424 | at most eight frames, rx_frames + rx_dropped counts each frame pulled exactly once, and the chains taken are the waiting ones in ring order |
| Plic.Controller.Set | ra8d1-tinyemu/emu/rv_machine.c:201-219 | the level of a line is what was last said, and SEIP is up exactly while a source waits |
| Plic.Controller.ReadClaim | ra8d1-tinyemu/emu/rv_machine.c:221-239 | the lowest source that waits, or 0 exactly when SEIP is down |
| Plic.Controller.WriteComplete | ra8d1-tinyemu/emu/rv_machine.c:241-253 | the source may be claimed again |
| Plic.ClaimedOncePerCompletion | ra8d1-tinyemu/emu/rv_machine.c:221-253 | in every history two claims of a source have its completion between them |
| FdtFormat.NodeBack | ra8d1-tinyemu/emu/rv_fdt.c:102-136 | the tokens of a tree, balanced, parse back to the tree whatever follows |
| FdtFormat.ParseJoin | ra8d1-tinyemu/emu/rv_fdt.c:57-79 | what was written stays readable as more tokens and more names are added |
| FdtWriter.Writer.U32 | ra8d1-tinyemu/emu/rv_fdt.c:57-65 | the cell at the end, or overflow and no byte written |
| FdtWriter.Writer.Data | ra8d1-tinyemu/emu/rv_fdt.c:67-78 | the bytes padded to whole cells with zeros, or overflow and no byte written |
| FdtWriter.NameAt | ra8d1-tinyemu/emu/rv_fdt.c:81-100 | an interned offset resolves to its name |
| FdtWriter.Writer.Str | ra8d1-tinyemu/emu/rv_fdt.c:81-100 | a known name is found, a new one added, none is there twice, and 512 bytes is the limit |
| FdtWriter.HexBack | ra8d1-tinyemu/emu/rv_fdt.c:109-131 | a unit address reads back as its number |
| FdtWriter.NodeName | ra8d1-tinyemu/emu/rv_fdt.c:109-131 | name, at sign and the address in hexadecimal without leading zeros |
| FdtWriter.Writer.BeginNode | ra8d1-tinyemu/emu/rv_fdt.c:102-106 | one token more in what the block parses to, or overflow exactly because it does not fit |
| FdtWriter.Writer.Property | ra8d1-tinyemu/emu/rv_fdt.c:138-145 | the same for a property, its name interned |
| FdtWriter.Writer.PropCells | ra8d1-tinyemu/emu/rv_fdt.c:166-177 | the same for a list of cells |
| FdtWriter.Writer.Close | ra8d1-tinyemu/emu/rv_fdt.c:399-422 | a blob whose header fields agree and which parses to the tree written; 0 if and only if it does not fit |
| FdtMachine.BuildFdt | ra8d1-tinyemu/emu/rv_fdt.c:193-423 | for every parameter record: the blob parses to exactly the machine's tree, or 0 if and only if the buffer is shorter than that blob |
| FdtGuest.MachineIsGood | ra8d1-tinyemu/emu/rv_fdt.c:213-396 | for every node of the tree: the address in reg is the one in the node's name, and an interrupt parent, a register map and every controller that interrupts go to is the phandle of exactly one node |
| FdtGuest.KernelFinds | ra8d1-tinyemu/emu/rv_fdt.c:253-394 | initial ramdisk, command line, console, memory and timebase are what the parameter record says, the ramdisk exactly if it is not empty |
| FdtGuest.HeaderBytes | ra8d1-tinyemu/emu/rv_fdt.c:411-421 | a blob that parses begins with d00dfeed, its own length, versions 17 and 16 |
| FdtGuest.TokenCodes | ra8d1-tinyemu/emu/rv_fdt.c:102-145 | the bytes of the tokens |
| FdtTree.MachineFits | ra8d1-tinyemu/emu/rv_fdt.c:193-423 | for every parameter record the property names fit the 512-byte strings block, and the 64-byte minimum never refuses a buffer the blob fits |
| FdtMachine.WriteMachine | ra8d1-tinyemu/emu/rv_fdt.c:213-396 | the calls write the tokens of that tree |
| Spsc.Ring.Put | ra8d1-tinyemu/src/telnet.c:256-268 | the byte is last in the ring, or refused exactly when it holds its size minus one |
| Spsc.Ring.Get | ra8d1-tinyemu/src/telnet.c:270-282 | the oldest byte, or nothing exactly when there is none |
| SpscThreads.RunIsFifo | ra8d1-tinyemu/src/telnet.c:256-282 | under every interleaving of the two threads' accesses the consumer has got exactly the accepted bytes in order, but those still in the ring |
| SpscThreads.RefusedOnlyWhenFull | ra8d1-tinyemu/src/telnet.c:256-282 | a byte is refused only while the ring is full, a get empty only while it is empty |
| SpscThreads.NeverSameSlot | ra8d1-tinyemu/src/telnet.c:264 | the producer never writes a byte still to be read |
| Telnet.Session.RxByte | ra8d1-tinyemu/src/telnet.c:357-440 | the filter's next state, the byte for the guest and the answer appended, as one function of state and byte |
| Telnet.FeedInParts | ra8d1-tinyemu/src/telnet.c:357-440 | how the client's stream is cut into segments makes no difference |
| Telnet.EscapedComesBack | ra8d1-tinyemu/src/telnet.c:448-469 | the escaped stream fed back gives the stream but for the second half of CR pairs, no answers, and the filter back between commands |
| Telnet.AnnouncedOnce | ra8d1-tinyemu/src/telnet.c:401-415 | over any stream the filter's answers announce each option at most once, and no option but ECHO and SGA |
| Telnet.SaidOnRequest | ra8d1-tinyemu/src/telnet.c:357-415 | the filter announces an option exactly when the stream has a DO for it, read by the grammar of RFC 854, subnegotiations skipped |
| Telnet.SessionAnnounces | ra8d1-tinyemu/src/telnet.c:328-332 | greeting and answers of a whole session announce ECHO and SGA once each, and a second time, no more, exactly if the client requests it |
| Telnet.Session.Start | ra8d1-tinyemu/src/telnet.c:485-516 | filter and rings as new and the nine bytes of greeting sent; then a carriage return for the guest, unless the client is gone |
| Telnet.OnlyRequestsAnswered | ra8d1-tinyemu/src/telnet.c:401-426 | WONT and DONT are never answered |
| Telnet.StreamMeans | ra8d1-tinyemu/src/telnet.c:357-440 | whatever the client sends: the guest gets exactly the data of the stream by the grammar of RFC 854, without commands and subnegotiations and less the second half of each CR pair; the answers are exactly those its commands call for, in order |
| Telnet.VerbAndOption | ra8d1-tinyemu/src/telnet.c:398-430 | which verb answers each request: WILL once for ECHO and SGA, else WONT; DO for SGA offered, else DONT |
| Telnet.Session.Receive | ra8d1-tinyemu/src/telnet.c:534-555 | while the guest reads as it likes: all answers are handed over in order, their 64-byte buffer never overrun, and the guest gets the data in order, all of it if it fits; a failing send ends the segment where it was |
| Telnet.Session.Batch | ra8d1-tinyemu/src/telnet.c:453-461 | a batch never exceeds its 256 bytes, a doubled byte at its end included |
| Telnet.Session.Flush | ra8d1-tinyemu/src/telnet.c:448-469 | what was handed to the socket is the escape of what left the ring; with what is still there that is what was there and what the guest printed meanwhile, in order; on success the ring is empty |

## Left out

- Per-opcode ALU and compressed-immediate tables: an instruction is an abstract step with its memory and CSR effects.
- LR/SC, whose reservation is never cleared, and AMOs.
- Loads from addresses that are neither RAM nor a device, where the code leaves the value unset, and device accesses: such a load ends as `Outside`.
- WordArith.SqrtremU: not for a high word above a quarter of a word, where the shift that makes the first estimate is undefined in C.
- Convert.CvtSfToInt: for formats whose mantissa is no longer than the exponent bias, as every built one is.
- Privilege: counters read as nothing, host SBI services beyond stepping over the ecall, and MMU state, which `SoftMmu` models separately.
- NaN payloads; 128-bit floats, and conversions to and from them, except as an instance of the parameters; comparisons, minimum and maximum, classification.
- Fma.FmaSf: an infinity times zero plus a quiet NaN raises no flag here, as coded, where RISC-V raises invalid.
- The host build's 128-bit forms of multiplication, division and root, whose exact result is what the half-word forms are proved to give.
- Pusher: the CRC, image verification and the progress protocol, which only read; the RAM ceiling on the kernel slot; sockets and the reboot timer. Timeouts and failures are steps that may happen at any time.
- Virtio: feature negotiation, configuration space and register decoding; device words are naturals and guest memory little-endian bytes.
- VirtioNet.Net.RxDeliver: counters are unbounded, and guest RAM is at most 2^31 bytes, half a 32-bit physical address space.
- VirtioNet.Net.Poll: the wire is the list of frames waiting, each nonempty and at most 1514 bytes, as the receive call bounds them.
- The 8250, the CLINT, the system controller and the paravirtual bridge.
- VirtDriver.RunNet: a driver's turn comes between calls of the device, not inside one.
- FdtMachine.BuildFdt: the buffer is shorter than 2^32 bytes and size_t does not wrap.
- Telnet.Session.Flush: the guest prints while a batch is sent; its puts between two gets of one batch are interleaved in `SpscThreads`.
- SpscThreads: memory accesses of the two threads interleave in program order, as the full fences make them.
