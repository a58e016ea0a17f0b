# Verified model of the EXORCIST kernel module

EXORCIST samples pairs of cache misses and branch misses in the kernel, executes the code between them with a small taint
and symbolic executor, and passes what it finds to user space through shared memory. This project models that logic in
Dafny 4.11 and proves properties of it. Each module stands for one component:

| module | component |
|---|---|
| Arithmetic, Bits, Bytes, Registers | products and powers of two, 64-bit words as bits, little-endian bytes, the simulated register file and its flag macros |
| SymbolicSearch | `symbolic_execution` with its deep copies; the effect of one instruction and the value of a branch operand are parameters |
| Branches | branch decisions on unsure flags, `setcc`, the taint verdict, against the condition codes of the Intel 64 and IA-32 SDM, Volume 1, Appendix B |
| Compare, Shifts, WideMultiply | operand extension and compare flags, shifts and rotates, the multiplications |
| ShadowStack, MemoryOperand | packed bitmaps and value bytes of the simulated stack, reads and writes of memory operands |
| AnalysedTable | the bounded two-level table of code ranges already analysed |
| Ring, RingMemory | the shared-memory message ring and the per-CPU record ring as one protocol of atomic steps; the operations on the buffer as sequences of these steps |
| StartOffset, ReportHeader, PairingWalk | the start-offset search, the report header encoder and decoder, the pairing of sampled records |

Code that updates objects, arrays or loop variables is modelled by classes and methods; each method is specified by a
function of its inputs or of the old state, and the lemmas are about that function. Machine integers are unbounded
integers with the wrap-around written out, or words of 64 bits. A read or load in the ring protocol may return a stale
index: any position between the last one loaded and the current one.

## Where the code departs from its intent

The model follows the code. The exact conditions are proved.

- `!GET_OF(x)` and the other negated getters shift the negation away, so JNO, JNE, JNS and JNP are never taken
  (`Branches.DecisionExact`, `Branches.NegatedJumpsNeverTaken`). JNA requires both flags unsure before it is undecided,
  and JECXZ looks at 16 bits; JRCXZ has the same type and is decided alike (`Branches.WideCountExact`).
- `setcc_analyze` looks at two characters of the mnemonic. "setl" is not recognised and answers 0 without taint, "setnl" is
  evaluated as setnle and "setnbe" as setnb (`Branches.SetccExact`, `Branches.SetccTaintExact`); setbe has JNA's deviation.
- An undecided backward branch explores the fall-through and the jump on one shared copy, so what a failed fall-through
  did is seen by the jump: it can make up an attack or hide one (`SymbolicSearch.SharedCopyObservable`,
  `SymbolicSearch.SharedCopyHides`). All other explorations start from the state at their
  branch (`SymbolicSearch.CleanSearch`).
- `sub_set_flag` always sets PF, orders 0 wrongly against a positive right operand, and is off at the ends of the signed
  range (`Compare.SignedJumps`, `Compare.CompareFlagsExact`).
- rcr takes the bits it moves to the high end from one position too high (`Shifts.RcrIsRotation`); one-operand imul at 64 bits fills
  leading zeros where it should negate (`WideMultiply.ImulWideExact`).
- The shadow stack's offsets grow towards lower addresses but its value bytes are stored upwards, so a read of part of a
  written value, or over two writes, shows bytes from the wrong end (`MemoryOperand.PartByAddress`,
  `ShadowStack.PartReadRight`, `ShadowStack.JoinedRead`). Reads at the place and size of a write are right.
- The slot to evict from the table is searched starting from slot 0's number of pairs, not its total
  (`AnalysedTable.EvictedSlotLeast`, `AnalysedTable.EvictedByUse`).
- The unsigned guard on the code size lets negative distances through, some of which do not fit the header byte
  (`ReportHeader.DecoderInvertsEncoder`).
- The count of a shift at 8 and 16 bits is reduced modulo the size, not masked to 5 bits (`Shifts.CountsAgree`).
- The record ring's full test cannot see a read index of -1 (`Ring.CountBeforeFirstRead`, `Ring.UnseenRecordsLost`); its theorems provide that fewer
  than 512 records precede the first read the producer sees.

## Model

| member | source | states |
|---|---|---|
| SymbolicSearch.SymbolicExecution | pebs_mmap_version/pebs_taine.c:1377-1586 | the loop with in-place state computes the recursive search: answer, state left in the caller's objects, number of one-step calls; terminates for every program, with mutual backward branches too |
| SymbolicSearch.FollowBranch | pebs_mmap_version/pebs_taine.c:1440-1581 | a branch before the last instruction: the search ends with this answer or goes on at this index and state, with the extra step after a branch not taken |
| SymbolicSearch.ExploreBranch | pebs_mmap_version/pebs_taine.c:1449-1537 | an undecided branch is explored on a deep copy: none of the caller's registers, taints, stack or heap buffers change, and the caller goes on from its own state after a failed forward exploration |
| SymbolicSearch.ExploreBackward | pebs_mmap_version/pebs_taine.c:1514-1536 | the fall-through and the backward jump share one copy: the jump starts from what the failed fall-through left |
| SymbolicSearch.Simulation.Copy | pebs_mmap_version/pebs_taine.c:1258-1364 | the copy shows the same state and shares no buffer with its source |
| SymbolicSearch.AddressToIndex | pebs_mmap_version/pebs_taine.c:1366-1375 | the first instruction at an address, -1 exactly when there is none |
| SymbolicSearch.BranchTarget | pebs_mmap_version/pebs_taine.c:1471-1489 | a tainted, unsure, out-of-window or undecoded target is refused |
| SymbolicSearch.TurnIsStep | pebs_mmap_version/pebs_taine.c:1394-1583 | one turn of the loop makes exactly the steps of that relation |
| SymbolicSearch.FailedLeaves | pebs_mmap_version/pebs_taine.c:1493-1536 | a search that answers 0 leaves the state carried along in the caller's own objects, as named by a reference that knows no copies |
| SymbolicSearch.FoundHasPath | pebs_mmap_version/pebs_taine.c:1391-1585 | an answer 1 comes with a path of the step relation to the last instruction, within depth 50 and 3 cycles, where the verdict holds |
| SymbolicSearch.PathIsFound | pebs_mmap_version/pebs_taine.c:1391-1585 | every such path makes the search answer 1 |
| SymbolicSearch.SearchIsReachability | pebs_mmap_version/pebs_taine.c:1391-1585 | for every program, semantics and start: answer 1 if and only if an attack is reachable in a step relation written over the machine alone (code, effects, operands, decisions, verdict, window), with the extra step behind a branch not taken, depth below 50 and fewer than 3 cycles |
| SymbolicSearch.StraightCode | pebs_mmap_version/pebs_taine.c:1394-1446 | no branch taken and nothing locked: the answer is the verdict on the fold of the effects, which is also the state left, after one one-step call per effect |
| SymbolicSearch.AppliedCounts | pebs_mmap_version/pebs_taine.c:1403-1446 | in that fold an instruction that is not a branch is applied once, and an instruction right behind a branch once more |
| SymbolicSearch.DecidedBySdm | pebs_mmap_version/pebs_taine.c:1433-1446 | outside the deviations a branch is taken, passed or split on as the SDM condition says of all fillings of the unsure flags |
| SymbolicSearch.JumpGoesOn | pebs_mmap_version/pebs_taine.c:1539-1571 | an unconditional jump to a sure, untainted, decoded target inside the window goes on there with unchanged state; to the first instruction it ends the search |
| SymbolicSearch.CallEndsSearch | pebs_mmap_version/pebs_taine.c:1572-1580 | a call or return before the last instruction ends the search with answer 0 |
| SymbolicSearch.FinalAnswer | pebs_mmap_version/pebs_taine.c:1411-1432 | at the last instruction: 1 if and only if tainted flags alone can turn the conditional branch, or the jump's or call's target is tainted |
| SymbolicSearch.CleanSearch | pebs_mmap_version/pebs_taine.c:1391-1585 | if no undecided backward branch is met, the answer is 1 if and only if the attack is reachable when every exploration starts from the state at its branch |
| SymbolicSearch.SharedCopyObservable | pebs_mmap_version/pebs_taine.c:1514-1536 | with an undecided backward branch that fails: a six-instruction program with constant jump targets for which the search answers 1 although no run that starts every exploration from its branch's state reaches an attack |
| SymbolicSearch.SharedCopyHides | pebs_mmap_version/pebs_taine.c:1514-1536 | the same program with the opposite mark: the search answers 0 although such a run reaches an attack |
| SymbolicSearch.CallsBelow | pebs_mmap_version/pebs_taine.c:1391-1395 | one-step calls are bounded by a recurrence in the depth, cycles and instructions left |
| SymbolicSearch.CallsBounded | pebs_mmap_version/pebs_taine.c:1391-1441 | fewer than 2^50 (1 + 50 n)^2 one-step calls for n instructions |
| Registers.NegatedGetter | pebs_mmap_version/pebs_taine_tool.h:179-211 | negating a one-bit getter macro works for bit 0 only; elsewhere the result is 0 |
| Branches.DecisionExact | pebs_mmap_version/pebs_taine_tool.c:297-521 | for every conditional branch type, for jmp (whose condition always holds) and for every register file, taken iff every filling of the unsure flags satisfies the SDM condition, not taken iff none does, undecided otherwise - exactly when the input is not one of the listed deviations (clear flag for types -1, -3, -5, -6; one of ZF and CF unsure and the other clear for type -4; ECX known and not 0 for type 10) |
| Branches.DeviatingAnswers | pebs_mmap_version/pebs_taine_tool.c:404-483 | on the deviations of types -1, -3, -4, -5, -6 the answer is not taken; a count jump is taken exactly if ECX is sure and its low 16 bits are 0, and else undecided |
| Branches.OtherTypes | pebs_mmap_version/pebs_taine_tool.c:413-424 | call and return are recognised exactly by types 12 and 13; a type without meaning counts as not taken |
| Branches.WideCountExact | pebs_mmap_version/pebs_taine_tool.c:404-415 | jrcxz, which gets the type of jecxz: the decision is the three-valued one if and only if ECX is unsure, or RCX is known and 0 |
| Branches.NegatedJumpsNeverTaken | pebs_mmap_version/pebs_taine_tool.c:425-483 | JNO, JNE, JNS and JNP are never decided as taken |
| Branches.SetccAnalyze | pebs_mmap_version/pebs_taine_tool.c:3270-3545 | taint, unsure flag and value raised in place as verdict and three-valued answer of the dispatched condition say |
| Branches.Dispatch | pebs_mmap_version/pebs_taine_tool.c:3270-3545 | two characters of the mnemonic are looked at: setl reaches no case, setnl the one of setnle, setnbe the one of setnb, every other its own |
| Branches.SetccExact | pebs_mmap_version/pebs_taine_tool.c:3270-3545 | for the sixteen mnemonics the decoder writes, against the SDM condition of each: the three-valued answer is exact if and only if - setl: SF and OF known and equal; setnl: SF and OF known and different, or ZF known clear, or ZF unsure and SF or OF unsure; setnbe: CF known set, or CF and ZF known clear, or CF unsure and ZF not known set; setbe: not (one of ZF and CF unsure, the other clear); always for the other twelve |
| Branches.SetccTaintExact | pebs_mmap_version/pebs_taine_tool.c:3270-3545 | the result is tainted if and only if tainted flags alone can turn the SDM condition of the mnemonic - always for thirteen; setl: only if SF and OF are untainted; setnl: if ZF is untainted or SF or OF tainted; setnbe: if ZF is untainted or CF tainted |
| Branches.VerdictNoninterference | pebs_mmap_version/pebs_taine_tool.c:1171-1356 | verdict 0 for a conditional branch: the decision is the same on any two states that agree on the unsure words and on untainted flags and ECX |
| Branches.SetccNoninterference | pebs_mmap_version/pebs_taine_tool.c:3270-3545 | for every mnemonic string: a setcc result without taint is the same on any two such states |
| Branches.VerdictExact | pebs_mmap_version/pebs_taine_tool.c:1171-1356 | verdict 1 if and only if tainted flags alone can turn the condition |
| Branches.TargetVerdict | pebs_mmap_version/pebs_taine_tool.c:1257-1278 | on jumps and calls the verdict is the target's taint; a return or unknown type is never an attack; a conditional branch ignores the target |
| Compare.ExpandedBits | pebs_mmap_version/pebs_taine_tool.c:1627-1657 | bits below the source size stay, bits up to the destination size copy the sign or are cleared, bits above stay |
| Compare.OperatorExpend | pebs_mmap_version/pebs_taine_tool.c:1627-1657 | the operand's value is replaced by that word, nothing else changes |
| Compare.UnsignedReading | pebs_mmap_version/pebs_taine_tool.c:1686-1687 | extended to 64 bits without sign, the value is the unsigned reading of the low w bits |
| Compare.SignedReading | pebs_mmap_version/pebs_taine_tool.c:1711-1712 | extended with sign, the 64-bit signed value is the signed reading of the low w bits |
| Compare.SubSetFlag | pebs_mmap_version/pebs_taine_tool.c:1660-1784 | the new register file and both operands after a compare, for every length |
| Compare.UnsignedJumps | pebs_mmap_version/pebs_taine_tool.c:1690-1707 | after a compare of any width JE, JB, JNB, JA, JNA decide the unsigned relation of the w-bit operands |
| Compare.SignedJumps | pebs_mmap_version/pebs_taine_tool.c:1714-1783 | JL, JNL, JG, JNG decide the signed relation if and only if not (left = 0 and right > 0) |
| Compare.CompareFlagsExact | pebs_mmap_version/pebs_taine_tool.c:1714-1783 | for widths 8, 16, 32, 64: OF equals signed overflow, and SF the sign of the wrapped difference, exactly outside the listed boundary differences (OF: and outside 0 against a positive operand) |
| Compare.OtherFlags | pebs_mmap_version/pebs_taine_tool.c:1689-1694 | PF is set whatever the operands; flags other than CF, PF, ZF, SF, OF stay |
| Shifts.LogicShiftOperator | pebs_mmap_version/pebs_taine_tool.c:2724-3210 | count reduced modulo the size in place; result value, taint and unsure flag for all eight kinds |
| Shifts.CountsAgree | pebs_mmap_version/pebs_taine_tool.c:2735-2737 | the count modulo the operand size is the SDM's count for rol and ror and at 32 and 64 bits, otherwise if and only if the count modulo 32 is below the size |
| Shifts.ShlMultiplies | pebs_mmap_version/pebs_taine_tool.c:2749-2900 | shl and sal multiply by 2^n modulo 2^w |
| Shifts.ShrDivides | pebs_mmap_version/pebs_taine_tool.c:2802-2846 | shr divides by 2^n, rounding down |
| Shifts.SarDivides | pebs_mmap_version/pebs_taine_tool.c:2901-2940 | sar divides the signed reading by 2^n, rounding down, modulo 2^w |
| Shifts.RolIsRotation | pebs_mmap_version/pebs_taine_tool.c:2942-3003 | rol rotates the w-bit string towards the high end |
| Shifts.RorIsRotation | pebs_mmap_version/pebs_taine_tool.c:3004-3067 | ror rotates the w-bit string towards the low end |
| Shifts.RotationsInverse | pebs_mmap_version/pebs_taine_tool.c:2942-3067 | rol and ror by the same count undo each other |
| Shifts.RolIsRor | pebs_mmap_version/pebs_taine_tool.c:2942-3067 | rol by n is ror by w - n |
| Shifts.RclIsRotation | pebs_mmap_version/pebs_taine_tool.c:3068-3135 | rcl rotates the (w+1)-bit string CF:a |
| Shifts.RcrIsRotation | pebs_mmap_version/pebs_taine_tool.c:3136-3208 | rcr rotates CF:a if and only if the n bits it shifts out are all equal |
| Shifts.RcrBit | pebs_mmap_version/pebs_taine_tool.c:3136-3208 | rcr bit by bit: the carry goes to w - n, bit i shifted out to w - n + i |
| WideMultiply.NothingOverflows | pebs_mmap_version/pebs_taine_tool.c:1922-1962 | no product or sum inside top64 and low64 exceeds 64 bits |
| WideMultiply.WideProduct | pebs_mmap_version/pebs_taine_tool.c:1922-1962 | top64 * 2^64 + low64 = x * y |
| WideMultiply.SignExtensionsAgree | pebs_mmap_version/pebs_taine_tool.c:1965-1989 | op_sign_expend equals the signed operator_expend to 64 bits |
| WideMultiply.ComputeProduct | pebs_mmap_version/pebs_taine_tool.c:1991-2475 | taint and unsure flags raised in both results; operands of imul extended in place; the product left in the third and fourth result |
| WideMultiply.MulExact | pebs_mmap_version/pebs_taine_tool.c:2236-2300 | mul: high * 2^w + low = a * b for w = 16, 32, 64, one packed product for w = 8; both halves fit |
| WideMultiply.ImulTruncatedExact | pebs_mmap_version/pebs_taine_tool.c:2458-2471 | two- and three-operand imul: signed product modulo 2^w |
| WideMultiply.ImulExact | pebs_mmap_version/pebs_taine_tool.c:2342-2412 | one-operand imul at 8, 16, 32: the exact signed product of twice the width (packed in one result at 8 and 16) |
| WideMultiply.FillTop | pebs_mmap_version/pebs_taine_tool.c:2428-2452 | the loop sets exactly the leading zeros |
| WideMultiply.ImulWideExact | pebs_mmap_version/pebs_taine_tool.c:2412-2457 | one-operand imul at 64 gives the 128-bit signed product if and only if the operands have the same sign or the product's magnitude is a power of two |
| ShadowStack.SetStackBit | pebs_mmap_version/pebs_taine_tool.c:7-18 | exactly the bits offset-length..offset-1 become 1 |
| ShadowStack.UnsetStackBit | pebs_mmap_version/pebs_taine_tool.c:20-30 | exactly the bits offset-length..offset-1 become 0 |
| ShadowStack.MarkedBits | pebs_mmap_version/pebs_taine_tool.c:7-30 | set and unset change bit k % 8 of byte k / 8 exactly for offset-length <= k < offset |
| ShadowStack.StackBitsExact | pebs_mmap_version/pebs_taine_tool.c:32-47 | get_stack_bit returns exactly those bits, lowest first |
| ShadowStack.StackBitAt | pebs_mmap_version/pebs_taine_tool.c:32-47 | bit i of the answer is the bit of stack byte offset-length+i, and 0 from length on |
| ShadowStack.SetStackValue | pebs_mmap_version/pebs_taine_tool.c:49-57 | the little-endian bytes at offset-length+1..offset, nothing else |
| ShadowStack.StoredBytes | pebs_mmap_version/pebs_taine_tool.c:49-57 | byte j of the value, value / 256^j mod 256, lands at offset-length+1+j; no other byte changes |
| ShadowStack.GetStackValue | pebs_mmap_version/pebs_taine_tool.c:59-71 | the little-endian number at offset-length+1..offset; 64-bit arithmetic never overflows |
| ShadowStack.LoadAfterStore | pebs_mmap_version/pebs_taine_tool.c:49-71 | a read at the place and length of a write is the value modulo 256^length |
| ShadowStack.PartRead | pebs_mmap_version/pebs_taine_tool.c:49-71 | a read of l bytes ending s below a write of the given length shows the value's bytes from length-s-l on |
| ShadowStack.PartReadRight | pebs_mmap_version/pebs_taine_tool.c:49-71 | that is what little-endian memory shows, for every value, if and only if the read is empty or 2 s + l = length |
| ShadowStack.JoinedRead | pebs_mmap_version/pebs_taine_tool.c:49-71 | a read over two touching writes puts the one at the lower address into the high bytes |
| ShadowStack.DisjointAccess | pebs_mmap_version/pebs_taine_tool.c:7-71 | accesses to disjoint ranges do not see each other |
| ShadowStack.Perform | pebs_mmap_version/pebs_taine_tool.c:7-71 | every sequence of the five operations refines one entry per byte: same answers, same contents |
| ShadowStack.UntouchedRange | pebs_mmap_version/pebs_taine_tool.c:7-71 | a sequence that does not write a range leaves what is read there |
| ShadowStack.LastWriteSeen | pebs_mmap_version/pebs_taine_tool.c:49-71 | in every sequence a value read is the last one written there |
| ShadowStack.LastMarkSeen | pebs_mmap_version/pebs_taine_tool.c:7-47 | in every sequence the bits read are all ones after set, zero after unset |
| MemoryOperand.SimulatedMemory.SetMemoryOperator | pebs_mmap_version/pebs_taine_tool.c:1451-1529 | the whole memory after a write, on the stack, on the heap list or refused; answer 0 exactly for an unsure address |
| MemoryOperand.SimulatedMemory.AnalyzeMemoryOperator | pebs_mmap_version/pebs_taine_tool.c:1358-1449 | the operand after a read, in all branches |
| MemoryOperand.SimulatedMemory.ScanHeap | pebs_mmap_version/pebs_taine_tool.c:1395-1422 | the heap scan's taint and value; it always ends unsure |
| MemoryOperand.PlaceOf | pebs_mmap_version/pebs_taine_tool.c:1384-1393 | over the registers: an operand whose address (base + index * scale + displacement) mod 2^64 is RBP - k lies at 512 + k for -504 <= k <= 512, goes to the heap list for every other k, and nowhere if a register in use is unsure |
| MemoryOperand.RbpRelative | pebs_mmap_version/pebs_taine_tool.c:1384-1393 | base RBP, no index and displacement -k: the operand is RBP - k |
| MemoryOperand.OperandReadBack | pebs_mmap_version/pebs_taine_tool.c:1358-1529 | a read after a write on the same operand: taint of operand or address, the same unsure flag, and if sure the value modulo 256^(size/8), whatever the maps held before; sizes below 8 look unset |
| MemoryOperand.UntouchedByWrites | pebs_mmap_version/pebs_taine_tool.c:1493-1526 | any sequence of writes to the heap or to disjoint stack bytes leaves a stack read unchanged |
| MemoryOperand.LastOperandSeen | pebs_mmap_version/pebs_taine_tool.c:1358-1529 | after any such sequence a read that resolves to the same place shows the last write, tainted by operand or either address |
| MemoryOperand.LastWriteByAddress | pebs_mmap_version/pebs_taine_tool.c:1358-1529 | by address: a read of RBP - k shows the last write to RBP - k of that size, however either address is split into base, index, scale and displacement, after any writes to addresses whose ranges do not meet |
| MemoryOperand.ReadKeptByAddress | pebs_mmap_version/pebs_taine_tool.c:1358-1529 | by address: writes whose ranges do not meet the read's leave it as it was |
| MemoryOperand.PartByAddress | pebs_mmap_version/pebs_taine_tool.c:1358-1529 | a read of part of a write, s bytes behind its address: taint and unsure flag as written, the value's bytes from length-s-l on |
| MemoryOperand.HeapTaintExact | pebs_mmap_version/pebs_taine_tool.c:1395-1422 | a heap read is tainted if and only if its address is, or an entry for the address with no unsure one before it |
| MemoryOperand.HeapValueExact | pebs_mmap_version/pebs_taine_tool.c:1395-1422 | the value left by the scan is that of the last such sure entry, or the one before |
| MemoryOperand.HeapTaintSeen | pebs_mmap_version/pebs_taine_tool.c:1485-1502 | taint written to the heap is seen by a later read of the address, unless an unsure entry for it comes first |
| AnalysedTable.TaintMemory.InsertAndSearch | pebs_mmap_version/pebs_taine.c:69-193 | one call, for any pid and any set of living processes: the exact new table and answer for hit, append, replaced pair, reused slot, new slot, evicted slot; both counts stay within 1024 |
| AnalysedTable.TaintMemory.SearchSlot | pebs_mmap_version/pebs_taine.c:120-158 | the pair loop: hit, append, or replacement of the least-counted pair |
| AnalysedTable.StepKeeps | pebs_mmap_version/pebs_taine.c:69-193 | calls for living processes: a pid fills at most one slot, a slot's pairs are distinct, both counts stay within 1024 |
| AnalysedTable.StepKeepsExactly | pebs_mmap_version/pebs_taine.c:69-193 | for any call: these invariants are kept if and only if no slot other than the one written carries the pid |
| AnalysedTable.AnswerExact | pebs_mmap_version/pebs_taine.c:69-193 | answer 1 if and only if the pair is held; after the call it is held |
| AnalysedTable.NothingElseAppears | pebs_mmap_version/pebs_taine.c:69-193 | a call adds its own pair only |
| AnalysedTable.OnlyReplacementForgets | pebs_mmap_version/pebs_taine.c:69-193 | only a replaced pair, a reused slot or an evicted slot forgets |
| AnalysedTable.ReplacedPairIsLeast | pebs_mmap_version/pebs_taine.c:123-156 | a replaced pair has the least count of its 1024 pairs; the first of equal ones, the last of several zeros |
| AnalysedTable.EvictedSlotLeast | pebs_mmap_version/pebs_taine.c:75-116 | the evicted slot has the least stored total if and only if the scan finds a total that is 0 or below slot 0's number of pairs, or slot 0 has the least total |
| AnalysedTable.AnswersAgreeWithHistory | pebs_mmap_version/pebs_taine.c:69-193 | over every run for living processes, answer 1 only for a triple passed earlier |
| AnalysedTable.RepeatIsAnswered | pebs_mmap_version/pebs_taine.c:69-193 | an immediate repeat is answered 1 |
| AnalysedTable.CountIsHistory | pebs_mmap_version/pebs_taine.c:123-156 | over every run, a held pair's count is, mod 2^32, the number of calls for the triple since it was last inserted, the inserting call included |
| AnalysedTable.TotalIsHistory | pebs_mmap_version/pebs_taine.c:117-119 | over every run, a slot's total is, mod 2^32, its starting value plus the number of calls that found their pid there; it survives a change of hands |
| AnalysedTable.DroppedPairAskedLeast | pebs_mmap_version/pebs_taine.c:123-156 | over every run, the pair a call drops from its own process was asked for least since its insertion among the 1024 held |
| AnalysedTable.EvictedByUse | pebs_mmap_version/pebs_taine.c:75-116 | over every run, a living process loses its slot only when 1024 living processes fill the table; then the first least used slot goes if one was used 0 times or less often than slot 0 has pairs, else slot 0 |
| AnalysedTable.NewPidPlaced | pebs_mmap_version/pebs_taine.c:160-190 | a new pid goes to the first slot of a dead process, else behind the used slots, with its pair counted once |
| AnalysedTable.ExactWithinBounds | pebs_mmap_version/pebs_taine.c:69-193 | while at most 1024 processes, all alive, and 1024 pairs each are named: answer 1 if and only if the triple was passed earlier |
| Ring.MessageSlotsInRegion | pebs_mmap_version/conf.h:34-43 | 430-byte messages, 58525 slots, all inside the mapped region |
| Ring.RecordSlotsDisjoint | pebs_mmap_version/pebs_buffer.c:129-138 | record slots of different CPUs or indices share no word |
| Ring.RunKeeps | pebs_mmap_version/pebs_message_send.c:312-341 | the ring invariant holds in every state of every interleaving, for every number of slots and slot width |
| Ring.WriterAvoidsReader | pebs_user_mod_src/src/share_mem_tool.cpp:40-49 | the slot being written is never the slot being copied or about to be, with the index published first and with stale index loads |
| Ring.DeliveredIsPrefix | pebs_user_mod_src/src/share_mem_tool.cpp:40-49 | the messages returned are a prefix of those accepted, each whole |
| Ring.HistoryGrows | pebs_mmap_version/pebs_message_send.c:312-328 | both histories only grow |
| Ring.UnreadInRun | pebs_mmap_version/pebs_message_send.c:312-328 | the unread count is (write - read - 1) mod N and lies in 0..N-2 |
| Ring.MessageRing | pebs_mmap_version/pebs_message_send.c:130-135 | the message ring with its own constants: indices 1 and 0 at the start, 58525 slots of 430 bytes, in every interleaving a prefix delivered and 0..58523 unread as the indices show |
| Ring.RecordRing | pebs_mmap_version/pebs_buffer.c:129-138 | the record ring with its own constants: indices 0 and -1, 512 slots of 39 words, under the provision a prefix delivered and at most 510 unread |
| Ring.RefusalExact | pebs_mmap_version/pebs_message_send.c:317-321 | a loaded index refuses if and only if it shows N-2 unread |
| Ring.RefusedOnlyWhenFull | pebs_mmap_version/pebs_message_send.c:317-321 | in every run a refused send had loaded an index that showed N-2 unread |
| Ring.EmptyExact | pebs_user_mod_src/src/share_mem_tool.cpp:45-47 | an empty answer if and only if the loaded index shows nothing unread |
| Ring.JudgedSendSucceeds | pebs_mmap_version/pebs_message_send.c:333-341 | after judge_message_struct_full returned 0 the next send is accepted, whatever the reader does |
| Ring.UnseenRecordsHidden | pebs_mmap_version/pebs_buffer.c:261-265 | a run with 512 records before the first read: the reader finds the ring empty |
| Ring.CountBeforeFirstRead | pebs_mmap_version/pebs_buffer.c:305-317 | in any run before the first read the indices show the true unread count if and only if at most N-1 records were accepted |
| Ring.UnseenRecordsLost | pebs_mmap_version/pebs_buffer.c:261-265 | a run with 513 records before the first read: that read returns the last record, the 512 before it are lost, and what is returned is a prefix of what was accepted only if the last equals the first |
| RingMemory.Region.Send | pebs_mmap_version/pebs_message_send.c:312-328 | the write as performed on the buffer is a run of protocol steps; accepted exactly when fewer than N-2 are unread; the queue grows by the message or stays |
| RingMemory.Region.IsFull | pebs_mmap_version/pebs_message_send.c:333-341 | 1 exactly when N-2 are unread |
| RingMemory.Region.Receive | pebs_user_mod_src/src/share_mem_tool.cpp:40-49 | the read as performed is a run of protocol steps; returns the oldest unread message or none |
| StartOffset.GetStartAddrOffset | pebs_mmap_version/pebs_taine.c:1781-1860 | for every partial length function: the final memo is exactly the offsets below 16 whose linear decoding hits the target, the result exactly those not on the chain of a smaller such offset |
| StartOffset.Walk | pebs_mmap_version/pebs_taine.c:1799-1857 | one start, with both tests of the loop: the memo afterwards, and the result with the bit of the start set once if and only if linear decoding reaches the target; the second test after a hit of the target never fires |
| StartOffset.ReachesIsChain | pebs_mmap_version/pebs_taine.c:1799-1857 | reaching the target means: the target lies behind the offset, below 32, and decoding from the offset starts an instruction there |
| StartOffset.StartDone | pebs_mmap_version/pebs_taine.c:1794-1846 | a start counts if and only if it reaches the target and no smaller reaching start passes through it |
| ReportHeader.AcceptedDistances | pebs_mmap_version/pebs_taine.c:1931-1937 | the guard accepts exactly the signed distances -225..94 |
| ReportHeader.EncodeHeader | pebs_mmap_version/pebs_taine.c:2100-2127 | bytes 0..187 are the header (40..43 as before), nothing behind them changes |
| ReportHeader.HeaderLayout | pebs_mmap_version/pebs_taine.c:2100-2127 | every byte of the header: zero, distance, zeros, process at 4, cache-miss address at 8, zeros at 16, name at 24, unwritten 40..43, registers from 44, each lowest byte first |
| ReportHeader.RegistersRoundTrip | pebs_mmap_version/pebs_taine.c:2123-2127 | the 18 registers occupy 44..187 and are read back |
| ReportHeader.FieldsRoundTrip | pebs_mmap_version/pebs_taine.c:2100-2114 | process, addresses and name sit in disjoint ranges and are read back |
| ReportHeader.DistanceRoundTrip | pebs_user_mod_src/src/full_diasm_info.cpp:83-89 | the branch-miss address is recovered if and only if the signed distance fits a signed byte |
| ReportHeader.FullDiasmInfo.AnalyzeRecyData | pebs_user_mod_src/src/full_diasm_info.cpp:82-115 | every field as a function of the bytes; the return value |
| ReportHeader.DecoderInvertsEncoder | pebs_user_mod_src/src/full_diasm_info.cpp:82-115 | decoding inverts encoding for every report, whatever follows: all fields, the name up to its first NUL; the branch-miss address for all accepted distances except -225..-129 |
| PairingWalk.DebugStore.HandleRecords | pebs_mmap_version/pebs_init.c:505-576 | the backward walk terminates and empties the buffer; each pair handed on has the cache miss's address and registers as start and the branch miss's as end |
| PairingWalk.FoundMembers | pebs_mmap_version/pebs_init.c:505-576 | handed on: exactly the i >= 1 with a branch miss at i, a cache miss at i-1, time difference mod 2^32 at most 300, and the name and address filter |
| PairingWalk.FoundDescending | pebs_mmap_version/pebs_init.c:505-576 | in descending order, so once each |
| PairingWalk.PairsMatch | pebs_mmap_version/pebs_init.c:556-561 | each with the addresses and registers of its own two records, field by field |

## Left out

- Shifts.LogicShiftOperator: operand size 0 (a division by zero in the code) and rcl by 1 at 64 bits (a C shift by 64) are excluded, because C leaves them undefined.
- WideMultiply.ComputeProduct: the other cases of `compute_operator` (add, subtract, divide, idiv) and operand size 0 of imul, a shift by -1, are not modelled.
- Compare.SubSetFlag: length 0 is excluded, because C leaves the shift by -1 undefined; signed overflow is taken to wrap around, as the kernel is compiled.
- MemoryOperand.SimulatedMemory.SetMemoryOperator: excluded is what leaves the code's own tables and buffers - sizes of 72 bits and more, at RBP distance 512 a size below 8 or a sure value (its byte lies behind the stack buffer), and a full heap list; the four heap buffers are one array of records.
- MemoryOperand.SimulatedMemory.AnalyzeMemoryOperator: likewise sizes of 72 bits and more, and at RBP distance 512 a size below 8 or a place that is set and sure.
- ShadowStack.Perform: lengths up to 8 (from 1 for reading a value) inside the buffers; longer ones read past the mask table.
- StartOffset.GetStartAddrOffset: the address plus 64 does not exceed 2^64; the decoder is a partial function from offsets to positive lengths.
- Ring.JudgedSendSucceeds: stated for the message ring; the record ring has no such test.
- Ring.RunKeeps: copies are cell by cell but indices are atomic; index resets while a reader is active and the second producer of the netlink command are not modelled.
- RingMemory.Region.Send: while the read index is still -1 it is called with at most N-2 messages unread, since one more would make the ring look empty (see `Ring.UnseenRecordsLost`).
- SymbolicSearch.SymbolicExecution: instruction effects, operand values and the decoded code are parameters; copies always succeed. The text buffer of symbolic expressions is set aside: after a failed forward exploration the code frees the caller's buffer instead of the copy's (pebs_mmap_version/pebs_taine.c:1507-1509), so a later copy would read from a null pointer (line 1359); the search theorems are about the state without it.
- AnalysedTable.TaintMemory.InsertAndSearch: the set of living processes during a call is a parameter; entries behind a slot's count are not kept, because they are never read.
- ReportHeader.EncodeHeader: the code bytes behind the header and the copying of user pages.
- PairingWalk.DebugStore.HandleRecords: what `write_ring_buffer` decides to keep (its duplicate filter), and the counter reset.
- Register value updates by `set_register_value_by_num`, which adds instead of replacing, and the overlapping register taint words.
- Instruction dispatch of `symbolic_execution_one_step`, `exec_cwd_and`, `add_set_flag`, `search_white_list`, `judge_ret_situation`.
- Allocation failures, MSR programming, netlink and mmap set-up, page pinning, threads, the disassemblers, and the user-side static analyser.
