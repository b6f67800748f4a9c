# Solana SBPF virtual machine: a verified model

This project models the virtual machine under `casestudy/sbpf/src` and proves what its parts promise. It has four parts.

**Control-flow analysis.** `BasicBlocks` cuts a program into blocks and links them. `Tarjan` is the iterative search
for strongly connected components with its explicit recursion stack and its reused `discovery` field. `Topology` orders
the blocks and adds the virtual super root. `Gates` says what the dominator iteration computes and when that is the
immediate dominator, `Dominance` holds its invariant, `ControlFlow` the iteration itself. `Analysis` runs all of it on
the bytes of a program. Blocks are numbered in the order of their keys; the super root is the block behind the last one.

**Address translation.** `Regions` is a memory region with its bit-trick gaps. `Eytzinger` is the search index,
`Mapping` the unaligned mapping with its ring cache and its access-violation handler, `Aligned` the table that fills its
own holes, together with the proof that both mappings agree.

**Verifier and interpreter.** `Arithmetic` and `Instructions` are the arithmetic, the encoding (sections 3.1 and 3.2 of
RFC 9669) and the table of operations per version. `Laws` says what the arithmetic means, as bits and as integers, and
`Opcodes` what every operation code stands for, by its name; neither depends on how the results are computed. `Verifier`
is the static check. `Interpreter` gives one step as a
function on states, `Meaning` what that step does for each kind of instruction, `VirtualMachine` the same step in place
on arrays, and `Runs` proves what holds over whole runs.
Where the program departs from section 4.1 of RFC 9669, as in division by zero, the program is followed.

**Just-in-time compiler.** `JitMeter` models the meter that validates only at branches, as a translation into
micro-operations. `HostCode`, `Sequences` and `Products` are the instruction sequences for masked constants, shifts,
products, quotients and remainders; `Computations` covers all instructions that only compute, `Branches` the conditional
branches. `JumpResolution` is the relocation of branches. `CompiledRuns` shows that every accepted program is an instance
of the guest of the meter proof, so that its compiled code runs and counts as its interpreted runs do.

`Options`, `Words`, `Sorting` and `Graphs` hold the common vocabulary.

Facts of the code that shape the statements:

- `UnalignedMemoryMapping::initialize` leaves the cache alone, so the mapping is initialized once, with an empty cache.
- The gap test looks at the first byte of an access only. An accepted access of several bytes is proved to stay inside
  the host buffer; the exact mapping is proved for single bytes.
- `dominator_parent` is not the immediate dominator for every graph. `HypothesisIsNeeded` gives a graph where it is not,
  `ExitIsImmediateIff` says exactly when it is.
- Compiled code that exceeds its budget stores one instruction more than the interpreter does, and where it sets the kind
  of an error itself it loses r0.
- A run starts at call depth zero, with the instruction meter enabled and a maximal call depth of at least one.
- Integers are unbounded here; every wrap-around, truncation and saturation of the program is written out.

## Model

| member | source | states |
|---|---|---|
| `BasicBlocks.Disassemble` | casestudy/sbpf/src/static_analysis.rs:187-200 | the list holds the instruction at every place of the program, one after the other, a wide one with the immediate of both halves and taking two places; only a lone first half at the very end is left out |
| `BasicBlocks.ListingIsUnique` | casestudy/sbpf/src/static_analysis.rs:187-200 | that determines the list |
| `BasicBlocks.Collect` | casestudy/sbpf/src/static_analysis.rs:246-345 | one pass notes the starts that functions, jumps, calls and exits ask for and the edges that they make: place behind, target, called function, and nothing else |
| `BasicBlocks.AskLaw` | casestudy/sbpf/src/static_analysis.rs:252-343 | an instruction makes a block start exactly behind a jump, exit, register call or resolved call, at the target of a jump, and at the function that a call resolves to |
| `BasicBlocks.KeyLaw` | casestudy/sbpf/src/program.rs:97-103 | the key of a call is its immediate modulo 2^32, since the third version counted from the instruction behind the call |
| `BasicBlocks.GoalLaw` | casestudy/sbpf/src/static_analysis.rs:252-366 | a conditional jump leads to the place behind it and then to its target, an unconditional one to its target only, calls to the place behind, an exit nowhere, each as far as an instruction is listed there |
| `BasicBlocks.CollectedRight` | casestudy/sbpf/src/static_analysis.rs:246-345 | the noted starts and edges are those, for every list of instructions that memory can hold |
| `BasicBlocks.Walk` | casestudy/sbpf/src/static_analysis.rs:375-407 | the walk over ordered starts and edges gives every block its range and its destinations |
| `BasicBlocks.SplitIntoBasicBlocks` | casestudy/sbpf/src/static_analysis.rs:246-414 | blocks are contiguous, non-empty, disjoint and cover the instructions; they start exactly at zero, at functions, at targets of jumps and behind instructions that move control; only their last instruction moves control; destinations, in order, are where that one goes, or the fall-through |
| `BasicBlocks.SplitCutsRight` | casestudy/sbpf/src/static_analysis.rs:246-414 | every split has these starts and destinations, both directions, from the decoded instructions alone |
| `BasicBlocks.ListingIsAddressable` | casestudy/sbpf/src/static_analysis.rs:187-200 | the listing of every program that memory can hold is in the range that this needs |
| `BasicBlocks.StartsAreDistinct` | casestudy/sbpf/src/static_analysis.rs:375-407 | later blocks start at later places |
| `BasicBlocks.DestinationsAreStarts` | casestudy/sbpf/src/static_analysis.rs:346-366 | every destination of a block is the start of a block |
| `BasicBlocks.GraphIsExact` | casestudy/sbpf/src/static_analysis.rs:394-414 | block numbers are joined by an edge exactly if one block lists the start of the other |
| `BasicBlocks.LinkEdges` | casestudy/sbpf/src/static_analysis.rs:224-241 | the source lists are the inverse of the destination lists |
| `Analysis.FromExecutable` | casestudy/sbpf/src/static_analysis.rs:169-222 | the whole pipeline: the listing of the program, its split, its linked graph, its components, order, super root, hierarchy and lists of children |
| `Analysis.LoopProgramIsWrong` | casestudy/sbpf/src/static_analysis.rs:169-222 | a program of five accepted instructions whose analysis, in every version, with every registry and whatever it answers, gives a block a parent that is not its immediate dominator |
| `Tarjan.FindComponents` | casestudy/sbpf/src/static_analysis.rs:746-838 | terminates; two blocks share an id iff they reach each other, every edge goes to an equal or smaller id, positions inside a component are distinct, all but the block at the largest position have a source at a larger one, and a block that no smaller block leads to, such as block 0, is at the largest position of its component |
| `Tarjan.EntersRooted` | casestudy/sbpf/src/static_analysis.rs:772-785 | whatever was discovered before a block is reached from a root that is smaller than the block |
| `Tarjan.Leading` | casestudy/sbpf/src/static_analysis.rs:802-827 | so the search enters a component at the block that no smaller block leads to, and puts it first |
| `Tarjan.EnterBlock` | casestudy/sbpf/src/static_analysis.rs:777-785 | entering a block keeps the invariant of the search |
| `Tarjan.FollowEdges` | casestudy/sbpf/src/static_analysis.rs:786-801 | following edges keeps the invariant and stops at the first undiscovered destination |
| `Tarjan.FinishBlock` | casestudy/sbpf/src/static_analysis.rs:802-831 | finishing a block keeps the invariant, whether its component closes or not |
| `Tarjan.CloseRoot` | casestudy/sbpf/src/static_analysis.rs:802-815 | a block whose lowlink is its discovery closes exactly its component |
| `Tarjan.CloseComponent` | casestudy/sbpf/src/static_analysis.rs:803-813 | the inner loop pops down to the block and renumbers what it pops from zero |
| `Tarjan.NextRoot` | casestudy/sbpf/src/static_analysis.rs:819-827 | finds the first undiscovered block |
| `Tarjan.DiscoverInv` | casestudy/sbpf/src/static_analysis.rs:779-785 | discovery keeps every part of the invariant |
| `Tarjan.AdvanceInv` | casestudy/sbpf/src/static_analysis.rs:787-801 | passing an edge keeps every part of the invariant |
| `Tarjan.FinishOpenInv` | casestudy/sbpf/src/static_analysis.rs:816-818 | leaving an open block, with its lowlink passed to its parent, keeps the invariant |
| `Tarjan.ClosesInv` | casestudy/sbpf/src/static_analysis.rs:802-815 | closing a component keeps the invariant |
| `Tarjan.ClosingConnected` | casestudy/sbpf/src/static_analysis.rs:802-815 | all blocks of a closing component reach each other |
| `Tarjan.ClosingMaximal` | casestudy/sbpf/src/static_analysis.rs:802-815 | no other block belongs to the closing component |
| `Topology.OrderIsTopological` | casestudy/sbpf/src/static_analysis.rs:839-845 | the order is a permutation in which every edge between components points forward |
| `Topology.SuperRootDestinations` | casestudy/sbpf/src/static_analysis.rs:846-871 | the super root leads to the first block of exactly the components that are not entered from outside |
| `Topology.RootSourceInverse` | casestudy/sbpf/src/static_analysis.rs:872-881 | with the super root the source lists are still the inverse of the destination lists |
| `Topology.SuperRootReachesAll` | casestudy/sbpf/src/static_analysis.rs:846-881 | the super root reaches every block of every graph |
| `ControlFlow.IntersectDominators` | casestudy/sbpf/src/static_analysis.rs:884-900 | the walk ends, never reads an unknown parent and never compares equal indices, whatever the parents rank; the crests of the result, the blocks above it that rank before everything below them, are the common crests of both blocks |
| `ControlFlow.MeetSources` | casestudy/sbpf/src/static_analysis.rs:917-927 | unset iff no source is known; otherwise the crests of the result are the common crests of the known sources |
| `ControlFlow.SweepOnce` | casestudy/sbpf/src/static_analysis.rs:914-933 | a pass keeps the invariant; known blocks and what they lead to are known after it, it takes paths of one block more into account, once all lengths are it yields the hierarchy, and the flag tells whether anything changed |
| `ControlFlow.DominanceHierarchy` | casestudy/sbpf/src/static_analysis.rs:905-937 | for every graph the iteration exits, after at most 2n + 1 passes, and every parent is the latest block that gates all sources: every path from an earlier ranked block to a source passes through it |
| `ControlFlow.Analyze` | casestudy/sbpf/src/static_analysis.rs:746-948 | components, order, super root, hierarchy and lists of children of an arbitrary graph |
| `Dominance.CrestsAreAncestors` | casestudy/sbpf/src/static_analysis.rs:884-900 | where parents rank before their children, crests are ancestors, so that the intersection is the nearest common ancestor |
| `Dominance.GatesAreCrests` | casestudy/sbpf/src/static_analysis.rs:913-937 | at every moment of the iteration the gates of a known block are among its crests |
| `Dominance.CrestsGate` | casestudy/sbpf/src/static_analysis.rs:913-937 | crests gate, as far as paths can tell that are one block longer than the iteration has settled |
| `Dominance.StepGood` | casestudy/sbpf/src/static_analysis.rs:928-932 | an update of one parent keeps the invariant: parents became known before their children, and no gate is lost |
| `Dominance.StepIsLatest` | casestudy/sbpf/src/static_analysis.rs:917-932 | once paths of all lengths are settled, an update yields the latest gate of all sources |
| `Dominance.Progress` | casestudy/sbpf/src/static_analysis.rs:913-937 | every pass but the last makes a block known, settles longer paths, or reaches the hierarchy |
| `Dominance.ExitIsHierarchy` | casestudy/sbpf/src/static_analysis.rs:934-936 | a pass that changes nothing has found the hierarchy |
| `Gates.HierarchyIsUnique` | casestudy/sbpf/src/static_analysis.rs:913-937 | the hierarchy is determined by graph and order |
| `Gates.AncestorsDominate` | casestudy/sbpf/src/static_analysis.rs:913-937 | every ancestor of a block dominates it |
| `Gates.RootIsAbove` | casestudy/sbpf/src/static_analysis.rs:913-937 | following parents ends at the super root |
| `Gates.ImmediateExists` | casestudy/sbpf/src/static_analysis.rs:65-66 | every reachable block but the root has an immediate dominator |
| `Gates.ParentIsImmediateIff` | casestudy/sbpf/src/static_analysis.rs:905-937 | the parent is the immediate dominator iff the immediate dominator gates every source |
| `Gates.ParentIsImmediate` | casestudy/sbpf/src/static_analysis.rs:905-937 | which it does if every block has an earlier source |
| `ControlFlow.ExitIsSound` | casestudy/sbpf/src/static_analysis.rs:905-947 | for every graph no parent is unset or the block itself, following parents ends at the super root, and every path from the super root passes through all ancestors |
| `ControlFlow.CollectChildren` | casestudy/sbpf/src/static_analysis.rs:938-947 | every block is listed with its parent, in the topological order |
| `ControlFlow.ChildrenAreDominated` | casestudy/sbpf/src/static_analysis.rs:67-68 | the blocks listed with a block are exactly those whose parent it is, and can only be reached through it |
| `ControlFlow.ExitIsImmediateIff` | casestudy/sbpf/src/static_analysis.rs:905-937 | for every graph and block the parent is the immediate dominator iff every path from a block ranked before the immediate dominator to a source passes through the immediate dominator |
| `ControlFlow.EarlierSourcesIff` | casestudy/sbpf/src/static_analysis.rs:839-881 | every block has an earlier source iff every component entered from outside is entered at its first block |
| `ControlFlow.ExitIsExact` | casestudy/sbpf/src/static_analysis.rs:884-937 | under that condition every parent is the immediate dominator |
| `ControlFlow.HypothesisIsNeeded` | casestudy/sbpf/src/static_analysis.rs:746-937 | a graph outside of the condition for which every outcome of the analysis gives some block a parent that is not its immediate dominator |
| `ControlFlow.HypothesisIsNotNecessary` | casestudy/sbpf/src/static_analysis.rs:746-937 | a graph outside of the condition for which every outcome of the analysis gives every block its immediate dominator |
| `Regions.GapBits` | casestudy/sbpf/src/memory_region.rs:237-244 | the shifts and masks compute whether an offset is in a gap and the offset without gaps |
| `Regions.GapsRoundTrip` | casestudy/sbpf/src/memory_region.rs:237-244 | removing gaps undoes inserting them |
| `Regions.FramesRoundTrip` | casestudy/sbpf/src/memory_region.rs:237-244 | inserting gaps undoes removing them, outside of gaps |
| `Regions.TranslationIsExact` | casestudy/sbpf/src/memory_region.rs:214-252 | translation succeeds exactly for permitted accesses whose first byte is mapped and whose length fits |
| `Regions.AccessIsContained` | casestudy/sbpf/src/memory_region.rs:214-252 | an accepted access of any length stays inside the host buffer |
| `Regions.ByteIsReachedOnce` | casestudy/sbpf/src/memory_region.rs:214-252 | every host byte is reached from exactly one guest address |
| `Regions.GuestRange` | casestudy/sbpf/src/memory_region.rs:205-211 | that guest address lies in the advertised range |
| `Regions.BehindRange` | casestudy/sbpf/src/memory_region.rs:205-252 | behind its range a region accepts nothing |
| `Regions.GapShiftIsExponent` | casestudy/sbpf/src/memory_region.rs:170-176 | a gap size that is a power of two is stored as its exponent |
| `Regions.NewRegionTranslates` | casestudy/sbpf/src/memory_region.rs:164-186 | a new region without gaps maps exactly its bytes, one by one, and stores only if it is writable |
| `Regions.NewGappedRegionTranslates` | casestudy/sbpf/src/memory_region.rs:164-203 | a new region with gaps maps every byte of its buffer behind as many gaps as frames lie before it, and stores only if it is writable |
| `Eytzinger.Construct` | casestudy/sbpf/src/memory_region.rs:313-325 | the recursion writes the subtree of a slot in order, and nothing else |
| `Eytzinger.Build` | casestudy/sbpf/src/memory_region.rs:313-325 | every slot holds its in-order position and that region's start |
| `Eytzinger.LastStart` | casestudy/sbpf/src/memory_region.rs:369-405 | the plain scan: the last region that starts at or before an address |
| `Eytzinger.Search` | casestudy/sbpf/src/memory_region.rs:384-404 | the branch-free search with the trailing-zero shift gives the plain scan's answer |
| `Mapping.MappingCache.constructor` | casestudy/sbpf/src/memory_region.rs:863-868 | a new cache is empty |
| `Mapping.MappingCache.Find` | casestudy/sbpf/src/memory_region.rs:871-883 | the first hit among the entries, the most recent first |
| `Mapping.MappingCache.Insert` | casestudy/sbpf/src/memory_region.rs:886-891 | a new entry comes first and pushes out the oldest |
| `Mapping.MappingCache.Flush` | casestudy/sbpf/src/memory_region.rs:894-897 | the cache is empty |
| `Mapping.HitIsLastStart` | casestudy/sbpf/src/memory_region.rs:378-383 | a cached answer is the plain scan's answer |
| `Mapping.SortedRegionsSorted` | casestudy/sbpf/src/memory_region.rs:276-280 | sorting gives a permutation by ascending start |
| `Mapping.UnalignedMapping.Initialize` | casestudy/sbpf/src/memory_region.rs:354-367 | succeeds iff the sorted regions do not overlap, reports the first overlap, and establishes the invariant |
| `Mapping.UnalignedMapping.FindRegion` | casestudy/sbpf/src/memory_region.rs:372-405 | with cache and index, the plain scan's answer; the invariant is kept |
| `Mapping.ReplacedKeepsLayout` | casestudy/sbpf/src/memory_region.rs:778-798 | no replacement disturbs the layout or moves a region |
| `Mapping.HandledKeepsLayout` | casestudy/sbpf/src/memory_region.rs:677-707 | no handler, whatever it returns, disturbs the layout or moves a region |
| `Mapping.ReplacedLaw` | casestudy/sbpf/src/memory_region.rs:778-798 | a replacement succeeds iff the region starts as the old one does and ends before the next one; then it is in its place and all others are as before; otherwise nothing changed |
| `Mapping.HandledLaw` | casestudy/sbpf/src/memory_region.rs:677-707 | the exact answer of an access and the regions after it, in all cases: translation disabled, no region, a region that translates, a handler that fails, a handler whose region does not fit, and one whose region is put in place |
| `Mapping.HandledIsMapped` | casestudy/sbpf/src/memory_region.rs:677-707 | after a success the region found for the address translates this access to the answer; after a failure nothing changed |
| `Mapping.AccessErrorLaw` | casestudy/sbpf/src/memory_region.rs:810-844 | an error names access, address and length; it names the frame iff frames are fixed and the truncated distance is within the call depth, and otherwise the region of the address |
| `Mapping.UnalignedMapping.ReplaceRegion` | casestudy/sbpf/src/memory_region.rs:413-421 | succeeds iff the region can take the place; then that place holds it and every other one what it held; a failure changes nothing; the invariant is kept, and no stale cache entry is left |
| `Mapping.UnalignedMapping.MapAddress` | casestudy/sbpf/src/memory_region.rs:658-670 | the translation through the region that the plain scan finds, or the access violation |
| `Mapping.UnalignedMapping.MapWithHandler` | casestudy/sbpf/src/memory_region.rs:677-707 | after a success the region found for the address in the new regions translates this access to the answer; a failure changes no region; the invariant is kept |
| `Mapping.UnalignedMapping.Serve` | casestudy/sbpf/src/memory_region.rs:658-798 | every history of lookups, accesses, replacements and handlers gets the answers of plain scans and keeps the invariant |
| `Aligned.AlignedMapping.FillHoles` | casestudy/sbpf/src/memory_region.rs:459-482 | terminates; fails iff two given regions share a slot, and names that slot; on success slot i holds a region of slot i, given regions are kept, and fillers are elsewhere |
| `Aligned.FillerIsEmpty` | casestudy/sbpf/src/memory_region.rs:470-480 | a filler starts its slot, and gives no byte and no right to store |
| `Aligned.AlignedMapping.PadZero` | casestudy/sbpf/src/memory_region.rs:483-497 | succeeds iff the padded regions fill the slots from zero on, and reports the first that does not |
| `Aligned.AlignedMapping.Initialize` | casestudy/sbpf/src/memory_region.rs:457-500 | succeeds iff no two regions share a slot, or without region zero iff the padded regions fill the slots from zero on; a success leaves a table of the given regions |
| `Aligned.AlignedMapping.MapAddress` | casestudy/sbpf/src/memory_region.rs:504-513 | the translation through the region in the address's slot |
| `Aligned.AlignedMapping.ReplaceRegion` | casestudy/sbpf/src/memory_region.rs:520-540 | succeeds iff the region can take the place and its first and last byte lie in the slot; then only that place changes; a failure changes nothing; every region stays in its slot |
| `Aligned.InsideIsWellLaid` | casestudy/sbpf/src/memory_region.rs:354-367 | regions inside their own slots that do not share one are accepted by the unaligned mapping |
| `Aligned.MappingsAgree` | casestudy/sbpf/src/memory_region.rs:658-670 | for regions inside their own slots both mappings give the same host address or the same error for every access of at least one byte |
| `Instructions.ParseEncode` | casestudy/sbpf/src/ebpf.rs:587-598 | decoding undoes encoding |
| `Instructions.EncodeParse` | casestudy/sbpf/src/ebpf.rs:675-684 | encoding undoes decoding |
| `Opcodes.ArithmeticCodes` | casestudy/sbpf/src/ebpf.rs:265-353 | the codes for sums and differences, both widths, both sources, every version, with the turned operands of the second version |
| `Opcodes.BitwiseCodes` | casestudy/sbpf/src/ebpf.rs:281-381 | the codes for or, and, exclusive or |
| `Opcodes.ShiftCodes` | casestudy/sbpf/src/ebpf.rs:289-398 | the codes for shifts |
| `Opcodes.MoveCodes` | casestudy/sbpf/src/ebpf.rs:307-394 | the codes for moves, sign extending between registers in the second version |
| `Opcodes.OlderCodes` | casestudy/sbpf/src/ebpf.rs:273-390 | the codes for multiplication, division, remainder and negation outside of the second version |
| `Opcodes.ProductCodes` | casestudy/sbpf/src/ebpf.rs:315-421 | the codes for products of the second version, with the immediates that are not sign extended |
| `Opcodes.DivisionCodes` | casestudy/sbpf/src/ebpf.rs:324-429 | the same for its divisions |
| `Opcodes.ByteOrderCodes` | casestudy/sbpf/src/ebpf.rs:213-400 | the codes for byte order, for the high half and for the wide load, by version |
| `Opcodes.MemoryCodes` | casestudy/sbpf/src/ebpf.rs:215-237 | the codes for loads and stores outside of the second version |
| `Opcodes.MovedMemoryCodes` | casestudy/sbpf/src/ebpf.rs:240-262 | the codes for loads and stores in the second version |
| `Opcodes.JumpCodes` | casestudy/sbpf/src/ebpf.rs:432-521 | the codes for comparisons, those of 32 bits since the third version |
| `Opcodes.ControlCodes` | casestudy/sbpf/src/ebpf.rs:477-527 | the codes for the jump, the calls and the exit |
| `Opcodes.OnlyNamedCodes` | casestudy/sbpf/src/ebpf.rs:213-527 | exactly the named codes of a version are operations in it; every other code is unknown |
| `Laws.TruncLaw` | casestudy/sbpf/src/interpreter.rs:267-412 | truncation gives the number below 2^32 or 2^64 that agrees in the low bits |
| `Laws.SignedLaw` | casestudy/sbpf/src/interpreter.rs:452-487 | a signed reading agrees in the low bits and lies in the signed range |
| `Laws.SignedIsUnique` | casestudy/sbpf/src/interpreter.rs:452-487 | which determines it |
| `Laws.AluLaw` | casestudy/sbpf/src/interpreter.rs:267-413 | sums, differences, products and moves are congruent to the integers they are named after and extended as the version says; bitwise operations combine the operands bit by bit; the high half joins at bit 32 |
| `Laws.ShiftLaw` | casestudy/sbpf/src/interpreter.rs:294-410 | every bit of a shifted register is the bit that lies the amount modulo the width away, or zero, or the sign |
| `Laws.SwapLaw` | casestudy/sbpf/src/interpreter.rs:332-341 | a byte swap turns the order of the bytes around |
| `Laws.DivisionLaw` | casestudy/sbpf/src/interpreter.rs:452-487 | dividend = quotient * divisor + remainder, the remainder smaller than the divisor and zero or of the dividend's sign |
| `Laws.DivisionIsUnique` | casestudy/sbpf/src/interpreter.rs:452-487 | which determines both |
| `Laws.PqrLaw` | casestudy/sbpf/src/interpreter.rs:416-487 | low and high products, signed and unsigned quotients and remainders obey these laws in both widths |
| `Laws.HoldsLaw` | casestudy/sbpf/src/interpreter.rs:490-536 | every condition is the comparison of the low bits, unsigned or, with the sign turned over, signed; the bit test holds iff the operands share a bit |
| `Verifier.Verify` | casestudy/sbpf/src/verifier.rs:222-421 | the loop accepts iff the length is right and every instruction that does not follow a wide one is good field by field; otherwise it reports the first that is not, with the error that says what is wrong with it |
| `Verifier.AcceptedIfGood` | casestudy/sbpf/src/verifier.rs:94-421 | the accepted programs, both directions: known operations, registers in range, r10 written only by stores and stack bumps, shifts below the width, bumps by multiples of 64, divisors not zero, byte orders of 16, 32 or 64, targets inside and not onto code zero, wide loads with their second half, call registers below ten |
| `Verifier.PassesIfGood` | casestudy/sbpf/src/verifier.rs:102-214 | the same for one instruction |
| `Verifier.ErrorIsBlamed` | casestudy/sbpf/src/verifier.rs:94-214 | every error is the one that belongs to the broken rule, with its operands and its place |
| `Verifier.ZeroIsSecondHalf` | casestudy/sbpf/src/verifier.rs:130-140 | in an accepted program operation code zero marks second halves of wide instructions and nothing else |
| `Interpreter.PassedIsSafe` | casestudy/sbpf/src/verifier.rs:102-214 | registers, immediates and targets of an instruction that passed are in range |
| `Interpreter.AcceptedIsSafe` | casestudy/sbpf/src/verifier.rs:222-421 | every instruction of an accepted program is safe to perform, or is a second half |
| `Interpreter.NextKeeps` | casestudy/sbpf/src/interpreter.rs:185-610 | every step from a sane state is defined and leads to a sane state; the depth never passes its maximum |
| `Interpreter.SecondHalfStops` | casestudy/sbpf/src/interpreter.rs:605-605 | a run that lands on a second half stops with UnsupportedInstruction |
| `Meaning.ComputeStep` | casestudy/sbpf/src/interpreter.rs:267-487 | a computing instruction changes the destination to a value that obeys the law of its operation, the program counter and the meter, and nothing else; it fails exactly for a zero divisor and for the overflowing division |
| `Meaning.BitwiseStep` | casestudy/sbpf/src/interpreter.rs:290-406 | at the codes for or, and, exclusive or, every bit of the new destination combines the operands' bits, and nothing else changes |
| `Meaning.ComputeLaw` | casestudy/sbpf/src/interpreter.rs:267-487 | the result or the error of every computation |
| `Meaning.EndianLaw` | casestudy/sbpf/src/interpreter.rs:322-341 | the low bytes in the same or in the opposite order |
| `Meaning.OperandLaw` | casestudy/sbpf/src/interpreter.rs:267-487 | the second operand is the register or the immediate, sign extended or not |
| `Meaning.LoadStep` | casestudy/sbpf/src/interpreter.rs:213-228 | a load reads its size at the source plus the offset modulo 2^64 and changes the destination only |
| `Meaning.StoreStep` | casestudy/sbpf/src/interpreter.rs:231-264 | a store writes the low bytes of its operand at the destination plus the offset modulo 2^64 and changes no register |
| `Meaning.WideStep` | casestudy/sbpf/src/interpreter.rs:205-210 | a wide load takes the low half from the first and the high half from the second immediate and steps over both |
| `Meaning.JumpStep` | casestudy/sbpf/src/interpreter.rs:490-536 | a jump goes to its target exactly if the operands compare as its name says, and changes the program counter only |
| `Meaning.UnknownStep` | casestudy/sbpf/src/interpreter.rs:605-605 | an unknown code stops the run with UnsupportedInstruction |
| `Meaning.EnterLaw` | casestudy/sbpf/src/interpreter.rs:138-166 | a call saves r6 to r9, r10 and the place behind it in the free frame, moves r10 by the stride of the version and goes to its target; errors for no free frame and for no such instruction |
| `Meaning.CallRegisterStep` | casestudy/sbpf/src/interpreter.rs:538-550 | an indirect call enters the instruction that holds the address in the register that the version names |
| `Meaning.CallStep` | casestudy/sbpf/src/interpreter.rs:552-587 | a direct call hands the key, r1 to r5 and the budget to the built-in function, then enters the guest function; without either it fails |
| `Meaning.ExitStep` | casestudy/sbpf/src/interpreter.rs:588-604 | an exit restores r6 to r10 and the program counter from the last frame and keeps r0 to r5, or ends the run with r0 |
| `VirtualMachine.EbpfVm.constructor` | casestudy/sbpf/src/vm.rs:376-413 | the initial registers |
| `VirtualMachine.EbpfVm.PushFrame` | casestudy/sbpf/src/interpreter.rs:138-166 | saves the caller in the next frame, and bumps the frame pointer unless the depth is exhausted |
| `VirtualMachine.EbpfVm.DispatchSyscall` | casestudy/sbpf/src/program.rs:360-379 | hands the meter over to the built-in function and takes it back |
| `VirtualMachine.EbpfVm.ExitFrame` | casestudy/sbpf/src/interpreter.rs:588-604 | restores the caller from the last frame, or ends the run |
| `VirtualMachine.EbpfVm.EnterFunction` | casestudy/sbpf/src/interpreter.rs:538-550 | pushes a frame and continues at the target, with both errors |
| `VirtualMachine.EbpfVm.CallImmediate` | casestudy/sbpf/src/interpreter.rs:552-587 | resolves a call to a built-in function, a guest function, both or none |
| `VirtualMachine.EbpfVm.PerformInstruction` | casestudy/sbpf/src/interpreter.rs:195-609 | performs any instruction of an accepted program in place, every index and division in range, as the function does whose steps `Meaning` describes |
| `VirtualMachine.EbpfVm.Step` | casestudy/sbpf/src/interpreter.rs:185-610 | one step in place is the step that `Meaning` describes instruction by instruction, for every accepted program and sane state |
| `VirtualMachine.EbpfVm.ExecuteProgram` | casestudy/sbpf/src/vm.rs:426-489 | the run ends; the result is the run's, and the returned count is attempted instructions plus what built-in functions consumed |
| `VirtualMachine.InitialIsSane` | casestudy/sbpf/src/vm.rs:384-438 | a new machine is sane with its registers zero, its program counter at the entry, and its frame pointer at the end of frame zero, or of the stack in versions with manual bumps |
| `Runs.Run` | casestudy/sbpf/src/vm.rs:590-592 | every state of a run is sane and its depth never passes the maximum |
| `Runs.NextShape` | casestudy/sbpf/src/interpreter.rs:185-610 | a step leaves the frames alone, pushes one frame, or pops one |
| `Runs.FrameStays` | casestudy/sbpf/src/interpreter.rs:138-166 | a pushed frame stays as it is while the run is deeper |
| `Runs.CallsAreBalanced` | casestudy/sbpf/src/interpreter.rs:538-604 | when the frame of a call is first popped, r6 to r9, r10 and the pc are those of the call, whatever happened deeper |
| `Runs.RunKeepsPointers` | casestudy/sbpf/src/interpreter.rs:138-166 | in every reachable state without manual bumps each live frame pointer is stack start + frame size + depth * stride |
| `Runs.FrameIsSlice` | casestudy/sbpf/src/memory_region.rs:214-252 | byte o below frame pointer i is byte o of slice i of the host stack, gaps or not |
| `Runs.LiveFramesAreSlices` | casestudy/sbpf/src/interpreter.rs:151-163 | in every reachable state live frames are in bounds and pairwise disjoint on the host |
| `Runs.NextMeter` | casestudy/sbpf/src/interpreter.rs:188-194 | a step takes one from the budget and what its built-in function consumes |
| `Runs.MeterIsConserved` | casestudy/sbpf/src/interpreter.rs:612-618 | at every point of every run the budget is what was attempted, what was consumed, and what is left |
| `Runs.NextProgresses` | casestudy/sbpf/src/interpreter.rs:188-194 | with built-in functions that never raise the budget every step that goes on lowers it |
| `Runs.RunsAreBounded` | casestudy/sbpf/src/vm.rs:590-592 | no run is longer than its budget |
| `JitMeter.Compile` | casestudy/sbpf/src/jit.rs:432-880 | emits the micro-operations of every instruction, with a checkpoint at least every so many instructions |
| `JitMeter.SimulateStep` | casestudy/sbpf/src/jit.rs:455-880 | one interpreter step within the budget is matched by the compiled code of the instruction |
| `JitMeter.SimulateSyscallAndCall` | casestudy/sbpf/src/jit.rs:814-834 | a key that names both a built-in and a guest function: the compiled call behind the compiled system call does what the interpreter does |
| `JitMeter.Returns` | casestudy/sbpf/src/jit.rs:1132-1171 | a return undoes the profiling at the call and restores the caller |
| `JitMeter.LeavesExceeded` | casestudy/sbpf/src/jit.rs:996-1008 | past the budget compiled code performs only unchecked instructions in a row, then reports ExceededMaxInstructions in place of anything else |
| `JitMeter.MeterRefines` | casestudy/sbpf/src/jit.rs:296-343 | for every program, run and budget, meter minus pc is the interpreter's remaining budget at every boundary, the verdicts and counts agree, and the data is the interpreter's, changed by the handler where compiled code sets the kind of an error |
| `JitMeter.CompiledStopsLikeInterpreter` | casestudy/sbpf/src/jit.rs:1435-1517 | if compiled code stops the interpreter stops, with the same verdict, count and, up to that change, data |
| `JitMeter.InvokeRelates` | casestudy/sbpf/src/jit.rs:128-139 | entering compiled code relates its state to the interpreter's |
| `JitMeter.OvershootIsBounded` | casestudy/sbpf/src/jit.rs:439-442 | a run past its budget leaves within the checkpoint distance |
| `CompiledRuns.StepLinked` | casestudy/sbpf/src/interpreter.rs:185-610 | every step of the interpreter on an accepted program is a step of the abstract guest of the meter proof |
| `CompiledRuns.RunLinked` | casestudy/sbpf/src/vm.rs:590-592 | the same for every run |
| `CompiledRuns.GuestIsWellFormed` | casestudy/sbpf/src/verifier.rs:130-167 | an accepted program has the control flow that the meter proof asks for |
| `CompiledRuns.CompiledRunsCountAlike` | casestudy/sbpf/src/jit.rs:296-343 | for every accepted program, run and budget that does not wrap, compiled code reaches the interpreter's boundaries with the same registers, host and call depth and with meter minus pc equal to the remaining budget, and returns the same value or stops with the same error; unless the budget is exceeded also with the same count, host and registers, except that an error whose kind compiled code sets itself leaves the address of the result slot in r0 |
| `CompiledRuns.InterpreterStopsToo` | casestudy/sbpf/src/jit.rs:1396-1517 | where the compiled code of an accepted program stops, its interpreted run stops, with the same value or error, count, host and registers, with the same exceptions |
| `Sequences.SanitizedLoadLoads` | casestudy/sbpf/src/jit.rs:942-962 | for every constant, key and register the masked load yields the constant and touches nothing but the scratch register |
| `Sequences.SanitizedAluComputes` | casestudy/sbpf/src/jit.rs:964-974 | masked or not, the operation sees the constant |
| `Sequences.ShiftIsEmitted` | casestudy/sbpf/src/jit.rs:1279-1301 | for every amount and every overlap with RCX the emitted shift gives the interpreter's result and keeps all other registers and the stack |
| `Products.CoreComputes` | casestudy/sbpf/src/jit.rs:1359-1387 | the half that is kept of the double-width arithmetic is the product, quotient or remainder that the division law determines, which is the interpreter's result; the processor does not trap |
| `Products.GuardsDecide` | casestudy/sbpf/src/jit.rs:1320-1349 | the guards raise the interpreter's error, and only that |
| `Products.ProductIsEmitted` | casestudy/sbpf/src/jit.rs:1304-1394 | for all operands, keys and overlaps with RAX and RDX the sequence gives the interpreter's result or error and keeps all other guest registers and the stack |
| `Products.CompiledProduct` | casestudy/sbpf/src/jit.rs:732-759 | the same from the instruction on, with the immediate that the compiler passes |
| `Computations.ArithIsEmitted` | casestudy/sbpf/src/jit.rs:510-730 | sums, differences, products, logic and moves give the interpreter's result with its extension, in every version that has them |
| `Computations.EndianIsEmitted` | casestudy/sbpf/src/jit.rs:613-638 | masks and byte swaps give the interpreter's conversion |
| `Computations.ComputationIsCompiled` | casestudy/sbpf/src/jit.rs:510-759 | for every version and every instruction that only computes and passed the verifier, compiled code gives the interpreter's result or error and keeps all other guest registers and the stack |
| `Computations.CompiledMeaning` | casestudy/sbpf/src/jit.rs:510-759 | compiled code leaves a value that obeys the law of the operation, or raises the error that a zero divisor or an overflow calls for |
| `Branches.FlagsCompare` | casestudy/sbpf/src/jit.rs:1248-1258 | the flags of a comparison order the operands, signed and unsigned, in both widths |
| `Branches.BranchIsRight` | casestudy/sbpf/src/jit.rs:1248-1277 | for every condition, width, constant, key and operand, the emitted comparison and jump branch exactly when the interpreter does, and leave the guest registers alone |
| `JumpResolution.JitCompiler.constructor` | casestudy/sbpf/src/jit.rs:71-95 | the pc section starts zeroed |
| `JumpResolution.JitCompiler.RelativeToTargetPc` | casestudy/sbpf/src/jit.rs:1693-1705 | the displacement to a filled place, or a recorded relocation |
| `JumpResolution.JitCompiler.EmitBranch` | casestudy/sbpf/src/jit.rs:786-790 | a new branch lands at once or is pending; all others stay as they are |
| `JumpResolution.JitCompiler.ResolveJumps` | casestudy/sbpf/src/jit.rs:1707-1716 | every branch lands, and no byte outside of the displacements changes |
| `JumpResolution.StartsFilled` | casestudy/sbpf/src/jit.rs:78-84 | zero marks only places that are not filled |
| `JumpResolution.JitCompiler.Compile` | casestudy/sbpf/src/jit.rs:432-884 | after compilation every branch lands on the recorded start of its target, the code around the displacements is as planned, and failure means that the buffer is too small |

## Left out

- Analysis.FromExecutable: stops at the hierarchy; labels and the data-flow graph are not modelled.
- BasicBlocks.SplitIntoBasicBlocks: models the split without the flattened call graph, which is how the analysis calls it; the graph is not claimed to cover every transition of the interpreter, since blocks that start a function get no fall-through edge.
- Tarjan.FindComponents: vectors are sequences that the loops reassign; update in place is not captured.
- Mapping.UnalignedMapping.Serve: `get_regions_mut` followed by a second initialization is not modelled, because that initialization leaves the cache as it is.
- Mapping.UnalignedMapping.MapWithHandler: a handler is a pure function, chosen anew for every request; effects of handlers outside of the region are not modelled.
- Aligned.AlignedMapping.PadZero: models the first initialization only; each further one would push another empty region.
- Aligned.AlignedMapping.MapAddress: the variant with a handler is not modelled for the aligned mapping.
- Interpreter.NextKeeps: memory accesses and built-in functions are arbitrary functions of a host state; register tracing, the debugger and the pc that is reported with an error are not modelled; the host is little-endian.
- VirtualMachine.EbpfVm.ExecuteProgram: models interpreted execution with the meter enabled; the context object subtracts with saturation.
- CompiledRuns.CompiledRunsCountAlike: guest functions start inside of the program, because compilation indexes a table with their places; that compiled code keeps r1 to r10 when it sets the kind of an error is part of the model, not derived from host code.
- JitMeter.MeterRefines: what instructions do to data is an arbitrary function, the same for both sides; what setting the kind of an error does to it is another one.
- JitMeter.Compile: register tracing and a disabled meter are not modelled.
- JumpResolution.JitCompiler.Compile: the code between branches is arbitrary; that the code of one instruction fits into its reserve is a precondition, because it depends on the byte encoder.
- The byte encoding of host instructions, page protection, the entry into compiled code and random no-ops.
- Address translation and memory access in compiled code; calls of the host from compiled code.
- ELF loading, relocation and symbol hashing.
- The assembler, disassembler, graph output, debugger and command line.
- Bodies of built-in functions.
