# Verified models of six Path64 components

A Dafny 4.11 model of six parts of the Path64 compiler sources, with proofs about every input, every run or every
reachable state. `dafny verify dfyconfig.toml` checks all of it.

* **Sparse bitmaps** (`GCC/gcc/bitmap.c`, `bitmap.h`). A bitmap is a sorted doubly linked list of blocks of bits with a cached
  cursor; freed elements go to a free list whose entries are lists themselves. `Words` and `Cells` define machine words, blocks
  and the finite set of naturals a list stands for; `Bitmaps` has elements, the free list and the head; `BitOps`, `InPlace`,
  `ThreeOperand`, `Queries`, `RangeClear` and `Iterators` have the operations, each proved against the mathematical set;
  `Runs` composes them: any sequence of operations on any number of bitmaps that share a free list.
* **The libspin arena and `.spin` files** (`libspin/`). `Mempool` is the block-chained allocator with its cached translation
  between indices and addresses, over `Bytes`. `SpinHeap` says what a node heap, its file and its reloaded copy hold;
  `SpinTree` builds heaps, `SpinWrite` and `SpinRead` serialise and relocate them in place, `SpinRoundTrip` proves the copy
  isomorphic, with the exact conditions. `SpinMark` is the reachability marking.
* **Basic-block reordering** (`GCC/gcc/bb-reorder.c`). `Reorder` finds traces, rotates loops and duplicates blocks; `Chains` and
  `Connection` connect the traces; `Ordering` is the whole pass. The layout pass emits the chain from the first block of the
  function (`GCC/gcc/cfglayout.c`, line 601), which is where the order is proved to start. Frequencies, probabilities and size
  tests are arbitrary choices, so the results hold for every outcome of the heuristics.
* **Branch-target load motion** (`GCC/gcc/bt-load.c`). `Reaching` has the data flow, `LiveRanges` the live-range closure,
  `Migration` the queue of definitions that move to dominating blocks, `MigrationCases` two runs that lose a register.
* **Alias analysis** (`GCC/gcc/alias.c`). `AliasSets` has the table of descendants, `Addresses` canonical addresses and the
  conflict test.
* **Object pools** (`GCC/gcc/alloc-pool.c`). `Pools`.

`FiniteSets` holds what several components use about set sizes.

Where the code works step by step on linked elements, arrays or tables, the model does too: classes with the same fields,
loops with the same branches, arrays changed in place. Ghost fields hold the abstract value, and each method ties the new
abstract value to the old one.

Five properties hold only under a condition, and the model states the condition exactly:

* The three-operand bitmap operations always leave the right set, but overwrite indices of reused elements before the cursor is
  compared with them. `CursorStays` says of the operands and the destination before the call when the cursor survives;
  a cursor on the first element always survives. `LostCursor` is a run in which it does not, and a bit that is set is then not
  found.
* A heap survives being written and read exactly when no operand leads to the root, whose offset 0 reads back as null
  (`RootOperand` is such a heap). Writing fails exactly when the heap is empty, the last node block is filled to its end, or a
  string node has no bytes. Reading a written heap stays within its nodes exactly when `ReadsBack` holds of the heap: before the
  string of the lowest string node, every fourth byte of the string arena is zero or belongs to no string node; without string nodes,
  the blank that ends the file must not be where a node could start. A heap whose two strings were allocated in the other order
  does not read back (`StringsSwapped`).
* The alias-set table is exact after a new fact just if everything above the superset was above the subset already
  (`RecordLate` is a run where it is not, and the conflict test then answers wrongly); recording facts bottom-up guarantees it.
* Combining two definitions gives up the other one's register only where it is not shared, except that the test for sharing runs
  after its uses were spliced and no longer sees all of them. `EdgesSurvive` is when no shared block loses the register;
  `EdgeForgotten` is a run in which one does.
* Every definition has its register live wherever it needs it, and two with one register meet only at edges that the first use or
  the head of each shows (`Owned`): a move keeps this just if every other definition that needs the register in the new block has
  such an edge there, which is always so with exclusive blocks, for whole runs. `LostInHead` is a run without exclusive blocks
  that loses a register.

## Model

| member | source | states |
|---|---|---|
| `Bitmaps.Obstack.Take` | GCC/gcc/bitmap.c:108-126 | taking an element off the list of lists removes exactly the most recently given one and keeps every link of the rest |
| `Bitmaps.Obstack.Allocate` | GCC/gcc/bitmap.c:101-145 | the element is zeroed and is the last free one, or fresh when none is free; never one that is in use |
| `Bitmaps.Obstack.Give` | GCC/gcc/bitmap.c:49-66 | a whole chain of elements is given back in one constant-time step |
| `Bitmaps.Head.Free` | GCC/gcc/bitmap.c:68-97 | exactly one element leaves the list for the free list; links and cursor stay right |
| `Bitmaps.Head.ClearFrom` | GCC/gcc/bitmap.c:147-185 | the list is cut at an element, the rest is given back, and where the cursor goes is stated for every state it was in |
| `Bitmaps.Head.Link` | GCC/gcc/bitmap.c:298-349 | a new block is linked where its index belongs, whichever direction the walk from the cursor takes, and becomes the cursor |
| `Bitmaps.Head.InsertAfter` | GCC/gcc/bitmap.c:355-384 | a new element at a given position; no live element is reused |
| `Bitmaps.Head.FindBit` | GCC/gcc/bitmap.c:427-469 | finds the element of a bit if and only if there is one, from any valid cursor, and only the cursor changes; from a cursor left on the last of the elements given back it finds nothing above its index |
| `BitOps.BitP` | GCC/gcc/bitmap.c:513-528 | tests membership whatever the valid cursor was; answers 0 above the index of a cursor left on an element given back |
| `BitOps.SetBit` | GCC/gcc/bitmap.c:492-508 | the set gains exactly the bit; list canonical, elements conserved, cursor on the block of the bit |
| `BitOps.ClearBit` | GCC/gcc/bitmap.c:473-488 | the set loses exactly the bit; an element that becomes zero is freed |
| `BitOps.Clear` | GCC/gcc/bitmap.c:189-194 | the empty set, all elements given back |
| `BitOps.Copy` | GCC/gcc/bitmap.c:388-421 | an equal list in the destination; a bitmap copied onto itself ends empty, since the destination is cleared first |
| `Cells.MergeMembers` | GCC/gcc/bitmap.c:637-856 | merging two canonical lists by index gives a canonical list of exactly the set operation |
| `Cells.CanonicalUnique` | GCC/gcc/bitmap.c:1351-1370 | two canonical lists with the same members are the same list |
| `Cells.MembersDetermine` | GCC/gcc/bitmap.c:1351-1370 | canonical lists are equal if and only if their sets are |
| `InPlace.AndInto` | GCC/gcc/bitmap.c:693-736 | A becomes the intersection, also when the operands are the same bitmap |
| `InPlace.AndComplInto` | GCC/gcc/bitmap.c:806-856 | A becomes the difference; the result is true exactly when A changed |
| `InPlace.ComplAndInto` | GCC/gcc/bitmap.c:980-1046 | A becomes B minus A |
| `InPlace.IorInto` | GCC/gcc/bitmap.c:1154-1213 | A becomes the union; the result is true exactly when A changed |
| `InPlace.XorInto` | GCC/gcc/bitmap.c:1292-1345 | A becomes the symmetric difference, also when the operands are the same |
| `ThreeOperand.And` | GCC/gcc/bitmap.c:637-689 | the destination becomes the intersection for any old contents; its cursor is valid afterwards if and only if a condition on the operands before the call holds, and otherwise stays on an element that was cut off |
| `ThreeOperand.AndCompl` | GCC/gcc/bitmap.c:740-802 | the same for the difference |
| `ThreeOperand.Ior` | GCC/gcc/bitmap.c:1049-1150 | the same for the union; the result is true exactly when the destination set changed |
| `ThreeOperand.Xor` | GCC/gcc/bitmap.c:1217-1288 | the same for the symmetric difference |
| `ThreeOperand.StaleCursor` | GCC/gcc/bitmap.c:150-185 | a destination and operands for which the cursor does not survive |
| `ThreeOperand.FirstStays` | GCC/gcc/bitmap.c:150-185 | a cursor on the first element survives every three-operand operation |
| `Runs.LostCursor` | GCC/gcc/bitmap.c:1049-1150 | from blocks 0 and 1 with the cursor on the second, a union with bit 640 leaves exactly that bit and a lost cursor, and testing the bit answers 0 |
| `Queries.EqualP` | GCC/gcc/bitmap.c:1351-1370 | true if and only if the sets are equal |
| `Queries.IntersectP` | GCC/gcc/bitmap.c:1373-1397 | true if and only if the sets meet |
| `Queries.IntersectComplP` | GCC/gcc/bitmap.c:1401-1424 | true if and only if A is not a subset of B |
| `RangeClear.ClearRange` | GCC/gcc/bitmap.c:859-976 | exactly the members in the range are removed; representation and cursor stay valid |
| `Iterators.Iter.InitSet` | GCC/gcc/bitmap.h:203-240 | what is still to be visited is every member from the start bit on |
| `Iterators.Iter.InitAnd` | GCC/gcc/bitmap.h:245-309 | the same for the intersection |
| `Iterators.Iter.InitAndCompl` | GCC/gcc/bitmap.h:313-358 | the same for the difference |
| `Iterators.Iter.Advance` | GCC/gcc/bitmap.h:371-534 | stops at the least bit still to be visited, or reports that there is none |
| `Iterators.Iter.Next` | GCC/gcc/bitmap.h:361-367 | exactly the bit just visited is done |
| `Iterators.Collect` | GCC/gcc/bitmap.h:536-566 | a whole iteration ends and yields exactly the wanted members, each once, in increasing order |
| `Runs.Exec` | GCC/gcc/bitmap.c:473-1345 | one operation on one of many bitmaps changes that set as specified and no other, gives the specified answer (for the union: whether the destination changed), loses or shares no element, and leaves the cursor of the destination valid if and only if the condition for it held before; no other bitmap changes |
| `Runs.IorAndCompl` | GCC/gcc/bitmap.c:1429-1443 | the destination becomes A and what is in B and not in C, the temporary ends empty, and the result is true exactly when the destination changed |
| `Runs.IorAndComplInto` | GCC/gcc/bitmap.c:1445-1457 | A gains B minus C, the temporary ends empty, and the result is true exactly when A changed |
| `Runs.Run` | GCC/gcc/bitmap.c:473-1345 | any run of operations has the same sets and the same answers as the run on mathematical sets and conserves all elements, up to the first operation whose destination has lost its cursor; without three-operand operations it runs to the end |
| `Runs.ConservedStep` | GCC/gcc/bitmap.h:55-61 | elements in bitmaps and free elements stay disjoint and together are all that were created |
| `Mempool.AllocatedOk` | libspin/gspin-mempool.c:63-84 | an allocation that fits into the last block follows the last one without a gap and adds no block; any other starts the one block that is added; it lies in one block and existing bytes do not change |
| `Mempool.Arena.Alloc` | libspin/gspin-mempool.c:63-84 | the allocator does that with its chain of blocks, adding a block exactly when the allocation does not fit |
| `Mempool.AddrInjective` | libspin/gspin-mempool.c:87-125 | different indices have different addresses |
| `Mempool.Arena.Idx2Address` | libspin/gspin-mempool.c:87-98 | the block and offset of an index whatever block is cached; none exactly when the index is past the last block |
| `Mempool.Arena.Address2ByteOfst` | libspin/gspin-mempool.c:102-125 | the index of an address whatever block is cached; for an address in no block the distance from the mapped segment in the node arena, and failure in the other |
| `Mempool.Arena.IndexTrip` | libspin/gspin-mempool.c:87-125 | translating an index to an address and back gives the index, for any cached block |
| `Mempool.Arena.AddressTrip` | libspin/gspin-mempool.c:87-125 | translating an address in a block to an index and back gives the address |
| `SpinTree.NewNode` | libspin/gspin-tree.c:393-409 | a new node keeps the heap well formed; it is new memory, zero but for its code, and all older bytes stay |
| `SpinTree.SetOperand` | libspin/gspin-tree.h:370-374 | setting an operand to null or a node keeps the heap well formed and changes only that word |
| `SpinTree.SetPayload` | libspin/gspin-tree.h:389-583 | storing payload bytes in a leaf keeps the heap well formed and changes only those bytes |
| `SpinTree.SetString` | libspin/gspin-tree.c:420-428 | a string node points to its bytes, in newly allocated memory, and records their number modulo 2 to the 23; only its own length and pointer change, and every other string node keeps its bytes and their number |
| `SpinMark.Flag` | libspin/gspin-io.c:40-49 | marking adds only what can be reached, and leaves no marked node with an unmarked operand |
| `SpinMark.FlagReachable` | libspin/gspin-io.c:40-49 | with nothing marked before, exactly the reachable nodes are marked |
| `SpinMark.FlagHeap` | libspin/gspin-io.c:40-49 | for a heap, exactly the nodes that can be reached by following addresses in operands are marked |
| `SpinWrite.WriteOperand` | libspin/gspin-io.c:118-124 | an address becomes the offset of the node it leads to, null stays null, other words stay |
| `SpinWrite.WriteString` | libspin/gspin-io.c:125-130 | a string pointer becomes the offset of its bytes behind the nodes, and the bytes are copied; fails exactly on null |
| `SpinWrite.Write` | libspin/gspin-io.c:76-142 | succeeds if and only if the last block has room and all strings are set; then the file holds every node, padding and string, and what belongs to no string stays as in the blank file |
| `SpinRead.Read` | libspin/gspin-io.c:144-190 | every node's offsets become addresses; stays within the nodes if and only if the string section is found at its start or only blanks are in between |
| `SpinRoundTrip.RoundTrip` | libspin/gspin-io.c:101-186 | the copy is isomorphic to the heap (codes, payload, strings, sharing, cycles) if and only if no operand leads to the root |
| `SpinRoundTrip.ReadCondition` | libspin/gspin-io.c:160-186 | reading a written heap stays within the nodes if and only if the heap meets `ReadsBack` |
| `SpinRoundTrip.OwnerReads` | libspin/gspin-io.c:160-186 | a heap whose lowest string node owns the start of the string arena meets `ReadsBack` |
| `SpinRoundTrip.WriteAndRead` | libspin/gspin-io.c:76-190 | writing and reading together: when writing succeeds, when reading stays within the nodes and when the copy is isomorphic, each as an equivalence over the heap |
| `SpinRoundTrip.RootOperand` | libspin/gspin-io.c:118-124 | a heap that does not survive |
| `SpinRoundTrip.StringsSwapped` | libspin/gspin-io.c:175-186 | for every node table and block addresses, a heap of two string nodes that can be written and does not read back |
| `Reorder.Pass.Visit` | GCC/gcc/bb-reorder.c:405-417 | the block joins the current trace and leaves its heap; every other successor stays accounted for |
| `Reorder.Pass.Choose` | GCC/gcc/bb-reorder.c:496-551 | the selected successor is unvisited or in the current trace, in the same partition and fit by the heuristics; none is selected only if there is no such successor or it is to be duplicated later |
| `Reorder.Pass.Push` | GCC/gcc/bb-reorder.c:553-615 | afterwards every successor of a visited block is visited, waiting, or the selected one |
| `Reorder.Pass.Move` | GCC/gcc/bb-reorder.c:662-709 | the next block is linked to the trace, or the one in between |
| `Reorder.Pass.CopyBlock` | GCC/gcc/bb-reorder.c:756-804 | the copy is in the trace once, after the given block, and finished traces are untouched |
| `Reorder.MirrorCopy` | GCC/gcc/bb-reorder.c:756-764 | duplicating a block and redirecting an edge keeps every edge leading to a copy of where it led |
| `Reorder.RotatedMember` | GCC/gcc/bb-reorder.c:363-402 | a rotated trace is a permutation of the old one |
| `Reorder.RotatedClosed` | GCC/gcc/bb-reorder.c:363-402 | rewriting two links of a closed loop gives the acyclic rotated list |
| `Reorder.Pass.FindTail` | GCC/gcc/bb-reorder.c:305-360 | the walk round the loop ends with a block that has a fitting edge out of the trace, a preferred one if there is any, or with none if and only if there is no such edge |
| `Reorder.Pass.RotateLoop` | GCC/gcc/bb-reorder.c:291-403 | the trace before the loop stays in place, the loop is rotated to end with the returned block, which has an edge out of the trace unless it is the old end, plus at most one copied header |
| `Reorder.Pass.CloseLoop` | GCC/gcc/bb-reorder.c:617-661 | a trace that runs into itself ends as a complete trace; one that starts with the first block of the function still does |
| `Reorder.Pass.BuildTrace` | GCC/gcc/bb-reorder.c:470-715 | building a trace ends, visits at least one new block and keeps all tables right |
| `Reorder.Pass.Round` | GCC/gcc/bb-reorder.c:427-750 | a round ends; the last one leaves no block waiting; traces never outnumber the blocks |
| `Reorder.Pass.FindTraces` | GCC/gcc/bb-reorder.c:223-287 | four rounds leave nothing waiting and at least one trace; the first trace starts with the first block of the function if that is the only entry |
| `Reorder.AllVisited` | GCC/gcc/bb-reorder.c:427-750 | then every block reachable from ENTRY is visited |
| `Connection.Joiner.FindPred` | GCC/gcc/bb-reorder.c:957-977 | an unconnected trace of the partition that ends with a fitting edge to the first block of the trace, if there is one |
| `Connection.Joiner.FindNext` | GCC/gcc/bb-reorder.c:1002-1025 | an unconnected trace of the partition to which a fitting edge leads, if there is one |
| `Connection.Joiner.Predecessors` | GCC/gcc/bb-reorder.c:954-993 | predecessor traces are put in front, none twice, never before trace 0 |
| `Connection.Joiner.Successors` | GCC/gcc/bb-reorder.c:999-1138 | successor traces and copies are appended, none twice, within the current partition when partitioning |
| `Connection.Joiner.CopyAfter` | GCC/gcc/bb-reorder.c:1102-1131 | a duplicated block becomes the end of the chain |
| `Connection.Joiner.ConnectTraces` | GCC/gcc/bb-reorder.c:896-1140 | all traces are connected, trace 0 first; with partitioning the chain changes partition at most once |
| `Ordering.ReorderBlocks` | GCC/gcc/bb-reorder.c:1890-1942 | the order holds each reachable block and each duplicate exactly once and nothing else, starts with the first block of the function if that is the only entry, and changes partition at most once, for every outcome of the heuristics |
| `Ordering.RunsProject` | GCC/gcc/bb-reorder.c:756-804 | every run of the new graph is a run of the old one |
| `Ordering.RunsLift` | GCC/gcc/bb-reorder.c:756-804 | every run of the old graph is a run of the new one, from any copy of its start |
| `Ordering.VerifyGrouping` | GCC/gcc/bb-reorder.c:1856-1885 | reports an error if and only if the order changes partition more than once |
| `Ordering.ReorderAndVerify` | GCC/gcc/bb-reorder.c:1890-1942 | the verification that ends the pass never complains about the order the pass produced |
| `Reaching.ComputeKill` | GCC/gcc/bt-load.c:616-634 | a block kills exactly the definitions of the registers it writes |
| `Reaching.ComputeOut` | GCC/gcc/bt-load.c:636-664 | ends; a definition is in a block's result if and only if some path carries it there from where it is generated without a kill |
| `Reaching.Least` | GCC/gcc/bt-load.c:636-664 | the result is contained in every solution of the block equations |
| `LiveRanges.CloseRange` | GCC/gcc/bt-load.c:949-982 | the worklist ends with a range closed under predecessors, dominated by its head, and least |
| `LiveRanges.AugmentLiveRange` | GCC/gcc/bt-load.c:889-983 | the range contains the block, is closed up to the dominating one, is the least such range, and the registers added are exactly those live in what was added |
| `Migration.ChooseBtr` | GCC/gcc/bt-load.c:985-1006 | the first unused register in the allocation order, if and only if there is one |
| `Migration.DefLiveRange` | GCC/gcc/bt-load.c:1008-1056 | a range with the definition and all its uses, the least one if it is new; the registers to be avoided are exactly those live in the head or another block of the range, without its own if that is not shared (a new range with a use in its head may add what is live there) |
| `Migration.Mover.ClearFromLiveRange` | GCC/gcc/bt-load.c:833-861 | the register is removed exactly from the blocks it does not share |
| `Migration.Mover.AddToLiveRange` | GCC/gcc/bt-load.c:864-887 | the register is live in exactly the range and at the end of the definition's block |
| `Migration.Mover.CombineDefs` | GCC/gcc/bt-load.c:1058-1141 | definitions taken over lose their uses to the definition, and if some register is live nowhere, none is left that could be taken over; no use is lost; the register of the definition stays free in its range |
| `Migration.SplicedEdges` | GCC/gcc/bt-load.c:1112-1130 | after the splice the test for shared blocks still covers all of them if and only if `EdgesSurvive`: each further use was in the block of the first, in a block of the definition taking over, or its own shared head |
| `Migration.Mover.CombineWith` | GCC/gcc/bt-load.c:1070-1141 | a definition is taken over only if it may be, and always if some register is live nowhere; its uses are added; its register is cleared in its range over the spliced uses, and if it was live in all of it, the shared blocks keep it if and only if `EdgesSurvive` |
| `MigrationCases.EdgeForgotten` | GCC/gcc/bt-load.c:1112-1130 | a run in which a definition loses its register in a block that was shared |
| `Migration.Mover.MoveDef` | GCC/gcc/bt-load.c:1143-1236 | the moved definition dominates its uses and its range leads to them; if all definitions owned their registers, no other one needs its register in its range (but for its head unless blocks are exclusive), and all own them again if and only if the others that need it in the head have an edge there |
| `Migration.Mover.MigrateDef` | GCC/gcc/bt-load.c:1255-1396 | exactly the dominators that pay are tried, in their order, and the definition ends in the last one for which a register was found; one is found as long as there are registers live nowhere; another try pays if and only if it moved and a register was always found |
| `Migration.FirstTried` | GCC/gcc/bt-load.c:1333-1385 | the first attempt is the first dominator that pays; there is none exactly when none pays |
| `Migration.TriedEnd` | GCC/gcc/bt-load.c:1333-1385 | a definition that moves ends in a block without complex edges that is cheaper, or as cheap if its register is used near |
| `Migration.Mover.MigrateDefs` | GCC/gcc/bt-load.c:1398-1460 | the queue empties, most costly definition first; each then is where no dominator without complex edges is cheaper, unless it may not move, was taken over or lacked a register, which cannot happen if enough registers were live nowhere; no use is lost; with exclusive blocks, if every definition owned its register at the start, every one does at the end |
| `MigrationCases.LostInHead` | GCC/gcc/bt-load.c:1177-1186 | two moves without exclusive blocks after which a definition lacks its register in a block where it needs it |
| `Migration.Antisymmetric` | GCC/gcc/bt-load.c:1328-1331 | different reachable blocks do not dominate each other |
| `AliasSets.Table.NewAliasSet` | GCC/gcc/alias.c:626-640 | a new number; exact entries stay exact |
| `AliasSets.Table.RecordSubset` | GCC/gcc/alias.c:655-701 | entries never list more than descendants, and list all of them again if and only if everything above the superset was above the subset |
| `AliasSets.Table.Conflict` | GCC/gcc/alias.c:298-329 | with exact entries, true if and only if the sets are equal, one is or reaches zero, or one reaches the other |
| `AliasSets.ReachAdded` | GCC/gcc/alias.c:655-701 | what one more fact adds to the descendants of every set |
| `AliasSets.RecordAll` | GCC/gcc/alias.c:655-701 | recording facts so that no set gains a subset after it was recorded as one leaves all entries exact |
| `AliasSets.LateSubset` | GCC/gcc/alias.c:549-552 | in the wrong order the second fact gives a descendant to a set that was recorded as a subset before, which the order condition of `RecordAll` excludes |
| `AliasSets.RecordLate` | GCC/gcc/alias.c:655-701 | recording them leaves the table inexact, and the conflict test denies a conflict between sets that may meet |
| `Addresses.PlusConstantEval` | GCC/gcc/explow.c:78-197 | adding a constant to an address adds it to its value, however constants are collected |
| `Addresses.PlusConstantCollects` | GCC/gcc/explow.c:78-197 | adding a constant to an address that has one adds no other |
| `Addresses.CanonEval` | GCC/gcc/alias.c:1149-1186 | a canonical address has the same value under every valuation consistent with the known values |
| `Addresses.CanonSettled` | GCC/gcc/alias.c:1149-1186 | no register in a canonical address has another known value |
| `Addresses.CanonFixed` | GCC/gcc/alias.c:1149-1186 | an address is its own canonical form if and only if no register in it has another known value |
| `Addresses.CanonIdempotent` | GCC/gcc/alias.c:1149-1186 | canonical addresses are their own canonical form |
| `Addresses.EqualEval` | GCC/gcc/alias.c:1194-1250 | addresses found equal have equal values |
| `Addresses.EqualSelf` | GCC/gcc/alias.c:1244-1249 | every address is found equal to itself and to its sum in the other order |
| `Addresses.ConflictSound` | GCC/gcc/alias.c:1649-1813 | if no conflict is found, both sizes are known and the byte ranges at X and Y + C are disjoint |
| `Addresses.ConflictExact` | GCC/gcc/alias.c:1649-1813 | the answer is yes if the test does not come down to equal addresses or two constants, and else whether the bytes meet |
| `Addresses.NoConflictDisjoint` | GCC/gcc/alias.c:1597-1668 | the same for addresses stepped by the access itself |
| `Addresses.SameBaseExact` | GCC/gcc/alias.c:1670-1729 | for references at constant distances from one base, or from it and to it, the test is exact |
| `Addresses.KnownBaseExact` | GCC/gcc/alias.c:1622-1729 | for registers known to be at constant distances from one base (not zero, if the canonical form of the base is a new sum) the test on their canonical forms is exact, also when the accesses step them |
| `Addresses.SteppedBaseExact` | GCC/gcc/alias.c:1622-1729 | for a stepped register and the base it is known to be at a constant distance from the test is exact |
| `Pools.Pool.Refill` | GCC/gcc/alloc-pool.c:236-272 | a new block's pieces, all new, become the free list, last one first; no memory in use changes |
| `Pools.Pool.Alloc` | GCC/gcc/alloc-pool.c:222-284 | returns an element that was not in use, the first free one, and adds a block only if there is none; no memory in use changes |
| `Pools.Pool.Free` | GCC/gcc/alloc-pool.c:287-311 | gives back exactly one element, to be handed out next, and writes nothing but it |
| `Pools.Pool.Counts` | GCC/gcc/alloc-pool.c:119-311 | elements in use and free elements add up to all that were allocated |
| `Pools.Pool.ReleasedIfEmpty` | GCC/gcc/alloc-pool.c:211-219 | released if and only if no element is in use |
| `Pools.SlotsApart` | GCC/gcc/alloc-pool.c:255-265 | any two elements of the pool are disjoint |
| `Pools.SlotCount` | GCC/gcc/alloc-pool.c:268-272 | there are as many different elements as blocks times elements per block |

## Left out

- Bitmap printing, statistics, hashing, counting and finding the first bit: easy readers of the same list.
- The garbage-collected free list of bitmaps without an obstack: it works like an obstack's and is modelled by the same class.
- Bitmap words have 64 bits and elements two words; bit numbers are unbounded, so a range that wraps around 32 bits is not modelled. The loop over middle words in `bitmap_clear_range` has no turns with two words.
- Runs.Exec: the destination's cursor must be valid; what an operation does to a bitmap whose cursor was lost by an earlier three-operand operation is not modelled.
- `open`, `lseek`, `mmap` and `close`: a file is a byte array, zero but for the blank written as its last byte; what other processes do to it is not modelled.
- The table of node codes: arity and size of each code are parameters, sizes multiples of 4, DOT is code 0. Pointers have 32 bits.
- SpinTree.SetString: the pointer and the length of a string node are stored together; the original stores them one after the other.
- SpinRead.Read: files that gs_write did not produce, and what happens after string bytes are taken for a node, are not modelled.
- The debug build's leak report in gs_write, and dumping.
- Arena indices are unbounded; the abort at 0x3fffffff bytes of nodes is not modelled. Allocations of zero bytes are excluded.
- Keys of the heaps in trace finding: which waiting block starts the next trace is an arbitrary choice; trace lengths only feed heuristics.
- Reorder.Pass.RotateLoop: the link of the new last block is cut before the header is copied, not after; copying does not touch it.
- Edge flags of the flow graph, insn emission, crossing-jump fixes and computed-goto duplication in bb-reorder.c.
- The functions bb-reorder.c relies on for duplicating a block and for partitioning: a duplicate has its original's edges and partition; with partitioning on, every real block is hot or cold.
- Building the def-use webs and rewriting insns in bt-load.c; dominators, frequencies and the blocks with complex edges are given as tables. Whether a use is near, whether it is the jump that ends the definition's block, and which of equally costly definitions is served first are arbitrary.
- Migration.Mover.MigrateDefs: without exclusive blocks it does not promise that definitions keep their registers, because they may lose them (`LostInHead`); `MoveDef` has the condition for one move. The blocks where definitions need their registers at the start are given.
- MULT, AND, VALUE, symbol and MEM addresses in alias.c, machine modes, and the passes that fill the table of known values; the table is assumed acyclic.
- `get_alias_set` and types in alias.c.
- Pool names, statistics and the checking build's identifiers.
