# Verified models of davix

Davix is a small kernel. This project models its most intricate pieces in Dafny 4.11 and
proves what they promise, for all inputs and all runs:

- **VMA trees** (`VmaShape`, `VmaMem`, `VmaList`, `VmaSplice`, `VmaTree`, `VmaFind`,
  `VmaGaps`, `VmaFree`). An AVL tree of disjoint address ranges that is also a linked list and
  records gaps. The code is modelled on the heap, pointer by pointer. `VMATree.Valid()` says
  that child, parent, list, height and gap fields all agree with one balanced tree whose
  in-order sequence is the list, sorted and disjoint. Insertion, removal and adjustment keep
  it. The two free-range searches are shown to give the least and the greatest answer, though
  they skip subtrees.
- **Kernel address space** (`Vmap`). A client of the tree that places areas between guard pages.
- **Plain AVL tree** (`AvlTree`, `AvlHeap`, `AvlOps`). The pointer code refines functions on trees
  as values. Insertion is exact. Removal is not: the node that replaces the removed one keeps its
  own stored height. `AvlTree.RemoveExact` says exactly, in terms of the heights stored before the
  call, when the tree is still in order afterwards.
- **Mutex** (`Mutex`, `MutexDrain`, `MutexCalls`), **scheduler** (`Sched`, `SchedRuns`, `SchedOrder`),
  **reader-writer lock** (`RwMutex`), **cross-CPU calls** (`SmpCall`). Transition systems over any number of tasks and
  CPUs. Each has an invariant that every step keeps, and theorems over all states of all runs. There
  is also a way on from every such state: every call can finish, and every wakeup can lead to its
  insertion into a run queue. Waiters, queued tasks and posted calls are served in the order in
  which they came.
- **ACPI fields** (`Bits`, `BitSpan`, `BufferField`, `FieldUnit`). `bit_copy` and the field
  accessors refine one bit-by-bit specification; fields are those of section 19.6 of the ACPI
  Specification 6.5.
- **ACPI namespace** (`Namespace`, `NamespacePaths`, `NamespaceWalk`, `NamespaceShown`). The path
  printer and the path resolver undo each other, for absolute and for relative paths. The walk over
  all nodes below a node, which uses one pointer and one flag, makes the calls of the recursive
  traversal; which calls these are is stated on the tree, for all answers of the callbacks.
- **Slab allocator** (`SlabHeap`, `Slab`). Free chains that run through the free objects
  themselves, three kinds of pages and four counters.

`Words` holds 64-bit wrap-around and the mask arithmetic of `align_up` and `align_down`;
`Basics` holds lists without repetition.

How to read the heap proofs: the tree linkage of a set of nodes is a value (`VmaMem.Snap`), and
so are the list entries (`VmaList.Ents`). Each field assignment is a map update. The lemmas are
about these values, and the methods follow the source statement by statement.

Results that differ from what one would expect of the code:

- `find_free_bottomup` and `find_free_topdown` turn away every request with `max < size`.
  `VmaGaps.RefusedFit` shows that this refuses an answer exactly when all of `[0, max]` is asked
  for and free, and `VmaGaps.RefusedFitExample` gives such a request.
- `AVLTree::remove` can leave wrong heights: `AvlTree.RemoveSpoilsExamples`.
- The wakeup handshake can go wrong when a task publishes a ticket too early: while the context
  switch of its last sleep has yet to look at `pending_wakeup` (`Sched.LateFinishRace`), or while a
  waker that saw it off its CPU has yet to swap `pending_wakeup` (`Sched.LateWakerRace`). The task is
  then claimed for a run queue while it runs. `SchedRuns.LateFinishReachable` and
  `SchedRuns.LateWakerReachable` are runs that get there. `Sched.PublishExact` shows that these two
  situations are all: in every other one nothing goes wrong whatever happens afterwards.
- `uacpi_namespace_do_for_each_child` can show nodes that are not of a wanted type. The test of the
  type leaves its result variable as it was when a node has no object, so the node counts as
  matching if the one before it did: `NamespaceShown.StaleExample`, built by
  `NamespaceShown.StaleNamespace`. `NamespaceShown.OnlyWanted` gives the exact condition on the tree.
- Installing a node does not look for a sibling of the same name. `Namespace.NamesakeNamespace`
  installs two nodes of one name; the path of the second leads to the first. In general
  `Namespace.Tree.RoundTripExact` shows that printed paths lead back to their nodes exactly when no
  two siblings share a name.
- `uacpi_namespace_node_resolve` takes no parent to mean the root, except where it searches above the
  parent. `Namespace.Tree.FaultExact` says exactly when that happens.

## Model

| member | source | states |
|---|---|---|
| Words.AlignUpSpec | include/dsl/align.h:12-24 | `align_up` gives the least aligned value at or above its argument, and wraps to below it exactly when there is none in 64 bits |
| Words.AlignDownSpec | include/dsl/align.h:26-38 | `align_down` gives the greatest aligned value at or below its argument |
| VmaMem.TurnedLeftSound | dsl/vmamodify.cc:53-69 | a left rotation on the pointers leaves the three subtrees sound below their new parents |
| VmaMem.TurnedRightSound | dsl/vmamodify.cc:53-69 | the same for a right rotation |
| VmaMem.RotatedSound | dsl/vmamodify.cc:53-69 | a rotation with its two propagations gives a sound tree: links, heights and biggest gaps |
| VmaTree.Propagate | dsl/vmamodify.cc:32-45 | recomputes height and biggest gap of one node and nothing else |
| VmaTree.Rotate | dsl/vmamodify.cc:53-69 | rotates in place and returns the new root of the subtree |
| VmaShape.RebalanceAvl | dsl/vmamodify.cc:79-151 | single or double rotation restores balance and changes the height by at most one |
| VmaShape.FixUpAvl | dsl/vmamodify.cc:79-151 | the whole upward loop makes the tree an AVL tree again |
| VmaShape.FixUpKeys | dsl/vmamodify.cc:79-151 | the loop keeps the in-order sequence and the set of nodes |
| VmaTree.VMATree.Fixup | dsl/vmamodify.cc:79-151 | on the heap the loop ends in the tree that the specification `FixUp` describes, with all links, heights and gaps right |
| VmaTree.VMATree.constructor | include/dsl/vmatree.h:42-50 | an empty tree is valid |
| VmaTree.VMATree.FindSlot | dsl/vmamodify.cc:155-203 | the descent ends at the leaf position with all smaller ranges before it and all larger ones after it |
| VmaList.InsertedOk | dsl/vmamodify.cc:155-203 | linking a node into the list keeps the chain, the order and every gap exact |
| VmaTree.VMATree.Insert | dsl/vmamodify.cc:155-203 | inserting a range that meets no other keeps the whole tree valid and puts the node into the ordered list at one place |
| VmaList.RemovedOk | dsl/vmamodify.cc:207-289 | unlinking a node keeps the chain, the order and every gap exact |
| VmaShape.WithoutAvl | dsl/vmamodify.cc:207-289 | the tree after removal, in all cases, is an AVL tree |
| VmaShape.WithoutKeys | dsl/vmamodify.cc:207-289 | its in-order sequence is the old one without the removed node |
| VmaSplice.SuccessorIsChild | dsl/vmamodify.cc:207-289 | splicing a successor that is the right child leaves memory ready for the upward loop |
| VmaSplice.SuccessorIsDeeper | dsl/vmamodify.cc:207-289 | the same when the successor is further down |
| VmaTree.VMATree.Remove | dsl/vmamodify.cc:207-289 | removing a node keeps the whole tree valid and takes just that node out of the ordered list |
| VmaShape.SuccessorOnSpine | dsl/vmamodify.cc:293-317 | the in-order successor of a position is an ancestor of it |
| VmaSplice.SuccessorAbove | dsl/vmamodify.cc:293-317 | a successor that is an ancestor is stored higher, and one pass from the node reaches both stale gaps |
| VmaSplice.SuccessorBelow | dsl/vmamodify.cc:293-317 | a successor in the right subtree is stored lower, and one pass from it reaches both |
| VmaTree.VMATree.Adjust | dsl/vmamodify.cc:293-317 | after a range is resized within its neighbours, everything is valid again and the shape is unchanged |
| VmaFind.Find | dsl/vmafind.cc:12-27 | finds the node that contains an address, or there is none |
| VmaFind.FindAbove | dsl/vmafind.cc:30-46 | finds the first node in order that ends at or above an address |
| VmaFind.FindBelow | dsl/vmafind.cc:49-65 | finds the last node in order that starts below an address |
| VmaFree.SubtreeSmall | dsl/vmafind.cc:89-91 | if a subtree's biggest gap is too small, so is the gap before each of its nodes: pruning loses nothing |
| VmaGaps.ExamineGap | dsl/vmafind.cc:100-123 | the tests on one gap tell exactly whether it holds an answer |
| VmaFree.ScanUp | dsl/vmafind.cc:88-142 | the pruned bottom-up walk finds the least answer before the last gap, or shows there is none |
| VmaFree.FindFreeBottomUp | dsl/vmafind.cc:69-165 | succeeds exactly when `0 < size <= max` and some aligned, free range lies in `[min, max]`, and then gives the least such address |
| VmaFree.ScanDown | dsl/vmafind.cc:208-261 | the pruned top-down walk finds the greatest answer, or shows there is none |
| VmaFree.FindFreeTopDown | dsl/vmafind.cc:169-262 | succeeds on the same requests and gives the greatest such address |
| VmaGaps.RefusedFit | dsl/vmafind.cc:76-77 | a request refused for `max < size` had an answer exactly when it asks for all of `[0, max]` and that is free |
| VmaGaps.RefusedFitExample | dsl/vmafind.cc:76-77 | such a request exists |
| Vmap.HoleFits | mm/vmap.cc:163-188 | a hole in the widened range corresponds exactly to an area in `[low, high]` with a free page on either side |
| Vmap.KernelSpace.FindFreeWithGuardPages | mm/vmap.cc:162-188 | finds the least place for an area with its guard pages, whenever the widened range is not smaller than the hole |
| Vmap.SpacedInsert | mm/vmap.cc:217-228 | a new area keeps all areas page-aligned and a page apart |
| Vmap.KernelSpace.Reserve | mm/vmap.cc:216-228 | the first locked section: it adds one area at the least place inside `[low, high]`, or changes nothing when there is no place; the tree insertion always meets a clear range |
| Vmap.KernelSpace.Release | mm/vmap.cc:114-121 | the other locked section: takes out one area and keeps the spacing |
| Vmap.KernelSpace.MapIoRange | mm/vmap.cc:200-245 | maps exactly when memory and a place are there, at the least place; the area covers the whole window, and a failure leaves the areas as they were |
| Vmap.KernelSpace.Unmap | mm/vmap.cc:107-139 | takes out the area that contains the pointer, or changes nothing when there is none |
| Vmap.KernelSpace.MapThenUnmap | mm/vmap.cc:107-245 | mapping and then unmapping through any address of the window restores the areas that were there before |
| AvlTree.ExactHeight | dsl/avlfixup.cc:12-24 | consistent stored heights are the real heights |
| AvlTree.UpExact | dsl/avlfixup.cc:69-145 | the loop with its early exit restores balance and heights when one subtree changed its height by one |
| AvlTree.InsertKeys | include/dsl/avltree.h:51-68 | `insert_at` puts the key at its place in the order |
| AvlTree.InsertExact | include/dsl/avltree.h:51-68 | `insert_at` keeps the tree balanced and all stored heights right |
| AvlTree.RemoveKeys | include/dsl/avltree.h:75-145 | `remove` takes out one key and keeps the order of the others, in every case |
| AvlTree.RemoveExact | include/dsl/avltree.h:75-145 | `remove` leaves balance and heights right if and only if the heights stored before the call show neither of two situations in which the successor's old height misleads the loop |
| AvlTree.RemoveSpoilsExamples | include/dsl/avltree.h:113-145 | both situations occur |
| AvlHeap.TurnedAt | dsl/avlfixup.cc:46-63 | a rotation on the pointers, with its result hooked in, gives the rotated tree, links and heights |
| AvlOps.AVLTree.Fixup | dsl/avlfixup.cc:69-146 | the loop on the pointers ends in the tree that the functions describe, early exit included |
| AvlOps.AVLTree.InsertAt | include/dsl/avltree.h:52-67 | adds the node at the given place in the order; a balanced tree with right heights stays one |
| AvlOps.AVLTree.Insert | include/dsl/avltree.h:198-215 | puts the node after all nodes it does not precede, and keeps the nodes sorted by the comparator |
| AvlHeap.ReplacedAt | include/dsl/avltree.h:126-145 | the pointer exchange with a successor further down leaves all links as they should be |
| AvlOps.AVLTree.Remove | include/dsl/avltree.h:73-146 | takes out just that node, links kept; a balanced tree with right heights stays one exactly when the two situations do not occur |
| Mutex.LockCoherent | kernel/mutex.cc:167-273 | each step of taking the mutex fits the invariant |
| Mutex.WokenCoherent | kernel/mutex.cc:270-375 | so does each step after a sleep |
| Mutex.UnlockCoherent | kernel/mutex.cc:377-434 | so does each step of releasing it |
| Mutex.NextInv | kernel/mutex.cc:158-434 | every step of any task keeps the invariant |
| Mutex.MutualExclusion | kernel/mutex.cc:167-434 | in every state of every run at most one task has the mutex and at most one the LOCK bit |
| Mutex.WaiterBitExact | kernel/mutex.cc:167-434 | with LOCK clear, WAITER is set exactly when the list is not empty, and the list holds each waiting task once |
| Mutex.OnlyLockHolderEdits | kernel/mutex.cc:246-375 | only the task with the LOCK bit changes the list |
| Mutex.FrontExists | kernel/mutex.cc:425-427 | an unlocker that reads the list finds a waiter |
| Mutex.NoLostWakeup | kernel/mutex.cc:260-375 | with no owner and a waiter on the list, a listed waiter is awake or the wakeup of one is on its way; with LOCK clear, its current ticket is about to be consumed |
| Mutex.NoDeadlock | kernel/mutex.cc:377-434 | from every such state some listed waiter can take the mutex, after at most one wakeup and three steps of its own |
| MutexDrain.NobodyStuck | kernel/mutex.cc:167-434 | from every state of every run all tasks can finish their calls and release the mutex, which is then free with nobody on its list |
| Mutex.TakenAtOnce | kernel/mutex.cc:27-51 | in every run, each step leaves the holder as it is, or one task takes a free mutex, or its holder releases it, and then the owner changes in that same step; or its holder passes it to an idle task, which leaves the recorded owner as it is |
| Mutex.LockNeverFails | kernel/mutex.cc:83-92 | `lock` does not come back without the mutex |
| Mutex.CanTake | kernel/mutex.cc:27-77 | a free mutex can be taken in two steps, by `trylock` as by the other calls |
| MutexCalls.CanTakePast | kernel/mutex.cc:188-216 | a mutex that was released can be taken past those who wait; they stay on the list and WAITER stays set |
| Mutex.CanSleep | kernel/mutex.cc:167-278 | a task that finds the mutex taken can get onto the list and to sleep |
| Mutex.CanRelease | kernel/mutex.cc:377-434 | a holder can release a mutex with waiters and then holds the first waiter's current ticket |
| MutexCalls.CanReleaseAtOnce | kernel/mutex.cc:40-51 | with nobody waiting it is released in two steps |
| MutexCalls.JoinsLast | kernel/mutex.cc:260 | whoever joins the list does so at its end |
| MutexCalls.OrderKept | kernel/mutex.cc:289-361 | two waiters that are listed before and after a step keep their order |
| MutexCalls.FirstCome | kernel/mutex.cc:260-361 | in every run a waiter stays before everyone who came after it, as long as it waits |
| MutexCalls.WakesFirst | kernel/mutex.cc:427-432 | an unlocker chooses the waiter that all others come after, and takes its ticket |
| MutexCalls.FirstComeFirstWoken | kernel/mutex.cc:260-434 | nobody who came later is chosen while an earlier waiter is still listed |
| MutexCalls.TryNeverWaits | kernel/mutex.cc:68-77 | `trylock` never gets onto the list |
| MutexCalls.TryFails | kernel/mutex.cc:178-229 | `trylock` fails only if the mutex was taken, or its list being edited, at some moment of the call |
| MutexCalls.TryOnTaken | kernel/mutex.cc:178-227 | on a mutex that is taken it fails and changes nothing; so may a call whose time is over |
| MutexCalls.TryOnLocked | kernel/mutex.cc:178-185 | so does `trylock` that finds LOCK set |
| MutexCalls.CanGiveUp | kernel/mutex.cc:318-361 | a bounded wait on a mutex that stays taken can end; the caller leaves the list, the others keep their places, and WAITER is cleared if nobody is left |
| Sched.StepHandshake | kernel/sched/main.cc:248-379 | every access to ticket, pending flag and `on_cpu` keeps one task's handshake consistent |
| Sched.EnqueueInv | kernel/sched/main.cc:149-218 | inserting a woken task into any run queue keeps all queues and counters right |
| Sched.ScheduleInv | kernel/sched/main.cc:384-485 | `schedule` keeps all queues and counters right, for tasks that go on, block, or are picked again |
| SchedOrder.PicksHighest | kernel/sched/main.cc:414-485 | in every run, after `schedule` the current task has the highest priority on its CPU, and the CPU idles only if nobody is queued |
| SchedOrder.FirstInFirstOut | kernel/sched/main.cc:149-485 | in every run, a task does not leave a queue before one that is ahead of it, or was there first |
| SchedOrder.LeavesToRun | kernel/sched/main.cc:414-485 | whoever leaves a queue was its first task and is now the current task |
| Sched.LoadExact | kernel/sched/main.cc:149-218 | in every run, `rq_load` is the number of queued tasks, plus one for a current task other than the idle task |
| Sched.OnePlace | kernel/sched/main.cc:414-485 | no task is in two queues, twice in one, current on two CPUs, or queued and current |
| Sched.OneEnqueuePerWake | kernel/sched/main.cc:521-534 | each successful `sched_wake` is followed by one insertion, which one party owes until it is made |
| Sched.WakeupCarried | kernel/sched/main.cc:248-379 | the party that owes it is still there: a waker before its store, one that has claimed the task, or, with the wakeup pending, a waker or a context switch that has yet to look at it |
| SchedRuns.WayOn | kernel/sched/main.cc:248-485 | every run in which a wakeup has not yet led to its insertion can go on to that insertion, on any CPU |
| Sched.EnqueueOffCpu | kernel/sched/main.cc:248-379 | a task is inserted only after it has left its CPU |
| Sched.ConsumedOnce | kernel/sched/main.cc:505-534 | a ticket is consumed at most once, and a superseded ticket never |
| Sched.Superseded | kernel/sched/main.cc:497-511 | drawing a ticket makes all earlier ones worthless |
| Sched.WakersAdvance | kernel/sched/main.cc:248-304 | no waker makes more than four accesses |
| Sched.WakeAfterSleep | kernel/sched/main.cc:248-304 | a wakeup that finds the task gone: the waker inserts it, once |
| Sched.WakeBeforeSleep | kernel/sched/main.cc:312-379 | a wakeup that finds the task still on its CPU: the context switch inserts it, once |
| Sched.LateFinishRace | kernel/sched/main.cc:344-353 | a running task that publishes a ticket before the context switch of its last sleep is over can be claimed for insertion while it runs |
| Sched.LateWakerRace | kernel/sched/main.cc:248-279 | so can one that publishes a ticket while a waker of an earlier sleep has yet to swap the pending flag |
| SchedRuns.LateFinishReachable | kernel/sched/main.cc:248-379 | a run of the modelled system that ends in the first of these situations |
| SchedRuns.LateWakerReachable | kernel/sched/main.cc:248-379 | a run that ends in the second, with the context switch over |
| Sched.NextMove | kernel/sched/main.cc:248-485 | every step of the system does one of the listed moves to a task, or leaves it alone |
| Sched.PublishExact | kernel/sched/main.cc:505-511 | after publishing a ticket nothing can go wrong in any sequence of moves exactly when neither of the two situations holds; wrong is an insertion of a task that is on a CPU or queued, one too many or too few, or a wakeup nobody will look at |
| RwMutex.StepInv | kernel/rwmutex.cc:11-143 | every step of every call keeps the invariant |
| RwMutex.ReadersExcludeWriters | kernel/rwmutex.cc:11-143 | never a writer together with a reader or another writer |
| RwMutex.CountExact | kernel/rwmutex.cc:48-77 | the count is the number of readers inside |
| RwMutex.OneTakePerGroup | kernel/rwmutex.cc:17-77 | each group of readers takes and releases the common mutex once, whoever is the last to leave |
| RwMutex.NoDeadlock | kernel/rwmutex.cc:11-143 | from every state of every run all calls can end without a failed attempt on a mutex, and then the lock is as at the start |
| RwMutex.ReaderJoins | kernel/rwmutex.cc:46-63 | while the lock is read-held, another reader gets in by itself, with the count one higher |
| RwMutex.LateReaderJoins | kernel/rwmutex.cc:65-70 | so does a reader that already has the reader mutex, which it gives back |
| RwMutex.FirstReader | kernel/rwmutex.cc:60-77 | with nobody inside, a reader gets in by itself and then holds the common mutex for the readers |
| RwMutex.WriterGetsIn | kernel/rwmutex.cc:24-28 | a writer gets in at once exactly when nobody is inside |
| RwMutex.ReaderGivesUp | kernel/rwmutex.cc:79-99 | an attempt that fails on the common mutex leaves the lock as it was |
| RwMutex.ReaderGivesUpEarly | kernel/rwmutex.cc:79-87 | so does one that fails on the reader mutex |
| SmpCall.NextInv | kernel/smp.cc:63-132 | every step of callers, interrupt and handler keeps the invariant |
| SmpCall.RunsOnce | kernel/smp.cc:80-132 | no call is run twice, a call that returns was run once, and no posted call is lost |
| SmpCall.Announced | kernel/smp.cc:117-128 | a list that is not empty has an interrupt pending or about to be sent, or is about to be adopted |
| SmpCall.NeverTouchesDone | kernel/smp.cc:90-94 | the handler has nothing to do with a record that is complete |
| SmpCall.CanReturn | kernel/smp.cc:63-132 | from every state of every run each posted call can still be run, once, and return |
| SmpCall.FirstPostedFirstRun | kernel/smp.cc:80-125 | calls are run in the order in which they were posted |
| SmpCall.OneInterrupt | kernel/smp.cc:120-128 | a caller that finds others on the list sends no interrupt |
| BitSpan.FetchBit | acpi/uacpi/source/io.c:66-81 | the eight bits fetched for one turn are the next source bits, zero past the end |
| BitSpan.StoredBit | acpi/uacpi/source/io.c:83-90 | the two masked stores of one turn change just the bits of the turn |
| BitSpan.BitCopy | acpi/uacpi/source/io.c:48-95 | each destination bit becomes the source bit, or zero past the source's end, and every bit outside the span is unchanged, for all offsets and lengths |
| BufferField.FastRead | acpi/uacpi/source/io.c:118-126 | the byte-wise read meets the bit-wise specification |
| BufferField.FastWrite | acpi/uacpi/source/io.c:154-174 | so does the byte-wise write with its tail byte |
| BufferField.Read | acpi/uacpi/source/io.c:114-129 | reads the field's bits, zero-extended to whole bytes |
| BufferField.Write | acpi/uacpi/source/io.c:149-177 | writes the value's bits, or zeroes past its end, into the field and nothing else |
| BufferField.OneOutcome | acpi/uacpi/source/io.c:97-177 | the specification leaves one outcome, so the paths agree |
| BufferField.WriteThenRead | acpi/uacpi/source/io.c:97-177 | a value written comes back cut or zero-extended to the field |
| BufferField.DisjointRead | acpi/uacpi/source/io.c:97-177 | a write does not change what a disjoint field reads as |
| FieldUnit.AccessRead | acpi/uacpi/source/io.c:930-954 | one read access shows the region's bytes, and fails exactly when it goes beyond the region's end, which is tested in `uacpi_dispatch_opregion_io` (`acpi/uacpi/source/opregion.c`, lines 848-900) |
| FieldUnit.AccessWrite | acpi/uacpi/source/io.c:956-980 | one write access replaces those bytes only |
| FieldUnit.ReadMisaligned | acpi/uacpi/source/io.c:408-457 | the loop over accesses collects the field's bits for any offset, length and width, and fails exactly when an access is out of bounds |
| FieldUnit.Read | acpi/uacpi/source/io.c:459-507 | the single-access path and the loop meet one specification |
| FieldUnit.Write | acpi/uacpi/source/io.c:509-574 | writes the field's bits; beside the field, accesses that it covers in part follow the update rule; all else is unchanged; a failed write has made just the accesses before the first one out of bounds, and changed nothing beyond them |
| FieldUnit.UnitWriteThenRead | acpi/uacpi/source/io.c:408-574 | a value written comes back cut or zero-extended to the field |
| FieldUnit.PreserveKeepsOthers | acpi/uacpi/source/io.c:536-545 | with PRESERVE no bit outside the field changes, and no disjoint unit reads differently |
| FieldUnit.BesideOnly | acpi/uacpi/source/io.c:536-556 | in a write that succeeds or fails, a bit beside the field changes only in an access that holds a bit of the field, and then to what the rule says |
| Namespace.Tree.FindSubNode | acpi/uacpi/source/namespace.c:448-466 | finds the child of that name, or there is none |
| Namespace.Tree.Depth | acpi/uacpi/source/namespace.c:1015-1025 | counts the ancestors |
| Namespace.Tree.GenerateAbsolutePath | acpi/uacpi/source/namespace.c:1034-1072 | the buffer is as long as computed, and all of it is filled, with the names from the root down, dots between them and the terminator |
| Namespace.SegPlain | acpi/uacpi/source/namespace.c:468-489 | a name without dots is read back as it stands |
| Namespace.Tree.Resolve | acpi/uacpi/source/namespace.c:491-621 | leading carets and root, segments, search above the parent and the error answers, for every path and with or without a parent |
| Namespace.Tree.FaultExact | acpi/uacpi/source/namespace.c:573-592 | there is no answer, because a null parent is followed, exactly when one name that the root does not have is to be searched for above a parent that was not given |
| NamespacePaths.RelativePath | acpi/uacpi/source/namespace.c:491-621 | what the printed path of a node has after that of a node above it leads from there to the node |
| NamespacePaths.CaretsUp | acpi/uacpi/source/namespace.c:515-560 | k carets lead to the k-th node above, and are invalid past the root |
| NamespacePaths.CaretsThenNames | acpi/uacpi/source/namespace.c:515-595 | carets and then names lead up and down again |
| NamespacePaths.CaretsThenRoot | acpi/uacpi/source/namespace.c:520-530 | a root mark after a caret is invalid |
| NamespacePaths.ShortName | acpi/uacpi/source/namespace.c:468-489 | a single name finds the child of that name, padded with '_' to four characters, or nothing |
| NamespacePaths.NearestAbove | acpi/uacpi/source/namespace.c:573-592 | with the search above, a single name gives the child of the parent or of its nearest ancestor that has one |
| NamespacePaths.NowhereAbove | acpi/uacpi/source/namespace.c:573-592 | if none of them has one, it is not found |
| NamespacePaths.OnlyOneNameAbove | acpi/uacpi/source/namespace.c:571-579 | paths of more than one name are not searched for above |
| NamespacePaths.NoParent | acpi/uacpi/source/namespace.c:499-507 | no parent means the root |
| NamespacePaths.PermanentOnly | acpi/uacpi/source/namespace.c:596-614 | if only permanent nodes will do, a temporary one is denied and all other answers are the same |
| Namespace.Tree.RoundTrip | acpi/uacpi/source/namespace.c:491-621 | if no two siblings share a name, the path printed for a node resolves to that node from anywhere |
| Namespace.Tree.RoundTripExact | acpi/uacpi/source/namespace.c:448-621 | the printed path of every node resolves to that node if and only if no two siblings share a name |
| Namespace.Tree.NamesakeLost | acpi/uacpi/source/namespace.c:448-466 | the path printed for the second of two nodes of one name resolves to the first |
| Namespace.NamesakeNamespace | acpi/uacpi/source/namespace.c:284-329 | two installations under the root make such a namespace |
| Namespace.Tree.PathsDiffer | acpi/uacpi/source/namespace.c:1034-1072 | if no two siblings share a name, different nodes have different paths |
| Namespace.Tree.Install | acpi/uacpi/source/namespace.c:302-329 | makes a new node of any name the last child of its parent and keeps the links a tree; siblings keep different names exactly when the name is new among them |
| Namespace.Tree.Uninstall | acpi/uacpi/source/namespace.c:351-446 | takes out a node without children and keeps the links a tree; otherwise says why not and changes neither a link nor the node's mark |
| Namespace.Tree.InstallThenUninstall | acpi/uacpi/source/namespace.c:302-446 | installing a node and then uninstalling it restores all nodes and all lists of children |
| NamespaceWalk.ForEachChild | acpi/uacpi/source/namespace.c:834-936 | the walk along child, next and parent links makes the calls of the recursive traversal, whatever the callbacks answer, and ends |
| NamespaceWalk.VisitsOnce | acpi/uacpi/source/namespace.c:868-930 | no call is made twice, and each is for a node below the start, with its depth |
| NamespaceShown.VisitsExactly | acpi/uacpi/source/namespace.c:868-930 | unless a callback ends the walk, on any tree, a call is made exactly for the nodes that are not too deep, not at or below a temporary node that is to be left out, not below a node answered with the next peer, and that match with the value the type test has on coming to them |
| NamespaceShown.CutShort | acpi/uacpi/source/namespace.c:889-928 | a walk that a callback ends is the beginning of the walk that goes on instead |
| NamespaceShown.NoForesight | acpi/uacpi/source/namespace.c:868-930 | the first k + 1 calls depend only on the first k answers |
| NamespaceShown.AnswersEnd | acpi/uacpi/source/namespace.c:889-928 | a call answered with break is the last one and ends the walk well; on the way down, one with an unknown answer is the last one and ends it with an error; nothing else ends it |
| NamespaceShown.NextPeerSkips | acpi/uacpi/source/namespace.c:915-925 | no call is for a node below one whose descending call was answered with the next peer |
| NamespaceShown.Walk | acpi/uacpi/source/namespace.c:834-936 | the same in terms of the calls and the status that the caller sees |
| NamespaceShown.OnlyWanted | acpi/uacpi/source/namespace.c:790-930 | unless a callback ends the walk, only nodes of a wanted type are shown if and only if the walk comes to no node without an object while the type test has the value true |
| NamespaceShown.TypedOnlyWanted | acpi/uacpi/source/namespace.c:868-930 | so it is when every node has an object, whatever the callbacks answer |
| NamespaceShown.StaleExample | acpi/uacpi/source/namespace.c:790-807 | a node without an object is shown after a childless sibling of a wanted type |
| NamespaceShown.StaleNamespace | acpi/uacpi/source/namespace.c:284-329 | two installations under the root make such a namespace |
| SlabHeap.HeapTake | mm/slab.cc:65-76 | taking the first free slot keeps every page's chain equal to its free slots |
| SlabHeap.HeapGive | mm/slab.cc:110-113 | so does giving a slot back |
| SlabHeap.HeapDrop | mm/slab.cc:121-133 | a page whose slots are all free holds no live object |
| Slab.SlabAllocator.Thread | mm/slab.cc:86-93 | a fresh page is threaded into a chain of all slots but the first |
| Slab.SlabAllocator.Alloc | mm/slab.cc:49-98 | hands out a slot that was not live, the first one of the first partial page, else of a free page, else of a fresh page; fails only when there is none; keeps lists and counters right and all words of other objects |
| Slab.SlabAllocator.Free | mm/slab.cc:100-134 | takes the object back and puts it first in its page; files the page where it belongs; releases it exactly when it holds no live object and another such page is kept; keeps all words of other objects |
| Slab.SlabAllocator.FreeThenAlloc | mm/slab.cc:49-134 | an object of a page without free slots is the next one handed out after it was freed, and the lists are as before |
| Basics.OmitSplit | mm/slab.cc:122 | taking an entry off a list leaves the others in their order |
| Slab.SlabAllocator.Store | mm/slab.cc:40-47 | writing any words of a live object leaves chains, lists and counters in order |
| Slab.LiveApart | mm/slab.cc:49-98 | live objects never overlap and each lies in a page of the allocator |
| Slab.LiveAligned | mm/slab.cc:49-98 | live objects are aligned |
| Slab.PowerTest | mm/slab.cc:197-201 | the mask test accepts zero and the powers of two, and nothing else |
| Slab.Create | mm/slab.cc:194-226 | accepts exactly the sizes and alignments it should; the object size is the least multiple of the alignment, at least eight, that holds the requested size, and objects are packed as densely as a page allows |

## Left out

- The page tables, the TLB and the spin lock of `mm/vmap.cc`; `kmalloc_large`, whose locked sections are those of `vmap_io_range`.
- Vmap.KernelSpace.MapIoRange: whether page-table memory could be had is a parameter, because page tables are not modelled.
- `TypedAVLTree::first` and `last`, which are easy.
- `list.h` as a structure of its own; the VMA list is modelled inside the tree, and a removed entry's own links are not described.
- Mutex.NextInv: memory is sequentially consistent, tickets are unbounded, and DPC levels are not modelled; a timeout or a signal may end a bounded wait at any check.
- Sched.ScheduleInv: task exit, the idle task's own fields, timer arming and the choice of the target CPU are not modelled; any CPU may be chosen.
- Sched.OneEnqueuePerWake: assumes that tickets are not published in the two situations of `Sched.PublishExact`; the code does not rule them out.
- SchedRuns.WayOn: says that a way on exists, not that a fair scheduler takes it.
- RwMutex.StepInv: the two mutexes are taken and released in one step each; the mutex itself is the subject of `Mutex`.
- SmpCall.NextInv: one target CPU; a call to the caller's own CPU runs at once and is left out.
- FieldUnit.Write: bank and index fields, the global lock and the special address spaces (GPIO, IPMI, serial bus, PRM, fixed hardware) are not modelled, nor is 32-bit overflow of bit counts.
- FieldUnit.AccessRead: the region is plain memory; device regions may answer differently.
- The rest of uACPI; in `namespace.c` reference counts, the lock, and freeing the whole namespace.
- NamespaceWalk.ForEachChild: callbacks do not change the namespace during the walk.
- Namespace.Tree.Uninstall: the node's own parent and sibling links are left as they are, as in the code, and not described further.
- Slab.SlabAllocator.Alloc: zeroing, allocation classes and the list of allocators are not modelled; `kmalloc` only picks an allocator by size.
- `early_alloc.cc`, `rcu.cc`, `condwait.cc`, `dpc.cc`, `ktimer.cc` and the command-line parser.
- String helpers, CPU sets, reference counts and printing, which would only add easy members.
