# Barrelfish CPU driver: capabilities, scheduling and messages

A Dafny model of the kernel state of the Barrelfish CPU driver, with proofs about it: the
mapping database and the capability operations on top of it, the RBED scheduler with its run
queue, wake-up queue and one-shot timer, local message passing (LMP), and three small pieces
the kernel relies on: its printf and strtoul, its memmove and the packet layer of its
debugger stub.

What is proved, in the system's own terms:

- **Mapping database.** The balanced tree of `lib/mdb` keeps its order, its AA balance and
  its region ends under insertion and removal, which refine insertion into and removal from
  a sorted list; neighbour, ordered and range queries answer what a scan of all entries
  would.
- **Retype.** A retype that the checks admit keeps the derivation forest: any two
  capabilities to overlapping objects are copies or ancestor and descendant. When it is
  admitted is stated exactly. An error changes nothing.
- **Revoke.** The three walks of the mark phase come to their end exactly if this core owns
  the target, nothing they touch is locked and no mapping refuses to go with the slot it was
  made with; then they leave the target as the only copy, account for every other entry,
  delete or keep each descendant by an exact rule and keep the delete list in order; whether
  anything in the target's region is left over is decided by an exact condition.
- **Copies.** All copies of a capability agree on owner, lock and remote bits.
- **Scheduling.** `schedule` terminates, and stops the kernel exactly on a missed hard
  deadline or a weight above the limit, which the queue before the call foretells if it
  holds one kind of task; without `schedule_now`, hard real-time runs are earliest deadline
  first, in insertion order among equal deadlines, and strictly periodic, and when
  `schedule_now` does not matter is stated exactly; in best-effort runs a waiting task moves
  up by exactly the turns that end in front of it, a turn ends exactly when its budget is
  used up, and so the time until a waiting task is picked is bounded; the system is never
  overcommitted, and what hard load leaves over is shared out; the linked run queue and its
  counters refine the policy.
- **Blocking.** Over every run of yields, deliveries, refused sends, ticks, faults,
  creations, destructions and property changes, nobody with work, an unseen message or a
  requested wake-up is forgotten, except for dispatchers taken out of the run queue after
  too many faults or set up without being started, and for blocked ones that a refused send
  switches to.
- **Messages.** The endpoint ring refines a queue of messages; a message and its capability
  arrive together, and the receiver is runnable, or neither arrives, or the kernel halts,
  under an exact condition.
- **Text, memory, debugger.** snprintf's result, scratch buffer and terminator; what every
  directive prints, by the standard; numbers read back as written; overlapping moves;
  framing, resynchronisation and retransmission.

## How the model is laid out

Code that updates objects in place is a class or works on an array: `CapSpace` (slots and
database), `SlotTable` (copies), `Revoker` (the mark phase), `Kernel` (run queue),
`WakeupQueue` (alarms and timer), `Endpoint` (ring). Each method is proved against a
function on values, and the theorems about runs are about those functions. Pointers into the
mapping database are indices into its sorted sequence in `SlotTable` and `Revoker`.

The clock, the place where a lookup leads, the room in the monitor's channel and the
characters on the serial line are parameters. A panic or a failed assertion ends the run:
the operation returns false, `None`, `Halt` or `Halted`. Addresses, sizes, times and weights
are unbounded naturals; 8-bit lengths and checksums, 32-bit message counters and numerals of
32 or 64 bits wrap around as in the source. The size of a long, of a pointer and of the word
that memmove copies is a parameter: 32 bits on ARMv7, 64 elsewhere. The order of
capabilities, the type tree and `is_copy`/`is_ancestor` follow the Hamlet input
`capabilities/caps.hl` and what `tools/hamlet/HamletBackend.lhs` generates from it.

## Where the code differs from what one expects

- `is_ancestor` sees one retype step only. The descendant walk of `caps_mark_revoke`
  therefore stops at a capability two steps away, such as an end point of a dispatcher below
  RAM, and leaves what follows unmarked (`RevokeExact.EndPointStopsTheWalk`). The mark phase
  is complete if and only if no such obstacle is in the target's region
  (`Revoke.CompleteIffNoObstacle`).
- Deleting a frame or page table deletes the mappings made with its slot, but
  `unmap_capability` only prints an error if one of them refuses. The slot is emptied all
  the same, and the address of such a mapping, which is read through a pointer to the slot,
  is no longer the one that the database is sorted by (`RevokeExact.DanglingBreaksOrder`).
  This happens if and only if one of the mappings is locked, being deleted or shared with
  other cores (`RevokeExact.DanglingMeans`); the model follows a run no further than that.
- The walks of `sys_lock_cap_common` and `sys_set_cap_owner` pass a missing neighbour to
  `is_copy` if and only if the first or the last entry of the database is a copy of the slot
  (`CopyAttrs.SlotTable.Walk`). The model takes a missing neighbour to be no copy.
- `caps_retype` checks the offset with the caller's object size, but page tables,
  dispatchers and kernel control blocks are laid out with their own. For every object size
  below the real one there is a database, made by one retype of RAM to a page frame, whose
  forest breaks (`Retype.ShortObjectSizeBreaksForest`); with object sizes that are at least
  the real ones it never does (`Retype.RetypeKeepsForest`). An object size of zero divides
  by zero for the types of variable size (`Retype.MaxNumObjs` is then `None`).
- `mdb_find_range` may or may not report a capability without extent that lies exactly on an
  edge of the region, depending on the shape of the tree alone
  (`MdbRange.EdgeEntryDependsOnShape`). Otherwise it agrees with a scan, provided that no
  capability of a lower type root starts behind the region: the walk compares addresses
  without comparing type roots. That always holds for memory, and for every query as long as
  only memory types have an address (`MdbRange.AlwaysSearchable`), as in `caps.hl`.
- `wakeup_remove` leaves the wake-up time set. A second removal is therefore the no-op that
  its comment promises if and only if there was no alarm in the first place; otherwise it
  fails an assertion (`Wakeup.WakeupQueue.RemoveTwice`).
- The length in the LMP receive header has 8 bits. A message is received as sent if and only
  if it has fewer than 256 words (`Lmp.RoundTripIffShort`). Longer ones are inputs of
  `lmp_deliver_payload` only: the system call admits at most 9 words
  (`kernel/arch/armv7/syscall.c`, line 1143).
- An end point that is given away through itself is gone when its slot is read again for the
  delivery: the capability has moved, the message has not arrived, and the kernel halts
  (`LmpTransfer.GivenAwayThroughItself`). All the conditions under which a send halts the
  kernel are in `LmpTransfer.HaltsIff`.
- `scheduler_remove` leaves the release of a task alone, and `make_runnable` panics on a
  hard real-time task whose release is past. A blocked hard real-time dispatcher can be
  woken if and only if its release is not past and its load still fits
  (`RbedOutlook.WakesIff`); if it blocks after its release, waking it stops the kernel
  whatever happens meanwhile (`RbedOutlook.BlockedForGood`), as a run from boot shows
  (`Blocking.MessageStopsTheKernel`).
- A source of another core, or with descendants on other cores, must be retyped through the
  monitor, but `is_retypeable` answers that the source has to be revoked first before it
  looks at that. Without the monitor such a retype is admitted if and only if the source has
  a local descendant and the monitor would be admitted (`Retype.ForeignRetypeIff`,
  `Retype.ForeignRetype`).
- Giving away a locked capability copies it and then fails the assertion that the source can
  be deleted (`LmpTransfer.TransferCap`). Giving away a frame or page table deletes the
  mappings that were made with the source slot, so the number of copies is kept for all
  capabilities but these (`LmpTransfer.CopiesConserved`), unless one of them refuses to go
  (`LmpTransfer.LeftMappingIff`).
- `do_resource_allocation` asserts that a weight is below `UINT_MAX / SPECTRUM`, which is
  4294, but `sys_dispatcher_properties` accepts any positive 16-bit weight. `schedule` stops
  on a weight if and only if it selects such a task (`RbedStops.StopsIff`); with best-effort
  tasks only, if and only if everything in front of such a task is light and has used up its
  budget (`RbedOutlook.FairStopsIff`). So a weight from the limit on stops the next
  `schedule` if and only if all other tasks have used up their budgets by then
  (`RbedOutlook.HeavyStopsWhenReached`), and at once if there are none
  (`RbedStops.HeavyStopsSchedule`).
- `schedule` need not return if budgets are zero (`RbedRuns.ZeroBudgetLoops`). With
  best-effort tasks only it ends if and only if the queue is empty or some task has a
  positive budget or too large a weight (`RbedEnds.BestEffortEndsIff`); with hard real-time
  tasks only, if and only if no task without budget stands ahead of every task whose
  selection ends the loop (`RbedEnds.HardEndsIff`). For mixed queues it ends if no released
  task without budget stands in front of some released task that is ready
  (`RbedOutlook.InSightEnds`); the converse is not stated, since where `queue_insert` puts a
  best-effort task depends on the whole queue.
- `schedule_now`, which runs on every notification and timed wake-up, sets the deadline of a
  hard real-time task to one tick and may pull its release forward. The task is no longer
  periodic unless its deadline was one tick and its release is past
  (`RbedPeriodic.HurryStemsIff`), and the queue stays sorted if and only if the new deadline
  fits between the neighbouring ones (`RbedRuns.HurryByDeadlineIff`). A task first in line
  whose release is more than one tick past then stops the kernel at the next `schedule`,
  however far off its own deadline was (`RbedOutlook.HurriedStopsIff`,
  `RbedOutlook.HurryStopsTheKernel`).
- A dispatcher that is set up without being started, with a frame that says that it has
  work, that a message is unseen or a wake-up requested, is not in any queue
  (`Blocking.CreateKeeps`).
- A dispatcher that has faulted too often is taken out of the run queue and stays alive. It
  may then miss a message or a wake-up; exactly when is `Blocking.FaultKeeps`.
- A send with the yield flag that is refused switches to the receiver without making it
  runnable (`kernel/arch/armv7/syscall.c`, lines 1171-1206). A blocked receiver then runs
  outside the run queue, and the wake-up that it asks for can be lost
  (`Blocking.StrayWithWakeup`); exactly when is `Blocking.StrayYields`.
- `snprintf` does not terminate a text that does not fit. Its result is then one more than
  the length of the output up to and including the first character or field that does not
  fit (`Snprintf.Kprintf`), which is the length of the whole output exactly if one character
  follows (`Snprintf.ResultMeans`).
- The alternate form of octal, which by section 7.19.6.1 of ISO/IEC 9899:1999 starts with a
  zero, prints nothing exactly if number and precision are zero (`PrintfMeans.OctalText`).

## Model

| member | source | states |
|---|---|---|
| Caps.Parent | capabilities/caps.hl:71-303 | the type a capability type is derived from comes earlier in the list of types, so derivation has no cycles |
| Caps.WellFoundedIff | capabilities/caps.hl:71-303 | for every type, exactly which types it is made from in one retype step |
| Caps.RankInjective | tools/hamlet/HamletBackend.lhs:307-390 | the number that compare_caps compares types by identifies the type |
| Caps.CompareEqualIff | tools/hamlet/HamletBackend.lhs:307-390 | two capabilities compare equal if and only if they agree on type, address, extent and all fields declared for comparison; swapping them swaps the answer |
| Caps.CopyIff | tools/hamlet/HamletBackend.lhs:492-530 | copies are exactly those that agree on all that, and those of a type of which there is only one object |
| Caps.TypeAncestorRank | tools/hamlet/HamletBackend.lhs:277-300 | every type reached by derivation steps has the same type root and a smaller number |
| Caps.RootsAreTrees | tools/hamlet/HamletBackend.lhs:277-300 | two types have the same type root if and only if they are the same or both derived from physical addresses |
| Caps.SizesAre | capabilities/caps.hl:22-37 | the sizes of all types of object, in bytes, and which types vary in size |
| MdbOrder.BeforeTransitive | tools/hamlet/HamletBackend.lhs:307-390 | compare_caps with tie break is transitive |
| MdbOrder.BeforeOrAfter | tools/hamlet/HamletBackend.lhs:307-390 | two entries that do not compare equal are ordered one way or the other |
| MdbOrder.InsertedSorted | lib/mdb/mdb_tree.c:571-614 | putting a new entry in front of the first one it precedes keeps the list sorted |
| MdbOrder.WithoutSorted | lib/mdb/mdb_tree.c:773-843 | dropping an entry keeps the list sorted and drops exactly that entry |
| MdbTree.SkewContents | lib/mdb/mdb_tree.c:425-462 | a skew changes no entry and no order |
| MdbTree.SplitContents | lib/mdb/mdb_tree.c:464-504 | a split changes no entry and no order |
| MdbTree.RebalanceContents | lib/mdb/mdb_tree.c:527-541 | rebalancing changes no entry and no order |
| MdbTree.InsertContents | lib/mdb/mdb_tree.c:571-614 | insertion fails exactly on a duplicate and otherwise inserts into the sorted list of entries |
| MdbTree.TakeLastContents | lib/mdb/mdb_tree.c:681-771 | the exchange of a removed node takes exactly the last entry of the left subtree |
| MdbTree.RemoveContents | lib/mdb/mdb_tree.c:773-843 | removal fails exactly if the entry is missing and otherwise removes it from the sorted list |
| MdbTree.LoneLeaf | lib/mdb/mdb_tree.c:261-350 | a node without left child has at most a leaf to its right, which is why removal may replace it by that child |
| MdbBalance.InsertBalanced | lib/mdb/mdb_tree.c:571-614 | insertion keeps the AA rules and raises a subtree by at most one level |
| MdbBalance.RebalanceBalanced | lib/mdb/mdb_tree.c:506-541 | levelling, three skews and two splits repair every tree in which one side is one level short |
| MdbBalance.TakeLastBalanced | lib/mdb/mdb_tree.c:681-771 | taking the last node out keeps the AA rules |
| MdbBalance.RemoveBalanced | lib/mdb/mdb_tree.c:773-843 | removal keeps the AA rules and lowers a subtree by at most one level |
| MdbBalance.LogarithmicHeight | lib/mdb/mdb_tree.c:261-350 | the height is at most twice the level, and the number of entries is exponential in the level |
| MdbBalance.HeightBoundsPaths | lib/mdb/mdb_tree.c:261-350 | no search path is longer than the height |
| MdbUpdate.EndOkMeans | lib/mdb/mdb_tree.c:388-423 | the region end stored in a node bounds every entry below it and is attained by one |
| MdbUpdate.InsertEnds | lib/mdb/mdb_tree.c:571-614 | insertion keeps every stored region end right |
| MdbUpdate.RemoveEnds | lib/mdb/mdb_tree.c:773-843 | removal keeps every stored region end right |
| MdbUpdate.InsertCorrect | lib/mdb/mdb_tree.c:616-630 | mdb_insert keeps order, balance and region ends together and adds exactly the entry; it fails exactly on a duplicate |
| MdbUpdate.RemoveCorrect | lib/mdb/mdb_tree.c:845-860 | mdb_remove keeps order, balance and region ends together and removes exactly the entry; it fails exactly if there is none |
| MdbQuery.FindGreaterCorrect | lib/mdb/mdb_tree.c:933-972 | the search returns the first entry behind the key in the sorted list, with or without tie break, or some entry equal to it if equality is allowed |
| MdbQuery.FindLessCorrect | lib/mdb/mdb_tree.c:892-931 | the search returns the last entry before the key in the sorted list, or some entry equal to it if equality is allowed |
| MdbQuery.NeighboursCorrect | lib/mdb/mdb_tree.c:975-1009 | predecessor and successor of a node are its neighbours in the sorted list |
| MdbRange.MergeRight | lib/mdb/mdb_tree.c:1112-1153 | merging two right answers gives a right answer for both parts together |
| MdbRange.ChosenIsPreferred | lib/mdb/mdb_tree.c:1015-1106 | of two entries of a kind the choice is the last one that covers the region, the first one inside it, or the last one across its start before the last one across its end |
| MdbRange.PrunedByEnd | lib/mdb/mdb_tree.c:1155-1251 | a subtree skipped because its regions end too early holds nothing that matters |
| MdbRange.PrunedRight | lib/mdb/mdb_tree.c:1155-1251 | a right subtree skipped because it starts too late, or has a higher type root, holds nothing that matters |
| MdbRange.FindRangeCorrect | lib/mdb/mdb_tree.c:1155-1251 | on every searchable database the answer is backed by an entry of its kind, no entry off the edges is of a higher kind, and of those of its kind none is to be preferred: of the covering ones the last, of the inner ones the first, of the partial ones the last across the start, or else the last |
| MdbRange.AlwaysSearchable | lib/mdb/mdb_tree.c:1155-1251 | if only memory types have an address and extent, every query is searchable: no skipped subtree holds anything that matters |
| MdbRange.FindRangeIsScan | lib/mdb/mdb_tree.c:1253-1277 | without entries on the edges, the pruned query and a scan of all entries find the same kind |
| MdbRange.EdgeEntryDependsOnShape | lib/mdb/mdb_tree.c:1155-1251 | two balanced trees with the very same four entries answer differently about an end point on the edge |
| Forest.DescendantDetected | lib/mdb/mdb.c:97-105 | has_descendants, which looks at one entry only, detects every object derived from the source |
| Forest.HasDescendantsIff | lib/mdb/mdb.c:97-105 | has_descendants answers whether any entry of the database comes after the source and starts before it ends |
| Forest.DescendantInRange | kernel/capabilities.c:1533-1578 | the range check refuses whenever an object derived from the source meets the region |
| Forest.RangeFreeIff | kernel/capabilities.c:1533-1578 | without end points on its edges, a region inside the source passes the range check if and only if everything that meets it covers it and does not come after the source in the order |
| Forest.ClassMeans | lib/mdb/mdb_tree.c:1183-1218 | of the kinds of a range query, none means no common address, surrounding means covering the region, and inner means inside it and not equal to it |
| Forest.ChecksSuffice | kernel/capabilities.c:1469-1578 | either check, passed, means that nothing derived from the source meets the region |
| Forest.CuttingKeepsForest | kernel/capabilities.c:1406-1640 | cutting disjoint objects out of a free region of the source keeps every two overlapping objects related |
| Ancestors.FindAncestorCorrect | lib/mdb/mdb.c:112-161 | over a forest, mdb_find_ancestor finds an entry that covers an object if and only if there is one, namely the innermost, and none of its assertions fails |
| Ancestors.HasAncestorsIsFindAncestor | lib/mdb/mdb.c:107-110 | has_ancestors answers whether any entry of the database that comes earlier covers the object |
| Ancestors.HasDescendantsIsFindGreater | lib/mdb/mdb.c:97-105 | has_descendants answers whether any entry of the database that comes later starts in the region |
| Ancestors.DecisionIsLookups | kernel/cap_delete.c:46-66 | over a forest, what deletion decides from the sequence of entries is what the neighbour, successor and ancestor lookups in the tree give |
| Ancestors.DeletionKeepsForest | kernel/cap_delete.c:163-198 | a deletion or a mark leaves a forest |
| Ancestors.RevokeKeepsForest | kernel/cap_delete.c:462-543 | the mark phase leaves a forest |
| Retype.MaxNumObjs | kernel/capabilities.c:360-454 | the number of objects times their real size never exceeds the source; it is undefined only for object size zero |
| Retype.MaxNumObjsMeans | kernel/capabilities.c:360-454 | it is the largest number that fits; zero exactly if not one fits or the size of a CNode is not allowed; undefined exactly for memory of object size zero |
| Retype.ChecksMean | kernel/capabilities.c:1464-1578 | what an admitted retype has established: types, positive count and size, the offset bound, and one of the two free-region checks |
| Retype.ChecksIff | kernel/capabilities.c:1406-1578 | a retype to an object is admitted if and only if offset and size are aligned as the type asks, the type is one step from the source, this core or the monitor may retype it, the count is positive, the objects fit by their own size and by that given, and the region is free |
| Retype.EndPointIff | kernel/capabilities.c:1406-1578 | a retype to end points is admitted if and only if the source is a dispatcher, one is asked for, the offset is aligned, and this core owns the dispatcher or the monitor asks |
| Retype.RevokeFirstIff | kernel/capabilities.c:1533-1578 | the source has to be revoked first if and only if all is well but that the region is taken |
| Retype.RefusalsMean | kernel/capabilities.c:1643-1664 | a refusal by type means that the type is not one step from the source, one that asks for the monitor that the source is foreign or has remote descendants and no local ones, and the division by zero that memory of size zero is asked for |
| Retype.SizeRefusalsMean | kernel/capabilities.c:1430-1529 | a refusal by size means that one object does not fit or the size is not allowed, one by count that one fits but not so many, one by offset that it is not aligned or leads out of the source |
| Retype.OnlyObjects | kernel/capabilities.c:1464-1467 | neither mappings nor types outside the tree of memory can be the result of a retype |
| Retype.NewDisjoint | kernel/capabilities.c:586-1058 | the new objects lie behind one another without overlap |
| Retype.NewAreCutOut | kernel/capabilities.c:586-1058 | the new objects are pairwise disjoint, inside the source and inside the checked region |
| Retype.RetypeKeepsForest | kernel/capabilities.c:1406-1640 | an admitted retype to any type of object, with object sizes not below the real ones, keeps the derivation forest |
| Retype.ShortObjectSizeBreaksForest | kernel/capabilities.c:1518-1529 | for every page table, dispatcher or kernel control block and every object size below the real one there is a database, made by one admitted retype, whose forest the next admitted retype breaks |
| Retype.ForeignRetypeIff | kernel/capabilities.c:1643-1664 | without the monitor, a source of another core or with descendants there is retyped if and only if it has a local descendant and the monitor would be admitted |
| Retype.ForeignRetype | kernel/capabilities.c:1643-1664 | RAM of another core that is refused while it is whole and admitted once a frame has been cut out of it |
| Retype.CapSpace.FillSlots | kernel/capabilities.c:639-663 | the set_cap loop fills the slots in turn and stops at the first one taken |
| Retype.CapSpace.Revert | kernel/capabilities.c:1060-1066 | the slots filled so far become empty again, all others stay |
| Retype.CapSpace.SetOwner | kernel/capabilities.c:1067-1072 | the new slots, and only they, get their owner |
| Retype.CapSpace.CapsCreate | kernel/capabilities.c:586-1075 | succeeds exactly if all slots are free, then fills exactly these with their owner; otherwise nothing changes, except that slots already filled with kernel control blocks stay filled |
| Retype.CapSpace.InsertAll | kernel/capabilities.c:1628-1631 | every new slot gets into the database, which lists exactly the occupied slots |
| Retype.CapSpace.CapsRetype | kernel/capabilities.c:1406-1640 | succeeds exactly if all checks pass and the slots are free; adds exactly the new objects and keeps the forest, or changes nothing |
| Copies.CopiesContiguous | lib/mdb/mdb.c:166-181 | whatever stands between two copies is a copy |
| Copies.HasCopiesCorrect | lib/mdb/mdb.c:166-181 | looking at the two neighbours finds a copy if and only if there is one anywhere |
| CopyAttrs.ChangeKeepsAgreement | kernel/monitor.c:208-251 | changing an attribute on every copy keeps all copies in agreement |
| CopyAttrs.DeletionMarkIsPerSlot | kernel/cap_delete.c:344-346 | marking one slot for deletion keeps all copies in agreement |
| CopyAttrs.WalkReachesAll | kernel/monitor.c:238-251 | walking outwards until the first non-copy reaches every copy |
| CopyAttrs.SlotTable.Walk | kernel/monitor.c:238-251 | both outward walks change exactly the copies of the slot, and get past an end of the database if and only if its first or last entry is a copy |
| CopyAttrs.SlotTable.LockCommon | kernel/monitor.c:238-251 | every copy, and nothing else, gets the lock bit asked for; its other attributes stay; agreement is kept |
| CopyAttrs.SlotTable.SetCapOwner | kernel/monitor.c:208-236 | every copy, and nothing else, gets the owner asked for; its other attributes stay; agreement is kept |
| CopyAttrs.SlotTable.CopyToCte | kernel/capabilities.c:1694-1730 | fails exactly on an occupied slot, otherwise adds one entry with all shared attributes of the source; agreement and order are kept |
| CopyAttrs.NeighboursDecide | kernel/capabilities.c:1224-1249 | if there is a copy of a new entry anywhere, a neighbour of its place is one |
| CopyAttrs.SlotTable.CreateFromExisting | kernel/capabilities.c:1197-1281 | the new slot takes over the shared attributes of its copies if there are any, found by two neighbour checks; agreement is kept |
| Revoke.MarkFates | kernel/cap_delete.c:518-528 | every entry behind the target is deleted, unmapped with a deleted slot, kept with the mark and listed, or untouched behind the end of the walk |
| Revoke.MarkClean | kernel/cap_delete.c:326-375 | everything kept is marked, nothing deleted is kept or listed, no slot is listed twice |
| Revoke.CompleteIffOneStep | kernel/cap_delete.c:518-528 | the walk reaches everything in the target's region if and only if everything there is one step from the target or a mapping of a slot that goes |
| Revoke.CompleteIffNoObstacle | kernel/cap_delete.c:518-528 | a walk that comes to its end leaves nothing in the target's region unmarked if and only if everything there is one step from the target or a mapping that goes with its slot and does not refuse |
| Revoke.PassesIff | kernel/cap_delete.c:326-375 | the third walk comes to its end if and only if no mapping that it unmaps refuses, and no entry that it comes to is locked, other than those already marked |
| Revoke.AllGoIff | kernel/paging_generic.c:205-279 | deleting the mappings of a slot in turn, the last one first, deletes them all if and only if none of them is locked, being deleted, or shared with other cores |
| RevokeWalk.Revoker.UnmapCapability | kernel/paging_generic.c:205-279 | the loop deletes exactly the mappings made with the slot, or tells that one refused |
| RevokeWalk.Revoker.CapsTryDelete | kernel/cap_delete.c:46-66 | on success removes exactly the entry and its mappings, on a refusal nothing; what the answers mean is in the next three rows |
| RevokeExact.TryDeleteMeans | kernel/cap_delete.c:46-66 | locked exactly if locked or marked; last owned exactly for the last copy on its owner's core, of the whole database, that is shared with other cores or an L1 CNode, an L2 CNode or a dispatcher; retry exactly for such a copy of RAM, a frame or a page table, not shared, that nothing above or below it refers to, while the monitor has no room |
| RevokeExact.DanglingMeans | kernel/cap_delete.c:163-198 | deletion leaves a mapping that has lost its slot if and only if it deletes a frame or page table one of whose mappings is locked, being deleted or shared with other cores |
| RevokeExact.DanglingBreaksOrder | kernel/cap_delete.c:163-198 | a mapping whose slot has been emptied is out of order behind whatever precedes it at a positive address |
| RevokeExact.LockedMappingOfCopy | kernel/cap_delete.c:315-324 | a sane database in which the copy to delete is free but has a locked mapping: the mark phase does not come to its end |
| RevokeExact.LockedMappingOfDescendant | kernel/cap_delete.c:518-528 | a sane database with a locked mapping of a frame in RAM, which is in the way of the third walk |
| RevokeExact.LastCopyStays | kernel/cap_delete.c:46-66 | deleting an own container, or a capability that other cores have copies of, leaves a copy of it |
| RevokeExact.MarkDecides | kernel/cap_delete.c:326-375 | a descendant that the walk comes to is deleted if and only if it is foreign, a copy comes behind it, or it is neither shared nor a CNode or dispatcher; otherwise it is kept, listed once, and only its deletion mark and its bit for remote copies have changed |
| RevokeWalk.Revoker.MarkRevokeGeneric | kernel/cap_delete.c:326-375 | deletes the entry with its mappings, or marks it and appends it to the delete list once; fails exactly on a lock or a mapping that refuses |
| RevokeWalk.Revoker.WalkBack | kernel/cap_delete.c:482-496 | deletes exactly the copies in front of the starting point, swapping in the target when it meets it, or fails exactly on one of them that is locked or marked or has a mapping that refuses |
| RevokeWalk.Revoker.WalkForward | kernel/cap_delete.c:497-513 | deletes the remaining copies, or fails exactly on one that is locked or marked or has a mapping that refuses; the one kept is the target |
| RevokeWalk.Revoker.WalkDescendants | kernel/cap_delete.c:518-528 | marks or deletes exactly as the walk over the remaining list does, although it deletes what it walks over; it ends at the target or at a marked entry, so the branch behind it (lines 530-540) is never taken |
| RevokeWalk.Revoker.MarkRevoke | kernel/cap_delete.c:462-543 | comes to its end if and only if this core owns the target, nothing the walks touch is locked, no other copy of the target is marked, and no mapping refuses to go with its slot; then of the copies only the target stays, in its place, and the rest is marked |
| RevokeWalk.LayoutOf | kernel/cap_delete.c:474-482 | the sorted database falls into what precedes the copies, the copies, and what follows them |
| RevokeExact.RevokeIsExact | kernel/cap_delete.c:462-543 | a mark phase that comes to its end accounts for every entry, leaves a clean outcome, and is complete if and only if there is no obstacle |
| RevokeExact.DeleteListStays | kernel/cap_delete.c:326-375 | what the mark phase appends to the delete list was not on it, and everything on the list is still in the database and marked |
| RevokeExact.LeafTypesAreComplete | kernel/cap_delete.c:518-528 | revoking a frame, a device frame, a page table or a dispatcher leaves nothing out |
| RevokeExact.EndPointStopsTheWalk | kernel/cap_delete.c:518-528 | a sane database with a RAM capability for which the mark phase leaves a derived frame unmarked |
| Rbed.Spot | kernel/schedule_rbed.c:131-156 | the place found by queue_insert is behind everything it skips and before the first entry it does not |
| Rbed.WeightPositive | kernel/schedule_rbed.c:246-247 | with a best-effort task queued, total weight and number are positive |
| RbedRuns.AgainGoesOn | kernel/schedule_rbed.c:405-419 | every start_over lowers the number of queued tasks with executed time and keeps budgets positive |
| RbedRuns.PickEnds | kernel/schedule_rbed.c:296-420 | with positive budgets schedule ends, restarting at most once per task with executed time; it picks a queued, released task or none, and keeps the counters |
| RbedRuns.PickedIsFit | kernel/schedule_rbed.c:347-375 | the picked task is released, its deadline is not past, it has budget left, and a best-effort task has the budget and deadline that the final queue gives it |
| RbedRuns.ZeroBudgetLoops | kernel/schedule_rbed.c:405-419 | a task without budget that is released now is selected for ever |
| RbedEnds.BestEffortEndsIff | kernel/schedule_rbed.c:313-419 | for best-effort tasks schedule ends if and only if the queue is empty or some task has a positive budget or a weight that stops the kernel |
| RbedEnds.HardEndsIff | kernel/schedule_rbed.c:313-419 | for hard real-time tasks schedule ends if and only if no task without budget is trapped ahead of every task whose selection ends the loop |
| RbedStops.StopsIff | kernel/schedule_rbed.c:246-249 | schedule stops on a weight, or on a missed deadline, if and only if it selects a best-effort task with such a weight, or a hard real-time task that is late |
| RbedStops.LightNeverStops | kernel/schedule_rbed.c:246-249 | with all weights below the limit the assertion on weights holds |
| RbedStops.LightRunsNeverStop | kernel/syscall.c:178-208 | if no caller ever sets a weight from the limit on, schedule never stops on one, over every run |
| RbedStops.HeavyStopsSchedule | kernel/syscall.c:178-208 | every weight from the limit on is accepted, and stops the next schedule if nothing else is queued |
| RbedOutlook.FairStopsIff | kernel/schedule_rbed.c:246-249 | with best-effort tasks only, schedule stops on a weight if and only if such a task is queued and everything in front of it is light and has used up its budget |
| RbedOutlook.HeavyStopsWhenReached | kernel/syscall.c:178-208 | a weight from the limit on, set among light best-effort tasks, stops the next schedule if and only if every other task has used up its budget by then |
| RbedOutlook.HardStopsIff | kernel/schedule_rbed.c:361-366 | with hard real-time tasks only, schedule stops on a missed deadline if and only if some queued task is late |
| RbedOutlook.HurriedStopsIff | kernel/schedule_rbed.c:422-429 | if nothing else is late and nothing released stands in front of it, a hard real-time task on which schedule_now was called stops the next schedule if and only if more than one tick has passed since its release, or since that call |
| RbedOutlook.HurryStopsTheKernel | kernel/dispatch.c:398-400 | a task made runnable in time, with its deadline far off, for which schedule would not stop, but stops after schedule_now |
| RbedOutlook.WakesIff | kernel/schedule_rbed.c:431-485 | a blocked hard real-time dispatcher can be made runnable if and only if its period is positive, its release is not past and its load fits; a best-effort one always can |
| RbedOutlook.BlockedForGood | kernel/schedule_rbed.c:496-522 | a hard real-time dispatcher that leaves the queue after its release stops the kernel when it is made runnable, after every run in between |
| RbedOutlook.InSightEnds | kernel/schedule_rbed.c:313-419 | for queues of any kind schedule ends if some released task that is ready has no released task without budget in front of it |
| RbedRuns.InsertByDeadline | kernel/schedule_rbed.c:112-157 | a hard real-time task goes behind all deadlines up to its own and before all later ones |
| RbedRuns.StepByDeadline | kernel/schedule_rbed.c:296-556 | every operation but schedule_now keeps a hard real-time queue sorted by deadline |
| RbedRuns.HurryByDeadlineIff | kernel/schedule_rbed.c:422-429 | schedule_now keeps a queue sorted by deadline if and only if the new deadline fits between those of the neighbours |
| RbedRuns.ScheduleIsEdf | kernel/schedule_rbed.c:296-420 | the task that schedule picks has the earliest deadline of all released ones |
| RbedRuns.HardRunsAreEdf | kernel/schedule_rbed.c:296-556 | over every hard real-time run without schedule_now the queue stays sorted and schedule picks the earliest deadline |
| RbedOrder.OrderIsKept | kernel/schedule_rbed.c:112-157 | over every run, of two queued tasks the one in front stays in front until one of them is inserted again or removed |
| RbedOrder.EqualDeadlinesInInsertionOrder | kernel/schedule_rbed.c:112-157 | over every run a hard real-time task stays behind those with an equal or earlier deadline that were queued when it was inserted, until one of them is inserted again or removed |
| RbedFair.InsertAtTail | kernel/schedule_rbed.c:112-157 | in a best-effort queue every insertion is at the tail |
| RbedFair.PickFair | kernel/schedule_rbed.c:296-420 | schedule only moves exhausted tasks to the tail; all others move up or stay |
| RbedFair.StepFair | kernel/schedule_rbed.c:296-556 | every operation, schedule_now included, moves a waiting best-effort task up by exactly the number of turns it ends in front of it: by exhaustion, yield, removal or change of properties |
| RbedFair.WaitingIsBounded | kernel/schedule_rbed.c:112-157 | over every best-effort run, a waiting task moves up by exactly the turns that end in front of it, so these are bounded by its position |
| RbedTime.ChargedIs | kernel/schedule_rbed.c:304-311 | schedule charges the task dispatched last exactly the time since its dispatch or release, whichever is later, and nobody else anything |
| RbedTime.TurnEndsIff | kernel/schedule_rbed.c:296-420 | the best-effort task on its turn is found exhausted by a schedule that comes to its end if and only if it has run for its budget or longer; otherwise it runs on |
| RbedTime.DispatchedForItsBudget | kernel/schedule_rbed.c:296-556 | the same over any run from one schedule to the next in which the dispatched task neither yields nor leaves nor gets new properties |
| RbedTime.BudgetBound | kernel/schedule_rbed.c:279-289 | a budget is at most one timeslice for each best-effort task |
| RbedTime.ReachedInTime | kernel/schedule_rbed.c:296-556 | over every best-effort run, a waiting task is picked after at most one budget and one gap between schedules for each task in front of it, and one more gap |
| RbedLoad.NeverOvercommitted | kernel/schedule_rbed.c:232-285 | hard load plus all best-effort shares fit into the spectrum, so neither overload assertion fails |
| RbedLoad.SharesUseTheRest | kernel/schedule_rbed.c:232-258 | what the hard load leaves over is shared out but for less than one unit per best-effort task |
| RbedLoad.BudgetIsNearest | kernel/schedule_rbed.c:279-289 | a budget is the exact part of the round, rounded to the nearest tick |
| RbedLoad.BudgetsFitTheRound | kernel/schedule_rbed.c:279-289 | all best-effort budgets together exceed their part of the round by at most half a tick per task |
| RbedLoad.BudgetsUseTheRound | kernel/schedule_rbed.c:279-289 | all best-effort budgets together fall short of their part of the round by at most half a tick, and the rounding of the share, per task |
| RbedLoad.StepLoad | kernel/schedule_rbed.c:422-522 | every operation, schedule_now included, keeps the load admissible |
| RbedLoad.RunsStayWithinTheSpectrum | kernel/schedule_rbed.c:301-302 | over every run the load stays within the spectrum |
| RbedLoad.HardTasksLeaveATenth | kernel/schedule_rbed.c:431-485 | over every run the fractions of the processor that queued hard real-time tasks may use add up to at most nine tenths, but for a millionth for each of them |
| RbedPeriodic.HurriedAdvancesIff | kernel/schedule_rbed.c:422-429 | schedule_now leaves deadline and release of a task as they are if and only if the deadline was one tick and the release is not in the future |
| RbedPeriodic.HurryStemsIff | kernel/schedule_rbed.c:422-429 | after schedule_now a hard real-time task is still the old one some periods later exactly then |
| RbedPeriodic.StepStems | kernel/schedule_rbed.c:296-556 | no operation changes a hard real-time task except by whole periods, unless it sets its properties or is a schedule_now that matters |
| RbedPeriodic.ReleasesArePeriodic | kernel/schedule_rbed.c:296-556 | over every run in which nothing sets its properties and no schedule_now matters, a hard real-time task keeps its parameters and is released whole periods apart |
| RunQueue.NextInserted | kernel/schedule_rbed.c:145-156 | how next pointers must change when a control block is inserted |
| RunQueue.NextRemoved | kernel/schedule_rbed.c:175-195 | how next pointers must change when a control block is removed |
| RunQueue.Kernel.InQueueIsMembership | kernel/schedule_rbed.c:88-91 | the test on two pointers is exactly membership in the queue |
| RunQueue.Kernel.FindSpot | kernel/schedule_rbed.c:131-143 | the walk ends at the place that the policy gives |
| RunQueue.Kernel.QueueInsert | kernel/schedule_rbed.c:112-157 | the list stays acyclic with both tails at its end, and gains exactly the control block, at its place |
| RunQueue.Kernel.QueueRemove | kernel/schedule_rbed.c:168-196 | the list loses exactly the control block, whose pointer becomes null; a no-op if it is not queued |
| RunQueue.Kernel.CountIn | kernel/schedule_rbed.c:440-470 | the counters include the task before it is queued; soft real-time tasks and zero periods halt the kernel |
| RunQueue.Kernel.MakeRunnable | kernel/schedule_rbed.c:431-485 | queue and counters become what the policy says; halts exactly on overload, a release in the past, soft real-time or a zero period |
| RunQueue.Kernel.SchedulerRemove | kernel/schedule_rbed.c:496-522 | the dispatcher leaves the queue and the counters stay exact sums |
| RunQueue.Kernel.DispatcherProperties | kernel/syscall.c:178-208 | removing, editing and queueing again keeps list and counters exact; halts exactly if an assertion on budget, deadline, period or weight fails or the task cannot be queued |
| RunQueue.Kernel.Requeue | kernel/schedule_rbed.c:405-416 | a task with new times moves to its new place, counters unchanged |
| RunQueue.Kernel.SchedulerYield | kernel/schedule_rbed.c:533-556 | the task is re-sorted with its new release time; a no-op if it is not queued or not released |
| RunQueue.Kernel.ScheduleNow | kernel/schedule_rbed.c:422-429 | times change in place; the task does not move and the counters stay exact |
| RunQueue.Kernel.Awaken | kernel/wakeup.c:99-100 | a woken dispatcher is queued and released at once, as the policy says, or cannot be queued |
| RunQueue.Kernel.ChargeLast | kernel/schedule_rbed.c:304-311 | queue and counters are as the policy charges them; what is charged is in RbedTime.ChargedIs |
| RunQueue.Kernel.FirstReady | kernel/schedule_rbed.c:334-337 | finds the first released task in queue order |
| RunQueue.Kernel.Allocate | kernel/schedule_rbed.c:232-289 | share, budget, deadline and possible re-release of a best-effort task; of the assertions of both functions only the limit on the weight can fail |
| RunQueue.Kernel.Dispatch | kernel/schedule_rbed.c:375-391 | the picked task becomes the last dispatched one; whoever ran last runs on if nothing changed and it is not blocked |
| RunQueue.Kernel.TryOnce | kernel/schedule_rbed.c:313-419 | one pass of the loop does to queue, counters and last dispatched task what the policy says, including when it stops |
| RunQueue.Kernel.Schedule | kernel/schedule_rbed.c:296-420 | the goto loop terminates in the state that the policy says, with budget left for the task dispatched, or halts exactly when the policy stops: on a missed hard deadline or a weight from the limit on |
| Wakeup.PutInByTime | kernel/wakeup.c:68-88 | an alarm behind all that are not later keeps the list sorted |
| Wakeup.DueIsExact | kernel/wakeup.c:92-106 | the released alarms are exactly those that are due |
| Wakeup.PrevInserted | kernel/wakeup.c:68-88 | how previous pointers must change on insertion |
| Wakeup.PrevRemoved | kernel/wakeup.c:38-53 | how previous pointers must change on removal |
| Wakeup.WakeupQueue.constructor | kernel/timer.c:24-26 | the empty queue with no timer armed is valid |
| Wakeup.WakeupQueue.UpdateTimer | kernel/timer.c:30-43 | the hardware is armed for the earlier of the two events, never for zero |
| Wakeup.WakeupQueue.SetQueueHead | kernel/wakeup.c:23-32 | a new head re-arms the wake-up timer with its time, or with infinity |
| Wakeup.WakeupQueue.UpdateSchedTimer | kernel/timer.c:59-63 | the scheduler's event is taken into account and nothing else changes |
| Wakeup.WakeupQueue.TimerCoversAlarms | kernel/timer.c:30-63 | no alarm is earlier than the time the hardware is armed for |
| Wakeup.WakeupQueue.Remove | kernel/wakeup.c:38-53 | the assertions hold exactly if the dispatcher is queued or has no wake-up time; then links, order and timer stay right and exactly this alarm is gone |
| Wakeup.WakeupQueue.Ends | kernel/wakeup.c:41-42 | a dispatcher has a predecessor or is the head exactly if it is queued |
| Wakeup.WakeupQueue.RemoveTwice | kernel/wakeup.c:38-53 | a second removal is a no-op if and only if there was no alarm at first, and fails its assertion otherwise |
| Wakeup.WakeupQueue.Search | kernel/wakeup.c:68-69 | the walk ends behind all alarms that are not later |
| Wakeup.WakeupQueue.Link | kernel/wakeup.c:70-86 | both directions of links stay consistent around the new alarm |
| Wakeup.WakeupQueue.Set | kernel/wakeup.c:59-89 | the alarm moves to its time, behind equal ones; list, links and timer stay right |
| Wakeup.WakeupQueue.Destroy | kernel/cap_delete.c:114-129 | a destroyed dispatcher has no alarm and the queue stays valid without it |
| Wakeup.WakeupQueue.Release | kernel/wakeup.c:95-101 | one due dispatcher leaves the queue; it becomes runnable as the policy says, or the kernel halts exactly if the policy cannot queue it |
| Wakeup.WakeupQueue.ReleaseDue | kernel/wakeup.c:95-101 | the loop wakes exactly the due dispatchers in turn, and halts exactly if the policy cannot queue one of them |
| Wakeup.WakeupQueue.Check | kernel/wakeup.c:92-106 | exactly the due dispatchers leave the queue and the scheduler is what waking them in turn gives, or the kernel halts exactly if one cannot be queued; queue and timer stay right |
| Wakeup.TimerEndsTurn | kernel/schedule_rbed.c:375-391 | a best-effort task that runs undisturbed is found exhausted by a schedule if and only if the timer set at its dispatch has gone off |
| Wakeup.WakeupQueue.Schedule | kernel/schedule_rbed.c:383-387 | whoever is dispatched anew gets the scheduler's timer event at the end of its remaining budget; if nobody is, the event stays |
| Names.MakeNames | kernel/schedule_rbed.c:431-485 | make_runnable queues this dispatcher and forgets none |
| Names.RemoveNames | kernel/schedule_rbed.c:496-522 | scheduler_remove takes out this dispatcher only |
| Names.YieldNames | kernel/schedule_rbed.c:533-556 | scheduler_yield queues and forgets nobody |
| Names.PickNames | kernel/schedule_rbed.c:296-420 | schedule queues and forgets nobody, and picks someone queued |
| Blocking.YieldingKeeps | kernel/syscall.c:645-662 | sys_yield takes a dispatcher out of the run queue if and only if it has no work, has seen all messages, and asks for no wake-up or for one later than now; its wake-up is then in the wake-up queue |
| Blocking.YieldLetsOthersPass | kernel/syscall.c:645-662 | a best-effort dispatcher that yields and stays in the run queue goes to its end |
| Blocking.DeliverKeeps | kernel/dispatch.c:388-400 | a delivery makes its receiver runnable, also when it switches to the receiver at once |
| Blocking.CreateKeeps | kernel/syscall.c:139-149 | a new dispatcher, whatever its frame holds, is remembered if and only if it is started, or has neither work nor an unseen message nor a wake-up to ask for |
| Blocking.RefusedKeeps | kernel/arch/armv7/syscall.c:1171-1206 | a refused send that switches to the receiver keeps whoever runs in the run queue if and only if the receiver was there |
| Blocking.StrayYields | kernel/syscall.c:645-662 | a dispatcher that runs outside the run queue and yields is remembered if and only if it has no work, has seen all messages, and asks for no wake-up, for one later than now, or for one that is in the queue already |
| Blocking.TickKeeps | kernel/wakeup.c:92-106 | after a tick nobody whose requested time has come is still blocked |
| Blocking.DestroyKeeps | kernel/cap_delete.c:114-129 | a destroyed dispatcher is in neither queue |
| Blocking.NextKeeps | kernel/syscall.c:611-684 | every event, faults and refused sends included, keeps the invariant |
| Blocking.WhoIsQueued | kernel/syscall.c:611-684 | for every event, exactly who is in the run queue afterwards |
| Blocking.WhatIsOutstanding | kernel/dispatch.c:388-400 | for every event, exactly what a dispatcher shares with the kernel afterwards, and which alarms it has |
| Blocking.WhoIsLostNext | kernel/arch/arm/exn.c:66-71 | for every event, exactly who is parked or a stray afterwards |
| Blocking.FaultKeeps | kernel/arch/arm/exn.c:66-71 | a dispatcher parked after faults is remembered if and only if it has no work, has seen all messages and its requested wake-up is in the wake-up queue; everybody else is as before |
| Blocking.ParkedWithMessage | kernel/arch/arm/exn.c:66-71 | a run from boot that parks a dispatcher with an unseen message |
| Blocking.StrayWithWakeup | kernel/arch/armv7/syscall.c:1171-1206 | a run from boot in which a refused send lets a blocked dispatcher ask for a wake-up that is in no queue |
| Blocking.MessageStopsTheKernel | kernel/dispatch.c:397-398 | a run from boot after which a hard real-time dispatcher is blocked as it should be, and every later message to it stops the kernel |
| Blocking.WhoIsLost | kernel/arch/arm/exn.c:66-71 | over every run, nobody is parked without a fault or a start left out, and nobody strays without a refused send |
| Blocking.NoWakeupIsLost | kernel/syscall.c:645-662 | over every run, who is neither parked nor strayed and has work or an unseen message is in the run queue, and who is blocked with a requested wake-up is in the wake-up queue at that time |
| Lmp.HeaderRoundTrip | include/barrelfish_kpi/lmp.h:45-53 | flag and length modulo 256 survive the header |
| Lmp.RoundTripIffShort | kernel/dispatch.c:369-386 | whatever follows, a message decodes to itself if and only if it is shorter than 256 words |
| Lmp.LongMessageIsCut | kernel/dispatch.c:369-386 | a longer message is received cut, and its remaining words are taken for messages |
| Lmp.PushWord | kernel/dispatch.c:374-386 | writing a word at the delivered position appends it to the unread words, across the wrap-around |
| Lmp.PopWord | lib/aos/lmp_endpoints.c:405-416 | reading at the consumed position takes the first unread word, across the wrap-around |
| Lmp.Endpoint.CanDeliver | kernel/dispatch.c:281-323 | the answer is ok exactly if there is a target, the positions are in range and one word stays free; the errors are told apart |
| Lmp.Endpoint.WritePayload | kernel/dispatch.c:380-386 | the copy loop appends the payload to the unread words |
| Lmp.Endpoint.DeliverPayload | kernel/dispatch.c:336-389 | up to the point where the receiver is told: the unread words gain exactly the encoded message, or nothing changes; no unread word is overwritten |
| Lmp.Endpoint.Send | kernel/dispatch.c:336-389 | the queue of messages gains this one at its end, or the delivery is refused; the messages can still be told apart if and only if this one is shorter than 256 words |
| Lmp.Endpoint.EmptyIffEqual | lib/aos/lmp_endpoints.c:144-147 | equal positions mean that there is no message, never that the ring is full |
| Lmp.Endpoint.Recv | lib/aos/lmp_endpoints.c:367-432 | the oldest message comes out as it was sent and is consumed as a whole, or stays |
| LmpTransfer.CopiesConserved | kernel/dispatch.c:252-268 | where no mapping refuses (LmpTransfer.LeftMappingIff tells when one does), giving away keeps the number of copies of a capability if and only if none of them is a mapping made with the source slot, so always for everything but mappings |
| LmpTransfer.CopiesCounted | kernel/cap_delete.c:163-198 | giving away, where no mapping refuses, loses one copy for each mapping made with the source slot, if that holds a frame or page table; sending a copy adds one |
| LmpTransfer.LeftMappingIff | kernel/paging_generic.c:271-279 | giving away leaves a mapping that has lost its slot if and only if one made with the source slot is locked, being deleted or shared with other cores |
| LmpTransfer.SourceHasCopy | kernel/dispatch.c:256-264 | after the copy, deleting the source takes the path for a capability with copies |
| LmpTransfer.TransferCap | kernel/dispatch.c:199-273 | answers in the order of the checks; on success the receiver's slot holds a copy and, if it was given away, the source is gone together with its mappings |
| LmpTransfer.TransferMeans | kernel/dispatch.c:199-273 | everything is as before and a copy is in the destination, except that giving away takes out the source slot and the mappings made with it |
| LmpTransfer.DeliverAndWake | kernel/dispatch.c:336-403 | the message is in the ring and its receiver runnable, and hurried if asked for, as the policy says; or the delivery is refused and nothing changes; or the kernel halts, exactly if the message fits and the policy cannot queue the receiver |
| LmpTransfer.HaltsIff | kernel/dispatch.c:415-451 | a send halts the kernel if and only if the message fits, the places of the transfer are fine, and the receiver cannot be made runnable, or the source is being deleted, or it is given away and is locked or the end point that was invoked |
| LmpTransfer.GivenAwayThroughItself | kernel/dispatch.c:415-451 | a database with one unlocked end point: sending it through itself works, giving it away through itself halts the kernel |
| LmpTransfer.LmpDeliver | kernel/dispatch.c:415-451 | message and capability both arrive and the receiver is runnable, or the answer is an error and nothing changes, or the kernel halts exactly as LmpTransfer.HaltsIff says |
| Memmove.CopyWord | kernel/memmove.c:35-40 | a word copy at word boundaries changes exactly the bytes of one word of four or eight |
| Memmove.MoveUp | kernel/memmove.c:20-51 | the upward loops copy every byte as it was before the call, for either width of words |
| Memmove.MoveDown | kernel/memmove.c:52-83 | the downward loops copy every byte as it was before the call, for either width of words |
| Memmove.Move | kernel/memmove.c:15-85 | the destination ends as the source was, for every overlap, alignment and width of words, and all other bytes stay |
| Numerals.DigitsBound | kernel/printf.c:509-557 | a numeral has at most k digits if and only if the number is below the k-th power of the base |
| Numerals.StoreUntilZero | kernel/printf.c:525-555 | the octal and hexadecimal loops store the numeral and stay inside the scratch buffer |
| Numerals.StoreDecimal | kernel/printf.c:535-542 | the decimal loop stores the numeral and stays inside the scratch buffer |
| Numerals.Convert | kernel/printf.c:509-557 | the text of every 64-bit number in every base, with the leading zero of alternate octal, is at the end of the buffer |
| Numerals.ScratchIsTight | kernel/printf.c:64-64 | no number needs more than the 23 bytes, and one needs all of them |
| Numerals.DigitRoundTrip | kernel/stdlib.c:50-66 | ascii_to_int inverts the digit characters |
| Numerals.Strtoul | kernel/stdlib.c:92-111 | the value of the longest digit prefix modulo the size of a long of 32 or 64 bits, and where it ends |
| Numerals.DigitsValue | kernel/stdlib.c:92-111 | the value of a printed numeral is the number |
| Numerals.PrintThenParse | kernel/stdlib.c:92-111 | a printed numeral is read whole, whatever non-digit follows, and is the same number if and only if it fits a long |
| PrintfScan.NumberIsRead | kernel/printf.c:348-385 | a printed number is read back as width or precision, up to the first non-digit |
| PrintfScan.DirectiveIsRead | kernel/printf.c:310-412 | every combination of flags, width, precision and length flags, written as a directive, is read as exactly that combination, whatever stands around it |
| PrintfScan.StarsAreRead | kernel/printf.c:333-362 | width and precision given as arguments are read as if their digits stood in the directive, a negative width as a left-adjusted one, a negative precision as none |
| PrintfMeans.SignedText | kernel/printf.c:415-634 | d and i, with every combination of flags, width, precision and length: padding as asked for, a minus sign exactly for negative numbers and else the sign flag, and the shortest decimal numeral of the absolute value with as many digits as asked for |
| PrintfMeans.UnsignedText | kernel/printf.c:442-634 | u, x, X, p, and o without the alternate form: no sign, 0x or 0X exactly for pointers and for numbers other than zero in the alternate form, digits of the right base and case whose value is the number |
| PrintfMeans.OctalText | kernel/printf.c:442-531 | o in the alternate form starts with a zero, added only if there is none, unless number and precision are zero |
| PrintfMeans.StringText | kernel/printf.c:463-484 | s prints the string, cut to the precision, filled up to the width on the side the flags say |
| PrintfMeans.CharText | kernel/printf.c:410-414 | c prints the one character whose code is the number modulo 256, filled up to the width |
| PrintfMeans.OtherText | kernel/printf.c:426-567 | n prints nothing; what is no conversion prints itself, filled up to the width |
| PrintfMeans.SizesAre | kernel/printf.c:224-239 | the size of the argument for each length flag of the standard |
| PrintfMeans.PiecesInTurn | kernel/printf.c:295-637 | a format of characters and directives prints what its pieces print on their own, in order, each with the arguments that those before it have left |
| Printf.FieldSizeIsExact | kernel/printf.c:585-634 | the size added to the result is the number of characters printed for a field, for every combination of flags, width and precision |
| Snprintf.PutChar | kernel/printf.c:241-252 | a character is stored, or the buffer is full and stays as it is |
| Snprintf.PutField | kernel/printf.c:590-634 | the parts of a field are stored in order as far as they fit |
| Snprintf.Kprintf | kernel/printf.c:257-637 | the buffer holds the output, which the PrintfMeans rows describe, as far as it fits; the result is one more than the output up to and including the first character or field that does not fit, or the length of the output |
| Snprintf.ResultMeans | kernel/printf.c:241-252 | the result is the length of the output if and only if it fits or one character follows the piece that does not; else it exceeds the size by at least two |
| Snprintf.PlainTextResult | kernel/printf.c:302-306 | a text without directives that does not fit has the size and two more as its result |
| Snprintf.Snprintf | kernel/printf.c:152-168 | the exact result; it is below the size if and only if the whole output and its terminator are in the buffer; nothing else is written |
| Snprintf.PrintedIsReadBack | kernel/printf.c:257-637 | every long of 32 or 64 bits printed with %lu or %lx is read back by strtoul |
| Snprintf.FieldIsReadBack | kernel/printf.c:585-634 | zero padding, precision and left adjustment do not change the number that strtoul reads |
| GdbStub.ToHex | kernel/gdb_stub.c:101-106 | fromhex inverts tohex |
| GdbStub.FromHexMeans | kernel/gdb_stub.c:87-99 | digits of both cases have their values, and every other character has none |
| GdbStub.HexChecksum | kernel/gdb_stub.c:228-229 | the two transmitted digits stand for the checksum |
| GdbStub.StartResynchronises | kernel/gdb_stub.c:203-220 | after any noise without a hash, a start character starts a packet |
| GdbStub.FrameIsReceived | kernel/gdb_stub.c:195-241 | a frame after noise is returned as it was sent and acknowledged |
| GdbStub.BadFrameIsRefused | kernel/gdb_stub.c:231-234 | a packet with a wrong checksum is answered with a minus and skipped |
| GdbStub.LongFrameIsDropped | kernel/gdb_stub.c:211-225 | a packet that fills the buffer is dropped without an answer |
| GdbStub.AcceptedWasFramed | kernel/gdb_stub.c:195-241 | on any input, what is returned was framed in it with a matching checksum, and the input behind it is left |
| GdbStub.OnlyAcceptedIsAcknowledged | kernel/gdb_stub.c:231-238 | the replies are minus signs, followed by a plus exactly if a packet is returned |
| GdbStub.ReadBody | kernel/gdb_stub.c:206-221 | reads the body into the buffer, restarting at a start character, without leaving the buffer |
| GdbStub.GetPacket | kernel/gdb_stub.c:195-241 | payload, terminator, replies and remaining input are those of the packet protocol |
| GdbStub.SendFrame | kernel/gdb_stub.c:251-262 | the characters sent are the frame of the payload |
| GdbStub.PutPacket | kernel/gdb_stub.c:248-264 | the frame is sent once more than there are answers other than a plus before the first plus |
| GdbStub.RetransmissionDelivers | kernel/gdb_stub.c:195-264 | after any number of damaged transmissions the first intact one delivers the packet, with one minus for each damaged one |

## Left out

- Retype.CapSpace.CapsRetype: of retyping a dispatcher to an end point only the checks are covered (`Retype.EndPointIff`); not covered is the panic for an L2 CNode outside a CNode; clearing the memory of new objects is not modelled.
- Retype.RetypeKeepsForest: is about capabilities to objects with extent; mappings and end points take no part in the forest.
- RevokeWalk.Revoker.MarkRevoke: covers a target on this core; revocation without a local target (`revoked == NULL`) is not modelled, nor what becomes of a database in which a mapping has lost its slot. Of the database it assumes that a mapping stands behind what it maps, that copies of a mapping are alike, and that a slot marked for deletion has no copies (`RevokeWalk.DbSane`).
- RevokeWalk.Revoker.CapsTryDelete: the update of an ancestor's remote-descendants bit when a foreign copy with remote relations is deleted, and the RAM capability sent to the monitor, with the halt if the monitor cannot be made runnable, are not modelled.
- LmpTransfer.LmpDeliver: the walk through the CNodes to the two slots is a parameter, and deleting the source does not update the remote bits of ancestors; the database is not described once a mapping has lost its slot.
- RunQueue.Kernel.Schedule: requires that every queued task has a positive budget, without which the loop need not end; arithmetic is unbounded. The exact conditions for the loop to end, and for it to stop, are stated for queues of one kind of task; for mixed ones only a sufficient condition is (`RbedOutlook.InSightEnds`).
- RbedTime.ReachedInTime: is about runs of best-effort tasks; no bound on waiting is stated while hard real-time tasks are queued, or for yields of queued tasks other than the one dispatched last, which the system does not make.
- Forest.RangeFreeIff: a region with an end point on one of its edges is not covered, since the answer then depends on the shape of the tree (`MdbRange.EdgeEntryDependsOnShape`), nor an empty region.
- Snprintf.Kprintf: the assignment through the pointer of %n, floating point, and integer overflow of width and precision are not modelled; missing or mismatched arguments, undefined in C, are zero. The length hh of the standard is read like h, as in the source.
- Blocking.NoWakeupIsLost: the dispatcher's own thread scheduler is any change to the fields it shares; the fairness of the scheduler is a separate result; a run is followed up to the first dispatch with a zero budget in the queue, from which `schedule` need not come back.
- Update in place inside the tree of the mapping database: its nodes are values here, so rotations are modelled as functions on trees and not as pointer assignments.
- The sweep phase of deletion (`caps_delete_step`, `caps_clear_step`, the container cases of `caps_delete_last`) and `caps_delete_foreigns`.
- Mint, and the creation of ID capabilities.
- The pointer `lastdisp` to a dispatcher that has been destroyed: destruction leaves it, and the next `schedule` reads through it; here it is a name, and charging a name that is not queued changes nothing.
- Soft real-time tasks, which the source does not implement, `scheduler_reset_time`, the round-robin scheduler and the conversion between schedulers.
- RbedRuns.HardRunsAreEdf: earliest deadline first is stated for runs without `schedule_now`, which edits a deadline in place.
- Paging, caches, context switches, floating-point state, booting, cross-core negotiation and other system calls.
- 32-bit and 64-bit wrap-around of addresses, sizes, times, weights and counters, except where stated above.
