# Verified models of the runtime

This project models the parts of the embedded Python runtime whose correctness rests on more than one
function, and proves what they promise. The runtime is a set of host modules in `src/` around a vendored
virtual machine in `patches/rustpython-vm/`. Python objects are abstract here: identities, classes of equal
keys, bytes, trees. Everything is proved for all inputs, all runs or all interleavings.

`dafny verify dfyconfig.toml` checks all of it. Each module stands for one component.

| module | component | main results |
|---|---|---|
| ProbeSequence | probing of the dict's index table | each slot is reached, exactly when: CoversExactly |
| OrderedMap | the dict's specification, an insertion-ordered map | RunFollowsReference |
| MinimalHash | probing with the hash i64::MIN | MinimalHashEnds, StuckByInserts |
| OrderedDict | the ordered hash dict | Dict.Lookup, Dict.Insert, Replay, HintAcrossRun |
| GcLists | generation lists under interleaving | ListsAgreeWithTags, ScanSeesOneState, NoDeadlock |
| GcCounts | generation lists with counters | GcState.Freeze, GcState.PromoteSurvivors |
| CycleCollector | the cycle collector's graph algorithm | Scan, UnreachableExactly, DeadInvisibleExactly |
| DataStack | the chunked frame allocator | Stack.Pop, RegionsDisjoint, WholeRun |
| ExceptionGroups | split and subgroup | SplitPartitions, SubgroupIsSplit |
| ExceptionClasses | the class hierarchy of exceptions | AdmissibleAboveGroups |
| ExceptStar | except* matching | HandleConserves, MatchFailsExactly |
| ExceptClauses | which except* clause handles which leaf | ClassAloneDecides, FirstClauseWins |
| ExceptReraise | re-raising after except* | ReraiseInOrder, ReraiseFailsExactly |
| StructFormat, StructPack | struct format parser and packer | SizeExactly, UnreachableExactly, PackFormat, FormatRoundTrip |
| SqlTransactions | the sqlite3 wrapper | BatchIsAllOrNothing, WrittenThenFinished, WithConnection |
| JsonScan | the integer preflight of JSON bodies | ScanIsExact |
| ValueConversion | bounded values between Python and JSON | PyToSafeJson, RoundTrip |
| JsonText | the JSON that the host writes | EncodedIsText, EncodedPasses |
| YamlPolicy | the two passes over YAML | PolicyExactly, ValueExactly, LoadAgrees |
| BytesReplace | bytes.replace | Replace, ReplaceMeans |
| CapturedOutput | captured output and the response bound | Captured.Append, Evaluate |
| CodecRegistry | the codec registry | CacheInvisible, OverlappedLookup |

Code that works by changing state is a class or a method with loops here, proved against a pure function;
the properties are then proved of that function, and its meaning is stated without it: by fields, positions,
bytes or a reference. Where the source recurses over trees, so does the model.

Wrappers holds the small types and functions that several modules share.

Some promises do not hold everywhere. They are kept as the code has them, with the exact condition under which
they hold.

- The probe sequence of the hash i64::MIN misses slots in tables of 16 slots or more (MinHashMisses3,
  CoversExactly). With the load bound of two thirds probing still ends on every table of 16 slots; on every
  larger size there is a table on which it does not (ProbesForever, MinimalHashEnds), and inserting keys of
  other hashes leads to one (StuckByInserts). A user's `__hash__` can return that hash
  (`patches/rustpython-vm/src/types/slot.rs:486-497`). The dict is modelled for all other hashes.
- A finalizer that moves the last inside reference to an object outside is not noticed (ResurrectionMissed).
  Nothing declared dead is visible exactly when every object with an outside reference is reachable from one
  that gained more of them than it lost inside references (DeadInvisibleExactly).
- PEP 654 wraps a naked BaseException for an except* clause; the code raises TypeError, because the wrapper is
  always an ExceptionGroup. The same holds for combining exceptions at the end of the blocks
  (NakedBaseExceptionFails, MatchFailsExactly, CombiningFails, ReraiseFailsExactly).
- A clause takes a group whose class it accepts with all that is in it, so leaves need not go to a clause that
  accepts them (MixedGroupTakenWhole); their own class alone decides exactly when no group whose class the
  clause accepts holds a leaf that it refuses (ClassAloneDecides). After the first clause only groups made by the interpreter are left (FirstClauseWins).
- A batch of writes leaves its savepoint behind exactly when releasing it or undoing the rows fails
  (SavepointLeftBehind, BatchIsAllOrNothing).
- The type character `u` outside the native mode reaches a branch that the source marks as unreachable
  (UnreachableReached, UnreachableExactly). The model returns the error Unreachable there.
- bytes.replace guards the length of the result for every pattern but the empty one; for that one a result
  longer than isize::MAX panics (InterleaveTooLong), exactly when len + min(limit, len + 1) * len(to) exceeds it
  (Replace).
- A lookup of a codec that overlaps an unregistration can leave a stale cache entry (StaleAfterUnregister);
  after the second half of a lookup the cache agrees with the search path exactly when an entry was there or a
  scan would still find the codec (LookupStore).

## Model

| member | source | states |
|---|---|---|
| ProbeSequence.GenIndexes.constructor | patches/rustpython-vm/src/dict_inner.rs:150-157 | The probe starts at the hash, its perturbation at the absolute value. |
| ProbeSequence.GenIndexes.Next | patches/rustpython-vm/src/dict_inner.rs:159-167 | Returns the index modulo the table size and advances the state by one step of the pure sequence. |
| ProbeSequence.WrapIsInvisible | patches/rustpython-vm/src/dict_inner.rs:159-167 | 64-bit wrapping cannot be seen modulo a power of two of at most 64 bits, so the multiplication may overflow freely. |
| ProbeSequence.GeoAtPow2 | patches/rustpython-vm/src/dict_inner.rs:163-166 | 1 + 5 + ... + 5^(2^k - 1) is an odd multiple of 2^k, which is why the period is full. |
| ProbeSequence.FullPeriod | patches/rustpython-vm/src/dict_inner.rs:163-166 | i := 5i + 1 meets every residue modulo 2^k within 2^k steps, from any start. |
| ProbeSequence.PerturbVanishes | patches/rustpython-vm/src/dict_inner.rs:159-167 | For every hash but the minimal one the perturbation is zero from step 13 on. |
| ProbeSequence.Coverage | patches/rustpython-vm/src/dict_inner.rs:143-168 | For every hash but the minimal one and every table of 2^k slots, each slot is probed within 13 + 2^k steps. |
| ProbeSequence.MinHashMisses3 | patches/rustpython-vm/src/dict_inner.rs:150-157 | For the hash i64::MIN, whose wrapped absolute value is negative, slot 3 is never probed in a table of 16 slots or more. |
| ProbeSequence.MinHashSmall | patches/rustpython-vm/src/dict_inner.rs:150-157 | Up to eight slots the minimal hash still reaches every slot. |
| ProbeSequence.CoversExactly | patches/rustpython-vm/src/dict_inner.rs:143-168 | The probe sequence reaches every slot if and only if the hash is not i64::MIN or the table has at most eight slots. |
| MinimalHash.SixteenMeetsFree | patches/rustpython-vm/src/dict_inner.rs:159-167 | In a table of 16 slots loaded to at most two thirds some probe of the hash i64::MIN meets a FREE slot. |
| MinimalHash.ProbesForever | patches/rustpython-vm/src/dict_inner.rs:681-719 | For every larger table size there is a table of tombstones within the load bound, meeting the whole invariant of an emptied dict, on which no probe of that hash ever meets a FREE slot. |
| MinimalHash.UsedAtMostFilled | patches/rustpython-vm/src/dict_inner.rs:205-233 | No more items than filled slots, in every table whose entries point at slots of their own. |
| MinimalHash.StuckByInserts | patches/rustpython-vm/src/dict_inner.rs:200-325 | Insertions alone reach such a table: for every k from 5 to 58 a run of inserts ends in a dict of 2^k slots on which no probe of that hash meets a FREE slot. |
| MinimalHash.MinimalHashEnds | patches/rustpython-vm/src/dict_inner.rs:149-251 | On every table of 2^k slots within the load bound probing with that hash meets a FREE slot if and only if k is at most 4. |
| OrderedMap.PutThenGet | patches/rustpython-vm/src/dict_inner.rs:284-325 | What is put under a key is what is found under it. |
| OrderedMap.OrderLaws | patches/rustpython-vm/src/dict_inner.rs:284-325 | Updating a key keeps its position; deleting and inserting it again moves it to the end. |
| OrderedMap.OperationLaws | patches/rustpython-vm/src/dict_inner.rs:284-547 | What each operation does to the items by position: an update in place keeping the stored key, an append, a removal, the last item off, or nothing left. |
| OrderedMap.ListsPopBack | patches/rustpython-vm/src/dict_inner.rs:786-801 | Popping the back removes the entry that became present last. |
| OrderedMap.RunFollowsReference | patches/rustpython-vm/src/dict_inner.rs:284-325 | Over every run of operations the ordered sequence lists an unordered reference, a map with birth stamps, by the time the keys last became present. |
| OrderedMap.ReferenceRunExists | patches/rustpython-vm/src/dict_inner.rs:284-325 | The unordered reference has a run for every list of operations, so the statement above is never vacuous. |
| OrderedDict.ProbeMeetsFree | patches/rustpython-vm/src/dict_inner.rs:159-167 | With fewer filled slots than slots, every probe sequence meets a FREE slot, so probing ends. |
| OrderedDict.FreeMeansAbsent | patches/rustpython-vm/src/dict_inner.rs:681-719 | A FREE slot on the probe path of a key, with the key not met before, proves it absent, across tombstones and rebuilds. |
| OrderedDict.PushOk | patches/rustpython-vm/src/dict_inner.rs:205-233 | Storing an entry in a FREE or tombstone slot of its own path keeps slots and entries pointing at each other and everything reachable. |
| OrderedDict.RemoveOk | patches/rustpython-vm/src/dict_inner.rs:738-772 | Turning the slot of a removed entry into a tombstone keeps every other entry reachable. |
| OrderedDict.UpdateIsPut | patches/rustpython-vm/src/dict_inner.rs:284-325 | Overwriting the value of a live entry is an in-place update of the ordered map. |
| OrderedDict.RemoveIsDrop | patches/rustpython-vm/src/dict_inner.rs:738-772 | Clearing a live entry is removing its key from the ordered map, with the order of the others kept. |
| OrderedDict.FirstFree | patches/rustpython-vm/src/dict_inner.rs:186-198 | The inner loop of the rebuild ends at the first FREE slot of the probe path. |
| OrderedDict.PowerOfTwoAtLeast | patches/rustpython-vm/src/dict_inner.rs:171-180 | The new size is a power of two of at least the request. |
| OrderedDict.Dict.constructor | patches/rustpython-vm/src/dict_inner.rs:112-124 | A new dict is consistent and empty, at version 0. |
| OrderedDict.Dict.Resize | patches/rustpython-vm/src/dict_inner.rs:171-203 | The rebuild keeps every entry at its position, so the contents are the same, and restores the invariant, also when the table shrinks. |
| OrderedDict.Dict.UncheckedPush | patches/rustpython-vm/src/dict_inner.rs:205-233 | Appends an item at the end and keeps the invariant, resizing when more than two thirds of the slots are filled. |
| OrderedDict.Dict.Lookup | patches/rustpython-vm/src/dict_inner.rs:662-730 | Ends, and finds the entry of an equal key if there is one; otherwise the key is absent and the slot returned is one where it may be stored. |
| OrderedDict.Dict.Insert | patches/rustpython-vm/src/dict_inner.rs:284-325 | The contents become Put of the old contents: an update in place with the stored key kept, or an item at the end; the version grows by one. |
| OrderedDict.Dict.GetValue | patches/rustpython-vm/src/dict_inner.rs:335-405 | Returns the value the ordered map has for the key. |
| OrderedDict.Dict.Contains | patches/rustpython-vm/src/dict_inner.rs:327-331 | True exactly for the keys of the ordered map. |
| OrderedDict.Dict.GetChain | patches/rustpython-vm/src/dict_inner.rs:407-419 | Looks in this dict and then in the other. |
| OrderedDict.Dict.HintForKey | patches/rustpython-vm/src/dict_inner.rs:344-355 | A hint is the position of a live entry of the key and fits in 16 bits; there is none only if the key is absent or its position does not fit. |
| OrderedDict.Dict.GetHint | patches/rustpython-vm/src/dict_inner.rs:360-382 | With any hint at all, stale or wrong, the answer is None or exactly the value of the key; with the position of the key it is the value. |
| OrderedDict.Dict.PopInnerIf | patches/rustpython-vm/src/dict_inner.rs:738-771 | Removes the entry that a lookup found exactly when the predicate says so, and nothing else. |
| OrderedDict.Dict.RemoveIf | patches/rustpython-vm/src/dict_inner.rs:470-489 | Removes the key exactly when it is present and the predicate agrees; an error changes nothing. |
| OrderedDict.Dict.Pop | patches/rustpython-vm/src/dict_inner.rs:774-784 | Returns the value of the key and removes it. |
| OrderedDict.Dict.Delete | patches/rustpython-vm/src/dict_inner.rs:435-459 | Removes the key and tells whether it was present. |
| OrderedDict.Dict.DeleteOrInsert | patches/rustpython-vm/src/dict_inner.rs:491-512 | Removes the key if present and appends it otherwise. |
| OrderedDict.Dict.SetDefault | patches/rustpython-vm/src/dict_inner.rs:514-548 | Returns the value present, or appends the default and returns it. |
| OrderedDict.Dict.TrimEnd | patches/rustpython-vm/src/dict_inner.rs:786-801 | Popping cleared entries off the end changes no item. |
| OrderedDict.Dict.PopBack | patches/rustpython-vm/src/dict_inner.rs:786-801 | Removes and returns the last item, None exactly when there is none. |
| OrderedDict.Dict.Clear | patches/rustpython-vm/src/dict_inner.rs:421-432 | Empties the dict and keeps the invariant. |
| OrderedDict.Dict.Perform | patches/rustpython-vm/src/dict_inner.rs:284-547 | Every modelled operation keeps the invariant, does to the contents what the ordered map does, and either bumps the version or leaves every live entry where it was. |
| OrderedDict.Dict.Len | patches/rustpython-vm/src/dict_inner.rs:586-588 | The number of items. |
| OrderedDict.Dict.NextEntry | patches/rustpython-vm/src/dict_inner.rs:594-603 | The first live entry at or after a position, and the position behind it. |
| OrderedDict.WalkIsItems | patches/rustpython-vm/src/dict_inner.rs:594-603 | Repeated next_entry delivers exactly the items, in order, and ends. |
| OrderedDict.Replay | patches/rustpython-vm/src/dict_inner.rs:284-547 | After every run of operations the dict holds what the ordered map holds after the same run. |
| OrderedDict.HintAcrossRun | patches/rustpython-vm/src/dict_inner.rs:266-382 | After any run of operations that left the version unchanged, the hint taken before it gives exactly the value of the key. |
| GcLists.StepKeepsInv | patches/rustpython-vm/src/gc_state.rs:268-325 | Each atomic step of tracking, untracking, promotion, freezing, unfreezing and the collector's locking (read tag, take lock, re-check, move, retag, release) keeps the invariant. |
| GcLists.ExecutionInv | patches/rustpython-vm/src/gc_state.rs:268-325 | The invariant holds in every state of every interleaving of any number of threads. |
| GcLists.ListsAgreeWithTags | patches/rustpython-vm/src/gc_state.rs:284-325 | In every interleaving a completely tracked object is on a list whose lock is free if and only if its tag names that list; no object is ever on two lists; every member of such a list has its tracked flag set; and the failed-removal branches are never reached. |
| GcLists.MoveEnds | patches/rustpython-vm/src/gc_state.rs:268-325 | The step that ends a move leaves the object on the list that its operation promises and no other, with tag and flag: list 0 for tracking, the next list for a survivor, list 3 for freezing, list 2 for unfreezing, none for untracking. |
| GcLists.DrainsEnd | patches/rustpython-vm/src/gc_state.rs:792-826 | Freezing leaves a list, and ends behind list 2, only when that list is empty; unfreezing ends only when the permanent one is. |
| GcLists.PromotionDecides | patches/rustpython-vm/src/gc_state.rs:745-790 | A survivor that is still where its tag was read is moved; any other is left alone. |
| GcLists.UntrackingDecides | patches/rustpython-vm/src/gc_state.rs:284-325 | An object that is still where its tag was read is removed; otherwise the tag is read again. |
| GcLists.QuietMember | patches/rustpython-vm/src/gc_state.rs:268-325 | A member of a list whose lock is free, or held by a thread that is moving nothing, has its tracked flag set and the tag of the list. |
| GcLists.OthersKeepList | patches/rustpython-vm/src/gc_state.rs:268-325 | A step changes only lists whose lock its thread holds. |
| GcLists.ScanSeesOneState | patches/rustpython-vm/src/gc_state.rs:410-541 | From any state to any later one of a scan by the collector, the lists it gathers from are the same, and each member has its flag set and the tag of its list throughout, whatever other threads do. |
| GcLists.LocksAscend | patches/rustpython-vm/src/gc_state.rs:745-826 | Whoever waits for a lock, the collector included, holds only smaller ones. |
| GcLists.NoDeadlock | patches/rustpython-vm/src/gc_state.rs:745-826 | In every interleaving, while an operation is unfinished some thread can take a step. |
| GcCounts.GcState.Track | patches/rustpython-vm/src/gc_state.rs:268-276 | The object goes on the youngest list, and counters equal list lengths. |
| GcCounts.GcState.Untrack | patches/rustpython-vm/src/gc_state.rs:284-325 | A tracked object leaves exactly the list its tag names; the counters follow. |
| GcCounts.GcState.PromoteSurvivors | patches/rustpython-vm/src/gc_state.rs:745-783 | Exactly the survivors on younger lists move to the next generation; a collection of generation 2 promotes nothing. |
| GcCounts.GcState.Drain | patches/rustpython-vm/src/gc_state.rs:792-826 | One list is emptied onto another, with the number moved counted. |
| GcCounts.GcState.Freeze | patches/rustpython-vm/src/gc_state.rs:792-807 | Everything tracked becomes permanent, with the counters exact. |
| GcCounts.GcState.Unfreeze | patches/rustpython-vm/src/gc_state.rs:811-826 | Everything permanent returns to generation 2, with the counters exact. |
| CycleCollector.Gather | patches/rustpython-vm/src/gc_state.rs:410-423 | Gathers exactly the objects of the lists up to the generation that are still referenced. |
| CycleCollector.SubtractInternal | patches/rustpython-vm/src/gc_state.rs:452-482 | In whatever order the hash set is visited, each count loses exactly its references from gathered objects. |
| CycleCollector.Close | patches/rustpython-vm/src/gc_state.rs:484-512 | Both worklists end, and the set found is exactly what is reachable from the seeds along the references of objects whose tracked flag is set, whatever the order. |
| CycleCollector.FindUnreachable | patches/rustpython-vm/src/gc_state.rs:452-515 | The unreachable objects are precisely the gathered ones not reachable from one with a surplus count, along the references that marking follows. |
| CycleCollector.GatheredIsTracked | patches/rustpython-vm/src/gc_state.rs:410-512 | Whatever is gathered while the collector holds its locks has its tracked flag set at every moment of the scan. |
| CycleCollector.Scan | patches/rustpython-vm/src/gc_state.rs:410-515 | In every interleaving, with the lists and flags read at any moments of the scan, what is gathered are the referenced members of the locked lists and the unreachable ones are precisely those not reachable along any references from one with a surplus count. |
| CycleCollector.FlagsMatterExactly | patches/rustpython-vm/src/gc_state.rs:495-515 | For any flags at all: marking leaves exactly what is unreachable along all references if and only if no reached object without the flag refers to something left. During a scan there is no such object (Scan). |
| CycleCollector.UnreachableIsIsolated | patches/rustpython-vm/src/gc_state.rs:484-515 | If counts account for all gathered references, every reference to an unreachable object comes from an unreachable object: clearing breaks nothing outside. |
| CycleCollector.IsolatedIsUnreachable | patches/rustpython-vm/src/gc_state.rs:484-515 | Every set of gathered objects referenced only from itself is found: no garbage cycle is missed. |
| CycleCollector.UnreachableExactly | patches/rustpython-vm/src/gc_state.rs:452-515 | An object is found unreachable if and only if it belongs to some isolated set of gathered objects. |
| CycleCollector.Partition | patches/rustpython-vm/src/gc_state.rs:619-649 | Resurrected and dead partition the unreachable objects, no edge leads from a resurrected one to a dead one, and the worklist ends. |
| CycleCollector.DirectlyNoticed | patches/rustpython-vm/src/gc_state.rs:623-629 | A finalizer that makes an object visible is noticed by the count exactly when the object gained more outside references than it lost inside ones. |
| CycleCollector.DeadInvisibleExactly | patches/rustpython-vm/src/gc_state.rs:619-649 | Nothing declared dead is visible from outside, directly or through others, if and only if every object with an outside reference is reachable from one that gained more of them than it lost inside references. |
| CycleCollector.DeadIsInvisible | patches/rustpython-vm/src/gc_state.rs:619-649 | In particular nothing dead is visible if no object lost references from the unreachable ones. |
| CycleCollector.ResurrectionMissed | patches/rustpython-vm/src/gc_state.rs:623-629 | Without that condition a visible object can be declared dead: a concrete graph of two objects. |
| DataStack.Stack.constructor | patches/rustpython-vm/src/datastack.rs:62-71 | The stack starts with one chunk of the minimum size and no region. |
| DataStack.Stack.Push | patches/rustpython-vm/src/datastack.rs:85-96 | Appends a 16-aligned region inside the data area of an allocated chunk; a new chunk is allocated only without room, fits, and is the minimum or less than twice the need; the failing sizes are exact. |
| DataStack.Stack.PushSlow | patches/rustpython-vm/src/datastack.rs:101-123 | Links a fresh chunk on top of the chain and places the region at its start. |
| DataStack.ChunkSize | patches/rustpython-vm/src/datastack.rs:101-116 | Doubling the minimum until it suffices ends, and fails exactly where doubling would overflow. |
| DataStack.Stack.Pop | patches/rustpython-vm/src/datastack.rs:132-141 | Removes the last region and frees exactly the chunks above its own: never the root, never one that holds a live region. |
| DataStack.Stack.PopSlow | patches/rustpython-vm/src/datastack.rs:155-168 | The loop ends at the chunk that holds the base. |
| DataStack.InChunkTest | patches/rustpython-vm/src/datastack.rs:147-150 | The test that includes the limit holds for the last region exactly in the current chunk that holds it. |
| DataStack.AreasApart | patches/rustpython-vm/src/datastack.rs:37-48 | Data areas of different chunks do not touch, even with their limits included. |
| DataStack.RegionsDisjoint | patches/rustpython-vm/src/datastack.rs:85-169 | Live regions are pairwise disjoint. |
| DataStack.Stack.LinkChunk | patches/rustpython-vm/src/datastack.rs:101-123 | The new chunk becomes the current one, with the region at its start. |
| DataStack.Stack.Drop | patches/rustpython-vm/src/datastack.rs:205-212 | Frees every chunk of the chain, each exactly once. |
| DataStack.WholeRun | patches/rustpython-vm/src/datastack.rs:62-213 | Construction, any last-in first-out run of pushes and pops, and Drop, whatever was left on the stack, return the live blocks of the system to what they were. |
| ExceptionGroups.Split | patches/rustpython-vm/src/exception_group.rs:128-184 | The loop computes the pure split. |
| ExceptionGroups.SplitSelects | patches/rustpython-vm/src/exception_group.rs:128-184 | Each part holds, in order and under the same enclosing groups, exactly the leaves for which the condition holds or does not hold, on the leaf or on a group around it. |
| ExceptionGroups.SelectedExactly | patches/rustpython-vm/src/exception_group.rs:128-184 | A leaf is selected if and only if the condition holds of the leaf itself or of some group around it. |
| ExceptionGroups.SplitObjects | patches/rustpython-vm/src/exception_group.rs:128-184 | What the parts are as objects: the very object where the condition holds, and otherwise a new group with the same message, of the class its members allow, of what its members have in that part. |
| ExceptionGroups.SelectedPartitions | patches/rustpython-vm/src/exception_group.rs:128-184 | The selected and the unselected leaves together are all leaves, each once. |
| ExceptionGroups.SplitWellFormed | patches/rustpython-vm/src/exception_group.rs:128-184 | Neither part contains an empty group, and a part that is an Exception holds only Exceptions. |
| ExceptionGroups.SplitPartitions | patches/rustpython-vm/src/exception_group.rs:128-184 | For every group and every condition: no leaf lost or duplicated, order kept, parts well-formed. |
| ExceptionGroups.Subgroup | patches/rustpython-vm/src/exception_group.rs:81-125 | The loop computes the pure subgroup, with object identity. |
| ExceptionGroups.SubgroupIsSplit | patches/rustpython-vm/src/exception_group.rs:81-184 | Subgroup and the first part of split are the same tree, though subgroup keeps unmodified groups and split derives anew. |
| ExceptionGroups.SubgroupObjects | patches/rustpython-vm/src/exception_group.rs:81-125 | The same for subgroup, which makes a new group only where a member was left out. |
| ExceptionGroups.SameIffAllSelected | patches/rustpython-vm/src/exception_group.rs:81-125 | Subgroup returns the very object it was given exactly when every leaf is selected. |
| ExceptStar.SplitConserves | patches/rustpython-vm/src/exception_group.rs:128-184 | Splitting conserves the multiset of leaves. |
| ExceptStar.MatchConserves | patches/rustpython-vm/src/exceptions.rs:2756-2819 | A clause divides the leaves of the exception between what it handles and what is left. |
| ExceptStar.MatchFailsExactly | patches/rustpython-vm/src/exceptions.rs:2756-2819 | A clause that is given an exception fails exactly on an inadmissible type, on a naked exception it accepts that is no Exception, and when an empty tuple meets a group. |
| ExceptStar.NakedBaseExceptionFails | patches/rustpython-vm/src/exceptions.rs:2774-2781 | A naked BaseException under a clause that names it is a TypeError, because the wrapper is always an ExceptionGroup. |
| ExceptStar.Handle | patches/rustpython-vm/src/exceptions.rs:2756-2819 | The clauses are applied in turn to what is left. |
| ExceptStar.HandleConserves | patches/rustpython-vm/src/exceptions.rs:2756-2819 | Over any list of clauses every leaf is handled once or left, none lost, none twice. |
| ExceptionClasses.AboveTop | patches/rustpython-vm/src/exception_group.rs:18-35 | Which classes the classes at the top of the hierarchy derive from. |
| ExceptionClasses.AdmissibleAboveGroups | patches/rustpython-vm/src/exceptions.rs:2722-2752 | Of the types a clause admits, ExceptionGroup derives from exactly Exception and BaseException, and BaseExceptionGroup from exactly BaseException. |
| ExceptClauses.MatchSelects | patches/rustpython-vm/src/exceptions.rs:2756-2819 | A clause takes exactly the leaves whose own class it accepts or that are in a group whose class it accepts, and leaves exactly the others, in order. |
| ExceptClauses.MatchKeepsGroups | patches/rustpython-vm/src/exceptions.rs:2771-2818 | An accepted group is the match itself, an accepted naked exception is put in an ExceptionGroup alone, and of any other group both parts keep their leaves under their groups. |
| ExceptClauses.NamesAccept | patches/rustpython-vm/src/exceptions.rs:2727-2772 | A clause accepts the exceptions of its classes and of those that derive from them, and is admissible if and only if all its classes are. |
| ExceptClauses.MixedGroupTakenWhole | patches/rustpython-vm/src/exceptions.rs:2772-2791 | In a concrete class hierarchy, a group whose class also derives from another exception is taken whole by a clause for that exception, with a leaf that the clause refuses. |
| ExceptClauses.ClassAloneDecides | patches/rustpython-vm/src/exceptions.rs:2756-2819 | A clause divides the leaves by their own class alone if and only if no group whose class it accepts holds a leaf that it refuses. |
| ExceptClauses.AdmissibleIsBroad | patches/rustpython-vm/src/exceptions.rs:2722-2752 | A clause of admissible classes that accepts a group class of the interpreter accepts every leaf such a group can hold. |
| ExceptClauses.FirstClauseWins | patches/rustpython-vm/src/exceptions.rs:2756-2819 | Whatever classes the clauses name: the first clause takes the leaves and groups whose class it accepts; every remaining leaf goes, in order, to the first later clause that accepts its class. |
| ExceptReraise.CollectLeafIds | patches/rustpython-vm/src/exceptions.rs:2911-2934 | Adds exactly the identities of the leaves. |
| ExceptReraise.SplitByLeafIds | patches/rustpython-vm/src/exceptions.rs:2960-2996 | Is the first part of splitting by leaf identity. |
| ExceptReraise.ExceptionGroupProjection | patches/rustpython-vm/src/exceptions.rs:2939-2956 | Is the projection on the leaves of the kept exceptions. |
| ExceptReraise.ProjectionIsPruning | patches/rustpython-vm/src/exceptions.rs:2939-2996 | The projection is the original with unkept leaves and then emptied groups deleted: the kept leaves in order under the same groups. |
| ExceptReraise.ProjectionIds | patches/rustpython-vm/src/exceptions.rs:2939-2996 | Its leaf identities are those of the original that are kept. |
| ExceptReraise.PrepReraiseStar | patches/rustpython-vm/src/exceptions.rs:2823-2888 | The loops compute the pure re-raise, whose meaning is ReraiseInOrder. |
| ExceptReraise.ReraiseConserves | patches/rustpython-vm/src/exceptions.rs:2823-2888 | When re-raising succeeds, the leaf identities of the result are the union of those of all exceptions the clauses left. |
| ExceptReraise.NakedReraise | patches/rustpython-vm/src/exceptions.rs:2837-2843 | For a naked original, with at most one exception left, re-raising succeeds and conserves it. |
| ExceptReraise.ProjectionPlain | patches/rustpython-vm/src/exceptions.rs:2939-2996 | A projection is an Exception exactly when every leaf it keeps is one. |
| ExceptReraise.ReraiseFailsExactly | patches/rustpython-vm/src/exceptions.rs:2823-2888 | Re-raising fails exactly when at least two exceptions must be combined and one of them is no Exception. |
| ExceptReraise.CombiningFails | patches/rustpython-vm/src/exceptions.rs:2874-2887 | A concrete case: one clause raises an exception that is no Exception and another clause one that is. |
| ExceptReraise.ReraiseInOrder | patches/rustpython-vm/src/exceptions.rs:2823-2888 | For every group and every list of exceptions left: the result is made of the newly raised ones in order and then the original cut down to the leaves raised again, each once, in their order and under their groups; one of these alone is returned as it is, several become the members of an ExceptionGroup or fail. |
| ExceptReraise.NakedFirst | patches/rustpython-vm/src/exceptions.rs:2837-2843 | For a naked original the result is the first exception left, or none. |
| StructFormat.TypeInfo | patches/rustpython-vm/src/buffer.rs:104-201 | Every type has a size and an alignment from the small sets that the layout arithmetic relies on. |
| StructFormat.Marks | patches/rustpython-vm/src/buffer.rs:30-46 | Each of the five marks selects its mode; without one the mode is native and nothing is consumed. |
| StructFormat.TypeSizes | patches/rustpython-vm/src/buffer.rs:104-201 | Which characters are types and the size of each, `l` and `L` by the mode. |
| StructFormat.TypeAlignments | patches/rustpython-vm/src/buffer.rs:104-201 | Only the native mode aligns, and it aligns every number to its size. |
| StructFormat.TypeKinds | patches/rustpython-vm/src/buffer.rs:104-201 | Which types are signed, unsigned, floating, truth values, characters, strings and pad bytes. |
| StructFormat.CodeTakes | patches/rustpython-vm/src/buffer.rs:212-218 | A code takes its padding and its items, and an argument for each item, one for a string, none for pad bytes. |
| StructFormat.MarkDecidesSize | patches/rustpython-vm/src/buffer.rs:220-366 | `bi` takes 8 bytes and `>bi` takes 5. |
| StructFormat.TokenAt | patches/rustpython-vm/src/buffer.rs:220-366 | A token ends behind its start, and a repeat count fits isize. |
| StructFormat.PaddingAligns | patches/rustpython-vm/src/buffer.rs:368-376 | The padding aligns the offset and is less than the alignment. |
| StructFormat.Parse | patches/rustpython-vm/src/buffer.rs:220-366 | The loop, with its overflow checks, computes the layout of the tokens. |
| StructFormat.ParseAccounts | patches/rustpython-vm/src/buffer.rs:220-376 | For every accepted format the size is the exact sum of paddings and extents without wrap-around, the argument count is exact, and native items start aligned. |
| StructFormat.WrittenToken | patches/rustpython-vm/src/buffer.rs:220-366 | A written count and type character, whatever follows, reads as that item, or overflows exactly when the count exceeds isize::MAX. |
| StructFormat.WrittenParses | patches/rustpython-vm/src/buffer.rs:220-366 | Every written list of items, `u` included, parses to exactly its own layout or fails as the layout does. |
| StructFormat.SizeExactly | patches/rustpython-vm/src/buffer.rs:220-366 | A written format parses if and only if its counts and its size fit isize, and to the size at which each number starts at the next multiple of its alignment. |
| StructFormat.SkippedChar | patches/rustpython-vm/src/buffer.rs:236-333 | Blanks, braces and marks between items mean nothing. |
| StructFormat.SkippedName | patches/rustpython-vm/src/buffer.rs:308-318 | A field name between colons means nothing. |
| StructFormat.AfterCloseExactly | patches/rustpython-vm/src/buffer.rs:281-306 | A bracket ends at the first position at which the brackets balance, and is unmatched if and only if there is none. |
| StructFormat.SkippedBrackets | patches/rustpython-vm/src/buffer.rs:296-306 | An array shape in brackets, nested ones included, means nothing. |
| StructFormat.SkippedBraces | patches/rustpython-vm/src/buffer.rs:279-294 | A struct or function pointer in braces means nothing. |
| StructFormat.BadCharacters | patches/rustpython-vm/src/buffer.rs:268-345 | Embedded NUL, types of the native mode outside it, and unmatched colons and brackets are their errors. |
| StructFormat.CountAlone | patches/rustpython-vm/src/buffer.rs:241-266 | A count at the end without a type is an error unless it is 1. |
| StructFormat.UnreachableReached | patches/rustpython-vm/src/buffer.rs:128-160 | The format `<u` reaches the branch that the source marks as unreachable. |
| StructFormat.UnreachableNeedsU | patches/rustpython-vm/src/buffer.rs:220-366 | Whatever the text, that branch is reached only outside the native mode and only if a `u` is in the text. |
| StructFormat.UnreachableExactly | patches/rustpython-vm/src/buffer.rs:128-366 | Parsing a written format reaches it if and only if some `u` is written outside the native mode with a count that fits and everything before it is laid out. |
| StructPack.DecodeEncode | patches/rustpython-vm/src/buffer.rs:541-553 | Bytes decode to the number they encode, for every width and both byte orders. |
| StructPack.UnsignedRoundTrip | patches/rustpython-vm/src/buffer.rs:541-553 | Two's complement returns every number of the signed or unsigned range. |
| StructPack.IntegerBytes | patches/rustpython-vm/src/buffer.rs:541-553 | Each byte of a packed integer is the digit of its weight in base 256, in either order, also for negative numbers. |
| StructPack.RangesAre | patches/rustpython-vm/src/buffer.rs:570-580 | Which integers fit one, two, four and eight bytes, signed and unsigned. |
| StructPack.ItemRoundTrip | patches/rustpython-vm/src/buffer.rs:541-669 | Every value that packs as one item comes back unchanged. |
| StructPack.WriteString | patches/rustpython-vm/src/buffer.rs:693-699 | A field becomes the data cut to its length or followed by zeros; nothing else changes. |
| StructPack.PackPascal | patches/rustpython-vm/src/buffer.rs:680-691 | A Pascal field becomes a length byte of at most 255 and the string cut to the field. |
| StructPack.PascalRoundTrip | patches/rustpython-vm/src/buffer.rs:680-715 | Unpacking a Pascal field gives the string cut to min(255, repeat - 1). |
| StructPack.CodeRoundTrip | patches/rustpython-vm/src/buffer.rs:430-523 | Each code returns its arguments, strings cut or padded. |
| StructPack.PackInto | patches/rustpython-vm/src/buffer.rs:430-482 | Succeeds exactly when the argument count is right and every argument packs; writes exactly the packed bytes, keeps padding and everything behind, and no slice is out of range. |
| StructPack.Pack | patches/rustpython-vm/src/buffer.rs:421-428 | Packs into a zeroed buffer of the format size. |
| StructPack.Unpack | patches/rustpython-vm/src/buffer.rs:484-523 | Fails exactly on a buffer of the wrong length, and otherwise consumes exactly the size. |
| StructPack.PackedBytes | patches/rustpython-vm/src/buffer.rs:430-482 | Byte for byte: which arguments pack, what each code writes, zeros behind short strings and in pad bytes, and padding left as it was. |
| StructPack.UnpackedArgs | patches/rustpython-vm/src/buffer.rs:484-523 | What each code reads back from any bytes. |
| StructPack.PackFormat | patches/rustpython-vm/src/buffer.rs:400-428 | A format text and arguments: None exactly where parsing or packing fails, and otherwise those bytes in the order the mark selects, with zeros for alignment. |
| StructPack.UnpackFormat | patches/rustpython-vm/src/buffer.rs:400-523 | A format text and a buffer: None exactly on a bad format or a wrong length, and otherwise those arguments. |
| StructPack.RoundTrip | patches/rustpython-vm/src/buffer.rs:430-523 | Unpacking what was packed returns all arguments, strings cut or padded to their fields. |
| StructPack.FormatRoundTrip | patches/rustpython-vm/src/buffer.rs:220-523 | The same for every format text that parses. |
| SqlTransactions.SqlConnection.Execute | src/sqlite.rs:97-171 | An accepted write runs inside a transaction, begun if need be: what succeeds is what the connection then sees, a failure leaves its partial changes pending, a rollback by the engine leaves nothing; any other statement, and a failing BEGIN, changes nothing; nothing becomes durable. |
| SqlTransactions.SqlConnection.ExecuteMany | src/sqlite.rs:174-254 | Only writes are accepted; the rows run in order up to the first that fails, and the new state and result are those of BatchOf. |
| SqlTransactions.SqlConnection.WriteRows | src/sqlite.rs:227-229 | Rows stop at the first that does not succeed, so none runs after the engine has given the transaction up. |
| SqlTransactions.BatchIsAllOrNothing | src/sqlite.rs:221-248 | Every row is in place; or the pending state and savepoints are as before the call; or the engine gave up the transaction, reported as a loss exactly when there were pending writes; and the savepoint is left behind exactly when releasing it or undoing the rows fails. |
| SqlTransactions.SavepointLeftBehind | src/sqlite.rs:231-248 | Both ways to leave a savepoint behind: the release fails after all rows are written; or a row fails and its undoing fails. |
| SqlTransactions.SqlConnection.FinishTransaction | src/sqlite.rs:265-272 | A commit makes the pending state durable, a rollback discards it, failure changes nothing. |
| SqlTransactions.SqlConnection.Close | src/sqlite.rs:77-84 | Closing discards the pending state; after a failed rollback the connection stays open. |
| SqlTransactions.DurableIsLastCommit | src/sqlite.rs:86-94 | Over every run of calls the durable state is what the connection saw at the last successful commit, or the first state if there was none. |
| SqlTransactions.WrittenThenFinished | src/sqlite.rs:86-171 | After any run: a write that succeeds is what the connection sees, a commit then makes it durable, and a rollback discards it. |
| SqlTransactions.BatchThenFinished | src/sqlite.rs:86-254 | The same for the last row of a batch. |
| SqlTransactions.ClosedHandle | src/sqlite.rs:77-84 | Closing discards what is pending and closes that handle alone, or changes nothing; a closed handle changes nothing. |
| SqlTransactions.WithConnection | src/sqlite.rs:19-39 | Any script, however it ends, leaves the state of its run; what is durable is what the connection saw at the last successful commit of that run, and on success nothing is pending. |
| SqlTransactions.FirstKeyword | src/sqlite.rs:346-362 | The loop ends and returns the leading word behind blanks and comments. |
| SqlTransactions.IsWrite | src/sqlite.rs:371-373 | A statement is a write exactly when that word is one of the four verbs. |
| SqlTransactions.WriteRecognised | src/sqlite.rs:346-373 | Behind any sequence of blanks, line and block comments, and in any letter case, a statement is a write exactly when its first word is INSERT, UPDATE, DELETE or REPLACE. |
| SqlTransactions.UnendedCommentHides | src/sqlite.rs:346-373 | A comment that is not ended hides the rest, which is then no write. |
| SqlTransactions.Cursor.FetchOne | src/sqlite.rs:291-308 | Refuses exactly on a closed connection; otherwise rows are handed out once, in order. |
| SqlTransactions.Cursor.FetchAll | src/sqlite.rs:310-326 | Refuses exactly on a closed connection; otherwise returns exactly the rows not yet fetched. |
| JsonScan.FindFloatChar | src/requests.rs:476-513 | Finds whether a token has a fraction or exponent character. |
| JsonScan.EndOfToken | src/requests.rs:476-513 | The inner loop ends behind the longest run of token characters. |
| JsonScan.ValidateJsonIntegerLexemes | src/requests.rs:476-513 | The loop with its string flag computes the pure scan. |
| JsonScan.LexicographicIsNumeric | src/requests.rs:476-513 | Lexicographic order is numeric order on digits of equal length. |
| JsonScan.TooLargeIsNumeric | src/requests.rs:476-513 | Length first and then lexicographic order decides "greater than 2^53 - 1" for digits without leading zero (section 6 of RFC 8259). |
| JsonScan.SkipString | src/requests.rs:476-513 | A string is skipped whole, with every escape (section 7 of RFC 8259). |
| JsonScan.ScanIsExact | src/requests.rs:476-513 | For every rendering of every JSON value the scanner accepts if and only if every integer token outside strings is at most 2^53 - 1 in magnitude. |
| ValueConversion.UnfoldExact | src/value.rs:98-201 | Unfolding an object to depth d finds exactly the trees of at most that depth that it represents. |
| ValueConversion.ScalarsRepresent | src/value.rs:98-140 | An object without references stands for exactly one value, or for none: integers beyond 2^53 - 1, non-finite floats, strings that are not UTF-8 and all other objects. |
| ValueConversion.ContainersRepresent | src/value.rs:141-195 | Lists, tuples and dicts stand for arrays and maps, item by item and member by member in order; keys are strings. |
| ValueConversion.CyclesNeverUnfold | src/value.rs:67-72 | An object that reaches itself is the unfolding of no finite tree, so refusing cycles refuses nothing else. |
| ValueConversion.AncestorsNeverUnfold | src/value.rs:67-77 | An object met among its own ancestors has no unfolding. |
| ValueConversion.Budget.Visit | src/value.rs:36-52 | Counts a node and accepts it exactly within both limits. |
| ValueConversion.PyToJson | src/value.rs:98-201 | Ends on every heap, shared or cyclic; returns the unfolding exactly when the levels and nodes left allow it, and restores the ancestors on every exit. |
| ValueConversion.ListToJson | src/value.rs:141-168 | Items are converted in order up to the first failure, with the ancestors restored. |
| ValueConversion.DictToJson | src/value.rs:169-195 | Members likewise, each key counted as a node. |
| ValueConversion.PyToSafeJson | src/value.rs:79-96 | Returns v if and only if v is the unfolding of the object, at most 32 levels deep, of at most 10000 nodes counting keys, and encoded in at most 131072 bytes. |
| ValueConversion.NestedMeasures | src/value.rs:36-52 | Every container around a value is one level and one node more, and a key one node more. |
| ValueConversion.FlatItems | src/value.rs:141-168 | Items add up. |
| ValueConversion.FlatMembers | src/value.rs:169-195 | Members add up, with two nodes each. |
| ValueConversion.BuiltRepresents | src/value.rs:203-237 | The objects built from a value unfold to it, and no existing object changes. |
| ValueConversion.BuiltShape | src/value.rs:203-237 | Each kind of value becomes its kind of object, an array a list and no tuple. |
| JsonText.StringText | src/value.rs:88-94 | An encoded string is a literal of the grammar, with its escapes, that means the string (section 7 of RFC 8259). |
| JsonText.IntegerText | src/value.rs:88-94 | An encoded integer is a number of the grammar that means the integer (section 6 of RFC 8259). |
| JsonText.EncodedIsText | src/value.rs:88-94 | What is measured against the encoded limit is the UTF-8 of a JSON text without blanks that denotes the value. |
| JsonText.EncodedPasses | src/requests.rs:476-513 | The integer preflight accepts the encoding of every legal value. |
| JsonText.SuccessText | src/eval.rs:12-77 | A successful response is the text of an object with its four members in order, whose stdout means the captured output. |
| JsonText.FailureText | src/eval.rs:12-77 | A failed response is such a text with the kind, type and message of the error. |
| ValueConversion.EscapesOutgrow | src/value.rs:88-94 | A string of n NUL characters has one level and one node and is encoded in 6n + 2 bytes, so the bound on the encoding is a limit of its own. |
| ValueConversion.RoundTrip | src/value.rs:79-237 | Converting a value to Python and back returns it exactly when it is within the limits. |
| YamlPolicy.EventPolicy | src/yaml.rs:107-172 | The loop over events computes the pure policy, without underflow of the depth. |
| YamlPolicy.YamlToJson | src/yaml.rs:221-278 | Returns the value of the tree exactly when the levels and nodes left allow it, and counts exactly the nodes of the tree. |
| YamlPolicy.LoadEntries | src/yaml.rs:252-275 | Mappings: string keys other than the merge key, each once, each counted. |
| YamlPolicy.PolicyOfTree | src/yaml.rs:107-172 | On the events of a tree the running counters accept exactly when the tree fits, and the depth returns to where it was. |
| YamlPolicy.EventPassExact | src/yaml.rs:107-172 | The event pass accepts a document exactly when its tree has at most 32 levels and 10000 nodes. |
| YamlPolicy.PolicyExactly | src/yaml.rs:107-172 | For every stream of events: accepted if and only if there is one document, no alias, anchor, tag or integer out of range, every collection is closed that was opened and no other, and all nodes are within both limits. |
| YamlPolicy.ValueExactly | src/yaml.rs:221-278 | A tree loads as a value if and only if it spells the value and the value is legal and has no merge key. |
| YamlPolicy.DumpedLoads | src/value.rs:239-258 | What safe_json_to_yaml makes of a value loads as that value if and only if it is legal and has no merge key. |
| YamlPolicy.ValueMeasures | src/yaml.rs:221-278 | A loaded value has the levels and nodes of its tree. |
| YamlPolicy.LoadAgrees | src/yaml.rs:52-77 | The two passes agree on every string-keyed tree, and what is loaded survives conversion to Python and back unchanged exactly when its encoding is within 131072 bytes. |
| BytesReplace.OccurrencesAreAll | patches/rustpython-vm/src/bytes_inner.rs:986-994 | The leftmost non-overlapping search misses no match: each is found or overlaps an earlier one. |
| BytesReplace.SpliceIsReplaced | patches/rustpython-vm/src/bytes_inner.rs:826-869 | Splicing at the first occurrences is the one-pass rule. |
| BytesReplace.ReplacedIsJoin | patches/rustpython-vm/src/bytes_inner.rs:826-869 | Replacing is splitting at leftmost matches, at most as many as the limit, and joining with the replacement. |
| BytesReplace.InterleavedIsJoin | patches/rustpython-vm/src/bytes_inner.rs:755-768 | For the empty pattern the parts are nothing, single bytes and the rest. |
| BytesReplace.ReplaceMeans | patches/rustpython-vm/src/bytes_inner.rs:871-921 | Without a count or with a negative one every match is replaced, otherwise at most that many. |
| BytesReplace.ReplacedLength | patches/rustpython-vm/src/bytes_inner.rs:843-853 | The result has exactly length len + n * (to - from). |
| BytesReplace.GuardIsExact | patches/rustpython-vm/src/bytes_inner.rs:846-850 | The overflow guard by division is exact. |
| BytesReplace.ReplaceInterleave | patches/rustpython-vm/src/bytes_inner.rs:755-768 | Equals the rule for the empty pattern, for every limit, unless the result would be longer than isize::MAX. |
| BytesReplace.SpliceLoop | patches/rustpython-vm/src/bytes_inner.rs:784-796 | The copying loop equals the rule. |
| BytesReplace.ReplaceDelete | patches/rustpython-vm/src/bytes_inner.rs:770-797 | Equals the rule with nothing put in. |
| BytesReplace.ReplaceInPlace | patches/rustpython-vm/src/bytes_inner.rs:799-824 | Overwriting in place equals the rule for patterns of equal length. |
| BytesReplace.ReplaceGeneral | patches/rustpython-vm/src/bytes_inner.rs:826-869 | Equals the rule, and fails exactly when the result would be longer than isize::MAX. |
| BytesReplace.Replace | patches/rustpython-vm/src/bytes_inner.rs:871-921 | Whatever routine is dispatched to, the result is the rule's for every input and limit, and the only failure is a result longer than isize::MAX: an error, or for the empty pattern a panic; when that is the case is stated by the lengths and the number of replacements. |
| BytesReplace.InterleaveTooLong | patches/rustpython-vm/src/bytes_inner.rs:755-768 | A concrete case of that panic: an empty pattern in 2^32 bytes, replaced by 2^32 bytes everywhere. |
| CapturedOutput.FitIsLongest | src/capture.rs:31-41 | The prefix kept fits, and one more character would not. |
| CapturedOutput.Utf8Carries | src/capture.rs:25-43 | A character is encoded in the shortest form, with its code point in the low bits (section 3 of RFC 3629). |
| CapturedOutput.FitAppend | src/capture.rs:25-43 | Fitting a concatenation is fitting its parts in turn, so chunking does not matter. |
| CapturedOutput.BoundaryOfFit | src/capture.rs:36-39 | Between the end of that prefix and the limit there is no character boundary (section 3 of RFC 3629). |
| CapturedOutput.FloorBoundary | src/capture.rs:36-40 | Stepping back byte by byte stops exactly at the end of that prefix. |
| CapturedOutput.Captured.Append | src/capture.rs:25-43 | After any writes the output is the longest character prefix of their concatenation within 65536 bytes, and truncated says exactly whether the total exceeds it. |
| CapturedOutput.BoundedText | src/eval.rs:214-223 | Returns the longest character prefix within the limit. |
| CapturedOutput.PartsCompose | src/eval.rs:12-46 | The bounds on output, result and diagnostics, with escaping at most six-fold, keep every response within the response limit. |
| CapturedOutput.Evaluate | src/eval.rs:56-77 | Every answer carries the captured output and the outcome cut to their own bounds: the limit on the whole response never replaces it. |
| CodecRegistry.NormalizeEncodingName | patches/rustpython-vm/src/codecs.rs:409-432 | The loop and its fast path return the words of the name in lower case joined by single underscores. |
| CodecRegistry.NormalForms | patches/rustpython-vm/src/codecs.rs:409-432 | Normalising is idempotent, and names have the same normal form exactly when they have the same words. |
| CodecRegistry.NormalOfWord | patches/rustpython-vm/src/codecs.rs:409-432 | A name of one word is only put in lower case. |
| CodecRegistry.NormalSplits | patches/rustpython-vm/src/codecs.rs:409-432 | At any separator the two sides are normalised and joined by one underscore, or without if one has no words. |
| CodecRegistry.ScanIsFirst | patches/rustpython-vm/src/codecs.rs:244-257 | The first search function that does not answer "not found" decides, also by raising. |
| CodecRegistry.ScanLonger | patches/rustpython-vm/src/codecs.rs:209-215 | A search function added at the end changes no name that is already found. |
| CodecRegistry.Registry.Register | patches/rustpython-vm/src/codecs.rs:209-215 | Appends a callable and keeps the cache in agreement. |
| CodecRegistry.Registry.Unregister | patches/rustpython-vm/src/codecs.rs:217-233 | Takes the first registration out of the search path and empties the cache, or changes nothing. |
| CodecRegistry.Registry.RegisterManual | patches/rustpython-vm/src/codecs.rs:235-242 | Enters a codec under the normal form. |
| CodecRegistry.Registry.Lookup | patches/rustpython-vm/src/codecs.rs:244-269 | Answers as a fresh scan of the current search path for the normal form would, unless the name was entered by hand. |
| CodecRegistry.Registry.LookupScan | patches/rustpython-vm/src/codecs.rs:244-257 | The first half of a lookup: a cache hit, or a scan of the search path. |
| CodecRegistry.Registry.LookupStore | patches/rustpython-vm/src/codecs.rs:258-266 | The second half: an entry already there wins, and the cache agrees with the search path if and only if there was one or the codec is what a scan would find now. |
| CodecRegistry.Registry.Forget | patches/rustpython-vm/src/codecs.rs:287-290 | Removes exactly that entry. |
| CodecRegistry.CacheInvisible | patches/rustpython-vm/src/codecs.rs:209-290 | After every run of operations, lookup answers as a registry without a cache, and aliases with the same words answer alike. |
| CodecRegistry.OperationSeen | patches/rustpython-vm/src/codecs.rs:209-290 | What one more operation at the end of any run changes in the answers. |
| CodecRegistry.ScanSurvives | patches/rustpython-vm/src/codecs.rs:209-233 | A name found is found with the same codec after any run that unregisters no registered search function. |
| CodecRegistry.OverlappedLookup | patches/rustpython-vm/src/codecs.rs:244-269 | A lookup with other operations in its middle keeps the agreement unless one of them unregisters a registered search function, and answers as a registry without a cache before or after them. |
| CodecRegistry.StaleAfterUnregister | patches/rustpython-vm/src/codecs.rs:217-266 | With such an operation in its middle the cache keeps a codec that no registered function finds. |

## Left out

Dict (`dict_inner.rs`):

- Equality code that changes the dict while a lookup compares keys, and the retries this causes. A lookup and the change that follows it are one step here; equality is an equivalence that respects hashes.
- The hash i64::MIN as the hash of a key: MinimalHashEnds says on which tables a lookup of it ends. The optimised build's wrapping absolute value is the one modelled.
- `prev_entry`, `drain_entries`, `setdefault_entry`, `sizeof`, cloning, and the wrap-around of the 64-bit version.
- Dicts of 2^58 entries or more: a vector of 32-byte entries cannot exceed isize::MAX bytes.
- The slot mask is written as a remainder modulo the table size, which is a power of two.
- Index table and entry vector are sequence fields that the methods reassign; their capacity is not modelled.

Garbage collector (`gc_state.rs`):

- Counters while operations overlap: they are updated outside the locks, so GcCounts states them for operations that follow each other. Their reset inside `collect_inner` is not modelled.
- Finalizer code, weak references and their callbacks, debug output, statistics, thresholds and timing. What finalizers do to the graph is arbitrary in Partition.
- Referents are the snapshot that the source takes once; an object whose count drops to zero between gathering and that snapshot is not modelled.
- `get_objects`, which reads one list at a time, and re-initialisation after fork. So the collector is the only reader of list locks here, and it holds them as a writer would. Its try-lock `collecting` admits one collector at a time; that it is kept until the survivors are promoted is not modelled.

Frame allocator (`datastack.rs`):

- Address-space wrap-around, abort on exhausted memory, and the saved top of a chunk, which nothing reads.
- Requests above isize::MAX, for which address offsets are not defined in the source.

Exception groups (`exception_group.rs`, `exceptions.rs`):

- User overrides of `split`, `subgroup`, `derive`, `__instancecheck__` and `__subclasscheck__`, conditions that raise, and the traceback, cause, context and notes of groups, which `split` and `subgroup` copy and `derive` alone does not.
- Arguments that are not exceptions, lists or types; all other exception classes.

struct (`buffer.rs`):

- Conversion of Python objects to integers, floats and truth values: an argument is an integer, bytes, a truth value, or the bits of a float. Half-precision rounding belongs to that conversion.
- Sizes and alignments are those of a 64-bit Unix host.
- The text of error messages.

SQL (`sqlite.rs`):

- Parsing and execution inside the database engine: the engine is a small machine whose statement may succeed, fail leaving partial changes, or roll everything back, and whose control statements work or fail without effect.
- Writes whose first keyword hides them (such as WITH), DDL and control statements written by a script; a statement without a write verb leaves the database alone here.
- Conversion of parameters and rows and the limits on them, which only decide `accepted` or a failing outcome.

Values, YAML, JSON (`value.rs`, `yaml.rs`, `requests.rs`):

- How serde_json writes a real is a parameter of the encoding, so the bound on the encoded length in PyToSafeJson, RoundTrip and LoadAgrees is exact up to that text.
- Scanning and emitting of YAML, and how the parser reads scalars: which scalars the event pass takes for integers out of range is arbitrary. Directives, tags and anchors are refused before a tree exists.
- The JSON scanner reads characters rather than UTF-8 bytes; no byte of a multi-byte character is significant to it.
- HTTP, clocks, entropy, subprocesses, command-line parsing and policy installation.

bytes.replace (`bytes_inner.rs`):

- The search itself is its contract, leftmost and non-overlapping. Reserved capacities are not modelled, nor is running out of memory below isize::MAX.

Output and codecs (`capture.rs`, `eval.rs`, `codecs.rs`):

- Replacement of lone surrogates before text is captured; interpreter set-up.
- Search functions that change the registry while they run, and more than one lookup between its halves at a time.
- Error handlers, and the codecs themselves.

Numeric, table and procedural-macro code, build scripts and start-up of the virtual machine are not modelled.
