# Verification of the engine's data structures and protocols

Dafny models of six parts of the engine, with machine-checked proofs of what they promise.

* **Memory-mapped B-tree and row index** (`SearchTree*.dfy`, `Memmap.dfy`, `Ownership.dfy`, `BTreeBlocks.dfy`,
  `BTree.dfy`, `MemIndex.dfy`). The tree is specified by functions on values, which are proved to be a map with
  balanced height. The methods work on a heap of blocks as the source does: nodes are copied out of their block,
  changed and written back, vectors move when they grow, a split hands blocks over. Each method is proved to
  compute the function, and to turn exactly the blocks it owned into the blocks it owns (`Conserved`).
* **Multithreading** (`Barrier.dfy`, `Reducer*.dfy`, `Checkpoint*.dfy`, `ReadWriteLock*.dfy`). Interleaved atomic
  steps of any number of threads; every claim is about every state of every run (`Run`).
* **Lazy column views** (`ColumnExpr.dfy`, `ColumnView.dfy`). Expressions have a stateless meaning; views are
  objects with mutable cursors that are proved to read that meaning under any access order.
* **CSR matrices** (`CSRMatrix.dfy`). Arrays that are shifted by running offsets, and their dense reading.
* **Incremental index and join** (`ColumnIndex.dfy`, `Matchmaker.dfy`). An index with a watermark, in memory or on
  the memory-mapped index above, and the join through it against the nested loop.
* **Codec and trend** (`Codec.dfy`, `Trend.dfy`). Chunked transfer in network byte order; least-squares lines over
  exact reals.

`Wrappers.dfy` holds what they share. `dafny verify dfyconfig.toml` checks the project.

## Where the code is not what its documentation says

* `ReadWriteLock::upgrade_weak_write_lock` is documented as an upgrade to a read lock; it makes the thread a strong
  writer, and that is what is modelled.
* A timed wait that throws leaves its waiting counter incremented (`WaitingCounters`), and from then on a released
  writer never notifies the readers (`ReadersNotified`). `TimeoutsStayCounted` and `ReaderNotNotified` give a run of
  two threads.
* `Communicator::checkpoint` also throws at a checkpoint that everybody passed true to, when a faster thread has
  reached the next one and passes false there (`ThrowsExactly`, `CanThrowExactly`, `ThrowsTooEarly`).
  The faster thread then does not throw as documented but waits in the barrier for ever (`Outcome`, `EarlyThrowDivides`).
* `BTreeNode::size` accumulates in an `int` and is exact for fewer than 2^31 entries below the root (`SizeExact`);
  `SizeOfAscending` gives insertions after which it is not.
* `containers::Index` relies on the indexed rows not being changed; `CalculateExactly` says exactly when it is right.
* `CSRMatrix::add` does not check codes against `n_unique`; `OrderedExactly` says what that costs. For numerical columns
  it does not check the number of rows either: a longer column leaves elements behind the last row (`AddFloats`,
  `AddTooLong`).
* In `make_matches` a weight that is NaN does not exclude a row, since the comparison with 0 is false.

## Model

| member | source | states |
|---|---|---|
| SearchTreeLaws.InsertIntoIsPut | src/engine/include/memmap/BTree.hpp:260-315 | inserting below a node, split or not, changes its sorted in-order content exactly as inserting into an association list does: the value of a present key is replaced, a new entry goes to its place, nothing else moves |
| SearchTreeLaws.InsertIsPut | src/engine/include/memmap/BTree.hpp:235-255 | the same for the whole tree, including the growth of a new root |
| SearchTreeLaws.SplitKeepsContent | src/engine/include/memmap/BTree.hpp:451-474 | splitting a node loses, repeats and reorders no entry: smaller half, median and greater half together are the node |
| SearchTreeLaws.GetIsLookup | src/engine/include/memmap/BTree.hpp:399-429 | on a sorted tree, the search that follows one child per level finds the value of a key wherever it is stored, and nothing if it is stored nowhere |
| SearchTreeLaws.ChildrenBetweenSeparators | src/engine/include/memmap/BTree.hpp:292-308 | every entry below child i lies strictly between the separators on its two sides |
| SearchTreeLaws.MedianBelowSeparator | src/engine/include/memmap/BTree.hpp:304-308 | when a child is split, the median never equals a separator of the parent, so the parent takes it in as a new key and never as an overwrite |
| SearchTreeLaws.PreOrderIsContent | src/engine/include/memmap/BTree.hpp:363-374 | the order in which values are collected is a permutation of the in-order content: each stored value once |
| SearchTreeLaws.PutLookup | src/engine/include/memmap/BTree.hpp:320-342 | the association list that serves as the reference is a map: lookup after insertion |
| SearchTreeLaws.PutLength | src/engine/include/memmap/BTree.hpp:333-336 | an insertion adds one entry, or none if the key was there |
| SearchTreeBalance.InsertIntoBalanced | src/engine/include/memmap/BTree.hpp:276-314 | a node below the root stays between half full and full, all leaves stay on one level, and both halves of a split are of the height of the node |
| SearchTreeBalance.InsertBalanced | src/engine/include/memmap/BTree.hpp:235-255 | the whole tree stays balanced, and its height grows by one exactly when the root splits |
| SearchTreeBalance.InsertKeepsInvariant | src/engine/include/memmap/BTree.hpp:235-255 | balance and order of the keys are kept together by every insertion |
| SearchTreeBalance.LeastSize | src/engine/include/memmap/BTree.hpp:451-541 | a tree of height h >= 1 holds at least 2 (order / 2 + 1)^h - 1 entries, which bounds the depth of a search |
| SearchTreeBalance.SizeMod | src/engine/include/memmap/BTreeNode.hpp:39-56 | size() is right modulo 2^32, whatever the tree, although it accumulates in an int |
| SearchTreeBalance.SizeExact | src/engine/include/memmap/BTreeNode.hpp:39-56 | size() is the number of entries if and only if fewer than 2^31 of them are below the root |
| SearchTreeBalance.SizeWraps | src/engine/include/memmap/BTreeNode.hpp:39-56 | with 2^31 or more entries below the root, and fewer than 2^32 in all, size() is too large by 2^64 - 2^32 |
| SearchTreeRuns.SizeOfAscending | src/engine/include/memmap/BTreeNode.hpp:39-56 | and such trees are reached: after inserting 2^31 + order different keys into an empty tree size() is wrong |
| SearchTreeRuns.RunInvariant | src/engine/include/memmap/BTree.hpp:235-315 | every tree reachable from the empty one is balanced, with strictly sorted keys |
| SearchTreeRuns.RunRefinesMap | src/engine/include/memmap/BTree.hpp:69-71 | after any sequence of insertions a search gives the value inserted last under the key, and nothing for other keys |
| SearchTreeRuns.RunSize | src/engine/include/memmap/BTree.hpp:333-336 | the number of entries is the number of distinct keys inserted |
| SearchTreeRuns.RunHeight | src/engine/include/memmap/BTree.hpp:451-541 | the height of every reachable tree is logarithmic in the number of distinct keys inserted |
| Memmap.Pool.Allocate | src/engine/include/memmap/Pool.hpp:45-55 | a block for at least n cells; a block that grows keeps its content in front and either stays in place or is released for a block nobody had; all other blocks stay |
| Memmap.Pool.Deallocate | src/engine/include/memmap/Pool.hpp:67-68 | exactly this block disappears |
| Memmap.Pool.NewVector | src/engine/include/memmap/Vector.hpp:26-35 | an empty vector with a new block of its own |
| Memmap.Pool.PushBack | src/engine/include/memmap/VectorImpl.hpp:174-183 | the cells with one more at the end, in the same or in another block; of all blocks only that of the vector has changed |
| Memmap.Pool.InsertCell | src/engine/include/memmap/VectorImpl.hpp:152-169 | the in-place shifting loop inserts a cell at a position, also when the block moved before |
| Memmap.Pool.CopyTail | src/engine/include/memmap/BTree.hpp:519-536 | the tail of a vector in a new block; the old block is unchanged |
| BTree.BTree.constructor | src/engine/include/memmap/BTree.hpp:160-163 | an empty valid tree of at least order 16 whose node owns two new blocks |
| BTree.BTree.AllocateNewNode | src/engine/include/memmap/BTree.hpp:168-177 | an empty node with two new blocks |
| BTree.BTree.FindPosition | src/engine/include/memmap/BTree.hpp:182-191 | the first position whose key is not smaller, or the number of keys |
| BTree.BTree.InsertKeyValue | src/engine/include/memmap/BTree.hpp:320-342 | keys and values of the node in memory with the pair inserted or the value replaced; only blocks of the node change, and none is lost |
| BTree.BTree.InsertChildren | src/engine/include/memmap/BTree.hpp:196-230 | the yielded child is replaced by the two halves |
| BTree.BTree.SplitNode | src/engine/include/memmap/BTree.hpp:451-474 | the halves in memory are the halves of the node; the smaller one took the blocks over, the greater one has new blocks, and nothing is shared |
| BTree.BTree.SplitNodeMakeGreater | src/engine/include/memmap/BTree.hpp:509-541 | the part behind the median, copied into new blocks |
| BTree.BTree.SplitNodeMakeSmaller | src/engine/include/memmap/BTree.hpp:480-503 | the handles returned hold the keys and values in front of the median and the children up to it; they own the blocks of the node, in which nothing is written |
| BTree.BTree.InsertIntoTree | src/engine/include/memmap/BTree.hpp:260-315 | the memory afterwards holds what the specification of the insertion says; the blocks of the subtree became exactly the blocks of the result, no other block was touched, allocated or freed |
| BTree.BTree.Insert | src/engine/include/memmap/BTree.hpp:235-255 | the tree stays valid, refines the specification, and its blocks became exactly the blocks of the new tree |
| BTree.BTree.Get | src/engine/include/memmap/BTree.hpp:69-71 | the value of the key in the content of the tree, read through the blocks |
| BTree.BTree.GetValue | src/engine/include/memmap/BTree.hpp:399-429 | the loop over the keys of each node is the search of the specification |
| BTree.BTree.InsertValues | src/engine/include/memmap/BTree.hpp:363-374 | appends the values of a subtree, keys of the node before those of its children |
| BTree.BTree.Values | src/engine/include/memmap/BTree.hpp:546-552 | the values of the whole tree, node before children; with PreOrderIsContent, every stored handle once |
| BTree.BTree.DeallocateNode | src/engine/include/memmap/BTreeNode.hpp:78-90 | frees exactly the blocks of the subtree, each of them once |
| BTree.BTree.Deallocate | src/engine/include/memmap/BTree.hpp:137 | frees exactly the blocks of the tree |
| BTreeBlocks.SplitOwned | src/engine/include/memmap/BTree.hpp:467-473 | after a split the two halves own the old blocks of the subtree and the new ones, and share none |
| BTreeBlocks.AdoptedTree | src/engine/include/memmap/BTree.hpp:302-308 | a node that has adopted two halves owns its own blocks and theirs, and nothing besides |
| Ownership.HoldsFrame | src/engine/include/memmap/BTree.hpp:289-296 | a subtree whose blocks are outside of a change is still held by the memory, handle by handle |
| MemIndex.MemIndex.constructor | src/engine/include/memmap/Index.hpp:28-31 | an empty index that owns the blocks of an empty tree |
| MemIndex.MemIndex.Insert | src/engine/include/memmap/Index.hpp:101-117 | the list of the key gets the row at its end, all other lists stay, and the blocks of the index before became exactly its blocks afterwards, also when the list moved |
| MemIndex.MemIndex.AppendRow | src/engine/include/memmap/Index.hpp:102-112 | the copied handle refers to a block with the appended list |
| MemIndex.MemIndex.Find | src/engine/include/memmap/Index.hpp:58-60 | a handle whose block holds the list of the key, if and only if there is one |
| MemIndex.MemIndex.DeallocateLists | src/engine/include/memmap/Index.hpp:86-96 | frees exactly the blocks of the lists |
| MemIndex.MemIndex.Clear | src/engine/include/memmap/Index.hpp:78-81 | the index is empty, and its old blocks were exchanged for those of an empty tree |
| MemIndex.MemIndex.Destroy | src/engine/include/memmap/Index.hpp:41 | frees every block of the index and no other |
| MemIndex.ValuesAreLists | src/engine/include/memmap/Index.hpp:91-95 | the handles collected from the tree are those of the lists, each once and with different pages, so no block is freed twice or forgotten |
| MemIndex.RunLists | src/engine/include/memmap/Index.hpp:101-117 | after any sequence of insertions the list of a key holds exactly the rows inserted under it, in this order |
| MemIndex.InsertAll | src/engine/include/memmap/Index.hpp:101-117 | the same sequence on the heap: the lists are those of the sequence, and blocks are conserved throughout |
| MemIndex.Lifetime | src/engine/include/memmap/Index.hpp:41 | from the constructor over any insertions to the destructor: the memory is what it was before |
| Barrier.StepInv | src/engine/include/multithreading/Barrier.hpp:26-36 | the invariant of the barrier is kept by every atomic step of every thread, although the counter is reset before the generation is bumped |
| Barrier.NoEarlyLeave | src/engine/include/multithreading/Barrier.hpp:26-36 | no thread leaves its r-th wait before all threads have begun their r-th |
| Barrier.OneRoundApart | src/engine/include/multithreading/Barrier.hpp:26-36 | no two threads are more than one round apart, and the counter stays between 0 and the number of threads |
| Barrier.NoDeadlock | src/engine/include/multithreading/Barrier.hpp:26-36 | when all threads are inside of wait, one of them can go on |
| Barrier.RunSafe | src/engine/include/multithreading/Barrier.hpp:26-36 | these claims in every run of any number of threads |
| ReducerInvariant.StepInv | src/engine/include/multithreading/all_reduce.hpp:19-61 | an inductive invariant over lock, counter, element-wise writes to the shared buffer, both barriers and element-wise reads |
| ReducerLaws.AllAgree | src/engine/include/multithreading/Reducer.hpp:44-58 | in every interleaving all threads get the same vector in a round, for any operator: the combination of exactly the inputs of that round, each thread once |
| ReducerLaws.ReadsOwnRound | src/engine/include/multithreading/all_reduce.hpp:52-60 | a thread that copies out reads the total of its own round, and no thread can be about to write |
| ReducerLaws.ResultIsFold | src/engine/include/multithreading/Reducer.hpp:44-58 | for an associative and commutative operator the result is the element-wise fold of the inputs of the round in the order of the threads |
| ReducerLaws.FoldOfPermutation | src/engine/include/multithreading/all_reduce.hpp:40-42 | the order in which the threads took the lock does not matter for such an operator |
| ReducerLaws.TotalOfOne | src/engine/include/multithreading/all_reduce.hpp:35-38 | the first thread brings exactly its input, without any initial element |
| ReducerLaws.ResultIsInput | src/engine/include/multithreading/Reducer.hpp:44-58 | for an operator that returns one of its operands every element of a result is that of the input of some thread |
| ReducerLaws.ResultIsBelow | src/engine/include/multithreading/Reducer.hpp:44-58 | for an operator that goes down in some preorder it is below the inputs of all threads |
| ReducerLaws.ExtremeOfInputs | src/engine/src/metrics/Accuracy.cpp:43-47 | with minimum and maximum all threads get the least and the greatest of the inputs of all of them |
| ReducerLaws.ResultIsSum | src/engine/include/multithreading/Reducer.hpp:44-58 | a quantity that the operator adds up is the sum over all threads: nobody is left out or counted twice |
| ReducerLaws.SumOfInputs | src/engine/src/metrics/MAE.cpp:28-30 | with plus all threads get the sum of the inputs of all of them |
| ReducerLaws.NeverStuck | src/engine/include/multithreading/Reducer.hpp:44-58 | in every reachable state some thread can take a step; in particular, every access to the shared buffer that is due is within its bounds |
| ReducerLaws.RunGoesOn | src/engine/include/multithreading/Reducer.hpp:44-58 | every run can go on, so the claims are about runs of any length |
| Checkpoint.ThrowsExactly | src/engine/include/multithreading/Communicator.hpp:34-44 | a thread throws at checkpoint r if and only if somebody voted false up to r, or a faster thread has already voted false in r + 1 |
| Checkpoint.AllThrow | src/engine/include/multithreading/Communicator.hpp:34-44 | if any thread votes false at a checkpoint, every thread that comes to read the flag there throws |
| Checkpoint.RunHalts | src/engine/include/multithreading/Communicator.hpp:34-44 | after a checkpoint that somebody voted down no thread ever comes to a later one |
| CheckpointRuns.CanThrowExactly | src/engine/include/multithreading/Communicator.hpp:34-44 | a condition on the votes alone: some run throws at checkpoint r if and only if nobody votes false before r and somebody votes false at r or, with at least two threads, at r + 1 |
| CheckpointRuns.ThrowsTooEarly | src/engine/include/multithreading/Communicator.hpp:34-44 | two threads and votes with which one of them can throw at a checkpoint to which both pass true |
| CheckpointEnds.NobodyPasses | src/engine/include/multithreading/Communicator.hpp:34-44 | once a thread has been thrown out, no thread ever gets past the barrier of the next checkpoint |
| CheckpointEnds.WaitsForEver | src/engine/include/multithreading/Communicator.hpp:34-44 | and a thread that waits in that barrier never leaves it |
| CheckpointEnds.RunEnds | src/engine/include/multithreading/Communicator.hpp:32-44 | a run in which a thread throws has a bounded length, so it comes to a state in which no thread can take a step |
| CheckpointEnds.Outcome | src/engine/include/multithreading/Communicator.hpp:32-44 | in that state all threads have thrown at one checkpoint, as is promised, if somebody voted false up to it; otherwise every thread has thrown there or waits in the barrier of the next one, where some thread that voted false waits |
| CheckpointEnds.RunToEnd | src/engine/include/multithreading/Communicator.hpp:32-44 | every run in which a thread throws goes on to such a state |
| CheckpointEnds.EarlyThrowDivides | src/engine/include/multithreading/Communicator.hpp:34-44 | whenever a throw can come too early, some run ends with a thread thrown out and another one waiting for ever |
| ReadWriteLockInvariant.StepInv | src/engine/include/multithreading/ReadWriteLock.hpp:42-165 | an inductive invariant over the atomic variables, the mutex and the flags of all handles, one variable at a time |
| ReadWriteLockLaws.Exclusion | src/engine/include/multithreading/ReadWriteLock.hpp:20-24 | in every run an active writer excludes readers and writers of both sorts, and there is at most one weak writer |
| ReadWriteLockLaws.CheckPasses | src/engine/include/multithreading/ReadWriteLock.hpp:77-78 | each check inside of the mutex passes if and only if no handle holds what that check is about; otherwise the thread waits again |
| ReadWriteLockLaws.ReaderPasses | src/engine/include/multithreading/ReadWriteLock.hpp:42-47 | a reader passes if and only if nobody holds the strong lock, whatever weak writers there are |
| ReadWriteLockLaws.GuardIsFree | src/engine/include/multithreading/ReadWriteLock.hpp:125-136 | at any time in a run the whole guard is true if and only if nobody writes (read); nobody writes in either way (weak); nobody reads or writes strongly (upgrade); nobody reads or writes in either way (write) |
| ReadWriteLockLaws.PastGuard | src/engine/include/multithreading/ReadWriteLock.hpp:85-95 | a thread that has gone through its guard one variable at a time finds all of that true at once |
| ReadWriteLockLaws.Acquired | src/engine/include/multithreading/ReadWriteLock.hpp:42-136 | when a call returns the handle holds what was asked for, and nothing else |
| ReadWriteLockLaws.TimeOutOnlyWhenTaken | src/engine/include/multithreading/ReadWriteLock.hpp:98-106 | only a request that finds the lock taken times out, and its thread then holds nothing |
| ReadWriteLockLaws.WeakWriterToleratesReader | src/engine/include/multithreading/ReadWriteLock.hpp:20-24 | a run of two threads in which a weak writer and a reader hold the lock together |
| ReadWriteLockLaws.UpgradeIsAtomic | src/engine/include/multithreading/ReadWriteLock.hpp:73-83 | from the call of an upgrade to its return no other thread becomes a writer of either sort, not even between the two assignments, and once readers are seen to be gone none gets in |
| ReadWriteLockLaws.CountersAreHolders | src/engine/include/multithreading/ReadWriteLock.hpp:171-186 | the counter of readers and the two flags are those of the true holders; no release makes the counter negative |
| ReadWriteLockLaws.WaitingCounters | src/engine/include/multithreading/ReadWriteLock.hpp:98-110 | a waiting counter is the number of waiting threads if and only if no such request has timed out; otherwise it is too large for ever |
| ReadWriteLockTimeouts.ReadersNotified | src/engine/include/multithreading/ReadWriteLock.hpp:155-165 | a thread that has given up a write lock and then reads the two counters, one after the other at any later times, notifies the readers if and only if nobody waits to write at these times and no such wait has ever timed out |
| ReadWriteLockTimeouts.WritersNotified | src/engine/include/multithreading/ReadWriteLock.hpp:155-165 | it notifies writers if and only if one waits or has timed out when it reads the first counter, and otherwise weak writers if and only if one waits or has timed out when it reads the second one |
| ReadWriteLockTimeouts.TimeoutsStayCounted | src/engine/include/multithreading/ReadWriteLock.hpp:98-150 | a run after which nobody waits and both counters are 1 |
| ReadWriteLockTimeouts.ReaderNotNotified | src/engine/include/multithreading/ReadWriteLock.hpp:155-165 | which goes on to a state in which a reader that nothing holds up is the only waiter, and the released writer notifies writers |
| ReadWriteLockLaws.NoDeadlock | src/engine/include/multithreading/ReadWriteLock.hpp:42-152 | when a thread waits, some holder is not waiting, or the lock is free for some waiter, in terms of who holds it |
| ReadWriteLockLaws.FreeIsGranted | src/engine/include/multithreading/ReadWriteLock.hpp:42-136 | from any state of a run in which a thread waits, the mutex is unlocked and nobody holds what excludes the request, that thread alone can go on until it holds the lock |
| ReadWriteLockLaws.GuardsStayTrue | src/engine/include/multithreading/ReadWriteLock.hpp:76-82 | what a thread has seen inside of the mutex is not undone by the releases that do without the mutex |
| ReadWriteLockLaws.UnlockReleases | src/engine/include/multithreading/WeakWriteLock.hpp:39-49 | unlock releases exactly what the handle holds, reader, weak or strong writer, and a second one, as in the destructor, changes nothing |
| ColumnView.View.Get | src/engine/include/containers/ColumnView.hpp:140-141 | whatever was read before, the outcome at row i is the one promised by the view: value, end or exception; what that is for each sort of view is stated by RowYields and SubIsPick |
| ColumnView.View.GetBin | src/engine/include/containers/ColumnView.hpp:242-258 | value, end or error of a binary operation, with the check of the lengths at the end of either operand |
| ColumnView.View.GetTern | src/engine/include/containers/ColumnView.hpp:472-497 | the same for a ternary operation |
| ColumnView.View.GetSub | src/engine/include/containers/ColumnView.hpp:366-385 | forward, repeated, backward and skipping accesses agree with a search from the first row; the cursor moves, and a row is read from the second copy of the data, only when there is a value |
| ColumnView.View.FindNext | src/engine/include/containers/ColumnView.hpp:320-364 | finds the value after `skip` others from a row on, or the end or error at which the search stops, and looks at every row on the way once |
| ColumnView.View.ReadAny | src/engine/include/containers/ColumnView.hpp:366-385 | any sequence of accesses reads the stateless outcomes |
| ColumnView.ReadMeaning | src/engine/include/containers/ColumnView.hpp:366-385 | any sequence of accesses to the view of an expression reads the stateless meaning of the expression |
| ColumnView.ReadUnary | src/engine/include/containers/ColumnView.hpp:435-448 | accesses in any order to the view of a unary operation read the operator applied to the value of the operand in that row, or its end, or its error |
| ColumnView.ReadBinary | src/engine/include/containers/ColumnView.hpp:242-258 | and those of a binary operation the operator applied to both values in this order; an error exactly when an operand has one, or ends where another one that is not infinite still has a value; building the view throws exactly when two known lengths differ |
| ColumnView.ReadTernary | src/engine/include/containers/ColumnView.hpp:472-497 | the same for a ternary operation |
| ColumnView.View.ReadIncreasing | src/engine/include/containers/ColumnView.hpp:320-385 | at increasing rows the search examines every row of the operands at most once and in order, none behind the one at which the filter stops, including the final miss; exactly the rows of the values are then read from the second copy of the data, so that a row of the indices is read at most once and one of the data at most twice |
| ColumnView.FoundIsMeaning | src/engine/include/containers/ColumnView.hpp:298-390 | what the search finds is what the pure filter of the operands has at that row |
| ColumnView.StopsAtStopRow | src/engine/include/containers/ColumnView.hpp:326-359 | the row at which every search stops is the one at which the filter stops, and at most the number of rows of the data |
| ColumnView.View.FromColumn | src/engine/include/containers/ColumnView.hpp:419-429 | the view of a column stands for it |
| ColumnView.View.FromValue | src/engine/include/containers/ColumnView.hpp:542-548 | the view of a value stands for the constant, without an end |
| ColumnView.View.FromUnOp | src/engine/include/containers/ColumnView.hpp:435-448 | the view stands for the operation on a copy of its operand |
| ColumnView.View.FromBinOp | src/engine/include/containers/ColumnView.hpp:225-294 | throws exactly when both lengths are known and differ; otherwise the view stands for the operation |
| ColumnView.View.FromTernOp | src/engine/include/containers/ColumnView.hpp:454-537 | throws exactly when two of the three lengths are known and differ; otherwise the view stands for the operation |
| ColumnView.View.FromBooleanSubselection | src/engine/include/containers/ColumnView.hpp:299-389 | throws exactly for infinite data or different known lengths; otherwise the view stands for the filter, with its cursor before the first row |
| ColumnView.View.Clone | src/engine/include/containers/ColumnView.hpp:366-368 | a captured view is a copy with the same promise and its own cursor |
| ColumnView.View.CalcNRows | src/engine/include/containers/ColumnView.hpp:203-219 | ends for every view; a known length is returned as it is; infinite exactly for views declared so; a number it returns is the true number of rows, if no error is raised |
| ColumnExpr.RowsSound | src/engine/include/containers/ColumnView.hpp:276-293 | for whole expressions: a known length has values or errors before it and the end or errors from it on, and an infinite view has only values |
| ColumnExpr.EndStays | src/engine/include/containers/ColumnView.hpp:242-258 | after an end there are no more values |
| ColumnExpr.RowsExact | src/engine/include/containers/ColumnView.hpp:203-219 | without errors a known length is the number of rows, and a view has infinitely many rows exactly when it is declared infinite |
| ColumnExpr.BinRows | src/engine/include/containers/ColumnView.hpp:276-291 | a length that is known if that of an operand is, and then the same; infinite if and only if both are |
| ColumnExpr.TernRows | src/engine/include/containers/ColumnView.hpp:514-534 | the same for three operands |
| ColumnExpr.RowYields | src/engine/include/containers/ColumnView.hpp:242-258 | for every view but a subselection the outcome at a row, from the outcomes of its operands there: which value, and the exact conditions for an end and for an error |
| ColumnExpr.UnReads | src/engine/include/containers/ColumnView.hpp:435-448 | a unary operation reads as its operator applied to every value of the operand, with the same end or error behind |
| ColumnExpr.BinReads | src/engine/include/containers/ColumnView.hpp:242-258 | a binary operation on any two views reads as its operator applied row by row, as far as both have values; behind them is the end if all operands that are not infinite end in the same row, and an error otherwise |
| ColumnExpr.TernReads | src/engine/include/containers/ColumnView.hpp:472-497 | the same for a ternary operation on any three views |
| ColumnExpr.SubIsPick | src/engine/include/containers/ColumnView.hpp:299-389 | a subselection of any two views is the filter of their common rows, followed by the end if both end in the same row (or the indices never do), and by the error if not, or if one of them raises an error |
| ColumnExpr.SubOfInfinite | src/engine/include/containers/ColumnView.hpp:340-350 | infinite indices select from all of the data, and the end or error behind the data is handed on |
| ColumnExpr.SubOfSub | src/engine/include/containers/ColumnView.hpp:299-389 | a subselection of a subselection, for any three views, is the filter by the composed flags, followed by the end if and only if the rows match in both of them, and by the error otherwise |
| ColumnExpr.SubOfSubIsSub | src/engine/include/containers/ColumnView.hpp:299-389 | it cannot be told apart from one subselection by a column of the composed flags exactly unless that one ends where one of the two raises an error; if all rows match, the one can be built and is the same |
| ColumnView.Iterator.Increment | src/engine/include/containers/ColumnViewIterator.hpp:76-82 | the iterator stays at the outcome of its row, on its own copy of the view |
| ColumnView.Collect | src/engine/include/containers/ColumnViewIterator.hpp:92-96 | iterating yields the values in order, up to the first end or error |
| ColumnView.CollectFirst | src/engine/include/containers/ColumnViewIterator.hpp:75-96 | a loop that is left after n values has the first n values of any view, of an infinite one always all n |
| ColumnView.CollectReading | src/engine/include/containers/ColumnViewIterator.hpp:75-96 | iterating over a view that is not infinite yields all of its values and the end or error behind them |
| ColumnView.CollectSubselection | src/engine/include/containers/ColumnViewIterator.hpp:75-96 | iterating over a subselection yields the values of the data whose flag is true, and then the end or the error |
| CSRMatrix.CSR.constructor | src/engine/include/predictors/CSRMatrix.hpp:32 | an empty matrix without columns |
| CSRMatrix.CSR.FromFloats | src/engine/include/predictors/CSRMatrix.hpp:146-169 | the matrix of one numerical column |
| CSRMatrix.CSR.FromInts | src/engine/include/predictors/CSRMatrix.hpp:174-191 | the matrix of one categorical column, with an empty row for null |
| CSRMatrix.CSR.AddFloats | src/engine/include/predictors/CSRMatrix.hpp:196-212 | every row gets the value of the new column behind its entries, and a matrix without columns is replaced; indptr still ends at the number of stored elements if and only if it did so before and the column is not longer than the matrix; a shorter column throws and changes nothing |
| CSRMatrix.AddTooLong | src/engine/include/predictors/CSRMatrix.hpp:196-212 | a column that is longer, which nothing checks, leaves elements that belong to no row |
| CSRMatrix.CSR.AddInts | src/engine/include/predictors/CSRMatrix.hpp:217-246 | every row gets the shifted code behind its entries, and nothing for null; a column of another length throws and changes nothing |
| CSRMatrix.CSR.ExtendAll | src/engine/include/predictors/CSRMatrix.hpp:253-264 | the loop that copies rows behind a running offset leaves every row in place with its new element |
| CSRMatrix.CSR.ExtendSome | src/engine/include/predictors/CSRMatrix.hpp:288-308 | the same where only some rows get an element |
| CSRMatrix.CSR.UpdateDataFromFloat | src/engine/include/predictors/CSRMatrix.hpp:252-264 | the values after room was made for a numerical column |
| CSRMatrix.CSR.UpdateIndicesFromFloat | src/engine/include/predictors/CSRMatrix.hpp:270-282 | the column numbers after room was made for a numerical column |
| CSRMatrix.CSR.UpdateDataFromInt | src/engine/include/predictors/CSRMatrix.hpp:288-308 | the values after room was made for a categorical column |
| CSRMatrix.CSR.UpdateIndicesFromInt | src/engine/include/predictors/CSRMatrix.hpp:314-336 | the column numbers after room was made for a categorical column |
| CSRMatrix.CSR.UpdateIndptrFromInt | src/engine/include/predictors/CSRMatrix.hpp:341-357 | every pointer moves by the number of codes that are not null before it |
| CSRMatrix.DenseAppends | src/engine/include/predictors/CSRMatrix.hpp:196-246 | a row with the entries of a column behind it reads as the dense row with the value or the one-hot block on its right, and stays ordered |
| CSRMatrix.AddAllIsConcatenation | src/engine/include/predictors/CSRMatrix.hpp:196-246 | any mix of columns added to an empty matrix reads as their horizontal concatenation, with strictly increasing column numbers below ncols |
| CSRMatrix.StoredEntries | src/engine/include/predictors/CSRMatrix.hpp:196-246 | a row stores one entry for each column that is numerical or not null in it, and none for a null |
| CSRMatrix.OrderedExactly | src/engine/include/predictors/CSRMatrix.hpp:229-243 | the order of the column numbers is kept exactly by columns whose codes are below n_unique |
| CSRMatrix.Build | src/engine/include/predictors/CSRMatrix.hpp:196-246 | the arrays on the heap after any mix of columns hold that matrix |
| ColumnIndex.Index.Calculate | src/engine/include/containers/Index.hpp:112-126 | indexes the rows from the watermark on, or all rows of a column that has become shorter, in memory and memory-mapped alike |
| ColumnIndex.Index.Find | src/engine/include/containers/Index.hpp:131-165 | both variants give the list of a key, or nothing |
| ColumnIndex.Index.Insert | src/engine/include/containers/Index.hpp:170-179 | appends the row to the list of the key in either variant |
| ColumnIndex.CalculateExactly | src/engine/include/containers/Index.hpp:112-126 | an exact index is exact afterwards if and only if the column has become shorter than the watermark or still agrees with the indexed rows up to it |
| ColumnIndex.HistoryExact | src/engine/include/containers/Index.hpp:112-126 | along any history of appending and shrinking below the watermark every key has the full ascending list of its non-null rows |
| ColumnIndex.CalculateAll | src/engine/include/containers/Index.hpp:92-126 | the index object after any series of columns holds what the series determines |
| ColumnIndex.HistoryFinds | src/engine/include/containers/Index.hpp:131-165 | along such a history find gives the exact rows, or nothing for a key without rows |
| ColumnIndex.FindInMemory | src/engine/include/containers/Index.hpp:94-98 | after any series of columns the variant in memory finds what the columns determine |
| ColumnIndex.FindMapped | src/engine/include/containers/Index.hpp:100-103 | and so does the memory-mapped variant, so the two agree on every key |
| ColumnIndex.RowsWithHolds | src/engine/include/containers/Index.hpp:184-198 | a list holds exactly the rows with that key that are not null |
| ColumnIndex.RowsWithAscending | src/engine/include/containers/Index.hpp:119-123 | lists are strictly ascending |
| Matchmaker.MakeMatches | src/engine/include/helpers/Matchmaker.hpp:68-87 | the join through the index is the nested loop over all pairs of rows; without its functions: it is made of the pairs in strictly ascending order, by output and then by input row, in which exactly those pairs occur whose keys are equal and not null, whose times are both there with that of the input not later, whose upper time is absent, null or later than that of the output, and whose weight is absent, null or positive |
| Matchmaker.MatchAfter | src/engine/include/helpers/Matchmaker.hpp:68-87 | calculate and join together: after any history of appending to the join keys and shrinking them, the join through the index is made of exactly these pairs of the rows of the last column, in the same order |
| Matchmaker.MatchInMemory | src/engine/include/helpers/Matchmaker.hpp:68-87 | the same from a new index in memory |
| Matchmaker.MatchMapped | src/engine/include/helpers/Matchmaker.hpp:68-87 | the same from a new memory-mapped index, so both variants give the same matches |
| Matchmaker.MakeMatchesFor | src/engine/include/helpers/Matchmaker.hpp:92-109 | one output row: all matching input rows in ascending order behind the matches so far |
| Matchmaker.LinearMethod | src/engine/include/helpers/Matchmaker.hpp:115-137 | of the rows of the key those in range, where a null lower or output time never matches and a null upper time never excludes |
| Matchmaker.RowsOfKeySuffice | src/engine/include/helpers/Matchmaker.hpp:115-137 | going through the rows of the key is going through all rows |
| Matchmaker.OuterLoopJoins | src/engine/include/helpers/Matchmaker.hpp:115-137 | the nested loop is made of the matching pairs, in terms of keys, times and weights alone |
| Codec.Send | src/engine/include/communication/Sender.hpp:56-127 | the wire gets the bytes in network order, or a prefix of them exactly when the socket fails; the chunks of 4096 bytes do not show |
| Codec.LenIsWhole | src/engine/include/communication/Sender.hpp:58-64 | a chunk is a number of whole elements |
| Codec.ChunkConverted | src/engine/include/communication/Sender.hpp:98-106 | converting chunk by chunk is converting the whole |
| Codec.Drain | src/engine/include/communication/Sender.hpp:111-121 | the whole buffer is sent in pieces of any size, and it gives up exactly when the socket fails; what was sent until then is a prefix |
| Codec.FillBuffer | src/engine/include/communication/Receiver.hpp:74-86 | the buffer is filled from pieces of any size, and it gives up exactly when the socket fails |
| Codec.Recv | src/engine/include/communication/Receiver.hpp:47-114 | the memory gets the bytes at the front of the wire in the order of the host, and nothing behind them changes; it gives up exactly when the socket fails, and the memory then has a prefix of the wire, not converted |
| Codec.ReverseByteOrder | src/engine/include/helpers/Endianness.hpp:24-28 | the bytes of one element are reversed in place |
| Codec.ReverseAll | src/engine/include/communication/Receiver.hpp:108-110 | every whole element is reversed in place; what is left over behind the last one stays |
| Codec.WireIsBigEndian | src/engine/include/communication/Sender.hpp:88-91 | the wire holds the big-endian encodings whatever the host of the sender, and every host reads its own layout from it |
| Codec.NumberOfBigEndian | src/engine/include/communication/Sender.hpp:90-91 | the encoding determines the number |
| Codec.BigEndianAt | src/engine/include/communication/Sender.hpp:90-91 | the k-th byte of the encoding of v in w bytes is v / 256^(w - 1 - k) mod 256 |
| Codec.InMemoryPush | src/engine/include/communication/Sender.hpp:79-86 | numbers lie in memory one behind the other, each in the byte order of the host |
| Codec.ConvertedTwice | src/engine/include/communication/Receiver.hpp:106-111 | between hosts of one kind the bytes come back for every length |
| Codec.Transfer | src/engine/include/communication/Sender.hpp:56-127 | what one host sends another one receives, for any byte order on either side and any fragmentation, unless the socket fails |
| Trend.TrendFits | src/engine/include/helpers/Aggregations.hpp:619-671 | null if there is nothing to fit or a time is null; otherwise the value at 0 of a line with the least sum of squared residuals among all lines, and the only admissible one: the only value at 0 of such a line or, when all times are equal, the mean |
| Trend.EwmaTrendFits | src/engine/include/helpers/Aggregations.hpp:212-278 | the same for the weighted sum and the weighted mean, for any positive weights |
| Trend.TrendOfEqualTimes | src/engine/include/helpers/Aggregations.hpp:652-654 | when all times are equal, as in a group of one row, the result times the number of pairs is the sum of the second elements |
| Trend.EwmaTrendOfEqualTimes | src/engine/include/helpers/Aggregations.hpp:261-263 | the weighted trend is then the same, whatever the weights |
| Trend.SlopeIsBest | src/engine/include/helpers/Aggregations.hpp:258-277 | the line through the weighted means with slope xy / xx, or 0 without spread, satisfies the normal equations and is best |
| Trend.BestIsUnique | src/engine/include/helpers/Aggregations.hpp:649-670 | if two times differ, no other line is as good |
| Trend.SquaresOfOther | src/engine/include/helpers/Aggregations.hpp:656-670 | how much worse any other line is |
| Trend.NotNullExactly | src/engine/include/helpers/Aggregations.hpp:620-622 | the pairs with a non-null second element take part, each as often as it occurs |

## Left out

- Memmap.Pool.Allocate: does not model how free blocks are found, files, remapping or disk space, because that code is in other source files; which page and how much capacity a request gets is left open, and blocks hold typed cells instead of raw bytes.
- Memmap.Pool.NewVector: does not model that the capacity is a page divided by the size of an element; any capacity of at least one element is allowed.
- BTree.BTree.Insert: does not model key types other than a total order (keys are integers) or values other than handles of row lists, which is what the index stores.
- BTree.BTree.Values: does not model that the vector of the results is itself memory-mapped in a pool of its own; it is a sequence. `keys()` is the same traversal.
- Move constructors and move assignments of trees, vectors and indices, except for the assignment in `Index::clear`.
- Barrier.StepInv: does not model memory order or fairness; steps are sequentially consistent, and spinning is waiting for the step that leaves the loop.
- ReducerInvariant.StepInv: does not model the early return for a single thread, and assumes that all threads bring vectors of one length to a round, without which the source reads out of bounds.
- ReadWriteLockLaws.NoDeadlock: does not model which thread a condition variable wakes; it is about guards. Timeouts are modelled as a possible step of every timed waiter.
- ReadWriteLockLaws.UnlockReleases: does not split the two releases of a weak handle into two steps, because the flags allow only one of them.
- ColumnView.View.Get: does not model views of different element types; one type of values with a boolean reading stands for all instances of the template, and operators are total functions.
- ColumnView.Collect: does not model iterating over an infinite view to its end, which it does not have; CollectFirst is about any number of turns.
- Numerical subselections, which declare an unknown length also for infinite operands, and the conversions of views to arrays and vectors.
- CSRMatrix.CSR.AddFloats: does not model builds in which assertions are switched off, where a shorter column is read beyond its end; the same goes for AddInts.
- CSRMatrix.CSR.AddInts: does not model integer types narrower than the natural numbers or the conversion of values to another floating-point type.
- ColumnIndex.Index.Calculate: does not model hashing; the map in memory is a mathematical map, and `is_null` is a parameter.
- Matchmaker.MakeMatchesFor: does not model the branch that searches by an index on time stamps, which is in another source file; the tables here have no such index.
- Codec.Send: does not model how long a socket blocks; it takes or gives any number of bytes, or fails.
- Trend.TrendFits: does not model rounding, infinities or underflow of weights; numbers are exact reals, and the exponential is an unknown positive weight.
- ReducerLaws.SumOfInputs: does not model the rounding of floating-point additions, whose result depends on the order of the threads; the elements are exact reals here.
- ReadWriteLockTimeouts.WritersNotified: does not model whom read_unlock notifies; it reads the same two counters and has nobody else to notify.
- Wrap-around of 64-bit counters, generations and sizes, except in `size()`: they are natural numbers.
