# PACER: verified models of the concurrent dictionary and its reclaimers

The repository pairs a lock-free relaxed (a,b)-tree with a memory reclaimer that
adapts how fast it frees nodes to the mix of writes and snapshots. This project
models, in Dafny, the four parts whose correctness is not visible in any single
function, and one composition of two of them.

**The tree** (`Ab*.dfy`). A node is a value with an address that is never reused.
Every update and every rebalancing step is one pointer swing at the end of a path:
the node there is replaced by a freshly built subtree, and the addresses it unlinks
are handed to the reclaimer. `AbSystem` is the transition system of these swings,
taken by any number of threads. A relaxed tree may have nodes of weight 0 (weight
violations) and nodes with fewer than a entries (degree violations). `AbRebalance`
shows that repairs terminate, are always possible while there is a violation, and
end in a strict (a,b)-tree; `AbSizes` puts the degree bounds and the outcome of each step in plain
numbers; `AbRuns` is about whole runs and about searches that
read one pointer at a time while the tree changes under them. `AbMarks`, `AbHandOver`
and `AbCallsEnd` give each thread the fix-up calls it has still to make, interleaved with
those of all others: who is in charge of each violation, that the calls come to an end,
and when the tree is strict after them; `AbLost` is a run after which it is not.
`AbFinal` says which removed nodes are finalized. `AbBuild` is the array code that fills
new nodes, index for index; `AbTree` is the object as one thread runs it, with the
recursive fix-ups that follow each update.

**The token-ring reclaimer** (`Ring*.dfy`). N threads pass one token. Every access to
shared memory is a step, so a thread may be interrupted between clearing its token,
setting the next one, and rotating its bags. A retired node is named by the logical
time at which it was retired. `RingSystem` and `RingProofs` hold the protocol,
`RingDrain` counts frees, `RingWindows` says how the mode follows from what a thread
calls, `RingReclaimer` is the object whose methods are sequences
of these steps.

**Tree and reclaimer together** (`SafeReads.dfy`). A run of the tree and a run of the
ring interleaved, with retirement as their only link.

**The Rust core** (`Scc*.dfy`, `Pin*.dfy`, `LimboBags.dfy`, `PacerModes.dfy`,
`PacerController.dfy`, `PacerDrains.dfy`, `PacerObjects.dfy`). The snapshot coordinator as atomic loads,
stores and compare-exchanges; the epoch clock with the announcement table, its
slot-by-slot scan and the limbo bags; and the controller of one thread, first as
functions, then as the objects whose loops and field updates compute them. The mode
selection and the moving average are shared with the C++ reclaimer.

**The latency histogram** (`Histogram.dfy`, `Percentiles.dfy`, `Instrument.dfy`). The
quantiser, its inverse, the recording object, the merge of all threads' reports, and
the percentile that is read off the result.

Assumptions. Memory is sequentially consistent. An SCX is one atomic swing whose
guard is that the nodes it was prepared with are unchanged; nodes marked finalized
are unlinked. DEGREE is at least 3, a = max(DEGREE/4, 2) and b = DEGREE. Keys and
values are integers under the usual order. Epoch, generation and counters are
unbounded naturals, averages and thresholds are exact reals. `blockbag.h` is not part
of this model; of `appendMoveFullBlocks` only what its caller's comment says is
assumed: it moves the full blocks and leaves the partly filled head block. Which
node `remove` returns is left open in the protocol. Each write's snapshot scan and
the caller's clock are parameters.

Where code and comments disagree, the code is followed; where a comment is right under a
condition, that condition is proved:

- `cpp/brown_ext_abtree_lf_impl.h:9-22` promises that every violation is fixed or handed on. It
  is, except at the early return of line 1006: a node met alone under its parent is abandoned, and the
  repair of the parent does not look at it again. `AbHandOver.EveryViolationInCharge` says that
  nothing else is ever lost, `AbHandOver.HandedOver` that the tree left by all calls is strict if and
  only if no abandoned node is still in it and still too small, and `AbLost.LeftToNobody` is a run of
  two threads that ends with such a node. With one violation in the tree, as after any
  single-threaded update, the return is not taken.
- Line 753 of the same file says nodes are finalized precisely when they are removed. That holds of
  internal nodes and of no leaf: a removed node is finalized if and only if it is internal
  (`AbFinal.RunFinals`, in every state of every run). The first insertion removes a leaf without finalizing it
  (`AbFinal.LeafNotFinalized`).
- Line 1024 there says `p->size >= a >= 2`. `AbParent.ParentSize`: it holds at every degree repair of every
  run if and only if DEGREE is less than 12, so that a is 2; from 12 on, the root may have two
  children. What holds always, and is enough, is that p has at least two children.
- Line 1043 there says both siblings have weight 0 where weight 1 is meant.
- `pacer/reclaimer_pacer.h:6-10` describes an extra drain at rotation; the code has none.
- "Retired before the latest startOp of every thread" holds if a startOp counts from the moment
  it reads the token (`RingProofs.GracePeriod`). Counted from its call, it fails for exactly those released
  nodes that were retired between that call and the reading (`RingCall.CallTime`), and there are runs,
  with blocks of any size, that have them (`RingCall.CallTimeIsTooEarly`).
- A registration that finds the announcement table full fails only after it has counted itself
  (`src/lib.rs:90-93`), so later scans index past the slots. `PinTable.DiesIff`: at every moment of every
  run no thread has failed, in a registration or in a scan, if and only if no more threads have
  registered than there are slots. A scan can end if and only if that was so when it began
  (`PinTable.ScanFate`); `PinTable.FullTable` is a run, for a table of any size, in which a
  registration fails and then the scan of another thread.
- The comment at `src/lib.rs:47-57` bounds recovery by writes, not windows, as the code does.

## Model

| member | source | states |
|---|---|---|
| AbTree.GetChildIndex | cpp/brown_ext_abtree_lf_impl.h:103-110 | the loop returns the child index function, for which ChildIndexUnique shows: all keys before it are at most the key, the key there is larger |
| AbTree.GetKeyIndex | cpp/brown_ext_abtree_lf_impl.h:112-119 | the loop returns the first position whose key is not smaller |
| AbNodes.ChildIndexUnique | cpp/brown_ext_abtree_lf_impl.h:103-110 | in sorted keys the child index is determined by its two neighbours |
| AbBuild.BuildReplace | cpp/brown_ext_abtree_lf_impl.h:535-547 | the copied leaf differs in the one value |
| AbBuild.BuildInsert | cpp/brown_ext_abtree_lf_impl.h:571-588 | the two-part copies around the gap produce the leaf with the pair inserted in order |
| AbBuild.BuildOverflow | cpp/brown_ext_abtree_lf_impl.h:597-651 | the DEGREE + 1 entries end up in two halves under a parent of weight 0, or 1 at the top; no slot outside the arrays is written |
| AbBuild.BuildErase | cpp/brown_ext_abtree_lf_impl.h:700-721 | the leaf without the key and its value |
| AbBuild.BuildAbsorb | cpp/brown_ext_abtree_lf_impl.h:817-836 | the parent with the pointer to its weight-0 child replaced by that child's keys and pointers |
| AbBuild.BuildSplit | cpp/brown_ext_abtree_lf_impl.h:851-908 | the merged arrays cut in two at half their size, the key between moved up |
| AbBuild.BuildAbsorbSibling | cpp/brown_ext_abtree_lf_impl.h:1058-1132 | for either side the sibling is on: the two nodes joined in key order, and the parent without the key and pointer between them |
| AbBuild.BuildDistribute | cpp/brown_ext_abtree_lf_impl.h:1149-1239 | for either side: the entries of both nodes, with the key between, shared out again, and the new separating key in the parent |
| AbOrderProofs.SiblingsAlike | cpp/brown_ext_abtree_lf_impl.h:1020-1022 | children of weight 1 of one node are both leaves or both internal |
| AbOrderProofs.WeightGuard | cpp/brown_ext_abtree_lf_impl.h:784-815 | the checks of the code suffice for Absorb or Split: the weight-0 node is internal with two children |
| AbOrderProofs.DegreeGuard | cpp/brown_ext_abtree_lf_impl.h:989-1024 | the checks of the code suffice for AbsorbSibling or Distribute |
| AbSizes.StrictSizes | cpp/brown_ext_abtree_lf_impl.h:207-210 | a tree is strict if and only if every node below its root has weight 1 and a number s of entries with s >= 2 and 4 * (s + 1) > DEGREE |
| AbSizes.DegreeEnabled | cpp/brown_ext_abtree_lf_impl.h:931-1024 | in a relaxed tree a degree repair is possible exactly at a node of weight 1 with s entries where s < 2 or 4 * (s + 1) <= DEGREE, under a parent of weight 1 with another child, the sibling having weight 1 |
| AbSizes.WeightEnabled | cpp/brown_ext_abtree_lf_impl.h:784-815 | and a weight repair exactly at a child of weight 0 of a parent of weight 1 |
| AbSizes.DegreeSizes | cpp/brown_ext_abtree_lf_impl.h:1035-1239 | node and sibling are joined exactly when together they have fewer than 4 entries, or so few that 4 * (sum/2 + 1) <= DEGREE; otherwise they share it evenly; the other children stay; a root left with one child is replaced by it |
| AbSizes.WeightSizes | cpp/brown_ext_abtree_lf_impl.h:817-908 | a child of weight 0 is absorbed while the parent has fewer than DEGREE children; otherwise two nodes share the entries evenly under a new parent, of weight 1 exactly at the root |
| AbSizes.PutSizes | cpp/brown_ext_abtree_lf_impl.h:533-651 | a present key leaves the size, a new one adds an entry, and a full leaf becomes two that share DEGREE + 1 entries evenly |
| AbSystem.InitialInv | cpp/brown_ext_abtree_lf_impl.h:205-237 | the empty tree satisfies the invariant and maps no key |
| AbSystem.StepInv | cpp/brown_ext_abtree_lf_impl.h:492-1255 | every update and rebalancing step of any thread keeps order, key ranges, equal path weights, degree at most b, root weight 1, weight-0 nodes of degree 2, and each address in exactly one place |
| AbRuns.RelaxedBalance | cpp/brown_ext_abtree_lf_impl.h:492-1255 | in every state of every run: all leaves at the same path weight, the root of weight 1, at most b entries a node, weight-0 nodes internal with two children |
| AbSystem.StepLookup | cpp/brown_ext_abtree_lf_impl.h:519-734 | a step changes the dictionary as the map update of its key, and rebalancing steps not at all, for every key |
| AbSystem.StepRetires | cpp/brown_ext_abtree_lf_impl.h:549-551 | the addresses retired by a step are exactly those linked before and not after; those newly linked are exactly the new ones |
| AbRuns.GoneForGood | cpp/brown_ext_abtree_lf_impl.h:837-841 | over a run, an unlinked address has been retired exactly once and is never linked again |
| AbRuns.NeverRoot | cpp/brown_ext_abtree_lf_impl.h:974 | over any stretch of a run a linked node that is not the root never becomes the root, so the node of a degree repair has a parent and a grandparent pointer |
| AbPaths.Locatable | cpp/brown_ext_abtree_lf_impl.h:761-778 | following the child index of a linked node's own search key from the root reaches that node |
| AbSystem.StepStable | cpp/brown_ext_abtree_lf_impl.h:765-778 | the searches that reach a node before a step reach it, with the same record, after it, if it is still linked |
| AbRuns.StaysInPlace | cpp/brown_ext_abtree_lf_impl.h:765-778 | the same over any stretch of a run |
| AbRuns.Visited | cpp/brown_ext_abtree_lf_impl.h:461-478 | each node that a search visits, reading one pointer at a time amid concurrent steps, was on the search path of its key at some moment since the search began |
| AbRuns.SearchGoesOn | cpp/brown_ext_abtree_lf_impl.h:461-478 | a search never gets stuck: at any moment of any run it can follow a pointer of the node it holds, even if that is unlinked, or the node is a leaf |
| AbRuns.FindLinearizes | cpp/brown_ext_abtree_lf_impl.h:461-478 | find is linearizable: its answer is that of the dictionary at some moment between its first and last read |
| AbRuns.UpdateHitsLeaf | cpp/brown_ext_abtree_lf_impl.h:500-547 | if the visited parent is still linked, the leaf it points to is the leaf of the key now, so the SCX guard of updates is enough |
| AbRuns.UpdateLinearizes | cpp/brown_ext_abtree_lf_impl.h:500-549 | insert and erase are linearizable: one that changes nothing answers as the dictionary at some moment of its search, and one that succeeds replaces the leaf of the key, so the old value it returns is the dictionary's at the SCX |
| AbRuns.MissedMeansUnlinked | cpp/brown_ext_abtree_lf_impl.h:780-784 | a fix-up whose search ends at a leaf without meeting its node knows that the node is unlinked |
| AbRebalance.StepLower | cpp/brown_ext_abtree_lf_impl.h:811-1255 | every repair lowers a measure: weight-0 nodes, their distance to the root, nodes, small nodes |
| AbRebalance.NoEndlessRepair | cpp/brown_ext_abtree_lf_impl.h:745-1255 | no schedule of repairs is infinite |
| AbRebalance.RepairEnabled | cpp/brown_ext_abtree_lf_impl.h:989-1024 | while there is a violation, some repair can be applied |
| AbRebalance.Converges | cpp/brown_ext_abtree_lf_impl.h:811-1255 | from every relaxed tree a strict tree with the same dictionary can be reached by repairs alone |
| AbRebalance.StepViolations | cpp/brown_ext_abtree_lf_impl.h:843-922 | a repair removes at least one violation and leaves at most one more, at the node it put in place, none at the root |
| AbMarks.StepMarks | cpp/brown_ext_abtree_lf_impl.h:12-15 | after any step a violation is an old one, or at the new node, or at the joined sibling; older nodes do not change |
| AbHandOver.CallsCover | cpp/brown_ext_abtree_lf_impl.h:846-916 | the recursive calls made after each kind of SCX name every new node that can have a violation, and no other node |
| AbHandOver.StepHand | cpp/brown_ext_abtree_lf_impl.h:551-1247 | every update, repair, return, helping call and early return of any thread keeps each violation in some thread's charge, or abandons it at the early return alone |
| AbHandOver.EveryViolationInCharge | cpp/brown_ext_abtree_lf_impl.h:9-22 | in every state of every run of any number of threads, a node of weight 0 is the subject of a call still to be made, and so is a too small node below the root, unless it was abandoned |
| AbHandOver.HandedOver | cpp/brown_ext_abtree_lf_impl.h:9-22 | when no call is left to make, the tree is strict if and only if no abandoned node is still linked and too small; so always when none was abandoned |
| AbHandOver.AbandonedAlone | cpp/brown_ext_abtree_lf_impl.h:1005-1009 | in every run, a node is abandoned only if at some moment it had weight 1, too few entries, and was the only child of its parent |
| AbHandOver.HelpsFirst | cpp/brown_ext_abtree_lf_impl.h:989-1016 | each weight violation met at the parent, the node or the sibling becomes a call of this thread that comes before what it had still to do, also at the early return |
| AbHandOver.NeverStuck | cpp/brown_ext_abtree_lf_impl.h:745-1255 | a thread with a call to make can always take its next step: return, repair, help first, or give up |
| AbCallsEnd.NoEndlessCalls | cpp/brown_ext_abtree_lf_impl.h:745-1255 | when no thread starts another update, the calls of all threads, with those they make in turn, end under every schedule |
| AbCallsEnd.StopsQuiet | cpp/brown_ext_abtree_lf_impl.h:745-1255 | they stop just when every call has returned |
| AbCallsEnd.CallsLeave | cpp/brown_ext_abtree_lf_impl.h:9-22 | whatever the schedule of the calls, when it stops every call has returned, the dictionary is unchanged, and the tree is strict if and only if no abandoned node is left in it |
| AbLost.LeftToNobody | cpp/brown_ext_abtree_lf_impl.h:1005-1009 | a run of two threads with DEGREE 3, eight insertions and three deletions, ends with no call to make and a leaf that is too small |
| AbFinal.FinalizesInner | cpp/brown_ext_abtree_lf_impl.h:811-815 | of the nodes an SCX removes it finalizes exactly the internal ones |
| AbFinal.RunFinals | cpp/brown_ext_abtree_lf_impl.h:751-757 | in every state of every run, for any number of threads: what was a leaf is not finalized, what was an internal node is finalized if and only if it is no longer in the tree, and nothing else is |
| AbFinal.LeafNotFinalized | cpp/brown_ext_abtree_lf_impl.h:535-551 | the first insertion removes the leaf it replaces and finalizes nothing |
| AbParent.ParentSize | cpp/brown_ext_abtree_lf_impl.h:1024 | the parent has at least a children at every degree repair of every run if and only if DEGREE is less than 12 |
| AbHeight.GetHeight | cpp/brown_ext_abtree_lf_impl.h:317-329 | the recursion over all children computes the height |
| AbHeight.HeightIsLongest | cpp/brown_ext_abtree_lf_impl.h:317-329 | the height is the number of edges of a longest path, which ends in a leaf |
| AbHeight.StrictShape | cpp/brown_ext_abtree_lf_impl.h:209-210 | in a strict tree all leaves are at depth getHeight, and height h >= 1 means at least 2 * q^h keys with a value, for q = 2 and every q <= DEGREE/4 |
| AbTree.Tree.Find | cpp/brown_ext_abtree_lf_impl.h:461-478 | the value stored for the key, or NO_VALUE and false |
| AbTree.Tree.DoInsert | cpp/brown_ext_abtree_lf_impl.h:492-665 | the dictionary gains the pair (or keeps the old one when not replacing), the old value is returned, and a strict tree is strict again when the fix-ups return, which they do |
| AbTree.Tree.Erase | cpp/brown_ext_abtree_lf_impl.h:668-734 | the dictionary loses the key, the old value is returned, and a strict tree is strict again, in the sense of AbSizes.StrictSizes |
| AbTree.Tree.FixWeightViolation | cpp/brown_ext_abtree_lf_impl.h:745-924 | terminates from every relaxed tree, changes it by repairs only, leaves the node unlinked or without weight violation, and a lone violation nowhere |
| AbTree.Tree.FixDegreeViolation | cpp/brown_ext_abtree_lf_impl.h:927-1255 | terminates from every relaxed tree, changes it by repairs only, repairs a lone violation, and leaves the node unlinked, or no violation, or linked as the only child of its parent in the resulting tree |
| AbTree.Tree.FixWeightsAround | cpp/brown_ext_abtree_lf_impl.h:989-1016 | weight violations at p, l or s are fixed first; if any was found the tree has changed; it gives up just when p has one child, and if it had found one then, l is unlinked |
| PacerModes.ResampledBounds | pacer/reclaimer_pacer.h:169-176 | a window keeps the average in [0, 1), lowers it by at most 15 percent, closes less than 15 percent of its distance to 1, and moves it by exactly 0.15 of the share of its snapshots |
| PacerModes.EmaInRange | src/lib.rs:361-373 | the average stays in [0, 1) over any windows |
| PacerModes.DeadBands | src/lib.rs:182-219 | more than 0.05 away from 0.30 and 0.60 the mode is the stateless one whatever it was; nearer, AggressiveEbr and ConservativeHold are kept and not entered |
| PacerModes.SnapsHold | pacer/reclaimer_pacer.h:169-186 | eleven windows with at least four times as many snapshots as writes, and four more, lead to ConservativeHold from any mode and average |
| PacerModes.WritesRelease | pacer/reclaimer_pacer.h:169-186 | nine windows of writes alone lead to AggressiveEbr |
| PacerModes.AggressiveStaysAway | src/lib.rs:200-219 | AggressiveEbr, once left, is not entered again within three windows |
| PacerModes.HoldLasts | src/lib.rs:200-219 | ConservativeHold lasts two windows at least |
| PacerModes.HoldStaysAway | src/lib.rs:200-219 | ConservativeHold, once left, is not entered again within two windows |
| PacerModes.NoFlapping | pacer/reclaimer_pacer.h:42-62 | whatever the workload, two departures from AggressiveEbr, or two arrivals at it, are four windows apart, and likewise for ConservativeHold |
| PacerModes.FourIsEnough | pacer/reclaimer_pacer.h:42-62 | at the lower threshold four windows do occur, between departures and between arrivals, so the bound is exact |
| PacerModes.FourIsEnoughAbove | pacer/reclaimer_pacer.h:42-62 | and at the upper threshold, for arrivals and departures |
| PacerModes.SelectTwice | pacer/reclaimer_pacer.h:185-186 | selecting the mode again with the same average changes nothing |
| RingDrain.NoFlappingInRun | pacer/reclaimer_pacer.h:153-186 | in every interleaving of the ring a thread rotates its bags at least four times between two such changes of its mode, although the mode is selected on every startOp |
| RingWindows.CountsSince | pacer/reclaimer_pacer.h:158-174 | in every run win_snaps and win_writes are the numbers of the thread's read-only and other startOps since its latest rotation |
| RingWindows.ReadsHold | pacer/reclaimer_pacer.h:153-186 | in every interleaving a thread that in each of eleven rotations counted at least four times as many read-only startOps as others, and four more, is in ConservativeHold |
| RingWindows.WritesFree | pacer/reclaimer_pacer.h:153-186 | and one that counted none in nine rotations is in AggressiveEbr |
| RingWindows.BlockReleased | pacer/reclaimer_pacer.h:127-135 | what is in full blocks of curr at one rotation is in the free bag after the next, and the partly filled block is curr again |
| PacerController.NoFlappingInRun | src/lib.rs:446-463 | at least 4 * 256 writes of a thread lie between two such changes, whatever its operations and scans |
| RingProofs.StepInv | pacer/reclaimer_pacer.h:127-216 | every atomic step of every thread keeps the ring invariant |
| RingProofs.LastIsQuiet | pacer/reclaimer_pacer.h:118-126 | when a thread receives the token, all nodes in its last bag were retired before the current operation of every thread began |
| RingProofs.OneToken | pacer/reclaimer_pacer.h:164-166 | for every N and every interleaving there is exactly one token, counting one between two threads |
| RingProofs.GracePeriod | pacer/reclaimer_pacer.h:118-135 | every freed node, and every node in a deamortized bag, was retired before the latest startOp of every thread, so no operation in progress holds it |
| RingProofs.RotatedHeld | pacer/reclaimer_pacer.h:127-135 | rotation keeps every node of the three bags, also those of the partly filled block |
| RingProofs.Conservation | pacer/reclaimer_pacer.h:127-216 | over every run each retired node is in exactly one bag or in the pool, and the pool only grows |
| RingCall.CallTime | pacer/reclaimer_pacer.h:153-164 | in every run, a released node was retired after the call of a thread's latest startOp if and only if it was retired between that call and the reading of the token |
| RingCall.CallTimeIsTooEarly | pacer/reclaimer_pacer.h:153-166 | for blocks of any size, a run of two threads in which a whole block is ready to be freed although it was retired after the other thread called the startOp it is still in |
| RingDrain.HoldTicks | pacer/reclaimer_pacer.h:185-203 | hold_ticks stays in 0..7, and is 0 outside ConservativeHold |
| RingDrain.Amortised | pacer/reclaimer_pacer.h:185-208 | over m startOps of a thread whose bag never runs dry at least m - 7 * (e + 1) nodes are freed, with e exits from ConservativeHold |
| RingDrain.FreedLeave | pacer/reclaimer_pacer.h:196-207 | as multisets of nodes: what the free bag held and what rotations brought is what it holds and what was freed; the freed nodes are in the pool, and their number is what is counted |
| RingReclaimer.ThreadData.RotateEpochBags | pacer/reclaimer_pacer.h:127-135 | the full blocks of last may be freed, curr becomes last, the head block of last becomes curr |
| RingReclaimer.Reclaimer.Retire | pacer/reclaimer_pacer.h:215-216 | retire, of any pointer, is the retire step of the ring: this thread's curr gains that pointer, and nothing else changes |
| RingReclaimer.Reclaimer.StartOp | pacer/reclaimer_pacer.h:153-211 | startOp is the sequence of ring steps check, clear, pass, rotate and drain; it counts itself as read-only or not, and with the token resamples the average from both counts |
| RingReclaimer.Reclaimer.FreeUpTo | pacer/reclaimer_pacer.h:196-207 | the drain loop moves min(limit, size) nodes to the pool, no other |
| RingReclaimer.Reclaimer.constructor | pacer/reclaimer_pacer.h:240-256 | the fields start as the initial state of the ring, thread 0 having the token |
| SafeReads.Independent | pacer/reclaimer_pacer.h:153-216 | neither protocol restricts the other: the tree, the ring, and the retirement of any unlinked node by any thread can always go on |
| SafeReads.LinkedIsSafe | pacer/reclaimer_pacer.h:118-126 | a node linked in the tree at some moment of an operation is not released before that operation ends |
| SafeReads.NoUseAfterFree | cpp/brown_ext_abtree_lf_impl.h:461-478 | tree and reclaimer together: no node that a search has visited is freed, or released for freeing, before the operation ends, although others unlink and retire it meanwhile |
| SccSystem.StepInv | src/lib.rs:294-332 | every atomic step of every thread keeps the coordinator's invariant |
| SccProofs.RealTimeMonotone | src/lib.rs:294-332 | if a take_snapshot returns before another starts, the later result is no smaller, whatever the interleaving and the clocks passed in |
| SccProofs.ResultWasEpoch | src/lib.rs:305-327 | a result is positive and a value that the global epoch held before the call returned |
| SccProofs.Exclusion | src/lib.rs:297-326 | the generation is odd just when one thread is between claim and publish, and never two are |
| SccProofs.FailuresBounded | src/lib.rs:316-330 | the failed compare-exchanges of a call number at most the claims of other threads during it |
| SccProofs.OwnerCanGo | src/lib.rs:317-326 | the owner of an odd generation always has an enabled step, and the last one publishes |
| SccProofs.PublishesSoon | src/lib.rs:317-327 | an unpublished generation has seen fewer than four steps of its owner |
| SccWindow.CallAlone | src/lib.rs:294-332 | a take_snapshot during which no other thread claims the generation: while the published window covers its clock reading it returns the window's timestamp and leaves the window alone; otherwise it returns a value that the epoch held during the call, and opens a window with that timestamp at its clock reading |
| SccWindow.NotStale | src/lib.rs:308-311 | so before any window, or 5 ms after one was opened, such a call returns a value the epoch held during the call |
| SccWindow.ReturnsSoon | src/lib.rs:296-332 | such a call is never blocked and returns with the eleventh access of its thread at the latest |
| SccWindow.Width | src/lib.rs:284-288 | the width of the window is the one stored last, and between 100 000 and 5 000 000 ns |
| SccWindow.HitRate | src/lib.rs:289-309 | hit_count and total_count are the numbers of calls served from a window and of all calls |
| LimboBags.DrainExact | src/lib.rs:149-167 | on a bag in birth order drain(safe, k) frees exactly min(k, number eligible) oldest nodes, and leaves eligible ones only if k was reached |
| LimboBags.DrainSafe | src/lib.rs:151-167 | on any bag only nodes born before safe are freed |
| LimboBags.DrainStops | src/lib.rs:151-167 | and on any bag it stops only at k nodes, at the end, or at a node that is not older than safe |
| LimboBags.LimboBag.Drain | src/lib.rs:151-167 | the loop pops that many nodes from the front and returns their number |
| PinSystem.Timestamps | src/lib.rs:493-525 | the epoch is 1 + writes + successful advances, and no two writes of any threads share a timestamp |
| PinSystem.DrainsOldest | src/lib.rs:660-684 | threads that retire in draw order keep sorted bags, so each drain frees exactly the oldest eligible nodes |
| PinSystem.Conservation | src/lib.rs:136-168 | every drawn node is about to be retired, in one bag, or freed once |
| PinSystem.ScanPins | src/lib.rs:90-104 | if a registered slot keeps a nonzero announcement from before a scan reads active_count until it ends, the scan returns at most that, whatever other threads register, announce or release |
| PinSystem.DrainRespectsPins | src/lib.rs:411-439 | so the drain after the scan frees only nodes with smaller birth timestamps |
| PinSlots.SlotsDiffer | src/lib.rs:90-93 | in every run all registered threads have different slots, among those that scans read |
| PinSlots.Announced | src/lib.rs:94-95 | what a thread announces is in its slot until its own next announcement or release, and after a release the slot is empty until its next announcement, whatever others do |
| PinSlots.SnapshotPins | src/lib.rs:411-439 | from a thread's announcement until its own next announcement or release, no scan begun and ended in between leads to a drain of a node born at the announced timestamp or later |
| PinSlots.ScanSaw | src/lib.rs:96-104 | a scan's result was announced in some slot while it went on |
| PinSlots.AdvancesAlone | src/lib.rs:493-497 | an attempt to advance the epoch succeeds if and only if nothing moved it since it was loaded |
| PinSystem.ScanEmpty | src/lib.rs:96-104 | a scan during which all slots stay empty reports no snapshot |
| PinTable.DiesIff | src/lib.rs:90-104 | at every moment of every run: no thread has failed in a registration or by running past the table in a scan, if and only if no more threads have registered than there are slots |
| PinTable.ScanFate | src/lib.rs:96-104 | a scan that began with more registrations than slots never ends, and fails at the first read past the table; any other never fails, and can end after exactly as many reads as there were registrations |
| PinTable.FullTable | src/lib.rs:90-104 | for a table of any size, the run in which one registration too many fails, and then the scan of a thread that had registered before |
| PacerController.AfterOk | src/lib.rs:411-463 | in every reachable state hold_ticks is op_counter % 8 in ConservativeHold and 0 elsewhere, across all mode changes |
| PacerController.ExactBacklog | src/lib.rs:529-539 | with no announced snapshot the backlog after every operation is op_counter % 8 in ConservativeHold and 0 in the other modes |
| PacerController.BacklogBounded | src/lib.rs:425-439 | from any reachable state the unpinned backlog grows by at most 7, whatever the modes do |
| PacerController.WritesDecay | src/lib.rs:361-373 | under writes alone the average decays by 0.85 a window after the first, and ten boundaries lead to AggressiveEbr |
| PacerController.Recovery | src/lib.rs:411-463 | from any reachable state with backlog B, after writes only and unpinned: AggressiveEbr within 10 boundaries, backlog at most B + 7 meanwhile and 0 after 2560 + ceil(B / 3) writes |
| PacerController.LoopBacklog | src/lib.rs:662-685 | the backlogs of the four strategies of the benchmark loop after every iteration: as above, 0, 0, and op_counter % 256 |
| PacerDrains.PostedFrees | src/lib.rs:411-440 | one write, whatever its scan found: up to 4, 1 or, at every eighth, 8 nodes by mode are freed from the front, all older than the scan's result, and fewer only if the next one is not |
| PacerDrains.DrainedExactly | src/lib.rs:151-167 | in birth order that means all the nodes older than the scan's result, up to the limit |
| PacerDrains.WroteFrees | src/lib.rs:662-685 | the same for the four strategies of the benchmark loop, with their limits, and the second drain of the continuous one at the end of a window |
| PacerDrains.WroteCounts | src/lib.rs:361-373 | what a write does to the counters and the average under each strategy |
| PacerDrains.Counters | src/lib.rs:361-373 | after any operations of a fresh thread win_writes is the number of writes modulo 256 and win_snaps the number of snapshots since the last window ended |
| PacerDrains.BatchSize | src/lib.rs:376-380 | compute_batch_k is the whole part of 64 * (1 - spi), less half the trend if that exceeds 0.05, and between 1 and 64 |
| PacerDrains.SnapshotsHold | src/lib.rs:446-463 | the dual of recovery: eleven windows of 256 writes with at least 1028 snapshots each lead to ConservativeHold, whatever the thread did before |
| PacerObjects.MinOfLeast | src/lib.rs:96-104 | the scan's fold is the smallest nonzero entry, or none just when all are 0 |
| PacerObjects.AnnouncementTable.MinActiveTs | src/lib.rs:96-104 | the loop over the registered slots computes it; it panics just when the count is past the table |
| PacerObjects.AnnouncementTable.Register | src/lib.rs:90-93 | slots are handed out in order; on a full table the call panics and leaves the count past the slots |
| PacerObjects.PacerSystem.ResampleSpi | src/lib.rs:361-373 | the update of the average, its publication with its change, and the reset of the window counters; none of them in an empty window |
| PacerObjects.ThreadLocalState.DrainDiscreteTick | src/lib.rs:411-440 | the per-write drain by mode, with the tick count, the number freed, and only nodes older than the timestamp found |
| PacerObjects.PacerSystem.ReclaimDiscrete | src/lib.rs:446-463 | the new mode; the epoch moves by one just when the mode is not ConservativeHold and op_counter is a multiple of the stride |
| PacerObjects.StrideRange | src/lib.rs:381-383 | the epoch stride is 16 * (1 + 4 * spi) rounded to the nearest whole number, between 16 and 80 |
| PacerObjects.WritesAdvance | src/lib.rs:446-463 | a thread that only writes advances the epoch at the end of every window |
| PacerObjects.PacerSystem.PostWrite | src/lib.rs:529-539 | push, scan, drain and, at a window's end, resampling and mode change; the freed nodes are the front of the bag with the new node, all older than every announced snapshot, as many as the mode allows unless the next one is not older; after a failed registration only the push, then a panic |
| PacerObjects.PacerSystem.Write | src/lib.rs:518-539 | a whole write is the write step of the controller with the timestamp drawn, frees by the same rule, unless its scan panics |
| Histogram.BucketLoFits | scripts/isweep.py:25-28 | bucket and bucket_lo are adjoint: i <= bucket(d) just when bucket_lo(i) <= d |
| Histogram.BucketMonotone | pacer/pacer_instr.h:25-30 | larger samples are in no smaller bucket |
| Histogram.BucketInverse | scripts/isweep.py:25-28 | bucket_lo(i) is in bucket i |
| Histogram.BucketRange | pacer/pacer_instr.h:20-30 | 64-bit samples fall in buckets up to 251, inside the array |
| Histogram.Accuracy | pacer/pacer_instr.h:25-30 | below 4 the lower bound is the sample; above, sample < 1.25 * lower bound |
| Histogram.Quarters | scripts/isweep.py:25-28 | bucket 4 + 4k + m begins at (4 + m) * 2^k |
| Percentiles.QuantileExists | scripts/isweep.py:30-35 | the true p-quantile exists for 0 < p <= 1 and at least one sample |
| Percentiles.Pct | scripts/isweep.py:30-35 | the loop returns the lower bound of the first key at which the running count reaches tot * p, or 0 |
| Percentiles.PctAccurate | scripts/isweep.py:30-35 | on the histogram of any samples the result is bucket_lo(bucket(q)) for the true p-quantile q: q itself below 4, else lo <= q < 1.25 * lo |
| Instrument.ThreadStats.Record | pacer/pacer_instr.h:35-46 | counts the sample in its bucket, keeps the maximum, and samples the backlog every 256 operations |
| Instrument.MaxIsLargest | pacer/pacer_instr.h:35-46 | the maximum kept is the largest sample |
| Instrument.SumAdds | pacer/pacer_instr.h:35-46 | the sum kept adds up the sampled backlogs |
| Instrument.ThreadStats.Report | pacer/pacer_instr.h:62-63 | the items reported are the nonempty buckets with their counts |
| Instrument.MergeLine | scripts/isweep.py:61-63 | merging a line makes the histogram that of the samples of both |
| Instrument.Percentile | scripts/isweep.py:56-67 | from the report lines of all threads to a percentile of all their samples, with the accuracy above |

## Left out

- Pointers inside the tree: a tree is a value with addresses, a swing replaces the subtree at the end of a path, and aliasing between nodes of different ages is expressed by addresses, not by a heap.
- LLX and SCX internals, failed attempts and retries, and the deallocation of nodes built for an SCX that failed: a failed attempt changes nothing that is modelled.
- AbTree.Tree: the object is run by one thread; for interleaved threads the steps of AbSystem, the searches of AbRuns and the calls of AbHandOver are the model.
- AbRebalance.Converges: chooses the order of the repairs; that the code's own calls get there in every order is AbCallsEnd.
- AbHandOver.StepHand: a call finds its node, or finds that it is gone, in one step; that a search read one pointer at a time errs on neither side is AbRuns.Visited and AbRuns.MissedMeansUnlinked.
- AbBuild: the two 2 * DEGREE scratch arrays of Split and Distribute are read back as sequences before they are cut.
- rangeQuery (not implemented in the source), debug statistics, and tree validation other than the height.
- RingReclaimer.Reclaimer: run by one thread at a time; `RingSystem` interleaves. The drain frees from the end of the bag, which is one of the orders the protocol allows.
- deinitThread, crash recovery, several record types in one rotation, and `tokenCount`, which nothing reads.
- Scc: `take_snapshot` is modelled by its atomic steps only; the width of a new window is any value in the range that `compute_w` clamps to, and `record_latency_ns` is not modelled.
- SccProofs.RealTimeMonotone: says nothing about staleness; the generation is not checked again after the reads, so only calls undisturbed by other claims have a bound on it, which is SccWindow.NotStale.
- PinSystem.ScanPins: starts at the announcement, as the code does; between taking a timestamp and announcing it nothing is pinned, and birth timestamps are all that is compared.
- A node in a limbo bag is its birth timestamp; typed and foreign nodes are freed alike.
- PacerObjects.PacerSystem.TryAdvanceEpoch: run by one thread; the interleaved compare-exchange is in PinSystem.
- Retry waits; the trend that the continuous strategy reads, which other threads may store, is a parameter.
- Wrap-around of 64-bit counters and rounding of floating-point numbers.
- The text of report lines and its buffer limit, the conversion of cycles to nanoseconds, the CSV output, and the rest of the measurement scripts.
- The foreign-function glue, the build scripts, the allocator-pressure model and the random workloads.
