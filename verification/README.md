# PhantomID: the identity tree, its persistence and the entry store

A Dafny model of the stateful core of PhantomID, with proofs. It covers

- the **identity tree** (`src/runtime/tree/tree.c`): linked nodes with child arrays, creation, deletion with adoption of
  orphans, lookup and breadth-first traversal through a 1000-slot ring buffer, depth-first traversal, depth, destruction,
  and the generated ids;
- **saving and loading** the tree (`src/runtime/state/state.c`): the record sequence, the replay of records as creations,
  and the checksum;
- the **entry store** (`src/interface/state.c`): an entry cache kept in one block of memory and a table of change handlers;
- the **message handlers** (`src/programs/handlers.c`) as steps over the tree.

## How it is built

`Forest.dfy` defines ordered forests as values. `TreeState` (`IdentityTree.dfy`) is the value of a tree context: the tree
the root reaches, the trees cut loose from it, the data of every live node, and the node counter. `Create` and `DeleteAt`
say what the operations do to that value.

`TreeContext.dfy` holds the imperative program: the class `TreeContext` over `TreeNode` objects with child arrays,
updated in place. `Valid()` ties every field of every live node to the ghost value `state`, so each method's contract says
what the whole heap looks like afterwards. The laws are proved about the values:

| file | content |
|---|---|
| `Surgery.dfy`, `TreeLaws.dfy`, `DeletionLaws.dfy` | what replacing one child list does to parents, levels and descent; creation, deletion, depth, destruction |
| `Effects.dfy` | creation, deletion and loading of a record by child lists, parents and node data alone |
| `LevelOrder.dfy` | the bounded queue: what lookup and breadth-first traversal visit, and exactly when they miss a node |
| `TreeRuns.dfy`, `NodeId.dfy` | invariants over every run of creations and deletions; uniqueness of ids |
| `Pruning.dfy`, `Persistence.dfy`, `Rebuilding.dfy`, `RecordLaws.dfy`, `StateFile.dfy` | saving, loading, the round trip, and exactly when it loses nodes |
| `LossyLoad.dfy` | what is rebuilt when some parent is not visible |
| `Restart.dfy`, `IdReuse.dfy` | root flags and ids after loading, runs that go on from there, and ids that come again |
| `Breadth.dfy`, `Growth.dfy`, `BroadTree.dfy`, `Overflow.dfy`, `WideTree.dfy` | runs that make the queue overflow, and the limits under which none does |
| `Checksum.dfy` | the 32-bit sum, whole and in 4096-byte chunks |
| `EntryModel.dfy`, `EntryStore.dfy` | the store as a finite map with change notification |
| `Handlers.dfy` | messages, and runs of them |

## Conventions

- Every operation under a lock is one atomic step. A visitor's calls, and calls of change handlers, are recorded in a log.
- In runs that are given as examples references are integers.
- `MAX_CHILDREN` has no definition in the repository; it is the parameter `cap`. `MAX_QUEUE_SIZE` is 1000.
- The counter behind generated ids is static in the source; here it is an `IdSource` object that creation receives.
  `unsigned long` has 64 bits. Clock readings are parameters.
- Ids are strings without the terminating zero; a 64-byte field holds at most 63 characters, and copying clips to that.
- A reference freed may be handed out again: in runs a new node's reference only has to differ from the live ones.
- A null context, a failing allocation in the tree, and a failing lock are not modelled; the store's reallocation may fail.

## Findings

- Lookup misses nodes of trees whose waiting list outgrows the queue (`src/runtime/tree/tree.c:24-30`, `132-145`). It is
  reliable for every reachable node if and only if the peak of that list is at most 1000 (`LookupReliableIffPeakFits`);
  1001 nodes always fit, 1002 need not (`LookupBoundIsSharp`, for a `MAX_CHILDREN` above 1000).
- Saving and then loading rebuilds the tree if and only if each record's parent is visited in the tree of the records
  before it (`SaveLoadIffParentsVisible`; `src/runtime/state/state.c:150-162`, `src/runtime/tree/tree.c:109-111`). That
  holds for every tree of at most 1002 nodes and for every tree whose peak fits; 1003 nodes need not survive
  (`RoundTripBoundIsSharp`, for a `MAX_CHILDREN` above 1000).
- What is lost is exactly the subtrees of the nodes whose parent was rebuilt but is not visited when their turn comes
  (`LoadLeavesOutSubtrees`); saving and loading the rest again loses nothing further (`SecondLoadLosesNothing`).
- A load of a file that has lost its end fails but leaves the tree with what the records left there rebuild
  (`LoadTruncated`; `src/runtime/state/state.c:152-157`).
- Neither fault is out of reach: for every `MAX_CHILDREN` of two or more some run of creations from a new context leads to
  a tree with a live node that its id does not find, and which loses a node when saved and loaded; for at most one child
  a node no run does (`RunsAreSafeIffOneChild`).
- The node counter counts live nodes, not reachable ones; the two agree throughout a run if and only if every deletion is
  of a childless root or of a node whose children all fit (`CountIsReachIffTidy`; `src/runtime/tree/tree.c:151-175`).
  Destroying a context frees all live nodes under just that condition (`DestroyFreesAllIffTidy`;
  `src/runtime/tree/tree.c:303-312`).
- The counter behind ids is static (`src/runtime/tree/tree.c:77`) and starts at zero in a new process, where it stands at
  the number of records after a load. From there on live ids stay unique if and only if every loaded id has a clock reading
  before the restart or a count below that number (`IdsAfterRestartIff`). A restart within the second of creation, or with
  the clock set back, can give a new node the id of a live one (`RestartRepeatsId`: a root, two children, the first one
  deleted, restart, one more node).
- The message handler's guard (`src/programs/handlers.c:65-68`) protects the root's children; deletion without it, as in
  the delete command (`src/programs/handlers.c:169-182`), cuts all of them loose (`UnguardedRootDeletion`).
- The guard reads the root flag, and loading takes the flags from the file (`src/runtime/state/state.c:164`): afterwards
  they are right if and only if just the accepted record that makes the root carries one (`LoadKeepsFlagsIff`). Saved files
  are (`SavedFlagsAreKept`), but there are files after which a message deletes a root with a child
  (`UnflaggedRootIsDeleted`).
- A full handler table refuses even to replace the handler of a kind it already knows (`RegisterHandler`;
  `src/interface/state.c:201`).

## Model

| member | source | states |
|---|---|---|
| TreeNodes.TreeNode.constructor | src/runtime/tree/tree.c:56-73 | a new node is blank, active, childless, with room for `cap` children |
| TreeNodes.NodeQueue.Push | src/runtime/tree/tree.c:24-30 | the ring buffer refines a sequence: a push appends, and is refused exactly when 1000 nodes wait |
| TreeNodes.NodeQueue.Pop | src/runtime/tree/tree.c:32-38 | a pop takes the oldest node; null exactly on an empty queue |
| TreeContexts.Search | src/runtime/tree/tree.c:132-147 | the loop returns the first node with the id in bounded level order, or null when none is visited; it terminates |
| TreeContexts.BreadthFirst | src/runtime/tree/tree.c:223-234 | the visitor is called on exactly the nodes of the bounded level order, in that order |
| TreeContexts.DepthFirst | src/runtime/tree/tree.c:240-248 | the visitor is called on the node and then on everything below it in preorder |
| TreeContexts.DepthBelow | src/runtime/tree/tree.c:272-282 | the recursion computes one plus the depth of the children |
| TreeContexts.Cleanup | src/runtime/tree/tree.c:291-300 | frees in postorder; a call is only allowed for a node that, with all below it, is not yet listed as freed |
| TreeContexts.LinkChild | src/runtime/tree/tree.c:118-120 | the child becomes the parent's last; no other field changes |
| TreeContexts.UnlinkChild | src/runtime/tree/tree.c:190-200 | the parent's list loses exactly that child and keeps the order of the others |
| TreeContexts.AdoptOrphans | src/runtime/tree/tree.c:155-166 | children are adopted in order as far as there is room; exactly the others become roots |
| TreeContexts.UprootOrphans | src/runtime/tree/tree.c:167-174 | without a parent every child becomes a root |
| TreeContexts.CutOut | src/runtime/tree/tree.c:190-211 | unlinking and adoption together: the fields of every live node afterwards |
| TreeContexts.TreeContext.constructor | src/runtime/tree/tree.c:41-53 | a new context is valid and empty |
| TreeContexts.TreeContext.FindNode | src/runtime/tree/tree.c:129-148 | returns what bounded level-order lookup finds, null for a null id or an empty tree |
| TreeContexts.TreeContext.TraverseBfs | src/runtime/tree/tree.c:218-237 | visits the bounded level order of the reachable tree |
| TreeContexts.TreeContext.TraverseDfs | src/runtime/tree/tree.c:251-257 | visits the preorder of the reachable tree |
| TreeContexts.TreeContext.GetDepth | src/runtime/tree/tree.c:285-288 | the number of levels, 0 for an empty tree |
| TreeContexts.TreeContext.Destroy | src/runtime/tree/tree.c:303-312 | frees the reachable nodes in postorder |
| TreeContexts.TreeContext.AttachChild | src/runtime/tree/tree.c:118-123 | hanging a blank node below a found parent makes the whole heap agree with `Create` |
| TreeContexts.TreeContext.CreateNode | src/runtime/tree/tree.c:83-126 | succeeds exactly when the tree is empty or the parent is found with room; then the heap is that of `Create`, otherwise unchanged; an id is drawn either way |
| TreeContexts.TreeContext.DeleteRoot | src/runtime/tree/tree.c:201-213 | deleting the root leaves an empty tree and makes each child a detached root |
| TreeContexts.TreeContext.DeleteChild | src/runtime/tree/tree.c:190-213 | deleting another node leaves the heap that `DeleteAt` prescribes for every live node |
| TreeContexts.TreeContext.DeleteNode | src/runtime/tree/tree.c:178-215 | succeeds exactly when the id is found; deletes that node, or changes nothing |
| TreeContexts.TreeContext.HeapShowsState | src/runtime/tree/tree.c:56-73 | what the abstract value says of a live node are its own fields: id, time, flags, parent, children in order; the node counter is the number of live nodes |
| TreeContexts.TreeContext.Overwrite | src/runtime/state/state.c:161-166 | a live node's data is replaced and the structure stays |
| LevelOrder.PushAllTakes | src/runtime/tree/tree.c:24-30 | offering a list of children keeps exactly the prefix that fits the queue |
| LevelOrder.VisitStep | src/runtime/tree/tree.c:132-145 | a visit takes the node that waits longest, and its first children, as many as 1000 places leave room for, wait behind the others |
| LevelOrder.VisitSound | src/runtime/tree/tree.c:132-145 | only reachable nodes are visited, on trees of any size |
| LevelOrder.CountIffPeakFits | src/runtime/tree/tree.c:223-234 | as many visits as nodes, if and only if the waiting list's peak fits the queue |
| LevelOrder.VisitsAllIffPeakFits | src/runtime/tree/tree.c:223-234 | every node is visited, if and only if the peak fits |
| LevelOrder.SmallPeakFits | src/runtime/tree/tree.c:7-30 | at most 1001 nodes always fit |
| LevelOrder.LevelsNeverDecrease | src/runtime/tree/tree.c:218-237 | breadth-first order visits levels in order, on trees of any size |
| LevelOrder.ParentsVisitedFirst | src/runtime/tree/tree.c:218-237 | a node's parent is visited before it, on trees of any size |
| LevelOrder.TraversalsAgreeIffPeakFits | src/runtime/tree/tree.c:218-257 | both traversals visit nobody twice; they visit the same nodes if and only if the peak fits |
| IdentityTree.LookupSound | src/runtime/tree/tree.c:129-148 | what lookup returns is reachable and has the id |
| IdentityTree.LookupComplete | src/runtime/tree/tree.c:129-148 | while the peak fits, null means that no reachable node has the id, and conversely |
| IdentityTree.LookupShallowest | src/runtime/tree/tree.c:129-148 | while the peak fits, the match returned is of least level |
| IdentityTree.LookupReliableIffPeakFits | src/runtime/tree/tree.c:129-148 | with unique ids in the tree every reachable node is found by its id, if and only if the peak fits |
| TreeLaws.AddChildAt | src/runtime/tree/tree.c:118-120 | the new node is last below its parent; nobody else's parent, children or level changes |
| TreeLaws.CutAt | src/runtime/tree/tree.c:190-211 | children, parent and level of every node left in the tree after a deletion |
| TreeLaws.CutKeepsAncestors | src/runtime/tree/tree.c:190-211 | among the nodes left in the tree descent is exactly what it was |
| TreeLaws.CreateKeepsForest | src/runtime/tree/tree.c:97-123 | creation keeps the forest, the bound on children and the count |
| TreeLaws.DeleteKeepsForest | src/runtime/tree/tree.c:183-211 | deletion, of the root or not, with or without overflow, keeps them |
| TreeLaws.CreateKeepsFlags | src/runtime/tree/tree.c:97-121 | root flags go on marking exactly the parentless nodes |
| TreeLaws.DeleteKeepsFlags | src/runtime/tree/tree.c:151-175 | the same for deletion |
| TreeLaws.DeleteRootLinks | src/runtime/tree/tree.c:167-174 | parents and children of all live nodes after a root deletion |
| TreeLaws.DeleteChildLinks | src/runtime/tree/tree.c:155-166 | parents and children of all live nodes, detached ones too, after another deletion |
| Effects.RefusedIff | src/runtime/tree/tree.c:97-116 | creation is refused if and only if there is a root and the parent is not named, not found or has `cap` children |
| Effects.CreateDoes | src/runtime/tree/tree.c:97-123 | one new live node, a flagged root on an empty tree and otherwise its parent's last child; child lists, parents and data of all others are unchanged |
| Effects.DeleteDoes | src/runtime/tree/tree.c:178-215 | exactly the deleted node ceases to live |
| Effects.DeleteRootDoes | src/runtime/tree/tree.c:167-174 | the tree is empty; the root's children, and only they, become flagged and parentless; child lists stay |
| Effects.DeleteChildDoes | src/runtime/tree/tree.c:151-166 | the first children, as many as the parent has places for, get it as parent; the others become flagged and parentless; nobody else changes |
| Effects.ParentsListAfter | src/runtime/tree/tree.c:190-200 | the parent's list is that without the deleted node, followed by the adopted children in order |
| DeletionLaws.DeleteBelowParent | src/runtime/tree/tree.c:151-215 | exactly the node and the subtrees left out leave the tree; the first min(k, M-(c-1)) children, at least one place, follow the siblings; the rest are flagged roots; the count drops by one |
| DeletionLaws.SurvivorsKeepPlace | src/runtime/tree/tree.c:151-215 | survivors keep their descent; the deleted node's descendants rise by one level and nobody else moves |
| DeletionLaws.DeepestNode | src/runtime/tree/tree.c:272-288 | depth is one more than the greatest level of a node |
| DeletionLaws.TreeSizeBounds | src/runtime/tree/tree.c:272-288 | depth is at most the size, and the size at most the full tree's of that depth |
| DeletionLaws.CreateDepth | src/runtime/tree/tree.c:118-120 | creation deepens the tree by at most one level |
| DeletionLaws.DeleteDepth | src/runtime/tree/tree.c:151-175 | deletion never deepens it, and without overflow flattens it by at most one level |
| DeletionLaws.DescendantsFreedFirst | src/runtime/tree/tree.c:291-300 | a node is freed after all its descendants |
| Forests.PreorderOfSiblings | src/runtime/tree/tree.c:240-248 | depth-first traversal takes siblings one after the other, in order |
| Forests.PostorderOfSiblings | src/runtime/tree/tree.c:291-300 | so does destruction |
| DeletionLaws.DestroyFreesAllIffNoneLoose | src/runtime/tree/tree.c:303-312 | each reachable node is freed once; all live nodes are freed if and only if no tree is detached |
| TreeRuns.StepKeepsForest | src/runtime/tree/tree.c:83-215 | every operation keeps the forest invariant, and right root flags |
| TreeRuns.RunsKeepForest | src/runtime/tree/tree.c:83-215 | in every state of every run from a new or a loaded context, and the counter is the number of live nodes, never below the reachable ones |
| TreeRuns.ParentAndChildrenAgree | src/runtime/tree/tree.c:118-120 | a node is in a parent's list, once, if and only if that is its parent; no cycles; at most `cap` children |
| TreeRuns.StepKeepsIds | src/runtime/tree/tree.c:76-94 | a new id differs from all live ones that were drawn earlier or cannot be drawn any more |
| TreeRuns.RunsKeepIdsUnique | src/runtime/tree/tree.c:76-94 | over runs of fewer than 2^64 creations live ids are pairwise different and fit their field |
| TreeRuns.GeneratedIdsCollideIffWrapped | src/runtime/tree/tree.c:76-80 | any two ids generated in a run are equal if and only if the clock read the same and the counter went full circle; never within 2^64 creations |
| TreeRuns.RunsFindByIds | src/runtime/tree/tree.c:129-148 | so in every state with at most 1001 reachable nodes an id finds its node |
| TreeRuns.StepDetaches | src/runtime/tree/tree.c:151-175 | nothing is detached after a step if and only if nothing was and the deletion is tidy |
| TreeRuns.DestroyFreesAllIffTidy | src/runtime/tree/tree.c:303-312 | destroying a context after any number of steps frees every live node once if and only if every deletion so far was tidy |
| TreeRuns.CountIsReachIffTidy | src/runtime/tree/tree.c:190-211 | counter and reachable size agree after any number of steps if and only if every deletion so far was tidy |
| NodeId.DecimalInjective | src/runtime/tree/tree.c:78-79 | different numbers print differently |
| NodeId.DecimalDenotes | src/runtime/tree/tree.c:78-79 | the printed digits denote the number, without zeros in front |
| NodeId.FormatIdReads | src/runtime/tree/tree.c:78-79 | an id reads as the prefix, the clock value, a separator, the counter value |
| NodeId.FormatIdInjective | src/runtime/tree/tree.c:76-80 | an id determines the clock value and the counter value |
| NodeId.FormatIdFits | src/runtime/tree/tree.h:10-10 | an id fits the 64-byte field with its terminator |
| NodeId.IdSource.Generate | src/runtime/tree/tree.c:76-80 | prints the clock and the counter, which then advances modulo 2^64 |
| Pruning.PruneStep | src/runtime/state/state.c:150-162 | adding the next preorder node as its parent's last child gives the tree of the first nodes, one more |
| Pruning.ThinnerPeak | src/runtime/tree/tree.c:132-145 | leaving out subtrees never raises the peak of the waiting list |
| Persistence.RecordOfNode | src/runtime/state/state.c:58-73 | the i-th record describes the i-th node in preorder, with its parent's id and its number of children |
| Persistence.LoadOneKeepsForest | src/runtime/state/state.c:160-166 | replaying any record keeps the forest; the count grows by one exactly when it is accepted |
| Effects.LoadOneDoes | src/runtime/state/state.c:159-166 | a record is refused, without effect, if and only if there is a root and the parent named is not found or full; otherwise its node has just the record's data and is a root or that parent's last child |
| Persistence.LoadKeepsForest | src/runtime/state/state.c:150-167 | so does replaying any sequence of records whatever |
| Rebuilding.LookupIffVisited | src/runtime/tree/tree.c:129-148 | with identifying ids an id is found exactly when its node is visited |
| Rebuilding.ReplayOne | src/runtime/state/state.c:152-166 | the next record is accepted exactly when its parent is visible, and then rebuilds the next node in place |
| Rebuilding.ReplayFirst | src/runtime/state/state.c:150-167 | the first m records give exactly the first m nodes, if and only if all their parents are visible: truncated files |
| Rebuilding.SaveLoadIffParentsVisible | src/runtime/state/state.c:76-172 | saving, and loading where no tree is, gives the same tree and the same records again, if and only if all parents are visible |
| Rebuilding.PeakFitsParentsVisible | src/runtime/tree/tree.c:109-111 | they are when the tree's peak fits the queue |
| Rebuilding.SmallParentsVisible | src/runtime/tree/tree.c:109-111 | they are, whatever the shape, up to 1002 nodes |
| Rebuilding.SaveLoadRoundTrip | src/runtime/state/state.c:76-172 | such trees with unique ids are rebuilt: shape, child order, ids, times, flags and count; what was cut loose before is left as it was |
| Rebuilding.EraseParentsVisible | src/runtime/tree/tree.c:109-111 | whether parents are visible depends on the shape of the tree alone |
| LossyLoads.LoadedIsRebuilt | src/runtime/state/state.c:150-167 | loading the first records of a saved tree gives what adding each node below its parent, when that is visited, gives |
| LossyLoads.LoadLeavesOutSubtrees | src/runtime/state/state.c:150-167 | the loaded tree is the saved one with whole subtrees left out; a node is there if and only if its parent was rebuilt and is visited when the node's turn comes |
| LossyLoads.RebuiltIsStable | src/runtime/tree/tree.c:109-111 | in what has been rebuilt all parents are visible |
| LossyLoads.SecondLoadLosesNothing | src/runtime/state/state.c:76-172 | whatever a first round of saving and loading has lost, a second one loses nothing |
| Restarts.LoadKeepsFlagsIff | src/runtime/state/state.c:160-166 | after any records the flags mark exactly the parentless nodes, if and only if they did before and just the accepted record that makes a root carries the flag |
| Restarts.SavedFlagsAreKept | src/runtime/state/state.c:58-73 | the records of a saved tree, all of them or a first part, keep the flags right even where nodes are lost |
| Restarts.RunsContinueAfterLoad | src/runtime/state/state.c:126-172 | within a process, where the counter goes on, a context loaded from the whole tree of a run meets what runs of operations and of messages ask of their start: forest, flags, ids drawn below the counter and unique |
| IdReuse.RunKeepsIdsUnique | src/runtime/tree/tree.c:76-80 | from any state, runs keep live ids unique while no live id has both a clock reading and a count that are still to come |
| IdReuse.IdComesAgain | src/runtime/tree/tree.c:76-80 | if a live id has both, a run draws it for a second live node: refused creations bring the counter to it |
| IdReuse.IdsStayUniqueIffNoneAhead | src/runtime/tree/tree.c:76-80 | so all runs that never read an earlier clock and do not exhaust the counter keep live ids unique if and only if no live id has both, where nodes may have children at all |
| IdReuse.IdsAfterRestartIff | src/runtime/tree/tree.c:77-77 | the same for a new process that has loaded a saved tree: its counter stands at the number of records |
| IdReuse.RestartRepeatsId | src/runtime/tree/tree.c:77-79 | a given run, saved and loaded by a new process in the same second, after which the next node gets the id of a live one |
| Restarts.UnflaggedFile | src/runtime/state/state.c:164-164 | two given records leave the root of a two-node tree unflagged |
| RecordLaws.NamingCounts | src/runtime/state/state.c:64-70 | how many records name an id as parent |
| RecordLaws.RecordsAgree | src/runtime/state/state.c:52-97 | one record per node; only the first without a parent; each parent named by an earlier record; child counts agree with the names |
| StateFiles.SaveNode | src/runtime/state/state.c:58-73 | the record of a node, read from its fields |
| StateFiles.LoadRecord | src/runtime/state/state.c:159-166 | one record replayed on the heap; an id is drawn; the node's own fields are those of the record |
| StateFiles.StateContext.constructor | src/runtime/state/state.c:40-48 | the initial header, which is that of a readable file |
| StateFiles.StateContext.Save | src/runtime/state/state.c:76-97 | the header counts the nodes of a separate pass, and the records are those of the reachable tree; the file is readable and complete; no effect when it cannot be opened |
| StateFiles.StateContext.Load | src/runtime/state/state.c:126-172 | rejects a missing file, foreign magic and newer versions without effect; otherwise replays the first n records, or all when there are fewer than the header's n, one state after the other, and succeeds when none is missing; each draws an id; the header is that of the file |
| StateFiles.SaveAndLoad | src/runtime/state/state.c:76-172 | on the heap: a load reads what a save wrote, and the two contexts hold the same tree if and only if all parents are visible; then the node counter has grown by the node count in the header; the counter behind ids advances by that number |
| StateFiles.LoadTruncated | src/runtime/state/state.c:150-167 | on the heap: a load of a saved file of which m records are left fails unless those are all, and leaves of the first m nodes exactly those whose parent was rebuilt and visible; all of them, in place, if and only if all their parents are visible |
| Breadth.ShallowVisited | src/runtime/tree/tree.c:132-145 | down to the level where two neighbouring levels no longer fit the queue together, every node is visited |
| Breadth.LastIsDropped | src/runtime/tree/tree.c:24-30 | when a level of nodes with two children each overflows the queue, the last child of the last of them is never visited |
| Growth.CreateBelow | src/runtime/tree/tree.c:83-126 | a run can be continued by a creation below any visited node that has room |
| Growth.FillIn | src/runtime/tree/tree.c:83-126 | a run can fill in any subtree below a leaf while the levels of the parents are narrow |
| BroadTrees.LastIsMissed | src/runtime/tree/tree.c:24-30 | in a given binary tree a given node is not visited, whether or not it has a child |
| BroadTrees.TipIsHidden | src/runtime/tree/tree.c:109-111 | that child's parent is not visible when its record is replayed |
| Overflows.SurvivesIffVisible | src/runtime/state/state.c:76-172 | the tree a run leads to survives saving and loading if and only if all parents are visible |
| Overflows.SomeRunOverflows | src/runtime/tree/tree.c:24-30 | for every limit of two or more children a run of creations leads to a live node that its id does not find, in a tree that does not survive |
| Overflows.NoRunOverflows | src/runtime/tree/tree.c:24-30 | for a limit of at most one child every run leads to a tree in which every id finds its node, and which survives |
| Overflows.RunsAreSafeIffOneChild | src/runtime/tree/tree.c:24-30 | all runs keep every node within reach of lookup, and all trees survive, if and only if the limit is at most one |
| WideTrees.LookupBoundIsSharp | src/runtime/tree/tree.c:24-30 | for limits above 1000 a run of creations leads to a tree of 1002 nodes with a node that its id does not find |
| WideTrees.RoundTripBoundIsSharp | src/runtime/state/state.c:150-167 | for limits above 1000 a run of creations and one final deletion leads to a tree of 1003 nodes that does not survive |
| Checksum.CalculateChecksum | src/runtime/state/state.c:10-19 | the loop computes the bytes' value as digits in base 33, first byte highest, modulo 2^32 |
| Checksum.SumIsPolynomial | src/runtime/state/state.c:14-16 | so does the recursive form the other laws are about |
| Checksum.SumOfOne | src/runtime/state/state.c:14-16 | the sum of one byte is that byte |
| Checksum.MixInjective | src/runtime/state/state.c:15-15 | the step is injective modulo 2^32 |
| Checksum.SumsStayApart | src/runtime/state/state.c:10-19 | sums that differ stay different under equal tails, and only those |
| Checksum.OneByteChangesSum | src/runtime/state/state.c:10-19 | changing any one byte of data of any length changes the sum |
| Checksum.SumChunks | src/runtime/state/state.c:208-213 | the loop folds the sums of the chunks |
| Checksum.ChunkedSumOfFirst | src/runtime/state/state.c:211-213 | the first 4096 of more bytes are a chunk of their own |
| Checksum.ChunkedSumOfLast | src/runtime/state/state.c:211-213 | up to 4096 bytes at the end are one chunk, and no bytes are none |
| Checksum.XorIsBitwise | src/runtime/state/state.c:212-212 | sums are combined bit by bit |
| Checksum.ChunkedIsWholeWhenShort | src/runtime/state/state.c:208-213 | up to 4096 bytes the chunked sum is the whole one |
| Checksum.OneByteChangesChunkedSum | src/runtime/state/state.c:208-213 | changing any one byte changes the chunked sum |
| Checksum.SumOfConcatenation | src/runtime/state/state.c:10-19 | sum(a+b) = sum(a) * 33^n + sum(b) modulo 2^32, with n the length of b |
| EntryStores.EntryStore.Find | src/interface/state.c:233-243 | the search loop finds the first entry with the kind and id |
| EntryStores.EntryStore.GetEntry | src/interface/state.c:224-247 | returns the entry with that kind and id, nothing if and only if there is none |
| EntryStores.EntryStore.SetEntry | src/interface/state.c:250-302 | overwrites in place or appends, and notifies; fails, without effect, exactly when the key is new and the cache cannot grow |
| EntryStores.EntryStore.ShiftDown | src/interface/state.c:320-325 | the later entries move down by one and the size shrinks by one entry |
| EntryStores.EntryStore.DeleteEntry | src/interface/state.c:305-343 | removes the entry and notifies; fails, without effect, exactly when there is none |
| EntryStores.EntryStore.Notify | src/interface/state.c:294-299 | calls the handlers of the kind in slot order |
| EntryStores.EntryStore.RegisterHandler | src/interface/state.c:197-221 | replaces or adds; refused exactly for no handler or 32 slots in use |
| EntryModel.SetIsMapUpdate | src/interface/state.c:258-290 | setting is a map update; keys stay unique |
| EntryModel.DeleteIsMapRemoval | src/interface/state.c:313-329 | deleting is a map removal |
| EntryModel.RegisterIsMapUpdate | src/interface/state.c:205-217 | registering is a map update; kinds stay distinct |
| EntryModel.NotifiedIsReport | src/interface/state.c:268-273 | the notification loop calls the registered handler once, or nobody |
| EntryModel.SetDoes | src/interface/state.c:250-302 | setting overwrites the entry of that kind and id where it stands, or appends; one report to the handler of the kind; nothing changes when the entry is new and there is no room |
| EntryModel.DeleteDoes | src/interface/state.c:305-343 | deleting takes that entry out and reports it, or changes nothing when there is none |
| EntryModel.RegisterDoes | src/interface/state.c:197-221 | registering replaces the kind's handler in its slot or takes a new slot, and changes nothing for no handler or 32 slots in use |
| EntryModel.StepRefines | src/interface/state.c:197-343 | every operation refines the operation on the map behind the store |
| EntryModel.RunRefines | src/interface/state.c:197-343 | over every run the store stands for the map the run builds, and the calls made are exactly those due |
| EntryModel.SetKeepsOrder | src/interface/state.c:263-290 | overwriting keeps positions, a new entry goes last |
| EntryModel.DeleteKeepsOrder | src/interface/state.c:318-325 | deleting keeps the order of the rest |
| Handlers.ParseContext | src/programs/handlers.c:18-32 | a message is accepted if and only if it names a source that is found, and no target or one that is found |
| Handlers.HandleNodeCreated | src/programs/handlers.c:35-43 | succeeds if and only if both nodes are found and the source has room; then the heap shows the new node as the source's last child, with its fields; an id is drawn even when there is no room |
| Handlers.HandleNodeDeleted | src/programs/handlers.c:59-73 | succeeds if and only if both nodes are found and the source is not a flagged root with children; then exactly the source ceases to live |
| Handlers.HandleMessage | src/programs/handlers.c:132-149 | what each kind of message returns and does to the tree and the id counter, in terms of the nodes found, child lists and flags; data messages that name a target, network messages and unknown kinds leave the tree alone |
| Handlers.CreationMessageDoes | src/programs/handlers.c:35-43 | the whole state after a creation message: unchanged, with an id drawn, or with one node more below the source |
| Handlers.DeletionMessageIff | src/programs/handlers.c:59-73 | a message deletes its source if and only if both nodes are found and the source is not a flagged root with children; all others live on |
| Handlers.EmptyStaysEmpty | src/programs/handlers.c:18-32 | no message reaches an empty tree |
| Handlers.RootGoesOnlyChildless | src/programs/handlers.c:65-73 | a message removes the root only when it is childless, and then cuts nothing loose |
| Handlers.LooseOnlyByOverflow | src/programs/handlers.c:59-73 | a message cuts trees loose only when a parent cannot adopt all children |
| Handlers.RunsKeepRoot | src/programs/handlers.c:132-149 | in every run of messages the root stays until deleted childless; from then on the tree is empty for ever |
| Handlers.UnflaggedRootIsDeleted | src/programs/handlers.c:65-73 | after loading two given records a message does so |
| Handlers.UnguardedRootDeletion | src/programs/handlers.c:169-182 | after deletion without the guard no id finds anything, all others live on, and the counter exceeds the reachable size exactly when the root had children or something was loose before |

## Left out

- The bytes and modes of save files: a file is a header and whole records. Nothing is claimed about the checksum a save
  stores, because the file is opened for writing only and then read.
- The compression and encryption flags of the state context, and its plain queries.
- The file operations of `src/interface/state.c`: they store raw addresses.
- Sockets and network callbacks, the command line, parsing of messages and commands, printing, configuration.
- `src/programs/state.c`, `src/interface/message.c`, `src/interface/command.c`, `src/interface/program.c`: re-entrant
  notification through accessors that are not part of the repository, outgoing queues nothing drains, and wiring.
- The notifications the message handlers broadcast, and data and network messages beyond leaving the tree unchanged; the
  message kinds the handlers switch on are not defined in the repository's headers.
- Create and delete commands: they are the tree operations themselves, without the guard of the message handlers.
- `user_data` of nodes, threads and locks.
- TreeContexts.Cleanup: freeing is a list of the nodes freed; the allocator is not modelled.
- Handlers.HandleNodeCreated: the notification that follows a creation is not modelled, as it does not touch the tree.
- Handlers.HandleNodeDeleted: the notification that follows a deletion is not modelled, as it does not touch the tree.
- Handlers.HandleMessage: what the handlers of data and network messages return is a parameter; a data message that names
  no target is not modelled, as the source then reads the id of a null target (`src/programs/handlers.c:89-98`).
