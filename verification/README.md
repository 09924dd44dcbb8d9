# The Realtime Database's local sync engine, verified

This project models, in Dafny, how a Firebase Realtime Database client keeps its copy of the data: the
immutable data tree, overlays of writes that are not yet acknowledged, the log of optimistic writes with its
cached overlay, the compound hash and range merges that bring a stale tree up to date, and the order of keys
everything rests on. It proves what these parts promise each other. `dafny verify dfyconfig.toml` checks it.

## Reading guide

- `Keys`, `Paths`, `Enumerations`: the key order, paths, and visiting keys in order.
- `Nodes`, `LeafViews`, `DataViews`: the data tree with priorities, its description by leaves, and the tree
  without its priorities.
- `Ranges`, `RangeLoops`, `RangeOutcomes`, `RangeMerges`: a range merge as a recursion, what its loop over an
  unordered child set can leave, and the methods. `RangeLaws`, `RangeSync`, `RangePriorities`: what it does to
  every leaf, the sync protocol, and what it does to every priority.
- `HashTexts`, `Leaves`, `HashRanges`, `HashBuilders`: the texts that are hashed, the order of leaves, what a
  range holds, and the stateful builder.
- `ImmutableTrees`, `CompoundWrites`, `Overlays`, `Replays`: compound writes, and applying them to a tree.
  `VisitOrders`, `Survivals`, `Priorities`: in which order, what is left, and what becomes of priorities.
- `Layering`, `Removals`, `WriteLogs`, `Observations`, `RemovalMarks`, `HiddenWrites`, `RemovalVerdicts`: the
  write log, and when its cache stays right. `LogContents`: what is in the log. `EventCaches`, `EventAnswers`,
  `ChildAnswers`, `PriorityCaches`: what the event caches answer and when. `WriteTrees`: the class with the three
  mutable fields.
- `UpdatePaths`: reading a multi-path update. `KeyNeighbours`, `KeyPredecessors`, `PushIds`: keys next to a key,
  and new keys.
- `Indexes`, `IndexedNodes`, `ListingOrders`, `Numbers`: the orders a query can ask for, the index that follows
  a node, in which order it lists the children, numbers.
- `Exports`, `Readings`: trees as JSON values, and how other JSON values are read. `Framing`: messages over websocket frames.

Methods and classes follow the source's loops and mutable fields; each is tied by its contract to a
specification function, and the laws are lemmas about those functions.

## Choices that decide which statements are true

- **Keys** are sequences of UTF-16 code units. `compareKey` cannot tell "-0" from "00" (`Keys.Ties`), and the
  child dictionary is ordered by it, so the keys of trees exclude the negative zeros; on the others the order
  is total. The children of a write tree are visited in string order, modelled as code-unit order.
- **Canonical trees.** No hollow child is stored. Every put keeps trees that way, so equality of trees is
  plain equality. Numbers are modelled by exact value, as the source compares them; `Numbers` justifies this.
- **Priorities** are part of every tree. A node that becomes empty loses its priority, and priority writes come
  last, so laws that compare different orders of writing hold in the priority-free fragment (`Nodes.Plain`,
  `Replays.PlainTree`) or for the data (`DataViews.Data`). Whether the order of a child set matters to a range
  merge is decided exactly (`RangeOutcomes`). The laws of get and put, compound writes, localisation, layering,
  the shadowed and the plain removal, and the event caches hold for trees with priorities, at paths that do not
  end in ".priority". At such a path localisation and the answer to a server overwrite are right under an exact condition
  (`Priorities`, `PriorityCaches`).
- **Where the code and its documentation disagree** the model follows the code, gives a concrete case and
  proves the exact condition:
  - a range merge keeps a leaf strictly above the end of its interval (`RangeSync.StrandedLeafStays`,
    `RangeSync.MeetsDocumentation`);
  - the filter used by a rebuild accepts hidden records, though its comment says it keeps what is visible
    (`RemovalVerdicts.ResetShowsHidden`, `RemovalVerdicts.OverwriteRemovalVerdict`);
  - a removal that skips the rebuild can leave a trace (`RemovalVerdicts.PlainRemovalForgetsNothing`,
    `RemovalVerdicts.ShadowedRemovalLeavesTrace`, `RemovalVerdicts.PlainRemovalTakesMergeAlong`,
    `RemovalVerdicts.RemovalVerdict`);
  - a range merge can lose a priority it does not touch (`RangeMerges.OrderDecidesPriority`,
    `RangeOutcomes.OneOutcomeAlongBounds`);
  - a merge rooted above the layering root is looked up with the relative path twice, and ignored below the
    root (`Layering.MergeMisread`, `Layering.MergeSeenExact`);
  - an event cache claims to be complete without server data when writes are excluded or hidden writes are
    included (`EventCaches.ExcludedLooksEmpty`, `EventCaches.ResultWithoutServer`);
  - a pending priority is taken to be shown whatever the data (`PriorityCaches.PendingPriorityShowsLate`,
    `PriorityCaches.NoPriorityAnswerExact`);
  - the enumeration that feeds the compound hash skips a priority when no child key sorts after ".priority"
    (`Leaves.PrioritySkipped`, `Leaves.PriorityEnumerated`);
  - the successor of a key can sort before it (`KeyNeighbours.SuccessorSortsBefore`,
    `KeyNeighbours.SuccessorIsLarger`).
- **Parameters** stand for what cannot be seen: the random digits of push ids, the clock, rounding to a double,
  and whether a text parses as a JSON object are arbitrary functions or values; whether a hash range ends after
  a leaf is an arbitrary choice.

## Model

| member | source | states |
|---|---|---|
| `RangeSync.SyncReachesTarget` | Sources/FirebaseDatabase/FRangeMerge.swift:44-115 | For any priority-free stale and target tree and any increasing leaf paths of the stale tree as posts: applying in order one merge per interval, leaving out intervals on which both trees agree, turns the stale tree into exactly the target |
| `RangeSync.SyncReachesData` | Sources/FirebaseDatabase/FRangeMerge.swift:44-115 | For any trees with priorities, posts at data leaves, and whatever orders the child sets are visited in: the sync turns the stale tree into one that differs from the target at most in its priorities |
| `RangeSync.StageLeaves` | Sources/FirebaseDatabase/FRangeMerge.swift:44-115 | The loop invariant of that sync, leaf by leaf: after the merge that ends at a post the tree has the target's leaves up to the post, and beyond it the stale leaves that do not lie under such a leaf |
| `RangeSync.ApplyServerRangeMerges` | Sources/FirebaseDatabase/Core/FSyncTree.swift:203-225 | The loop over the received merges applies each of them, in order, to the server cache: each result is an outcome of the merge on the one before, and without priorities the outcome |
| `RangeSync.MeetsDocumentation` | Sources/FirebaseDatabase/FRangeMerge.swift:17-26 | The result has exactly node's leaves outside the interval and the update's leaves inside it if and only if those leaves can form a tree and no leaf of the node inside the interval is left standing strictly above its end |
| `RangeSync.StrandedLeafStays` | Sources/FirebaseDatabase/FRangeMerge.swift:44-115 | The counterexample: a leaf strictly above the end lies in the interval and is nevertheless kept |
| `RangeLaws.UpdateRangeLeaves` | Sources/FirebaseDatabase/FRangeMerge.swift:44-115 | For all priority-free trees, intervals and paths, the leaf of the result is given by a non-recursive formula: update leaves inside the interval win over everything comparable, node leaves inside it go unless they lie above its end, the others stay |
| `RangeSync.OutcomeLeaves` | Sources/FirebaseDatabase/FRangeMerge.swift:44-115 | The same formula for all trees with priorities and every order of the child sets |
| `RangePriorities.UpdateRangePriorities` | Sources/FirebaseDatabase/FRangeMerge.swift:44-115 | The like formula for priorities, wherever something is left: the update's when the path of the priority lies in the interval (strictly above the end only if it has one) or when the update puts a leaf at a path of the interval, else the node's; this is what the merge leaves when no priority is lost on the way |
| `RangePriorities.OutcomePriorities` | Sources/FirebaseDatabase/FRangeMerge.swift:77-111 | For every order of the child sets: the priority at a path is that one, or it is lost, and then the node there keeps it, none of its children is left and something else is |
| `RangePriorities.PriorityLossExact` | Sources/FirebaseDatabase/FRangeMerge.swift:77-111 | Some order loses the priority at a path if and only if that guard holds there; the guard speaks of the interval, the leaves and the priorities alone |
| `RangePriorities.SameLeavesAndPriorities` | Sources/FirebaseDatabase/FNode.swift:184-204 | Leaves and priorities tell the whole tree, so the two formulas determine the merged tree |
| `RangeMerges.UpdateRangeInNode` | Sources/FirebaseDatabase/FRangeMerge.swift:44-115 | On all canonical trees the recursive algorithm leaves a canonical tree that is one of the outcomes told by `RangeOutcomes.IsOutcome`, on priority-free trees the only one; its assertions hold |
| `RangeMerges.UpdateChildren` | Sources/FirebaseDatabase/FRangeMerge.swift:77-111 | The loop visits each key of the child set once, in some order, and then the priority; what it leaves is an outcome of the merge |
| `RangeOutcomes.OneNodeExact` | Sources/FirebaseDatabase/FRangeMerge.swift:77-111 | All orders of the child set leave the same node, the one with the children patched side by side, if and only if not: an object keeps its priority while the merge deletes all its children and adds another |
| `RangeOutcomes.OneOutcomeExact` | Sources/FirebaseDatabase/FRangeMerge.swift:44-115 | For all trees with priorities: the recursion has only one outcome, whatever the orders at all nodes, if and only if that guard fails at every node it takes apart and leaves something of |
| `RangeOutcomes.OneOutcomeAlongBounds` | Sources/FirebaseDatabase/FRangeMerge.swift:44-115 | With leaf priorities, as trees have them: if and only if at no path to one of the two bounds an object keeps its priority while all its children are replaced |
| `RangeOutcomes.OutcomesShareData` | Sources/FirebaseDatabase/FRangeMerge.swift:77-111 | All outcomes are canonical and differ at most in priorities |
| `RangeOutcomes.UpdateRangeIsOutcome` | Sources/FirebaseDatabase/FRangeMerge.swift:77-111 | Some orders keep every priority, so the recursion with the children patched side by side is an outcome |
| `DataViews.DataOfRange` | Sources/FirebaseDatabase/FRangeMerge.swift:44-115 | Leaving the priorities away before a range merge is leaving them away after it |
| `RangeMerges.OrderDecidesPriority` | Sources/FirebaseDatabase/FRangeMerge.swift:77-111 | The case that fails with priorities: a merge that deletes one child, adds another and leaves the priority as it is has both outcomes, with the priority and without it |
| `RangeSync.AdjacentMergesCompose` | Sources/FirebaseDatabase/FRangeMerge.swift:17-26 | Merging up to a path and then from it equals merging the whole interval, when the path sorts before the end and does not contain it, and no leaf of the node is stranded above it |
| `RangeSync.OnlyRangeMatters` | Sources/FirebaseDatabase/FRangeMerge.swift:17-26 | Two updates that agree inside the interval patch every tree alike |
| `RangeSync.SelfMerge` | Sources/FirebaseDatabase/FRangeMerge.swift:17-26 | Merging a tree into itself changes nothing |
| `HashBuilders.FromNode` | Sources/FirebaseDatabase/FCompoundHash.swift:202-227 | For every split strategy, also one that keeps a state: parentheses balance in each range text, a post is the path of the last leaf of its range, every leaf is written into exactly one range and in order, each text holds exactly the leaves of the interval between its posts, hashes outnumber posts by one and the last is empty; without priorities the posts are increasing leaf paths |
| `HashBuilders.HashBuilder.ProcessNode` | Sources/FirebaseDatabase/FCompoundHash.swift:214-227 | Visiting a tree appends exactly its leaves, below the current path and in order, to what has been written, and leaves the key stack as it was |
| `HashBuilders.HashBuilder.ProcessLeaf` | Sources/FirebaseDatabase/FCompoundHash.swift:116-125 | Writes one leaf at the current path and, if the strategy says so, closes the range after it |
| `HashBuilders.HashBuilder.StartChild` | Sources/FirebaseDatabase/FCompoundHash.swift:127-142 | Opens a child in the text and on the key stack, after a comma when one is due; no leaf is added or lost |
| `HashBuilders.HashBuilder.EndChild` | Sources/FirebaseDatabase/FCompoundHash.swift:144-150 | Closes the innermost open child; no leaf is added or lost |
| `HashBuilders.HashBuilder.EndRange` | Sources/FirebaseDatabase/FCompoundHash.swift:164-180 | Closes every open parenthesis, emits the text with the path of its last leaf as post, and keeps all leaves |
| `HashBuilders.HashBuilder.FinishHashing` | Sources/FirebaseDatabase/FCompoundHash.swift:152-162 | Closes the open range and adds the empty hash that stands for everything after the last post |
| `HashRanges.PostsAreGood` | Sources/FirebaseDatabase/FCompoundHash.swift:164-180 | Posts of a priority-free tree are leaf paths of it in strictly increasing order |
| `HashRanges.TextsForIntervals` | Sources/FirebaseDatabase/FCompoundHash.swift:164-180 | The text of the i-th range holds exactly the leaves that lie in the i-th interval cut out by the posts, and after the last post there are none |
| `HashRanges.SameTextSameLeaves` | Sources/FirebaseDatabase/FCompoundHash.swift:164-180 | Two priority-free trees with the same text for an interval have the same leaves in it |
| `HashBuilders.Resynchronise` | Sources/FirebaseDatabase/FCompoundHash.swift:202-211 | End to end: when the server answers the posts and hashes of a stale tree, leaving alone only ranges whose text is its own and sending the content of the others, applying the answers gives exactly the server's tree |
| `Leaves.LeavesInOrder` | Sources/FirebaseDatabase/FNode.swift:497-528 | The enumeration visits leaves, priorities among them, in strictly increasing path order |
| `Leaves.LeavesAreLeaves` | Sources/FirebaseDatabase/FNode.swift:517-528 | Everything visited in a priority-free tree is a leaf of it, with its path |
| `Leaves.EveryLeafIsVisited` | Sources/FirebaseDatabase/FNode.swift:517-528 | And every leaf is visited |
| `Leaves.PriorityEnumerated` | Sources/FirebaseDatabase/FNode.swift:497-515 | The enumeration of a node shows its priority if and only if some child key sorts after ".priority" |
| `Leaves.PrioritySkipped` | Sources/FirebaseDatabase/FNode.swift:497-515 | The case that fails: with the single child "1" a node with a priority and the same node without one have the same enumeration |
| `WriteLogs.RunKeepsCache` | Sources/FirebaseDatabase/FWriteTree.swift:54-148 | Over every run, priorities included, the cached overlay equals layering the visible part of the log, provided each removal that skips the rebuild is untangled from the records above it and each rebuild finds no hidden record left |
| `WriteLogs.RemovalKeepsCache` | Sources/FirebaseDatabase/FWriteTree.swift:91-141 | One removal keeps the cache right: of a hidden record always; shadowed or plain, when every other visible record rooted strictly above is later and fully shadows the removed path or writes nothing above or below it; with a rebuild, when no hidden record is left |
| `WriteLogs.AddKeepsCache` | Sources/FirebaseDatabase/FWriteTree.swift:54-80 | Adding an overwrite or a merge keeps the cache equal to layering the visible log |
| `WriteLogs.StepKeepsLog` | Sources/FirebaseDatabase/FWriteTree.swift:54-148 | Records stay valid and write ids stay increasing under every operation |
| `LogContents.RemovalTakesOut` | Sources/FirebaseDatabase/FWriteTree.swift:91-141 | After a removal, by whichever exit, the log has exactly the records with other ids, in the order of their ids, and the id is no longer found |
| `LogContents.RunContents` | Sources/FirebaseDatabase/FWriteTree.swift:54-148 | Over every run the log has exactly the records that were added, or there from the start, and neither removed nor swept away since, in the order of their ids |
| `LogContents.NothingAfterRemoveAll` | Sources/FirebaseDatabase/FWriteTree.swift:143-148 | After a run that ends with removing all writes log and overlay are empty |
| `LogContents.LastIdAfter` | Sources/FirebaseDatabase/FWriteTree.swift:405-414 | The last write id is the one just added; after a rebuild the largest in the log, or -1; otherwise unchanged |
| `LogContents.AnswerOfRemoval` | Sources/FirebaseDatabase/FWriteTree.swift:100-140 | The caller is told to look again exactly when the record was there, visible and not covered by a later visible record; else the overlay is as it was |
| `WriteTrees.WriteTree.AddOverwriteAtPath` | Sources/FirebaseDatabase/FWriteTree.swift:54-65 | The three fields after the call, as one step of the log |
| `WriteTrees.WriteTree.AddMergeAtPath` | Sources/FirebaseDatabase/FWriteTree.swift:71-80 | The three fields after the call, as one step of the log |
| `WriteTrees.WriteTree.RemoveWriteId` | Sources/FirebaseDatabase/FWriteTree.swift:91-141 | The three fields after the call in each exit (unknown, hidden, shadowed, rebuilt, plainly removed), and when the caller is told to reevaluate |
| `WriteTrees.WriteTree.RemoveAllWrites` | Sources/FirebaseDatabase/FWriteTree.swift:143-148 | Returns the log and empties log and cache; the last id stays |
| `WriteTrees.WriteTree.ResetTree` | Sources/FirebaseDatabase/FWriteTree.swift:409-413 | The cache becomes the layering of every record, hidden ones included |
| `WriteTrees.ScanOtherWrites` | Sources/FirebaseDatabase/FWriteTree.swift:104-121 | The backward scan finds whether a later visible record shadows the removed path, else whether any visible record lies at or below it |
| `WriteTrees.RecordContainsPath` | Sources/FirebaseDatabase/FWriteTree.swift:391-403 | True exactly when one single write of the record lies at or above the path |
| `RemovalVerdicts.RemovalVerdict` | Sources/FirebaseDatabase/FWriteTree.swift:91-141 | In any log of priority-free overwrites and merges, visible or hidden, the cache is right after a removal if and only if the guard of its exit holds: hidden always; shadowed when no entry leaves a trace; rebuilt when every hidden write is covered up; plain when every entry goes |
| `RemovalVerdicts.RunVerdict` | Sources/FirebaseDatabase/FWriteTree.swift:54-148 | Over every run of adds and removals of such records the cache is right after each operation if and only if each removal meets its guard |
| `RemovalVerdicts.OverwriteRemovalVerdict` | Sources/FirebaseDatabase/FWriteTree.swift:91-141 | In a log of overwrites the guards are those of one write: behind a shadow it leaves no trace; in a plain removal no earlier value held something else at its path |
| `RemovalMarks.ShadowedExact` | Sources/FirebaseDatabase/FWriteTree.swift:109-113 | Skipping a shadowed removal is right if and only if no entry of the record displaced a leaf of an earlier value that only deletions followed |
| `RemovalMarks.SeparateExact` | Sources/FirebaseDatabase/FWriteTree.swift:126-139 | Erasing the entries of a record gives the overlay of the other writes if and only if, for each entry: all other writes lie beside it; or one lies above it, and the entry is seen nowhere at, below or above its path after the later writes |
| `HiddenWrites.HiddenExact` | Sources/FirebaseDatabase/FWriteTree.swift:126-132 | All records layered show what the visible ones show if and only if every hidden write is covered up: below its path, where nothing later covers it, the visible writes show the same; and it puts no data below a leaf that the visible writes show and nothing later covers |
| `Removals.OverwriteRemovalExact` | Sources/FirebaseDatabase/FWriteTree.swift:126-139 | The plain removal of an overwrite equals the rebuild if and only if no earlier value lay above it, or it put there what that value already had; priorities included |
| `Removals.SeparateRemoval` | Sources/FirebaseDatabase/FWriteTree.swift:126-139 | Erasing the writes of a record from the overlay equals layering the log without it, when the other writes lie beside them; priorities included |
| `Removals.ShadowedRemoval` | Sources/FirebaseDatabase/FWriteTree.swift:109-113 | A record that a later write covers leaves no trace, when no earlier write lies strictly above it; priorities included |
| `RemovalVerdicts.PlainRemovalForgetsNothing` | Sources/FirebaseDatabase/FWriteTree.swift:126-139 | The counterexample for the plain removal: set a, set a/a, take back the second; the overlay still has what it did to a |
| `RemovalVerdicts.ShadowedRemovalLeavesTrace` | Sources/FirebaseDatabase/FWriteTree.swift:109-113 | The counterexample for the shadowed exit: set a, set a/a, delete a/a, take back the second; a stays deleted in the overlay |
| `RemovalVerdicts.PlainRemovalTakesMergeAlong` | Sources/FirebaseDatabase/FWriteTree.swift:126-139 | Another: a merge at the root sets a/b, then a is set and taken back; the merge's write is erased with it |
| `RemovalVerdicts.ResetShowsHidden` | Sources/FirebaseDatabase/FWriteTree.swift:416-422 | The counterexample for the rebuild: it layers a hidden record, contrary to the comment on the filter |
| `Observations.SameObservationsSameTree` | Sources/FirebaseDatabase/FCompoundWrite.swift:109-125 | Two priority-free overlays that answer every lookup alike, up to the leaf at the path, are the same |
| `Observations.ShownIsObserved` | Sources/FirebaseDatabase/FCompoundWrite.swift:54-68 | What an overlay of added writes answers at a path, without recursion: the leaf that the last write at or above it puts there, unless a later write put data strictly below |
| `Observations.ShownAfterErasing` | Sources/FirebaseDatabase/FCompoundWrite.swift:90-97 | What it answers after writes are removed: nothing at and below each removed path without a write strictly above it, everything else as before |
| `Layering.LayerTreeFromWrites` | Sources/FirebaseDatabase/FWriteTree.swift:429-484 | The loop layers the records the filter keeps, in order, at the given root |
| `Layering.LayerSeenExact` | Sources/FirebaseDatabase/FWriteTree.swift:429-484 | Layering at a path equals the part below that path of the full layering, from the last overwrite at or above the path on, if and only if every later merge rooted above fits on top of what the log before it shows there; priorities included, for paths that do not end in .priority |
| `Layering.LayerSeenFrom` | Sources/FirebaseDatabase/FWriteTree.swift:429-484 | In particular the whole log layered at the path is the full layering seen from there when the merges after that overwrite fit, whatever went before it |
| `Layering.MergeSeenExact` | Sources/FirebaseDatabase/FWriteTree.swift:461-474 | For a merge rooted strictly above the path, on top of any overlay: the code is right if and only if the complete node at the path is unchanged by the second descent, or the merge's writes at and below the path change nothing there |
| `Layering.MergeAloneExact` | Sources/FirebaseDatabase/FWriteTree.swift:461-474 | For such a merge alone: if and only if the complete node is unchanged by the second descent, or the merge writes nothing at or below the path |
| `Layering.MergeMisread` | Sources/FirebaseDatabase/FWriteTree.swift:461-474 | The case that fails: a merge at the root that sets a/b, layered at a/b, loses the value |
| `Layering.NothingToPut` | Sources/FirebaseDatabase/FCompoundWrite.swift:74-88 | Adding writes that lie apart changes nothing if and only if each of them is already complete there with its value |
| `Layering.EntriesRoundTrip` | Sources/FirebaseDatabase/FCompoundWrite.swift:74-88 | Adding the enumerated writes of a compound write to the empty one gives it back |
| `Layering.EntriesAreApart` | Sources/FirebaseDatabase/FCompoundWrite.swift:207-215 | The enumerated writes are pairwise incomparable |
| `Layering.EntriesAreSound` | Sources/FirebaseDatabase/FImmutableTree.swift:316-326 | Every enumerated pair is a value of the tree at that path |
| `Layering.EntriesAreComplete` | Sources/FirebaseDatabase/FImmutableTree.swift:316-326 | And every value is enumerated |
| `EventCaches.CachedEqualsRelayered` | Sources/FirebaseDatabase/FWriteTree.swift:170-214 | The event cache computed from the cached overlay (no exclusions given) equals the one from re-layering the log (an empty list of exclusions), when the cache agrees with the log and merges rooted above fit |
| `EventCaches.EachKeptFits` | Sources/FirebaseDatabase/FWriteTree.swift:455-474 | Every log in which each merge rooted above the path fits by itself, in particular one without such merges, meets the condition of these event cache laws |
| `EventCaches.EventCacheIsEventTree` | Sources/FirebaseDatabase/FWriteTree.swift:216-244 | With server data and a right cache, for every list of exclusions: the result is the part below the path of the event tree, that is, of the kept log layered at the top and applied to the whole server tree |
| `EventAnswers.WholeLogIsShown` | Sources/FirebaseDatabase/FWriteTree.swift:199-212 | With hidden writes included, or none in the log, and nothing excluded: the event cache is the part below the path of the whole log layered over the server tree |
| `EventAnswers.ExcludedIsDeleted` | Sources/FirebaseDatabase/FWriteTree.swift:201-207 | Excluding one id more gives the answer for the log from which that record is deleted, for every path, with or without server data and hidden writes |
| `EventAnswers.HiddenAreNotShown` | Sources/FirebaseDatabase/FWriteTree.swift:201-207 | Unless hidden writes are included, deleting a hidden record from the log changes no answer |
| `EventAnswers.AnswerExact` | Sources/FirebaseDatabase/FWriteTree.swift:170-244 | There is an answer if and only if there is server data, hidden writes are included, or the event subtree of the visible writes is the same for all server trees, whatever is excluded |
| `EventCaches.ResultWithoutServer` | Sources/FirebaseDatabase/FWriteTree.swift:170-214 | For all exclusions and with or without hidden writes: an answer given without server data is the event subtree of every server tree if and only if the kept records are complete at the path |
| `EventCaches.DefaultResultIsRight` | Sources/FirebaseDatabase/FWriteTree.swift:170-190 | Without exclusions and hidden writes such an answer is always right |
| `EventCaches.ExcludedLooksEmpty` | Sources/FirebaseDatabase/FWriteTree.swift:191-212 | The case that fails: a pending set, excluded, and no server data; the answer is that there is nothing, whatever the server has |
| `EventCaches.ServerOverwriteIsExact` | Sources/FirebaseDatabase/FWriteTree.swift:296-326 | At paths that do not end in .priority, no result means the event tree at the path is the same for every server tree; a result is the exact event subtree |
| `EventAnswers.OverwriteAnswerExact` | Sources/FirebaseDatabase/FWriteTree.swift:296-326 | There is no result if and only if the event subtree at the path is the same for all server trees |
| `PriorityCaches.PriorityAnswerExact` | Sources/FirebaseDatabase/FWriteTree.swift:296-326 | At a priority, as the view processor asks (FViewProcessor.swift:180-187): a result is the priority of the event tree if and only if the server's priority is none, or some leaf of the server's data there is not deleted before the overlay puts data |
| `PriorityCaches.NoPriorityAnswerExact` | Sources/FirebaseDatabase/FWriteTree.swift:296-326 | At a priority: no result means the priority shown is the same for all server trees if and only if a value shadows the node, the written priority is none, or the overlay puts data there |
| `PriorityCaches.PendingPriorityShowsLate` | Sources/FirebaseDatabase/FWriteTree.swift:296-326 | The case that fails: only the root's priority is written; there is no result, but the priority shown depends on whether the server has data |
| `EventCaches.CompleteChildIsExact` | Sources/FirebaseDatabase/FWriteTree.swift:328-341 | A result for a child other than .priority is the exact event subtree of the child, for every server tree the cache reflects |
| `ChildAnswers.CompleteChildExact` | Sources/FirebaseDatabase/FWriteTree.swift:328-341 | There is a result for a child if and only if the event subtree of the child is the same for all server trees the cache may stand for, that is, all that have the children the cache holds and, if it is fully initialised and unfiltered, no others; then the result is that subtree |
| `EventCaches.RootEventCacheIsReplay` | Sources/FirebaseDatabase/FWriteTree.swift:170-214 | The root event cache is the server's tree with all visible writes put one after the other, when no deletion takes back what displaced a server leaf |
| `EventCaches.PuttingDataNeverDiverges` | Sources/FirebaseDatabase/FNode.swift:314-333 | That condition holds when every write puts data or has no server leaf strictly above it |
| `WriteTrees.WriteTree.CalculateCompleteEventCacheAtPath` | Sources/FirebaseDatabase/FWriteTree.swift:170-244 | Both branches compute the specified event cache |
| `WriteTrees.WriteTree.CalculateEventCacheAfterServerOverwriteAtPath` | Sources/FirebaseDatabase/FWriteTree.swift:296-326 | Computes the specified event cache after a server overwrite |
| `WriteTrees.WriteTree.CalculateCompleteChildAtPath` | Sources/FirebaseDatabase/FWriteTree.swift:328-341 | Computes the specified complete child |
| `Replays.OverlayEqualsReplay` | Sources/FirebaseDatabase/FCompoundWrite.swift:54-68 | Adding a priority-free write to the overlay and applying it equals applying the overlay and then putting the write, if and only if the write is not a deletion that takes back all the data the overlay put under a leaf of the base tree |
| `Replays.DeletionBringsLeafBack` | Sources/FirebaseDatabase/FCompoundWrite.swift:54-68 | The case that differs: over a leaf, set a child and delete it again; the overlay brings the leaf back, the replay leaves nothing |
| `Replays.LeafOfApplied` | Sources/FirebaseDatabase/FCompoundWrite.swift:165-205 | The leaf of the event tree at a path, without recursion: the complete write there, else nothing if data is written below, else the server's leaf |
| `Overlays.ApplySubtreeWrite` | Sources/FirebaseDatabase/FCompoundWrite.swift:165-199 | The loop over the children, with the priority write held back to the end, applies the write tree |
| `Overlays.AddCompoundWrite` | Sources/FirebaseDatabase/FCompoundWrite.swift:74-88 | Adds every enumerated write, below the path, in order |
| `Overlays.Localisation` | Sources/FirebaseDatabase/FCompoundWrite.swift:153-205 | For paths that do not end in .priority: the event tree below a path is the compound write seen from that path applied to the data below it; priorities included |
| `Priorities.PriorityLocalisation` | Sources/FirebaseDatabase/FCompoundWrite.swift:153-205 | At a priority the same holds if and only if a value shadows the node; or the priority is written, and is none, or the overlay puts data or reaches not every leaf; or it is not written, and is none, or some leaf is not deleted before data is put |
| `Survivals.EmptiedExactly` | Sources/FirebaseDatabase/FCompoundWrite.swift:165-199 | Some beginning of an overlay's writes leaves nothing of a tree if and only if every leaf lies at or below a deletion that is visited before the first write that puts data |
| `Survivals.LeftExactly` | Sources/FirebaseDatabase/FCompoundWrite.swift:165-199 | An overlay leaves something of a tree if and only if it puts data or some leaf lies at or below no written path |
| `VisitOrders.ApplyIsReplay` | Sources/FirebaseDatabase/FCompoundWrite.swift:165-199 | Applying a compound write is putting its writes one by one, children in string order and the priority of a node after everything below it; the guard against empty nodes is implied |
| `Priorities.PriorityLostOnTheWay` | Sources/FirebaseDatabase/FCompoundWrite.swift:165-199 | A case that fails: the only child of a node with a priority is deleted before another is set; the node is not empty in the end and has lost its priority |
| `Priorities.PriorityOfNothingIsHidden` | Sources/FirebaseDatabase/FCompoundWrite.swift:186-190 | Another: a priority written where there is no data |
| `Survivals.FillsExactly` | Sources/FirebaseDatabase/FCompoundWrite.swift:165-199 | A compound write leaves something of the empty tree if and only if it puts data, and then it leaves something of every tree |
| `Overlays.ShadowedMeansIndependent` | Sources/FirebaseDatabase/FCompoundWrite.swift:109-125 | Where a complete write shadows a path that does not end in .priority, the event tree there is that write's node, whatever the server has |
| `Overlays.ApplyBeside` | Sources/FirebaseDatabase/FCompoundWrite.swift:165-199 | Writes at or below a path leave everything beside it alone |
| `CompoundWrites.AddWriteIsPut` | Sources/FirebaseDatabase/FCompoundWrite.swift:54-68 | Adding a write by way of the root-most value, the relative path and the subtree replacement equals one plain recursion down the tree |
| `CompoundWrites.CompleteIsRecursive` | Sources/FirebaseDatabase/FCompoundWrite.swift:109-125 | The lookup by root-most value equals plain recursion |
| `CompoundWrites.ChildWriteIsRecursive` | Sources/FirebaseDatabase/FCompoundWrite.swift:153-163 | So does the compound write at a path |
| `CompoundWrites.PutKeepsWf` | Sources/FirebaseDatabase/FCompoundWrite.swift:54-68 | Adding a write keeps the tree prefix-free and pruned |
| `Layering.PutAllKeepsWf` | Sources/FirebaseDatabase/FCompoundWrite.swift:74-88 | So does adding a compound write |
| `CompoundWrites.RemoveKeepsWf` | Sources/FirebaseDatabase/FCompoundWrite.swift:90-97 | So does removing a write, and a removal inside a value is without effect |
| `CompoundWrites.ChildKeepsWf` | Sources/FirebaseDatabase/FCompoundWrite.swift:153-163 | So does the compound write at a path |
| `CompoundWrites.ChildOfPutBelow` | Sources/FirebaseDatabase/FCompoundWrite.swift:153-163 | A write at or below a path, seen from it, is that write at the relative path (this and the next two for paths that do not end in .priority) |
| `CompoundWrites.ChildOfPutAbove` | Sources/FirebaseDatabase/FCompoundWrite.swift:153-163 | A write at or above a path, seen from it, is a complete write of its part there |
| `CompoundWrites.ChildOfPutBeside` | Sources/FirebaseDatabase/FCompoundWrite.swift:153-163 | A write beside a path is not seen from it |
| `Priorities.PriorityOfPut` | Sources/FirebaseDatabase/FCompoundWrite.swift:153-163 | A priority write, seen from the priority, is held, unless it landed in a value that is empty there |
| `Priorities.PriorityOverPut` | Sources/FirebaseDatabase/FCompoundWrite.swift:153-163 | Another write below a node, seen from the node's priority, is not seen, unless it leaves nothing of a value there |
| `Nodes.UpdateKeepsCanonical` | Sources/FirebaseDatabase/FNode.swift:276-333 | No put ever stores an empty child or an object without children |
| `Nodes.GetAboveUpdate` | Sources/FirebaseDatabase/FNode.swift:249-333 | Reading at or above the written path gives the old subtree with the rest of the write applied; priorities included (this and the next two for paths that do not end in .priority) |
| `Nodes.GetBelowUpdate` | Sources/FirebaseDatabase/FNode.swift:249-333 | Reading below the written path gives the written node's part |
| `Nodes.GetBesideUpdate` | Sources/FirebaseDatabase/FNode.swift:249-333 | Reading beside the written path gives what was there |
| `Nodes.GetWrittenPriority` | Sources/FirebaseDatabase/FNode.swift:226-235 | A priority that is written is read back, unless there is nothing at its path |
| `Nodes.GetPriorityOverUpdate` | Sources/FirebaseDatabase/FNode.swift:276-289 | A write below a node keeps the node's priority, unless it leaves nothing there |
| `LeafViews.LeafAtUpdate` | Sources/FirebaseDatabase/FNode.swift:314-333 | The leaf at any path after a put: a leaf strictly above gives way to data, deleting under a leaf does nothing |
| `LeafViews.SameLeavesSameTree` | Sources/FirebaseDatabase/FNode.swift:184-204 | A canonical priority-free tree is determined by its leaves |
| `UpdatePaths.CompoundWriteFromDictionary` | Sources/FirebaseDatabase/FSnapshotUtilities.swift:46-68 | Accepts exactly the path sets in which no path contains another, and then maps each path to its node and nothing else |
| `UpdatePaths.NeighboursSuffice` | Sources/FirebaseDatabase/FSnapshotUtilities.swift:56-66 | In sorted paths, if any path contains another then some path contains its successor |
| `UpdatePaths.OrderDoesNotMatter` | Sources/FirebaseDatabase/FSnapshotUtilities.swift:46-55 | The accepted result is the same for every order in which the dictionary is visited |
| `Paths.PrefixFirst` | Sources/FirebaseDatabase/FPath.swift:168-185 | A path sorts before its extensions |
| `Paths.OrderSurvivesExtension` | Sources/FirebaseDatabase/FPath.swift:168-185 | Incomparable paths keep their order under any extensions |
| `Paths.PathTrichotomy` | Sources/FirebaseDatabase/FPath.swift:168-185 | Any two different paths are ordered one way |
| `Keys.TryParseStringToInt` | Sources/FirebaseDatabase/FUtilities.swift:36-71 | The digit loop parses exactly the 32-bit decimal integers of at most eleven characters, its 64-bit accumulator never overflows, and a failure leaves the result variable alone |
| `Keys.CompareKeyAntisymmetric` | Sources/FirebaseDatabase/FUtilities.swift:216-254 | Swapping the arguments flips the answer |
| `Keys.CompareKeyTransitive` | Sources/FirebaseDatabase/FUtilities.swift:216-254 | The order is transitive and strict steps stay strict |
| `Keys.SentinelsAndIntegers` | Sources/FirebaseDatabase/FUtilities.swift:216-254 | The two sentinel names bound every key and integers come before all other keys |
| `Keys.Ties` | Sources/FirebaseDatabase/FUtilities.swift:216-254 | Two keys tie if and only if they are equal or are spellings of zero of one length |
| `KeyNeighbours.RoundTripExact` | Sources/FirebaseDatabase/FNextPushId.swift:82-190 | For every valid key, the predecessor of the successor is the key itself if and only if it is a canonical integer, or no integer and shorter than the maximal length, or neither all largest characters nor one of the keys that become integers |
| `KeyNeighbours.SuccessorIsInteger` | Sources/FirebaseDatabase/FNextPushId.swift:98-129 | The successor of a key that is no integer reads as one if and only if the key has the maximal length, at most eleven characters are left of it before the largest ones, the last is a minus sign or a digit below nine, and with the next digit there they spell a 32-bit integer |
| `KeyNeighbours.NoKeyBetween` | Sources/FirebaseDatabase/FNextPushId.swift:82-130 | No valid key lies strictly between a key that is no integer and its successor, surrogate carries and skipped characters included |
| `KeyNeighbours.SuccessorIsLarger` | Sources/FirebaseDatabase/FNextPushId.swift:80-130 | The successor of a key that is no integer sorts after it if and only if the key is not one of those |
| `KeyNeighbours.SuccessorSortsBefore` | Sources/FirebaseDatabase/FNextPushId.swift:80-130 | The case that fails: "0" and 785 of the largest character; the successor is 1, which sorts before |
| `KeyNeighbours.KeysBetweenIntegers` | Sources/FirebaseDatabase/FNextPushId.swift:82-92 | Between an integer key and its successor lie exactly the longer spellings of the same integer, so none among canonical keys |
| `KeyPredecessors.PredecessorExact` | Sources/FirebaseDatabase/FNextPushId.swift:132-190 | For a valid key that is no integer, no valid key lies between its predecessor and it, if and only if it does not end in the smallest character after an integer or nothing |
| `KeyPredecessors.KeysBeforeInteger` | Sources/FirebaseDatabase/FNextPushId.swift:134-142 | Between an integer key and its predecessor lie exactly the longer spellings of the integer before and the shorter spellings of its own |
| `KeyPredecessors.PredecessorIsSmaller` | Sources/FirebaseDatabase/FNextPushId.swift:132-190 | The predecessor of every valid key sorts before it |
| `PushIds.NextPushId.Get` | Sources/FirebaseDatabase/FNextPushId.swift:43-78 | The id and the new state for a fresh and for a repeated millisecond |
| `PushIds.NextPushId.CountUp` | Sources/FirebaseDatabase/FNextPushId.swift:64-70 | The carry loop leaves the successor of the twelve digits in the array |
| `PushIds.NextAddsOne` | Sources/FirebaseDatabase/FNextPushId.swift:64-70 | As a number in base 64 the random part grows by exactly one unless all digits are 63 |
| `PushIds.RunIsIncreasing` | Sources/FirebaseDatabase/FNextPushId.swift:43-78 | Over a whole run the ids strictly increase, for any random draws, if and only if times never decrease and no repeated millisecond finds the digits exhausted |
| `PushIds.NextIdIsLarger` | Sources/FirebaseDatabase/FNextPushId.swift:43-78 | The same for one step, in both directions |
| `PushIds.TimeIsEncoded` | Sources/FirebaseDatabase/FNextPushId.swift:51-58 | The first eight characters are equal if and only if the times are, and a later time gives a larger id whatever the random digits |
| `PushIds.IdsSortLikeNumbers` | Sources/FirebaseDatabase/FNextPushId.swift:18-19 | Encoded digit strings of one length sort by their characters like the numbers they denote, and as keys too once they are longer than eleven characters |
| `PushIds.IdsAreKeys` | Sources/FirebaseDatabase/FNextPushId.swift:18-78 | Every push id is a valid key of twenty characters, each a dash, a digit, a letter or an underscore |
| `PushIds.ExhaustedStartsOver` | Sources/FirebaseDatabase/FNextPushId.swift:64-70 | From exhausted digits the counter starts over with a one in the first place |
| `Framing.FramingRoundTrip` | Sources/FirebaseDatabase/FWebSocketConnection.swift:136-267 | Feeding a receiver the frames of any messages of at most 9999 chunks, with keepalives between them, delivers exactly those messages in order and leaves it idle |
| `Framing.ArrivesExactly` | Sources/FirebaseDatabase/FWebSocketConnection.swift:136-153 | A message arrives if and only if it has at most 9999 chunks, as a longer frame count is not recognised |
| `Framing.ChunksJoin` | Sources/FirebaseDatabase/FWebSocketConnection.swift:28-41 | The chunks are non-empty, of bounded length, and join to the text |
| `Framing.Split` | Sources/FirebaseDatabase/FWebSocketConnection.swift:28-41 | The index loop cuts the text into those chunks |
| `Framing.Send` | Sources/FirebaseDatabase/FWebSocketConnection.swift:136-153 | A single frame goes out as it is, several are preceded by their number |
| `Framing.WebSocketConnection.HandleIncomingFrame` | Sources/FirebaseDatabase/FWebSocketConnection.swift:258-267 | The receiver's fields and the delivered messages after a frame |
| `Framing.WebSocketConnection.ExtractFrameCount` | Sources/FirebaseDatabase/FWebSocketConnection.swift:246-256 | Short numbers start a new message and leave nothing; anything else is a frame by itself |
| `IndexedNodes.RunListsChildren` | Sources/FirebaseDatabase/FIndexedNode.swift:44-118 | After any run of child and priority updates the listing has each child once, in the order of the index, and equals that of an index built from scratch |
| `ListingOrders.RunListsInOrder` | Sources/FirebaseDatabase/FIndex.swift:23-55 | After any run each child is listed once, and of any two the first sorts before the second by what the index looks at (the value, the priority, the descendant): nothing, deferred values, false, true, numbers by value, texts by code units, objects; ties go by key, integers by value before all others by code units |
| `ListingOrders.RunNode` | Sources/FirebaseDatabase/FIndexedNode.swift:91-118 | After any run the node has at every key the child that was set last |
| `ListingOrders.NumbersSortAsStored` | Sources/FirebaseDatabase/FNode.swift:119-142 | The exact values by which numbers are listed order them as the comparison of the stored integers and doubles does, for every admissible rounding |
| `IndexedNodes.ListingIsUnique` | Sources/FirebaseDatabase/FIndexedNode.swift:44-71 | There is only one such listing |
| `IndexedNodes.UpdateChildStaysInStep` | Sources/FirebaseDatabase/FIndexedNode.swift:91-113 | An update of one child keeps the set, or the right to fall back to the key order, in step with the node |
| `IndexedNodes.ComputeIndexed` | Sources/FirebaseDatabase/FIndexedNode.swift:44-71 | The two loops find out whether the index is defined on some child and insert every child |
| `IndexedNodes.UpdateChild` | Sources/FirebaseDatabase/FIndexedNode.swift:91-113 | The new node and set after an update of one child |
| `IndexedNodes.EndsOfListing` | Sources/FirebaseDatabase/FIndexedNode.swift:120-142 | First and last child are the ends of the listing |
| `IndexedNodes.PredecessorInListing` | Sources/FirebaseDatabase/FIndexedNode.swift:144-158 | The predecessor of a child is the one before it in the listing |
| `IndexedNodes.NoPredecessor` | Sources/FirebaseDatabase/FIndexedNode.swift:144-158 | A key without a child has no predecessor |
| `Indexes.CompareNodesOrder` | Sources/FirebaseDatabase/FNode.swift:558-607 | Nodes are totally preordered by their values |
| `Indexes.CompareTotal` | Sources/FirebaseDatabase/FIndex.swift:23-55 | Children are ordered one way unless they have the same key and tie |
| `Indexes.BeforeTransitive` | Sources/FirebaseDatabase/FIndex.swift:23-55 | The order of every index is transitive |
| `Indexes.UndefinedByKey` | Sources/FirebaseDatabase/FIndex.swift:57-68 | Where an index is defined on neither of two children it orders them by key, which justifies the fallback |
| `Numbers.CompareNumbersIsExact` | Sources/FirebaseDatabase/FNode.swift:119-142 | Any mix of 64-bit integers and non-NaN doubles is ordered by real value, and a tie means ==, for every rounding section 4.3.1 of IEEE 754-2019 allows |
| `Numbers.SameMeansEqualExact` | Sources/FirebaseDatabase/FNode.swift:95-142 | The comparison and == agree if and only if the pair is not two doubles with a NaN among them |
| `Numbers.EqualHashAlike` | Sources/FirebaseDatabase/FNode.swift:108-117 | Equal numbers have the same double, so they hash alike |
| `Numbers.RoundingExists` | Sources/FirebaseDatabase/FNode.swift:76-82 | The assumptions on rounding can be met: rounding down to the next 64-bit binary value is such a rounding |
| `Exports.ExportRoundTrip` | Sources/FirebaseDatabase/FNode.swift:374-432 | Parsing the export of a canonical tree with leaf priorities gives the tree back, priorities included, if and only if it is within the limits on depth, text length and key characters |
| `Exports.InternalNodeFrom` | Sources/FirebaseDatabase/FSnapshotUtilities.swift:70-180 | The parser with its loop over the members and the priority beside the value, which a priority in the value replaces, every abort included, computes the specified node |
| `Exports.SeparateRoundTrip` | Sources/FirebaseDatabase/FSnapshotUtilities.swift:28-44 | Reading the export of a node without its priority, with the priority given beside it, gives the node with its priority, exactly within the same limits |
| `Exports.Export` | Sources/FirebaseDatabase/FNode.swift:374-432 | The loop over the children builds the specified export value |
| `Exports.LeafRoundTrip` | Sources/FirebaseDatabase/FSnapshotUtilities.swift:100-130 | A leaf with or without priority, deferred server values among them, comes back, or aborts when a text is too long or it lies too deep |
| `Readings.LeafExports` | Sources/FirebaseDatabase/FNode.swift:374-432 | A leaf without a priority is exported as its value, with one as a dictionary of .value and .priority, nothing as null |
| `Readings.ObjectExports` | Sources/FirebaseDatabase/FNode.swift:374-432 | An object is exported as a dictionary of exactly its exported children and, if it has one, its priority |
| `Readings.ArrayReadable` | Sources/FirebaseDatabase/FSnapshotUtilities.swift:155-176 | An array is read if and only if it does not lie too deep and every item can be read |
| `Readings.ArrayItemsAreChildren` | Sources/FirebaseDatabase/FSnapshotUtilities.swift:155-176 | Item i of an array is read as the child whose key is the shortest decimal spelling of i, and an array has no priority |
| `Readings.OnlyItemsAreChildren` | Sources/FirebaseDatabase/FSnapshotUtilities.swift:155-176 | And there are no other children |
| `Readings.ValueAlone` | Sources/FirebaseDatabase/FSnapshotUtilities.swift:86-99 | A dictionary with .value alone is read like the value, and aborts for null, arrays, and dictionaries that are no single server value |
| `Readings.OthersAreIgnored` | Sources/FirebaseDatabase/FSnapshotUtilities.swift:86-99 | Beside .value only a priority counts |
| `Readings.ServerValuesRead` | Sources/FirebaseDatabase/FSnapshotUtilities.swift:113-123 | The placeholders for the timestamp and for an increment become deferred values, others abort |
| `Readings.DictionaryReadable` | Sources/FirebaseDatabase/FSnapshotUtilities.swift:134-154 | Another dictionary is read if and only if it does not lie too deep, its priority can be one and be read, every key may be used and every member whose key does not start with a dot can be read |
| `Readings.MembersAreChildren` | Sources/FirebaseDatabase/FSnapshotUtilities.swift:134-154 | Its children are those members, each read by itself, and its priority is the priority of the node unless no child is left |
| `Readings.OwnPriorityCounts` | Sources/FirebaseDatabase/FSnapshotUtilities.swift:83-90 | A priority in the value counts, whatever is given beside it |

## Left out

- RangeSync.SyncReachesTarget: priority-free trees only; with priorities the data of the target is reached (`RangeSync.SyncReachesData`), but not always its priorities, as range merges can lose them and the enumeration that emits the posts may skip them.
- HashBuilders.Resynchronise: priority-free trees only, for the same reason.
- Replays.OverlayEqualsReplay: priority-free writes only, because an overlay applies priority writes after all others and a replay in the order of the log does not.
- RemovalVerdicts.RemovalVerdict: priority-free records only; with priorities the removal laws go one way (`WriteLogs.RemovalKeepsCache`).
- Layering.LayerSeenFrom: paths that end in .priority are not layered at; listens and transactions cannot be rooted there, as path strings may not contain a dot (FValidation.swift:193-203).
- EventCaches.EventCacheIsEventTree: the same.
- EventCaches.CompleteChildIsExact: the same, for children.
- ChildAnswers.CompleteChildExact: the same, for children.
- RangePriorities.OutcomePriorities: priorities are leaves without a priority of their own, as `validatePriorityNode` asks.
- Paths.PathTrichotomy: keys that spell a negative zero are not keys of trees, see above.
- KeyNeighbours.Successor: strings are well formed, as Swift strings are, so the replacement of lone surrogates on decoding does not occur.
- PushIds.NextPushId.Get: one call is one atomic step, as the mutex makes it; times before 1970 are not modelled.
- Numbers.CompareNumbersIsExact: both zeros are one value, and rounding is any function with the required properties.
- IndexedNodes.RunListsChildren: updates of ".priority" go through `updatePriority`, as an update of a child under that key would store the priority as a child.
- Exports.Export: priorities are leaves without a priority of their own, as `validatePriorityNode` asks; the form that is not for export turns objects into arrays and is not modelled.
- The paths in messages of the parser.
- UpdatePaths.CompoundWriteFromDictionary: starts from parsed paths and nodes; one path under two spellings of its string is two equal paths, which the neighbour test refuses.
- The node that stands for the maximum (`FNode.max`), `dataHash`, SHA-1 and base64: hashes are modelled as the texts that are hashed.
- Swift grapheme clusters, Unicode normalisation and canonical string equality.
- `calculateCompleteEventChildrenAtPath`, `calculateNextNodeAfterPost`, `FWriteTreeRef`: variations and pass-through of what is modelled.
- `compoundWrite(valueDictionary:)` and `compoundWrite(nodeDictionary:)`: they build the tree without the prefix check.
- `FViewProcessor`, `FEventGenerator`, sync points, listens and persistence.
- `FTree`, `FPruneForest`, URL parsing, validation beyond keys, leaf values and priorities.
- Sockets, timers, connection state, authentication, and the other Firebase products.
