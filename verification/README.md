# TrapFetch: models and proofs

TrapFetch records the file reads and mappings of an application, turns them into a prefetch plan,
and replays the plan when breakpoints planted in the running application are hit. This project
models its in-memory algorithms in Dafny 4.11 and proves what they promise. `dafny verify
dfyconfig.toml` checks all of it.

Code that works in place is modelled in place: classes with the fields of the source, linked
lists of nodes, loops with the branches of the source in its order. Each such method is proved
against a function on values, and the properties are lemmas about these functions.

- **Interval plan of the older analyzers.** `Extents`, `BurstPlan` and `BurstGroups`: reads are
  walked into a list sorted by (lba, offset) and fused, then fused again before printing.
  `CrossGroupPlan`, `CrossGroupBytes`, `CrossGroups` and `GroupLists`: the 64-bit variant first
  trims a batch against the groups before the current one.
- **Hash map.** `HashMaps`: linear probing over 8 slots, no tombstones, doubling through mutual
  recursion. `CandidateFilter`: its client, the choice of trigger candidates.
- **Analyzer.** `ReadQueues`, `ReadLists` and `Batching`: reads collect in a ring buffer and
  become a chain of lists. `Grouping`, `Plans` and `Handover`: runs of burst lists are put
  together. `Merging`, `Sorting` and `Tidying`: each list is sorted and merged. `SideLists`:
  inodes and triggers in order. `TriggerPlan` and `Triggers`: lists without a trigger are folded
  into the one before.
- **Prefetcher.** `PrefetchPlan` and `Delivery`: the plan files, written and read back, and the
  read-ahead requests of a group. `Pipeline`: all steps from the log to these requests.
  `Breakpoints`, `Planting`, `Fetching`, `Gates` and `Replaying`: the launch prefetch, planting,
  hitting and fetching over one byte memory.
- **Trace script.** `TraceDiff`: two disk traces are expanded to sectors and compared.
- `Sequences` and `Chains` hold what the linked lists share.

Where the code does something other than it seems meant to, the model does it too:

- A branch of the fusing pass, one of `merge` and one of trimming compute a length from a value
  they have just overwritten or from a stale copy. Each has a lemma that says exactly when bytes
  are lost or added. On sorted lists none are lost; the first merge of the analyzer runs before
  any sorting (analyzer/main.c:31) and can lose bytes.
- A stored 0 reads as "absent", so the candidate filter keeps addresses seen an odd number of
  times, not only those seen once.
- A trigger whose time ties with the newest one in the list is dropped, so the list can depend on the
  layout of the hash table.
- An empty queue leaves a blank node in an empty group of the 32-bit analyzer.
- The check for an earlier breakpoint compares an offset with the addresses of the restore nodes
  (prefetcher/prefetcher.c:376), so a breakpoint can be planted twice. The first restore node
  still has the original word, and that is the one a hit finds; but the count that stops planting
  (prefetcher/prefetcher.c:592) is used up (Gates.GateUsedUp).
- Trimming can put the nodes of an earlier group out of order, and the group then does not print all
  of its bytes (CrossGroupBytes.RunLosesAByte).
- After the first offset node of a mapped file, planting also tries the nodes of other files, with
  the md of the mapped one (prefetcher/prefetcher.c:367-374).

## Model

| member | source | states |
|---|---|---|
| BurstPlan.PlanIsOrderIndependent | old/sources/analyzer_32/analyzer.h:410-499 | Main result. Any two ways to read the same set of bytes, in any order and cut into any batches, leave the same printed list, and it is a normal form: sorted, nonempty, with gaps. The only condition on each is the exact one under which it is a normal form at all. |
| BurstPlan.PlanKeepsTheBytes | old/sources/analyzer_32/analyzer.h:410-499 | The printed list covers exactly the queued bytes, also with empty batches and zero lengths. |
| BurstPlan.PlanCovers | old/sources/analyzer_32/main.c:39-60 | The printed list is separated and covers, bytes and touching points, what was inserted. |
| BurstPlan.PlanIsCanonicalExactly | old/sources/analyzer_32/analyzer.h:415-424 | The printed list is a normal form if and only if the first batch was not empty, or some read of lba 0 touches offset 0 (an empty queue leaves a blank node in an empty group). |
| BurstPlan.InsertKeepsSorted | old/sources/analyzer_32/analyzer.h:427-498 | One insertion keeps the list strictly increasing in (lba, offset), whichever of the seven branches is taken. |
| BurstPlan.InsertCovers | old/sources/analyzer_32/analyzer.h:427-498 | One insertion covers exactly the old bytes and those of the new extent, also when a right extension runs into later nodes. |
| BurstPlan.InsertKeepsNonNegative | old/sources/analyzer_32/analyzer.h:427-498 | Insertion makes no length negative. |
| BurstPlan.InsertKeepsPositive | old/sources/analyzer_32/analyzer.h:427-498 | Insertion makes no length zero. |
| BurstPlan.InsertAllKeeps | old/sources/analyzer_32/analyzer.h:410-499 | Order and exact coverage over any number of insertions. |
| BurstPlan.AppendBatchesFromEmpty | old/sources/analyzer_32/analyzer.h:410-499 | Where the queue filled up does not matter: batches into an empty group act like one long sequence of insertions, with one blank in front if the first batch is empty. |
| BurstPlan.CoalesceSeparates | old/sources/analyzer_32/main.c:39-60 | On a sorted list the fusing pass separates all extents, not only neighbours. |
| BurstPlan.CoalesceCovers | old/sources/analyzer_32/main.c:39-60 | On a sorted list the fusing pass loses and adds no byte. |
| BurstPlan.FusingLosesExactly | old/sources/analyzer_32/main.c:51-55 | On any two extents the fusing pass loses bytes if and only if the second starts first and ends inside the first: the branch that overwrites the offset before using it. |
| Extents.CanonicalIsUnique | old/sources/analyzer_32/main.c:39-60 | Two lists in normal form with the same bytes are the same list. |
| BurstGroups.CircQueue.constructor | old/sources/analyzer_32/analyzer.h:345-366 | A new queue is empty, all slots blank. |
| BurstGroups.CircQueue.Insert | old/sources/analyzer_32/analyzer.h:301-320 | An entry goes to the end of the batch; a full queue drops it. |
| BurstGroups.CircQueue.Reset | old/sources/analyzer_32/analyzer.h:322-343 | The queue is emptied and all slots are blanked. |
| BurstGroups.AppendBurstList | old/sources/analyzer_32/analyzer.h:410-499 | In place: the linked list, with its tail pointer, becomes what the value-level batch says; for any list and queue. |
| BurstGroups.Walk | old/sources/analyzer_32/analyzer.h:427-498 | In place: one round of the insertion loop makes exactly one value-level insertion, the tail pointer stays right. |
| BurstGroups.Meet | old/sources/analyzer_32/analyzer.h:442-478 | In place: what happens at a node of the same lba (extend left, cover, extend right, link in front, pass, drop). |
| BurstGroups.AddAfter | old/sources/analyzer_32/analyzer.h:485-497 | In place: behind the last node, linked through the tail pointer. |
| BurstGroups.CoalesceInPlace | old/sources/analyzer_32/main.c:39-60 | In place: the loop before printing computes the fusing pass on the linked list. |
| BurstGroups.FuseNext | old/sources/analyzer_32/main.c:41-59 | In place: one step of that loop swallows the next node or moves on, as the value-level pass does. |
| CrossGroupPlan.AppendAcrossKeepsTheBytes | old/sources/analyzer/analyzer.h:413-541 | Main result. After an append no byte of any group is lost, and every byte of a queued entry with nonzero lba is in some group, although all comparisons use a stale copy of the entry and nodes of earlier groups may be rewritten. |
| CrossGroupPlan.RunKeepsTheBytes | old/sources/analyzer/analyzer.h:413-541 | The same over every run of appends and new groups; the current group stays sorted and all lengths positive. |
| CrossGroupPlan.TrimNodeKeeps | old/sources/analyzer/analyzer.h:428-446 | One node against one entry: what leaves the entry is in the node. |
| CrossGroupPlan.TrimWalkKeeps | old/sources/analyzer/analyzer.h:424-449 | A whole walk with the stale copy keeps every byte of the entry in the entry or in a node. |
| CrossGroupPlan.TrimGroupsKeep | old/sources/analyzer/analyzer.h:419-451 | Trimming a queue against all earlier groups loses no byte. |
| CrossGroupPlan.TrimGroupsKeepPositive | old/sources/analyzer/analyzer.h:419-451 | Trimming leaves all lengths positive. |
| CrossGroupPlan.DuplicatesAreDropped | old/sources/analyzer/analyzer.h:419-453 | A batch of which earlier groups already have everything leaves the current group as it is. |
| CrossGroupPlan.GroupsDropInside | old/sources/analyzer/analyzer.h:419-451 | What the groups before one leave of an entry is dropped if it is inside a node of that group. |
| CrossGroupPlan.BatchDropsInside | old/sources/analyzer/analyzer.h:422-449 | The same for one group and any place in the queue, although entries in front of it change the nodes. |
| CrossGroupBytes.TrimmingOvershootsExactly | old/sources/analyzer/analyzer.h:428-446 | In any group with gaps between its nodes, trimming an entry adds bytes that nobody read if and only if one node cuts off its start, another one, shorter than that, its end, and no other node meets it. |
| CrossGroupBytes.AddsOnlyIf | old/sources/analyzer/analyzer.h:428-446 | In any group at all, bytes are added only if two nodes cut off start and end like that and no node has all of the entry or is inside it. |
| CrossGroupBytes.NodesGrowInside | old/sources/analyzer/analyzer.h:433-437 | The nodes themselves only take bytes of the entry. |
| CrossGroupBytes.RunPrintsTheBytes | old/sources/analyzer/main.c:43-64 | Main result. In every run of batches without offsets below lo (0 in a log) whose groups, when they are closed, have each chain of touching nodes led by its first node, each byte that was ever queued is printed at the end, however later batches rewrite the groups. Led means that no later node of the file starts before that one or, unless it starts at lo, ends before it. |
| CrossGroupBytes.HeadsPrint | old/sources/analyzer/main.c:43-64 | The fusing pass keeps exactly the bytes of any list in file order in which no node of a file starts before the first node of an earlier chain. |
| CrossGroupBytes.LeadsPrint | old/sources/analyzer/main.c:43-64 | In particular of one whose chains are led by their first nodes. |
| CrossGroupBytes.SortedLeads | old/sources/analyzer/main.c:43-64 | A group still in order is led like that if the first node of each chain ends no later than the nodes of its file behind it, or starts at lo. |
| CrossGroupBytes.WalkKeepsLeads | old/sources/analyzer/analyzer.h:428-448 | Trimming an entry against a group keeps its chains led by their first nodes, although chains can grow together. |
| CrossGroupBytes.GroupsKeepLeads | old/sources/analyzer/analyzer.h:419-451 | So does trimming a queue against all earlier groups. |
| CrossGroupBytes.OneTrimPrintsExactly | old/sources/analyzer/main.c:43-64 | Two nodes in order are printed in full after trimming by any one entry that does not start below lo if and only if the first starts at lo (0 in a log) or ends at most one byte after the second. |
| CrossGroupBytes.AnyTrimPrintsExactly | old/sources/analyzer/main.c:43-64 | They are printed in full after trimming by any batch of such entries if and only if the first starts at lo or does not end after the second. |
| CrossGroupBytes.RunLosesAByte | old/sources/analyzer/main.c:43-64 | A run from nothing, readable at every step, that ends with a queued byte not printed. |
| CrossGroups.AppendBurstList | old/sources/analyzer/analyzer.h:413-541 | In place, over all groups of the list: queue entries, earlier groups and the current group end as the value-level append says. |
| CrossGroups.TrimNext | old/sources/analyzer/analyzer.h:429-445 | In place: one entry against one node. |
| CrossGroups.TrimEntry | old/sources/analyzer/analyzer.h:425-448 | In place: one entry along one group, stopping early if its copy has lba 0. |
| CrossGroups.TrimAgainst | old/sources/analyzer/analyzer.h:422-449 | In place: the queue against one group. |
| CrossGroups.TrimAll | old/sources/analyzer/analyzer.h:419-451 | In place: the queue against all earlier groups; the groups share no node and stay apart. |
| CrossGroups.InsertKept | old/sources/analyzer/analyzer.h:453-541 | In place: the entries that kept their lba are inserted, the first one directly if the group is empty. |
| GroupLists.GroupList.RunAll | old/sources/analyzer/main.c:246-285 | In place, over a whole run: as long as every batch can be read, the groups end as the run on values says. |
| GroupLists.GroupList.Append | old/sources/analyzer/main.c:246-247 | In place: a readable batch goes into the current group, and earlier groups are rewritten, as the step on values says. |
| GroupLists.GroupList.StartGroup | old/sources/analyzer/main.c:261-265 | In place: an idle period closes the current group. |
| HashMaps.HashMap.Put | analyzer/hashmap.h:234-258 | Main result. A put that returns 0 makes exactly the update of a mathematical map, rehashes included. The table grows if and only if there is no room for the key: it is full, or the key is new and all 8 slots from its home on are in use. A put that returns 1 leaves a valid table with a subset of the old bindings, and does so only if memory was refused or the keys are too many for the largest table: nine of them with hashes around one, or as many as it has slots. It terminates. |
| HashMaps.HashMap.Get | analyzer/hashmap.h:260-281 | Returns the binding, or 0 without one (a stored 0 is not told apart). No tombstones are needed. |
| HashMaps.HashMap.Remove | analyzer/hashmap.h:283-309 | Removes exactly the key; 0 if it was there, 1 if not. |
| HashMaps.HashMap.FindSlot | analyzer/hashmap.h:496-542 | Finds a slot if and only if the table is not full and has the key, or has a free slot less than 8 places behind hash % size, going round. It is the slot of the key, or else the first free one. |
| HashMaps.HashMap.NoRoomMeansCrowd | analyzer/hashmap.h:496-542 | Where a table of 2^31 slots has no room for a key, eight other keys have hashes less than 8 away from its hash, or the table is full. |
| HashMaps.NearIsProbed | analyzer/hashmap.h:512-527 | A slot is among the 8 that are probed exactly if it is less than 8 places behind the home slot, going round the table. |
| HashMaps.HashMap.FindKey | analyzer/hashmap.h:512-527 | The first probing pass finds the key if it is in one of the 8 slots, and else has counted 8 exactly if all are in use. |
| HashMaps.HashMap.FirstFree | analyzer/hashmap.h:529-541 | The second pass finds a free slot if and only if there is one, and it is the first. |
| HashMaps.HashMap.Locate | analyzer/hashmap.h:265-277 | The probing loop of get and remove. |
| HashMaps.HashMap.NotFound | analyzer/hashmap.h:265-280 | A key in none of its 8 slots is not in the table, with no tombstones: this is what removal keeps true. |
| HashMaps.HashMap.SmallTableHasRoom | analyzer/hashmap.h:496-542 | If all 8 probed slots are in use and the table is not full, it has more than 8 slots. |
| HashMaps.HashMap.Rehash | analyzer/hashmap.h:557-582 | On success the same bindings in a larger table; on failure a subset of them in a table of the old size, and only because memory was refused, the doubled size wraps around, or the keys are too many. |
| HashMaps.HashMap.MoveInto | analyzer/hashmap.h:358-384 | The iteration of a rehash moves every binding, or stops with a subset left behind. |
| HashMaps.HashMap.VisitSlot | analyzer/hashmap.h:366-381 | One slot of that iteration: the bindings stay divided between the two tables. |
| HashMaps.HashMap.MoveSlot | analyzer/hashmap.h:544-553 | The rehash iterator puts the element into the new table, then it is blanked in the old one. |
| HashMaps.HashMap.Clear | analyzer/hashmap.h:371-374 | Blanking a slot removes its binding and nothing else. |
| HashMaps.HashMap.Store | analyzer/hashmap.h:245-257 | Writing a slot that was found binds the key and keeps the table valid. |
| HashMaps.HashMap.Create | analyzer/hashmap.h:215-232 | Creates an empty table; fails exactly if the size is not a power of two or its memory is not granted. |
| HashMaps.HashMap.RemoveZeros | analyzer/hashmap.h:358-384 | Iterating with the removing callback leaves exactly the bindings with nonzero value. |
| HashMaps.Table.StoredConsistent | analyzer/hashmap.h:245-257 | The table invariant (each key once, within 8 probes of home, size equal to the number of slots in use) survives a store at any probe distance. |
| HashMaps.Table.ClearedConsistent | analyzer/hashmap.h:296-303 | The invariant survives blanking any slot, so removal needs no tombstone. |
| HashMaps.Table.FullMeansMany | analyzer/hashmap.h:504-507 | A table with all slots in use has at least as many bindings as slots. |
| HashMaps.AndTest | analyzer/hashmap.h:220-222 | n & (n - 1) is 0 exactly for powers of two. |
| HashMaps.DoublingWraps | analyzer/hashmap.h:558-559 | Doubling a power of two below 2^32 is exact or wraps to 0, which creation refuses: rehashing ends. |
| HashMaps.PowerGap | analyzer/hashmap.h:558-559 | Between two neighbouring powers of two there is no third. |
| CandidateFilter.SurvivorsAreOdd | analyzer/analyzer.c:417-429 | Main result. The addresses that survive are exactly those occurring an odd number of times, each with its last timestamp. |
| CandidateFilter.RecordedCounts | analyzer/analyzer.c:417-426 | What the map holds after any log: the last timestamp for odd counts, 0 for even ones. |
| CandidateFilter.ThirdTimeReturns | analyzer/analyzer.c:421-425 | An address seen three times survives. |
| CandidateFilter.FilterCandidates | analyzer/analyzer.c:411-428 | In place: the loop over the log and the removal pass compute the surviving bindings if all puts succeed, and these do unless memory is refused or the log has too many addresses for the largest table. Failed puts can lose addresses, but every binding left is to a time at which its address is in the log. |
| CandidateFilter.CollectTriggers | analyzer/analyzer.c:19-25 | In place: iterating over the table inserts each binding into the trigger list. |
| CandidateFilter.EntriesAreBindings | analyzer/analyzer.c:19-25 | Iterating over a table meets every binding exactly once and nothing else. |
| CandidateFilter.LayoutOnlyReorders | analyzer/analyzer.c:19-25 | Two tables with the same bindings list the same triggers, in some order. |
| CandidateFilter.TriggersIgnoreTheHash | analyzer/analyzer.c:429 | The trigger list depends only on the bindings, not on the hash or the layout, if triggers that share their time are equal and the newest; otherwise some order of the same entries gives another list. |
| CandidateFilter.LayoutMatters | analyzer/analyzer.c:19-25 | For any two addresses that collide in a table of 2 slots and share their time, two valid tables with the same bindings leave different trigger lists. |
| SideLists.MetasAreFirsts | analyzer/analyzer.h:195-248 | After any reads the list is strictly increasing in inode and has, for each inode, exactly its first read. |
| SideLists.InsertMetaKeeps | analyzer/analyzer.h:195-248 | One insertion keeps the order and adds at most the new node. |
| SideLists.MetaIsFirst | analyzer/analyzer.h:195-248 | Every node in the list is the first one that came with its inode. |
| SideLists.MetaIsThere | analyzer/analyzer.h:195-248 | No inode that came is missing. |
| SideLists.InsertMetaNode | analyzer/analyzer.h:195-248 | In place, by copying into the node found: the list becomes what the insertion on values says, the tail stays right. |
| SideLists.PlaceMeta | analyzer/analyzer.h:222-247 | In place: append, drop, or insert by copying, where the walk stopped. |
| SideLists.GenerateMetaList | analyzer/analyzer.c:378-393 | In place: all reads of a list are entered; the result is strictly increasing. |
| SideLists.TriggersAreKept | analyzer/analyzer.h:323-366 | Main result. Whatever is inserted, the list is in time order and holds exactly the triggers that did not tie with the newest one inserted before them. |
| SideLists.TriggersAreStable | analyzer/analyzer.h:323-366 | Triggers of one time are in the order in which they came; with the above this fixes the whole list. |
| SideLists.InsertTriggerStable | analyzer/analyzer.h:323-366 | One insertion puts the trigger behind those of its time, or drops it. |
| SideLists.InsertTriggerInOrder | analyzer/analyzer.h:323-366 | One insertion keeps the list in time order. |
| SideLists.InsertTriggerKeeps | analyzer/analyzer.h:344-365 | A trigger is added exactly unless it ties with the newest one in the list; then it is dropped. |
| SideLists.TriggersAreOrderIndependent | analyzer/analyzer.h:323-366 | The list does not depend on the order of insertion, as long as triggers that share their time are equal and the newest. |
| SideLists.OrderMattersExactly | analyzer/analyzer.h:344-365 | All orders of insertion give the same list if and only if that is so. |
| SideLists.OrderFreeKeepsAll | analyzer/analyzer.h:344-365 | Then every trigger is kept, once. |
| SideLists.StrictOrderIsUnique | analyzer/analyzer.h:323-366 | Two strictly ordered lists of the same triggers are equal. |
| SideLists.InsertTriggerNode | analyzer/analyzer.h:323-366 | In place, by copying: the list becomes what the insertion on values says, the tail stays right. |
| SideLists.PlaceTrigger | analyzer/analyzer.h:344-365 | In place: append, insert by copying, or drop, where the walk stopped. |
| ReadQueues.ReadQueue.constructor | analyzer/queue.c:3-25 | All slots blank, nothing waiting. |
| ReadQueues.ReadQueue.Enqueue | analyzer/queue.c:27-40 | A read goes behind the waiting ones; the ring keeps the last 32 reads. |
| ReadQueues.ReadQueue.Dequeue | analyzer/queue.c:42-50 | The oldest waiting read leaves. |
| ReadQueues.ReadQueue.GetQueueingTime | analyzer/queue.c:72-82 | Right after draining: the newest time minus that of the 32nd most recent read, 0 standing in for a missing one. |
| Batching.Analyzer.Analyze | analyzer/analyzer.c:61-160 | Main result. After every line the chain is acyclic and made of separate lists; every list but the last holds 32 accepted reads in order with their times and queueing time; at the end of the log the rest is the last list, or an empty list stays linked behind the tail if nothing was left. |
| Batching.Analyzer.NothingIsLost | analyzer/analyzer.c:102-157 | The lists put behind each other, and what waits in the queue, are the accepted reads in order. |
| Batching.BatchesHoldTheReads | analyzer/analyzer.c:102-107 | Batches of 32 put behind each other are the reads. |
| Batching.BatchTimes | analyzer/analyzer.c:102-115 | A batch has the times of its first and last read. Its queueing time is the time between these if it is full; otherwise it reaches back 32 reads, or to 0. |
| Batching.Analyzer.constructor | analyzer/analyzer.c:38-59 | At the start the chain is empty and an empty list is being filled. |
| Batching.Analyzer.Drain | analyzer/analyzer.c:102-107 | The whole queue goes behind the current list, in order. |
| Batching.Analyzer.FillCurrent | analyzer/analyzer.c:102-124 | The waiting reads become the current list, with first and last time and queueing time. |
| Batching.Analyzer.InsertReadListIntoPfList | analyzer/analyzer.h:267-282 | The walk ends at the current list itself, which is thereby linked to itself (except the first). |
| Batching.Analyzer.StartNewList | analyzer/analyzer.c:156-157 | A new list behind the current one breaks that cycle: the chain is in order again. |
| Batching.Analyzer.Flush | analyzer/analyzer.c:102-147 | A full or last batch joins the chain. |
| Batching.Analyzer.TurnOver | analyzer/analyzer.c:102-159 | A full queue becomes the next list of the chain and a new one is started. |
| Batching.Analyzer.CloseLog | analyzer/analyzer.c:149-153 | The rest becomes the last list; its self-link is cleared. |
| Batching.Analyzer.Terminate | analyzer/analyzer.c:149-153 | Clearing the next link of the last list makes the chain acyclic. |
| Batching.InsertNodeIntoReadList | analyzer/analyzer.h:250-265 | A node goes to the end of the list. |
| Grouping.RegroupedIsRuns | analyzer/analyzer.c:219-273 | Main result. Regrouping yields one list for each maximal run of burst lists, in order; with no burst list only the last list. |
| Grouping.FuseIs | analyzer/analyzer.c:245-252 | A run put together has all its reads in order, starts with its first list, ends with its last one. |
| Grouping.RunsAreBursts | analyzer/analyzer.c:219-273 | The runs are made of the burst lists, none missing and none twice. |
| Grouping.RunsAreMaximal | analyzer/analyzer.c:219-273 | A sequence of lists is one of the runs if and only if it is a stretch of burst lists with an idle list, or the end of the chain, on both sides. |
| Plans.Plan.ReorderPfList | analyzer/analyzer.c:219-273 | In place: the chain of linked lists becomes the regrouped one, with correct head and tail; a chain of less than two lists is refused. |
| Plans.Plan.RegroupOne | analyzer/analyzer.c:245-272 | In place: one burst list absorbs the run behind it and drops the idle lists after it. |
| Plans.Plan.AbsorbBursts | analyzer/analyzer.c:245-252 | In place: while a burst list follows it is absorbed. |
| Plans.Plan.SkipIdle | analyzer/analyzer.c:254-259 | In place: while an idle list follows it is dropped. |
| Plans.Plan.AbsorbNext | analyzer/analyzer.c:246-251 | In place: a list takes over the nodes and the end of the next one, which leaves the chain; nothing else changes. |
| Plans.Plan.DropNext | analyzer/analyzer.c:255-258 | In place: the next list leaves the chain. |
| Plans.Plan.DropFirst | analyzer/analyzer.c:236-243 | In place: the head moves past an idle list. |
| Plans.Plan.SetTarget | analyzer/analyzer.c:472-473 | In place: one list gets a trigger; nothing else changes. |
| Grouping.RegroupedKeepsBursts | analyzer/analyzer.c:219-273 | Regrouping keeps exactly the reads of the burst lists, in order. |
| Plans.Plan.SetBurst | analyzer/analyzer.c:209-214 | In place: one list is marked; nothing else changes. |
| Plans.Plan.Relabel | analyzer/analyzer.c:472-473 | In place: mark and trigger of one list change, and nothing else of the chain. |
| Handover.RegroupLog | analyzer/main.c:23-29 | Main result. From the end of the log to the regrouped chain: it is made of the maximal runs of batches within the threshold, put together, and so has exactly their reads in the order of the log; without such a batch it is the last one; a single batch is refused and left alone. |
| Handover.LeftoverExactly | analyzer/analyzer.c:156-157 | If the log ends with a full batch, an empty list is left whose times nobody has set. Whatever they are, regrouping keeps the reads of the bursts; the chain is free of empty lists if and only if the leftover counts as a burst and follows one, or counts as idle and there is a burst. |
| Handover.FullBatchesAreTheReads | analyzer/analyzer.c:102-124 | The other batches are then the accepted reads. |
| Handover.TakePlan | analyzer/analyzer.c:149-153 | The chain that the log leaves is a proper one, and stands for the batches of the accepted reads. |
| Handover.BatchesAreTheReads | analyzer/analyzer.c:102-124 | If the log does not end with a full batch: the batches, put behind each other, are the accepted reads, and none is empty. |
| Handover.DetectBursts | analyzer/analyzer.c:205-215 | In place: a list is marked as a burst if and only if its queueing time does not exceed the threshold; nothing else changes. |
| Handover.BurstReadsAre | analyzer/analyzer.c:205-215 | A read came in with a burst if and only if it is in a batch whose queueing time does not exceed the threshold. |
| Sorting.SortReadList | analyzer/analyzer.c:289-317 | Main result. Ends (each exchange removes an inversion) with the reads in disk order, reads at the same place in their old order; node identities, links and the tail pointer do not change. |
| Sorting.SortPass | analyzer/analyzer.c:296-311 | A pass that exchanged something has fewer inversions; one that did not has found the list sorted. |
| Sorting.Swap | analyzer/analyzer.c:275-287 | Copying whole nodes and repairing two links exchanges exactly what two neighbours hold. |
| Sorting.OutOfOrder | analyzer/analyzer.c:301-309 | The comparison is that of (lba, off). |
| Sorting.ExchangeReduces | analyzer/analyzer.c:301-309 | Exchanging two neighbours in the wrong order leaves exactly one inversion less. |
| Sorting.ExchangeIsStable | analyzer/analyzer.c:301-309 | Such an exchange keeps the order of reads at the same place. |
| Sorting.SortIsUnique | analyzer/analyzer.c:289-317 | There is only one stable sorted order. |
| Merging.MergeAllKeeps | analyzer/analyzer.c:349-376 | Main result. On a sorted list merging to a fixpoint keeps the order, loses no byte, and leaves any two reads of an lba more than one byte apart. |
| Merging.PassKeeps | analyzer/analyzer.c:360-370 | The same for one pass, order and bytes. |
| Merging.MergedKeeps | analyzer/analyzer.c:319-347 | Merging a read with a later one keeps its place and all bytes. |
| Merging.MergedKeepsFile | analyzer/analyzer.c:319-347 | Path, inode, lba and time of a merged read are those of the first one. |
| Merging.MergedBackwards | analyzer/analyzer.c:333-336 | Out of order, merging moves the start to the earlier read, and the end is right if that read ends no sooner; otherwise it is off by 2 b.off + 1 - a.off. |
| Merging.MergedLosesExactly | analyzer/analyzer.c:328-336 | Merging any two reads, empty ones included, loses bytes if and only if the second ends before the first and either the first is not empty and starts more than one byte behind twice the offset of the second, or the second alone is longer than what it is merged into: the branch that overwrites the offset before using it. |
| Merging.OnwardIsCarried | analyzer/analyzer.c:349-376 | Merging to the end loses no byte of an unsorted list either, and brings in no other file, if reads of one lba that stand next to each other start in order. |
| Merging.OnwardPass | analyzer/analyzer.c:357-371 | The same for one pass: no byte is lost, and what is left is again such a list. |
| Merging.MergeAllFiles | analyzer/analyzer.c:319-376 | Every read left is of a file that was read. |
| Merging.MergedOvershootsExactly | analyzer/analyzer.c:328-336 | In order, merging adds exactly b.off + 1 bytes past the end, or none; none if and only if the later read contains the earlier one, or the earlier one starts strictly first and contains the later. |
| Merging.PassMergesPairs | analyzer/analyzer.c:360-370 | A pass merges neighbours in pairs: what has just been merged is not compared again. |
| Merging.QuietPass | analyzer/analyzer.c:357-371 | A pass that merges nothing changes nothing and has found no mergeable neighbours. |
| Merging.NeighboursSuffice | analyzer/analyzer.c:357-371 | In a sorted list, if no neighbours meet then no two reads do. |
| Merging.MergeReadList | analyzer/analyzer.c:357-371 | In place: passes until one merges nothing; the tail pointer stays right. It ends on any list. |
| Merging.PassInPlace | analyzer/analyzer.c:358-370 | In place: one pass over the linked list. |
| Merging.MergeNext | analyzer/analyzer.c:319-347 | In place: the next node is taken into this one and unlinked, the tail pointer updated, exactly if the two meet. |
| Tidying.SortAndMerge | analyzer/main.c:33-38 | Main result. On the whole chain: every list of sane reads comes out sorted, its reads apart, with no byte lost and no other file, and nothing else of any list changed. |
| Tidying.SortedAndMergedIsTidy | analyzer/main.c:33-38 | Sorting makes the merge safe: any reads, sorted and merged, keep their bytes and files. |
| Tidying.SortingKeepsBytes | analyzer/analyzer.c:289-317 | Sorting covers the same bytes. |
| Tidying.ReworkAt | analyzer/analyzer.c:289-376 | In place: one list of the chain is sorted or merged, and nothing else changes. |
| Tidying.ReorderingReadList | analyzer/analyzer.c:289-317 | In place: every list of the chain is sorted, stably; the lists stay separate. |
| Tidying.MergingReadList | analyzer/analyzer.c:349-376 | In place: every list of the chain is merged to its fixpoint; the lists stay separate. |
| TriggerPlan.AssignedIsPointwise | analyzer/analyzer.c:439-501 | Main result. Assigning triggers splits the chain exactly where each boundary by itself says so, independently of what was folded before; each part is the fusion of its lists. |
| TriggerPlan.BoundarySurvives | analyzer/analyzer.c:443-483 | A boundary survives if and only if some trigger is between the end of the one list and the start of the other in time, and lies behind the start of the first mapping that contains it; the list behind it takes md and offset of the earliest such trigger, and nothing else of it changes. |
| TriggerPlan.ScanFindsFirst | analyzer/analyzer.c:443-481 | On a list of triggers in time order the scan ends with the earliest usable trigger. |
| TriggerPlan.FirstTargetExists | analyzer/analyzer.c:443-481 | There is an earliest usable trigger exactly if there is a usable one. |
| TriggerPlan.AssignedKeepsReads | analyzer/analyzer.c:483-499 | The reads of all lists, put behind each other, do not change. |
| TriggerPlan.ScanKeepsTimes | analyzer/analyzer.c:443-481 | The scan changes nothing of a list but its trigger. |
| TriggerPlan.SegmentsCover | analyzer/analyzer.c:483-499 | The parts are made of all lists, in order. |
| TriggerPlan.SegmentsAreCut | analyzer/analyzer.c:483-499 | The chain is cut exactly in front of the lists that have a trigger. |
| Triggers.SetTriggers | analyzer/analyzer.c:404-501 | In place: the head is reset, then the loop over the chain computes the assignment. |
| Triggers.AssignOne | analyzer/analyzer.c:439-501 | In place: one boundary is kept, or the list behind it absorbed. |
| Triggers.ScanTriggers | analyzer/analyzer.c:443-481 | In place: the loop over the triggers of one idle period. |
| Triggers.FindMapping | analyzer/analyzer.c:457-479 | In place: finds the first mapping with start <= address <= end, if neither it nor one before it is later than the trigger or the period, and the distance from its start; otherwise there is no such mapping. |
| TriggerPlan.ResolveExactly | analyzer/analyzer.c:457-479 | The same of the function on values, in plain comparisons of addresses and times. |
| Delivery.AssignedHaveTriggers | analyzer/analyzer.c:483-499 | When triggers have been assigned every list but the first has one at a nonzero offset, and no list is empty. |
| Delivery.WriteOut | analyzer/analyzer.c:378-393 | In place: what is written of one list: its md and offset, the paths of its files once each in the order of their inodes and as the first read of each has it, and path, offset and length of its reads. |
| Delivery.KeysOutgoing | analyzer/analyzer.c:522-552 | Every list is written under its md and the offset of its trigger, the first one under offset 0. |
| Delivery.RowsOutgoing | analyzer/analyzer.c:523-549 | The rows of a list are, for a rotating disk, one for each of its files by increasing inode, and then one for each of its reads in order. |
| Delivery.WriteOutAll | analyzer/analyzer.c:504-558 | In place: the same along the chain. |
| Delivery.ChainArrives | prefetcher/prefetcher.c:228-260 | If no two lists got the same key, the prefetcher has exactly the lists of the chain, and a breakpoint for every list but the first. |
| Delivery.Deliver | analyzer/main.c:46-50 | Main result. In place, from the chain to the table of the prefetcher: triggers are assigned, the lists written and read back. |
| Delivery.ChainIsReplayed | prefetcher/prefetcher.c:695-699 | Main result. From the chain to the replay: the first list is fetched at launch; whatever else is fetched is a list of the chain, with its files and reads, after a hit at the base address of something loaded or mapped before that has the md of the list, plus the offset of its trigger. |
| Pipeline.Analyse | analyzer/main.c:23-50 | Main result. The main program from the end of the log to the plan read back: it gives up on a log of a single list; otherwise the plan is that of the chain after the passes with its triggers, and every byte of every read that regrouping kept, and so of every read in a batch whose queueing time does not exceed the threshold, is asked for with some group, whatever triggers were found. It asks of each list that it is ready for the merge that comes before any sorting (Merging.OnwardIsCarried), and that an lba has one path. |
| Pipeline.EveryByteIsAsked | analyzer/analyzer.c:504-557 | The same from the chain before the passes, for any mappings and triggers, also where lists have got the same key and are read back as one. |
| Pipeline.RunPasses | analyzer/main.c:31-44 | In place: merge, and for a rotating disk sort and merge twice more. The lists stay, with their times and marks; each is merged, or in disk order with gaps, and still covers its bytes, with reads of the same files. |
| Pipeline.BurstsAreKept | analyzer/analyzer.c:219-273 | What regrouping keeps are exactly the reads that came in with a burst. |
| Pipeline.ByteIsCarried | analyzer/main.c:31-44 | After the passes a byte of a read is in a read of the same path. |
| Pipeline.RowIsLoaded | prefetcher/prefetcher.c:242-260 | Every row of the plan file is in some group of the prefetcher. |
| Pipeline.DataIsAsked | prefetcher/prefetcher.c:70-101 | A data entry is asked for with its group, wherever it stands in it. |
| PrefetchPlan.RoundTripsExactly | prefetcher/prefetcher.c:242-260 | Main result. The prefetcher rebuilds exactly the lists that were written, if and only if their keys are distinct and none is empty. |
| PrefetchPlan.LoadedIsByKey | prefetcher/prefetcher.c:242-260 | Whatever the file: one group for each (md, offset), in order of first appearance, with all its rows in file order. |
| PrefetchPlan.RoundTripOfLists | analyzer/analyzer.c:517-552 | Of each list written, metadata rows come back first, then all data rows, at least one. |
| PrefetchPlan.OffsetsHaveGroups | prefetcher/prefetcher.c:228-240 | The breakpoints read are exactly the nonzero offsets written, and each has its group. |
| PrefetchPlan.FetchOfList | prefetcher/prefetcher.c:56-112 | For each list written, the fetch looks up its metadata paths and asks for exactly its data; the metadata loop finds a data row to stop at. |
| PrefetchPlan.WriteList | analyzer/analyzer.c:523-552 | The rows of one list. |
| PrefetchPlan.Generate | analyzer/analyzer.c:517-558 | Both files, written list by list; the first list has offset 0. |
| PrefetchPlan.GetPfList | prefetcher/prefetcher.h:190-201 | Finds the first group with both md and offset. |
| PrefetchPlan.PlanTable.Load | prefetcher/prefetcher.c:228-260 | Reading both files builds these groups, skips offset 0, and counts the breakpoints. |
| PrefetchPlan.ChunksTile | prefetcher/prefetcher.c:77-98 | The requests for an entry follow each other without gap or overlap, all but the last of the largest size, from its start to its end. |
| PrefetchPlan.ChunksAsk | prefetcher/prefetcher.c:77-98 | Together they ask for exactly the bytes of the entry (for the rest of the file if its length is 0). |
| PrefetchPlan.AllChunksAsk | prefetcher/prefetcher.c:77-101 | The same for a whole group. |
| PrefetchPlan.AllChunksInOrder | prefetcher/prefetcher.c:77-101 | The requests for a group are those for its entries one after the other. |
| PrefetchPlan.ChunksOfOne | prefetcher/prefetcher.c:82-98 | Those for one entry are its requests and no others. |
| PrefetchPlan.DoFetch | prefetcher/prefetcher.c:70-101 | The loops over a group: leading metadata entries, then requests for the others. |
| PrefetchPlan.FetchEntry | prefetcher/prefetcher.c:82-98 | The loop that cuts one entry into requests. |
| Breakpoints.RunKeepsMemory | prefetcher/prefetcher.c:347-405 | Main result. In every run of loads, mappings and hits whose breakpoints are equal or a word apart, memory is the original but for the breakpoint byte at each armed address, and the first restore node of each address has the original word, also after double planting. |
| Breakpoints.MemoryComesBack | prefetcher/prefetcher.c:512-537 | Once all armed breakpoints have been hit, memory is the original. |
| Breakpoints.HitsDisarm | prefetcher/prefetcher.c:521-537 | Hits at armed addresses find their restore node and take exactly these addresses away. |
| Fetching.FetchedAtMostOnce | prefetcher/prefetcher.c:114-128 | Main result. In every run the head group is started first, at launch, and each group passes the guard at most once; besides the head exactly those are started that some hit named, and the counters agree. |
| Fetching.NothingWithoutGroups | prefetcher/prefetcher.c:695-699 | A plan without groups ends before anything is done. |
| Fetching.RestoresArePlaced | prefetcher/prefetcher.c:367-389 | In every run a restore node names a group whose trigger lies at that address in something that was mapped or loaded. |
| Fetching.SpacedPlacesKeepMemory | prefetcher/prefetcher.c:347-405 | The memory invariant of every run, from what can be checked before it: that the places of the triggers in all that is mapped or loaded are equal or a word apart. |
| Fetching.ReplayFetchesThePlan | prefetcher/prefetcher.c:695-699 | From the files to the replay: the first list written is fetched at launch; whatever else is fetched is one list, whole, after a hit at the place of its trigger. |
| Breakpoints.PlantArms | prefetcher/prefetcher.c:367-402 | Planting arms, in order, the offset nodes that have a group of the file: all of them if it returns 0, and otherwise exactly those before the first one that stops it. How many that are is a function of what is known before. |
| Breakpoints.ArmedCountIs | prefetcher/prefetcher.c:367-402 | That number is the place of the first node whose group has been fetched, or whose offset is the address of an earlier breakpoint or of one planted for a node before it. |
| Planting.RunPlants | prefetcher/prefetcher.c:460-597 | In every run: the first program that is loaded, and any file mapped while fewer breakpoints have been planted than the plan has, get breakpoints at base + offset for all nodes from the first of the file on that have a group of it, up to the first one that stops the planting, and nothing else changes; later programs change nothing at all. |
| Planting.StepPlants | prefetcher/prefetcher.c:460-471 | The same of one event from any state. |
| Planting.PlantReturns | prefetcher/prefetcher.c:360-404 | A planting returns 0 if and only if the file has an offset node and none of its nodes stopped it, and -1 otherwise. |
| Planting.LaunchedExactly | prefetcher/prefetcher.c:460-463 | Until a run has ended, the program counts as launched exactly if one has been loaded. |
| Planting.RunHits | prefetcher/prefetcher.c:512-545 | A hit where no restore node is ends the run. Any other fetches the group of the first restore node of the address, unless that has been done, counts it then, and leaves the restore nodes as they are. |
| Planting.RunEnded | prefetcher/prefetcher.c:518-521 | When a run has ended, no event changes anything. |
| Breakpoints.PlannedNodesAre | prefetcher/prefetcher.c:361-374 | These are all nodes from the first of the file on that have a group of it, each once. |
| Gates.RepeatsExactly | prefetcher/prefetcher.c:367-402 | A planting leaves two restore nodes with one address if and only if, among the nodes before the first one that stops it, some address had a breakpoint already or two nodes plan the same address. |
| Gates.GateClosesExactly | prefetcher/prefetcher.c:592-594 | As long as no offset node is planted for twice, planting at mappings stops exactly when all nodes have been planted for. |
| Gates.GateUsedUp | prefetcher/prefetcher.c:592-594 | Mapping one file twice plants its breakpoint twice, at one address if the bases are equal; in a plan of two breakpoints nothing is then planted in the other file any more. |
| Breakpoints.InterfereExactly | prefetcher/prefetcher.c:387-398 | Two breakpoints survive each other, planted in either order, if and only if they are at least a word apart. |
| Breakpoints.ArmKeeps | prefetcher/prefetcher.c:386-398 | Planting one breakpoint keeps the memory invariant. |
| Breakpoints.HitKeeps | prefetcher/prefetcher.c:521-537 | A hit keeps it. |
| Breakpoints.PlantKeeps | prefetcher/prefetcher.c:367-402 | A whole planting keeps it. |
| Breakpoints.PlantGrows | prefetcher/prefetcher.c:367-402 | Planting only appends restore nodes and counts them. |
| Breakpoints.ArmAt | prefetcher/prefetcher.c:387-398 | Planting changes one byte of memory, and none if the word is not mapped. |
| Breakpoints.WordsRoundTrip | prefetcher/prefetcher.c:387-398 | Reading a word and writing it back changes nothing. |
| Breakpoints.PeekReads | prefetcher/prefetcher.c:386 | A word that is read is the bytes from its address on, or all ones if they are not all mapped. |
| Breakpoints.PokeWrites | prefetcher/prefetcher.c:397 | A word that is written is found again at its address, lowest byte first, and nothing else changes; nothing at all if it is not all mapped. |
| Breakpoints.TrapIsOneByte | prefetcher/prefetcher.c:392-396 | Masking in 0xcc changes the first byte of the word only. |
| Replaying.Replayer.TraceAll | prefetcher/prefetcher.c:407-546 | In place: a whole run, from before the program is started, ends in the state of the machine on values. |
| Replaying.Replayer.StartUp | prefetcher/prefetcher.c:693-699 | In place: before the program runs the head group is fetched; without one, nothing is traced. |
| Replaying.Replayer.Trace | prefetcher/prefetcher.c:459-597 | In place: one event (program loaded, file mapped, breakpoint hit). |
| Replaying.Replayer.InsertBreakpoints | prefetcher/prefetcher.c:347-405 | In place: the planting loop and its return code. |
| Replaying.Replayer.PlantOne | prefetcher/prefetcher.c:386-400 | In place: save the word, plant, count. |
| Replaying.Replayer.GetRestoreNode | prefetcher/prefetcher.h:241-250 | Finds the first restore node of an address. |
| Replaying.Replayer.GetOffsetNode | prefetcher/prefetcher.h:288-300 | Finds the first offset node of a file. |
| Replaying.Replayer.DoPrefetch | prefetcher/prefetcher.c:114-153 | In place: sets the flag and starts the fetch, or refuses. |
| TraceDiff.DiffFindsCovered | script/trimer_bp.py:14-123 | Main result. For requests sorted without overlap the end result is those, in order, whose first sector occurs in the prefetching trace, and those without sectors. |
| TraceDiff.Compare | script/trimer_bp.py:130-132 | The three passes on any pair of traces; that result, if the requests are sorted without overlap and the expanded prefetching trace rises. |
| TraceDiff.MinusIsWithout | script/trimer_bp.py:66-88 | If the first trace has each sector once, the merge is set difference, in order. |
| TraceDiff.MinusCounts | script/trimer_bp.py:66-88 | Between any rising traces the merge is multiset difference of the sectors. |
| TraceDiff.ExpandedOccurs | script/trimer_bp.py:14-52 | The expanded trace has exactly the sectors of the requests. |
| TraceDiff.ExpandedRises | script/trimer_bp.py:14-52 | Sorted requests without overlap expand to strictly rising sectors. |
| TraceDiff.Rep | script/trimer_bp.py:23-32 | The expanding loops; a count that is not positive gives no line. |
| TraceDiff.CopiesAre | script/trimer_bp.py:23-32 | A request becomes one line for each of its sectors, with its columns and operation. |
| TraceDiff.ExpandedInOrder | script/trimer_bp.py:23-32 | Requests are expanded one after the other. |
| TraceDiff.ExpandedOne | script/trimer_bp.py:23-32 | A trace of one request expands to the lines of that request. |
| TraceDiff.MakeTemp | script/trimer_bp.py:66-88 | The first merge, with its two cursors. |
| TraceDiff.Diff | script/trimer_bp.py:100-123 | The second merge, with its three tests in a row. |
| Chains.List.Append | prefetcher/prefetcher.h:170-188 | Adding through the tail pointer keeps the list well formed. |
| Chains.List.InsertBefore | analyzer/analyzer.h:234-246 | Insertion by copying puts the item in front of the node, with a correct tail. |
| Chains.List.LinkBefore | old/sources/analyzer_32/analyzer.h:430-441 | Linking in front of a node, or as the new head. |
| Chains.List.TakeOver | analyzer/analyzer.c:246-247 | A list takes over the nodes of another. |
| Chains.List.DropNext | analyzer/analyzer.c:338-344 | Unlinking the next node keeps the tail right. |
| Chains.List.UnlinkNext | old/sources/analyzer_32/main.c:44-48 | Unlinking the next node without looking at the tail. |

## Left out

- CrossGroups.AppendBurstList: an empty current group needs an entry that trimming leaves with a
  nonzero lba; without one the source reads past the end of the queue, which has no meaning here.
- CrossGroupPlan.AppendAcrossKeepsTheBytes: says that no byte is lost, not that none is added,
  because trimming does add some (CrossGroupBytes.TrimmingOvershootsExactly).
- CrossGroupBytes.TrimmingOvershootsExactly: is about groups with gaps between their nodes; in others
  the bytes added may happen to be in another node, and only CrossGroupBytes.AddsOnlyIf holds.
- CrossGroupBytes.RunPrintsTheBytes: asks that the first node of each chain leads it when a group is
  closed. That is exact for groups of two nodes (CrossGroupBytes.AnyTrimPrintsExactly); for longer ones
  it is only shown to suffice.
- Pipeline.Analyse: asks for order among neighbouring reads of one lba before the first merge. What a
  merge out of order loses is exact for two reads (Merging.MergedLosesExactly), not for whole lists.
  That only the bytes read are asked for is not promised, as for Merging.MergeAllKeeps.
- BurstGroups.CoalesceInPlace: does not promise the tail pointer, which the source does not maintain.
- Triggers.SetTriggers: does not promise the tail of the chain, which the source does not maintain
  when it folds the last list.
- Plans.Plan.ReorderPfList: like everything behind it, in place only on nonempty lists. The empty list
  that stays at the end when the number of accepted reads is a multiple of 32 has times and a mark that
  are never set, a burst that absorbs it is left with a null tail pointer, and later passes follow its
  null head; Handover.LeftoverExactly says on values when no empty list is left.
- Handover.TakePlan: the number of reads is not a multiple of 32, for the same reason.
- Merging.MergeAllKeeps: says that no byte is lost, not that none is added, because merging
  over-lengthens (Merging.MergedOvershootsExactly).
- CandidateFilter.FilterCandidates: promises the surviving bindings if all puts succeed; the source does
  not look at their return code. That a put fails only on refused memory or too many keys is one way: not
  every crowd of keys makes a put fail.
- HashMaps.HashMap.Create: whether memory is left is a parameter; a put takes it for every size it may ask
  for, and asks for none twice.
- Breakpoints.RunKeepsMemory: memory is changed by breakpoints only, not by the program itself, and
  what is mapped does not change during a run. A word that is not wholly mapped reads as all ones
  and is not written.
- Paths, timestamps and inodes of the older analyzers' nodes, and the start time of a group: they are
  carried along and never compared.
- Integer widths: offsets, lengths, addresses and times are unbounded. Only the sizes of hash tables
  wrap around at 2^32.
- Handover.RegroupLog: takes the threshold as given; the built configuration fixes it
  (analyzer/Makefile:12), and the averages it would otherwise be computed from are left out. Queueing
  times are integers, not doubles. The number of reads is not a multiple of 32, as for Handover.TakePlan
  and Pipeline.Analyse.
- The hash of a key is an arbitrary function; CRC, mixing and FNV constants are not part of this model.
- The text of the files: logs, plans and traces are sequences of parsed rows; block addresses and
  inodes are part of the rows.
- The prefetcher's restore, offset and group lists are sequences, and its flags a set: they only
  grow at the end, so only the order is kept and not the nodes.
- Starting the prefetch thread: whether that fails is not modelled.
- Process control: system calls of tracing, signals, threads, registers, the toggle between entry and
  exit of a system call, the table of process ids, and which mappings are looked at.
- The list of mappings is built by the same walk to the end as Batching.InsertNodeIntoReadList; it is
  taken as given.
- create_ino_nodes of the older analyzers, the experimental filter of targets, and freeing of memory.
- The tracer, the wrapper, the kernel modules and the other scripts.
