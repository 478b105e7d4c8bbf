# Verified model of the co library's data structures and event runtime

This project models the stateful cores of a small C library (timers on a
hierarchical timing wheel, a red-black tree set, a hash dictionary with a
threaded list, a UTF-8 keyword filter, a coroutine scheduler, a growable ring
buffer with the TCP send path that uses it, a circular queue and a binary heap)
and proves what each of them promises.  Where the program changes memory step
by step, so does the model: intrusive rings, tree nodes with parent links,
bucket chains and list links, trie nodes, arrays and counters are fields of
classes, updated in the same order and on the same branches, and every loop
carries its invariant.  What the program is *for* is stated separately, on
plain values, and the methods are proved against that.

Layout, from specifications to programs:

- `TimerSpec` (histories of a clock and a set of absolute deadlines),
  `WheelSlots` (the modular arithmetic of the five wheels), `Links` (circular
  intrusive lists), `TimingWheel`, `TimerService`.
- `RedBlack` (trees with a focus, balance, rows), `TreeMemory` (how such a tree
  lies in memory with parent links and a shared sentinel), `TreeDeletion`
  (deletion as a function from trees to trees), `SortedRow`
  (ascending rows under a client's comparison), `CoSet`.
- `OrderedMap` (the abstract dictionary), `HashChains` (bucket chains and list
  links over the same nodes), `Dict` (module `HashDict`).
- `Utf8`, `Keywords` (what filtering means, on bytes), `WordFilter`.
- `Scheduler`; `Circular`, `RingBuffer`, `TcpSend`, `CircularQueue`;
  `PriorityQueue`; `Basics` (shared types).

How parameters of the environment appear:

- Client callbacks of the timing wheel are scripts of additions and deletions.
  A script is any sequence of operations on any known timers, one per callback
  that runs; additions of a timer that is still armed, and deletions of one
  that was never added, do nothing in a script because the program does not
  allow them.  A timer that a callback creates is made known beforehand.  All
  statements hold for every script.
- The kernel behind `write` is a sequence of replies (accept so many bytes,
  interrupted, would block, failed), and the statements hold for every
  sequence.  A call beyond the end of the sequence would block.
- Comparison functions are any total order up to "compares as 0"; key equality
  is any equivalence, and equal keys hash alike.
- The clock is the argument of `cotw_update`; its elapsed time plus remainder
  fits a C `int`, as the code needs.

A few ghost fields record the past: the event log of a wheel, the changes made
to a dictionary, the steps of a scheduler, the bytes ever written to a ring
buffer, the bytes accepted for sending and those the kernel took.  Nothing the
methods compute depends on them.

What was found on the way:

- `coset_intersect` does not compute the intersection in general.  It saves the
  next node before it deletes, and `coset_delete` frees exactly that saved node
  when the node to delete has two children (`CoSet.Set.Delete` states which node
  goes in each case).  A real input is {1, 2, 3} intersected with {1, 3}
  (`CoSet.OneTwoThree`).  For two given sets `CoSet.Set.Intersect` states the
  exact condition, on the tree before the call: going through the row, each
  missing element is, in the tree without the missing ones before it, at a node
  with at most one child (`TreeDeletion.Survives`, where deletion is the function
  `TreeDeletion.RemovedEntry` that `coset_delete` is proved to compute).  It
  holds when nothing is missing but the smallest elements and perhaps the
  largest, and fails when the first missing element is at a node with two
  children.  The exact condition on the one set alone is its size: intersecting
  is safe whatever the other set holds exactly if there are at most two elements
  (`CoSet.Set.SafeWithEverySet`; for three or more, `CoSet.Set.IntersectUnsafely`
  makes another set with which it fails).
- `coset_minus` of a set with itself goes on from a node that it has freed,
  exactly if the set is not empty: the first round frees the smallest node and
  the second one starts from it (`CoSet.Set.Minus`; a real input is a set of one
  element, `CoSet.OneMinusItself`).  `coset_clear`, which saves the next node
  first, only deletes nodes without a left child and is safe.
- `coutf8_decode` shifts a 32-bit number by 35 places for the byte FF followed
  by seven continuation bytes, and only for that (`Utf8.Decode`); the C language
  leaves such a shift undefined.  The result would be refused anyway.
- A ring buffer made with size 0 is fine to write to.  Before that, reading from
  it always divides by zero, and consuming does so exactly for 0 bytes; any
  larger number is refused without a division.
- The UTF-8 decoder accepts surrogates, unlike section 3 of RFC 3629; `Encode`
  covers them.
- `cowf_addword` on a malformed word adds its well-formed beginning.

## Model

| member | source | states |
|---|---|---|
| TimerSpec.FiresOnlyOnTime | src/co_timingwheel.c:50-53 | in every accepted history a timer armed with delay d fires on no tick but the max(d,1)-th one after that |
| TimerSpec.FiresInTime | src/co_timingwheel.c:88-97 | and it has fired or was deleted once that tick has ended |
| TimerSpec.SilentWhileIdle | src/co_timingwheel.c:55-61 | a timer that is not armed has no event until it is added |
| TimerSpec.SilentUntilRearmed | src/co_timingwheel.c:55-61 | a deleted or fired timer does nothing more until it is armed again, so nothing fires twice |
| TimerSpec.NothingOverdue | src/co_timingwheel.c:74-98 | no deadline is ever passed over: between ticks all deadlines lie ahead |
| TimerSpec.ClockCountsTicks | src/co_timingwheel.c:74-75 | the clock of a history advances by the number of ticks made |
| TimerSpec.PeriodicSchedule | src/co_timerservice.c:25-34 | firing number k of a timer re-armed with L comes max(d,1) + k*L ticks after it was first armed |
| TimerSpec.PeriodicNeverMissesOne | src/co_timerservice.c:25-34 | at the end of every tick just the firings due by then have happened |
| TimerSpec.DeletionIsFinal | src/co_timerservice.c:48-57 | after its deletion, in or out of a callback, a timer of the service never fires |
| WheelSlots.SlotFor | src/co_timingwheel.c:28-48 | the list chosen for a stamp is always one of the 512; computed with the 32-bit difference and shifts of the code |
| WheelSlots.AddFindsHome | src/co_timingwheel.c:28-48 | for any deadline less than 2^32 ticks ahead the chosen list is where the residence invariant wants it, across wrap-around |
| WheelSlots.CascadedExactlyWhenAligned | src/co_timingwheel.c:79-86 | a list of an outer wheel is emptied at tick c exactly when c is the aligned deadline of every timer in it |
| WheelSlots.AdvanceKeepsOuter | src/co_timingwheel.c:74-86 | a timer whose list is not emptied at the next tick still is where it belongs |
| WheelSlots.CascadeMovesInward | src/co_timingwheel.c:63-72 | re-adding a cascaded timer puts it into a strictly inner wheel, or into the root list of this tick |
| WheelSlots.DivisorsChain | src/co_timingwheel.c:79-86 | the do-while reaches wheel i exactly when all lower indices of the tick are zero |
| WheelSlots.MidStart | src/co_timingwheel.c:74-78 | before the first cascade of a tick only lists about to be emptied hold timers that are out of place |
| WheelSlots.MidStep | src/co_timingwheel.c:80-85 | each round of the do-while puts one more wheel in order |
| WheelSlots.MidEnd | src/co_timingwheel.c:79-86 | after the last round every timer is where the new tick wants it |
| WheelSlots.RootSlotIsDue | src/co_timingwheel.c:88-97 | what lies in the root list of the current tick is due now |
| Links.AddBack | src/co_clink.h:32-37 | a node is linked in at the end of the ring, and no other node changes |
| Links.EmptyMeansAlone | src/co_clink.h:40-42 | the emptiness test is true exactly of a ring of one |
| Links.Remove | src/co_clink.h:45-49 | a node leaves its ring, which keeps its order, and becomes a ring of its own |
| Links.Splice | src/co_clink.h:52-63 | all members of one ring move in order to the front of another, which keeps its own members behind them; the first ring is then empty |
| TimingWheel.Wheel.constructor | src/co_timingwheel.c:6-18 | a new wheel is empty; the model may start from any tick count |
| TimingWheel.OpsAreCalled | src/co_timingwheel.c:94-96 | the calls of a callback take effect one after the other: a deleted timer is idle and logged as deleted exactly if it was armed, an idle one that may be added gets its deadline, all others are as before; deleted are exactly the timers named that were ever added |
| TimingWheel.TicksRun | src/co_timingwheel.c:88-111 | every run of ticks consists of firings, each followed at once by the re-arming of a periodic item and then by all calls of its callback in their order |
| TimingWheel.CallIsMade | src/co_timerservice.c:25-34 | every call in a script of a callback that runs is made, at its place in the history, and a timer it deletes is among those deleted |
| TimingWheel.NotBeforeRearming | src/co_timerservice.c:28-30 | a periodic item has been armed again before anything is called |
| TimingWheel.ItemStaysIdle | src/co_timerservice.c:25-57 | an item of the service that is idle and not about to be armed again never fires from then on |
| TimingWheel.Wheel.Place | src/co_timingwheel.c:28-48 | the node is linked in at the end of the list that its stamp and the tick choose, and no other list changes |
| TimingWheel.Wheel.Arm | src/co_timingwheel.c:50-53 | the set of deadlines gains now + max(ticks,1), the invariant holds, one event is logged |
| TimingWheel.Wheel.Disarm | src/co_timingwheel.c:55-61 | true exactly if the timer was armed; it is gone from memory and from the deadlines |
| TimingWheel.Wheel.Relink | src/co_timingwheel.c:67-71 | the loop body of a cascade moves one timer to the list its deadline dictates |
| TimingWheel.Wheel.Cascade | src/co_timingwheel.c:63-72 | a cascade empties the list and conserves the timers, each at its new place |
| TimingWheel.Wheel.Advance | src/co_timingwheel.c:74-86 | the clock advances and all cascades of the tick restore the residence invariant, wrap-around included |
| TimingWheel.Wheel.FireFirst | src/co_timingwheel.c:91-97 | one round of the drain loop takes the first node of the list off, logs its firing and runs its callback; the list being drained is shorter and has only members that it had before |
| TimingWheel.Wheel.Fire | src/co_timingwheel.c:88-97 | the drain loop ends for every script, and no timer due in this tick is left |
| TimingWheel.Wheel.RunCallback | src/co_timingwheel.c:94-96 | for items of the service and other timers alike, a periodic item is armed again and then every call of the callback is made in order, right after the firing; the invariant holds afterwards |
| TimingWheel.Wheel.Tick | src/co_timingwheel.c:74-98 | a tick is a step of the set of deadlines, made of firings each followed at once by the calls of its callback; its log is determined by the order of firing and the script |
| TimingWheel.Wheel.Add | src/co_timingwheel.c:50-53 | adding between ticks, for a timer not linked |
| TimingWheel.Wheel.Del | src/co_timingwheel.c:55-61 | deleting between ticks, for a timer added at least once |
| TimingWheel.Wheel.Update | src/co_timingwheel.c:100-111 | as many ticks as intervals fit into the elapsed time and remainder, each with the calls of its script, the rest remembered |
| TimingWheel.Wheel.TicksMatchTime | src/co_timingwheel.c:100-111 | at all times ticks made and remainder are quotient and remainder of the elapsed time by the interval |
| TimingWheel.Wheel.FiresExactlyOnTime | src/co_timingwheel.c:28-98 | in the whole history of a wheel each timer fires on exactly the max(d,1)-th tick after being added, unless deleted first |
| TimingWheel.Wheel.SilentAfterCall | src/co_timingwheel.c:55-61 | a timer that a callback deletes, armed or not, does not fire unless it is added again |
| TimingWheel.DisciplinedIsPeriodic | src/co_timerservice.c:25-34 | timers of the service are re-armed with their period right after each firing and never otherwise |
| TimerService.Service.AddTimer | src/co_timerservice.c:36-46 | a fresh item is armed with the delay |
| TimerService.Service.Prepare | src/co_timerservice.c:36-46 | an item for a timer that a callback will add is known to the wheel, not armed and never armed before |
| TimerService.Service.DelTimer | src/co_timerservice.c:48-57 | the timer is disarmed once, its item freed and the handle cleared; a null handle, or one freed before by a client or a callback, changes nothing |
| TimerService.Service.Update | src/co_timerservice.c:59-61 | the history goes on as the wheel makes its ticks and callbacks make their calls; freed are just also the timers that callbacks delete, every item named by a deletion among them, and no freed item is armed |
| TimerService.Service.FiresOnSchedule | src/co_timerservice.c:25-61 | in every history an undeleted periodic timer fires at max(d,1) + k*L, never early and never late |
| TimerService.Service.SilentAfterDeletion | src/co_timerservice.c:48-57 | once deleted a timer never fires again |
| TimerService.Service.SilentAfterCallback | src/co_timerservice.c:25-57 | an item deleted in a callback, its own or that of another one, does not fire from that call on |
| RedBlack.HeightIsLogarithmic | src/co_set.c:39-51 | in a valid tree of n nodes no path makes more than 2*log2(n+1) comparisons |
| RedBlack.RotationKeepsRow | src/co_set.c:95-129 | either rotation keeps the in-order row |
| RedBlack.RecolourKeeps | src/co_set.c:138-143 | case 1 of the insertion repair keeps its invariant and the row, two levels up |
| RedBlack.InnerRotationKeeps | src/co_set.c:147-150 | case 2 turns into case 3, with the same row |
| RedBlack.OuterRotationKeeps | src/co_set.c:152-154 | case 3 ends the repair with a black parent and the same row |
| RedBlack.InsertEnds | src/co_set.c:180-181 | blackening the root at the end gives a valid tree |
| RedBlack.GrandparentIsBlack | src/co_set.c:134-135 | a red parent has a black parent, so the repair never looks above the root |
| RedBlack.SiblingIsThere | src/co_set.c:224 | the sibling of a short subtree is a real node, never the sentinel |
| RedBlack.RedSiblingKeeps | src/co_set.c:225-230 | a red sibling is rotated up: same row, the new sibling black, the shortage one level down |
| RedBlack.BlackNephewsKeep | src/co_set.c:231-234 | reddening a sibling with black children moves the shortage up |
| RedBlack.InnerNephewKeeps | src/co_set.c:236-241 | a red inner nephew is rotated to the outside, with the same row |
| RedBlack.OuterNephewEnds | src/co_set.c:242-246 | a red outer nephew pays for the missing black node and ends the repair |
| RedBlack.DeleteEnds | src/co_set.c:276 | blackening the cursor at the end gives a valid tree with the same row |
| RedBlack.RedNodeIsSpare | src/co_set.c:311-312 | taking out a red node needs no repair |
| TreeMemory.RotateAt | src/co_set.c:95-129 | the assignments of a rotation turn the memory of a tree into that of the rotated tree; the sentinel's fields, its temporary parent too, are untouched |
| TreeMemory.HookAt | src/co_set.c:200-215 | hooking in a red leaf where the search ended gives the memory of the larger tree |
| TreeMemory.SpliceAt | src/co_set.c:294-301 | unlinking a node with at most one child gives the memory of the tree without it, with the child's parent set even for the sentinel |
| TreeMemory.RebasedAt | src/co_set.c:304-305 | handing the successor's element over changes just the data of the node found |
| SortedRow.InsertInPlace | src/co_set.c:185-219 | an element put between its neighbours keeps the row ascending and adds just that element |
| SortedRow.RemoveInPlace | src/co_set.c:279-315 | taking out the entry that compares as x keeps the row ascending and removes just x |
| SortedRow.OthersStay | src/co_set.c:279-315 | taking out the entry for x leaves exactly the elements that do not compare as x |
| SortedRow.KeptIsBoth | src/co_set.c:330-339 | what is left of a row when the elements missing from another are dropped is the intersection |
| TreeDeletion.RepairStepKeeps | src/co_set.c:223-274 | one round of the repair, as a function of the tree, keeps row and shortage and ends or comes nearer to the root |
| TreeDeletion.RepairedIs | src/co_set.c:221-277 | the repaired tree, as a function of the tree and the short place, is valid and has the same row |
| TreeDeletion.RemovedEntryIs | src/co_set.c:279-315 | deletion as a function: the tree without entry k is valid, has the row without that entry, and the node that goes is that of the next entry exactly if two children are there |
| TreeDeletion.SmallSurvives | src/co_set.c:330-339 | at most two entries never lead a pass of deletions to a node with two children |
| TreeDeletion.EndsSurvive | src/co_set.c:330-339 | neither does a pass that drops only the smallest entries and perhaps the last |
| TreeDeletion.FirstMissingEndsIt | src/co_set.c:330-339 | a pass whose first missing entry has two children does |
| CoSet.Set.constructor | src/co_set.c:8-21 | a new set is empty and valid |
| CoSet.Set.LeftRot | src/co_set.c:95-111 | the in-place left rotation is the rotation of the ghost tree |
| CoSet.Set.RightRot | src/co_set.c:113-129 | the same to the right |
| CoSet.Set.InsertStepLeft | src/co_set.c:136-157 | one round under a left parent keeps the loop invariant and the row and ends the loop or moves two levels up |
| CoSet.Set.InsertStepRight | src/co_set.c:158-178 | the same under a right parent |
| CoSet.Set.InsertFixup | src/co_set.c:131-182 | the loop ends, in a valid red-black tree with the same row |
| CoSet.Set.Search | src/co_set.c:39-51 | finds a node exactly if the element is in the set, with c comparisons where 2^c <= (size+1)^2 |
| CoSet.Set.Exist | src/co_set.c:317-319 | true exactly if the element is in the set |
| CoSet.Set.FindPlace | src/co_set.c:186-199 | the descent ends at the element or at the one leaf where it belongs |
| CoSet.Set.Add | src/co_set.c:185-219 | valid again; the row gains x at a new node in its place and the size one, all other entries stay, or nothing at all changes if x was there |
| CoSet.Set.LookAround | src/co_set.c:222-224 | what the deletion repair reads: even at the sentinel the test against the parent's left child tells the side |
| CoSet.Set.DeleteStepLeft | src/co_set.c:223-248 | one round at a left child keeps the row and the shortage invariant and ends the loop or moves up |
| CoSet.Set.DeleteStepRight | src/co_set.c:249-274 | the same at a right child |
| CoSet.Set.DeleteFixup | src/co_set.c:221-277 | the loop ends in a valid red-black tree with the same row, also from the sentinel |
| CoSet.Set.Unlink | src/co_set.c:294-301 | the node leaves the tree's memory and its only child takes its place |
| CoSet.Set.Delete | src/co_set.c:279-315 | valid again without just the elements that compare as x; which entry goes, which node is freed, and that the tree left is the one the deletion function gives; nothing changes if x is absent |
| CoSet.Set.Successor | src/co_set.c:68-79 | from entry k of the row to entry k+1, or to the sentinel after the last |
| CoSet.Set.Predecessor | src/co_set.c:82-93 | from entry k to entry k-1, or to the sentinel before the first |
| CoSet.Set.Begin | src/co_set.c:350-356 | the first entry of the ascending row, or nothing |
| CoSet.Set.Next | src/co_set.c:358-361 | the following entry, so that iteration lists all elements once in ascending order |
| CoSet.Set.Prev | src/co_set.c:363-366 | the entry before |
| CoSet.Set.End | src/co_set.c:368-374 | the last entry, or nothing |
| CoSet.Set.EntryData | src/co_set.c:350-374 | the node reached by iteration holds the element of its entry |
| CoSet.Set.EntryIsUnique | src/co_set.c:350-374 | a node is one entry only |
| CoSet.Set.ClearStep | src/co_set.c:32-34 | exactly the node of the smallest element is freed, and the successor saved before lives on as the first entry |
| CoSet.Set.Clear | src/co_set.c:29-36 | the set becomes empty; the nodes of the row are freed, each once, in order |
| CoSet.Set.AddFrom | src/co_set.c:325 | an element that is there already stays with its node; else just the one of the other set is added |
| CoSet.Set.Union | src/co_set.c:321-328 | an element is in the result exactly if in one of the sets, which may be the same one; every entry the set had stays with its node and element, and every new one holds an element of the other set that it did not have; another set is unchanged |
| CoSet.Set.Minus | src/co_set.c:341-348 | what is left are exactly the elements it had that the second set has not; goes on from a freed node, which is then named, exactly for a set minus itself that is not empty |
| CoSet.OneMinusItself | src/co_set.c:341-348 | a set of one element minus itself is such a case |
| CoSet.Set.Intersect | src/co_set.c:330-339 | keeps just the elements the other set finds by its own comparison, which with the same comparison is the intersection, unless a deletion frees the saved node, which is then named; the latter happens exactly if the pass comes to a missing element at a node with two children, as the tree is by then |
| RedBlack.RootHasBoth | src/co_set.c:288-291 | a valid tree of three or more nodes has a root with two children |
| CoSet.Set.WithoutRoot | src/co_set.c:330-339 | in a set of three or more, what all but the root's element leaves out first is at a node with two children |
| CoSet.Set.SafeWithEverySet | src/co_set.c:330-339 | intersecting is safe with every other set, whatever its order, exactly for a set of at most two elements |
| CoSet.Set.IntersectUnsafely | src/co_set.c:330-339 | for every set of three or more there is another with which the program reads a freed node |
| CoSet.OneTwoThree | src/co_set.c:330-339 | {1, 2, 3} and {1, 3} are such sets |
| OrderedMap.LookupPut | src/co_dict.c:62-94 | after setting a key it is found with that value and all other keys as before |
| OrderedMap.LookupCut | src/co_dict.c:96-123 | after deleting a key it is not found and all other keys are as before |
| OrderedMap.LookupMoved | src/co_dict.c:148-176 | moving an entry only reorders the entries; every lookup is as before |
| OrderedMap.LookupFindsLastSet | src/co_dict.c:52-176 | after any run of set, delete, clear and move on an ordered map a lookup finds the value last set and not deleted since |
| HashChains.FiledPush | src/co_dict.c:26-28 | a node put in front of the bucket its hash says: every node is again in one chain, its own |
| HashChains.FiledCut | src/co_dict.c:108-111 | bypassing a node in its chain removes just that node |
| HashChains.ListedCut | src/co_dict.c:113-118 | bypassing a node in the list keeps the order of the rest, forward and backward |
| HashChains.ListedPushBack | src/co_dict.c:82-90 | appending to the list, empty or not |
| HashChains.ListedPushFront | src/co_dict.c:157-160 | prepending to a list that is not empty |
| HashChains.FlatIsAll | src/co_dict.c:128-136 | the chains together hold every node just once |
| HashDict.Dict.constructor | src/co_dict.c:35-50 | a new dictionary is empty, with buckets |
| HashDict.Dict.FindSize | src/co_dict.c:7-20 | the next larger size of the table, at its end the last one |
| HashDict.Dict.CheckAndResize | src/co_dict.c:6-33 | all nodes are filed in the new buckets, the list is untouched and there is room again, unless the table is exhausted |
| HashDict.Dict.Get | src/co_dict.c:52-60 | the node of the key's entry in the ordered map, or nothing exactly if there is none |
| HashDict.Dict.Set | src/co_dict.c:62-94 | the entries become those of the ordered map's update: overwritten in place or appended; chains and list still agree |
| HashDict.Dict.Del | src/co_dict.c:96-123 | the entry and its node go from chain, list and count; true exactly if the key was there |
| HashDict.Dict.FreeChain | src/co_dict.c:129-134 | the nodes of a chain are freed in order, and no node is touched again once it was freed |
| HashDict.Dict.FreeAll | src/co_dict.c:126-136 | clearing frees every node once and touches none after it was freed, over all chains |
| HashDict.Dict.Clear | src/co_dict.c:125-139 | no entries are left, the bucket count stays, every node was freed once |
| HashDict.Dict.Move | src/co_dict.c:148-176 | the entry moves to the front or the end and the others keep their order |
| HashDict.Dict.Neighbours | src/co_dict.h:69-70 | from the node of an entry to the entries before and behind it |
| HashDict.Dict.Ends | src/co_dict.h:67-68 | the first and the last entry |
| HashDict.Dict.Perform | src/co_dict.c:52-176 | every operation is a step of the ordered map and keeps both structures in agreement |
| HashDict.Dict.LookupIsLastSet | src/co_dict.c:52-176 | at all times a dictionary finds for a key the value last set by its own history of operations and not deleted since |
| Utf8.StartsOnce | src/co_utf8.c:6-28 | no text begins with two different code points: the encoding is free of prefixes |
| Utf8.NoFirstByte | src/co_utf8.c:12-25 | stray continuation bytes and bytes from 0xF8 begin nothing |
| Utf8.TwoBytes | src/co_utf8.c:14-23 | the exact bytes and range for two-byte forms, overlong ones excluded |
| Utf8.ThreeBytes | src/co_utf8.c:14-23 | the same for three bytes |
| Utf8.FourBytes | src/co_utf8.c:14-23 | the same for four bytes, up to 0x10FFFF |
| Utf8.PutTogether | src/co_utf8.c:14-21 | the shifts and masks put the payload bits together as digits |
| Utf8.Decode | src/co_utf8.c:6-28 | returns c and its end exactly if the text begins with the shortest form of c, nothing exactly if it begins with none; never reads past the zero byte; shifts by 32 or more exactly for FF and seven continuation bytes |
| Utf8.CodesOfEncoded | src/co_utf8.c:30-39 | decoding an encoded text gives the code points back |
| Utf8.CodesAre | src/co_utf8.c:30-39 | for any bytes the decoded part is a prefix of the text, up to its end or a malformed place |
| Utf8.Len | src/co_utf8.c:30-39 | the number of code points up to the end or the first malformed place |
| Keywords.MatchFound | misc/co_wordfilter.c:178-181 | the first end node on the path gives the shortest keyword at this place |
| Keywords.NoMatch | misc/co_wordfilter.c:173-184 | where no code that continues a keyword follows, no keyword begins here |
| Keywords.FilterChangesMatchesOnly | misc/co_wordfilter.c:187-206 | filtering keeps the length and changes exactly the bytes within the match at some place the scan comes by, going on behind each match and by one code point elsewhere |
| Keywords.MatchIsShortest | misc/co_wordfilter.c:178-181 | what is changed at such a place is a keyword, the shortest one that begins there |
| Keywords.OccurrenceIsCovered | misc/co_wordfilter.c:187-206 | on well-formed text the first byte of every occurrence of a keyword is changed |
| Keywords.FilteredIsClean | misc/co_wordfilter.c:187-224 | after filtering with an ASCII character that is in no keyword the check is false |
| Keywords.CheckFindsOccurrences | misc/co_wordfilter.c:208-224 | on well-formed text the check is true exactly if some keyword occurs somewhere |
| WordFilter.FindChild | misc/co_wordfilter.c:72-96 | the binary search finds the child with the code or the place where it keeps the vector ascending |
| WordFilter.GrowTrie | misc/co_wordfilter.c:99-109 | a new child at that place keeps one node for each path and all vectors ascending |
| WordFilter.KeywordTrie.InsertChild | misc/co_wordfilter.c:99-109 | the node for the longer path, made if need be; no keyword changes |
| WordFilter.KeywordTrie.AddWord | misc/co_wordfilter.c:111-131 | just the word is added to the keywords; of a malformed one its well-formed beginning |
| WordFilter.KeywordTrie.LastChild | misc/co_wordfilter.c:134-148 | the node of the word's path, exactly if the word is well formed, not empty and on a path |
| WordFilter.KeywordTrie.Exist | misc/co_wordfilter.c:150-156 | true exactly for words added and not since deleted |
| WordFilter.KeywordTrie.DelWord | misc/co_wordfilter.c:158-166 | just that word ceases to be a keyword; prefixes and extensions stay |
| WordFilter.KeywordTrie.FreeNode | misc/co_wordfilter.c:23-34 | exactly the nodes from a path down are freed, each once, and none before the nodes below it |
| WordFilter.KeywordTrie.Clear | misc/co_wordfilter.c:48-54 | every node of the trie is freed once and no keyword is left |
| WordFilter.KeywordTrie.CheckWord | misc/co_wordfilter.c:169-185 | the end of the shortest keyword at this place, or nothing exactly if none begins here |
| WordFilter.KeywordTrie.Filter | misc/co_wordfilter.c:187-206 | in place, the text becomes the filtered text; true exactly when the check of the original is |
| WordFilter.KeywordTrie.Check | misc/co_wordfilter.c:208-224 | true exactly if a keyword begins at a place the scan comes by |
| Scheduler.AllLive | src/co_routine.c:103-107 | if every slot lives the count equals the capacity, so the search below capacity finds a slot |
| Scheduler.SearchComesBy | src/co_routine.c:110-120 | the search that starts behind the count comes by every slot |
| Scheduler.ProbesBefore | src/co_routine.c:110-120 | the slot at which the search ends is the first dead one from the count on, going around the end |
| Scheduler.ChainPush | src/co_routine.c:171-175 | a resume adds the coroutine to the chain of resumes |
| Scheduler.ChainPop | src/co_routine.c:194-198 | a yield or an end takes the running coroutine off the chain, and its resumer runs |
| Scheduler.Scheduler.ChainBelowIsKept | src/co_routine.c:163-205 | in the history of a scheduler, whatever runs above a coroutine leaves the chain below it alone |
| Scheduler.Scheduler.ResumeReturnsToCaller | src/co_routine.c:163-205 | in every history of a scheduler, when the chain of resumes for the first time is no longer than before a resume, it is the same chain, with the coroutine that made the resume running |
| Scheduler.Scheduler.constructor | src/co_routine.c:46-62 | the main coroutine runs alone in slot 0 |
| Scheduler.Scheduler.New | src/co_routine.c:101-161 | always succeeds; below capacity the id is the first dead slot from the count on, going around the end, at capacity the first of the new slots; no other status changes, the count of the living grows by one |
| Scheduler.Scheduler.Resume | src/co_routine.c:163-185 | succeeds exactly for a suspended coroutine, which goes on top of the chain; otherwise nothing changes |
| Scheduler.Scheduler.Yield | src/co_routine.c:187-205 | fails only in the main coroutine; else the top is suspended and its resumer runs |
| Scheduler.Scheduler.Finish | src/co_routine.c:79-99 | the top is dead, the count falls by one and its resumer runs |
| Scheduler.Scheduler.GetStatus | src/co_routine.c:207-213 | running exactly for the top of the chain, normal exactly for those below |
| RingBuffer.RingBuf.constructor | src/co_buffer.c:257-264 | a new ring of any size, 0 too, is empty |
| RingBuffer.RingBuf.ReadableSize | src/co_buffer.c:312-317 | the length of the contents, wrapped or not |
| RingBuffer.RingBuf.ReadOnceSize | src/co_buffer.c:319-324 | that many bytes of the contents lie in one piece at the head, and none only if empty |
| RingBuffer.RingBuf.Read | src/co_buffer.c:272-282 | the first bytes of the contents, as many as wanted or there, leave in order; the rest of the target is untouched |
| RingBuffer.RingBuf.Consume | src/co_buffer.c:326-333 | takes off exactly that many bytes and moves the head behind them, or nothing if there are fewer, also from a ring without any place |
| RingBuffer.RingBuf.CheckAndGrow | src/co_buffer.c:284-297 | more than n places are free and the contents are the same, also when they went around; the size, doubled at least if it changes, and the place of the head are those of `Layout.WithRoom` |
| RingBuffer.RingBuf.Write | src/co_buffer.c:299-306 | the bytes are appended behind the tail for any wrapping and growth, and the ring is never full |
| Circular.GrownSpan | src/co_buffer.c:290-294 | moving the piece before the old end to the new end keeps wrapped contents |
| Circular.Putting | src/co_buffer.c:301-305 | writing around the end appends |
| Circular.Taking | src/co_buffer.c:280 | advancing the head around the end drops the first items |
| TcpSend.Connection.Established | src/co_ioservice.c:288-294 | a connection that was made may send, with nothing accepted yet |
| TcpSend.Connection.Accepted | src/co_ioservice.c:250-276 | an accepted connection may send at once, with nothing accepted yet and write events off |
| TcpSend.Connection.Drop | src/co_ioservice.c:219-226 | the connection is gone, with its ring and its poll |
| TcpSend.Connection.HandleError | src/co_ioservice.c:228-248 | an error ends the connection |
| TcpSend.Connection.CheckClosing | src/co_ioservice.c:336-342 | with nothing waiting a closing connection is completed, another stops asking for write events |
| TcpSend.Connection.Offer | src/co_ioservice.c:350-353 | the first bytes that wait, as many as lie in one piece at the head, up to 2048 |
| TcpSend.Connection.SendSome | src/co_ioservice.c:350-367 | the whole piece at the head is offered, up to 2048 bytes; the bytes that the kernel takes are the next ones and leave the ring, and none is lost when it takes fewer or none |
| TcpSend.GoneFurther | src/co_ioservice.c:349-369 | after each call of `write` what is sent and what waits still are the parts that the run of replies makes of the contents |
| TcpSend.Connection.HandleWrite | src/co_ioservice.c:344-373 | of the two pieces that wait exactly the bytes that the replies come to are sent, in order; sent plus waiting stays what was accepted; stops only for a reason; a closing connection is completed without error only when all was sent |
| TcpSend.Connection.Send | src/co_ioservice.c:493-503 | accepts exactly when connected and not empty, and sends at once what the replies come to; afterwards write events are on exactly if bytes wait |
| TcpSend.Connection.Close | src/co_ioservice.c:505-520 | forced or not, what waits is tried once and the same bytes are sent: all, or the kernel failed or gave a reason to stop; then gone if forced, failed or all was sent, else closing until the rest is sent |
| TcpSend.WillingKernel | src/co_ioservice.c:344-373 | a kernel that takes all it is offered has everything after one call for every 2048 bytes of each piece, begun or full, and not before |
| TcpSend.OneCall | src/co_ioservice.c:350-370 | one piece of up to 2048 bytes, such as the first bytes sent on a connection, is gone with the first call that takes it |
| CircularQueue.Queue.CheckAndGrow | src/co_queue.c:26-38 | the same items, with two places free |
| CircularQueue.Queue.Push | src/co_queue.c:40-44 | the item is appended |
| CircularQueue.Queue.Pop | src/co_queue.c:46-54 | the first item leaves, or nothing if there is none |
| CircularQueue.Queue.Peek | src/co_queue.c:56-65 | the item at an index from the front or, negative, from the end; nothing outside |
| PriorityQueue.TopIsLargest | src/co_pqueue.c:26-43 | in a heap nothing is larger than the top |
| PriorityQueue.SwapUp | src/co_pqueue.c:33-42 | swapping a too large item with its parent moves the only trouble up |
| PriorityQueue.SwapDown | src/co_pqueue.c:53-72 | swapping a too small item with its larger child moves the only trouble down |
| PriorityQueue.PQueue.HeapUpTail | src/co_pqueue.c:26-43 | from an appended item to a heap of the same items |
| PriorityQueue.PQueue.HeapDownHead | src/co_pqueue.c:45-73 | from a replaced top to a heap of the same items |
| PriorityQueue.PQueue.Push | src/co_pqueue.c:75-80 | a heap of the items and the new one |
| PriorityQueue.PQueue.Pop | src/co_pqueue.c:82-94 | just one largest item leaves, or nothing if there is none |
| PriorityQueue.PQueue.Get | src/co_pqueue.c:96-98 | the item at a signed index; index 0 is a largest one |
| PriorityQueue.PQueue.Drain | src/co_pqueue.c:82-94 | popping to the end gives all items in descending order |

## Left out

- CoSet.Set.Intersect: stops where the program would read the node it has just freed; what the program does from there on is undefined.
- CoSet.Set.Minus: stops likewise where the program would read a freed node; two sets that share nodes without being the same are not covered.
- TimingWheel.Wheel.Tick: does not promise in which order timers due in the same tick fire; across wheels it is not the order of addition.
- TimerService.Service.AddTimer: the item allocator is a source of fresh items, so nothing is said about re-use of a freed item; that expired one-shot items are not returned to it is kept.
- TimerService.Service.Prepare: stands for the allocation that `cots_add_timer` makes inside a callback, before the script that adds the timer is run.
- Utf8.Decode: where bits are or-ed together the lower ones are clear, so the model adds; when more than three continuation bytes were read the sum is not formed, because it is refused in any case.  For FF and seven continuation bytes the program's shift by 35 (src/co_utf8.c:20) is undefined, and the model goes on to refuse the text.
- WordFilter.KeywordTrie.FreeNode: the child vectors that lookups create empty are not told from missing ones.
- TcpSend.Connection.HandleWrite: the error callback does not send on the same connection; the close callback is not modelled.
- RingBuffer.RingBuf.Read: not from a buffer of size 0, where the program divides by the size.
- RingBuffer.RingBuf.Consume: not 0 bytes from a buffer of size 0, where the program divides by the size.
- Sizes and counts are unbounded: `uint32_t` and `int` counters of nodes, slots, items and bytes, and their doubling, do not overflow.  The 32-bit clock of the wheel does wrap around.
- The sentinel of the red-black tree has its own address in its child links, where the program leaves them null; neither is ever followed.
- Copying of elements, keys and values by size; memory allocation failure; freeing, except where it says above; printing.
- The `cobuffer` typed reads and writes, byte order helpers, vectors, lists and strings: only easy members.
- The FNV hash functions: only that equal keys hash alike is assumed.
- Reading, accepting, connecting, listening, UDP and file descriptors of the I/O service, the poll and the event loop, DNS packets, context switching and stacks, `cowf_loadwords`.
