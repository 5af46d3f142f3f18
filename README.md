# Indexed skip list (slice/skip/skip.go)

This project models the skip list of `slice/skip/skip.go`. The list is
ordered by key and can be addressed by key and by 0-based position.

**The handle.** A handle holds:

- a head tower;
- the current `level` and the `maxLevel`;
- the count `num`;
- two scratch buffers, `cache` and `posCache`.

Every tower has one forward link and one width per level. A width is the
number of ranks its link spans; it is 0 on the level's last link.

**Searches.** There are two:

- `search` finds a node by key;
- `searchByPosition` finds a node by rank.

Both walk down from the current level. While walking, they write the
*update trail* into the buffers: for every level, the last node before
the cut and its rank. The mutators consume that trail:

- `insertNode` splices a tower in;
- `delete` unlinks one;
- `splitAt` cuts every level at a rank.

**How it is modelled.**

- The towers are an arena `nodes: seq<Node>`:
  - node 0 is the head;
  - links are node indices, and `NIL` (-1) is nil.
- A ghost field `order` lists the nodes along level 0. `Elems()` gives their entries in rank order.
- `Valid()` is the list's invariant. On every level below the current one, every width is the rank distance to the next taller tower (module `Towers`, `Linked`). No tower stands above the level. The head's links from the level up are NIL with width 0. The level is no higher than needed: it is at most 1, or the head's link just below it is set, so the level is the tallest tower's height (`LevelIsTallest`). `posCache` is 0 above the level.
- The buffers are real arrays, so what one call leaves in them is seen by the next.
- Counts, ranks and widths are 64-bit unsigned (`u64`). The wrap-arounds the code relies on are written out with `Wrap`:
  - `position + 1` in `ByPosition` and `ReplaceAtPosition`;
  - `index + 1` in `SplitAt`.

**Files.**

- `entries.dfy` (module `Entries`) holds plain-sequence reference definitions of the keyed operations: lower bound, find, keyed insert and delete, and their batches. Each class method is tied to one of these on a sorted list.
- `towers.dfy` (module `Towers`) holds the arena and the per-level lemmas.
- `skiplist.dfy` (module `Skip`) holds the class `SkipList` and the loops over levels as module-level methods on the arena.

**Where the doc comments and the code disagree, this model follows the code.**

- `GetWithPosition` returns the next larger entry on a miss (see Findings).
- An unsupported kind leaves `maxLevel` at 0; the code has no error path (slice/skip/skip.go:182-192).
- `SplitAt` with the largest index wraps to a cut at 0 and moves everything to the right list.

## Model

| member | source | states |
|---|---|---|
| Skip.SkipList.New | slice/skip/skip.go:182-196 | The new list is valid and empty at level 0. maxLevel is 8, 16, 32 or 64 by kind, and 0 for an unsupported kind. The head's entry slot is None. |
| Skip.SkipList.Search | slice/skip/skip.go:198-220 | An empty list gives (NIL, 1) and leaves the buffers untouched. Otherwise: the result is the node at a cut for e's key (before it all keys are smaller; at it, not smaller), and its 1-based rank. On a sorted list that cut is the lower bound. With buffers, every level up to `level` holds its trail node and rank; slots above are untouched. |
| Skip.SkipList.SearchByPosition | slice/skip/skip.go:233-259 | An empty list, or a position past num, gives (NIL, 1) and leaves the buffers untouched. Otherwise: the node at 1-based rank `position` (the head for 0), the rank + 1, and the trail of every level for cut `position`. |
| Skip.SkipList.Get | slice/skip/skip.go:264-278 | One slot per input, each what a lookup reads at some cut of that input's key (`LookedUp`): the entry there if its key matches, else None. A found entry is in the list and has the input's key. On a sorted list, each slot is the keyed lookup `Find`. |
| Skip.SkipList.GetOne | slice/skip/skip.go:268-274 | For some cut c of e's key, the result is the entry at c if its key is e's, else None (`LookedUp`), on any list, sorted or not. On a sorted list this is `Find`. |
| Skip.SkipList.GetWithPosition | slice/skip/skip.go:283-290 | As written: for some cut of e's key, the entry at the cut with its 0-based index, or (None, 0) at the end. On a sorted list this is `Successor`, not an exact match. |
| Skip.SkipList.GetWithPositionExact | slice/skip/skip.go:280-282 | As documented: a returned entry has e's key and sits at the returned index; a miss gives (None, 0). On a sorted list the entry is `Find`. |
| Skip.SkipList.ByPosition | slice/skip/skip.go:293-300 | For i < num, the entry at index i. For num ≤ i < 2^64-1, None. For i = 2^64-1, position + 1 wraps to 0, which reads the head's entry slot of a non-empty list. |
| Skip.SkipList.ReplaceAtPosition | slice/skip/skip.go:335-349 | For i < num, the entries become `old[i := e]`. Order, count, level and buffers are unchanged, and so are every link, width and height. Past the end, the arena is unchanged. The wrapped largest index leaves the entries as they were and puts e in the head's entry slot. Except for that wrapped index, the head's entry slot is unchanged. |
| Skip.SkipList.SetNodeEntry | slice/skip/skip.go:341 | Overwriting the entry of the node at rank k keeps the list valid, changes only index k-1 of the entries, and leaves every link, width and height as it was. Writing a rank k > 0 leaves the head's entry slot unchanged; k = 0 writes that slot and no entry of the list. |
| Skip.SkipList.InsertNode | slice/skip/skip.go:96-136 | Without allowDuplicate, an entry with the same key at the cut is overwritten and returned; count, level, order, links, widths and heights stay. Otherwise the entry goes in at the cut, num grows by one, and the level becomes the height drawn from `coins` when that is above it and stays otherwise. Either way the list stays valid at level ≥ 1. The head's entry slot is unchanged. |
| Skip.SkipList.AddTower | slice/skip/skip.go:102-135 | Past the duplicate check: num grows by one, the level becomes the drawn height if that is higher and stays otherwise (so at least 1), and the list stays valid holding `old[..c] + [entry] + old[c..]`. The head's entry slot is unchanged. |
| Skip.SkipList.InsertOne | slice/skip/skip.go:302-305 | For e's cut c, (entries, result) = `PutAt(old, c, e)`. An overwrite changes no link, width, height, count or level. The level is at least 1 and never falls. On a sorted list this is `InsertKeyed`, and the list stays sorted. An insert (not an overwrite) sets the level to the drawn height when that is higher and keeps it otherwise. The head's entry slot is unchanged. |
| Skip.SkipList.Insert | slice/skip/skip.go:310-317 | One result slot per input. The level never falls, and is at least 1 after any insert. On a sorted list, (entries, results) = `InsertMany(old, es)` and the list stays sorted. The head's entry slot is unchanged. |
| Skip.SkipList.InsertAtPosition | slice/skip/skip.go:319-333 | With q = min(p, num), the entries become `old[..q] + [e] + old[q..]`, whatever e's key. The level is at least 1 and never falls. The level becomes the drawn height when that is higher and stays otherwise; the head's entry slot is unchanged. |
| Skip.SkipList.DeleteOne | slice/skip/skip.go:351-378 | For e's cut c, (entries, result) = `RemoveAt(old, c, e.key)`: the entry at the cut is removed only if its key matches. A miss changes no node, order, count or level. A removal leaves the level in [1, old level]. On a sorted list this is `DeleteKeyed`, and the list stays sorted. Because the list stays valid, the new level is 1 or the head's link below it is set. The head's entry slot is unchanged. |
| Skip.SkipList.Unlink | slice/skip/skip.go:358-377 | Given the trail for cut c, removing the tower at rank c+1 leaves a valid list holding `old[..c] + old[c+1..]`, its level in [1, old level]. Being valid, the new level is 1 or has a set head link below it. The head's entry slot is unchanged. |
| Skip.SkipList.Delete | slice/skip/skip.go:383-391 | One result slot per input. The level never rises and, once at least 1, stays at least 1. On a sorted list, (entries, results) = `DeleteMany(old, es)` and the list stays sorted. The head's entry slot is unchanged. |
| Skip.SkipList.SplitAt | slice/skip/skip.go:423-429 | With c = index + 1 mod 2^64: if c ≥ num, there is no right list and nothing changes: nodes, order, count, level and both buffers' contents. Otherwise this list holds `old[..c]`, with num = c. A fresh valid right list holds `old[c..]`, with num - c entries. Both end at level ≥ 1. Both lists being valid, each level is 1 or has a set head link below it. The left head's entry slot is unchanged; the right head's is None. |
| Skip.SkipList.SplitOff | slice/skip/skip.go:138-163 | For 0 ≤ index < num: the left list keeps `old[..index]` and the fresh right list gets `old[index..]`. Both are valid, with the same maxLevel, counts index and num - index, and level ≥ 1. Each level is 1 or has a set head link below it. The left head's entry slot is unchanged; the right head's is None. |
| Skip.SkipList.Tail | slice/skip/skip.go:139-144 | The right list takes the given towers, level and count, with fresh buffers of length maxLevel and `posCache` all 0. |
| Skip.SkipList.ResetMaxLevel | slice/skip/skip.go:222-231 | Level 0 becomes 1. Otherwise the level falls while it is above 1 and the head's link below it is NIL, never below 1, and the towers stay right at the new level. |
| Skip.SkipList.Len | slice/skip/skip.go:394-396 | The number of entries. |
| Skip.SkipList.Iter | slice/skip/skip.go:398-415 | For the cut search finds, an iterator before that entry, or the nil iterator at the end. On a sorted list the cut is the lower bound. |
| Skip.KeyWalkStep | slice/skip/skip.go:206-217 | One level of the key walk keeps the walk's invariant: past keys are below e's, a barrier stands right, and every level walked has its trail so far. |
| Skip.WalkByKey | slice/skip/skip.go:203-219 | The key walk ends at a cut for e's key with rank + 1, whatever the order of the keys. The buffers hold that cut's trail on every level walked; slots above are untouched. |
| Skip.WalkLevel | slice/skip/skip.go:207-211 | One level of the key walk, from the previous stop: the walk's invariant holds at the new stop. |
| Skip.StepByKey | slice/skip/skip.go:207-211 | The walk along one level, before anything is recorded: the walk's invariant holds at the new stop, whose rank is recorded as that level's trail. |
| Skip.RecordLevel | slice/skip/skip.go:213-216 | Writing the level's stop into the buffers records the trail for that level only. |
| Skip.AdvanceByKey | slice/skip/skip.go:208-211 | The inner loop stops at the last tower on the level whose key is below e's, before the barrier. It counts the ranks passed. |
| Skip.AdvanceOne | slice/skip/skip.go:208-210 | One turn of the inner loop: the position grows by the link's width to a later rank, the node is the one at that rank, and the walk's invariant holds there. |
| Skip.AdvanceStep | slice/skip/skip.go:208-210 | A link to a key below e's leads to a rank before the barrier, and the walk's invariant holds there. |
| Skip.AdvanceExit | slice/skip/skip.go:208-211 | Where the inner loop stops, the next key on the level is not below e's and comes no later than the barrier; a NIL start link means no move. |
| Skip.KeyWalkDone | slice/skip/skip.go:206-219 | After the last level the walk stands at a cut for the key, its level-0 link is the next rank's node (NIL at the end), and every level's trail is for that cut. |
| Skip.WalkByPos | slice/skip/skip.go:242-258 | The position walk ends on the node at rank p, with rank p + 1. The buffers hold the trail for cut p. |
| Skip.AdvanceByPos | slice/skip/skip.go:247-250 | The inner loop stops at the last tower on the level at or before rank p. It counts the ranks passed. |
| Skip.SpliceOne | slice/skip/skip.go:113-128 | Splicing the new tower into level l at the trail, with the widths insertNode computes from pos and posCache, keeps that level right for the order with the tower inserted. Other levels are unchanged. |
| Skip.SpliceWrites | slice/skip/skip.go:114-125 | The four writes of one level: the new tower takes the trail's link, the trail links to it, the new width is the rest of the old width (0 at the end) and the trail's width is pos - posCache, mod 2^64; only those two nodes change on that level. |
| Skip.BumpOne | slice/skip/skip.go:130-134 | On a level above the new tower's top, the trail link's update (one more rank when it passes over the tower) keeps that level right for the order with the tower inserted. Other levels are unchanged. |
| Skip.SpliceAll | slice/skip/skip.go:112-129 | Every level below the new tower's height is right after the splice. |
| Skip.SpliceStep | slice/skip/skip.go:113-127 | One turn of the splice loop: the levels done so far and the current one are right, and the levels not yet spliced are unchanged. |
| Skip.BumpAll | slice/skip/skip.go:130-135 | Every level from the tower's height up to the list's level is right after the bump. |
| Skip.BumpStep | slice/skip/skip.go:129-134 | One turn of the bump loop: the levels done so far and the current one are right, and every other level is unchanged. |
| Skip.InsertTower | slice/skip/skip.go:111-135 | Appending and linking a tower of height h at cut c gives a new tower of exactly height h and towers right at the list's level, holding `old[..c] + [entry] + old[c..]`. The old towers keep their heights, and the head's entry slot is unchanged. |
| Skip.TowerInserted | slice/skip/skip.go:112-134 | A new tower linked in on every level below the level leaves valid towers at that level holding `old[..c] + [entry] + old[c..]`. |
| Skip.GrowTower | slice/skip/skip.go:104-134 | With h the height generateLevel draws from `coins`, the new level is h when h is above the level and the old level otherwise; the new tower has height h; the raised levels' cache slots point at the head; the towers are valid at the new level holding `old[..c] + [entry] + old[c..]`. The new level is 1 or has a set head link below it (the new tower or an old one reaches it); the head's entry slot is unchanged. |
| Skip.HeadStillSet | slice/skip/skip.go:104-134 | After an insert, the level is 1 or the head's link just below it is set: by the new tower when it raised the level, otherwise by the tower that set it before. |
| Skip.SkipList.LevelIsTallest | slice/skip/skip.go:222-231 | On a valid list no tower is above the level, and a non-empty list holds a tower exactly as tall as the level. |
| Skip.PointAtHead | slice/skip/skip.go:105-110 | The raised levels' cache slots point at the head; every other slot is unchanged. |
| Skip.GenerateLevel | slice/skip/skip.go:83-94 | The height is `Drawn(maxLevel, coins)`: at least 1, stopped at the first stopping draw, and bounded by maxLevel - 1 in 8-bit arithmetic. For maxLevel ≥ 2 it stays below maxLevel. |
| Skip.UnlinkOne | slice/skip/skip.go:361-370 | Corrected step: the trail link over the removed tower shrinks by one. A link to it takes over its link, with width 0 when it ended the level. This keeps the level right for the order without it. |
| Skip.UnlinkOneAsWritten | slice/skip/skip.go:361-370 | As written: a link to the removed tower takes over its link and width + its width - 1 (mod 2^64), also when that width is 0. |
| Skip.DeleteTallTailAsWritten | slice/skip/skip.go:368 | A valid list where the as-written step leaves a NIL link with width 1, so the level is not right. |
| Skip.TallTailTowered | slice/skip/skip.go:368 | The example list of that finding is valid at level 2, and the head is level 1's trail for deleting rank 2. |
| Skip.UnlinkAll | slice/skip/skip.go:360-370 | Every level up to the list's level is right after the removal; levels above are unchanged. |
| Skip.UnlinkStep | slice/skip/skip.go:360-370 | One turn of delete's loop: the levels done so far and the current one are right for the order without the tower, and the levels not yet reached are unchanged. |
| Skip.LowerLevel | slice/skip/skip.go:228-230 | A level whose head link is NIL can be given up: the towers are also valid one level lower. |
| Skip.Shrink | slice/skip/skip.go:372-375 | The level falls while above 1 with a NIL head link below it. The towers are valid at the new level, and the arena is unchanged: every width the loop clears was already 0. It stops at 1 or at the first level whose head link below is set. |
| Skip.RemoveTower | slice/skip/skip.go:358-375 | Removal plus shrink gives valid towers holding `old[..c] + old[c+1..]`. The trail of every level given up was at the head, so posCache stays 0 there. The new level is 1 or has a set head link below it, and the head's entry slot is unchanged. |
| Skip.CutOne | slice/skip/skip.go:147-154 | On level l, the right head takes over the trail's link and width shortened by c - posCache (0 at the end), and the trail's link ends the level. After that, level l of both parts is right for `order[..c]` and `order[c..]`. Other levels are unchanged. |
| Skip.CutAll | slice/skip/skip.go:146-154 | After the loop over levels 0..level, both parts are right on every level walked, and the right head is NIL/0 above. The right head's entry slot is None. |
| Skip.CutStep | slice/skip/skip.go:146-154 | One turn of splitAt's loop: both parts are right on the levels done so far and the current one; the levels not yet cut are unchanged and the right head is NIL/0 there. |
| Skip.SplitTowers | slice/skip/skip.go:138-163 | Both parts are valid towers at the old level, holding `old[..c]` and `old[c..]`. A level whose left head link is NIL had its trail at rank 0. The left head keeps its entry slot; the right head's is None. |
| Skip.PartTowered | slice/skip/skip.go:155-160 | A part with all towers at or below the level, right on every level up to it, is valid at that level. |
| Towers.Wrap | slice/skip/skip.go:294 | Reduction mod 2^64 of an unsigned 64-bit sum or difference. |
| Towers.NewNode | slice/skip/skip.go:195 | A new tower of height h has all links NIL and all widths 0. |
| Towers.EmptyLevel | slice/skip/skip.go:195 | A level holding only the head, with a NIL link of width 0, is right. |
| Towers.TrailBottom | slice/skip/skip.go:219 | On level 0 the trail for cut c is rank c itself. |
| Towers.WalkEnd | slice/skip/skip.go:219 | On level 0 the stop's link is the node at the next rank, or NIL at the end. |
| Towers.AppendNode | slice/skip/skip.go:111 | Appending an unlinked tower changes no level, no trail and no entry. |
| Towers.EntryFrame | slice/skip/skip.go:341 | Replacing an entry keeps every level and changes only that node's entry. |
| Towers.ContentsIns | slice/skip/skip.go:111-128 | Inserting node m at cut c gives entries `old[..c] + [e] + old[c..]`. |
| Towers.SpliceTrailCase | slice/skip/skip.go:113-125 | The trail's link after the splice reaches the new tower, c + 1 - k ranks on. |
| Towers.SpliceNewCase | slice/skip/skip.go:116-121 | The new tower's link and width reach the trail's old successor, or end the level. |
| Towers.BumpTrailCase | slice/skip/skip.go:130-134 | A trail link over the new tower, grown by one, is right. |
| Towers.SpliceLevel | slice/skip/skip.go:113-128 | A level below the new tower's top is right after the splice. |
| Towers.SpliceBeforeCase | slice/skip/skip.go:113-127 | A link at a rank before the new one stays right; the trail's link reaches the new tower. |
| Towers.SpliceAfterCase | slice/skip/skip.go:113-127 | A link at a rank after the new one moves up one rank and stays right. |
| Towers.BumpLevel | slice/skip/skip.go:130-134 | A level above the new tower's top is right after the bump. |
| Towers.HeadNil | slice/skip/skip.go:372-375 | A NIL head link on a right level has width 0, and no tower rises above that level. |
| Towers.HeadNilBack | slice/skip/skip.go:372-375 | A right level with no tower above it has a NIL head link of width 0. |
| Towers.HeadLink | slice/skip/skip.go:226-230 | On a right level the head's link is set exactly when some tower rises above that level. |
| Towers.DelTrailHead | slice/skip/skip.go:372-375 | After a removal, a level whose head link is NIL had its trail at the head. |
| Towers.ContentsDel | slice/skip/skip.go:358-370 | Removing the tower at rank c+1 gives entries `old[..c] + old[c+1..]`. |
| Towers.UnlinkToRemovedCase | slice/skip/skip.go:367-369 | A trail link to the removed tower, replaced by that tower's link, is right. |
| Towers.UnlinkOverCase | slice/skip/skip.go:361-364 | A trail link over the removed tower, shrunk by one, is right. |
| Towers.UnlinkLevel | slice/skip/skip.go:361-370 | Unlinking at the trail keeps the level right for the order without the tower. |
| Towers.CutLeftLevel | slice/skip/skip.go:152-153 | Ending the trail's link on level l leaves level l right for `order[..c]`. |
| Towers.CutHeadCase | slice/skip/skip.go:148-151 | The right head's link, taken over from the trail and shortened by c - k, is right for `order[c..]`. |
| Towers.CutRightLevel | slice/skip/skip.go:148-151 | Level l of the right part is right for `order[c..]`. |
| Towers.CutArena | slice/skip/skip.go:144-154 | Both parts of a cut keep the arena's shape and their side's entries, `old[..c]` and `old[c..]`. |
| Towers.CutTrailHead | slice/skip/skip.go:155-160 | After a cut, a left level with a NIL head link had its trail at the head. |
| Entries.Compare | slice/skip/skip.go:208 | Negative, zero or positive exactly as the first key is below, equal to or above the second. |
| Entries.Successor | slice/skip/skip.go:283-290 | A found entry is at the returned index; (None, 0) otherwise. |
| Entries.LowerBoundUnique | slice/skip/skip.go:208 | On a sorted sequence, search's stopping condition determines the lower bound. |
| Entries.FindAtLowerBound | slice/skip/skip.go:269-270 | On a sorted sequence, the keyed lookup is the entry at the lower bound when its key matches. |
| Entries.NoneBelowFirst | slice/skip/skip.go:269-273 | With every key above k, the lookup finds nothing. |
| Entries.FindSound | slice/skip/skip.go:261-262 | A found entry is in the sequence with key k. Nothing is found exactly when no entry has key k. |
| Entries.LookedUpSorted | slice/skip/skip.go:268-274 | What a lookup reads at any cut of k is an entry of the sequence with key k, or None; on a sorted sequence it is the keyed lookup `Find`, whichever cut the search stopped at. |
| Entries.InsertKeyedAt | slice/skip/skip.go:96-102 | On a sorted sequence, the keyed insert overwrites at the cut when the key matches and inserts there otherwise. |
| Entries.DeleteKeyedAt | slice/skip/skip.go:351-356 | On a sorted sequence, the keyed delete removes at the cut when the key matches and changes nothing otherwise. |
| Entries.NoKeyDeleteIdentity | slice/skip/skip.go:354-356 | Deleting a missing key changes nothing and returns None. |
| Entries.InsertKeyedSorted | slice/skip/skip.go:302-305 | The keyed insert keeps keys strictly ascending. The length grows by one unless an entry was overwritten. |
| Entries.LowerBoundSplits | slice/skip/skip.go:206-211 | On a sorted sequence, keys before the lower bound are below k and the rest are not. |
| Entries.InsertThenFind | slice/skip/skip.go:307-309 | After the keyed insert of e, a lookup of e's key finds e. |
| Entries.InsertKeepsOthers | slice/skip/skip.go:307-309 | The keyed insert leaves every other key's lookup unchanged. |
| Entries.InsertReturnsOld | slice/skip/skip.go:307-309 | On a sorted sequence, the overwritten entry returned is the old lookup of e's key. |
| Entries.DeleteKeyedSorted | slice/skip/skip.go:380-382 | The keyed delete keeps the sequence sorted, leaves the key absent, and returns the old lookup. |
| Entries.InsertThenDelete | slice/skip/skip.go:351-378 | On a sorted sequence without e's key, deleting right after inserting e restores it and returns e. |
| Entries.SuccessorSpec | slice/skip/skip.go:283-290 | On a sorted sequence, None exactly when every key is below k. Otherwise the first entry not below k and its index. |
| Entries.SuccessorOnMiss | slice/skip/skip.go:280-290 | On [key 2], asking for key 1 gives the key-2 entry at index 0, not (None, 0). |
| Entries.InsertManySnoc | slice/skip/skip.go:310-317 | A batch insert with one more entry is the batch followed by one keyed insert, with one more result slot. |
| Entries.DeleteManySnoc | slice/skip/skip.go:383-391 | A batch delete with one more entry is the batch followed by one keyed delete, with one more result slot. |

## Left out

- The random height draw (slice/skip/skip.go:78-94): the `math/rand` generator, its seeding from the clock, the mutex and the 0.5 float comparison are not modelled. `GenerateLevel` takes the draws as a `coins` parameter, one boolean per level; `true` stops the climb.
- The cost bounds, the height distribution, the benchmarks and node reuse are not modelled; none of them is behaviour.
- The `interface{}` type switch of `init`/`New` (slice/skip/skip.go:182-196, 436-440) becomes the `Kind` datatype.
- The definitions of `Entry`, `Compare`, `Entries`, `newNode` and the iterator are not part of this model. `Entry` is an int key with an int payload ordered by key, and `newNode` is `NewNode`. For `iter`, only the choice of starting node is modelled; iterator stepping is not.
- Skip.SkipList.InsertNode: requires `maxLevel >= 2`. With maxLevel 0 the code indexes an empty `cache` and panics; `New` never produces maxLevel 1.
- Skip.SkipList.InsertNode: requires `num + 1 < 2^64`, so the wrap of `num++` is not modelled. `Insert` and `InsertAtPosition` carry the same bound.
- Skip.SkipList.Search: callers pass both buffers or neither (`(update == null) == (widths == null)`), as every caller in the code does.
- Skip.SkipList.ResetMaxLevel: from level 0 it sets level 1. The towers are stated right afterwards only when maxLevel is at least 2; splitAt never calls it at level 0.
- Skip.SkipList.SplitOff: the Go right list shares the tower nodes of ranks past the cut with the left one. The model gives the right list its own copy of the arena with a new head. No node is reachable from both lists afterwards, so no update through one list is visible in the other. Go also allocates the right handle before the search; the model builds it after the towers are cut.
- Skip.SkipList.Get, Skip.SkipList.GetOne, Skip.SkipList.InsertOne, Skip.SkipList.Insert, Skip.SkipList.DeleteOne, Skip.SkipList.Delete, Skip.SkipList.Iter: the keyed reference (`Find`, `InsertKeyed`, `DeleteKeyed`) is promised only for a sorted list. `InsertAtPosition` can break the order, and then only the cut-based contract (`LookedUp`, `PutAt`, `RemoveAt`) holds. Insert and Delete state only the level bounds and the number of results for that case, since the batch has no cut of its own.
- Skip.SkipList.Unlink, Skip.SkipList.DeleteOne, Skip.SkipList.Delete: use the corrected tail width of the first finding below, not the as-written one. Their `Valid()` after a removal holds only under that correction; `UnlinkOneAsWritten` is the step as written.
- A struct field with no behaviour of its own, `head`, is node 0 of the arena.

## Findings

| source | as written | input that shows it | evidently intended | confidence | as-written member | corrected member |
|---|---|---|---|---|---|---|
| slice/skip/skip.go:368 | When the removed tower n ends level i (`n.widths[i] == 0`), the trail's width still becomes `widths[i] + 0 - 1` while its link becomes nil. The shrink loop at line 373 clears slot `level`, not this one. | maxLevel 8 at level 2: a (height 1) at rank 1, b (height 2) at rank 2; delete b. The head's level-1 link is nil with width 1. A following searchByPosition follows that width into nil. | Width 0 when the removed tower ended the level | high (not executed) | Skip.DeleteTallTailAsWritten | Skip.UnlinkOne |
| slice/skip/skip.go:283-290 | No key comparison: on a miss inside the list, the next larger entry and its index come back. | A list holding key 2; GetWithPosition(key 1) gives (the key-2 entry, 0). | (nil, 0) when no entry has the key, as the doc comment at lines 280-282 says | high (not executed) | Entries.SuccessorOnMiss | Skip.SkipList.GetWithPositionExact |
