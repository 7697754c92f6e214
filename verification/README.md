# Incremental-rehash dictionary (ht, `dict.c`) in Dafny

This project models `dict.c` from the `ht` library. The library is a chained hash dictionary that grows without a stop-the-world rehash. When the load passes 0.75, the active table becomes the retiring table (`ht_old`) and a table twice its size takes its place. That add and every later `dict_add` then move at most 20 buckets from the front of the retiring table's usage list into the active one. `dict_get` looks in the active table first, then in the retiring one. `dict_foreach` walks the active usage list, then the retiring one.

## Modules

- `options.dfy` — `Options`: the `Option` type. It stands for a pointer that may be NULL.
- `djb.dfy` — `Djb`: `djb_hash`, taken over bytes with 64-bit `unsigned long` wrap-around.
  - `DjbHash` is the fold.
  - `HashIsPolynomial` shows the fold equals the exact polynomial reduced once modulo 2^64.
  - `HashLoop` is the shift-and-add loop as written.
- `chained_table.dfy` — `ChainedTable`: one `struct ht`.
  - Buckets live in an arena `map<Id, Entry>`, and a handle stands for a pointer.
  - A slot is its collision chain. Element 0 is the resident head stored in the slot array; an empty chain is a head whose key is NULL.
  - The usage list (`first`/`next`) is a `seq<Id>`.
  - `Valid` is the representation invariant: every bucket sits in its key's slot and a key is held at most once per table.
  - `Release` is `bucket_free` as it would behave if every `collision_prev` named the bucket's predecessor. The code as written does not keep those back links (see Findings), and differs from `Release` when `dict_remove` frees a bucket at chain position 2 or later.
  - Operations: `NewTable` (`ht_new`), `Lookup`/`Find` (`ht_get`), `Insert` (`ht_insert`), `RecordUsed` (`ht_record_used_bucket`), `Release` (`bucket_free`) and `Visit` (the walk of one usage list).
- `collision_links.dfy` — `CollisionLinks`: the `collision_next`/`collision_prev` pointers of one chain.
  - `HeadLinked` is what `ht_insert` as written keeps: every overflow bucket's back link names the head.
  - `DoublyLinked` is what correct back links would keep: every back link names the predecessor.
  - `FreeThroughHead` is `bucket_free` as written on a table. `UnhookUnlinks` shows the corrected free is `Release`.
- `dictionary.dfy` — `Dictionary`: `struct dict` and `dict_new`, `dict_add` (`Grow`, `Put`, `Rehash`), `dict_rehash` (`MoveFront`, `MoveBatch`, `Rehash`), `dict_get`, `dict_remove` (`Detach`, `Remove`) and `dict_foreach`.
- `chain_order.dfy` — `ChainOrder`: the invariant `Ordered`, which says the overflow buckets of every chain appear in the usage list in chain order.
  - `New`, `Add` and `Remove` keep it (`NewOrdered`, `AddOrdered`, `RemoveOrdered`).
  - Under it the bucket a migration turn frees is at chain position 0 or 1, where the free as written and `Release` agree (`MigrationFreesFront`).
- `readback.dfy` — `ReadBack`: the invariant `Inv`, which says two tables together hold a map `m`.
  - `AddKeeps` shows `dict_add` of a new key preserves `Inv`.
  - `RoundTrip` shows the benchmark's add-then-read-back loop (hash.c) returns every value.
  - `AddAllForEach` shows `dict_foreach` then visits exactly the added pairs.

The model keeps these behaviours of the code as written:

- The growth test uses the count from before the insert. With capacity 4, the fifth add grows the table, not the fourth.
- Growth overwrites `ht_old` without looking at it.
- `bucket_free` leaves a resident head untouched, so its key stays findable. `RemovedHeadStillFound` shows `dict_remove` of such a key reports success while `dict_get` still returns the value.
- Re-adding a key that only the retiring table holds makes a second bucket and counts it. When migration reaches the old bucket, the old value overwrites the new one (`ReAddRevertsValue`). This is why the round trip is stated only for pairwise different keys, which is the case the read-back loop of hash.c uses.
- Re-adding a key the active table holds replaces its value when no growth is due and no bucket for the key waits in `ht_old` (`AddOverwrites`, and `OverwriteUnderInv` for every dictionary an add-only run builds). On the add whose load test fires it does not: the new active table is empty, so the key is counted again, and when the key is held by one of the first 20 buckets of the old active usage list, the same call's migration moves that bucket over the new one and puts the old value back (`GrowthAddView`; `GrowthReAddReverts` for the key at the front of the list; dict.c:195-206 and dict.c:163-170). Those first 20 buckets are the most recently listed ones, which include buckets moved in by earlier migrations, not only recently added keys.
- `ht_insert` sets the new bucket's `collision_prev` to the head but leaves the back link of the bucket it pushes down on the head too (dict.c:91-94). `bucket_free` of the bucket at chain position p then links the head to position p + 1, and positions 1 to p - 1 leave the chain while staying allocated and listed (`FreeThroughHeadLoses`). Migration only ever frees position 0 or 1, where this does no harm (`MigrationFreesFront`); `dict_remove` can free any position. The model of `dict_remove` uses the corrected free; see Findings.
- A removed resident head stays in its chain but leaves the usage list, so `dict_get` still finds it. A second `dict_remove` of that key reaches a bucket with stale `prev`/`next` pointers (`RemovedHeadLeavesList`); see "Left out".

## Model

| member | source | states |
|---|---|---|
| Djb.DjbHash | dict.c:11-22 | the hash is below 2^64, and the empty key hashes to 5381 |
| Djb.HashFromAppend | dict.c:17-19 | one more byte applies exactly one more multiply-add step to the running hash |
| Djb.HashIsPolynomial | dict.c:14-19 | wrapping at every step equals the exact polynomial 5381*33^n + sum of c_i*33^(n-1-i), reduced once modulo 2^64 |
| Djb.ShiftAddIsStep | dict.c:18 | `((h << 5) + h) + c` on 64-bit words equals `h * 33 + c` modulo 2^64 |
| Djb.HashLoop | dict.c:11-22 | the loop as written returns the fold's hash and the reduced polynomial |
| ChainedTable.SlotIndex | dict.c:78 | the chosen slot is below the capacity |
| ChainedTable.SlotIndexIsRemainder | dict.c:78 | the chosen slot is the remainder `h % sz`: h = q*sz + slot for some q |
| ChainedTable.NewTable | dict.c:25-38 | a new table has exactly `sz` slots, an empty usage list and satisfies the invariant; no key is found in it |
| ChainedTable.FirstMatch | dict.c:81-87 | the scan stops at the first bucket of the chain holding the key; no bucket before it holds the key |
| ChainedTable.Lookup | dict.c:104-116 | the bucket returned is in the hash's slot chain, holds the key and is the first such; None exactly when no bucket of that chain holds the key |
| ChainedTable.FindHolder | dict.c:104-116 | any allocated bucket holding the key is the one the lookup returns, so a key has at most one bucket per table |
| ChainedTable.FindNone | dict.c:104-116 | when the lookup finds nothing, no allocated bucket holds the key |
| ChainedTable.SameHoldersSameValue | dict.c:104-116 | the lookup depends only on the buckets holding the key: two tables agreeing on those yield the same value |
| ChainedTable.Insert | dict.c:72-101 | replace: only that bucket's value changes, no slot, usage or new bucket. Otherwise: a fresh bucket holding (k, v) enters the key's chain as its head or right after it, the rest of the chain keeps its order, other slots and the usage list are untouched |
| ChainedTable.OverwriteKeepsValid | dict.c:80-84 | overwriting a value keeps the table invariant |
| ChainedTable.SpliceShape | dict.c:89-95 | splicing puts the new bucket at the head of an empty chain or right after the head, with the old chain around it in order |
| ChainedTable.ChainValidSplice | dict.c:89-95 | a chain stays well formed when a fresh bucket for a key absent from it is spliced in |
| ChainedTable.ChainValidFrame | dict.c:91 | allocating a bucket leaves every other chain well formed |
| ChainedTable.AddFreshKeepsValid | dict.c:89-100 | inserting a key the table does not hold keeps the table invariant |
| ChainedTable.InsertUpdatesView | dict.c:72-101 | after an insert the key yields the new value and every other key yields what it yielded before |
| ChainedTable.RecordUsed | dict.c:120-128 | the bucket becomes `first` and the previous list follows it unchanged; slots and buckets are untouched |
| ChainedTable.Release | dict.c:40-50 | the free with correct back links: a resident head is left exactly as it was; an overflow bucket is unlinked from its chain and freed, and its key is no longer found |
| ChainedTable.ChainValidUnlink | dict.c:42-46 | with correct back links, taking a bucket out of a chain keeps the chain well formed and keeps every other bucket in it |
| ChainedTable.UnlinkKeepsValid | dict.c:40-50 | with correct back links, freeing an overflow bucket keeps the table invariant and forgets its key |
| ChainedTable.ReleaseKeepsOthers | dict.c:40-50 | with correct back links, freeing a bucket changes nothing for any other key |
| ChainedTable.RelistValid | dict.c:236-238 | relinking the usage list through some of its own buckets keeps the table invariant |
| ChainedTable.Visit | dict.c:262-265 | the walk has one pair per usage-list bucket, that bucket's key and value in list order, and no key appears twice in it |
| ChainedTable.ReleaseVisit | dict.c:172-176 | freeing a bucket that is off the usage list leaves the walk unchanged |
| ChainedTable.ListedKeysDistinct | dict.c:80-101 | no two buckets of the usage list hold the same key, since the insert replaces the value of a key it finds |
| ChainedTable.AddFreshShape | dict.c:89-100 | a bucket for a key the table lacks is a fresh handle; the table with it spliced into the key's chain keeps the invariant and every other slot |
| CollisionLinks.ThreadsUnique | dict.c:109-114 | the chain a lookup walks is fixed by the `collision_next` links: two chains threaded from the same head are equal |
| CollisionLinks.LinkKeepsHeadLinked | dict.c:89-95 | as written, the new bucket enters right after the head, and every overflow bucket's back link, the pushed-down one's included, names the head |
| CollisionLinks.UnhookThroughHead | dict.c:40-50 | as written, freeing the bucket at position p links the head to position p + 1, so positions 1 to p - 1 leave the chain as well |
| CollisionLinks.LinkBothWaysKeepsDoublyLinked | dict.c:89-95 | with the pushed-down bucket's back link repointed at the new bucket, every back link names the bucket's predecessor |
| CollisionLinks.UnhookUnlinks | dict.c:40-50 | with back links to predecessors, freeing position p takes out exactly that bucket, the chain `Release` leaves; a head is left alone |
| CollisionLinks.UnhookForward | dict.c:42-43 | freeing a bucket whose back link names its predecessor threads the chain without it |
| CollisionLinks.UnhookBackward | dict.c:44-46 | that free leaves every other bucket's back link on its predecessor |
| CollisionLinks.StaleBackLinkLosesBucket | dict.c:89-95 | three buckets in one slot, inserted as written: freeing the oldest overflow bucket leaves the head alone in its chain, while the other overflow bucket still names the freed one as its next |
| CollisionLinks.RepointedBackLinkKeepsBucket | dict.c:89-95 | the same inserts with the back link repointed: the free leaves the head followed by the other overflow bucket |
| CollisionLinks.FreeThroughHead | dict.c:40-50 | the free as written, on a table: the capacity and the usage list are unchanged and every chain still holds only allocated buckets |
| CollisionLinks.ThroughHeadDropsKey | dict.c:40-50 | in a well-formed chain, the chain left by the free as written holds no bucket with the key of a bucket between the head and the freed one |
| CollisionLinks.FreeThroughHeadLoses | dict.c:40-50 | as written, after freeing the bucket at chain position p, each bucket at positions 1 to p - 1 is still allocated with its key and value, still listed, and in its key's slot, yet the scan of that slot finds no bucket with its key |
| CollisionLinks.ReleaseKeepsFront | dict.c:40-50 | with the corrected free, each such bucket's key still yields its value |
| Dictionary.New | dict.c:130-138 | count 0, no retiring table, the given capacity; no key is found and the walk is empty |
| Dictionary.NeedsGrowth | dict.c:195 | the float test `count / sz > 0.75`, read over exact rationals as `4*count > 3*sz` |
| Dictionary.Grow | dict.c:194-199 | when the load test fires: a new empty active table of twice the capacity, and the old active table becomes `ht_old` whatever was there before; otherwise nothing changes |
| Dictionary.Put | dict.c:201-204 | the key yields `v` in the active table; a new bucket raises the count by one and heads the usage list; a replacement changes neither |
| Dictionary.PutView | dict.c:201-204 | after the insert step every other key yields what it yielded before |
| Dictionary.MoveFront | dict.c:163-177 | one migration turn: the retiring usage list advances past its first bucket and both tables keep the invariant |
| Dictionary.DropFirstValid | dict.c:172-176 | advancing the usage list keeps the invariant and unlists the moved bucket |
| Dictionary.MoveFrontListing | dict.c:167-170 | the active usage list grows by the new bucket exactly when the moved key was absent from the active table |
| Dictionary.MoveFrontVisit | dict.c:172-176 | after a turn the retiring walk is the previous one without its first pair |
| Dictionary.MoveFrontView | dict.c:165-170 | after a turn the moved key yields the moved value in the active table; every other key yields what it did |
| Dictionary.MoveBatch | dict.c:158-177 | a batch of n turns drops exactly the first min(n, length) buckets of the retiring list and lists at most that many new buckets |
| Dictionary.MoveBatchView | dict.c:163-177 | after a batch of n turns the active table yields, for a key among the first min(n, length) pairs of the retiring walk, that pair's value, and for every other key what it yielded before |
| Dictionary.ViewedBatch | dict.c:163-177 | the batch, by its own recursion, equals `MoveBatch` and carries what the active table yields for one key |
| Dictionary.TurnThenBatch | dict.c:163-177 | one turn followed by the rest of the batch yields the value of the moved pair, or else the value from before the batch |
| Dictionary.BatchTail | dict.c:163-176 | a batch of n turns is one turn followed by a batch of n - 1 turns over the rest of the retiring walk |
| Dictionary.Rehash | dict.c:152-185 | nothing without `ht_old`; otherwise at most 20 buckets move, `ht_old` is dropped exactly when at most 20 were waiting, and the rest keep their order |
| Dictionary.RehashView | dict.c:152-185 | after `dict_rehash` the active table yields the moved value for a key among the first 20 pairs of the retiring walk, and otherwise what it yielded before |
| Dictionary.RehashKeepsUnmoved | dict.c:163-177 | a key with no bucket on the retiring walk keeps its active value across `dict_rehash` |
| Dictionary.Add | dict.c:189-207 | the capacity doubles exactly when the load test fires; the count grows by one exactly when the table grew or the key was not in the active table; the buckets waiting in `ht_old` (the old active table after growth) lose their first 20, and `ht_old` is dropped exactly when at most 20 were waiting |
| Dictionary.GetPrefersActive | dict.c:215-216 | when the active table holds the key, `dict_get` returns its value there |
| Dictionary.AddOverwrites | dict.c:189-207 | re-adding a key the active table holds, with no growth due and no bucket for it waiting in `ht_old`, keeps the count and `dict_get` returns the new value |
| Dictionary.GrowthAddView | dict.c:195-206 | on the add whose load test fires the key is counted as new whether or not the old table held it, and `dict_get` then returns the value of the first of the old active list's first 20 pairs holding the key, or `v` when none does |
| Dictionary.GrowthReAddReverts | dict.c:195-206 | re-adding the key at the front of the active usage list on the add whose load test fires counts it again, and `dict_get` then returns the old value, not the new one |
| Dictionary.ReAddRevertsValue | dict.c:163-170 | re-adding a key whose only bucket is the last one waiting in `ht_old` counts it again, and the same add copies the old value back: `dict_get` returns the old value |
| Dictionary.Get | dict.c:209-222 | an active bucket for the key gives its value; otherwise a retiring bucket for the key gives its value; None exactly when neither table holds the key |
| Dictionary.FindsHolder | dict.c:104-116 | whichever bucket holds the key is the one the lookup returns |
| Dictionary.InteriorIndex | dict.c:236-238 | a bucket with a predecessor and a successor in the usage list sits strictly inside it |
| Dictionary.UnlistValid | dict.c:236-238 | unlinking a usage-list bucket keeps the table invariant and the bucket is no longer listed |
| Dictionary.Detach | dict.c:236-240 | with the corrected free: the usage list loses the bucket; a resident head stays in its chain and in the arena; an overflow bucket is freed and its key no longer found |
| Dictionary.DetachView | dict.c:236-240 | with the corrected free, after detaching the bucket's key yields nothing if it was an overflow bucket and its old value if it was a resident head; other keys are unchanged |
| Dictionary.UnlistVisit | dict.c:236-238 | unlinking position p of the usage list removes exactly position p from the walk |
| Dictionary.DetachVisit | dict.c:236-240 | detaching an interior bucket removes exactly its position from the table's walk |
| Dictionary.DetachMultiset | dict.c:236-240 | detaching takes exactly one copy of the bucket's pair out of the walk |
| Dictionary.Remove | dict.c:224-244 | with the corrected free: -1 exactly when `dict_get` finds nothing, and then the dictionary is unchanged; otherwise 0 and the count drops by one |
| Dictionary.RemoveView | dict.c:224-244 | with the corrected free, the table the bucket came from loses the key unless the bucket was a resident head; every other key and the other table are unchanged |
| Dictionary.RemovedHeadStillFound | dict.c:40-50 | removing a key held by a resident head of the active table returns 0, yet `dict_get` still returns the same value |
| Dictionary.RemovedHeadLeavesList | dict.c:230-243 | after such a removal `dict_get` still finds the key, but its bucket is off the usage list, so a second removal is outside `RemoveDefined` |
| Dictionary.RemoveForEach | dict.c:224-244 | a successful removal takes exactly one copy of the pair `dict_get` returned out of the pairs `dict_foreach` visits |
| Dictionary.RemoveActiveForEach | dict.c:230-242 | the same, for a key found in the active table |
| Dictionary.RemoveRetiringForEach | dict.c:230-242 | the same, for a key found only in `ht_old` |
| Dictionary.DetachActiveForEach | dict.c:236-240 | detaching an active bucket removes its pair once from the dictionary's walk |
| Dictionary.DetachRetiringForEach | dict.c:236-240 | detaching a retiring bucket removes its pair once from the dictionary's walk |
| Dictionary.SwapForEach | dict.c:253-266 | replacing one table by one whose walk lacks one copy of a pair removes that copy from the whole walk |
| Dictionary.ForEach | dict.c:247-267 | the walk visits one pair per bucket of both usage lists |
| ChainOrder.IndexOfCons | dict.c:120-128 | listing a bucket first moves every other listed bucket one place back |
| ChainOrder.IndexOfUnlink | dict.c:236-238 | unlisting position q moves each later bucket one place forward and keeps each earlier one |
| ChainOrder.ConsInOrder | dict.c:120-128 | listing a bucket that is not in a chain first keeps that chain in list order |
| ChainOrder.SpliceInOrder | dict.c:89-95 | a new bucket spliced after the head and listed first keeps its chain in list order |
| ChainOrder.PushInOrder | dict.c:201-204 | inserting a fresh bucket and listing it first keeps every chain in list order |
| ChainOrder.UnlistInOrder | dict.c:236-238 | unlisting a bucket that is not an overflow bucket of a chain keeps that chain in list order |
| ChainOrder.UnlinkInOrder | dict.c:236-240 | unlisting an overflow bucket and taking it out of its chain keeps the chain in list order |
| ChainOrder.DropInOrder | dict.c:236-240 | unlisting a bucket and freeing it keeps every chain of the table in list order |
| ChainOrder.FrontInOrder | dict.c:163-164 | in a chain in list order the front of the usage list is at position 0 or 1 if it is there at all |
| ChainOrder.NewTableOrdered | dict.c:25-38 | a new table is in list order |
| ChainOrder.InsertOrdered | dict.c:201-204 | `ht_insert` then `ht_record_used_bucket` keeps a table in list order; a replaced value keeps it without listing; a new bucket is not yet listed |
| ChainOrder.UnlistReleaseOrdered | dict.c:236-240 | unlisting any bucket and freeing it keeps a table valid and in list order |
| ChainOrder.MigrationFreesFront | dict.c:163-176 | in a valid table in list order the front bucket is at chain position 0 or 1, and there the free as written equals `Release` |
| ChainOrder.MoveFrontOrdered | dict.c:163-177 | a migration turn keeps both tables in list order |
| ChainOrder.OrderedBatch | dict.c:158-177 | a batch of turns, by its own recursion, equals `MoveBatch` and keeps both tables in list order |
| ChainOrder.NewOrdered | dict.c:130-138 | a new dictionary is in list order |
| ChainOrder.GrowOrdered | dict.c:194-199 | growth keeps the dictionary in list order |
| ChainOrder.PutOrdered | dict.c:201-204 | the insert step of `dict_add` keeps the dictionary in list order |
| ChainOrder.RehashOrdered | dict.c:152-185 | `dict_rehash` keeps the dictionary in list order |
| ChainOrder.AddOrdered | dict.c:189-207 | `dict_add` keeps the dictionary in list order, so every migration it runs frees position 0 or 1 |
| ChainOrder.RemoveOrdered | dict.c:224-244 | `dict_remove` with the corrected free keeps the dictionary in list order |
| ReadBack.Retiring | dict.c:217 | a missing `ht_old` behaves as an empty table |
| ReadBack.VisitKeysIn | dict.c:262-265 | a key on a table's walk is held by one of its buckets, and is a key of `m` when the table agrees with `m` |
| ReadBack.VisitPairIn | dict.c:262-265 | a key on the walk is held by a listed bucket |
| ReadBack.ListedOnWalk | dict.c:262-265 | the key of every listed bucket is on the walk |
| ReadBack.FoundOnWalk | dict.c:262-265 | in a table whose buckets are all listed, every key found is on the walk |
| ReadBack.AgreesMissing | dict.c:104-116 | a table holding only pairs of `m` finds nothing for a key outside `m` |
| ReadBack.FrontKeyOnce | dict.c:163-164 | the key at the front of the retiring list does not appear again behind it |
| ReadBack.ReleaseShrinks | dict.c:40-50 | freeing keeps only buckets the table had, with their contents |
| ReadBack.InsertAgrees | dict.c:72-101 | inserting a pair of `m` keeps every bucket a pair of `m` |
| ReadBack.AgreesOverwrite | dict.c:83 | storing a pair of `m` into one bucket keeps every bucket a pair of `m` |
| ReadBack.MoveFrontActive | dict.c:167-170 | a turn keeps the active table holding pairs of `m` with every bucket listed |
| ReadBack.MoveFrontRetiring | dict.c:172-176 | a turn keeps the retiring table holding pairs of `m` |
| ReadBack.MoveFrontCoversKey | dict.c:163-177 | a key found in the active table or waiting before a turn is found or waiting after it |
| ReadBack.MoveFrontCovers | dict.c:163-177 | after a turn every key of `m` is found in the active table or still waits on the retiring list |
| ReadBack.MoveFrontApart | dict.c:163-177 | after a turn no waiting key is found in the active table |
| ReadBack.MoveFrontHolds | dict.c:163-177 | a turn keeps `m` split between the two tables and keeps the total number of listed buckets |
| ReadBack.HeldBatch | dict.c:158-177 | a batch keeps the split of `m` and the total number of listed buckets |
| ReadBack.MoveBatchHolds | dict.c:158-177 | the same, stated about the batch itself |
| ReadBack.HoldsDrained | dict.c:179-184 | dropping a drained `ht_old` keeps the split of `m` |
| ReadBack.RehashHolds | dict.c:152-185 | `dict_rehash` keeps the split of `m` and the total number of listed buckets |
| ReadBack.NoBacklogAtGrowth | dict.c:194-199 | with the backlog bound, the load test can only fire when no bucket is waiting in `ht_old` |
| ReadBack.BoundStep | dict.c:194-206 | one add of a new key keeps the backlog bound: waiting buckets + 20*count stay within 20*(3*capacity/4) + 20 |
| ReadBack.GrowHolds | dict.c:194-199 | growth in an add-only run starts from a drained state and keeps the split of `m` |
| ReadBack.PutHolds | dict.c:201-204 | inserting a key outside `m` extends the split to `m[k := v]`, counts it and lists one more bucket |
| ReadBack.PutAgrees | dict.c:201-204 | after that insert both tables hold only pairs of `m[k := v]` and the active one is fully listed |
| ReadBack.PutCovers | dict.c:201-204 | after that insert each key of `m[k := v]` is found or waiting, and no waiting key is found |
| ReadBack.AddKeeps | dict.c:189-207 | `dict_add` of a key outside `m` keeps `Inv` for `m[k := v]` and counts one more key |
| ReadBack.PairsMapHas | hash.c:42-45 | with pairwise different keys each pair is in the map the pairs describe |
| ReadBack.NewInv | dict.c:130-138 | a new dictionary holds the empty map |
| ReadBack.AddAll | hash.c:49-50 | the add loop over the pairs, one `dict_add` per pair in order, starting from `dict_new(sz)`; the result keeps both tables valid |
| ReadBack.AddAllInv | hash.c:49-50 | after adding pairs with pairwise different keys the dictionary holds exactly their map and counts every pair |
| ReadBack.GetUnderInv | dict.c:209-222 | under `Inv`, `dict_get` returns exactly what `m` gives, and None outside `m` |
| ReadBack.OverwriteUnderInv | dict.c:189-207 | under `Inv`, re-adding a key the active table holds with no growth due keeps the count, and `dict_get` returns the new value |
| ReadBack.RoundTrip | hash.c:63-71 | after the add loop every key reads back its own value, every other key reads NULL, and the count is the number of pairs |
| ReadBack.ForEachUnderInv | dict.c:247-267 | under `Inv` the walk visits pairs of `m` only, each key once, every key of `m`, and as many pairs as the count |
| ReadBack.ForEachPairs | dict.c:262-265 | a walk of a table holding pairs of `m` visits pairs of `m` |
| ReadBack.WalksApart | dict.c:253-258 | the active walk and the retiring walk share no key while `m` is split between them |
| ReadBack.AddAllForEach | hash.c:49-55 | after the add loop `dict_foreach` visits exactly the added pairs, each once |

## Findings

| source | as written | input that shows it | evidently intended | confidence | as-written member | corrected member |
|---|---|---|---|---|---|---|
| dict.c:92-94 | `ht_insert` sets `b->collision_prev = head` but leaves the back link of the bucket it pushes down (`head->collision_next` before the insert) on the head. `bucket_free` (dict.c:43) then writes `collision_prev->collision_next`, that is the head's, so freeing chain position p >= 2 relinks the head to position p + 1 and drops positions 1 to p - 1 from the chain | `dict_new(64)`, then `dict_add` of the one-byte keys 0x02, 0x01, 0x41, 0x81, 0x03: 0x01, 0x41 and 0x81 share slot 38 and form the chain [0x01, 0x81, 0x41], listed behind 0x03. `dict_remove` of 0x41 returns 0, after which `dict_get` of 0x81 returns NULL while `dict_foreach` still visits it. The three-bucket chain of `StaleBackLinkLosesBucket` is the same in miniature | when the head already had a successor, `head->collision_next->collision_prev = b` before `head->collision_next = b`, so every back link names the predecessor and the free takes out only the bucket | high, not executed | CollisionLinks.UnhookThroughHead | CollisionLinks.UnhookUnlinks |

The as-written half is also stated on tables by `CollisionLinks.FreeThroughHeadLoses` and in miniature by `CollisionLinks.StaleBackLinkLosesBucket`. The corrected half is `ChainedTable.Release`, which `dict_remove` and migration use throughout the model; `CollisionLinks.ReleaseKeepsFront` and `CollisionLinks.RepointedBackLinkKeepsBucket` show it keeps the buckets the code as written loses. Migration itself is unaffected: `ChainOrder.MigrationFreesFront` shows the bucket it frees is at chain position 0 or 1, where both frees agree, in every dictionary built by `New`, `Add` and `Remove`.

## Left out

- Memory: allocation failure and the `abort`/`fprintf` path of `ht_new` (dict.c:27-35) are left out. Allocation is total. `ht_free`, `dict_free` and the `free` calls are left out because they only release memory.
- The float load test `(float)count / (float)sz > 0.75` (dict.c:195) is read over exact rationals as `4*count > 3*sz`. Rounding of large floats is not modelled.
- `count` is a C `int` (dict.h:27) but the model uses an unbounded integer, so 32-bit overflow is not modelled. The capacity is a C `int` as well (`ht_new(int sz)` at dict.c:26, `dict_new(int sz)` at dict.c:132, and the doubling `d->ht->sz * 2` at dict.c:198); its overflow is not modelled either. `NewTable` and `New` require `sz > 0`, because with a capacity of 0 the slot index `h % sz` (dict.c:78) is undefined. `h % ht->sz` uses `SlotIndex`, repeated subtraction proved equal to the remainder.
- Keys are byte sequences compared by length and content. The code stores the caller's pointer (dict.c:96) instead of a copy, so a caller that mutates a key after adding it is not modelled. NULL keys are not modelled.
- The undefined paths of `dict_remove` are excluded by `RemoveDefined`. These are:
  - removing the last bucket of a usage list, whose `next` is NULL (dict.c:238);
  - removing the first bucket of a usage list, whose `prev` is NULL in the active table and, in `ht_old` after a migration batch, still points at a moved bucket that may have been freed (dict.c:120-128, dict.c:179, dict.c:236-237);
  - a missing key while `ht_old` is NULL (dict.c:230-236).
- Dictionary.Remove: a key whose bucket is found but is not on its usage list is excluded too. This happens on a second `dict_remove` of a resident head (`RemovedHeadLeavesList`). The code then rewires the bucket's stale `prev`/`next` neighbours and decrements `count` again (dict.c:236-243). The model keeps no `prev`/`next` pointers per bucket, only the order of the usage list, so what that rewiring does depends on history it does not record.
- ChainedTable.Release: states `bucket_free` with correct back links. As written, freeing chain position p >= 2 also drops positions 1 to p - 1 from the chain (`CollisionLinks.FreeThroughHead`, see Findings). Only `dict_remove` can free such a position; migration frees position 0 or 1 (`ChainOrder.MigrationFreesFront`).
- ChainedTable.ChainValidUnlink: states the chain left by the corrected free; the code as written leaves `ThroughHead`, which loses positions 1 to p - 1 for p >= 2 (see Findings).
- ChainedTable.UnlinkKeepsValid: holds for the corrected free; as written the lost buckets stay allocated and listed but outside every chain, so `Valid` does not hold after a free at chain position 2 or later (see Findings).
- ChainedTable.ReleaseKeepsOthers: holds for the corrected free; as written the keys of chain positions 1 to p - 1 no longer yield their values (`CollisionLinks.FreeThroughHeadLoses`, see Findings).
- Dictionary.Detach: uses the corrected free; as written a detach at chain position p >= 2 also loses positions 1 to p - 1 of the chain (see Findings).
- Dictionary.DetachView: states that other keys are unchanged, which holds for the corrected free; as written the keys at chain positions 1 to p - 1 stop being found (see Findings).
- Dictionary.Remove: uses the corrected free. In the code as written, removing the bucket at chain position p >= 2 (dict.c:240, dict.c:43) through the stale `collision_prev` of dict.c:92-94 also makes positions 1 to p - 1 unreachable by `dict_get`, while `dict_foreach` still visits them and `count` still counts them (see Findings). What later happens to such a bucket, for instance a migration turn copying its stale `collision_next` into the head, is not modelled beyond `CollisionLinks.FreeThroughHead`.
- Dictionary.RemoveView: states that other keys are unchanged, which holds for the corrected free; as written the keys at chain positions 1 to p - 1 stop being found (see Findings).
- `collision_prev`/`collision_next` pointers are modelled only in `CollisionLinks`. The rest of the model keeps a chain as a sequence, which is what the links thread when every back link names the predecessor.
- `prev` pointers are not modelled. `dict_remove` updates `next->prev` (dict.c:238), but `ht_record_used_bucket` never sets `prev` on the bucket that becomes `first` (dict.c:120-128), and neither does `dict_rehash` when it advances `ht_old->first` (dict.c:179). Only the `first`/`next` order is modelled.
- A stored NULL value is not modelled. `dict_get` returns `b->v` (dict.c:216, dict.c:218), so in C a key stored with a NULL value and a missing key both read as NULL. `Get` keeps them apart as `Some(v)` and `None`.
- `dict_foreach`'s callback and `data` are replaced by the sequence of visited pairs.
- `dict_resize` is declared in dict.h but never defined. hash.c's `main`, timing and printing are not part of this model, apart from its add and read-back loops.
- Dictionary.ForEach: its contract gives only the length. The contents of the walk are stated by `ReadBack.ForEachUnderInv`, `Dictionary.RemoveForEach` and `ReadBack.AddAllForEach`.
- Dictionary.Rehash: its contract bounds how much the active usage list grows. The exact way moved buckets are prepended is not stated. What each moved key then yields is stated by `RehashView`.
- Dictionary.MoveBatch: its contract bounds how much the active usage list grows and does not say where the moved pairs go. That is stated by `MoveBatchView`: every key among the moved pairs yields its moved value in the active table. The order in which new buckets are prepended is not stated.
- Dictionary.MoveFront: its contract bounds the growth of the active usage list. The exact change is given by `MoveFrontListing`.
