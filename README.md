# LLD exercises: a verified Dafny model

This project models the core of a collection of small Java low-level-design exercises. Each core Java file is one Dafny module:

- `LRU` (Cache/LRUCache.java): a capacity-bounded least-recently-used cache. It keeps a key-to-node map and a doubly linked recency list between head and tail sentinels.
- `KeyValueStore` (Cache/KeyValueStore.java): a key/value store whose entries expire after a time to live. A ttl of 0 means the entry never expires.
- `InMemoryDB` (InMemoryDB/InMemoryDB.java): per-key lists of field/value items with timestamps and ttl liveness, plus scan and prefix-scan queries.
- `FileSystem` (FileSystem/FileSystem.java): file upload, copy, prefix search and rollback by replaying the operation history.
- `Banking` (BankingSystem/BankingService.java): accounts, transfers, scheduled payments, a balance history, merges and a spender ranking.
- `FixedWindow` and `TokenBucket` (RateLimiter/): the two per-user rate limiters.
- `SlotBooking` (Scheduler/NonOverlappingSlotBooking.java): 12-hour time validation and conversion, and conflict-free booking of half-open intervals.
- `InterviewSchedule` (Scheduler/InterviewSchedule.java): the greedy assignment of attendees to interviewers, rooms and slots.
- `VehicleRental` (VehicleRental/VehicleRentalService.java): branches of rentable vehicles with 24 hourly slots each, cheapest-first booking, and a price-ordered listing.
- `Parking` (ParkingLot/ParkingLot.java): first-fit slot allocation across floors, unparking, and per-type hourly fees.
- `Library` (LibrarySystem/LibraryService.java): issuing and returning books with a transaction ledger, search by title or author, and the books held by a user.
- `Feed` (SocialMedia/FeedService.java): follow sets, prepend-only tweet lists, and the merge of the ten newest tweets of the followed users.

Three helper modules support these:

- `JavaLang` gives Java's fixed-width `int` and `long` with wrap-around, truncating division, case folding of ASCII letters, `String.split` and `Integer.parseInt`/`toString`.
- `Ordering` covers `sort` followed by `limit` under a comparator.
- `Wrappers` provides `Option` and `Result`.

## How the model is shaped

- Objects whose fields the Java code updates in place are Dafny classes with `modifies` frames. Examples are the LRU nodes, the vehicle slot arrays, parking slots, and library books and users. Their methods are proved against specification functions on sequences and maps.
- Objects the code never shares are datatype values held in map fields. Examples are windows, buckets, accounts and items.
- Clock reads become a `now` parameter.
- Hash-map and hash-set iteration order is left open. A loop over a set is proved for every enumeration order, and a result that does not depend on the order is stated as such.

## Model

| member | source | states |
|---|---|---|
| LRU.Node.constructor | Cache/LRUCache.java:17-22 | a new node holds its key and value and is linked to nothing |
| LRU.Without | Cache/LRUCache.java:63-64 | dropping a key leaves no entry for it and no new entry; a missing key changes nothing; with unique keys the list shrinks by exactly one iff the key was there |
| LRU.Lookup | Cache/LRUCache.java:84-90 | a value is found iff the key is cached, and it is the value stored with that key |
| LRU.PutKeepsInvariant | Cache/LRUCache.java:70-79 | after `put` keys stay unique, the size stays within capacity, the new entry is the most recent and a lookup finds the new value |
| LRU.PutExistingKeepsSize | Cache/LRUCache.java:71-77 | `put` on a cached key replaces its entry by the new one at the front and keeps the size |
| LRU.PutEvictsLeastRecent | Cache/LRUCache.java:74-77 | `put` of a new key into a full cache evicts exactly the least recently used entry |
| LRU.PutThenGet | Cache/LRUCache.java:70-88 | a `get` right after `put` returns the value just put and leaves the order as `put` left it |
| LRU.GetHitMovesToFront | Cache/LRUCache.java:84-88 | `get` of a cached key returns its value and moves its entry to the front, the others keeping their order |
| LRU.GetMissUnchanged | Cache/LRUCache.java:83-90 | `get` of a missing key returns -1 and changes nothing |
| LRU.GetKeepsInvariant | Cache/LRUCache.java:83-91 | `get` keeps keys unique and the size unchanged |
| LRU.DemoRun | Cache/LRUCache.java:95-105 | the capacity-2 demo: get(1)=1, get(2)=-1 after 3 evicts 2, get(1)=-1 after 4 evicts 1, get(3)=3, get(4)=4 |
| LRU.LinkFront | Cache/LRUCache.java:56-59 | splicing a node in after the head sentinel leaves the list linked with that node first |
| LRU.Unlink | Cache/LRUCache.java:65-66 | splicing a node out leaves the list linked without it, the others in order |
| LRU.LRUCache.constructor | Cache/LRUCache.java:25-32 | a new cache is empty, the sentinels point at each other and the capacity is stored |
| LRU.LRUCache.Insert | Cache/LRUCache.java:53-61 | `insert` maps the key to the node and makes it the most recent entry, returning true |
| LRU.LRUCache.Remove | Cache/LRUCache.java:63-68 | `remove` unmaps the key and unlinks exactly that node, returning true |
| LRU.LRUCache.Unmap | Cache/LRUCache.java:71-73 | the first step of `put`: an existing entry for the key is removed |
| LRU.LRUCache.Evict | Cache/LRUCache.java:74-76 | the second step of `put`: when the cache is full the least recent entry goes, leaving room for the key |
| LRU.LRUCache.Put | Cache/LRUCache.java:70-79 | `put` changes the contents as the list model `ListPut` does, keeping map and list in step |
| LRU.LRUCache.MoveToFront | Cache/LRUCache.java:85-87 | remove-then-insert of a cached node moves its entry to the front |
| LRU.LRUCache.Get | Cache/LRUCache.java:83-91 | `get` returns the value and new contents that the list model `ListGet` gives |
| KeyValueStore.Lookup | Cache/KeyValueStore.java:48-51 | `get` finds a value iff the key is present and alive, and it is the stored value |
| KeyValueStore.Swept | Cache/KeyValueStore.java:35 | the sweep keeps exactly the entries alive at sweep time, unchanged |
| KeyValueStore.ImmortalEntry | Cache/KeyValueStore.java:17-22 | an entry put with ttl 0 is alive at every time |
| KeyValueStore.AliveWindow | Cache/KeyValueStore.java:19-22 | an entry put at `now` with a positive ttl is alive exactly while the time is at most `now + ttl` |
| KeyValueStore.OverflowingTtlIsDead | Cache/KeyValueStore.java:19-22 | a ttl so large that `now + ttl` wraps past `Long.MAX_VALUE` gives an entry already dead when put |
| KeyValueStore.DeadStaysDead | Cache/KeyValueStore.java:22 | an entry dead at some time stays dead later |
| KeyValueStore.SweepUnobservable | Cache/KeyValueStore.java:35-51 | sweeping never changes what a later `get` returns |
| KeyValueStore.PutThenGet | Cache/KeyValueStore.java:40-51 | after `put` the key reads back its value, and every other key reads as before |
| KeyValueStore.DeleteThenGet | Cache/KeyValueStore.java:53 | after `delete` the key reads as missing, whatever its TTL |
| KeyValueStore.SweepIdempotent | Cache/KeyValueStore.java:35 | sweeping twice at the same time is sweeping once |
| KeyValueStore.Store.constructor | Cache/KeyValueStore.java:29-33 | a new store is empty |
| KeyValueStore.Store.Put | Cache/KeyValueStore.java:40-42 | `put` overwrites the key's entry with the new one and leaves other keys alone |
| KeyValueStore.Store.PutSeconds | Cache/KeyValueStore.java:44-46 | `putSeconds` is `put` with the ttl times 1000 in `long` arithmetic |
| KeyValueStore.Store.Get | Cache/KeyValueStore.java:48-51 | `get` returns what `Lookup` gives and changes nothing |
| KeyValueStore.Store.Delete | Cache/KeyValueStore.java:53 | `delete` removes the key, a no-op when it is absent |
| KeyValueStore.Store.Size | Cache/KeyValueStore.java:55 | `size` counts every stored key, expired but unswept ones included |
| KeyValueStore.Store.Sweep | Cache/KeyValueStore.java:35 | the sweep leaves the map `Swept` gives |
| KeyValueStore.Demo | Cache/KeyValueStore.java:62-70 | the demo: token is "XYZ" at 0 and gone at 2.5 s, name is "Alice" and gone after delete |
| InMemoryDB.FindFrom | InMemoryDB/InMemoryDB.java:64-68 | the first index at or after `from` whose item matches, and no earlier one matches; none only when no item from there on matches |
| InMemoryDB.Remove | InMemoryDB/InMemoryDB.java:79 | `removeIf`: no matching item is left, every non-matching item stays, nothing new appears, and the length changes iff some item matched |
| InMemoryDB.RemoveSingle | InMemoryDB/InMemoryDB.java:79 | `removeIf` keeps a single item exactly when it does not match |
| InMemoryDB.RemoveAppend | InMemoryDB/InMemoryDB.java:79 | `removeIf` is an in-order filter: the survivors of two lists joined are the survivors of each, in turn, so order and repeats are kept |
| InMemoryDB.FindFromShift | InMemoryDB/InMemoryDB.java:118-122 | searching a suffix finds nothing iff searching from its start index finds nothing |
| InMemoryDB.SetItemImmortal | InMemoryDB/InMemoryDB.java:25-28 | an item made by `set` (timestamp and ttl 0) is alive at every time |
| InMemoryDB.IsAliveWindow | InMemoryDB/InMemoryDB.java:39-42 | when `timestamp + ttl` fits in an `int`, an item is alive iff its ttl is 0 or the time is at most `timestamp + ttl` |
| InMemoryDB.DeleteAtThenGetAt | InMemoryDB/InMemoryDB.java:113-137 | after `deleteAt` of a field at a time, `getAt` of that field at that time finds nothing |
| InMemoryDB.RemoveIdempotent | InMemoryDB/InMemoryDB.java:79 | removing the matches twice is removing them once |
| InMemoryDB.Database.constructor | InMemoryDB/InMemoryDB.java:45 | a new database has no keys |
| InMemoryDB.Database.Search | InMemoryDB/InMemoryDB.java:64-68 | the lookup loop returns the first matching index, as `FindFirst` specifies |
| InMemoryDB.Database.Set | InMemoryDB/InMemoryDB.java:49-56 | `set` appends exactly one immortal item to the key's list (creating the list), even when the field exists |
| InMemoryDB.Database.Get | InMemoryDB/InMemoryDB.java:58-72 | `get` returns the value of the first item whose field equals the argument exactly, or null |
| InMemoryDB.Database.Delete | InMemoryDB/InMemoryDB.java:75-83 | `delete` removes exactly the items with that field from an existing key's list and keeps the others in order (`Remove`, an in-order filter by `RemoveAppend`) |
| InMemoryDB.Database.SetAt | InMemoryDB/InMemoryDB.java:87-89 | `setAt` is `setWithTTL` with ttl 0 |
| InMemoryDB.Database.Rewritten | InMemoryDB/InMemoryDB.java:96-104 | the list after `setWithTTL`: one longer, the new item last, items with the field overwritten with the new value, time and ttl, the others unchanged |
| InMemoryDB.Database.SetWithTtl | InMemoryDB/InMemoryDB.java:93-108 | the in-place loop leaves exactly the list `Rewritten` describes |
| InMemoryDB.SetWithTtlThenGet | InMemoryDB/InMemoryDB.java:96-104 | after `setWithTTL` a `get` of the field returns the new value |
| InMemoryDB.Database.GetAt | InMemoryDB/InMemoryDB.java:113-128 | `getAt` returns the value of the first item whose field matches ignoring case and is alive at the time, or null |
| InMemoryDB.Database.DeleteAt | InMemoryDB/InMemoryDB.java:132-141 | `deleteAt` is false for an unknown key; otherwise it removes exactly the live case-insensitive matches and returns true iff one existed; the other items keep their order (`RemoveAppend`) |
| InMemoryDB.Database.ScanAt | InMemoryDB/InMemoryDB.java:147-163 | `scanAt` returns `field(value)` of the first item alive at the time as a one-element list, or null |
| InMemoryDB.Database.ScanByPrefixAt | InMemoryDB/InMemoryDB.java:171-187 | as `scanAt`, restricted to fields that start with the prefix |
| InMemoryDB.Demo | InMemoryDB/InMemoryDB.java:192-202 | the demo: name is "Alice", session is "xyz" at 108 and null at 120, both scans give `[name(Alice)]` |
| FileSystem.SizeAt | FileSystem/FileSystem.java:64-68 | `FILE_GET_AT` gives a size iff the file exists and is alive at the time, and it is the stored size |
| FileSystem.ReplayNamesMatch | FileSystem/FileSystem.java:96-103 | the replayed map stores every file under its own name |
| FileSystem.ReplayLastWins | FileSystem/FileSystem.java:96-103 | a name holds exactly the snapshot of the last record for it stamped at or before the rollback time, whatever records for other names follow |
| FileSystem.ReplayAbsent | FileSystem/FileSystem.java:96-103 | a name is missing after the replay iff no record for it is stamped at or before the rollback time |
| FileSystem.ReplaySkipsLater | FileSystem/FileSystem.java:97 | records stamped after the rollback time have no effect on the replay |
| FileSystem.NoTtlAlive | FileSystem/FileSystem.java:26-28 | a file without a ttl is alive at every time |
| FileSystem.TtlWindow | FileSystem/FileSystem.java:26-28 | a file with a ttl is alive exactly while the time is strictly before timestamp plus ttl |
| FileSystem.BeforeStrictTotal | FileSystem/FileSystem.java:85-88 | the search comparator (size descending, then name ascending) is a strict total order on the matching files |
| Ordering.FirstK | FileSystem/FileSystem.java:85-89 | sorting and keeping the first k: the result is the k least elements in order, as `IsFirstK` states |
| Ordering.FirstKUnique | FileSystem/FileSystem.java:85-89 | under a strict total order there is only one such first-k list |
| FileSystem.FileHost.constructor | FileSystem/FileSystem.java:48-50 | a new host has no files, no history and size 0 |
| FileSystem.FileHost.UploadAt | FileSystem/FileSystem.java:53-62 | an existing name is refused and nothing changes; otherwise the file is stored without ttl and one UPLOAD record is appended |
| FileSystem.FileHost.GetAt | FileSystem/FileSystem.java:64-68 | `FILE_GET_AT` returns what `SizeAt` gives |
| FileSystem.FileHost.CopyAt | FileSystem/FileSystem.java:70-80 | a missing or dead source is refused and nothing changes; otherwise the destination gets the source's size, the copy time and no ttl, and one COPY record is appended |
| FileSystem.FileHost.SearchAt | FileSystem/FileSystem.java:82-91 | the result is the first ten files with the prefix by size descending then name ascending |
| FileSystem.FileHost.Rollback | FileSystem/FileSystem.java:93-104 | the map becomes the in-order replay of the records up to the time, the size their `int` sum, and the history stays whole, so rolling back twice is rolling back once |
| FileSystem.UploadThenGet | FileSystem/FileSystem.java:58-66 | an uploaded file reads back its size at any time |
| FileSystem.CopyThenGet | FileSystem/FileSystem.java:76-77 | a copy reads back the source's size, and the source is untouched |
| FileSystem.DemoReplay | FileSystem/FileSystem.java:108-124 | replaying the demo history to time 3 keeps exactly the first three files, file-3.zip with its snapshot |
| FileSystem.Demo | FileSystem/FileSystem.java:106-125 | the demo: file-1.zip has size 1420 at 4; after rollback to 3 file-3.zip has size 5040 and the copy is gone |
| Banking.DebitDue | BankingSystem/BankingService.java:171-181 | settling the due payments keeps every account, its id and its outgoing total |
| Banking.Pending | BankingSystem/BankingService.java:172-183 | the queue after settling holds exactly the payments not yet due |
| Banking.PendingSingle | BankingSystem/BankingService.java:174-181 | a single payment is kept exactly when it is not yet due |
| Banking.PendingAppend | BankingSystem/BankingService.java:172-183 | settling is an in-order filter: the payments kept from two queues joined are those kept from each, in turn, so order and repeats are kept |
| Banking.DebitDueSettled | BankingSystem/BankingService.java:173-177 | each account after settling is that account with its own due payments debited |
| Banking.SettledBalance | BankingSystem/BankingService.java:174-177 | settling debits an account by the sum of its due payments, in `int` arithmetic, with no balance check |
| Banking.PendingSettled | BankingSystem/BankingService.java:172-183 | settling twice at the same time leaves the queue as settling once |
| Banking.FloorUnique | BankingSystem/BankingService.java:163 | the greatest log time at or before a time is unique |
| Banking.Repointed | BankingSystem/BankingService.java:216-220 | re-pointing keeps every payment and its id, amount and due time, moving exactly those of the merged account to the surviving one |
| Banking.RenderAll | BankingSystem/BankingService.java:130-134 | one `id(outgoing)` string per summary |
| Banking.SummaryIdsDistinct | BankingSystem/BankingService.java:108-111 | different summaries belong to different accounts |
| Banking.SpendsLessStrictTotal | BankingSystem/BankingService.java:113-117 | the ranking order as written (outgoing ascending, then id) is a strict total order on the summaries |
| Banking.SpendsMoreStrictTotal | BankingSystem/BankingService.java:113-117 | the intended ranking order (outgoing descending, then id) is a strict total order on the summaries |
| Banking.AscendingRankingOmitsTopSpender | BankingSystem/BankingService.java:113-117 | as written, the top-1 of an account that spent 50 and one that spent 0 is the one that spent 0 |
| Banking.TopSpendersSpendMost | BankingSystem/BankingService.java:104-135 | under the intended order every listed account spent at least as much as every account left out, in non-increasing order |
| Banking.BankingService.constructor | BankingSystem/BankingService.java:47-49 | a new service has no accounts, no payments and counter 0 |
| Banking.BankingService.ProcessPayments | BankingSystem/BankingService.java:171-184 | every due payment is debited from its account and only the not-yet-due ones stay, in their order (`Pending`, an in-order filter by `PendingAppend`) |
| Banking.BankingService.CreateAccount | BankingSystem/BankingService.java:52-62 | after settling, an existing id is refused; otherwise a zero-balance account stamped with the time is added |
| Banking.BankingService.Deposit | BankingSystem/BankingService.java:64-79 | after settling, an unknown account gives null; otherwise the balance grows by the amount, is logged at the time and returned |
| Banking.BankingService.Transfer | BankingSystem/BankingService.java:81-102 | after settling, a missing account, the same account or too small a balance give null and change nothing; otherwise the amount moves, the source's outgoing grows, both balances are logged and the source's returned |
| Banking.BankingService.TopSpenders | BankingSystem/BankingService.java:104-139 | after settling, the result is the first `n` summaries under the intended order, rendered `id(outgoing)` |
| Banking.BankingService.SchedulePayment | BankingSystem/BankingService.java:143-156 | after settling, an unknown account gives null; otherwise the counter is incremented and a payment "Payment <counter>" due at time plus delay is queued and its id returned |
| Banking.BankingService.GetBalance | BankingSystem/BankingService.java:158-169 | after settling, the balance logged at the greatest log time at or before `timeAt`; an error when the account or such a time is missing |
| Banking.BankingService.FloorKey | BankingSystem/BankingService.java:163 | `floorKey`: the greatest key at or before the time, none iff every key is later |
| Banking.BankingService.CancelPayment | BankingSystem/BankingService.java:186-203 | after settling, true and exactly that payment removed iff the first payment with the id exists and belongs to the account |
| Banking.BankingService.FindById | BankingSystem/BankingService.java:190-198 | the iterator loop finds the first payment with the id |
| Banking.BankingService.MergeAccounts | BankingSystem/BankingService.java:205-226 | after settling, the same or a missing account gives false; otherwise balances and outgoing are summed into the first, logged, the second's payments re-pointed and the second removed |
| Banking.RepointAll | BankingSystem/BankingService.java:216-220 | the re-pointing loop gives what `Repointed` describes |
| Banking.SettledConsistent | BankingSystem/BankingService.java:171-184 | settling keeps every queued payment drawing on an existing account |
| Banking.ConsistentRemoveAt | BankingSystem/BankingService.java:195 | removing one payment keeps the queue consistent |
| Banking.FirstWithIdFrom | BankingSystem/BankingService.java:191-198 | the first index from `from` with the id, none only when no later payment has it |
| Banking.Transferred | BankingSystem/BankingService.java:91-98 | a transfer that passes its checks keeps the same set of accounts |
| Banking.TransferConserves | BankingSystem/BankingService.java:91-98 | a transfer between two accounts without overflow keeps the sum of their balances, takes exactly the amount from the source and changes no other account |
| Banking.TransferConservesModulo | BankingSystem/BankingService.java:91-95 | with overflow the sum is kept modulo 2^32 |
| Banking.RepointedLeavesNone | BankingSystem/BankingService.java:216-221 | after a merge no payment draws on the removed account |
| FixedWindow.Decide | RateLimiter/FixedWindowRateLimiter.java:40-53 | a request is allowed iff the user has no window, the window has expired or its count is below the limit; a denied request leaves the window as it was; an allowed one starts a fresh count of 1 or adds one |
| FixedWindow.DecideKeepsBounded | RateLimiter/FixedWindowRateLimiter.java:43-48 | a window's count stays between 1 and the limit (when the limit is at least 1) |
| FixedWindow.Burst | RateLimiter/FixedWindowRateLimiter.java:66-68 | one answer per request of a burst |
| FixedWindow.BurstInWindow | RateLimiter/FixedWindowRateLimiter.java:47-51 | inside a window holding `c` requests, the i-th further request is allowed iff `c + i` is below the limit |
| FixedWindow.FreshBurst | RateLimiter/FixedWindowRateLimiter.java:41-51 | a new user's burst at one instant is allowed for its first request and then while under the limit |
| FixedWindow.FixedWindowRateLimiter.constructor | RateLimiter/FixedWindowRateLimiter.java:16-19 | the limit is stored and the window size is the seconds times 1000 |
| FixedWindow.FixedWindowRateLimiter.Allow | RateLimiter/FixedWindowRateLimiter.java:35-58 | `allow` answers as `Decide` and changes only that user's window |
| FixedWindow.AllowAtEpoch | RateLimiter/FixedWindowRateLimiter.java:37 | as written, every request is decided at time 0 |
| FixedWindow.EpochDemo | RateLimiter/FixedWindowRateLimiter.java:61-79 | as written, the demo allows three, blocks the fourth, and still blocks all three after the wait |
| FixedWindow.Demo | RateLimiter/FixedWindowRateLimiter.java:61-79 | with a real clock the demo allows three, blocks the fourth, and allows three again after six seconds |
| TokenBucket.TokensToAdd | RateLimiter/TokenBucketLimiter.java:56-57 | whole elapsed seconds times the rate is a `long` |
| TokenBucket.Refill | RateLimiter/TokenBucketLimiter.java:55-64 | nothing changes unless tokens are to be added; then the refill time becomes now and the tokens grow, capped at capacity |
| TokenBucket.RefillByElapsed | RateLimiter/TokenBucketLimiter.java:55-64 | without `long` overflow, refill sets the tokens to min(capacity, tokens + whole elapsed seconds × rate) and the refill time to now when that adds tokens, and otherwise changes nothing |
| TokenBucket.Decide | RateLimiter/TokenBucketLimiter.java:35-53 | after creating a full bucket if needed and refilling, a request is allowed iff at least one token is left, and then it takes exactly one |
| TokenBucket.DecideKeepsInRange | RateLimiter/TokenBucketLimiter.java:44-61 | tokens stay within 0 and the capacity |
| TokenBucket.RefillNeverDrains | RateLimiter/TokenBucketLimiter.java:59-61 | refilling never lowers the tokens of a bucket within capacity |
| TokenBucket.Burst | RateLimiter/TokenBucketLimiter.java:73-75 | one answer per request of a burst |
| TokenBucket.BurstDrains | RateLimiter/TokenBucketLimiter.java:44-49 | with no elapsed time, a burst is allowed exactly for as many requests as there were tokens |
| TokenBucket.DecideSameInstant | RateLimiter/TokenBucketLimiter.java:43-49 | with no elapsed time, a request takes a token iff there is one, and a denied request leaves the tokens as they were |
| TokenBucket.DecideFresh | RateLimiter/TokenBucketLimiter.java:35-49 | a new user's first request meets a full bucket |
| TokenBucket.FreshBurst | RateLimiter/TokenBucketLimiter.java:35-49 | a new user's burst at one instant is allowed for exactly `capacity` requests |
| TokenBucket.TokenBucketLimiter.constructor | RateLimiter/TokenBucketLimiter.java:18-21 | capacity and rate are stored, no buckets yet |
| TokenBucket.TokenBucketLimiter.Allow | RateLimiter/TokenBucketLimiter.java:32-53 | `allow` answers as `Decide` and changes only that user's bucket |
| TokenBucket.AllowAtEpoch | RateLimiter/TokenBucketLimiter.java:34 | as written, every request is decided at time 0 |
| TokenBucket.EpochDemo | RateLimiter/TokenBucketLimiter.java:68-83 | as written, the demo allows five of six and then blocks all four after the wait |
| TokenBucket.WaitRefills | RateLimiter/TokenBucketLimiter.java:55-62 | an empty bucket of capacity 5 and rate 2 holds 4 tokens after 2.5 s, so a request is allowed |
| TokenBucket.Demo | RateLimiter/TokenBucketLimiter.java:68-83 | with a real clock the demo allows five of six and all four after 2.5 s |
| SlotBooking.TimeValid | Scheduler/NonOverlappingSlotBooking.java:14-26 | a time passes the checks only if its hour parses to a number from 1 to 12 |
| SlotBooking.Validate | Scheduler/NonOverlappingSlotBooking.java:6-45 | `validate` returns false exactly when the start time does not split into two parts at `:`; when it returns true the end time splits into two |
| SlotBooking.OverlapsSymmetric | Scheduler/NonOverlappingSlotBooking.java:68 | the conflict test is symmetric in the two intervals |
| SlotBooking.SlotHours | Scheduler/NonOverlappingSlotBooking.java:62-63 | a slot has hours iff both its times convert, and they are the converted times |
| SlotBooking.Scan | Scheduler/NonOverlappingSlotBooking.java:64-71 | the conflict loop passes iff every booked slot converts and is clear of the new interval; a failure names a booked slot's conversion error or a conflict with a booked slot |
| SlotBooking.BookValidated | Scheduler/NonOverlappingSlotBooking.java:62-72 | after validation, booking succeeds iff the new slot converts and clears every booked slot, and then appends it at the end |
| SlotBooking.BookAsWritten | Scheduler/NonOverlappingSlotBooking.java:59-73 | as written: a validation exception ends `bookTime`, but a `false` from `validate` is ignored and the slot is booked anyway |
| SlotBooking.Book | Scheduler/NonOverlappingSlotBooking.java:59-73 | corrected: a slot is booked only if `validate` returns true, and it is then appended with the rest unchanged |
| SlotBooking.ScanKeepsDisjoint | Scheduler/NonOverlappingSlotBooking.java:64-72 | appending a slot that passed the conflict loop keeps the bookings pairwise non-overlapping |
| SlotBooking.BookKeepsDisjoint | Scheduler/NonOverlappingSlotBooking.java:59-73 | a successful booking keeps the bookings pairwise non-overlapping |
| SlotBooking.ScanConflict | Scheduler/NonOverlappingSlotBooking.java:64-70 | an overlapping booked slot after clear ones makes the loop throw a conflict |
| SlotBooking.BookTwiceConflicts | Scheduler/NonOverlappingSlotBooking.java:181-184 | booking the same non-empty slot twice raises a conflict |
| SlotBooking.NumberHasNoDelim | Scheduler/NonOverlappingSlotBooking.java:75-77 | a rendered hour has no colon and no whitespace in it |
| SlotBooking.ClockTimeParts | Scheduler/NonOverlappingSlotBooking.java:75-77 | a time "h:00 M" splits into the hour and "00 M", and that into "00" and the meridian |
| SlotBooking.ConvertClockTime | Scheduler/NonOverlappingSlotBooking.java:99-104 | "12:00 AM" is 0, "h:00 AM" is h, "12:00 PM" is 12 and "h:00 PM" is h+12; any meridian other than AM in any case counts as PM |
| SlotBooking.Hour24Bijective | Scheduler/NonOverlappingSlotBooking.java:112-117 | valid times map to hours 0..23 and different valid times to different hours |
| SlotBooking.ValidateClockTimes | Scheduler/NonOverlappingSlotBooking.java:14-44 | a slot of two "h:00 M" times passes iff both hours are 1..12 and both meridians are exactly AM or PM; otherwise it throws |
| SlotBooking.MinutesHaveNoColon | Scheduler/NonOverlappingSlotBooking.java:75 | the minutes part adds no colon |
| SlotBooking.ExtraColonStart | Scheduler/NonOverlappingSlotBooking.java:10-12 | a start time with an extra colon makes `validate` return false, yet converts to its hour; as written it is booked like a valid slot, corrected it is refused |
| SlotBooking.WalkthroughText | Scheduler/NonOverlappingSlotBooking.java:175-188 | the walkthrough's two slots are "10:00 AM"-"11:00 AM" and "13:00 AM"-"14:00 AM" |
| SlotBooking.WalkthroughTimes | Scheduler/NonOverlappingSlotBooking.java:113 | 10 AM is hour 10 and 11 AM is hour 11 |
| SlotBooking.WalkthroughBookings | Scheduler/NonOverlappingSlotBooking.java:174-188 | the walkthrough: the first slot is booked, booking it again conflicts, and the 13 AM slot is invalid |
| SlotBooking.MalformedStartIsBooked | Scheduler/NonOverlappingSlotBooking.java:10-12 | "10:00 AM:x" to "11:00 AM" is booked as written although `validate` returns false |
| SlotBooking.ScanBookings | Scheduler/NonOverlappingSlotBooking.java:64-71 | the loop returns what `Scan` describes |
| SlotBooking.SlotBookingManager.constructor | Scheduler/NonOverlappingSlotBooking.java:53-57 | the manager stores its booking type and list |
| SlotBooking.SlotBookingManager.BookTime | Scheduler/NonOverlappingSlotBooking.java:59-73 | `bookTime` succeeds and appends exactly when `Book` does, and otherwise throws its error and leaves the list unchanged |
| SlotBooking.SlotBookingManager.Bookings | Scheduler/NonOverlappingSlotBooking.java:107-109 | `bookings` returns the list |
| SlotBooking.Demo | Scheduler/NonOverlappingSlotBooking.java:174-188 | the walkthrough on a manager: booked, then a conflict with the first slot, then invalid |
| InterviewSchedule.NoneMatch | Scheduler/InterviewSchedule.java:81-82 | no recorded slot has the same start and end iff the slot is not among them |
| InterviewSchedule.IsAvailable | Scheduler/InterviewSchedule.java:80-83 | `isAvailable` holds iff the slot is not recorded for the key |
| InterviewSchedule.RecordKeeps | Scheduler/InterviewSchedule.java:54-55 | recording adds the slot at the end of that key's list and changes no other key |
| InterviewSchedule.FirstFreeUnique | Scheduler/InterviewSchedule.java:49-52 | there is only one first free combination |
| InterviewSchedule.FirstRoom | Scheduler/InterviewSchedule.java:51-52 | the first room from `from` free with the interviewer at the slot; none only when no later room is |
| InterviewSchedule.FirstInterviewer | Scheduler/InterviewSchedule.java:50-61 | the first interviewer from `from` with a free room at the slot, and that room; none only when no later interviewer has one |
| InterviewSchedule.FirstSlot | Scheduler/InterviewSchedule.java:49-63 | the first slot from `from` with a free interviewer and room, and that pair; none only when no later slot has one |
| InterviewSchedule.FirstFree | Scheduler/InterviewSchedule.java:49-64 | the search yields only free combinations |
| InterviewSchedule.FirstFreeIsFirst | Scheduler/InterviewSchedule.java:49-64 | the search finds the earliest free combination by slot, then interviewer, then room, and finds none iff no combination is free |
| InterviewSchedule.Step | Scheduler/InterviewSchedule.java:47-65 | one attendee either leaves the plan unchanged or adds one interview for them at the end and removes them from the unscheduled |
| InterviewSchedule.StepTakesFirstFree | Scheduler/InterviewSchedule.java:52-57 | with no free combination nothing changes; otherwise the first free one is booked for the attendee, interviewer and room alike |
| InterviewSchedule.StepKeepsNoDoubleBooking | Scheduler/InterviewSchedule.java:52-55 | a step never books an interviewer or a room twice in one slot |
| InterviewSchedule.GreedyKeepsNoDoubleBooking | Scheduler/InterviewSchedule.java:47-65 | the whole loop keeps that |
| InterviewSchedule.ScheduleHasNoDoubleBooking | Scheduler/InterviewSchedule.java:42-65 | the schedule the loop builds has no interviewer or room twice in one slot |
| InterviewSchedule.StepSchedulesOnce | Scheduler/InterviewSchedule.java:53 | a step adds at most one interview, for a new attendee |
| InterviewSchedule.GreedySchedulesOnce | Scheduler/InterviewSchedule.java:47-65 | the loop schedules each attendee at most once, only from the list |
| InterviewSchedule.EachScheduledOnce | Scheduler/InterviewSchedule.java:42-65 | with distinct attendees each is scheduled at most once |
| InterviewSchedule.GreedyTracksUnscheduled | Scheduler/InterviewSchedule.java:43-56 | the loop keeps the unscheduled set equal to the attendees without an interview |
| InterviewSchedule.UnscheduledAreThoseWithoutInterview | Scheduler/InterviewSchedule.java:43-56 | an attendee stays unscheduled iff they are in the list and got no interview |
| InterviewSchedule.FindFree | Scheduler/InterviewSchedule.java:49-64 | the three nested loops with their break flags find what `FirstFree` gives |
| InterviewSchedule.ScheduleInterviews | Scheduler/InterviewSchedule.java:42-65 | the attendee loop builds exactly the plan `Greedy` describes |
| InterviewSchedule.MainStep1 | Scheduler/InterviewSchedule.java:38-57 | the demo's first attendee gets A, R1 at 9-11 |
| InterviewSchedule.MainStep2 | Scheduler/InterviewSchedule.java:38-57 | the second gets B, R2 at 9-11 |
| InterviewSchedule.MainStep3 | Scheduler/InterviewSchedule.java:38-57 | the third gets A, R1 at 11-13 |
| InterviewSchedule.MainStep4 | Scheduler/InterviewSchedule.java:38-57 | the fourth gets B, R2 at 11-13 |
| InterviewSchedule.MainStep5 | Scheduler/InterviewSchedule.java:38-57 | the fifth gets A, R1 at 15-17 |
| InterviewSchedule.MainRest | Scheduler/InterviewSchedule.java:47-65 | from any point of the demo the loop ends in the final plan |
| InterviewSchedule.MainSchedule | Scheduler/InterviewSchedule.java:37-65 | the demo schedules all five attendees: A/R1 and B/R2 at 9-11 and 11-13, A/R1 at 15-17, nobody left out |
| InterviewSchedule.MainPlanFinal | Scheduler/InterviewSchedule.java:42-65 | the demo's final plan holds those five interviews and no unscheduled attendee |
| VehicleRental.ValueOf | VehicleRental/VehicleRentalService.java:4-6 | `VehicleType.valueOf` yields the constant with exactly that name, and fails iff no constant has it |
| VehicleRental.Booked | VehicleRental/VehicleRentalService.java:22-24 | booking marks every hour in [start, end) taken and leaves every other hour as it was |
| VehicleRental.BookThenUnavailable | VehicleRental/VehicleRentalService.java:18-24 | after booking a non-empty interval the vehicle is no longer available for it |
| VehicleRental.BookKeepsDisjoint | VehicleRental/VehicleRentalService.java:18-24 | booking does not change availability for a disjoint interval |
| VehicleRental.BookIdempotent | VehicleRental/VehicleRentalService.java:22-24 | booking the same interval twice is the same as booking it once |
| VehicleRental.Vehicle.constructor | VehicleRental/VehicleRentalService.java:8-17 | a new vehicle has its id, type and price and 24 free hours |
| VehicleRental.Vehicle.IsAvailable | VehicleRental/VehicleRentalService.java:18-21 | the loop answers true iff no hour in [start, end) is taken |
| VehicleRental.Vehicle.Book | VehicleRental/VehicleRentalService.java:22-24 | the loop's new slot array is exactly `Booked` of the old one |
| VehicleRental.AvailableMembers | VehicleRental/VehicleRentalService.java:40-47 | the available list holds exactly the vehicles of the list that are free in the interval |
| VehicleRental.InsertLast | VehicleRental/VehicleRentalService.java:99 | inserting into the sorted prefix keeps the same elements plus the new one |
| VehicleRental.SortByPrice | VehicleRental/VehicleRentalService.java:99 | sorting by price is a permutation of its input |
| VehicleRental.InsertLastBounded | VehicleRental/VehicleRentalService.java:99 | insertion keeps an upper bound on the prices |
| VehicleRental.InsertLastSorted | VehicleRental/VehicleRentalService.java:99 | insertion keeps the list sorted by price |
| VehicleRental.InsertLastHead | VehicleRental/VehicleRentalService.java:99 | the new element becomes the head only when strictly cheaper, so the sort is stable |
| VehicleRental.SortByPriceSorted | VehicleRental/VehicleRentalService.java:99 | the result of the sort is ordered by price |
| VehicleRental.Cheapest | VehicleRental/VehicleRentalService.java:99-100 | the first cheapest element: a member priced at most every other |
| VehicleRental.SortHeadIsCheapest | VehicleRental/VehicleRentalService.java:99-100 | the head of the stably sorted list is the first cheapest element |
| VehicleRental.ExtendFirstCheapest | VehicleRental/VehicleRentalService.java:97-100 | the first cheapest free vehicle of a list extended by one is the old one unless the new vehicle is free and strictly cheaper |
| VehicleRental.CheapestSnoc | VehicleRental/VehicleRentalService.java:99-100 | appending an element changes the first cheapest only when it is strictly cheaper |
| VehicleRental.OnlyLastFree | VehicleRental/VehicleRentalService.java:97-100 | when only the last vehicle is free it is the one chosen |
| VehicleRental.CheapestAvailable | VehicleRental/VehicleRentalService.java:97-100 | the vehicle `bookVehicle` picks is the earliest free vehicle of the lowest price among the free ones |
| VehicleRental.AddToBranch | VehicleRental/VehicleRentalService.java:34-39 | adding fails iff the type is not supported; otherwise the vehicle is appended to its type's list and nothing else changes |
| VehicleRental.AddKeepsWellFormed | VehicleRental/VehicleRentalService.java:34-39 | adding a supported vehicle keeps every list holding vehicles of its own type with 24 hours |
| VehicleRental.ListSlots | VehicleRental/VehicleRentalService.java:29 | the slot arrays of one type's list belong to the branch |
| VehicleRental.AvailableStep | VehicleRental/VehicleRentalService.java:43-45 | one loop iteration appends the vehicle iff it is free |
| VehicleRental.GetAvailableVehicles | VehicleRental/VehicleRentalService.java:40-47 | the loop returns exactly the free vehicles of that type, in list order, empty for a type without a list |
| VehicleRental.GatherAvailable | VehicleRental/VehicleRentalService.java:107-110 | the loop over the supported types gathers the free vehicles of each type, in some enumeration order of the set |
| VehicleRental.GatheredMembers | VehicleRental/VehicleRentalService.java:107-110 | a vehicle is gathered iff its type is enumerated, it is in its type's list and it is free |
| VehicleRental.ChosenInBranch | VehicleRental/VehicleRentalService.java:97-101 | the chosen vehicle belongs to the branch list of that type, so booking it changes only branch state |
| VehicleRental.BookCheapest | VehicleRental/VehicleRentalService.java:97-102 | with nothing free nothing changes and -1 is returned; otherwise the cheapest free vehicle is booked, no other vehicle changes, and price times hours is returned with 32-bit wrap-around |
| VehicleRental.Ids | VehicleRental/VehicleRentalService.java:112-113 | the id list has one id per vehicle in order |
| VehicleRental.CollectIds | VehicleRental/VehicleRentalService.java:112-113 | the loop collects exactly those ids |
| VehicleRental.Choice | VehicleRental/VehicleRentalService.java:88-100 | a chosen vehicle comes from the named branch |
| VehicleRental.ChoiceIsFirstCheapest | VehicleRental/VehicleRentalService.java:88-100 | nothing is chosen iff the branch is unknown, the type name is invalid or no vehicle of the type is free; otherwise the chosen one is of that type and the first cheapest free one |
| VehicleRental.ParseTypesNames | VehicleRental/VehicleRentalService.java:67-72 | parsing succeeds iff every name is a constant name, and then yields exactly the named types |
| VehicleRental.ParseTypesStaysNone | VehicleRental/VehicleRentalService.java:68-71 | once one name fails the whole parse fails |
| VehicleRental.VehicleRentalService.constructor | VehicleRental/VehicleRentalService.java:63-64 | the service starts with no branches |
| VehicleRental.VehicleRentalService.AddBranch | VehicleRental/VehicleRentalService.java:65-75 | succeeds iff the name is new and every type name parses; then adds the branch with those types and no vehicles, otherwise changes nothing |
| VehicleRental.VehicleRentalService.AddVehicle | VehicleRental/VehicleRentalService.java:76-87 | succeeds iff the branch exists and the type name parses to a supported type; then appends a fresh free vehicle to that list, otherwise changes nothing |
| VehicleRental.VehicleRentalService.BookVehicle | VehicleRental/VehicleRentalService.java:88-103 | returns -1 and changes nothing when nothing is chosen; otherwise books the chosen vehicle only and returns its price times the hours |
| VehicleRental.VehicleRentalService.DisplayVehicles | VehicleRental/VehicleRentalService.java:104-115 | empty for an unknown branch; otherwise the ids of the free vehicles of all supported types, stably sorted by price |
| Parking.ParkedIn | ParkingLot/ParkingLot.java:77-80 | parking leaves the slot occupied and holding the vehicle, its number and type unchanged |
| Parking.Emptied | ParkingLot/ParkingLot.java:81-84 | unparking leaves the slot free and empty, its number and type unchanged |
| Parking.ParkThenUnpark | ParkingLot/ParkingLot.java:77-84 | parking into a free slot and unparking restores the slot exactly |
| Parking.ParkingSlot.constructor | ParkingLot/ParkingLot.java:72-75 | a new slot has its number and type, and is free and empty |
| Parking.ParkingSlot.Park | ParkingLot/ParkingLot.java:77-80 | the slot's new state is `ParkedIn` of the old one |
| Parking.ParkingSlot.Unpark | ParkingLot/ParkingLot.java:81-84 | the slot's new state is `Emptied` of the old one |
| Parking.ParkingFloor.constructor | ParkingLot/ParkingLot.java:91-95 | a new floor has its number and no slots |
| Parking.ParkingFloor.AddSlot | ParkingLot/ParkingLot.java:97-99 | the slot is appended to the floor |
| Parking.ScanFromFinds | ParkingLot/ParkingLot.java:130-138 | the scan from a position finds the first matching slot in floor-then-slot order, or reports that none matches |
| Parking.IsFirstUnique | ParkingLot/ParkingLot.java:130-138 | there is only one first matching slot |
| Parking.FirstMatchSpec | ParkingLot/ParkingLot.java:130-138 | the search finds nothing iff no slot matches, and otherwise exactly the first match |
| Parking.Fee | ParkingLot/ParkingLot.java:170-188 | the fee is the type's rate (car 20, bike 10, truck 50) times the duration while the `long` product cannot overflow |
| Parking.FeeMonotone | ParkingLot/ParkingLot.java:170-188 | a longer duration never costs less |
| Parking.Billed | ParkingLot/ParkingLot.java:205 | a duration of 0 is billed as 1, so nothing is billed as 0 |
| Parking.TwoSecondStay | ParkingLot/ParkingLot.java:202-206 | as written, the demo's two-second car stay costs 40000 rather than the one-hour fee of 20 |
| Parking.FareByHours | ParkingLot/ParkingLot.java:202-206 | as corrected, the fare is the rate times the whole hours of the stay, one hour at least |
| Parking.FareMonotone | ParkingLot/ParkingLot.java:202-206 | a later exit never costs less |
| Parking.Row | ParkingLot/ParkingLot.java:100-102 | the states of a floor's slots, one per slot in order |
| Parking.ParkingLot.View | ParkingLot/ParkingLot.java:114 | the lot's slot states, one row per floor |
| Parking.ParkingLot.constructor | ParkingLot/ParkingLot.java:116-119 | a new lot has no floors |
| Parking.ParkingLot.AddFloor | ParkingLot/ParkingLot.java:125-127 | the floor is appended to the lot |
| Parking.ParkingLot.FindFirst | ParkingLot/ParkingLot.java:130-138 | the nested loops find exactly `FirstMatch` of the lot's current state |
| Parking.ParkingLot.ParkVehicle | ParkingLot/ParkingLot.java:129-140 | with no free slot of the type the lot is unchanged and the exception's message is returned; otherwise the first free slot of the type gets the vehicle, a ticket for it is returned, no other slot changes, and consistency is kept |
| Parking.ParkingLot.UnparkVehicle | ParkingLot/ParkingLot.java:141-152 | with no occupied slot of that number the lot is unchanged and an error is returned; otherwise the first such slot is emptied, no other changes, and consistency is kept |
| Parking.ParkingLot.KeepsConsistent | ParkingLot/ParkingLot.java:129-152 | changing one slot to a consistent state keeps every slot consistent |
| Library.Book.constructor | LibrarySystem/LibraryService.java:10-18 | a new book has its isbn, title and author and is available |
| Library.Book.Mark | LibrarySystem/LibraryService.java:27-29 | the book's status becomes the given one |
| Library.User.constructor | LibrarySystem/LibraryService.java:35-42 | a new user has its id and name and no transactions |
| Library.LastOnLatest | LibrarySystem/LibraryService.java:77 | the kind of the latest ledger entry for a book is its last transaction kind |
| Library.RecordKeepsMatch | LibrarySystem/LibraryService.java:93-97 | marking the book and appending its transaction keeps every ledger book's status equal to its last transaction |
| Library.AsWrittenIncludes | LibrarySystem/LibraryService.java:127-133 | as written, every issue entry of the user whose book is now issued is listed |
| Library.HeldIndices | LibrarySystem/LibraryService.java:127-133 | the ledger positions where the user's issue is the book's latest transaction, in increasing order |
| Library.HeldIndicesComplete | LibrarySystem/LibraryService.java:127-133 | every such position is included |
| Library.HeldBySpec | LibrarySystem/LibraryService.java:121-133 | the corrected list has no repeats and holds exactly the books whose latest transaction is this user's issue; they are all issued and all listed as written |
| Library.ReissuedBookStillListed | LibrarySystem/LibraryService.java:127-133 | as written, a book u1 borrowed and returned and u2 then borrowed is still listed for u1, while the corrected list is empty |
| Library.LowerTwice | LibrarySystem/LibraryService.java:145 | lower-casing twice is lower-casing once |
| Library.LibraryService.constructor | LibrarySystem/LibraryService.java:74-77 | the service starts with no books, users or transactions |
| Library.LibraryService.AddBook | LibrarySystem/LibraryService.java:80-82 | the book is stored under its isbn, replacing any earlier one; nothing else changes |
| Library.LibraryService.AddUser | LibrarySystem/LibraryService.java:84-86 | the user is stored under its id; nothing else changes |
| Library.LibraryService.IssueBook | LibrarySystem/LibraryService.java:88-99 | succeeds iff the book and user exist and the book is available; then the book is issued and the transaction is added to the user and the ledger; otherwise nothing changes |
| Library.LibraryService.ReturnBook | LibrarySystem/LibraryService.java:101-112 | succeeds iff the book and user exist and the book is issued, by anyone; then the book is available again and the return is recorded; otherwise nothing changes |
| Library.LibraryService.SearchSpec | LibrarySystem/LibraryService.java:117-158 | a book is found iff its title or author, lower-cased, contains the lower-cased query; the query's case does not matter and the empty query finds every book |
| Library.LibraryService.BooksIssuedTo | LibrarySystem/LibraryService.java:127-133 | the corrected list has no repeats and, in a consistent library, holds only issued books |
| Library.IssueThenReturn | LibrarySystem/LibraryService.java:171-173 | an issue that succeeds is followed by a return that succeeds, leaving the book available and two ledger entries |
| Feed.NewUser | SocialMedia/FeedService.java:19-31 | a new user follows themselves and has no tweets |
| Feed.Ensure | SocialMedia/FeedService.java:40-42 | `computeIfAbsent` adds a new user only when the id is missing and changes no existing user |
| Feed.FollowIdempotent | SocialMedia/FeedService.java:53-55 | following the same user twice is the same as following once |
| Feed.FollowThenUnfollow | SocialMedia/FeedService.java:53-59 | following someone not yet followed and unfollowing them again leaves only the created follower record |
| Feed.NewestInQueue | SocialMedia/FeedService.java:70-72 | a non-empty queue has a node whose timestamp is at least every other's, the one `poll` returns |
| Feed.PollStep | SocialMedia/FeedService.java:84-88 | polling the newest node, adding its tweet and queueing its successor keeps the merge invariant |
| Feed.QueueStep | SocialMedia/FeedService.java:85-87 | the queue keeps holding exactly the next unread node of each non-exhausted list |
| Feed.TakeStep | SocialMedia/FeedService.java:85-86 | taking the next node of a list keeps the taken positions exactly the read prefixes of the lists |
| Feed.TakeNewest | SocialMedia/FeedService.java:84-88 | when the taken tweet is at least as new as every unread tweet, every unread tweet stays no newer than every result |
| Feed.PollDone | SocialMedia/FeedService.java:84-89 | when the queue is empty or ten tweets are taken, the result is the feed: at most ten tweets, distinct positions, newest first, none unread newer, and everything read when fewer than ten |
| Feed.Merge | SocialMedia/FeedService.java:70-89 | the priority-queue loop returns at most ten tweets, newest first, and they are the newest ten across the lists (all of them when fewer) |
| Feed.NewestOfRest | SocialMedia/FeedService.java:70-72 | the polled node is at least as new as every unread tweet of every list, since each list is newest first |
| Feed.Touched | SocialMedia/FeedService.java:78-79 | calling `user` on each id adds new users for the missing ids and changes no existing one |
| Feed.TouchedStep | SocialMedia/FeedService.java:78-79 | one more `user` call extends the touched set by that id |
| Feed.TouchedOk | SocialMedia/FeedService.java:78-79 | creating users keeps every user well formed |
| Feed.EnsureOk | SocialMedia/FeedService.java:40-42 | `computeIfAbsent` keeps every user well formed |
| Feed.PrependOk | SocialMedia/FeedService.java:47-50 | prepending a tweet with the next id and a later timestamp keeps the list newest first with strictly falling ids |
| Feed.Posted | SocialMedia/FeedService.java:45-52 | posting puts the tweet at the head of its author's list, creating the author if needed, and changes no other user |
| Feed.PostedOk | SocialMedia/FeedService.java:45-52 | posting keeps every user well formed for the next id and the new time |
| Feed.FollowedOk | SocialMedia/FeedService.java:53-55 | following keeps every user well formed, including following themselves |
| Feed.UnfollowedOk | SocialMedia/FeedService.java:56-59 | unfollowing keeps every user well formed, as nobody can unfollow themselves |
| Feed.UserOkLater | SocialMedia/FeedService.java:36 | a user well formed for some id counter and time stays so for later ones |
| Feed.ListsNewestFirst | SocialMedia/FeedService.java:22-23 | every followed user's tweet list is newest first |
| Feed.FeedIsFollowed | SocialMedia/FeedService.java:78-88 | every tweet in a feed was written by someone the reader follows |
| Feed.FeedService.constructor | SocialMedia/FeedService.java:35-37 | the service starts with the tweet id counter at 1 and no users |
| Feed.FeedService.PostTweet | SocialMedia/FeedService.java:45-52 | the tweet gets the current id, the counter increases by one, and the tweet heads its author's list |
| Feed.FeedService.Follow | SocialMedia/FeedService.java:53-55 | the follower, created if needed, now follows the followee; nothing else changes |
| Feed.FeedService.Unfollow | SocialMedia/FeedService.java:56-59 | the follower, created if needed, no longer follows the followee unless it is themselves; nothing else changes |
| Feed.FeedService.SeedQueue | SocialMedia/FeedService.java:78-81 | every followed id gets a user, and the queue holds exactly the head of each non-empty followed list |
| Feed.FeedService.GetNewsFeed | SocialMedia/FeedService.java:62-90 | the reader and their followees are created if needed; the result is the newest ten tweets of the followed users, newest first, all by followed users |

## Left out

- Locking is not modelled. `ReentrantLock` and the concurrent maps in the banking service, the in-memory database and the two rate limiters are dropped, and every operation is atomic and sequential.
- Banking.BankingService.Deposit: models the intended body. The stray `lock.unlock()` at BankingSystem/BankingService.java:65 would throw `IllegalMonitorStateException` in Java.
- The key/value store's background sweep is not modelled as a task. The `ScheduledExecutorService`, its period and `close()` are left out, and the sweep body is the method `KeyValueStore.Store.Sweep`, run when the caller chooses.
- Wall-clock reads (`System.currentTimeMillis`, `Instant.now`) become a `now` parameter. `LocalDate` in library transactions is dropped because nothing reads it.
- Floating point is not modelled:
  - VendingMachine/VencdingMachine.java and CabBooking/CabBooking.java are not part of this model; their state is float prices, balances, ratings and distances.
  - The token count of the token bucket and the parking fees are `int`. In the source these doubles only ever hold whole numbers.
- Parking.Fee: the fee is the exact `long` product. Java widens it to a `double`, which rounds products above 2^53; that rounding is not modelled.
- VehicleRental.VehicleRentalService.AddVehicle: the vehicle keeps the price it is given. The ×1.1 surcharge when a type is at least 80% booked (a `double` computation, VehicleRental/VehicleRentalService.java:48-60, 81-82) is not applied.
- Console and file I/O are left out: every `main` driver, printing, `printLL`, the command loop that reads a file in the vehicle rental service, and the `toString` methods (`Tweet`, `Book`). Where a demo states outcomes, those are proved as lemmas or methods named `Demo`/`Main…`.
- Scheduler/EventBooking.java holds only comments and is not part of this model.
- Scheduler/NonOverlappingSlotBooking.java does not compile as written: it has stray prose, a misnamed constructor, and `Slot`, the validation interface and the exception classes are missing. `Slot` is a pair of start and end strings. Validation and conflict exceptions are `Err` results. A failed `Integer.parseInt` is an error outcome.
- Java reference semantics are simplified:
  - String `==` (in `unparkVehicle` and `FILE_COPY_AT`) is value equality.
  - The static `fileMap` of the file system is instance state.
- Null-pointer paths: `getBalance` with no log entry at or before the requested time is an `Err` result.
- InMemoryDB.Database.Delete: requires the key to be present. `delete` on an absent key throws a `NullPointerException` in Java, and that path is not modelled.
- LRU.LRUCache.constructor: merges `new LRUCache()` with `lrucache_intialise`. Re-initialising a cache that is already in use is not modelled.
- LRU.LRUCache.Put: requires a non-zero capacity. With capacity 0, Java's `put` evicts the head sentinel and fails with a `NullPointerException`.
- `List.sort` with a comparator is a stable insertion sort by that comparator. `sorted().limit(k)` is the first k elements under a strict total order.
- Vehicle rental branches are datatype values holding references to their vehicles. Branches are never aliased, and the vehicles stay objects.
- VehicleRental.Vehicle.IsAvailable: requires a non-empty period to lie within the 24 hours. An empty period is always allowed. Hours outside the day make Java throw `ArrayIndexOutOfBoundsException`, which is not modelled; the same holds for `Book` and the branch and service operations.
- Text is handled as ASCII and code points, not as Java's full Unicode rules:
  - `toLowerCase` and `equalsIgnoreCase` fold only the letters A-Z. Java folds every letter, and `toLowerCase()` also depends on the default locale.
  - `Integer.parseInt` accepts only the digits 0-9. Java also accepts other Unicode decimal digits.
  - `String.compareTo` is compared by code point. Java compares UTF-16 units, and the two differ for supplementary characters.
- InMemoryDB.Database.GetAt: the case-insensitive field match folds only ASCII letters, as stated above.
- InMemoryDB.Database.DeleteAt: the case-insensitive field match folds only ASCII letters, as stated above.
- Library.LibraryService.SearchSpec: lower-casing folds only ASCII letters, as stated above. The same holds for the user-id match of `booksIssuedTo` and the meridian test of slot booking.
- Library.LibraryService.SearchSpec: search yields the set of matching books. The Java list's order is hash-map iteration order, so it is not modelled.
- Feed.FeedService.PostTweet: the tweet id counter is an unbounded `nat`, so `long` overflow after 2^63 tweets is not modelled. The method also requires the clock not to go backwards: each tweet's time is at least the previous one's.
- Feed: each user's singly linked list of tweet nodes is a sequence, newest first. Nodes are only ever prepended and never relinked.
- Feed.Merge: when two queued tweets have the same timestamp, the choice between them is left open, as `PriorityQueue` does not specify it. The feed is specified for every such choice.

## Findings

| source | as written | input that shows it | evidently intended | confidence | as-written member | corrected member |
|---|---|---|---|---|---|---|
| BankingSystem/BankingService.java:113-117 | the comparator sorts summaries by outgoing ascending, so `topSpenders` lists the smallest spenders | two accounts that spent 50 and 0, n = 1: the account that spent 0 is listed | sort by outgoing descending, ties by id | high, not executed | Banking.AscendingRankingOmitsTopSpender | Banking.TopSpendersSpendMost |
| RateLimiter/FixedWindowRateLimiter.java:37 | the clock is `Instant.EPOCH`, always 0, so the window never ends | four requests, then more after the window length: all later ones are still blocked | read the current time | high, not executed | FixedWindow.EpochDemo | FixedWindow.Demo |
| RateLimiter/TokenBucketLimiter.java:34 | the clock is `Instant.EPOCH`, always 0, so the bucket never refills | six requests empty the bucket, and later requests stay blocked after any wait | read the current time | high, not executed | TokenBucket.EpochDemo | TokenBucket.Demo |
| Scheduler/NonOverlappingSlotBooking.java:59-73 | `bookTime` ignores the boolean `validate` returns | start "10:00 AM:x", end "11:00 AM": `validate` is false, yet the slot is booked | refuse the slot when `validate` is false | medium, not executed | SlotBooking.MalformedStartIsBooked | SlotBooking.SlotBookingManager.BookTime |
| ParkingLot/ParkingLot.java:202-206 | the milliseconds since entry are billed as hours | a car staying 2000 ms pays 40000 instead of 20 | bill whole hours, at least one | high, not executed | Parking.TwoSecondStay | Parking.FareByHours |
| LibrarySystem/LibraryService.java:127-133 | `booksIssuedTo` keeps any issue by the user whose book is now issued, even if someone else holds it | u1 issues and returns b, then u2 issues b: b is listed for u1 | list the books whose latest transaction is the user's issue | high, not executed | Library.ReissuedBookStillListed | Library.HeldBySpec |
